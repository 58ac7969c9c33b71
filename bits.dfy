/**
 * Python's unbounded, non-negative integer bit operations on `nat`:
 * `(x >> i) & 1`, `|`, `^`, `1 << i` and `bin(x).count("1")`, each defined
 * one binary digit at a time.
 */
module Bits {

  /** `1 << n` */
  function Pow2(n: nat): (r: nat)
    ensures r >= 1
  {
    if n == 0 then 1 else 2 * Pow2(n - 1)
  }

  /** `2^64`, the range of a 64-bit mask */
  const Word64: nat := 0x1_0000_0000_0000_0000

  /** `2^128`, the range of an MD5 digest read as a number */
  const Word128: nat := 0x1_0000_0000_0000_0000_0000_0000_0000_0000

  lemma {:induction false} Pow2Add(a: nat, b: nat)
    ensures Pow2(a + b) == Pow2(a) * Pow2(b)
  {
    if a > 0 { Pow2Add(a - 1, b); }
  }

  lemma Pow2Of64()
    ensures Pow2(64) == Word64
  {
    assert Pow2(8) == 256;
    Pow2Add(8, 8);
    Pow2Add(16, 16);
    Pow2Add(32, 32);
  }

  lemma Pow2Of128()
    ensures Pow2(128) == Word128
  {
    Pow2Of64();
    Pow2Add(64, 64);
  }

  /** `(x >> i) & 1 == 1` */
  predicate Bit(x: nat, i: nat) {
    if i == 0 then x % 2 == 1 else Bit(x / 2, i - 1)
  }

  /** `a | b` */
  function Or(a: nat, b: nat): (r: nat)
    ensures forall i: nat :: Bit(r, i) <==> Bit(a, i) || Bit(b, i)
    decreases a + b
  {
    if a == 0 then
      assert forall i: nat :: !Bit(0, i) by { forall i: nat ensures !Bit(0, i) { BitOfZero(i); } }
      b
    else if b == 0 then
      assert forall i: nat :: !Bit(0, i) by { forall i: nat ensures !Bit(0, i) { BitOfZero(i); } }
      a
    else
      var h := Or(a / 2, b / 2);
      var r := 2 * h + (if a % 2 == 1 || b % 2 == 1 then 1 else 0);
      assert r / 2 == h && r % 2 == (if a % 2 == 1 || b % 2 == 1 then 1 else 0);
      assert forall i: nat :: i > 0 ==> (Bit(r, i) <==> Bit(h, i - 1));
      r
  }

  /** `a ^ b` */
  function Xor(a: nat, b: nat): (r: nat)
    ensures forall i: nat :: Bit(r, i) <==> Bit(a, i) != Bit(b, i)
    ensures r == 0 <==> a == b
    decreases a + b
  {
    if a == 0 then
      assert forall i: nat :: !Bit(0, i) by { forall i: nat ensures !Bit(0, i) { BitOfZero(i); } }
      b
    else if b == 0 then
      assert forall i: nat :: !Bit(0, i) by { forall i: nat ensures !Bit(0, i) { BitOfZero(i); } }
      a
    else
      var h := Xor(a / 2, b / 2);
      var r := 2 * h + (if a % 2 != b % 2 then 1 else 0);
      assert r / 2 == h && r % 2 == (if a % 2 != b % 2 then 1 else 0);
      assert forall i: nat :: i > 0 ==> (Bit(r, i) <==> Bit(h, i - 1));
      r
  }

  /** `bin(x).count("1")`: the number of set bits */
  function Popcount(x: nat): (r: nat)
    ensures r == 0 <==> x == 0
    ensures r <= x
  {
    if x == 0 then 0 else x % 2 + Popcount(x / 2)
  }

  lemma {:induction false} BitOfZero(i: nat)
    ensures !Bit(0, i)
  {
    if i > 0 { BitOfZero(i - 1); }
  }

  /** A number below `2^n` has no bit at position `n` or above */
  lemma {:induction false} BitHigh(x: nat, n: nat, i: nat)
    requires x < Pow2(n) && i >= n
    ensures !Bit(x, i)
  {
    if i > 0 {
      if n == 0 { BitHigh(x / 2, 0, i - 1); } else { BitHigh(x / 2, n - 1, i - 1); }
    }
  }

  /** Adding `2^n` leaves the bits below `n` alone */
  lemma {:induction false} BitAddLow(x: nat, n: nat, i: nat)
    requires i < n
    ensures Bit(x + Pow2(n), i) == Bit(x, i)
  {
    assert (x + Pow2(n)) / 2 == x / 2 + Pow2(n - 1);
    if i > 0 { BitAddLow(x / 2, n - 1, i - 1); }
  }

  /** Below `2^n`, adding `2^n` sets bit `n` */
  lemma {:induction false} BitAddTop(x: nat, n: nat)
    requires x < Pow2(n)
    ensures Bit(x + Pow2(n), n)
  {
    if n > 0 {
      assert (x + Pow2(n)) / 2 == x / 2 + Pow2(n - 1);
      BitAddTop(x / 2, n - 1);
    }
  }

  /** `x | (1 << n)` adds `2^n` when bit `n` and all above are clear */
  lemma {:induction false} OrPow2(x: nat, n: nat)
    requires x < Pow2(n)
    ensures Or(x, Pow2(n)) == x + Pow2(n)
  {
    if n > 0 && x > 0 {
      OrPow2(x / 2, n - 1);
    }
  }

  lemma {:induction false} XorSymmetric(a: nat, b: nat)
    ensures Xor(a, b) == Xor(b, a)
    decreases a + b
  {
    if a != 0 && b != 0 { XorSymmetric(a / 2, b / 2); }
  }

  /** Two numbers below `2^n` differ in a number below `2^n` */
  lemma {:induction false} XorBound(a: nat, b: nat, n: nat)
    requires a < Pow2(n) && b < Pow2(n)
    ensures Xor(a, b) < Pow2(n)
  {
    if n > 0 && a != 0 && b != 0 { XorBound(a / 2, b / 2, n - 1); }
  }

  /** A number below `2^n` has at most `n` set bits */
  lemma {:induction false} PopcountBound(x: nat, n: nat)
    requires x < Pow2(n)
    ensures Popcount(x) <= n
  {
    if x > 0 { PopcountBound(x / 2, n - 1); }
  }
}
