/**
 * Repository-level fingerprints: the file filter of the directory walk and
 * the composition that concatenates the tokens of every readable code file
 * and fingerprints them with SimHash and winnowing. The walk itself and
 * the reading of files are inputs.
 */
module Manager {
  import opened Wrappers
  import opened Text
  import opened Patterns
  import opened Bits
  import opened Lists
  import SimHash
  import Winnowing

  /** The file extensions treated as code */
  const CodeExts: seq<string> := [".py", ".js", ".java", ".ts", ".cpp", ".c", ".hpp", ".h"]

  /** Directory names whose presence anywhere in a walked path skips it */
  const SkipDirs: seq<string> := ["node_modules", ".git", "venv", "__pycache__", "dist", "build"]

  /** `file.lower().endswith(CODE_EXTS)` */
  predicate IsCodeFile(name: string) {
    exists j :: 0 <= j < |CodeExts| && EndsWith(Lower(name), CodeExts[j])
  }

  /** `any(skip in root for skip in SKIP_DIRS)`: a substring test, not a path-component test */
  predicate SkippedRoot(root: string) {
    exists j :: 0 <= j < |SkipDirs| && Contains(root, SkipDirs[j])
  }

  /** A skipped directory stays skipped whatever is appended to its path */
  lemma SkippedExtends(root: string, more: string)
    requires SkippedRoot(root)
    ensures SkippedRoot(root + more)
  {
    var j :| 0 <= j < |SkipDirs| && Contains(root, SkipDirs[j]);
    ContainsExtends(root, SkipDirs[j], more);
  }

  /** Any path containing `build` as a substring, such as `rebuild`, is skipped */
  lemma SubstringSkipped(pre: string, post: string)
    ensures SkippedRoot(pre + "build" + post)
  {
    var s := pre + "build" + post;
    assert s[|pre|..|pre| + 5] == "build";
    assert OccursAt(s, SkipDirs[5], |pre|);
    assert Contains(s, SkipDirs[5]);
  }

  /** Upper-case extensions are selected too: the name is lower-cased first */
  lemma UpperCaseSelected(stem: string)
    ensures IsCodeFile(stem + ".PY")
  {
    var s := stem + ".PY";
    var l := Lower(s);
    assert l[|l| - 3..] == ".py" by {
      assert l[|l| - 3] == LowerChar('.') && l[|l| - 2] == LowerChar('P') && l[|l| - 1] == LowerChar('Y');
    }
    assert EndsWith(l, CodeExts[0]);
  }

  /** One directory of an `os.walk` listing: its path and its file names */
  datatype WalkEntry = WalkEntry(root: string, files: seq<string>)

  /** `os.path.join(root, name)` for a plain file name */
  function JoinPath(root: string, name: string): (p: string)
    ensures EndsWith(p, name)
  {
    var p := if root == [] || EndsWith(root, "/") then root + name else root + "/" + name;
    assert p[|p| - |name|..] == name;
    p
  }

  /** `iter_code_files`: the paths of code files in directories that are not skipped, in walk order */
  function CodeFiles(walk: seq<WalkEntry>): (paths: seq<string>)
    ensures forall p :: p in paths ==> exists e, f :: e in walk && !SkippedRoot(e.root) && f in e.files && IsCodeFile(f) && p == JoinPath(e.root, f)
    ensures forall e, f :: e in walk && !SkippedRoot(e.root) && f in e.files && IsCodeFile(f) ==> JoinPath(e.root, f) in paths
  {
    if walk == [] then []
    else
      var e := walk[|walk| - 1];
      assert forall x :: x in walk ==> x in walk[..|walk| - 1] || x == e;
      CodeFiles(walk[..|walk| - 1]) + SelectedIn(e, e.files)
  }

  /** The code files of one directory, in the order the walk lists them */
  function SelectedIn(e: WalkEntry, files: seq<string>): (paths: seq<string>)
    ensures forall p :: p in paths ==> exists f :: f in files && !SkippedRoot(e.root) && IsCodeFile(f) && p == JoinPath(e.root, f)
    ensures !SkippedRoot(e.root) ==> forall f :: f in files && IsCodeFile(f) ==> JoinPath(e.root, f) in paths
    ensures SkippedRoot(e.root) ==> paths == []
  {
    if SkippedRoot(e.root) || files == [] then []
    else
      var f := files[|files| - 1];
      assert forall x :: x in files ==> x in files[..|files| - 1] || x == f;
      SelectedIn(e, files[..|files| - 1]) + (if IsCodeFile(f) then [JoinPath(e.root, f)] else [])
  }

  /** Selection keeps the walk's order: the files of `a` come before those of `b` */
  lemma {:induction false} SelectedInAppend(e: WalkEntry, a: seq<string>, b: seq<string>)
    ensures SelectedIn(e, a + b) == SelectedIn(e, a) + SelectedIn(e, b)
    decreases |b|
  {
    if b != [] && !SkippedRoot(e.root) {
      var b' := b[..|b| - 1];
      assert (a + b)[..|a + b| - 1] == a + b';
      SelectedInAppend(e, a, b');
    } else if b == [] {
      assert a + b == a;
    }
  }

  /** Directories keep the walk's order too */
  lemma {:induction false} CodeFilesAppend(a: seq<WalkEntry>, b: seq<WalkEntry>)
    ensures CodeFiles(a + b) == CodeFiles(a) + CodeFiles(b)
    decreases |b|
  {
    if b == [] {
      assert a + b == a;
    } else {
      var b' := b[..|b| - 1];
      assert (a + b)[..|a + b| - 1] == a + b';
      CodeFilesAppend(a, b');
    }
  }

  // ------------------------------------------------------------- tokens

  /**
   * The tokens one file contributes: nothing when it could not be read or
   * is blank, otherwise the tokens of its normalised text.
   */
  function FileTokens(content: Option<string>): (ts: seq<string>)
    ensures content.None? || AllSpace(content.value) ==> ts == []
  {
    match content
    case None => []
    case Some(code) => if Strip(code) == [] then [] else SimHash.Tokenize(SimHash.NormalizeCode(code))
  }

  /** `all_tokens`: the in-order concatenation of every file's tokens */
  function RepoTokens(files: seq<Option<string>>): seq<string>
  {
    ConcatMap(FileTokens, files)
  }

  /** The tokens of the first `i + 1` files extend those of the first `i` */
  lemma RepoTokensStep(files: seq<Option<string>>, i: nat)
    requires i < |files|
    ensures RepoTokens(files[..i + 1]) == RepoTokens(files[..i]) + FileTokens(files[i])
  {
    assert files[..i + 1][..i] == files[..i];
  }

  /** An unreadable file is skipped; the files around it still count */
  lemma UnreadableSkipped(a: seq<Option<string>>, b: seq<Option<string>>)
    ensures RepoTokens(a + [None] + b) == RepoTokens(a + b)
  {
    ConcatMapSkip(FileTokens, a, None, b);
  }

  /** A file that is blank after stripping is skipped the same way */
  lemma BlankSkipped(a: seq<Option<string>>, code: string, b: seq<Option<string>>)
    requires AllSpace(code)
    ensures RepoTokens(a + [Some(code)] + b) == RepoTokens(a + b)
  {
    ConcatMapSkip(FileTokens, a, Some(code), b);
  }

  /** Blank text normalises to nothing, so the blank-file check only saves work */
  lemma BlankHasNoTokens(code: string)
    requires AllSpace(code)
    ensures SimHash.Tokenize(SimHash.NormalizeCode(code)) == []
  {
    assert '/' !in code && '#' !in code by {
      forall i | 0 <= i < |code| ensures code[i] != '/' && code[i] != '#' { assert IsSpace(code[i]); }
    }
    SimHash.StripCodeCommentsNoSlash(code);
    HashAbsent(code);
    DropLineCommentsNoMarker(code, "#");
    CollapseBlank(code);
    assert SimHash.NormalizeCode(code) == [];
    NoStartNoMatch([], Identifier, 0);
  }

  // ------------------------------------------------------- fingerprints

  /** The repository-level result */
  datatype Fingerprints = Fingerprints(repoSimhash: nat, winnowing: set<nat>, totalTokens: nat)

  /**
   * `compute_fingerprints_for_repo` over the contents of the selected files
   * in walk order (`None` for a file that could not be opened). `None` is
   * returned only when `winnow` itself fails, on a window `<= 0`.
   */
  method ComputeFingerprintsForRepo(md5: string -> nat, files: seq<Option<string>>, k: int := Winnowing.DefaultK, window: int := Winnowing.DefaultWindow)
    returns (r: Option<Fingerprints>)
    ensures RepoTokens(files) == [] ==> r == Some(Fingerprints(0, {}, 0))
    ensures RepoTokens(files) != [] ==>
      (r.None? <==> |RepoTokens(files)| >= k && window <= 0)
    ensures r.Some? ==> r.value.totalTokens == |RepoTokens(files)|
    ensures r.Some? ==> r.value.repoSimhash == SimHash.Fingerprint(md5, RepoTokens(files), SimHash.DefaultHashBits)
    ensures r.Some? ==> r.value.repoSimhash < Pow2(SimHash.DefaultHashBits)
    ensures r.Some? && |RepoTokens(files)| < k ==> r.value.winnowing == {}
    ensures r.Some? && RepoTokens(files) != [] && |RepoTokens(files)| >= k ==>
      window >= 1 && r.value.winnowing == Winnowing.Winnowed(Winnowing.KgramHashes(md5, RepoTokens(files), k), window)
  {
    var allTokens: seq<string> := [];
    for i := 0 to |files|
      invariant allTokens == RepoTokens(files[..i])
    {
      RepoTokensStep(files, i);
      match files[i] {
        case None =>
        case Some(code) =>
          if Strip(code) != [] {
            var normalized := SimHash.NormalizeCode(code);
            var tokens := SimHash.Tokenize(normalized);
            if tokens != [] {
              allTokens := allTokens + tokens;
            }
          }
      }
    }
    assert files[..|files|] == files;
    assert allTokens == RepoTokens(files);
    if allTokens == [] {
      SimHash.FingerprintEmpty(md5, SimHash.DefaultHashBits);
      return Some(Fingerprints(0, {}, 0));
    }
    var repoSimhash := SimHash.ComputeSimhash(md5, allTokens, SimHash.DefaultHashBits);
    var repoWinnowing := Winnowing.Winnow(md5, allTokens, k, window);
    if repoWinnowing.None? {
      return None;
    }
    return Some(Fingerprints(repoSimhash, repoWinnowing.value, |allTokens|));
  }
}
