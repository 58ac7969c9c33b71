/**
 * `detect_language`: the Tree-sitter grammar key for a file path, chosen by
 * its lower-cased extension as `os.path.splitext` (POSIX) computes it.
 */
module LanguageDetector {
  import opened Wrappers
  import opened Text

  /** `EXTENSION_LANGUAGE_MAP` */
  const ExtensionLanguageMap: map<string, string> := map[
    ".py" := "python",
    ".java" := "java",
    ".c" := "c",
    ".cpp" := "cpp",
    ".cc" := "cpp",
    ".cxx" := "cpp",
    ".h" := "cpp",
    ".js" := "javascript",
    ".jsx" := "javascript",
    ".ts" := "typescript",
    ".tsx" := "tsx"
  ]

  /** `s.rfind(c)`: the last index of `c` in `s`, or -1 */
  function RFind(s: string, c: char): (i: int)
    ensures -1 <= i < |s|
    ensures i >= 0 ==> s[i] == c
    ensures forall j :: i < j < |s| ==> s[j] != c
  {
    if s == [] then -1
    else if s[|s| - 1] == c then |s| - 1
    else RFind(s[..|s| - 1], c)
  }

  /** Some character of `p[from..to]` is not a dot (the leading-dots loop of `splitext`) */
  predicate NonDotBetween(p: string, from: int, to: int)
    requires -1 <= from && to <= |p|
  {
    exists q :: from <= q < to && 0 <= q && p[q] != '.'
  }

  /**
   * The extension part of `os.path.splitext(p)`: from the last dot of the
   * final path component to the end, provided a non-dot character precedes
   * that dot in the component; otherwise empty.
   */
  function Extension(p: string): (ext: string)
    ensures ext == [] || (|ext| <= |p| && ext == p[|p| - |ext|..] && ext[0] == '.' && '.' !in ext[1..] && '/' !in ext)
    ensures ext != [] <==> exists q, d :: 0 <= q < d < |p| && p[d] == '.' && p[q] != '.' && '/' !in p[q..]
  {
    var sepIndex := RFind(p, '/');
    var dotIndex := RFind(p, '.');
    if dotIndex > sepIndex && NonDotBetween(p, sepIndex + 1, dotIndex) then
      var ext := p[dotIndex..];
      assert ext[1..] == p[dotIndex + 1..];
      var q :| sepIndex + 1 <= q < dotIndex && 0 <= q && p[q] != '.';
      assert '/' !in p[q..];
      ext
    else
      assert !exists q, d :: 0 <= q < d < |p| && p[d] == '.' && p[q] != '.' && '/' !in p[q..] by {
        forall q, d | 0 <= q < d < |p| && p[d] == '.' && p[q] != '.'
          ensures '/' in p[q..]
        {
          assert d <= dotIndex;
          assert 0 <= q <= sepIndex;
          assert p[q..][sepIndex - q] == '/';
        }
      }
      []
  }

  /** `detect_language(file_path)`; `None` stands for an absent path */
  function DetectLanguage(filePath: Option<string>): (r: Option<string>)
    ensures filePath == None || filePath == Some("") ==> r == None
    ensures filePath.Some? && filePath.value != "" ==>
      (r.Some? <==> Extension(Lower(filePath.value)) in ExtensionLanguageMap)
    ensures r.Some? ==> r.value == ExtensionLanguageMap[Extension(Lower(filePath.value))]
  {
    if filePath == None || filePath.value == "" then None
    else
      var ext := Extension(Lower(filePath.value));
      if ext in ExtensionLanguageMap then Some(ExtensionLanguageMap[ext]) else None
  }

  /** The table's keys: eleven extensions, each a dot and lower-case letters */
  lemma TableKeys()
    ensures ExtensionLanguageMap.Keys == {".py", ".java", ".c", ".cpp", ".cc", ".cxx", ".h", ".js", ".jsx", ".ts", ".tsx"}
    ensures forall e :: e in ExtensionLanguageMap ==> |e| >= 2 && e[0] == '.' && Lower(e) == e
  {
  }

  /** The table's grammars: C++ has four extensions, JavaScript two */
  lemma TableValues()
    ensures ExtensionLanguageMap.Values == {"python", "java", "c", "cpp", "javascript", "typescript", "tsx"}
    ensures forall e :: e in ExtensionLanguageMap && ExtensionLanguageMap[e] == "cpp" <==> e in {".cpp", ".cc", ".cxx", ".h"}
  {
    var m := ExtensionLanguageMap;
    assert m[".py"] == "python" && m[".java"] == "java" && m[".c"] == "c" && m[".cpp"] == "cpp";
    assert m[".js"] == "javascript" && m[".ts"] == "typescript" && m[".tsx"] == "tsx";
    forall v | v in m.Values ensures v in {"python", "java", "c", "cpp", "javascript", "typescript", "tsx"} {
      var e :| e in m && m[e] == v;
    }
  }

  lemma LowerIdempotent(s: string)
    ensures Lower(Lower(s)) == Lower(s)
  {
  }

  /** Matching is case-insensitive: the path is lower-cased before it is split */
  lemma DetectIgnoresCase(p: string)
    ensures DetectLanguage(Some(p)) == DetectLanguage(Some(Lower(p)))
  {
    LowerIdempotent(p);
  }

  /** An extensionless path, such as a dot file, has no language */
  lemma NoExtensionNoLanguage(p: string)
    requires Extension(Lower(p)) == []
    ensures DetectLanguage(Some(p)) == None
  {
    assert "" !in ExtensionLanguageMap;
  }

  /** `.h` is C++, whatever the directories */
  lemma DetectHeader()
    ensures DetectLanguage(Some("src/util.h")) == Some("cpp")
  {
    var p := "src/util.h";
    assert Lower(p) == p;
    assert Extension(p) == ".h" by {
      assert p[8] == '.' && p[4] != '.' && p[4..] == "util.h";
    }
  }

  /** `.JSX` is JavaScript: case is ignored */
  lemma DetectUpperCaseJsx()
    ensures DetectLanguage(Some("App.JSX")) == Some("javascript")
  {
    var p := "app.jsx";
    assert Lower("App.JSX") == p;
    assert Extension(p) == ".jsx" by {
      assert p[3] == '.' && p[0] != '.' && p[0..] == p;
    }
  }

  /** A dot file such as `.py` has no extension */
  lemma DetectDotFile()
    ensures DetectLanguage(Some(".py")) == None
  {
    var p := ".py";
    assert Lower(p) == p;
    assert Extension(p) == [] by {
      forall d | 0 < d < |p| ensures p[d] != '.' { }
    }
    NoExtensionNoLanguage(p);
  }

  /** A dot in a directory name is not an extension */
  lemma DetectDottedDirectory()
    ensures DetectLanguage(Some("a.b/Makefile")) == None
  {
    var p := "a.b/makefile";
    assert Lower("a.b/Makefile") == p;
    assert Extension(p) == [] by {
      forall q, d | 0 <= q < d < |p| && p[d] == '.' ensures '/' in p[q..] {
        assert d == 1 && q == 0;
        assert p[q..][3] == '/';
      }
    }
    NoExtensionNoLanguage("a.b/Makefile");
  }
}
