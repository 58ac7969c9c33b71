/** What an `os.walk` over a repository hands the agents: file names and their texts. */
module Sources {
  import opened Wrappers
  import opened Text

  /** A walked file: its name and its text, `None` when opening or reading it raised */
  datatype SourceFile = SourceFile(name: string, content: Option<string>)

  /** `name.endswith(exts)` for a tuple of suffixes; the name is not lower-cased */
  predicate HasSuffixIn(name: string, exts: seq<string>) {
    exists j :: 0 <= j < |exts| && EndsWith(name, exts[j])
  }
}
