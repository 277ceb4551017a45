/** A file as the build scripts see it: its name in a directory listing and its text. */
module Files {
  import opened Text

  datatype SourceFile = SourceFile(name: string, content: string)

  /** The scripts' page filter, `file.endsWith('.html')` (case-sensitive). */
  predicate IsHtmlFile(f: SourceFile) {
    EndsWith(f.name, ".html", false)
  }

  /** `files.forEach(file => { read; rewrite; write })`: each file replaced by
      what `step` makes of it, in order. */
  method MapFiles(files: seq<SourceFile>, step: SourceFile -> SourceFile) returns (written: seq<SourceFile>)
    ensures |written| == |files| && forall i :: 0 <= i < |files| ==> written[i] == step(files[i])
  {
    written := [];
    var i := 0;
    while i < |files|
      invariant 0 <= i <= |files| && |written| == i
      invariant forall j :: 0 <= j < i ==> written[j] == step(files[j])
    {
      written := written + [step(files[i])];
      i := i + 1;
    }
  }
}
