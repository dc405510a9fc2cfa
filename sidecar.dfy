/** The checksum sidecar convention shared by the download scripts: a file
    `<artifact>.sha256` holding the single line `<digest>  <artifact>\n`, the
    line format of `sha256sum`. */
module Sidecar {
  import opened Text

  /** The content written to the sidecar file. */
  function Line(digest: string, name: string): string {
    digest + "  " + name + "\n"
  }

  lemma StripLine(digest: string, name: string)
    requires digest != [] && name != [] && NoSpace(digest) && NoSpace(name)
    ensures Strip(Line(digest, name)) == digest + "  " + name
  {
    var body := digest + "  " + name;
    var line := Line(digest, name);
    assert line == body + ['\n'];
    assert !IsSpace(line[0]) by { assert line[0] == digest[0]; }
    assert TrimLeft(line) == line;
    assert line[..|line| - 1] == body;
    assert !IsSpace(body[|body| - 1]) by { assert body[|body| - 1] == name[|name| - 1]; }
    assert TrimRight(body) == body;
  }

  lemma SplitBody(digest: string, name: string)
    requires digest != [] && name != [] && NoSpace(digest) && NoSpace(name)
    ensures Split(digest + "  " + name) == [digest, name]
  {
    assert digest + "  " + name == digest + ("  " + name);
    SplitWordThenSpace(digest, "  " + name);
    SplitSkipsLeadingSpace("  ", name);
    assert name + "" == name;
    SplitWordThenSpace(name, "");
  }

  /** Read back with `line.strip().split()`, a sidecar line gives its digest and
      its file name, in that order, whenever neither holds whitespace. */
  lemma {:induction false} LineSplits(digest: string, name: string)
    requires digest != [] && name != [] && NoSpace(digest) && NoSpace(name)
    ensures Split(Strip(Line(digest, name))) == [digest, name]
  {
    StripLine(digest, name);
    SplitBody(digest, name);
  }
}
