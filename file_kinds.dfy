/** How a file is shown (`handle_file`): chosen by the download flag and by the file
    name's suffix as pathlib computes it (`PurePath.suffix`). */
module FileKinds {

  /** The suffixes previewed as plain text. */
  const TEXT_SUFFIXES: seq<string> := [".txt", ".css", ".html", ".js", ".rs", ".py"]

  datatype RenderKind = RawBytes | PlainText | Markdown | Csv

  /** `str.rfind('.')`: the index of the last dot, or -1 when there is none. */
  function LastDot(name: string): (r: int)
    ensures -1 <= r < |name|
    ensures r >= 0 ==> name[r] == '.'
    ensures forall j :: r < j < |name| ==> name[j] != '.'
  {
    if name == [] then -1
    else if name[|name| - 1] == '.' then |name| - 1
    else LastDot(name[..|name| - 1])
  }

  /** Position `i` holds the last dot of `name`. */
  ghost predicate IsLastDot(name: string, i: int)
  {
    0 <= i < |name| && name[i] == '.' && forall j :: i < j < |name| ==> name[j] != '.'
  }

  /** pathlib's suffix of a final path component: from its last dot to the end, provided
      that dot is neither the first nor the last character; otherwise empty. This is
      the library's documented behaviour, taken here as an assumption about it. */
  function Suffix(name: string): string
  {
    var i := LastDot(name);
    if 0 < i < |name| - 1 then name[i..] else ""
  }

  lemma SuffixSpec(name: string)
    ensures Suffix(name) != "" <==> exists i :: 0 < i < |name| - 1 && IsLastDot(name, i)
    ensures forall i :: 0 < i < |name| - 1 && IsLastDot(name, i) ==> Suffix(name) == name[i..]
    ensures Suffix(name) != "" ==>
      var r := Suffix(name);
      && 2 <= |r| < |name|
      && r[0] == '.'
      && '.' !in r[1..]
      && r == name[|name| - |r|..]
  {
    var d := LastDot(name);
    forall i | 0 < i < |name| - 1 && IsLastDot(name, i)
      ensures d == i
    {
    }
    if 0 < d < |name| - 1 {
      assert IsLastDot(name, d);
      var r := name[d..];
      assert forall j :: 1 <= j < |r| ==> r[j] == name[d + j];
    }
  }

  lemma SuffixExamples()
    ensures Suffix("notes.md") == ".md"
    ensures Suffix("archive.tar.gz") == ".gz"
    ensures Suffix(".bashrc") == ""
    ensures Suffix("trailing.") == ""
    ensures Suffix("README") == ""
  {
    var md := "notes.md";
    assert md[5] == '.' && md[6] != '.' && md[7] != '.';
    assert md[5..] == ".md";
    var gz := "archive.tar.gz";
    assert gz[11] == '.' && gz[12] != '.' && gz[13] != '.';
    assert gz[11..] == ".gz";
    var tr := "trailing.";
    assert tr[8] == '.';
  }

  /** The branch `handle_file` takes: raw bytes whenever a download is asked for;
      otherwise the text suffixes, then ".md", then ".csv", and raw bytes for every
      other suffix. */
  function Classify(download: bool, suffix: string): (k: RenderKind)
    ensures download ==> k == RawBytes
    ensures !download ==> (k == PlainText <==> suffix in TEXT_SUFFIXES)
    ensures !download ==> (k == Markdown <==> suffix == ".md")
    ensures !download ==> (k == Csv <==> suffix == ".csv")
    ensures k == RawBytes <==> download || (suffix !in TEXT_SUFFIXES && suffix != ".md" && suffix != ".csv")
  {
    if download then RawBytes
    else if suffix in TEXT_SUFFIXES then PlainText
    else if suffix == ".md" then Markdown
    else if suffix == ".csv" then Csv
    else RawBytes
  }

  lemma ClassifyExamples()
    ensures Classify(false, Suffix("notes.md")) == Markdown
    ensures Classify(false, Suffix("script.py")) == PlainText
    ensures Classify(false, Suffix("data.csv")) == Csv
    ensures Classify(false, Suffix("image.png")) == RawBytes
    ensures Classify(false, Suffix("NOTES.TXT")) == RawBytes
    ensures Classify(true, Suffix("notes.md")) == RawBytes
  {
    SuffixExamples();
    var py := "script.py";
    assert py[6] == '.' && py[7] != '.' && py[8] != '.';
    assert py[6..] == ".py";
    var csv := "data.csv";
    assert csv[4] == '.' && csv[5] != '.' && csv[6] != '.' && csv[7] != '.';
    assert csv[4..] == ".csv";
    var png := "image.png";
    assert png[5] == '.' && png[6] != '.' && png[7] != '.' && png[8] != '.';
    assert png[5..] == ".png";
    var txt := "NOTES.TXT";
    assert txt[5] == '.' && txt[6] != '.' && txt[7] != '.' && txt[8] != '.';
    assert txt[5..] == ".TXT";
  }
}
