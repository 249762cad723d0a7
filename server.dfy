/** The request handler (`serve`, `handle_dir`, `handle_file`): the page title, the
    existence check, the directory/file branch and the payload each branch hands to the
    template layer. Templates, the HTTP framework, Markdown conversion and CSV
    tokenising are outside the model; a payload names what they receive. */
module Server {
  import opened Wrappers
  import opened Text
  import opened FsTree
  import opened Navigation
  import opened SizeFormat
  import opened DirListing
  import opened FileKinds

  /** The last segment of `DATA_PATH`, which is relative to the working directory. */
  const DATA_DIR: string := "data"

  const README_NAME: string := "README.md"

  /** The filesystem, from its root, and the server's working directory in it. */
  datatype Config = Config(root: Node, workingDir: seq<string>)

  function DataPath(cfg: Config): seq<string>
  {
    cfg.workingDir + [DATA_DIR]
  }

  /** Exceptions the handler does not catch, each answered with status 500. */
  datatype Fault =
    | SizeOutOfUnitTable   // `human_format` indexes past the unit table
    | ReadmeIsADirectory   // reading "README.md" raises something other than FileNotFoundError
    | UndecodableText      // `read_text` cannot decode the file

  datatype DirPayload = DirPayload(
    readme: Option<string>,
    dirEntries: seq<DirEntry>,
    emptyDirectory: bool,
    title: string,
    breadcrumbs: seq<Breadcrumb>)

  datatype Response =
    | NotFound                                                               // status 404
    | ServerError(fault: Fault)                                              // status 500
    | Bytes(bytes: seq<byte>)                                                // `Response(content=...)`
    | TextFile(title: string, breadcrumbs: seq<Breadcrumb>, content: string)  // "text_file.html"
    | MarkdownFile(title: string, breadcrumbs: seq<Breadcrumb>, source: string) // "markdown_file.html", before conversion
    | CsvFile(title: string, breadcrumbs: seq<Breadcrumb>, lines: seq<string>)  // "csv_file.html", before tokenising
    | Directory(payload: DirPayload)                                         // "directory.html"

  /** `Path.read_text`: the decoded text of a file's bytes, or `None` when they do not
      decode. Decoding belongs to the runtime and is a parameter of the model. */
  type TextReader = seq<byte> -> Option<string>

  /** `str(http_path)`: "." for the empty path, else the segments joined by "/". */
  function PathString(parts: seq<string>): string
  {
    if parts == [] then "." else Join(parts, '/')
  }

  /** The page title: the root's display name for the path ".", else the path itself. */
  function Title(parts: seq<string>): string
  {
    var s := PathString(parts);
    if s == "." then ROOT_DIR_NAME else s
  }

  /** Segments as pathlib's `parts` yields them for a relative path: never empty, never
      ".", never holding a "/" (".." is kept). */
  ghost predicate PathlibParts(parts: seq<string>)
  {
    forall k :: 0 <= k < |parts| ==> parts[k] != "" && parts[k] != "." && '/' !in parts[k]
  }

  /** The title is the root's name exactly for the root path, and otherwise the path
      string, from which the segments can be read back. */
  lemma TitleRule(parts: seq<string>)
    requires PathlibParts(parts)
    ensures parts == [] ==> Title(parts) == ROOT_DIR_NAME
    ensures parts != [] ==> Title(parts) == Join(parts, '/') && Split(Title(parts), '/') == parts
  {
    if |parts| == 1 {
      assert Join(parts, '/') == parts[0];
    } else if |parts| >= 2 {
      JoinHasSeparator(parts, '/');
      assert Join(parts, '/') != ".";
    }
    if parts != [] {
      SplitJoin(parts, '/');
    }
  }

  /** `handle_file`: raw bytes for a download or an unrecognised suffix, else the text
      of the file in the matching preview. */
  function HandleFile(crumbs: seq<Breadcrumb>, download: bool, data: seq<byte>, name: string,
                      title: string, readText: TextReader): (r: Response)
    ensures download ==> r == Bytes(data)
    ensures r.Bytes? <==> Classify(download, Suffix(name)) == RawBytes
    ensures r.Bytes? ==> r.bytes == data
    ensures r.ServerError? <==> Classify(download, Suffix(name)) != RawBytes && readText(data).None?
    ensures r.TextFile? <==> Classify(download, Suffix(name)) == PlainText && readText(data).Some?
    ensures r.MarkdownFile? <==> Classify(download, Suffix(name)) == Markdown && readText(data).Some?
    ensures r.CsvFile? <==> Classify(download, Suffix(name)) == Csv && readText(data).Some?
    ensures r.TextFile? ==> r == TextFile(title, crumbs, readText(data).value)
    ensures r.MarkdownFile? ==> r == MarkdownFile(title, crumbs, readText(data).value)
    ensures r.CsvFile? ==>
      && r.title == title && r.breadcrumbs == crumbs
      && |r.lines| >= 1
      && Join(r.lines, '\n') == readText(data).value
      && forall k :: 0 <= k < |r.lines| ==> '\n' !in r.lines[k]
  {
    var kind := Classify(download, Suffix(name));
    if kind == RawBytes then Bytes(data)
    else
      match readText(data)
      case None => ServerError(UndecodableText)
      case Some(text) =>
        match kind
        case PlainText => TextFile(title, crumbs, text)
        case Markdown => MarkdownFile(title, crumbs, text)
        case Csv => JoinSplit(text, '\n'); CsvFile(title, crumbs, Split(text, '\n'))
  }

  /** The optional README of a directory: absent when there is no "README.md" child (the
      caught FileNotFoundError), its text when it is a readable file. */
  function ReadReadme(entries: seq<Entry>, readText: TextReader): (r: Result<Option<string>, Fault>)
    ensures r == Ok(None) <==> Child(entries, README_NAME).None?
    ensures r.Ok? && r.value.Some? <==>
      Child(entries, README_NAME).Some? && Child(entries, README_NAME).value.File? &&
      readText(Child(entries, README_NAME).value.data).Some?
    ensures r.Ok? && r.value.Some? ==>
      r.value.value == readText(Child(entries, README_NAME).value.data).value
  {
    match Child(entries, README_NAME)
    case None => Ok(None)
    case Some(Dir(_)) => Err(ReadmeIsADirectory)
    case Some(File(data)) =>
      match readText(data)
      case None => Err(UndecodableText)
      case Some(text) => Ok(Some(text))
  }

  /** `handle_dir`: one row per listed child, the empty flag and the optional README. */
  function HandleDir(entries: seq<Entry>, crumbs: seq<Breadcrumb>, title: string,
                     readText: TextReader): (r: Response)
    ensures r.Directory? || r.ServerError?
    ensures r.ServerError? <==>
      (exists k :: 0 <= k < |entries| && RawSize(entries[k].node) >= Pow(1000, 6)) ||
      ReadReadme(entries, readText).Err?
    ensures r.Directory? ==>
      && |r.payload.dirEntries| == |entries|
      && (forall k :: 0 <= k < |entries| ==>
            r.payload.dirEntries[k].name == entries[k].name &&
            r.payload.dirEntries[k].path == entries[k].name + "/" &&
            Ok(r.payload.dirEntries[k].size) == HumanSize(RawSize(entries[k].node)))
      && (r.payload.emptyDirectory <==> entries == [])
      && (r.payload.readme.None? <==> Child(entries, README_NAME).None?)
      && r.payload.readme == ReadReadme(entries, readText).value
      && r.payload.title == title
      && r.payload.breadcrumbs == crumbs
  {
    match ListEntries(entries)
    case Err(_) => ServerError(SizeOutOfUnitTable)
    case Ok(dirEntries) =>
      match ReadReadme(entries, readText)
      case Err(fault) => ServerError(fault)
      case Ok(readme) => Directory(DirPayload(readme, dirEntries, |dirEntries| == 0, title, crumbs))
  }

  /** `serve`: the request path is joined to the data directory segment by segment, with
      no normalisation and no containment check, then resolved. */
  function Serve(cfg: Config, parts: seq<string>, download: bool, readText: TextReader): Response
  {
    var title := Title(parts);
    var fsPath := DataPath(cfg) + parts;
    match Resolve(cfg.root, fsPath)
    case None => NotFound
    case Some(node) =>
      var crumbs := Breadcrumbs(parts);
      match node
      case Dir(entries) => HandleDir(entries, crumbs, title, readText)
      case File(data) => HandleFile(crumbs, download, data, fsPath[|fsPath| - 1], title, readText)
  }

  /** 404 exactly when the joined path does not exist, before any branch is taken. */
  lemma ServeNotFound(cfg: Config, parts: seq<string>, download: bool, readText: TextReader)
    ensures Serve(cfg, parts, download, readText) == NotFound <==>
      Resolve(cfg.root, DataPath(cfg) + parts).None?
  {
  }

  /** A directory gets a listing page (or a 500): one row per child in listing order,
      named by the child and linked by its name and "/", flagged empty exactly when the
      directory is empty, with a README exactly when "README.md" exists, the title rule
      and the breadcrumbs of the path. */
  lemma ServeDirectory(cfg: Config, parts: seq<string>, download: bool, readText: TextReader,
                       entries: seq<Entry>)
    requires Resolve(cfg.root, DataPath(cfg) + parts) == Some(Dir(entries))
    ensures var r := Serve(cfg, parts, download, readText);
      && (r.Directory? || r.ServerError?)
      && (r.ServerError? <==>
            (exists k :: 0 <= k < |entries| && RawSize(entries[k].node) >= Pow(1000, 6)) ||
            ReadReadme(entries, readText).Err?)
      && (r.Directory? ==>
            && |r.payload.dirEntries| == |entries|
            && (forall k :: 0 <= k < |entries| ==>
                  r.payload.dirEntries[k].name == entries[k].name &&
                  r.payload.dirEntries[k].path == entries[k].name + "/")
            && (r.payload.emptyDirectory <==> entries == [])
            && (r.payload.readme.None? <==> Child(entries, README_NAME).None?)
            && r.payload.title == Title(parts)
            && r.payload.breadcrumbs == Breadcrumbs(parts))
  {
  }

  /** A file never gets a listing page: a download gives its bytes whatever the suffix,
      and otherwise the suffix picks the preview. */
  lemma ServeFile(cfg: Config, parts: seq<string>, download: bool, readText: TextReader,
                  data: seq<byte>)
    requires Resolve(cfg.root, DataPath(cfg) + parts) == Some(File(data))
    ensures var r := Serve(cfg, parts, download, readText);
      && !r.Directory? && !r.NotFound?
      && r == HandleFile(Breadcrumbs(parts), download, data,
                         (DataPath(cfg) + parts)[|DataPath(cfg) + parts| - 1], Title(parts), readText)
      && (download ==> r == Bytes(data))
      && (r.Bytes? <==> Classify(download, Suffix((DataPath(cfg) + parts)[|DataPath(cfg) + parts| - 1])) == RawBytes)
  {
  }

  /** A request path without ".." resolves inside the data directory: to what it names
      when resolved from the data directory itself, on a trail that extends the data
      directory's. */
  lemma PathWithoutParentStaysInData(cfg: Config, parts: seq<string>, dataTrail: seq<Node>)
    requires forall k :: 0 <= k < |parts| ==> parts[k] != ".."
    requires Walk([cfg.root], DataPath(cfg)) == Some(dataTrail)
    ensures Walk([cfg.root], DataPath(cfg) + parts) == Walk(dataTrail, parts)
    ensures Walk(dataTrail, parts).Some? ==>
      |Walk(dataTrail, parts).value| >= |dataTrail| &&
      Walk(dataTrail, parts).value[..|dataTrail|] == dataTrail
  {
    WalkAppend([cfg.root], DataPath(cfg), parts);
    WalkStaysBelow(dataTrail, parts);
  }

  /** The handler does not confine requests to the data directory: with the data
      directory at /srv/data, the path "../secret.txt" serves /srv/secret.txt. */
  lemma ParentSegmentEscapesData(readText: TextReader)
    ensures
      var secret := File([42]);
      var srv := Dir([Entry("data", Dir([])), Entry("secret.txt", secret)]);
      var cfg := Config(Dir([Entry("srv", srv)]), ["srv"]);
      Serve(cfg, ["..", "secret.txt"], true, readText) == Bytes([42])
  {
    var secret := File([42]);
    var data := Dir([]);
    var srv := Dir([Entry("data", data), Entry("secret.txt", secret)]);
    var root := Dir([Entry("srv", srv)]);
    var cfg := Config(root, ["srv"]);
    var up := ["..", "secret.txt"];
    assert DataPath(cfg) == ["srv", "data"];
    assert Child(root.entries, "srv") == Some(srv);
    assert Child(srv.entries, "data") == Some(data);
    assert Child(srv.entries, "secret.txt") == Some(secret);
    WalkIntoChild([root, srv], "secret.txt", secret);
    assert [root, srv] + [secret] == [root, srv, secret];
    assert Walk([root, srv, data], up) == Some([root, srv, secret]) by {
      assert up[1..] == ["secret.txt"];
      assert [root, srv, data][..2] == [root, srv];
    }
    WalkAppend([root], ["srv", "data"], up);
    WalkIntoChild([root], "srv", srv);
    WalkIntoChild([root, srv], "data", data);
    WalkAppend([root], ["srv"], ["data"]);
    assert [root] + [srv] == [root, srv];
    assert [root, srv] + [data] == [root, srv, data];
    assert ["srv"] + ["data"] == ["srv", "data"];
    assert DataPath(cfg) + up == ["srv", "data", "..", "secret.txt"];
  }

  /** A data directory holding a directory "docs" and a 5-byte file "readme.txt". */
  function ExampleConfig(): Config
  {
    Config(Dir([Entry("data", Dir([Entry("docs", Dir([])), Entry("readme.txt", File([104, 101, 108, 108, 111]))]))]), [])
  }

  lemma ExampleResolves()
    ensures Resolve(ExampleConfig().root, DataPath(ExampleConfig()) + [])
      == Some(Dir([Entry("docs", Dir([])), Entry("readme.txt", File([104, 101, 108, 108, 111]))]))
    ensures Resolve(ExampleConfig().root, DataPath(ExampleConfig()) + ["readme.txt"])
      == Some(File([104, 101, 108, 108, 111]))
  {
    var note := File([104, 101, 108, 108, 111]);
    var entries := [Entry("docs", Dir([])), Entry("readme.txt", note)];
    var dataDir := Dir(entries);
    var root := ExampleConfig().root;
    assert DataPath(ExampleConfig()) == ["data"];
    assert Child(root.entries, "data") == Some(dataDir);
    WalkIntoChild([root], "data", dataDir);
    assert [root] + [dataDir] == [root, dataDir];
    assert ["data"] + [] == ["data"];
    assert Child(entries, "readme.txt") == Some(note);
    WalkIntoChild([root, dataDir], "readme.txt", note);
    assert [root, dataDir] + [note] == [root, dataDir, note];
    WalkAppend([root], ["data"], ["readme.txt"]);
    assert ["data"] + ["readme.txt"] == ["data", "readme.txt"];
  }

  /** GET / lists both children, is not empty and has no README. */
  lemma RootListingExample(readText: TextReader)
    ensures
      var home := Serve(ExampleConfig(), [], false, readText);
      && home.Directory?
      && |home.payload.dirEntries| == 2
      && home.payload.dirEntries[0].path == "docs/"
      && home.payload.dirEntries[1].path == "readme.txt/"
      && !home.payload.emptyDirectory
      && home.payload.readme == None
      && home.payload.title == ROOT_DIR_NAME
  {
    var note := File([104, 101, 108, 108, 111]);
    var entries := [Entry("docs", Dir([])), Entry("readme.txt", note)];
    ExampleResolves();
    ServeDirectory(ExampleConfig(), [], false, readText, entries);
    OnlyFilesMeansZero([]);
    PowMonotonic(1, 6);
    assert RawSize(entries[0].node) == 0;
    assert RawSize(entries[1].node) == 5;
    assert Child(entries, README_NAME).None?;
    TitleRule([]);
  }

  /** GET /readme.txt shows the decoded text; with `download`, the raw bytes. */
  lemma TextFileExample(readText: TextReader)
    ensures readText([104, 101, 108, 108, 111]).Some? ==>
      Serve(ExampleConfig(), ["readme.txt"], false, readText) ==
        TextFile("readme.txt", Breadcrumbs(["readme.txt"]), readText([104, 101, 108, 108, 111]).value)
    ensures Serve(ExampleConfig(), ["readme.txt"], true, readText) == Bytes([104, 101, 108, 108, 111])
  {
    ExampleResolves();
    var txt := "readme.txt";
    assert (DataPath(ExampleConfig()) + [txt])[1] == txt;
    assert txt[6] == '.' && txt[7] != '.' && txt[8] != '.' && txt[9] != '.';
    assert Suffix(txt) == ".txt" by {
      assert txt[6..] == ".txt";
    }
    assert Title([txt]) == txt by {
      assert Join([txt], '/') == txt;
    }
  }
}
