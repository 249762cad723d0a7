/** One row of a directory listing (`DirEntry`): the child's name, its link and its
    human-readable size. A file's size is its own length; a directory's size is what its
    two-level glob (any child name, a slash, any grandchild name) finds, which is only
    the files inside its immediate child directories. */
module DirListing {
  import opened Wrappers
  import opened FsTree
  import opened SizeFormat

  datatype DirEntry = DirEntry(name: string, path: string, size: DisplaySize)

  /** The bytes of the regular files the glob matches below one child: nothing when the
      child is a file, the files directly inside it when it is a directory. */
  function FilesInside(node: Node): nat
  {
    match node
    case File(_) => 0
    case Dir(entries) =>
      Sum(seq(|entries|, j requires 0 <= j < |entries| =>
        match entries[j].node
        case File(data) => |data|
        case Dir(_) => 0))
  }

  /** The sum of `st_size` over the regular files that the two-level glob of
      `from_path` matches, for a directory with these entries. */
  function GlobFileBytes(entries: seq<Entry>): nat
  {
    Sum(seq(|entries|, k requires 0 <= k < |entries| => FilesInside(entries[k].node)))
  }

  /** The size shown for a child before formatting. */
  function RawSize(node: Node): nat
  {
    match node
    case Dir(entries) => GlobFileBytes(entries)
    case File(data) => |data|
  }

  /** The glob counts exactly the bytes of the regular files two levels down. */
  lemma GlobIsDepthTwo(entries: seq<Entry>)
    ensures GlobFileBytes(entries) == BytesAtDepth(Dir(entries), 2)
  {
    var xs := seq(|entries|, k requires 0 <= k < |entries| => FilesInside(entries[k].node));
    var ys := seq(|entries|, k requires 0 <= k < |entries| => BytesAtDepth(entries[k].node, 1));
    forall k | 0 <= k < |entries|
      ensures xs[k] == ys[k]
    {
      match entries[k].node
      case File(_) =>
      case Dir(es) =>
        var fs := seq(|es|, j requires 0 <= j < |es| =>
          match es[j].node
          case File(data) => |data|
          case Dir(_) => 0);
        var ds := seq(|es|, j requires 0 <= j < |es| => BytesAtDepth(es[j].node, 0));
        assert fs == ds;
    }
    assert xs == ys;
  }

  /** Files directly inside a directory do not count towards its size. */
  lemma DirectFilesIgnored(entries: seq<Entry>, name: string, data: seq<byte>)
    ensures GlobFileBytes(entries + [Entry(name, File(data))]) == GlobFileBytes(entries)
  {
    var all := entries + [Entry(name, File(data))];
    var xs := seq(|entries|, k requires 0 <= k < |entries| => FilesInside(entries[k].node));
    var ys := seq(|all|, k requires 0 <= k < |all| => FilesInside(all[k].node));
    assert ys == xs + [0];
    SumAppend(xs, [0]);
  }

  /** Nothing three or more levels down counts: the contents of the directories inside a
      child directory can be anything. */
  lemma DeeperContentIgnored(entries: seq<Entry>, k: nat, j: nat, replacement: seq<Entry>)
    requires k < |entries| && entries[k].node.Dir?
    requires j < |entries[k].node.entries| && entries[k].node.entries[j].node.Dir?
    ensures
      var child := entries[k].node.entries;
      var child' := child[j := Entry(child[j].name, Dir(replacement))];
      GlobFileBytes(entries[k := Entry(entries[k].name, Dir(child'))]) == GlobFileBytes(entries)
  {
    var child := entries[k].node.entries;
    var child' := child[j := Entry(child[j].name, Dir(replacement))];
    var entries' := entries[k := Entry(entries[k].name, Dir(child'))];
    assert FilesInside(Dir(child')) == FilesInside(Dir(child)) by {
      var a := seq(|child|, i requires 0 <= i < |child| =>
        match child[i].node case File(data) => |data| case Dir(_) => 0);
      var b := seq(|child'|, i requires 0 <= i < |child'| =>
        match child'[i].node case File(data) => |data| case Dir(_) => 0);
      assert a == b;
    }
    var xs := seq(|entries|, i requires 0 <= i < |entries| => FilesInside(entries[i].node));
    var ys := seq(|entries'|, i requires 0 <= i < |entries'| => FilesInside(entries'[i].node));
    assert xs == ys;
  }

  /** A directory that is empty or holds only files shows size 0. */
  lemma OnlyFilesMeansZero(entries: seq<Entry>)
    requires forall k :: 0 <= k < |entries| ==> entries[k].node.File?
    ensures GlobFileBytes(entries) == 0
  {
    SumOfZeros(seq(|entries|, k requires 0 <= k < |entries| => FilesInside(entries[k].node)));
  }

  /** The shown size never exceeds the true total of the files below the directory. */
  lemma GlobAtMostTotal(entries: seq<Entry>)
    ensures GlobFileBytes(entries) <= TotalBytes(Dir(entries))
  {
    GlobIsDepthTwo(entries);
    BytesAtDepthAtMostTotal(Dir(entries), 2);
  }

  /** A directory D holding a directory A with a 10-byte file f and a 5-byte file g
      directly: its size counts f and not g. */
  lemma SizeCountsGrandchildrenOnly()
    ensures GlobFileBytes([Entry("A", Dir([Entry("f", File(seq(10, _ => 0)))])),
                           Entry("g", File(seq(5, _ => 0)))]) == 10
  {
    var es := [Entry("A", Dir([Entry("f", File(seq(10, _ => 0)))])), Entry("g", File(seq(5, _ => 0)))];
    var inner := [Entry("f", File(seq(10, _ => 0)))];
    var a := seq(|inner|, j requires 0 <= j < |inner| =>
      match inner[j].node case File(data) => |data| case Dir(_) => 0);
    assert a == [10];
    assert Sum(a) == 10 + Sum([]);
    assert FilesInside(es[0].node) == 10;
    var xs := seq(|es|, k requires 0 <= k < |es| => FilesInside(es[k].node));
    assert xs == [10, 0];
    assert xs[1..] == [0];
    assert Sum([0]) == 0 + Sum([]);
    assert Sum(xs) == xs[0] + Sum(xs[1..]);
  }

  /** `DirEntry.from_path` for one listed child: its name, the name with a trailing "/"
      as its link (for files too), and its formatted raw size. */
  function FromEntry(e: Entry): (r: Result<DirEntry, FormatError>)
    ensures r.Ok? <==> RawSize(e.node) < Pow(1000, 6)
    ensures r.Ok? ==> r.value.name == e.name && r.value.path == e.name + "/"
    ensures r.Ok? ==> Ok(r.value.size) == HumanSize(RawSize(e.node))
  {
    HumanSizeSpec(RawSize(e.node));
    match HumanSize(RawSize(e.node))
    case Err(err) => Err(err)
    case Ok(size) => Ok(DirEntry(e.name, e.name + "/", size))
  }

  /** The list comprehension over `os.listdir`: one row per child in listing order, or
      the error of the first child whose size is past the unit table. */
  function ListEntries(entries: seq<Entry>): (r: Result<seq<DirEntry>, FormatError>)
    ensures r.Ok? <==> forall k :: 0 <= k < |entries| ==> FromEntry(entries[k]).Ok?
    ensures r.Ok? ==> |r.value| == |entries|
    ensures r.Ok? ==> forall k :: 0 <= k < |entries| ==> r.value[k] == FromEntry(entries[k]).value
  {
    if entries == [] then Ok([])
    else
      match FromEntry(entries[0])
      case Err(err) => Err(err)
      case Ok(first) =>
        match ListEntries(entries[1..])
        case Err(err) => Err(err)
        case Ok(rest) =>
          assert forall k :: 1 <= k < |entries| ==> entries[k] == entries[1..][k - 1];
          Ok([first] + rest)
  }
}
