/** The filesystem the browser reads, as an abstract tree. A directory lists its entries
    in the order `os.listdir` reports them; a regular file holds its bytes. Symbolic
    links, permissions and concurrent changes are not part of this model. */
module FsTree {
  import opened Wrappers

  newtype byte = x: int | 0 <= x < 256

  datatype Node = File(data: seq<byte>) | Dir(entries: seq<Entry>)

  datatype Entry = Entry(name: string, node: Node)

  /** The node called `name` in a listing: the first entry with that name (in a real
      directory names are distinct, so it is the only one). */
  function Child(entries: seq<Entry>, name: string): (r: Option<Node>)
    ensures r.None? <==> forall k :: 0 <= k < |entries| ==> entries[k].name != name
    ensures r.Some? ==> exists k :: 0 <= k < |entries| && entries[k] == Entry(name, r.value)
  {
    if entries == [] then None
    else if entries[0].name == name then Some(entries[0].node)
    else
      var r := Child(entries[1..], name);
      assert r.Some? ==> exists k :: 0 <= k < |entries| - 1 && entries[1..][k] == Entry(name, r.value);
      r
  }

  /** Resolves a relative path one segment at a time from the last node of `trail`, the
      way the operating system resolves it: "." stays where it is, ".." goes back to the
      parent (the root is its own parent), any other segment must name a child of the
      current directory, and no segment can follow a regular file. The result is the
      trail of nodes from the root to the resolved node; `None` means the path does
      not exist. */
  function Walk(trail: seq<Node>, segments: seq<string>): (r: Option<seq<Node>>)
    requires |trail| >= 1
    ensures r.Some? ==> |r.value| >= 1 && r.value[0] == trail[0]
    decreases |segments|
  {
    if segments == [] then Some(trail)
    else
      var here := trail[|trail| - 1];
      if !here.Dir? then None
      else if segments[0] == "." then Walk(trail, segments[1..])
      else if segments[0] == ".." then
        Walk(if |trail| > 1 then trail[..|trail| - 1] else trail, segments[1..])
      else
        match Child(here.entries, segments[0])
        case None => None
        case Some(next) => Walk(trail + [next], segments[1..])
  }

  /** One step down into a named child. */
  lemma WalkIntoChild(trail: seq<Node>, name: string, child: Node)
    requires |trail| >= 1 && trail[|trail| - 1].Dir?
    requires name != "." && name != ".."
    requires Child(trail[|trail| - 1].entries, name) == Some(child)
    ensures Walk(trail, [name]) == Some(trail + [child])
  {
    assert [name][1..] == [];
  }

  /** The node at `path`, resolved from the filesystem root. */
  function Resolve(root: Node, path: seq<string>): Option<Node>
  {
    match Walk([root], path)
    case None => None
    case Some(trail) => Some(trail[|trail| - 1])
  }

  /** Resolving `a + b` is resolving `a` and then `b` from where `a` ended. */
  lemma {:induction false} WalkAppend(trail: seq<Node>, a: seq<string>, b: seq<string>)
    requires |trail| >= 1
    ensures Walk(trail, a + b) ==
      match Walk(trail, a)
      case None => None
      case Some(t) => Walk(t, b)
    decreases |a|
  {
    if a == [] {
      assert a + b == b;
    } else {
      assert (a + b)[0] == a[0];
      assert (a + b)[1..] == a[1..] + b;
      var here := trail[|trail| - 1];
      if here.Dir? {
        if a[0] == "." {
          WalkAppend(trail, a[1..], b);
        } else if a[0] == ".." {
          WalkAppend(if |trail| > 1 then trail[..|trail| - 1] else trail, a[1..], b);
        } else if Child(here.entries, a[0]).Some? {
          WalkAppend(trail + [Child(here.entries, a[0]).value], a[1..], b);
        }
      }
    }
  }

  /** Without a ".." segment a path never leaves the directory it starts from: the trail
      it ends with extends the trail it started with. */
  lemma {:induction false} WalkStaysBelow(trail: seq<Node>, segments: seq<string>)
    requires |trail| >= 1
    requires forall k :: 0 <= k < |segments| ==> segments[k] != ".."
    ensures Walk(trail, segments).Some? ==>
      |Walk(trail, segments).value| >= |trail| && Walk(trail, segments).value[..|trail|] == trail
    decreases |segments|
  {
    if segments != [] {
      var here := trail[|trail| - 1];
      if here.Dir? {
        if segments[0] == "." {
          WalkStaysBelow(trail, segments[1..]);
        } else if Child(here.entries, segments[0]).Some? {
          var next := trail + [Child(here.entries, segments[0]).value];
          WalkStaysBelow(next, segments[1..]);
          var r := Walk(next, segments[1..]);
          if r.Some? {
            assert r.value[..|trail|] == r.value[..|next|][..|trail|];
          }
        }
      }
    }
  }

  function Sum(xs: seq<nat>): nat
  {
    if xs == [] then 0 else xs[0] + Sum(xs[1..])
  }

  lemma {:induction false} SumAppend(xs: seq<nat>, ys: seq<nat>)
    ensures Sum(xs + ys) == Sum(xs) + Sum(ys)
  {
    if xs != [] {
      assert (xs + ys)[1..] == xs[1..] + ys;
      SumAppend(xs[1..], ys);
    } else {
      assert xs + ys == ys;
    }
  }

  lemma {:induction false} SumOfZeros(xs: seq<nat>)
    requires forall k :: 0 <= k < |xs| ==> xs[k] == 0
    ensures Sum(xs) == 0
  {
    if xs != [] {
      SumOfZeros(xs[1..]);
    }
  }

  lemma {:induction false} SumPointwiseLe(xs: seq<nat>, ys: seq<nat>)
    requires |xs| == |ys|
    requires forall k :: 0 <= k < |xs| ==> xs[k] <= ys[k]
    ensures Sum(xs) <= Sum(ys)
  {
    if xs != [] {
      SumPointwiseLe(xs[1..], ys[1..]);
    }
  }

  /** The bytes held by regular files exactly `depth` levels below `node`; depth 0 is the
      node itself. */
  function BytesAtDepth(node: Node, depth: nat): nat
  {
    match node
    case File(data) => if depth == 0 then |data| else 0
    case Dir(entries) =>
      if depth == 0 then 0
      else Sum(seq(|entries|, k requires 0 <= k < |entries| => BytesAtDepth(entries[k].node, depth - 1)))
  }

  /** The bytes held by all regular files anywhere below `node`. */
  function TotalBytes(node: Node): nat
  {
    match node
    case File(data) => |data|
    case Dir(entries) =>
      Sum(seq(|entries|, k requires 0 <= k < |entries| => TotalBytes(entries[k].node)))
  }

  /** The files at any one depth hold no more than the whole tree. */
  lemma {:induction false} BytesAtDepthAtMostTotal(node: Node, depth: nat)
    ensures BytesAtDepth(node, depth) <= TotalBytes(node)
  {
    match node
    case File(_) =>
    case Dir(entries) =>
      if depth > 0 {
        var xs := seq(|entries|, k requires 0 <= k < |entries| => BytesAtDepth(entries[k].node, depth - 1));
        var ys := seq(|entries|, k requires 0 <= k < |entries| => TotalBytes(entries[k].node));
        forall k | 0 <= k < |entries|
          ensures xs[k] <= ys[k]
        {
          BytesAtDepthAtMostTotal(entries[k].node, depth - 1);
        }
        SumPointwiseLe(xs, ys);
      }
  }
}
