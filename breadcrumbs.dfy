/** Navigation links above every page: a crumb for the browsing root, then one crumb
    per segment of the request path. Each link is relative to the current page. */
module Navigation {
  import opened Text

  /** The display name of the browsing root (main.py's `ROOT_DIR_NAME`). */
  const ROOT_DIR_NAME: string := "Files"

  /** One level up in a relative link. */
  const UP: string := "../"

  datatype Breadcrumb = Breadcrumb(name: string, link: string)

  const ROOT_CRUMB: Breadcrumb := Breadcrumb(ROOT_DIR_NAME, "/")

  /** The crumbs of one directory, seen from a directory one level deeper: every link
      climbs one more level. */
  function Climb(crumbs: seq<Breadcrumb>): (r: seq<Breadcrumb>)
  {
    seq(|crumbs|, k requires 0 <= k < |crumbs| => Breadcrumb(crumbs[k].name, UP + crumbs[k].link))
  }

  /** The crumbs of the page at `parts`, defined by descent: the crumbs of the parent
      page with every segment link climbing one more level, then a crumb for the last
      segment that links to the page itself. */
  function Breadcrumbs(parts: seq<string>): (r: seq<Breadcrumb>)
    ensures |r| == |parts| + 1
    decreases |parts|
  {
    if parts == [] then [ROOT_CRUMB]
    else
      var parent := Breadcrumbs(parts[..|parts| - 1]);
      [parent[0]] + Climb(parent[1..]) + [Breadcrumb(parts[|parts| - 1], "")]
  }

  /** The root crumb comes first, and the crumb of segment `i` is named by it and climbs
      once for every segment after it. */
  ghost predicate ShapedFor(crumbs: seq<Breadcrumb>, parts: seq<string>)
  {
    && |crumbs| == |parts| + 1
    && crumbs[0] == ROOT_CRUMB
    && forall i :: 0 <= i < |parts| ==> crumbs[i + 1] == Breadcrumb(parts[i], Repeat(UP, |parts| - i - 1))
  }

  lemma {:induction false} BreadcrumbsShape(parts: seq<string>)
    ensures ShapedFor(Breadcrumbs(parts), parts)
    decreases |parts|
  {
    if parts != [] {
      var n := |parts|;
      var init := parts[..n - 1];
      BreadcrumbsShape(init);
      var parent := Breadcrumbs(init);
      var r := Breadcrumbs(parts);
      assert r == [parent[0]] + Climb(parent[1..]) + [Breadcrumb(parts[n - 1], "")];
      forall i | 0 <= i < n
        ensures r[i + 1] == Breadcrumb(parts[i], Repeat(UP, n - i - 1))
      {
        if i < n - 1 {
          assert r[i + 1] == Climb(parent[1..])[i];
          assert parent[i + 1] == Breadcrumb(init[i], Repeat(UP, n - 1 - i - 1));
          assert Repeat(UP, n - i - 1) == UP + Repeat(UP, n - 1 - i - 1);
        } else {
          assert Repeat(UP, 0) == "";
        }
      }
    }
  }

  /** The root path "." has no segments and only the root crumb. */
  lemma RootPathCrumbs()
    ensures Breadcrumbs([]) == [Breadcrumb("Files", "/")]
  {
  }

  /** The last crumb links to the page itself, and every earlier segment crumb's link is
      one "../" (three characters) longer than the next one's. */
  lemma BreadcrumbLinkLengths(parts: seq<string>)
    requires |parts| >= 1
    ensures Breadcrumbs(parts)[|parts|].link == ""
    ensures forall i :: 1 <= i < |parts| ==>
      |Breadcrumbs(parts)[i].link| == |Breadcrumbs(parts)[i + 1].link| + 3
  {
    BreadcrumbsShape(parts);
    var r := Breadcrumbs(parts);
    var n := |parts|;
    assert r[n] == Breadcrumb(parts[n - 1], Repeat(UP, 0));
    forall i | 1 <= i < n
      ensures |r[i].link| == |r[i + 1].link| + 3
    {
      assert r[(i - 1) + 1] == Breadcrumb(parts[i - 1], Repeat(UP, n - (i - 1) - 1));
      assert r[i + 1] == Breadcrumb(parts[i], Repeat(UP, n - i - 1));
    }
  }

  /** `generate_breadcrumbs`: a root crumb, then one crumb appended per segment. */
  method GenerateBreadcrumbs(parts: seq<string>) returns (crumbs: seq<Breadcrumb>)
    ensures ShapedFor(crumbs, parts)
    ensures crumbs == Breadcrumbs(parts)
  {
    crumbs := [ROOT_CRUMB];
    for i := 0 to |parts|
      invariant |crumbs| == i + 1
      invariant crumbs[0] == ROOT_CRUMB
      invariant forall k :: 0 <= k < i ==> crumbs[k + 1] == Breadcrumb(parts[k], Repeat(UP, |parts| - k - 1))
    {
      var amountOfSubdirs := |parts| - i - 1;
      crumbs := crumbs + [Breadcrumb(parts[i], Repeat(UP, amountOfSubdirs))];
    }
    BreadcrumbsShape(parts);
    var spec := Breadcrumbs(parts);
    forall k | 0 <= k < |crumbs|
      ensures crumbs[k] == spec[k]
    {
      if k > 0 {
        var j := k - 1;
        assert crumbs[j + 1] == Breadcrumb(parts[j], Repeat(UP, |parts| - j - 1));
        assert spec[j + 1] == Breadcrumb(parts[j], Repeat(UP, |parts| - j - 1));
      }
    }
  }
}
