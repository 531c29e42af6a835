/** The part of the page the content script reads: a small DOM tree, the
    text nodes under `document.body` with their immediate parent, and the
    `getTextNodes` walker filter (content.ts:123-153). */
module Locator {
  import opened Chars
  import opened Config
  import opened Wrappers

  /** A DOM node as far as the content script looks at it. Element tags
      are kept as the DOM reports `tagName` (upper case for HTML). */
  datatype Node = Text(data: string) | Comment(data: string) | Element(tag: string, children: seq<Node>)

  /** A text node found under the root: where it is (child indices from
      the root), the `tagName` of its parent element, and its text. */
  datatype TextSite = TextSite(path: seq<nat>, parentTag: string, data: string)

  /** The node at `path` below `n`, if there is one. */
  function At(n: Node, path: seq<nat>): Option<Node>
    decreases |path|
  {
    if path == [] then Some(n)
    else if n.Element? && path[0] < |n.children| then At(n.children[path[0]], path[1..])
    else None
  }

  /** Every text node strictly below `n`, in document order. */
  function Sites(n: Node): seq<TextSite> {
    if n.Element? then ChildSites(n, 0, []) else []
  }

  /** Text nodes below children `i..` of element `n`, which sits at `path`. */
  function ChildSites(n: Node, i: nat, path: seq<nat>): seq<TextSite>
    requires n.Element? && i <= |n.children|
    decreases n, |n.children| - i
  {
    if i == |n.children| then []
    else
      var c := n.children[i];
      var here :=
        match c
        case Text(d) => [TextSite(path + [i], n.tag, d)]
        case Comment(_) => []
        case Element(_, _) => ChildSites(c, 0, path + [i]);
      here + ChildSites(n, i + 1, path)
  }

  /** The walker filter: the parent's tag is not skipped and the text does
      not trim to the empty string. The parent always exists below the
      root, so the script's `parent &&` test always passes here. */
  predicate Eligible(site: TextSite) {
    EligibleText(site.parentTag, site.data)
  }

  /** The filter on a parent tag and a text. */
  predicate EligibleText(parentTag: string, data: string) {
    !ShouldSkip(parentTag) && !IsBlank(data)
  }

  /** `getTextNodes`: the walker's accepted nodes. A text node's filter
      answer depends on nothing but the node and its parent, and
      `FILTER_REJECT` on a text node rejects no descendants, so the walk
      keeps exactly the eligible text nodes. */
  function GetTextNodes(body: Node): (r: seq<TextSite>)
    ensures forall k :: 0 <= k < |r| ==> Eligible(r[k])
  {
    if body.Element? then AcceptedChildren(body, 0, []) else []
  }

  function AcceptedChildren(n: Node, i: nat, path: seq<nat>): (r: seq<TextSite>)
    requires n.Element? && i <= |n.children|
    ensures forall k :: 0 <= k < |r| ==> Eligible(r[k])
    decreases n, |n.children| - i
  {
    if i == |n.children| then []
    else
      var c := n.children[i];
      var here :=
        match c
        case Text(d) =>
          var site := TextSite(path + [i], n.tag, d);
          if Eligible(site) then [site] else []
        case Comment(_) => []
        case Element(_, _) => AcceptedChildren(c, 0, path + [i]);
      here + AcceptedChildren(n, i + 1, path)
  }

  /** The eligible sites of a list, in order. */
  function FilterEligible(sites: seq<TextSite>): (r: seq<TextSite>)
    ensures |r| <= |sites|
    ensures forall k :: 0 <= k < |r| ==> Eligible(r[k]) && r[k] in sites
    ensures forall s :: s in sites && Eligible(s) ==> s in r
  {
    if sites == [] then []
    else (if Eligible(sites[0]) then [sites[0]] else []) + FilterEligible(sites[1..])
  }

  lemma {:induction false} FilterAppend(a: seq<TextSite>, b: seq<TextSite>)
    ensures FilterEligible(a + b) == FilterEligible(a) + FilterEligible(b)
    decreases |a|
  {
    if a == [] {
      assert a + b == b;
    } else {
      assert (a + b)[1..] == a[1..] + b;
      FilterAppend(a[1..], b);
    }
  }

  /** The walk keeps, in document order, exactly the eligible text nodes:
      it is the eligible part of the list of all text nodes. */
  lemma GetTextNodesIsFilter(body: Node)
    ensures GetTextNodes(body) == FilterEligible(Sites(body))
  {
    if body.Element? {
      AcceptedIsFilter(body, 0, []);
    }
  }

  lemma {:induction false} AcceptedIsFilter(n: Node, i: nat, path: seq<nat>)
    requires n.Element? && i <= |n.children|
    ensures AcceptedChildren(n, i, path) == FilterEligible(ChildSites(n, i, path))
    decreases n, |n.children| - i
  {
    if i < |n.children| {
      var c := n.children[i];
      AcceptedIsFilter(n, i + 1, path);
      match c
      case Text(d) =>
        var here := [TextSite(path + [i], n.tag, d)];
        FilterAppend(here, ChildSites(n, i + 1, path));
        assert FilterEligible(here) == if Eligible(here[0]) then here else [];
      case Comment(_) =>
        FilterAppend([], ChildSites(n, i + 1, path));
      case Element(_, _) =>
        AcceptedIsFilter(c, 0, path + [i]);
        FilterAppend(ChildSites(c, 0, path + [i]), ChildSites(n, i + 1, path));
    }
  }

  /** Each reported site is a text node holding its data, whose parent is
      an element with the reported tag. */
  predicate SiteIn(root: Node, s: TextSite) {
    && |s.path| > 0
    && At(root, s.path) == Some(Text(s.data))
    && var parent := At(root, s.path[..|s.path| - 1]);
       parent.Some? && parent.value.Element? && parent.value.tag == s.parentTag
  }

  /** The text node at `path` with its parent's tag, when `path` names a
      text node whose parent is an element. */
  function TextAt(n: Node, path: seq<nat>): (r: Option<TextSite>)
    ensures forall s :: r == Some(s) <==> SiteIn(n, s) && s.path == path
  {
    if |path| == 0 then None
    else
      match (At(n, path[..|path| - 1]), At(n, path))
      case (Some(Element(tag, _)), Some(Text(d))) => Some(TextSite(path, tag, d))
      case _ => None
  }

  lemma SitesAreTextNodes(body: Node)
    ensures forall s :: s in Sites(body) ==> SiteIn(body, s)
  {
    if body.Element? {
      ChildSitesAreTextNodes(body, 0, [], body);
    }
  }

  /** Prepending a step to a path walks into that child first. */
  lemma AtCons(n: Node, i: nat, path: seq<nat>)
    requires n.Element? && i < |n.children|
    ensures At(n, [i] + path) == At(n.children[i], path)
  {
    assert ([i] + path)[1..] == path;
  }

  lemma {:induction false} AtAppend(root: Node, p: seq<nat>, q: seq<nat>)
    requires At(root, p).Some?
    ensures At(root, p + q) == At(At(root, p).value, q)
    decreases |p|
  {
    if p != [] {
      assert (p + q)[0] == p[0] && (p + q)[1..] == p[1..] + q;
      AtAppend(root.children[p[0]], p[1..], q);
    } else {
      assert p + q == q;
    }
  }

  lemma {:induction false} ChildSitesAreTextNodes(n: Node, i: nat, path: seq<nat>, root: Node)
    requires n.Element? && i <= |n.children| && At(root, path) == Some(n)
    ensures forall s :: s in ChildSites(n, i, path) ==> SiteIn(root, s)
    decreases n, |n.children| - i
  {
    if i < |n.children| {
      var c := n.children[i];
      ChildSitesAreTextNodes(n, i + 1, path, root);
      AtAppend(root, path, [i]);
      assert At(n, [i]) == Some(c) by {
        AtCons(n, i, []);
      }
      match c
      case Text(d) =>
        var s := TextSite(path + [i], n.tag, d);
        assert s.path[..|s.path| - 1] == path;
      case Comment(_) =>
      case Element(_, _) =>
        ChildSitesAreTextNodes(c, 0, path + [i], root);
    }
  }

  /** Every text node strictly below the root is listed. */
  lemma SitesComplete(body: Node, q: seq<nat>, d: string)
    requires |q| > 0 && At(body, q) == Some(Text(d))
    ensures exists s :: s in Sites(body) && s.path == q && s.data == d
  {
    ChildSitesComplete(body, 0, [], q, d);
  }

  lemma {:induction false} ChildSitesComplete(n: Node, i: nat, path: seq<nat>, q: seq<nat>, d: string)
    requires n.Element? && |q| > 0 && i <= q[0] < |n.children| && At(n, q) == Some(Text(d))
    ensures exists s :: s in ChildSites(n, i, path) && s.path == path + q && s.data == d
    decreases n, |n.children| - i
  {
    var c := n.children[i];
    var rest := ChildSites(n, i + 1, path);
    if q[0] == i {
      if |q| == 1 {
        assert c == Text(d);
        var s := TextSite(path + [i], n.tag, d);
        assert q == [i];
        assert s in ChildSites(n, i, path);
      } else {
        assert c.Element?;
        ChildSitesComplete(c, 0, path + [i], q[1..], d);
        var s :| s in ChildSites(c, 0, path + [i]) && s.path == path + [i] + q[1..] && s.data == d;
        assert path + [i] + q[1..] == path + q;
        assert s in ChildSites(n, i, path);
      }
    } else {
      ChildSitesComplete(n, i + 1, path, q, d);
      var s :| s in rest && s.path == path + q && s.data == d;
      assert s in ChildSites(n, i, path);
    }
  }

  /** Only the immediate parent is checked: text in a `SPAN` inside a `PRE`
      is taken, while text directly inside the `PRE` is not. */
  lemma NestedUnderSkippedElement(body: Node)
    requires body == Element("BODY", [Element("PRE", [Text("job"), Element("SPAN", [Text("job")])])])
    ensures GetTextNodes(body) == [TextSite([0, 1, 0], "SPAN", "job")]
  {
    var pre := body.children[0];
    var site := TextSite([0, 1, 0], "SPAN", "job");
    ExampleEligibility(site, TextSite([0, 0], "PRE", "job"));
    PreWalk(pre, site);
    assert AcceptedChildren(body, 1, []) == [];
    assert [] + [0] == [0];
    assert AcceptedChildren(body, 0, []) == [site];
  }

  lemma ExampleEligibility(site: TextSite, skipped: TextSite)
    requires site == TextSite([0, 1, 0], "SPAN", "job") && skipped == TextSite([0, 0], "PRE", "job")
    ensures Eligible(site) && !Eligible(skipped)
  {
    assert TagLower("PRE") == "pre";
    assert TagLower("SPAN") == "span";
    assert "job"[0] == 'j';
    assert !IsBlank("job");
  }

  lemma PreWalk(pre: Node, site: TextSite)
    requires pre == Element("PRE", [Text("job"), Element("SPAN", [Text("job")])])
    requires site == TextSite([0, 1, 0], "SPAN", "job")
    requires Eligible(site) && !Eligible(TextSite([0, 0], "PRE", "job"))
    ensures AcceptedChildren(pre, 0, [0]) == [site]
  {
    SpanWalk(pre.children[1], site);
    assert AcceptedChildren(pre, 2, [0]) == [];
    assert [0] + [1] == [0, 1];
    assert AcceptedChildren(pre, 1, [0]) == [site];
  }

  lemma SpanWalk(span: Node, site: TextSite)
    requires span == Element("SPAN", [Text("job")])
    requires site == TextSite([0, 1, 0], "SPAN", "job") && Eligible(site)
    ensures AcceptedChildren(span, 0, [0, 1]) == [site]
  {
    assert AcceptedChildren(span, 1, [0, 1]) == [];
    assert [0, 1] + [0] == [0, 1, 0];
  }

  /** `node.replaceWith(m)` for the node at `path`; a path that names no
      node leaves the tree as it is. */
  function ReplaceAt(n: Node, path: seq<nat>, m: Node): (r: Node)
    ensures path == [] ==> r == m
    decreases |path|
  {
    if path == [] then m
    else if n.Element? && path[0] < |n.children| then
      Element(n.tag, n.children[path[0] := ReplaceAt(n.children[path[0]], path[1..], m)])
    else n
  }

  /** The replacement lands where it was aimed. */
  lemma {:induction false} ReplaceAtHits(n: Node, path: seq<nat>, m: Node)
    requires At(n, path).Some?
    ensures At(ReplaceAt(n, path, m), path) == Some(m)
    decreases |path|
  {
    if path != [] {
      ReplaceAtHits(n.children[path[0]], path[1..], m);
    }
  }

  /** Nothing off the replaced node's path changes: every node whose path
      neither leads to nor goes through the replaced one is as before. */
  lemma {:induction false} ReplaceAtOthers(n: Node, path: seq<nat>, m: Node, q: seq<nat>)
    requires !(path <= q) && !(q <= path)
    ensures At(ReplaceAt(n, path, m), q) == At(n, q)
    decreases |path|
  {
    assert path != [] && q != [];
    if n.Element? && path[0] < |n.children| {
      var r := ReplaceAt(n, path, m);
      if q[0] < |n.children| {
        if q[0] == path[0] {
          ReplaceAtOthers(n.children[path[0]], path[1..], m, q[1..]);
        }
      }
    }
  }

  /** Every node strictly above an existing node is an element. */
  lemma {:induction false} AtAbove(n: Node, p: seq<nat>, q: seq<nat>)
    requires p < q && At(n, q).Some?
    ensures At(n, p).Some? && At(n, p).value.Element?
    decreases |p|
  {
    if p != [] {
      AtAbove(n.children[p[0]], p[1..], q[1..]);
    }
  }

  /** Replacing a node keeps every element above it, with its tag. */
  lemma {:induction false} ReplaceAtKeepsAbove(n: Node, path: seq<nat>, m: Node, p: seq<nat>)
    requires p < path && At(n, p).Some? && At(n, p).value.Element?
    ensures var e := At(ReplaceAt(n, path, m), p);
      e.Some? && e.value.Element? && e.value.tag == At(n, p).value.tag
    decreases |p|
  {
    if p != [] {
      ReplaceAtKeepsAbove(n.children[p[0]], path[1..], m, p[1..]);
    }
  }

  /** Replacing one text node leaves every other text site where it was:
      its text and its parent's tag are as before, whether or not the two
      share a parent. */
  lemma ReplaceAtKeepsSite(n: Node, path: seq<nat>, d: string, m: Node, s: TextSite)
    requires At(n, path) == Some(Text(d))
    requires SiteIn(n, s) && s.path != path
    ensures SiteIn(ReplaceAt(n, path, m), s)
  {
    var r := ReplaceAt(n, path, m);
    if path < s.path {
      AtAbove(n, path, s.path);
      assert false;
    }
    if s.path < path {
      AtAbove(n, s.path, path);
      assert false;
    }
    ReplaceAtOthers(n, path, m, s.path);
    var parent := s.path[..|s.path| - 1];
    if parent < path {
      ReplaceAtKeepsAbove(n, path, m, parent);
    } else if parent == path {
      assert false;
    } else {
      assert !(path <= parent);
      ReplaceAtOthers(n, path, m, parent);
    }
  }

  /** The node at a path is a child of the node at the path one step up. */
  lemma ChildAt(n: Node, path: seq<nat>)
    requires |path| > 0 && At(n, path).Some?
    ensures var e := At(n, path[..|path| - 1]);
      e.Some? && e.value.Element? && path[|path| - 1] < |e.value.children|
      && e.value.children[path[|path| - 1]] == At(n, path).value
  {
    var parent := path[..|path| - 1];
    var i := path[|path| - 1];
    assert path == parent + [i];
    AtParent(n, parent, i);
  }

  lemma {:induction false} AtParent(n: Node, parent: seq<nat>, i: nat)
    requires At(n, parent + [i]).Some?
    ensures var e := At(n, parent);
      e.Some? && e.value.Element? && i < |e.value.children| && e.value.children[i] == At(n, parent + [i]).value
    decreases |parent|
  {
    if parent == [] {
      assert [] + [i] == [i];
    } else {
      assert (parent + [i])[1..] == parent[1..] + [i];
      AtParent(n.children[parent[0]], parent[1..], i);
    }
  }
}
