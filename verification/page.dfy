/** One pass of `processPage` over the tree (content.ts:180-229): every
    text node the walker accepts is run through `replaceTextInNode`; a node
    whose text changed is replaced by a `span` whose children are what the
    browser parses out of the escaped markup for text without U+0000 or
    CR; the per-node maps are merged.
    The pass leaves a tree on which a second pass finds nothing. */
module Page {
  import opened Chars
  import opened Lexer
  import opened Config
  import opened Wrappers
  import opened Occurrences
  import opened Pieces
  import opened Rewriter
  import opened Censoring
  import opened Markup
  import opened Locator

  /** `document.createElement('span').tagName` in an HTML document. */
  const SpanTag: string := "SPAN"

  /** Index of the first censored piece, or the length when there is none. */
  function FirstCensored(pcs: seq<Piece>): (k: nat)
    ensures k <= |pcs|
    ensures forall i :: 0 <= i < k ==> pcs[i].Plain?
    ensures k < |pcs| ==> pcs[k].Censored?
  {
    if pcs == [] || pcs[0].Censored? then 0 else 1 + FirstCensored(pcs[1..])
  }

  /** The children `span.innerHTML = newText` creates for the rendering of
      `pcs`: each maximal run of plain pieces becomes one text node and
      each censored piece a `span` holding its literal. Runs are kept
      character for character; the parser's dropping of U+0000 and its
      CR normalisation are not modelled. */
  function Fragment(pcs: seq<Piece>): seq<Node>
    decreases |pcs|
  {
    if pcs == [] then []
    else
      var k := FirstCensored(pcs);
      (if k > 0 then [Text(Concat(Source(pcs[..k])))] else [])
      + (if k < |pcs| then [Element(SpanTag, [Text(pcs[k].replacement)])] + Fragment(pcs[k + 1..]) else [])
  }

  /** The node that replaces a text node whose text changed. */
  function CensorSpan(d: string): Node {
    Element(SpanTag, Fragment(Censor(d)))
  }

  /** What `processPage` leaves in place of a text node under `tag`. */
  function RewriteText(tag: string, d: string): Node {
    if EligibleText(tag, d) && ReplaceText(d).newText != d then CensorSpan(d) else Text(d)
  }

  /** The tree after every accepted text node has gone through
      `replaceTextInNode`. Each replacement touches only its own leaf, so
      the order of the script's `forEach` does not matter. */
  function RewriteTree(n: Node): (r: Node)
    ensures n.Element? <==> r.Element?
    ensures r.Element? ==> r.tag == n.tag && |r.children| == |n.children|
    ensures !n.Element? ==> r == n
    decreases n, 1
  {
    match n
    case Element(t, cs) => Element(t, seq(|cs|, i requires 0 <= i < |cs| => RewriteChild(t, cs[i])))
    case _ => n
  }

  function RewriteChild(tag: string, c: Node): Node
    decreases c, 2
  {
    match c
    case Text(d) => RewriteText(tag, d)
    case Comment(_) => c
    case Element(_, _) => RewriteTree(c)
  }

  /** No accepted text node below `n` holds a pattern word. */
  predicate CleanTree(n: Node)
    decreases n, 1
  {
    n.Element? ==> forall i :: 0 <= i < |n.children| ==> CleanChild(n.tag, n.children[i])
  }

  predicate CleanChild(tag: string, c: Node)
    decreases c, 2
  {
    match c
    case Text(d) => EligibleText(tag, d) ==> Inert(Patterns, d)
    case Comment(_) => true
    case Element(_, _) => CleanTree(c)
  }

  /** The occurrence maps `replaceTextInNode` returns for the given sites. */
  function SiteCounts(sites: seq<TextSite>): (r: seq<Counts>)
    ensures |r| == |sites|
    ensures forall k :: 0 <= k < |sites| ==> r[k] == ReplaceText(sites[k].data).counts
  {
    if sites == [] then [] else [ReplaceText(sites[0].data).counts] + SiteCounts(sites[1..])
  }

  /** `allReplacements` of one page pass. */
  function PageCounts(body: Node): Counts {
    MergeAll(map[], SiteCounts(GetTextNodes(body)))
  }

  // ---- the fragment holds no pattern word ----

  /** Text made of plain pieces of a censored reading holds no pattern
      word. */
  lemma PlainRunInert(pcs: seq<Piece>)
    requires CensorOk(pcs)
    requires forall i :: 0 <= i < |pcs| ==> pcs[i].Plain?
    ensures Inert(Patterns, Concat(Source(pcs)))
  {
    var ts := Source(pcs);
    LexConcat(ts);
    forall j | 0 <= j < |Patterns| ensures Quiet(Patterns[j], ts) {
      forall i | 0 <= i < |ts| ensures !Hits(Patterns[j], ts[i]) {
        assert ts[i] == pcs[i].text;
      }
    }
  }

  /** A literal holds no pattern word. */
  lemma LiteralInert(k: nat)
    requires k < |Patterns|
    ensures Inert(Patterns, Patterns[k].replacement)
  {
    LiteralsWithin(k);
    LiteralWordsAreFree();
    forall j | 0 <= j < |Patterns| ensures Quiet(Patterns[j], Lex(Patterns[k].replacement)) {
      QuietBy(Patterns[j], Lex(Patterns[k].replacement), LiteralWords);
    }
  }

  /** Every text node of the fragment, and of every `span` in it, holds no
      pattern word. */
  predicate FragmentInert(nodes: seq<Node>) {
    forall i :: 0 <= i < |nodes| ==>
      match nodes[i]
      case Text(d) => Inert(Patterns, d)
      case Comment(_) => true
      case Element(_, cs) => |cs| == 1 && cs[0].Text? && Inert(Patterns, cs[0].data)
  }

  lemma {:induction false} FragmentIsInert(pcs: seq<Piece>)
    requires CensorOk(pcs)
    ensures FragmentInert(Fragment(pcs))
    decreases |pcs|
  {
    if pcs != [] {
      var k := FirstCensored(pcs);
      var head: seq<Node> := if k > 0 then [Text(Concat(Source(pcs[..k])))] else [];
      PlainHeadInert(pcs, k);
      if k < |pcs| {
        SliceCensorOk(pcs, k + 1);
        FragmentIsInert(pcs[k + 1..]);
        CensoredTailInert(pcs, k);
        FragmentInertAppend(head, [Element(SpanTag, [Text(pcs[k].replacement)])] + Fragment(pcs[k + 1..]));
      } else {
        assert Fragment(pcs) == head + [];
      }
    }
  }

  lemma PlainHeadInert(pcs: seq<Piece>, k: nat)
    requires CensorOk(pcs) && k == FirstCensored(pcs)
    ensures FragmentInert(if k > 0 then [Text(Concat(Source(pcs[..k])))] else [])
  {
    if k > 0 {
      SlicePiecesOk(pcs, 0, k);
      assert CensorOk(pcs[..k]) by {
        forall i | 0 <= i < k ensures pcs[..k][i] == pcs[i] {
        }
      }
      PlainRunInert(pcs[..k]);
    }
  }

  lemma CensoredTailInert(pcs: seq<Piece>, k: nat)
    requires CensorOk(pcs) && k < |pcs| && pcs[k].Censored?
    requires FragmentInert(Fragment(pcs[k + 1..]))
    ensures FragmentInert([Element(SpanTag, [Text(pcs[k].replacement)])] + Fragment(pcs[k + 1..]))
  {
    var j :| 0 <= j < |Patterns| && pcs[k].replacement == Patterns[j].replacement;
    LiteralInert(j);
    FragmentInertAppend([Element(SpanTag, [Text(pcs[k].replacement)])], Fragment(pcs[k + 1..]));
  }

  lemma FragmentInertAppend(a: seq<Node>, b: seq<Node>)
    requires FragmentInert(a) && FragmentInert(b)
    ensures FragmentInert(a + b)
  {
    forall i | |a| <= i < |a + b| ensures (a + b)[i] == b[i - |a|] {
    }
  }

  lemma CensorSpanClean(d: string)
    ensures CleanTree(CensorSpan(d))
  {
    CensorIsOk(d);
    FragmentIsInert(Censor(d));
    FragmentIsClean(Fragment(Censor(d)));
  }

  lemma FragmentIsClean(f: seq<Node>)
    requires FragmentInert(f)
    ensures forall i :: 0 <= i < |f| ==> CleanChild(SpanTag, f[i])
  {
    forall i | 0 <= i < |f| ensures CleanChild(SpanTag, f[i]) {
      if f[i].Element? {
        assert CleanChild(f[i].tag, f[i].children[0]);
      }
    }
  }

  /** A text without a censored piece holds no pattern word. */
  lemma NoMatchInert(d: string)
    requires forall i :: 0 <= i < |Censor(d)| ==> Censor(d)[i].Plain?
    ensures Inert(Patterns, d)
  {
    var ts := Lex(d);
    forall j | 0 <= j < |Patterns| ensures Quiet(Patterns[j], ts) {
      forall i | 0 <= i < |ts| ensures !Hits(Patterns[j], ts[i]) {
        assert Censor(d)[i] == CensorToken(Patterns, ts[i]);
      }
    }
  }

  // ---- the pass settles the tree ----

  /** After one pass no accepted text node holds a pattern word. */
  lemma {:induction false} RewriteIsClean(n: Node)
    ensures CleanTree(RewriteTree(n))
    decreases n, 1
  {
    if n.Element? {
      var r := RewriteTree(n);
      forall i | 0 <= i < |n.children| ensures CleanChild(n.tag, r.children[i]) {
        RewriteChildIsClean(n.tag, n.children[i]);
      }
    }
  }

  lemma {:induction false} RewriteChildIsClean(tag: string, c: Node)
    ensures CleanChild(tag, RewriteChild(tag, c))
    decreases c, 2
  {
    match c
    case Text(d) =>
      if EligibleText(tag, d) && ReplaceText(d).newText != d {
        CensorSpanClean(d);
      } else if EligibleText(tag, d) {
        UnchangedIffNoMatch(d);
        NoMatchInert(d);
      }
    case Comment(_) =>
    case Element(_, _) =>
      RewriteIsClean(c);
  }

  /** A clean tree is left as it is. */
  lemma {:induction false} CleanIsFixed(n: Node)
    requires CleanTree(n)
    ensures RewriteTree(n) == n
    decreases n, 1
  {
    if n.Element? {
      var r := RewriteTree(n);
      forall i | 0 <= i < |n.children| ensures r.children[i] == n.children[i] {
        assert CleanChild(n.tag, n.children[i]);
        CleanChildIsFixed(n.tag, n.children[i]);
      }
      assert r.children == n.children;
    }
  }

  lemma {:induction false} CleanChildIsFixed(tag: string, c: Node)
    requires CleanChild(tag, c)
    ensures RewriteChild(tag, c) == c
    decreases c, 2
  {
    match c
    case Text(d) =>
      if EligibleText(tag, d) {
        ApplyTableInert(Patterns, d);
      }
    case Comment(_) =>
    case Element(_, _) =>
      CleanIsFixed(c);
  }

  /** In a clean tree every accepted text node holds no pattern word. */
  lemma CleanSites(body: Node)
    requires CleanTree(body)
    ensures forall s :: s in Sites(body) && Eligible(s) ==> Inert(Patterns, s.data)
  {
    if body.Element? {
      CleanChildSites(body, 0, []);
    }
  }

  lemma {:induction false} CleanChildSites(n: Node, i: nat, path: seq<nat>)
    requires n.Element? && i <= |n.children| && CleanTree(n)
    ensures forall s :: s in ChildSites(n, i, path) && Eligible(s) ==> Inert(Patterns, s.data)
    decreases n, |n.children| - i
  {
    if i < |n.children| {
      var c := n.children[i];
      assert CleanChild(n.tag, c);
      CleanChildSites(n, i + 1, path);
      if c.Element? {
        CleanChildSites(c, 0, path + [i]);
      }
    }
  }

  /** On a clean tree a pass counts nothing. */
  lemma CleanCountsNothing(body: Node)
    requires CleanTree(body)
    ensures PageCounts(body) == map[]
  {
    var sites := GetTextNodes(body);
    var parts := SiteCounts(sites);
    CleanSites(body);
    GetTextNodesIsFilter(body);
    forall k | 0 <= k < |parts| ensures parts[k] == map[] {
      ApplyTableInert(Patterns, sites[k].data);
      TallyCounts(map[], []);
    }
    MergeAllEmpty(parts);
  }

  /** `processPage` on a tree, with the protection flag it read. */
  datatype PageRun = PageRun(body: Node, flush: Option<Counts>)

  function ProcessPage(enabled: bool, body: Node): (r: PageRun)
    ensures !enabled ==> r == PageRun(body, None)
    ensures r.flush.Some? ==> r.flush.value != map[]
  {
    if !enabled then PageRun(body, None)
    else
      var all := PageCounts(body);
      PageRun(RewriteTree(body), if all == map[] then None else Some(all))
  }

  /** A second page pass finds nothing, flushes nothing and changes
      nothing: the rescans the observer triggers come to rest without any
      marker on processed nodes. */
  lemma SecondPassIsQuiet(enabled: bool, body: Node)
    ensures ProcessPage(enabled, ProcessPage(enabled, body).body) == PageRun(ProcessPage(enabled, body).body, None)
  {
    if enabled {
      var b := RewriteTree(body);
      RewriteIsClean(body);
      CleanIsFixed(b);
      CleanCountsNothing(b);
    }
  }

  /** The merged map holds, per word, its total over the accepted nodes,
      and its metrics are flushed exactly when some node counted a word. */
  lemma PageCountsSpec(body: Node)
    ensures forall w :: Get(PageCounts(body), w) == CountIn(SiteCounts(GetTextNodes(body)), w)
    ensures PageCounts(body) == map[] <==>
      forall k :: 0 <= k < |GetTextNodes(body)| ==> ReplaceText(GetTextNodes(body)[k].data).counts == map[]
  {
    var parts := SiteCounts(GetTextNodes(body));
    MergeAllCounts(map[], parts);
    MergeAllEmpty(parts);
  }

  /** The pass replaces each text node where it stands: at the path of
      every text node of the old tree, the new tree holds what
      `replaceTextInNode` made of it. */
  lemma RewriteAtSites(body: Node)
    ensures forall s :: s in Sites(body) ==> At(RewriteTree(body), s.path) == Some(RewriteText(s.parentTag, s.data))
  {
    if body.Element? {
      RewriteAtChildSites(body, 0, [], body);
    }
  }

  lemma {:induction false} RewriteAtChildSites(n: Node, i: nat, path: seq<nat>, root: Node)
    requires n.Element? && i <= |n.children|
    requires At(root, path) == Some(n) && At(RewriteTree(root), path) == Some(RewriteTree(n))
    ensures forall s :: s in ChildSites(n, i, path) ==> At(RewriteTree(root), s.path) == Some(RewriteText(s.parentTag, s.data))
    decreases n, |n.children| - i
  {
    if i < |n.children| {
      var c := n.children[i];
      var r := RewriteTree(n);
      RewriteAtChildSites(n, i + 1, path, root);
      AtAppend(RewriteTree(root), path, [i]);
      AtCons(r, i, []);
      assert At(RewriteTree(root), path + [i]) == Some(RewriteChild(n.tag, c));
      if c.Element? {
        AtAppend(root, path, [i]);
        AtCons(n, i, []);
        RewriteAtChildSites(c, 0, path + [i], root);
      }
    }
  }

  /** `injectCensorAnimCSS` on the ids present in the document: the style
      element is added only when no element has its id yet. */
  function InjectStyle(ids: seq<string>): (r: seq<string>)
    ensures CensorStyleId in r
    ensures CensorStyleId in ids ==> r == ids
    ensures CensorStyleId !in ids ==> r == ids + [CensorStyleId]
  {
    if CensorStyleId in ids then ids else ids + [CensorStyleId]
  }

  /** Injection never adds a second style with this id, and a second
      injection does nothing. */
  lemma InjectStyleOnce(ids: seq<string>)
    ensures multiset(ids)[CensorStyleId] <= 1 ==> multiset(InjectStyle(ids))[CensorStyleId] == 1
    ensures InjectStyle(InjectStyle(ids)) == InjectStyle(ids)
  {
  }

  /** Every element of a clean tree roots a clean tree. */
  lemma {:induction false} CleanBelow(n: Node, path: seq<nat>)
    requires CleanTree(n) && At(n, path).Some? && At(n, path).value.Element?
    ensures CleanTree(At(n, path).value)
    decreases |path|
  {
    if path != [] {
      var c := n.children[path[0]];
      assert CleanChild(n.tag, c);
      CleanBelow(c, path[1..]);
    }
  }

  /** In a clean tree, the text node at `path` under the element at its
      parent path holds no pattern word if the walker would accept it. */
  lemma CleanTextAt(n: Node, path: seq<nat>, tag: string, cs: seq<Node>, d: string)
    requires CleanTree(n) && |path| > 0
    requires At(n, path[..|path| - 1]) == Some(Element(tag, cs))
    requires At(n, path) == Some(Text(d))
    ensures CleanChild(tag, Text(d))
  {
    var parent := path[..|path| - 1];
    var i := path[|path| - 1];
    CleanBelow(n, parent);
    ChildAt(n, path);
    assert CleanTree(Element(tag, cs));
    assert CleanChild(tag, cs[i]);
  }
}
