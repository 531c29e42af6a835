/** The script's life on a page (content.ts:66-74 and 231-306): the
    protection flag, the boot sequence, the reaction to a change of the
    flag, the single `MutationObserver` and its callback. Each event runs
    to completion before the next; the storage is the `flag` and `stored`
    fields of the world. */
module Observer {
  import opened Chars
  import opened Config
  import opened Wrappers
  import opened Occurrences
  import opened Rewriter
  import opened Censoring
  import opened Locator
  import opened Page
  import opened MetricsFold

  /** What the storage holds under the protection key: nothing, a boolean,
      or some other value. */
  datatype StoredFlag = Unset | Flag(on: bool) | OtherValue

  /** `enabled !== false`: protection is on unless the flag is `false`. */
  predicate ProtectionOn(v: StoredFlag) {
    v != Flag(false)
  }

  /** The script's `observer` variable and the observers the browser keeps
      connected to the body; observers are told apart by a serial number. */
  datatype Observers = Observers(current: Option<nat>, connected: set<nat>, nextId: nat)

  /** The connected observers are exactly the one the script holds. */
  predicate ObserversOk(o: Observers) {
    && o.connected == (if o.current.Some? then {o.current.value} else {})
    && (o.current.Some? ==> o.current.value < o.nextId)
  }

  /** `startObserver`: the held observer, if any, is disconnected and a new
      one is connected. */
  function StartObserver(o: Observers): (r: Observers)
    ensures r.current == Some(o.nextId) && o.nextId in r.connected
    ensures ObserversOk(o) ==> ObserversOk(r) && |r.connected| == 1
    ensures o.current.None? ==> r.connected == o.connected + {o.nextId}
  {
    var rest := if o.current.Some? then o.connected - {o.current.value} else o.connected;
    Observers(Some(o.nextId), rest + {o.nextId}, o.nextId + 1)
  }

  /** `stopObserver`: the held observer, if any, is disconnected and
      dropped; without one nothing happens. */
  function StopObserver(o: Observers): (r: Observers)
    ensures r.current.None?
    ensures ObserversOk(o) ==> ObserversOk(r) && r.connected == {}
    ensures o.current.None? ==> r == o
  {
    if o.current.Some? then Observers(None, o.connected - {o.current.value}, o.nextId) else o
  }

  /** Everything the script reads or writes: the page body, the ids of
      the document's elements (for the style check), the stored flag, the
      script's `protectionEnabled`, the stored metrics, the observers and
      the page address. */
  datatype World = World(
    body: Node,
    styleIds: seq<string>,
    flag: StoredFlag,
    protection: bool,
    stored: Option<Metrics>,
    observers: Observers,
    url: string)

  /** The world a page starts in: `protectionEnabled` starts out true and
      no observer exists. */
  function Loaded(body: Node, styleIds: seq<string>, flag: StoredFlag, stored: Option<Metrics>, url: string): World {
    World(body, styleIds, flag, true, stored, Observers(None, {}, 0), url)
  }

  /** `updateMetrics(counts)`: it reads the flag (setting
      `protectionEnabled`) and, if on, folds the counts into the record. */
  ghost function FlushMetrics(w: World, counts: Counts): (r: World)
    ensures r.protection == ProtectionOn(w.flag)
    ensures r.(protection := w.protection, stored := w.stored) == w
  {
    var on := ProtectionOn(w.flag);
    w.(protection := on, stored := UpdateMetrics(on, w.stored, counts, w.url))
  }

  /** `processPage`: off, it only records the flag; on, it injects the
      style, creates a missing metrics record, rewrites the page and
      flushes the merged counts when there are any. */
  ghost function RunPage(w: World): (r: World)
    ensures r.protection == ProtectionOn(w.flag)
    ensures !ProtectionOn(w.flag) ==> r == w.(protection := false)
    ensures ProtectionOn(w.flag) ==> r.body == RewriteTree(w.body) && CensorStyleId in r.styleIds
    ensures r.flag == w.flag && r.observers == w.observers && r.url == w.url
  {
    if !ProtectionOn(w.flag) then w.(protection := false)
    else
      var run := ProcessPage(true, w.body);
      var w1 := w.(protection := true, styleIds := InjectStyle(w.styleIds),
                   stored := InitializeMetrics(true, w.stored), body := run.body);
      if run.flush.Some? then FlushMetrics(w1, run.flush.value) else w1
  }

  /** What both the boot sequence and the flag watcher do once
      `protectionEnabled` is set: on, process the page and (re)start the
      observer; off, stop it. */
  ghost function React(w: World): World {
    if w.protection then
      var p := RunPage(w);
      p.(observers := StartObserver(p.observers))
    else w.(observers := StopObserver(w.observers))
  }

  /** `checkProtection().then(...)` at script start. */
  ghost function Boot(w: World): World {
    React(w.(protection := ProtectionOn(w.flag)))
  }

  /** The `storage.watch` handler for a new flag value. */
  ghost function OnProtectionChange(w: World, v: StoredFlag): World {
    React(w.(flag := v, protection := ProtectionOn(v)))
  }

  /** One node of a record's `addedNodes`: a text node (found at a path
      in the current tree, if it is still attached there), an element, or
      anything else. A text node no longer in the tree is skipped, where
      the script still rewrites it while it keeps a parent element. */
  datatype Added = AddedText(path: seq<nat>) | AddedElement | AddedOther

  /** The text branch of the callback: a text node whose parent element
      is not skipped goes through `replaceTextInNode`, and a non-empty map
      is flushed on its own. There is no blank test in this branch. */
  ghost function TextBranch(w: World, path: seq<nat>): World {
    match TextAt(w.body, path)
    case Some(site) => VisitText(w, site)
    case None => w
  }

  ghost function VisitText(w: World, site: TextSite): World {
    if ShouldSkip(site.parentTag) then w
    else
      var d := site.data;
      var rep := ReplaceText(d);
      var w1 := if rep.newText != d then w.(body := ReplaceAt(w.body, site.path, CensorSpan(d))) else w;
      if rep.counts != map[] then FlushMetrics(w1, rep.counts) else w1
  }

  /** The element branch: the whole body is walked again, whatever the
      element, and the merged map is flushed when non-empty. */
  ghost function ElementBranch(w: World): World {
    var run := ProcessPage(true, w.body);
    var w1 := w.(body := run.body);
    if run.flush.Some? then FlushMetrics(w1, run.flush.value) else w1
  }

  ghost function HandleAdded(w: World, a: Added): World {
    match a
    case AddedText(path) => TextBranch(w, path)
    case AddedElement => ElementBranch(w)
    case AddedOther => w
  }

  ghost function HandleNodes(w: World, nodes: seq<Added>): World
    decreases |nodes|
  {
    if nodes == [] then w else HandleNodes(HandleAdded(w, nodes[0]), nodes[1..])
  }

  ghost function HandleRecords(w: World, records: seq<seq<Added>>): World
    decreases |records|
  {
    if records == [] then w else HandleRecords(HandleNodes(w, records[0]), records[1..])
  }

  /** `observerCallback`: nothing at all while `protectionEnabled` is
      false; otherwise every added node of every record, in order. */
  ghost function Callback(w: World, records: seq<seq<Added>>): (r: World)
    ensures !w.protection ==> r == w
  {
    if !w.protection then w else HandleRecords(w, records)
  }

  // ---- the text branch ----

  /** The text branch agrees with the page pass although it has no blank
      test: the node at the path becomes what the page pass makes of it,
      every node off that path stays, and the node's own map is flushed
      when it is non-empty. */
  lemma TextBranchSpec(w: World, site: TextSite)
    requires SiteIn(w.body, site) && !ShouldSkip(site.parentTag)
    ensures var r := TextBranch(w, site.path);
      && At(r.body, site.path) == Some(RewriteText(site.parentTag, site.data))
      && (forall q :: !(site.path <= q) && !(q <= site.path) ==> At(r.body, q) == At(w.body, q))
      && r.stored == (if ReplaceText(site.data).counts == map[] then w.stored
                      else UpdateMetrics(ProtectionOn(w.flag), w.stored, ReplaceText(site.data).counts, w.url))
  {
    assert TextAt(w.body, site.path) == Some(site);
    TextBranchBody(w.body, site.path, site.parentTag, site.data);
  }

  /** The tree after the text branch: the site holds what the page pass
      makes of it, and nothing off its path changes. */
  lemma TextBranchBody(body: Node, path: seq<nat>, tag: string, d: string)
    requires At(body, path) == Some(Text(d))
    requires !ShouldSkip(tag)
    ensures var b := if ReplaceText(d).newText != d then ReplaceAt(body, path, CensorSpan(d)) else body;
      && At(b, path) == Some(RewriteText(tag, d))
      && (forall q :: !(path <= q) && !(q <= path) ==> At(b, q) == At(body, q))
  {
    if IsBlank(d) {
      BlankIsUntouched(d);
    }
    if ReplaceText(d).newText != d {
      ReplaceAtHits(body, path, CensorSpan(d));
      forall q | !(path <= q) && !(q <= path) ensures At(ReplaceAt(body, path, CensorSpan(d)), q) == At(body, q) {
        ReplaceAtOthers(body, path, CensorSpan(d), q);
      }
    }
  }

  /** On a tree where every accepted text node is free of pattern words, a
      text record changes nothing. */
  lemma TextBranchOnClean(w: World, path: seq<nat>)
    requires CleanTree(w.body)
    ensures TextBranch(w, path) == w
  {
    match TextAt(w.body, path)
    case Some(site) =>
      var parent := At(w.body, path[..|path| - 1]).value;
      CleanTextAt(w.body, path, parent.tag, parent.children, site.data);
      if !ShouldSkip(site.parentTag) {
        if IsBlank(site.data) {
          BlankIsUntouched(site.data);
        } else {
          ApplyTableInert(Patterns, site.data);
          assert Tally(map[], []) == map[];
        }
      }
    case None =>
  }

  /** On such a tree the element branch changes nothing and flushes
      nothing. */
  lemma ElementBranchOnClean(w: World)
    requires CleanTree(w.body)
    ensures ElementBranch(w) == w
  {
    CleanIsFixed(w.body);
    CleanCountsNothing(w.body);
  }

  lemma {:induction false} HandleNodesOnClean(w: World, nodes: seq<Added>)
    requires CleanTree(w.body)
    ensures HandleNodes(w, nodes) == w
    decreases |nodes|
  {
    if nodes != [] {
      match nodes[0] {
        case AddedText(path) => TextBranchOnClean(w, path);
        case AddedElement => ElementBranchOnClean(w);
        case AddedOther =>
      }
      HandleNodesOnClean(w, nodes[1..]);
    }
  }

  lemma {:induction false} HandleRecordsOnClean(w: World, records: seq<seq<Added>>)
    requires CleanTree(w.body)
    ensures HandleRecords(w, records) == w
    decreases |records|
  {
    if records != [] {
      HandleNodesOnClean(w, records[0]);
      HandleRecordsOnClean(w, records[1..]);
    }
  }

  /** Once the page is processed, the records the script's own rewrite
      produces (the added spans and their text) change nothing and flush
      nothing: the observer does not feed on its own output. */
  lemma OwnMutationsAreQuiet(w: World, records: seq<seq<Added>>)
    requires ProtectionOn(w.flag)
    ensures CleanTree(Boot(w).body)
    ensures Callback(Boot(w), records) == Boot(w)
  {
    RewriteIsClean(w.body);
    HandleRecordsOnClean(Boot(w), records);
  }

  // ---- invariants of the world ----

  /** The stored totals agree with the per-word counts, the observers are
      in order, and the style element is present at most once. */
  ghost predicate WorldOk(w: World) {
    && (w.stored.Some? ==> Consistent(w.stored.value))
    && ObserversOk(w.observers)
    && multiset(w.styleIds)[CensorStyleId] <= 1
  }

  lemma FlushKeepsOk(w: World, counts: Counts)
    requires WorldOk(w)
    ensures WorldOk(FlushMetrics(w, counts))
    ensures Settled(w) ==> Settled(FlushMetrics(w, counts))
  {
    UpdateKeepsConsistent(ProtectionOn(w.flag), w.stored, counts, w.url);
  }

  lemma RunPageKeepsOk(w: World)
    requires WorldOk(w)
    ensures WorldOk(RunPage(w))
  {
    if ProtectionOn(w.flag) {
      InjectStyleOnce(w.styleIds);
      var run := ProcessPage(true, w.body);
      var w1 := w.(protection := true, styleIds := InjectStyle(w.styleIds),
                   stored := InitializeMetrics(true, w.stored), body := run.body);
      assert Sum(Zero.wordsReplaced) == 0;
      assert WorldOk(w1);
      if run.flush.Some? {
        FlushKeepsOk(w1, run.flush.value);
      }
    }
  }

  /** After boot or a flag change, `protectionEnabled` is what the storage
      says, and exactly one observer is connected when it is on, none when
      it is off. */
  predicate Settled(w: World) {
    && w.protection == ProtectionOn(w.flag)
    && (w.protection <==> |w.observers.connected| == 1)
    && (!w.protection <==> w.observers.connected == {})
  }

  lemma ReactSettles(w: World)
    requires WorldOk(w) && w.protection == ProtectionOn(w.flag)
    ensures WorldOk(React(w)) && Settled(React(w))
  {
    RunPageKeepsOk(w);
  }

  lemma BootSettles(w: World)
    requires WorldOk(w)
    ensures WorldOk(Boot(w)) && Settled(Boot(w))
  {
    ReactSettles(w.(protection := ProtectionOn(w.flag)));
  }

  lemma ChangeSettles(w: World, v: StoredFlag)
    requires WorldOk(w)
    ensures WorldOk(OnProtectionChange(w, v)) && Settled(OnProtectionChange(w, v))
    ensures OnProtectionChange(w, v).flag == v
  {
    ReactSettles(w.(flag := v, protection := ProtectionOn(v)));
  }

  /** A fresh install has no flag stored: the page is censored at boot and
      watched by one observer. */
  lemma FreshInstallProtects(body: Node, styleIds: seq<string>, stored: Option<Metrics>, url: string)
    requires stored.Some? ==> Consistent(stored.value)
    requires multiset(styleIds)[CensorStyleId] <= 1
    ensures var b := Boot(Loaded(body, styleIds, Unset, stored, url));
      b.protection && |b.observers.connected| == 1 && b.body == RewriteTree(body)
  {
    BootSettles(Loaded(body, styleIds, Unset, stored, url));
  }

  lemma HandleAddedKeepsOk(w: World, a: Added)
    requires WorldOk(w)
    ensures WorldOk(HandleAdded(w, a))
    ensures Settled(w) ==> Settled(HandleAdded(w, a))
  {
    match a
    case AddedText(path) =>
      match TextAt(w.body, path) {
        case Some(site) => VisitTextKeepsOk(w, site);
        case None =>
      }
    case AddedElement => ElementBranchKeepsOk(w);
    case AddedOther =>
  }

  lemma VisitTextKeepsOk(w: World, site: TextSite)
    requires WorldOk(w)
    ensures WorldOk(VisitText(w, site))
    ensures Settled(w) ==> Settled(VisitText(w, site))
  {
    var d := site.data;
    var rep := ReplaceText(d);
    var w1 := if rep.newText != d then w.(body := ReplaceAt(w.body, site.path, CensorSpan(d))) else w;
    FlushKeepsOk(w1, rep.counts);
  }

  lemma ElementBranchKeepsOk(w: World)
    requires WorldOk(w)
    ensures WorldOk(ElementBranch(w))
    ensures Settled(w) ==> Settled(ElementBranch(w))
  {
    var run := ProcessPage(true, w.body);
    if run.flush.Some? {
      FlushKeepsOk(w.(body := run.body), run.flush.value);
    }
  }

  lemma {:induction false} HandleNodesKeepsOk(w: World, nodes: seq<Added>)
    requires WorldOk(w)
    ensures WorldOk(HandleNodes(w, nodes))
    ensures Settled(w) ==> Settled(HandleNodes(w, nodes))
    decreases |nodes|
  {
    if nodes != [] {
      HandleAddedKeepsOk(w, nodes[0]);
      HandleNodesKeepsOk(HandleAdded(w, nodes[0]), nodes[1..]);
    }
  }

  lemma {:induction false} HandleRecordsKeepsOk(w: World, records: seq<seq<Added>>)
    requires WorldOk(w)
    ensures WorldOk(HandleRecords(w, records))
    ensures Settled(w) ==> Settled(HandleRecords(w, records))
    decreases |records|
  {
    if records != [] {
      HandleNodesKeepsOk(w, records[0]);
      HandleRecordsKeepsOk(HandleNodes(w, records[0]), records[1..]);
    }
  }

  /** The callback keeps the totals consistent, the observers in order and
      the style single, and a settled world settled. */
  lemma CallbackKeepsOk(w: World, records: seq<seq<Added>>)
    requires WorldOk(w)
    ensures WorldOk(Callback(w, records))
    ensures Settled(w) ==> Settled(Callback(w, records))
  {
    if w.protection {
      HandleRecordsKeepsOk(w, records);
    }
  }

  /** A freshly loaded page is in order when its stored record is. */
  lemma LoadedIsOk(body: Node, styleIds: seq<string>, flag: StoredFlag, stored: Option<Metrics>, url: string)
    requires stored.Some? ==> Consistent(stored.value)
    requires CensorStyleId !in styleIds
    ensures WorldOk(Loaded(body, styleIds, flag, stored, url))
  {
  }

  /** Turning protection off stops the observer and touches neither the
      page nor the metrics; later records are then ignored. */
  lemma SwitchOff(w: World, records: seq<seq<Added>>)
    requires ObserversOk(w.observers)
    ensures var r := OnProtectionChange(w, Flag(false));
      && r.body == w.body && r.stored == w.stored
      && r.observers.connected == {}
      && Callback(r, records) == r
  {
  }

  /** A text record that counted something adds one to `pagesProcessed`:
      the counter counts flushes, not pages. */
  lemma TextFlushCountsOnePage(w: World, site: TextSite)
    requires SiteIn(w.body, site) && !ShouldSkip(site.parentTag)
    requires ProtectionOn(w.flag) && ReplaceText(site.data).counts != map[]
    ensures TextBranch(w, site.path).stored.Some?
    ensures TextBranch(w, site.path).stored.value.pagesProcessed == Base(w.stored).pagesProcessed + 1
  {
    TextBranchSpec(w, site);
  }

  /** What the text branch flushes for a site: the node's own map, or
      nothing when its parent element is skipped. */
  function TextCounts(site: TextSite): (c: Counts)
    ensures ShouldSkip(site.parentTag) ==> c == map[]
    ensures !ShouldSkip(site.parentTag) ==> c == ReplaceText(site.data).counts
  {
    if ShouldSkip(site.parentTag) then map[] else ReplaceText(site.data).counts
  }

  /** How many `updateMetrics` calls a map causes in the text branch. */
  function Flushes(c: Counts): (k: nat)
    ensures k <= 1 && (k == 1 <==> c != map[])
  {
    if c == map[] then 0 else 1
  }

  /** The metrics after the text branch for an attached site: one more
      page and the node's counts added when its map is non-empty, nothing
      otherwise. The record starts from zeros when none is stored. */
  lemma TextBranchStored(w: World, site: TextSite)
    requires SiteIn(w.body, site) && ProtectionOn(w.flag)
    ensures var r := TextBranch(w, site.path);
      && r.flag == w.flag
      && Base(r.stored).pagesProcessed == Base(w.stored).pagesProcessed + Flushes(TextCounts(site))
      && (forall v :: Get(Base(r.stored).wordsReplaced, v) == Get(Base(w.stored).wordsReplaced, v) + Get(TextCounts(site), v))
      && (TextCounts(site) != map[] ==> r.stored.Some?)
  {
    assert TextAt(w.body, site.path) == Some(site);
  }

  /** Two text nodes added in one record, anywhere in the tree (siblings
      under one parent included): each goes through the text branch on its
      own, so each non-empty map is a flush of its own, one more
      `pagesProcessed` apiece, and the per-word counts of both are added. */
  lemma TwoTextRecords(w: World, records: seq<seq<Added>>, a: TextSite, b: TextSite)
    requires records == [[AddedText(a.path), AddedText(b.path)]]
    requires w.protection && ProtectionOn(w.flag)
    requires SiteIn(w.body, a) && SiteIn(w.body, b) && a.path != b.path
    ensures var r := Callback(w, records);
      var ca, cb := TextCounts(a), TextCounts(b);
      && Base(r.stored).pagesProcessed == Base(w.stored).pagesProcessed + Flushes(ca) + Flushes(cb)
      && (forall v :: Get(Base(r.stored).wordsReplaced, v) == Get(Base(w.stored).wordsReplaced, v) + Get(ca, v) + Get(cb, v))
      && (ca != map[] || cb != map[] ==> r.stored.Some?)
  {
    TextBranchStored(w, a);
    var w1 := TextBranch(w, a.path);
    SiteStays(w, a, b);
    TextBranchStored(w1, b);
    CallbackTwo(w, AddedText(a.path), AddedText(b.path));
  }

  /** The first text branch leaves the second site in place. */
  lemma SiteStays(w: World, a: TextSite, b: TextSite)
    requires SiteIn(w.body, a) && SiteIn(w.body, b) && a.path != b.path
    ensures SiteIn(TextBranch(w, a.path).body, b)
  {
    assert TextAt(w.body, a.path) == Some(a);
    if !ShouldSkip(a.parentTag) && ReplaceText(a.data).newText != a.data {
      ReplaceAtKeepsSite(w.body, a.path, a.data, CensorSpan(a.data), b);
    }
  }

  /** One record of two added nodes is handled as the two nodes in turn. */
  lemma CallbackTwo(w: World, x: Added, y: Added)
    requires w.protection
    ensures Callback(w, [[x, y]]) == HandleAdded(HandleAdded(w, x), y)
  {
    var w1 := HandleAdded(w, x);
    var w2 := HandleAdded(w1, y);
    assert [[x, y]][1..] == [];
    assert [x, y][1..] == [y];
    assert [y][1..] == [];
    assert HandleNodes(w1, [y]) == HandleNodes(w2, []);
    assert HandleNodes(w, [x, y]) == HandleNodes(w1, [y]);
    assert HandleRecords(w, [[x, y]]) == HandleRecords(HandleNodes(w, [x, y]), []);
  }

  /** A page pass flushes once: with words found, one more
      `pagesProcessed` and the merged counts added to the record it
      started from (created as zeros when missing); with none, only the
      missing record is created. */
  lemma PagePassFlushesOnce(w: World)
    requires ProtectionOn(w.flag)
    ensures var start := InitializeMetrics(true, w.stored);
      var r := RunPage(w);
      && (PageCounts(w.body) == map[] ==> r.stored == start)
      && (PageCounts(w.body) != map[] ==>
            && r.stored.Some?
            && r.stored.value.pagesProcessed == Base(start).pagesProcessed + 1
            && forall v :: Get(r.stored.value.wordsReplaced, v) == Get(Base(start).wordsReplaced, v) + Get(PageCounts(w.body), v))
  {
  }
}
