/** Occurrence maps: lower-cased word to count, as the content script
    builds them in `replaceTextInNode`, merges them in `processPage` and the
    mutation callback, and folds them into `wordsReplaced`. JavaScript's
    `(m[w] || 0) + c` idiom is `Get(m, w) + c` here. */
module Occurrences {

  type Counts = map<string, int>

  /** `m[w] || 0` for a present integer entry: the entry, or 0 when absent. */
  function Get(m: Counts, w: string): int {
    if w in m then m[w] else 0
  }

  /** The sum of all values, `Object.values(m).reduce((a, b) => a + b, 0)`;
      addition is commutative, so the enumeration order does not matter. */
  ghost function Sum(m: Counts): int
    decreases |m|
  {
    if m == map[] then 0
    else
      var w :| w in m;
      m[w] + Sum(m - {w})
  }

  /** Summing may start from any key. */
  lemma {:induction false} SumPick(m: Counts, w: string)
    requires w in m
    ensures Sum(m) == m[w] + Sum(m - {w})
    decreases |m|
  {
    var v :| v in m && Sum(m) == m[v] + Sum(m - {v});
    if v != w {
      var m' := m - {v};
      SumPick(m', w);
      SumPick(m - {w}, v);
      assert m' - {w} == (m - {w}) - {v};
    }
  }

  /** Setting one entry changes the sum by the difference. */
  lemma SumUpdate(m: Counts, w: string, v: int)
    ensures Sum(m[w := v]) == Sum(m) - Get(m, w) + v
  {
    var m' := m[w := v];
    SumPick(m', w);
    assert m' - {w} == m - {w};
    if w in m {
      SumPick(m, w);
    } else {
      assert m - {w} == m;
    }
  }

  /** The per-key sum of two occurrence maps over the union of their keys. */
  function AddCounts(a: Counts, b: Counts): (r: Counts)
    ensures r.Keys == a.Keys + b.Keys
    ensures forall w :: w in r ==> r[w] == Get(a, w) + Get(b, w)
  {
    map w | w in a.Keys + b.Keys :: Get(a, w) + Get(b, w)
  }

  /** Adding one more entry of `b` to a merge is one update of the merge. */
  lemma AddCountsStep(a: Counts, b: Counts, w: string)
    requires w in b
    ensures AddCounts(a, b) == AddCounts(a, b - {w})[w := Get(AddCounts(a, b - {w}), w) + b[w]]
  {
    var r, r' := AddCounts(a, b), AddCounts(a, b - {w});
    var u := r'[w := Get(r', w) + b[w]];
    assert r.Keys == u.Keys;
    forall v | v in r ensures r[v] == u[v] {
      if v != w {
        assert Get(b, v) == Get(b - {w}, v);
      }
    }
  }

  /** One entry of `b` adds its count to the merged total. */
  lemma SumAddCountsStep(a: Counts, b: Counts, w: string)
    requires w in b
    ensures Sum(AddCounts(a, b)) == Sum(AddCounts(a, b - {w})) + b[w]
  {
    var r' := AddCounts(a, b - {w});
    AddCountsStep(a, b, w);
    SumUpdate(r', w, Get(r', w) + b[w]);
  }

  /** Merging adds the totals. */
  lemma {:induction false} SumAddCounts(a: Counts, b: Counts)
    ensures Sum(AddCounts(a, b)) == Sum(a) + Sum(b)
    decreases |b|
  {
    if b == map[] {
      assert AddCounts(a, b) == a;
    } else {
      var w :| w in b;
      SumAddCounts(a, b - {w});
      SumAddCountsStep(a, b, w);
      SumPick(b, w);
    }
  }

  /** The entries of `m` whose keys are in `keys`. */
  function Restrict(m: Counts, keys: set<string>): (r: Counts)
    ensures r.Keys == m.Keys * keys
  {
    map w | w in m.Keys * keys :: m[w]
  }

  /** `forEach(([word, count]) => acc[word] = (acc[word] || 0) + count)`:
      the script's merge loop, entry by entry. */
  method MergeInto(acc: Counts, delta: Counts) returns (r: Counts)
    ensures r == AddCounts(acc, delta)
    ensures r.Keys == acc.Keys + delta.Keys
    ensures forall w :: w in r ==> r[w] == Get(acc, w) + Get(delta, w)
  {
    r := acc;
    var todo := delta.Keys;
    RestrictEnds(acc, delta);
    while todo != {}
      invariant todo <= delta.Keys
      invariant r == AddCounts(acc, Restrict(delta, delta.Keys - todo))
      decreases todo
    {
      var w :| w in todo;
      MergeStep(acc, delta, todo, w);
      r := r[w := Get(r, w) + delta[w]];
      todo := todo - {w};
    }
  }

  /** Restricting to no key leaves nothing to merge; to every key, all of it. */
  lemma RestrictEnds(acc: Counts, delta: Counts)
    ensures AddCounts(acc, Restrict(delta, delta.Keys - delta.Keys)) == acc
    ensures Restrict(delta, delta.Keys - {}) == delta
  {
    assert Restrict(delta, delta.Keys - delta.Keys) == map[];
    assert AddCounts(acc, map[]) == acc;
  }

  /** One more entry of `delta` merged into the partial merge. */
  lemma MergeStep(acc: Counts, delta: Counts, todo: set<string>, w: string)
    requires todo <= delta.Keys && w in todo
    ensures var r := AddCounts(acc, Restrict(delta, delta.Keys - todo));
      r[w := Get(r, w) + delta[w]] == AddCounts(acc, Restrict(delta, delta.Keys - (todo - {w})))
  {
    var next := Restrict(delta, delta.Keys - (todo - {w}));
    assert next - {w} == Restrict(delta, delta.Keys - todo);
    AddCountsStep(acc, next, w);
  }

  /** The occurrence map of a list of matched words, one increment per
      match: `replacements[word] = (replacements[word] || 0) + 1`. */
  function Tally(acc: Counts, ws: seq<string>): Counts
    decreases |ws|
  {
    if ws == [] then acc
    else Tally(acc[ws[0] := Get(acc, ws[0]) + 1], ws[1..])
  }

  /** The occurrence map of `ws` counts each word as often as it occurs,
      whatever the order the matches were found in. */
  lemma TallyCounts(acc: Counts, ws: seq<string>)
    ensures Tally(acc, ws).Keys == acc.Keys + set w | w in ws
    ensures forall w :: Get(Tally(acc, ws), w) == Get(acc, w) + multiset(ws)[w]
    ensures Sum(Tally(acc, ws)) == Sum(acc) + |ws|
  {
    TallyKeys(acc, ws);
    TallyGet(acc, ws);
    TallySum(acc, ws);
  }

  lemma {:induction false} TallyKeys(acc: Counts, ws: seq<string>)
    ensures Tally(acc, ws).Keys == acc.Keys + set w | w in ws
    decreases |ws|
  {
    if ws != [] {
      TallyKeys(acc[ws[0] := Get(acc, ws[0]) + 1], ws[1..]);
      assert ws == [ws[0]] + ws[1..];
      assert (set w | w in ws) == {ws[0]} + set w | w in ws[1..];
    }
  }

  lemma {:induction false} TallyGet(acc: Counts, ws: seq<string>)
    ensures forall w :: Get(Tally(acc, ws), w) == Get(acc, w) + multiset(ws)[w]
    decreases |ws|
  {
    if ws != [] {
      TallyGet(acc[ws[0] := Get(acc, ws[0]) + 1], ws[1..]);
      assert ws == [ws[0]] + ws[1..];
      assert multiset(ws) == multiset{ws[0]} + multiset(ws[1..]);
    }
  }

  lemma {:induction false} TallySum(acc: Counts, ws: seq<string>)
    ensures Sum(Tally(acc, ws)) == Sum(acc) + |ws|
    decreases |ws|
  {
    if ws != [] {
      TallySum(acc[ws[0] := Get(acc, ws[0]) + 1], ws[1..]);
      SumUpdate(acc, ws[0], Get(acc, ws[0]) + 1);
    }
  }

  /** Two match lists with the same words, in any order, give the same map. */
  lemma TallyPermutation(a: seq<string>, b: seq<string>)
    requires multiset(a) == multiset(b)
    ensures Tally(map[], a) == Tally(map[], b)
  {
    TallyCounts(map[], a);
    TallyCounts(map[], b);
    var ta, tb := Tally(map[], a), Tally(map[], b);
    assert (set w | w in a) == (set w | w in b) by {
      forall w ensures w in a <==> w in b {
        assert w in a <==> w in multiset(a);
        assert w in b <==> w in multiset(b);
      }
    }
    forall w | w in ta ensures ta[w] == tb[w] {
      assert Get(ta, w) == Get(tb, w);
    }
  }

  /** The occurrence map of a match list, described through any list with
      the same words. */
  lemma TallyOf(ws: seq<string>, keys: seq<string>)
    requires multiset(ws) == multiset(keys)
    ensures Tally(map[], ws).Keys == set w | w in keys
    ensures forall w :: Get(Tally(map[], ws), w) == multiset(keys)[w]
    ensures Sum(Tally(map[], ws)) == |keys|
  {
    TallyCounts(map[], ws);
    assert |ws| == |multiset(ws)| == |multiset(keys)| == |keys|;
    assert (set w | w in ws) == set w | w in keys by {
      forall w ensures w in ws <==> w in keys {
        assert w in ws <==> w in multiset(ws);
        assert w in keys <==> w in multiset(keys);
      }
    }
  }

  /** The merge of a list of occurrence maps, in list order, onto `acc`:
      `processPage`'s `allReplacements` after its `forEach`. */
  function MergeAll(acc: Counts, parts: seq<Counts>): Counts
    decreases |parts|
  {
    if parts == [] then acc else MergeAll(AddCounts(acc, parts[0]), parts[1..])
  }

  /** Some map of the list has key `w`. */
  predicate InSome(parts: seq<Counts>, w: string) {
    exists k :: 0 <= k < |parts| && w in parts[k]
  }

  /** The total count of `w` over a list of maps. */
  function CountIn(parts: seq<Counts>, w: string): int {
    if parts == [] then 0 else Get(parts[0], w) + CountIn(parts[1..], w)
  }

  /** The merged map has the union of the keys and, per key, the sum of
      the counts. */
  lemma {:induction false} MergeAllCounts(acc: Counts, parts: seq<Counts>)
    ensures forall w :: w in MergeAll(acc, parts) <==> w in acc || InSome(parts, w)
    ensures forall w :: Get(MergeAll(acc, parts), w) == Get(acc, w) + CountIn(parts, w)
    decreases |parts|
  {
    if parts != [] {
      MergeAllCounts(AddCounts(acc, parts[0]), parts[1..]);
      forall w | InSome(parts[1..], w) ensures InSome(parts, w) {
        var k :| 0 <= k < |parts[1..]| && w in parts[1..][k];
        assert parts[k + 1] == parts[1..][k];
      }
      forall w | InSome(parts, w) ensures w in parts[0] || InSome(parts[1..], w) {
        var k :| 0 <= k < |parts| && w in parts[k];
        if k > 0 {
          assert parts[1..][k - 1] == parts[k];
        }
      }
    }
  }

  /** The merge is empty exactly when the start and every part are:
      `Object.keys(allReplacements).length > 0` is "some node counted". */
  lemma MergeAllEmpty(parts: seq<Counts>)
    ensures MergeAll(map[], parts) == map[] <==> forall k :: 0 <= k < |parts| ==> parts[k] == map[]
  {
    MergeAllCounts(map[], parts);
    var m := MergeAll(map[], parts);
    if m != map[] {
      var w :| w in m;
      var k :| 0 <= k < |parts| && w in parts[k];
    }
    if exists k :: 0 <= k < |parts| && parts[k] != map[] {
      var k :| 0 <= k < |parts| && parts[k] != map[];
      var w :| w in parts[k];
      assert w in m;
    }
  }

  /** The merged total is the sum of the parts' totals. */
  lemma {:induction false} MergeAllSum(acc: Counts, parts: seq<Counts>)
    ensures Sum(MergeAll(acc, parts)) == Sum(acc) + SumAll(parts)
    decreases |parts|
  {
    if parts != [] {
      SumAddCounts(acc, parts[0]);
      MergeAllSum(AddCounts(acc, parts[0]), parts[1..]);
    }
  }

  ghost function SumAll(parts: seq<Counts>): int {
    if parts == [] then 0 else Sum(parts[0]) + SumAll(parts[1..])
  }

  /** The script's nested loop: each part's entries merged in turn. */
  method MergeParts(parts: seq<Counts>) returns (all: Counts)
    ensures all == MergeAll(map[], parts)
    ensures forall w :: Get(all, w) == CountIn(parts, w)
  {
    all := map[];
    var k := 0;
    while k < |parts|
      invariant 0 <= k <= |parts|
      invariant MergeAll(all, parts[k..]) == MergeAll(map[], parts)
    {
      assert parts[k..][1..] == parts[k + 1..];
      all := MergeInto(all, parts[k]);
      k := k + 1;
    }
    assert parts[k..] == [];
    MergeAllCounts(map[], parts);
  }
}
