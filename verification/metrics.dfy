/** The stored metrics record and the two functions that write it:
    `initializeMetrics` (content.ts:76-88) and `updateMetrics`
    (content.ts:91-120). Storage reads and writes become an explicit prior
    record and a returned record; `window.location.href` is a parameter. */
module MetricsFold {
  import opened Wrappers
  import opened Occurrences

  /** The stored record, without the timing field. */
  datatype Metrics = Metrics(
    totalReplacements: int,
    wordsReplaced: Counts,
    pagesProcessed: int,
    lastProcessedUrl: string)

  /** The record the script writes, or falls back to, when none is stored. */
  const Zero: Metrics := Metrics(0, map[], 0, "")

  /** The total agrees with the per-word counts. */
  ghost predicate Consistent(m: Metrics) {
    m.totalReplacements == Sum(m.wordsReplaced)
  }

  /** `initializeMetrics`: with protection on, a missing record is
      created as all zeros; a stored record is never touched. */
  function InitializeMetrics(enabled: bool, stored: Option<Metrics>): (r: Option<Metrics>)
    ensures stored.Some? ==> r == stored
    ensures r.None? <==> stored.None? && !enabled
    ensures r.Some? && stored.None? ==> r.value == Zero
  {
    if enabled && stored.None? then Some(Zero) else stored
  }

  /** The record `updateMetrics` starts from: the stored one or zeros. */
  function Base(stored: Option<Metrics>): Metrics {
    match stored
    case Some(m) => m
    case None => Zero
  }

  /** `updateMetrics(replacements)` with the protection flag it read: off,
      nothing is written; on, the start record gets the map's total, one
      more page, the current address and the per-word counts added. */
  ghost function UpdateMetrics(enabled: bool, stored: Option<Metrics>, reps: Counts, url: string): (r: Option<Metrics>)
    ensures !enabled ==> r == stored
    ensures enabled ==> r.Some? && r.value.lastProcessedUrl == url
    ensures enabled ==> r.value.pagesProcessed == Base(stored).pagesProcessed + 1
    ensures enabled ==> r.value.wordsReplaced.Keys == Base(stored).wordsReplaced.Keys + reps.Keys
    ensures enabled ==> forall w :: Get(r.value.wordsReplaced, w) == Get(Base(stored).wordsReplaced, w) + Get(reps, w)
  {
    if !enabled then stored
    else
      var m := Base(stored);
      Some(Metrics(m.totalReplacements + Sum(reps), AddCounts(m.wordsReplaced, reps), m.pagesProcessed + 1, url))
  }

  /** An update keeps the total equal to the sum of the per-word counts,
      and raises the total by exactly the map's sum. */
  lemma UpdateKeepsConsistent(enabled: bool, stored: Option<Metrics>, reps: Counts, url: string)
    requires stored.Some? ==> Consistent(stored.value)
    ensures var r := UpdateMetrics(enabled, stored, reps, url);
      r.Some? ==> Consistent(r.value)
    ensures enabled ==>
      (UpdateMetrics(enabled, stored, reps, url).value.totalReplacements
         == Base(stored).totalReplacements + Sum(reps))
  {
    var m := Base(stored);
    assert Sum(Zero.wordsReplaced) == 0;
    SumAddCounts(m.wordsReplaced, reps);
  }

  /** Words absent from the map keep their counts. */
  lemma UpdateOthersUnchanged(stored: Option<Metrics>, reps: Counts, url: string, w: string)
    requires w !in reps
    ensures Get(UpdateMetrics(true, stored, reps, url).value.wordsReplaced, w) == Get(Base(stored).wordsReplaced, w)
  {
  }

  /** `Object.values(replacements).reduce((a, b) => a + b, 0)`. */
  method SumValues(m: Counts) returns (t: int)
    ensures t == Sum(m)
  {
    t := 0;
    var rest := m;
    while rest != map[]
      invariant t + Sum(rest) == Sum(m)
      decreases |rest|
    {
      var w :| w in rest;
      SumPick(rest, w);
      t := t + rest[w];
      rest := rest - {w};
    }
  }

  /** The body of `updateMetrics` step by step: the total, the page count,
      the address, then the per-word loop. */
  method RunUpdateMetrics(enabled: bool, stored: Option<Metrics>, reps: Counts, url: string) returns (r: Option<Metrics>)
    ensures r == UpdateMetrics(enabled, stored, reps, url)
  {
    if !enabled {
      return stored;
    }
    var m := Base(stored);
    var added := SumValues(reps);
    var words := MergeInto(m.wordsReplaced, reps);
    r := Some(Metrics(m.totalReplacements + added, words, m.pagesProcessed + 1, url));
  }

  /** Five `job` so far, then a map with two `job` and one `salary`. */
  lemma UpdateExample(url: string)
    ensures UpdateMetrics(true, Some(Metrics(5, map["job" := 5], 3, "a")), map["job" := 2, "salary" := 1], url)
      == Some(Metrics(8, map["job" := 7, "salary" := 1], 4, url))
  {
    var reps := map["job" := 2, "salary" := 1];
    SumPick(reps, "job");
    assert reps - {"job"} == map["salary" := 1];
    SumPick(map["salary" := 1], "salary");
    assert map["salary" := 1] - {"salary"} == map[];
    var words := AddCounts(map["job" := 5], reps);
    assert words.Keys == {"job", "salary"};
    assert words == map["job" := 7, "salary" := 1];
  }
}
