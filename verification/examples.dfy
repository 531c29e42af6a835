/** Worked cases of the whole-word rule: an upper-case match is rewritten
    and counted in lower case; a pattern word inside a longer word run is
    left alone, also when the run continues with `_`. */
module Examples {
  import opened Chars
  import opened Lexer
  import opened Config
  import opened Occurrences
  import opened Pieces
  import opened Rewriter
  import opened Censoring
  import opened Markup
  import opened Wrappers
  import opened Locator
  import opened MetricsFold
  import opened Observer

  lemma UpperCaseJob(s: string)
    requires s == "JOB"
    ensures ReplaceText(s) == Replacement(Wrap("j*b"), map["job" := 1])
  {
    LexToken(s);
    assert Lower(s) == "job";
    SingleJob(s);
    SingleJobText(s);
    OneWordCounted(s, "job");
  }

  /** The pattern `job` is the first one holding the word `job`. */
  lemma JobIsFirst()
    ensures FirstMatch(Patterns, "job") == Some(0) && Patterns[0].replacement == "j*b"
  {
  }

  /** A text that is one word run reading `job` in any case. */
  lemma SingleJob(s: string)
    requires IsWordToken(s) && Lex(s) == [s] && Lower(s) == "job"
    ensures Censor(s) == [Censored(s, "j*b")]
    ensures CensoredKeys(Censor(s)) == ["job"]
  {
    JobIsFirst();
    assert CensorToken(Patterns, s) == Censored(s, "j*b");
    assert CensorTokens(Patterns, [s]) == [Censored(s, "j*b")];
    assert CensoredKeys([Censored(s, "j*b")]) == [Lower(s)] + CensoredKeys([]);
  }

  lemma SingleJobText(s: string)
    requires Censor(s) == [Censored(s, "j*b")]
    ensures ReplaceText(s).newText == Wrap("j*b")
  {
    ReplaceTextSpec(s);
    assert Render([Censored(s, "j*b")]) == Wrap("j*b") + Render([]);
  }

  /** A single word run outside every pattern stays as it is. */
  lemma UntouchedWord(s: string)
    requires IsWordToken(s)
    requires forall j :: 0 <= j < |Patterns| ==> Lower(s) !in Patterns[j].words
    ensures ReplaceText(s) == Replacement(s, map[])
  {
    LexToken(s);
    UnchangedIffNoMatch(s);
  }

  lemma Jobsite(s: string)
    requires s == "jobsite"
    ensures ReplaceText(s) == Replacement(s, map[])
  {
    LowerKeeps(s);
    JobsiteIsNoPatternWord();
    UntouchedWord(s);
  }

  lemma JobUnderscore(s: string)
    requires s == "job_x"
    ensures ReplaceText(s) == Replacement(s, map[])
  {
    LowerKeeps(s);
    JobUnderscoreIsNoPatternWord();
    UntouchedWord(s);
  }

  lemma JobUnderscoreIsNoPatternWord()
    ensures forall j :: 0 <= j < |Patterns| ==> "job_x" !in Patterns[j].words
  {
  }

  lemma JobAndJobsiteLex(s: string)
    requires s == "job jobsite"
    ensures Lex(s) == ["job", " ", "jobsite"]
  {
    var ts := ["job", " ", "jobsite"];
    assert IsGapToken(ts[1]);
    assert Concat(ts) == s;
    LexOf(s, ts);
  }

  lemma JobsiteIsNoPatternWord()
    ensures forall j :: 0 <= j < |Patterns| ==> "jobsite" !in Patterns[j].words
  {
  }

  lemma JobAndJobsitePieces(s: string)
    requires s == "job jobsite"
    ensures Censor(s) == [Censored("job", "j*b"), Plain(" "), Plain("jobsite")]
  {
    JobAndJobsiteLex(s);
    ThreePieces(Lex(s));
  }

  lemma ThreePieces(ts: seq<string>)
    requires ts == ["job", " ", "jobsite"]
    ensures CensorTokens(Patterns, ts) == [Censored("job", "j*b"), Plain(" "), Plain("jobsite")]
  {
    JobToken(ts[0]);
    SpaceToken(ts[1]);
    JobsiteToken(ts[2]);
  }

  lemma SpaceToken(t: string)
    requires t == " "
    ensures CensorToken(Patterns, t) == Plain(" ")
  {
    assert t[0] == ' ' && !IsWordChar(t[0]);
  }

  lemma JobsiteToken(t: string)
    requires t == "jobsite"
    ensures CensorToken(Patterns, t) == Plain("jobsite")
  {
    LowerKeeps(t);
    JobsiteIsNoPatternWord();
  }

  lemma JobToken(t: string)
    requires t == "job"
    ensures CensorToken(Patterns, t) == Censored("job", "j*b")
  {
    LowerKeeps(t);
    JobIsFirst();
  }

  lemma JobAndJobsite(s: string)
    requires s == "job jobsite"
    ensures ReplaceText(s) == Replacement(Wrap("j*b") + " jobsite", map["job" := 1])
  {
    var pcs := [Censored("job", "j*b"), Plain(" "), Plain("jobsite")];
    JobAndJobsitePieces(s);
    ReplaceTextSpec(s);
    JobAndJobsiteResult(pcs);
    OneWordCounted(s, "job");
  }

  lemma JobAndJobsiteResult(pcs: seq<Piece>)
    requires pcs == [Censored("job", "j*b"), Plain(" "), Plain("jobsite")]
    ensures CensoredKeys(pcs) == ["job"]
    ensures Render(pcs) == Wrap("j*b") + " jobsite"
  {
    JobAndJobsiteKeys(pcs);
    JobAndJobsiteRender(pcs);
  }

  lemma JobAndJobsiteKeys(pcs: seq<Piece>)
    requires pcs == [Censored("job", "j*b"), Plain(" "), Plain("jobsite")]
    ensures CensoredKeys(pcs) == ["job"]
  {
    LowerKeeps("job");
    var tl := pcs[1..];
    assert tl[1..][1..] == [];
    assert CensoredKeys(tl[1..]) == [];
    assert CensoredKeys(tl) == [];
  }

  lemma JobAndJobsiteRender(pcs: seq<Piece>)
    requires pcs == [Censored("job", "j*b"), Plain(" "), Plain("jobsite")]
    ensures Render(pcs) == Wrap("j*b") + " jobsite"
  {
    var tl := pcs[1..];
    assert tl[1..][1..] == [];
    assert Render(tl[1..]) == "jobsite" + [];
    assert Render(tl) == " " + "jobsite";
  }

  lemma JobPieces(s: string)
    requires s == "job"
    ensures Censor(s) == [Censored("job", "j*b")]
  {
    LexToken(s);
    LowerKeeps(s);
    SingleJob(s);
  }

  lemma LowerCaseJob(s: string)
    requires s == "job"
    ensures ReplaceText(s) == Replacement(Wrap("j*b"), map["job" := 1])
  {
    JobText(s);
    JobPieces(s);
    JobCounts(s);
  }

  lemma JobText(s: string)
    requires s == "job"
    ensures ReplaceText(s).newText == Wrap("j*b")
  {
    JobPieces(s);
    ReplaceTextSpec(s);
    var pcs := [Censored("job", "j*b")];
    assert Render(pcs) == Wrap("j*b") + Render([]);
  }

  lemma JobCounts(s: string)
    requires Censor(s) == [Censored("job", "j*b")]
    ensures ReplaceText(s).counts == map["job" := 1]
  {
    JobKeys([Censored("job", "j*b")]);
    OneWordCounted(s, "job");
  }

  /** A text with exactly one censored word counts that word once. */
  lemma OneWordCounted(s: string, k: string)
    requires CensoredKeys(Censor(s)) == [k]
    ensures ReplaceText(s).counts == map[k := 1]
  {
    ReplaceTextSpec(s);
    var c := ReplaceText(s).counts;
    OneKey(c, CensoredKeys(Censor(s)), k);
  }

  lemma OneKey(c: Counts, keys: seq<string>, k: string)
    requires keys == [k]
    requires c.Keys == set w | w in keys
    requires forall w :: Get(c, w) == multiset(keys)[w]
    ensures c == map[k := 1]
  {
    assert multiset(keys) == multiset{k};
    assert c.Keys == {k};
    assert Get(c, k) == 1;
  }

  lemma JobKeys(pcs: seq<Piece>)
    requires pcs == [Censored("job", "j*b")]
    ensures CensoredKeys(pcs) == ["job"]
  {
    LowerKeeps("job");
    assert CensoredKeys(pcs) == [Lower("job")] + CensoredKeys([]);
  }

  /** Two new paragraphs saying `job`, delivered in one record: each text
      node is flushed on its own, so `pagesProcessed` grows by two. */
  lemma TwoTextNodesTwoFlushes(w: World, records: seq<seq<Added>>)
    requires w.body == Element("BODY", [Element("DIV", [Text("job"), Text("job")])])
    requires w.protection && w.flag == Unset && w.stored == Some(Zero)
    requires records == [[AddedText([0, 0]), AddedText([0, 1])]]
    ensures var r := Callback(w, records);
      r.stored.Some? && r.stored.value.pagesProcessed == 2 && Get(r.stored.value.wordsReplaced, "job") == 2
  {
    var a := TextSite([0, 0], "DIV", "job");
    var b := TextSite([0, 1], "DIV", "job");
    ExampleSites(w.body, a, b);
    JobCountsOne(a.data);
    TwoJobSites(w, records, a, b, ReplaceText(a.data).counts);
  }

  lemma TwoJobSites(w: World, records: seq<seq<Added>>, a: TextSite, b: TextSite, c: Counts)
    requires w.protection && w.flag == Unset && w.stored == Some(Zero)
    requires SiteIn(w.body, a) && SiteIn(w.body, b) && a.path != b.path
    requires !ShouldSkip(a.parentTag) && a == b.(path := a.path)
    requires ReplaceText(a.data).counts == c && c == map["job" := 1]
    requires records == [[AddedText(a.path), AddedText(b.path)]]
    ensures var r := Callback(w, records);
      r.stored.Some? && r.stored.value.pagesProcessed == 2 && Get(r.stored.value.wordsReplaced, "job") == 2
  {
    OneJobMap(c);
    assert TextCounts(a) == c && TextCounts(b) == c;
    TwoTextRecords(w, records, a, b);
    ZeroBase(w.stored);
  }

  lemma OneJobMap(c: Counts)
    requires c == map["job" := 1]
    ensures c != map[] && Get(c, "job") == 1
  {
    assert "job" in c;
  }

  lemma ZeroBase(stored: Option<Metrics>)
    requires stored == Some(Zero)
    ensures Base(stored).pagesProcessed == 0 && Get(Base(stored).wordsReplaced, "job") == 0
  {
  }

  lemma JobCountsOne(s: string)
    requires s == "job"
    ensures ReplaceText(s).counts == map["job" := 1]
  {
    LowerCaseJob(s);
  }

  lemma ExampleSites(body: Node, a: TextSite, b: TextSite)
    requires body == Element("BODY", [Element("DIV", [Text("job"), Text("job")])])
    requires a == TextSite([0, 0], "DIV", "job") && b == TextSite([0, 1], "DIV", "job")
    ensures SiteIn(body, a) && SiteIn(body, b)
    ensures !ShouldSkip(a.parentTag) && a == b.(path := a.path) && a.path != b.path
  {
    assert TagLower("DIV") == "div";
    assert a.path[..1] == [0] && b.path[..1] == [0];
  }
}
