/** The content script's static configuration (`CONFIG` in content.ts):
    the ordered pattern table, the censor wrapper markup and the list of
    element names whose text is never visited. */
module Config {
  import opened Chars
  import opened Wrappers

  /** One table entry. The script writes it as a global case-insensitive
      regular expression `\b(w1|w2|...)\b`; since every alternative is made
      of word characters, the set of lower-case alternatives says everything
      about what it matches. */
  datatype Pattern = Pattern(words: set<string>, replacement: string)

  /** The table, in the order the script applies it. */
  const Patterns: seq<Pattern> := [
    Pattern({"job", "jobs", "employment", "work"}, "j*b"),
    Pattern({"application", "applications", "applicant", "applicants", "hiring", "recruitment"}, "appl*c*nt"),
    Pattern({"career", "cv", "resume", "position", "role"}, "c*r**r"),
    Pattern({"interview", "interviewing", "interviews"}, "int*rv*w"),
    Pattern({"salary", "compensation", "pay", "wage"}, "s*l*ry"),
    Pattern({"company", "employer", "organization", "corporation"}, "c*mp*ny")
  ]

  /** Class carried by every censor span; also the style element's theme. */
  const CensorClass: string := "job-censor-anim"

  /** Id of the injected style element. */
  const CensorStyleId: string := "job-censor-anim-style"

  /** Opening and closing tags of the censor span. */
  const OpenTag: string := "<span class=\"job-censor-anim\">"
  const CloseTag: string := "</span>"

  /** Markup that replaces one matched word. */
  function Wrap(lit: string): string {
    OpenTag + lit + CloseTag
  }

  /** Lower-case element names whose direct text children are skipped. */
  const SkipElements: seq<string> :=
    ["script", "style", "code", "pre", "select", "option", "meta", "link", "noscript", "iframe"]

  /** `shouldSkipElement`: the lower-cased tag name is in the skip list. */
  predicate ShouldSkip(tagName: string) {
    TagLower(tagName) in SkipElements
  }

  /** Index of the first pattern, in table order, whose word set holds the
      lower-cased word `w`. */
  function FirstMatch(ps: seq<Pattern>, w: string): (r: Option<nat>)
    ensures r.Some? ==> r.value < |ps| && w in ps[r.value].words
    ensures r.Some? ==> forall j :: 0 <= j < r.value ==> w !in ps[j].words
    ensures r.None? <==> forall j :: 0 <= j < |ps| ==> w !in ps[j].words
  {
    if ps == [] then None
    else if w in ps[0].words then Some(0)
    else match FirstMatch(ps[1..], w)
      case None => None
      case Some(i) => Some(i + 1)
  }

  /** The word sets are pairwise disjoint. */
  predicate Disjoint(ps: seq<Pattern>) {
    forall i, j :: 0 <= i < j < |ps| ==> ps[i].words !! ps[j].words
  }

  /** The replacement literals of the first `k` patterns. */
  function LiteralsBefore(ps: seq<Pattern>, k: nat): (lits: set<string>)
    requires k <= |ps|
    ensures forall i :: 0 <= i < k ==> ps[i].replacement in lits
    ensures forall lit :: lit in lits ==> exists i :: 0 <= i < k && ps[i].replacement == lit
  {
    set i | 0 <= i < k :: ps[i].replacement
  }

  /** Each table word belongs to exactly one pattern, so FirstMatch finds
      the only pattern that can count it. */
  lemma TableIsDisjoint()
    ensures Disjoint(Patterns)
  {
    DisjointRow0();
    DisjointRow1();
    DisjointRow2();
    DisjointRow3();
    DisjointRow4();
  }

  lemma DisjointRow0()
    ensures forall j :: 0 < j < |Patterns| ==> Patterns[0].words !! Patterns[j].words
  {
    assert Patterns[0].words !! Patterns[1].words;
    assert Patterns[0].words !! Patterns[2].words;
    assert Patterns[0].words !! Patterns[3].words;
    assert Patterns[0].words !! Patterns[4].words;
    assert Patterns[0].words !! Patterns[5].words;
  }

  lemma DisjointRow1()
    ensures forall j :: 1 < j < |Patterns| ==> Patterns[1].words !! Patterns[j].words
  {
    assert Patterns[1].words !! Patterns[2].words;
    assert Patterns[1].words !! Patterns[3].words;
    assert Patterns[1].words !! Patterns[4].words;
    assert Patterns[1].words !! Patterns[5].words;
  }

  lemma DisjointRow2()
    ensures forall j :: 2 < j < |Patterns| ==> Patterns[2].words !! Patterns[j].words
  {
    assert Patterns[2].words !! Patterns[3].words;
    assert Patterns[2].words !! Patterns[4].words;
    assert Patterns[2].words !! Patterns[5].words;
  }

  lemma DisjointRow3()
    ensures forall j :: 3 < j < |Patterns| ==> Patterns[3].words !! Patterns[j].words
  {
    assert Patterns[3].words !! Patterns[4].words;
    assert Patterns[3].words !! Patterns[5].words;
  }

  lemma DisjointRow4()
    ensures forall j :: 4 < j < |Patterns| ==> Patterns[4].words !! Patterns[j].words
  {
    assert Patterns[4].words !! Patterns[5].words;
  }

  /** With disjoint word sets, a word is counted by pattern `i` exactly when
      it is one of pattern `i`'s alternatives. */
  lemma UniquePattern(ps: seq<Pattern>, w: string, i: nat)
    requires Disjoint(ps) && i < |ps|
    ensures FirstMatch(ps, w) == Some(i) <==> w in ps[i].words
  {
  }
}
