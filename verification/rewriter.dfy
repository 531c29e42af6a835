/** The string part of `replaceTextInNode` (content.ts:207-229): the six
    patterns run one after the other over the cumulative text, each
    replacing every match with the censor markup and counting the
    lower-cased match. */
module Rewriter {
  import opened Chars
  import opened Lexer
  import opened Config
  import opened Occurrences
  import opened Pieces

  /** Pattern `p` matches token `t`: a whole word whose ASCII lower-cased
      form is one of the alternatives. */
  predicate Hits(p: Pattern, t: string) {
    IsWordToken(t) && Lower(t) in p.words
  }

  /** No token of `ts` is matched by `p`. */
  predicate Quiet(p: Pattern, ts: seq<string>) {
    forall i :: 0 <= i < |ts| ==> !Hits(p, ts[i])
  }

  function SubstToken(p: Pattern, t: string): string {
    if Hits(p, t) then Wrap(p.replacement) else t
  }

  function SubstTokens(p: Pattern, ts: seq<string>): (r: seq<string>)
    ensures |r| == |ts|
    ensures forall i :: 0 <= i < |ts| ==> r[i] == SubstToken(p, ts[i])
  {
    if ts == [] then [] else [SubstToken(p, ts[0])] + SubstTokens(p, ts[1..])
  }

  /** The lower-cased matches of `p` in `ts`, in the order the regular
      expression finds them. */
  function MatchedWords(p: Pattern, ts: seq<string>): seq<string> {
    if ts == [] then []
    else (if Hits(p, ts[0]) then [Lower(ts[0])] else []) + MatchedWords(p, ts[1..])
  }

  datatype PassResult = PassResult(text: string, matched: seq<string>)

  /** `newText.replace(regex, match => ...)` for one table entry: every
      matched word becomes the censor markup, and its lower-cased form is
      recorded. */
  function ApplyPattern(p: Pattern, s: string): (r: PassResult)
    ensures forall w :: w in r.matched ==> w in p.words
    ensures Quiet(p, Lex(s)) ==> r == PassResult(s, [])
  {
    var ts := Lex(s);
    MatchedWordsIn(p, ts);
    SubstQuiet(p, ts);
    PassResult(Concat(SubstTokens(p, ts)), MatchedWords(p, ts))
  }

  /** `CONFIG.patterns.forEach(...)`: the patterns in order, each over the
      text the previous ones produced; the matches of all of them. */
  function ApplyTable(ps: seq<Pattern>, s: string): (r: PassResult)
    ensures forall w :: w in r.matched ==> exists j :: 0 <= j < |ps| && w in ps[j].words
  {
    if ps == [] then PassResult(s, [])
    else
      var first := ApplyPattern(ps[0], s);
      var rest := ApplyTable(ps[1..], first.text);
      assert forall w :: w in rest.matched ==> exists j :: 1 <= j < |ps| && w in ps[j].words by {
        forall w | w in rest.matched ensures exists j :: 1 <= j < |ps| && w in ps[j].words {
          var j :| 0 <= j < |ps[1..]| && w in ps[1..][j].words;
          assert w in ps[j + 1].words;
        }
      }
      PassResult(rest.text, first.matched + rest.matched)
  }

  /** What `replaceTextInNode` computes from a node's text: the new markup
      and the occurrence map it returns. */
  datatype Replacement = Replacement(newText: string, counts: Counts)

  function ReplaceText(s: string): (r: Replacement)
    ensures forall w :: w in r.counts ==> exists j :: 0 <= j < |Patterns| && w in Patterns[j].words
  {
    var pass := ApplyTable(Patterns, s);
    TallyCounts(map[], pass.matched);
    Replacement(pass.text, Tally(map[], pass.matched))
  }

  // ---- helpers about single passes ----

  lemma MatchedWordsIn(p: Pattern, ts: seq<string>)
    ensures forall w :: w in MatchedWords(p, ts) ==> w in p.words
  {
  }

  /** A pattern that matches no token changes nothing and records nothing. */
  lemma SubstQuiet(p: Pattern, ts: seq<string>)
    ensures Quiet(p, ts) ==> SubstTokens(p, ts) == ts && MatchedWords(p, ts) == []
  {
    if Quiet(p, ts) {
      assert SubstTokens(p, ts) == ts;
      MatchedQuiet(p, ts);
    }
  }

  lemma MatchedQuiet(p: Pattern, ts: seq<string>)
    requires Quiet(p, ts)
    ensures MatchedWords(p, ts) == []
  {
  }

  lemma {:induction false} MatchedAppend(p: Pattern, a: seq<string>, b: seq<string>)
    ensures MatchedWords(p, a + b) == MatchedWords(p, a) + MatchedWords(p, b)
    decreases |a|
  {
    if a == [] {
      assert a + b == b;
    } else {
      assert (a + b)[0] == a[0] && (a + b)[1..] == a[1..] + b;
      MatchedAppend(p, a[1..], b);
    }
  }

  /** A word boundary between `a` and `b`. */
  predicate Boundary(a: string, b: string) {
    a == [] || b == [] || !IsWordChar(Last(a)) || !IsWordChar(b[0])
  }

  /** A pattern pass splits at word boundaries. */
  lemma ApplyPatternAppend(p: Pattern, a: string, b: string)
    requires Boundary(a, b)
    ensures ApplyPattern(p, a + b).text == ApplyPattern(p, a).text + ApplyPattern(p, b).text
    ensures ApplyPattern(p, a + b).matched == ApplyPattern(p, a).matched + ApplyPattern(p, b).matched
  {
    LexAppend(a, b);
    TokensAppend(p, Lex(a), Lex(b));
  }

  lemma TokensAppend(p: Pattern, ta: seq<string>, tb: seq<string>)
    ensures Concat(SubstTokens(p, ta + tb)) == Concat(SubstTokens(p, ta)) + Concat(SubstTokens(p, tb))
    ensures MatchedWords(p, ta + tb) == MatchedWords(p, ta) + MatchedWords(p, tb)
  {
    SubstAppend(p, ta, tb);
    ConcatAppend(SubstTokens(p, ta), SubstTokens(p, tb));
    MatchedAppend(p, ta, tb);
  }

  lemma {:induction false} SubstAppend(p: Pattern, a: seq<string>, b: seq<string>)
    ensures SubstTokens(p, a + b) == SubstTokens(p, a) + SubstTokens(p, b)
    decreases |a|
  {
    if a == [] {
      assert a + b == b;
    } else {
      assert (a + b)[0] == a[0] && (a + b)[1..] == a[1..] + b;
      SubstAppend(p, a[1..], b);
    }
  }

  /** A pass over a single token. */
  lemma ApplyPatternToken(p: Pattern, t: string)
    requires IsToken(t)
    ensures ApplyPattern(p, t).text == SubstToken(p, t)
    ensures ApplyPattern(p, t).matched == if Hits(p, t) then [Lower(t)] else []
  {
    LexToken(t);
    assert Concat([SubstToken(p, t)]) == SubstToken(p, t);
    assert MatchedWords(p, [t]) == (if Hits(p, t) then [Lower(t)] else []) + MatchedWords(p, []);
  }

  /** Every pattern of `ps` leaves `s` alone. */
  predicate Inert(ps: seq<Pattern>, s: string) {
    forall j :: 0 <= j < |ps| ==> Quiet(ps[j], Lex(s))
  }

  lemma {:induction false} ApplyTableInert(ps: seq<Pattern>, s: string)
    requires Inert(ps, s)
    ensures ApplyTable(ps, s) == PassResult(s, [])
    decreases |ps|
  {
    if ps != [] {
      assert Quiet(ps[0], Lex(s));
      assert Inert(ps[1..], s) by {
        forall j | 0 <= j < |ps[1..]| ensures Quiet(ps[1..][j], Lex(s)) {
          assert ps[1..][j] == ps[j + 1];
        }
      }
      ApplyTableInert(ps[1..], s);
    }
  }

  lemma QuietAppend(p: Pattern, a: seq<string>, b: seq<string>)
    ensures Quiet(p, a + b) <==> Quiet(p, a) && Quiet(p, b)
  {
    if Quiet(p, a) && Quiet(p, b) {
      forall i | 0 <= i < |a + b| ensures !Hits(p, (a + b)[i]) {
        if i < |a| {
          assert (a + b)[i] == a[i];
        } else {
          assert (a + b)[i] == b[i - |a|];
        }
      }
    }
    if Quiet(p, a + b) {
      forall i | 0 <= i < |a| ensures !Hits(p, a[i]) {
        assert (a + b)[i] == a[i];
      }
      forall i | 0 <= i < |b| ensures !Hits(p, b[i]) {
        assert (a + b)[|a| + i] == b[i];
      }
    }
  }
}
