/** The token view of the censor markup and of the six literals, and the
    facts about them that make the table order safe: the wrapper of any
    literal is quiet for every pattern after the first, while the first
    pattern would hit the word `job` in the class name. */
module Markup {
  import opened Chars
  import opened Lexer
  import opened Config
  import opened Rewriter
  import opened TableFold

  const OpenTokens: seq<string> :=
    ["<", "span", " ", "class", "=", "\"", "job", "-", "censor", "-", "anim", "\"", ">"]
  const CloseTokens: seq<string> := ["<", "/", "span", ">"]

  /** Lower-cased words of the wrapper tags. */
  const TagWords: set<string> := {"span", "class", "job", "censor", "anim"}

  /** Lower-cased words of the six literals. */
  const LiteralWords: set<string> :=
    {"j", "b", "appl", "c", "nt", "r", "int", "rv", "w", "s", "l", "ry", "mp", "ny"}

  /** Every word token of `ts`, lower-cased, is in `ws`. */
  predicate WordsWithin(ts: seq<string>, ws: set<string>) {
    forall i :: 0 <= i < |ts| && IsWordToken(ts[i]) ==> Lower(ts[i]) in ws
  }

  lemma QuietBy(p: Pattern, ts: seq<string>, ws: set<string>)
    requires WordsWithin(ts, ws) && ws !! p.words
    ensures Quiet(p, ts)
  {
  }

  lemma WordsWithinAppend(a: seq<string>, b: seq<string>, wa: set<string>, wb: set<string>)
    requires WordsWithin(a, wa) && WordsWithin(b, wb)
    ensures WordsWithin(a + b, wa + wb)
  {
    forall i | 0 <= i < |a + b| && IsWordToken((a + b)[i]) ensures Lower((a + b)[i]) in wa + wb {
      if i < |a| {
        assert (a + b)[i] == a[i];
      } else {
        assert (a + b)[i] == b[i - |a|];
      }
    }
  }

  /** A string is the lexing of a token list that spells it. */
  lemma LexOf(s: string, ts: seq<string>)
    requires WellFormed(ts) && Concat(ts) == s
    ensures Lex(s) == ts
  {
    LexConcat(ts);
  }

  lemma OpenTokensWellFormed()
    ensures WellFormed(OpenTokens)
  {
    var ts := OpenTokens;
    OpenTokensSplit(ts);
    OpenPartsWellFormed(ts[..5], ts[5..9], ts[9..]);
    JoinWellFormed(ts[..5], ts[5..9]);
    JoinWellFormed(ts[..5] + ts[5..9], ts[9..]);
  }

  lemma OpenPartsWellFormed(a: seq<string>, b: seq<string>, c: seq<string>)
    requires a == ["<", "span", " ", "class", "="]
    requires b == ["\"", "job", "-", "censor"]
    requires c == ["-", "anim", "\"", ">"]
    ensures WellFormed(a) && WellFormed(b) && WellFormed(c)
    ensures !IsWordToken(a[|a| - 1]) && !IsWordToken(c[0])
  {
    assert IsGapToken(a[0]) && IsGapToken(a[2]) && IsGapToken(a[4]);
    assert IsGapToken(b[0]) && IsGapToken(b[2]);
    assert IsGapToken(c[0]) && IsGapToken(c[2]) && IsGapToken(c[3]);
  }

  lemma OpenTokensSpell(ts: seq<string>)
    requires ts == OpenTokens
    ensures Concat(ts) == OpenTag
  {
    OpenTokensSplit(ts);
    SpellOpen(ts[..5], ts[5..9], ts[9..]);
  }

  lemma OpenTokensSplit(ts: seq<string>)
    requires ts == OpenTokens
    ensures ts == ts[..5] + ts[5..9] + ts[9..]
    ensures ts[..5] == ["<", "span", " ", "class", "="]
    ensures ts[5..9] == ["\"", "job", "-", "censor"]
    ensures ts[9..] == ["-", "anim", "\"", ">"]
  {
  }

  lemma SpellOpen(a: seq<string>, b: seq<string>, c: seq<string>)
    requires a == ["<", "span", " ", "class", "="]
    requires b == ["\"", "job", "-", "censor"]
    requires c == ["-", "anim", "\"", ">"]
    ensures Concat(a + b + c) == OpenTag
  {
    ConcatAppend(a + b, c);
    ConcatAppend(a, b);
    SpellOpenHead();
    SpellOpenMiddle();
    SpellOpenTail();
    JoinOpen(Concat(a), Concat(b), Concat(c));
  }

  lemma JoinOpen(x: string, y: string, z: string)
    requires x == "<span class=" && y == "\"job-censor" && z == "-anim\">"
    ensures x + y + z == OpenTag
  {
  }

  lemma SpellOpenHead()
    ensures Concat(["<", "span", " ", "class", "="]) == "<span class="
  {
  }

  lemma SpellOpenMiddle()
    ensures Concat(["\"", "job", "-", "censor"]) == "\"job-censor"
  {
  }

  lemma SpellOpenTail()
    ensures Concat(["-", "anim", "\"", ">"]) == "-anim\">"
  {
  }

  lemma LexOpenTag()
    ensures Lex(OpenTag) == OpenTokens
  {
    OpenTokensWellFormed();
    OpenTokensSpell(OpenTokens);
    LexOf(OpenTag, OpenTokens);
  }

  lemma OpenTokenWords()
    ensures WordsWithin(OpenTokens, TagWords)
  {
    var ts := OpenTokens;
    OpenTokensSplit(ts);
    OpenHeadWords(ts[..5]);
    OpenMiddleWords(ts[5..9]);
    OpenTailWords(ts[9..]);
    WordsWithinAppend(ts[..5], ts[5..9], TagWords, TagWords);
    WordsWithinAppend(ts[..5] + ts[5..9], ts[9..], TagWords, TagWords);
    assert TagWords + TagWords == TagWords;
  }

  lemma OpenHeadWords(ts: seq<string>)
    requires ts == ["<", "span", " ", "class", "="]
    ensures WordsWithin(ts, TagWords)
  {
    assert IsGapToken(ts[0]) && IsGapToken(ts[2]) && IsGapToken(ts[4]);
    LowerKeeps(ts[1]);
    LowerKeeps(ts[3]);
  }

  lemma OpenMiddleWords(ts: seq<string>)
    requires ts == ["\"", "job", "-", "censor"]
    ensures WordsWithin(ts, TagWords)
  {
    assert IsGapToken(ts[0]) && IsGapToken(ts[2]);
    LowerKeeps(ts[1]);
    LowerKeeps(ts[3]);
  }

  lemma OpenTailWords(ts: seq<string>)
    requires ts == ["-", "anim", "\"", ">"]
    ensures WordsWithin(ts, TagWords)
  {
    assert IsGapToken(ts[0]) && IsGapToken(ts[2]) && IsGapToken(ts[3]);
    LowerKeeps(ts[1]);
  }

  lemma LexCloseTag()
    ensures Lex(CloseTag) == CloseTokens
  {
    var ts := CloseTokens;
    assert IsGapToken(ts[0]) && IsGapToken(ts[1]) && IsGapToken(ts[3]);
    assert Concat(ts) == CloseTag;
    LexOf(CloseTag, ts);
  }

  lemma CloseTokenWords()
    ensures WordsWithin(CloseTokens, TagWords)
  {
    LowerKeeps(CloseTokens[2]);
  }

  /** The wrapper lexes as the opening tag, the literal, and the closing
      tag, whatever the literal. */
  lemma LexWrap(lit: string)
    ensures Lex(Wrap(lit)) == OpenTokens + Lex(lit) + CloseTokens
  {
    LexOpenLit(lit);
    LexCloseTag();
    var a := OpenTag + lit;
    assert CloseTag[0] == '<';
    LexAppend(a, CloseTag);
  }

  lemma LexOpenLit(lit: string)
    ensures Lex(OpenTag + lit) == OpenTokens + Lex(lit)
  {
    LexOpenTag();
    OpenTagEnd();
    LexAfterTag(OpenTag, lit);
  }

  lemma OpenTagEnd()
    ensures |OpenTag| > 0 && Last(OpenTag) == '>'
  {
  }

  lemma LexAfterTag(tag: string, lit: string)
    requires |tag| > 0 && Last(tag) == '>'
    ensures Lex(tag + lit) == Lex(tag) + Lex(lit)
  {
    LexAppend(tag, lit);
  }

  // The six literals are lexed by one lemma triple each: the spelling, the
  // token shape and the lexing. They are kept apart on purpose. `Concat`
  // unfolds on a literal token list but not on a parameter that is only
  // required to equal one, and a single lemma over all six literals asks
  // the solver to unfold all of them at once and runs out of resource.
  lemma LexLiteral0(s: string)
    requires s == "j*b"
    ensures WordsWithin(Lex(s), LiteralWords)
  {
    var ts := ["j", "*", "b"];
    SpellLiteral0();
    LiteralShape0(ts);
    LexOf(s, ts);
  }

  lemma SpellLiteral0()
    ensures Concat(["j", "*", "b"]) == "j*b"
  {
  }

  lemma LiteralShape0(ts: seq<string>)
    requires ts == ["j", "*", "b"]
    ensures WellFormed(ts) && WordsWithin(ts, LiteralWords)
  {
    assert IsGapToken(ts[1]);
    LowerKeeps(ts[0]);
    LowerKeeps(ts[2]);
  }

  lemma LexLiteral1(s: string)
    requires s == "appl*c*nt"
    ensures WordsWithin(Lex(s), LiteralWords)
  {
    var ts := ["appl", "*", "c", "*", "nt"];
    SpellLiteral1();
    LiteralShape1(ts);
    LexOf(s, ts);
  }

  lemma SpellLiteral1()
    ensures Concat(["appl", "*", "c", "*", "nt"]) == "appl*c*nt"
  {
  }

  lemma LiteralShape1(ts: seq<string>)
    requires ts == ["appl", "*", "c", "*", "nt"]
    ensures WellFormed(ts) && WordsWithin(ts, LiteralWords)
  {
    assert IsGapToken(ts[1]) && IsGapToken(ts[3]);
    LowerKeeps(ts[0]);
    LowerKeeps(ts[2]);
    LowerKeeps(ts[4]);
  }

  lemma LexLiteral2(s: string)
    requires s == "c*r**r"
    ensures WordsWithin(Lex(s), LiteralWords)
  {
    var ts := ["c", "*", "r", "*", "*", "r"];
    SpellLiteral2();
    LiteralShape2(ts);
    LexOf(s, ts);
  }

  lemma SpellLiteral2()
    ensures Concat(["c", "*", "r", "*", "*", "r"]) == "c*r**r"
  {
  }

  lemma LiteralShape2(ts: seq<string>)
    requires ts == ["c", "*", "r", "*", "*", "r"]
    ensures WellFormed(ts) && WordsWithin(ts, LiteralWords)
  {
    assert IsGapToken(ts[1]) && IsGapToken(ts[3]) && IsGapToken(ts[4]);
    LowerKeeps(ts[0]);
    LowerKeeps(ts[2]);
    LowerKeeps(ts[5]);
  }

  lemma LexLiteral3(s: string)
    requires s == "int*rv*w"
    ensures WordsWithin(Lex(s), LiteralWords)
  {
    var ts := ["int", "*", "rv", "*", "w"];
    SpellLiteral3();
    LiteralShape3(ts);
    LexOf(s, ts);
  }

  lemma SpellLiteral3()
    ensures Concat(["int", "*", "rv", "*", "w"]) == "int*rv*w"
  {
  }

  lemma LiteralShape3(ts: seq<string>)
    requires ts == ["int", "*", "rv", "*", "w"]
    ensures WellFormed(ts) && WordsWithin(ts, LiteralWords)
  {
    assert IsGapToken(ts[1]) && IsGapToken(ts[3]);
    LowerKeeps(ts[0]);
    LowerKeeps(ts[2]);
    LowerKeeps(ts[4]);
  }

  lemma LexLiteral4(s: string)
    requires s == "s*l*ry"
    ensures WordsWithin(Lex(s), LiteralWords)
  {
    var ts := ["s", "*", "l", "*", "ry"];
    SpellLiteral4();
    LiteralShape4(ts);
    LexOf(s, ts);
  }

  lemma SpellLiteral4()
    ensures Concat(["s", "*", "l", "*", "ry"]) == "s*l*ry"
  {
  }

  lemma LiteralShape4(ts: seq<string>)
    requires ts == ["s", "*", "l", "*", "ry"]
    ensures WellFormed(ts) && WordsWithin(ts, LiteralWords)
  {
    assert IsGapToken(ts[1]) && IsGapToken(ts[3]);
    LowerKeeps(ts[0]);
    LowerKeeps(ts[2]);
    LowerKeeps(ts[4]);
  }

  lemma LexLiteral5(s: string)
    requires s == "c*mp*ny"
    ensures WordsWithin(Lex(s), LiteralWords)
  {
    var ts := ["c", "*", "mp", "*", "ny"];
    SpellLiteral5();
    LiteralShape5(ts);
    LexOf(s, ts);
  }

  lemma SpellLiteral5()
    ensures Concat(["c", "*", "mp", "*", "ny"]) == "c*mp*ny"
  {
  }

  lemma LiteralShape5(ts: seq<string>)
    requires ts == ["c", "*", "mp", "*", "ny"]
    ensures WellFormed(ts) && WordsWithin(ts, LiteralWords)
  {
    assert IsGapToken(ts[1]) && IsGapToken(ts[3]);
    LowerKeeps(ts[0]);
    LowerKeeps(ts[2]);
    LowerKeeps(ts[4]);
  }

  /** The word tokens of every literal are literal words. */
  lemma LiteralsWithin(i: nat)
    requires i < |Patterns|
    ensures WordsWithin(Lex(Patterns[i].replacement), LiteralWords)
  {
    var lit := Patterns[i].replacement;
    if i == 0 {
      LexLiteral0(lit);
    } else if i == 1 {
      LexLiteral1(lit);
    } else if i == 2 {
      LexLiteral2(lit);
    } else if i == 3 {
      LexLiteral3(lit);
    } else if i == 4 {
      LexLiteral4(lit);
    } else {
      LexLiteral5(lit);
    }
  }

  /** No pattern, the first included, matches a word of any literal. */
  lemma LiteralWordsAreFree()
    ensures forall j :: 0 <= j < |Patterns| ==> LiteralWords !! Patterns[j].words
  {
  }

  /** Patterns after the first match no word of the wrapper tags. */
  lemma TagWordsFreeAfterFirst()
    ensures forall j :: 1 <= j < |Patterns| ==> TagWords !! Patterns[j].words
  {
  }

  /** The wrapper of any literal is quiet for every pattern after the
      first. */
  lemma WrapQuietAfterFirst(i: nat, j: nat)
    requires i < |Patterns| && 1 <= j < |Patterns|
    ensures Quiet(Patterns[j], Lex(Wrap(Patterns[i].replacement)))
  {
    var lit := Patterns[i].replacement;
    LexWrap(lit);
    OpenTokenWords();
    CloseTokenWords();
    LiteralsWithin(i);
    WordsWithinAppend(OpenTokens, Lex(lit), TagWords, LiteralWords);
    WordsWithinAppend(OpenTokens + Lex(lit), CloseTokens, TagWords + LiteralWords, TagWords);
    TagWordsFreeAfterFirst();
    LiteralWordsAreFree();
    QuietBy(Patterns[j], Lex(Wrap(lit)), TagWords + LiteralWords + TagWords);
  }

  /** The script's table is safe in the order it is written. */
  lemma TableIsSafe()
    ensures SafeTable(Patterns)
  {
    forall i, j | 0 <= i < j < |Patterns|
      ensures Quiet(Patterns[j], Lex(Wrap(Patterns[i].replacement)))
    {
      WrapQuietAfterFirst(i, j);
    }
  }

  /** The first pattern fires on every wrapper, through the `job` of the
      class name: the markup is safe only because that pattern runs
      first. */
  lemma MarkupWouldMatchJob(lit: string)
    ensures !Quiet(Patterns[0], Lex(Wrap(lit)))
  {
    LexWrap(lit);
    WrappedHitsJob(Lex(Wrap(lit)), Lex(lit));
  }

  lemma WrappedHitsJob(ts: seq<string>, mid: seq<string>)
    requires ts == OpenTokens + mid + CloseTokens
    ensures !Quiet(Patterns[0], ts)
  {
    assert ts[..|OpenTokens|] == OpenTokens;
    ClassNameHasJob(ts);
  }

  lemma ClassNameHasJob(ts: seq<string>)
    requires |OpenTokens| <= |ts| && ts[..|OpenTokens|] == OpenTokens
    ensures Hits(Patterns[0], ts[6])
  {
    assert ts[6] == OpenTokens[6] == "job";
    LowerKeeps("job");
  }

  /** Moving the first pattern to the end of the table makes it unsafe. */
  lemma OrderMatters()
    ensures !SafeTable(Patterns[1..] + [Patterns[0]])
  {
    var ps := Patterns[1..] + [Patterns[0]];
    MarkupWouldMatchJob(ps[0].replacement);
    assert ps[5] == Patterns[0];
  }
}
