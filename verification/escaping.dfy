/** The markup `replaceTextInNode` hands to `innerHTML` (content.ts:214-224).
    The node's own text goes into that markup unescaped, so a `<` or `&` in
    the text is read back as markup, not as text. The corrected rendering
    escapes the plain pieces; its only `<` characters are those of the
    censor tags, and unescaping gives back each plain run, which is what
    the `span` children of the page model hold. The parser also drops
    U+0000 and turns CR and CRLF into LF, which escaping does not undo;
    the page model keeps each run as it is. */
module Escaping {
  import opened Chars
  import opened Lexer
  import opened Wrappers
  import opened Config
  import opened Pieces
  import opened Rewriter
  import opened Censoring

  /** How often `c` occurs in `s`. */
  function CountChar(s: string, c: char): (n: nat)
    ensures n <= |s|
    ensures n == 0 <==> forall i :: 0 <= i < |s| ==> s[i] != c
  {
    if s == [] then 0 else (if s[0] == c then 1 else 0) + CountChar(s[1..], c)
  }

  lemma {:induction false} CountCharAppend(a: string, b: string, c: char)
    ensures CountChar(a + b, c) == CountChar(a, c) + CountChar(b, c)
    decreases |a|
  {
    if a == [] {
      assert a + b == b;
    } else {
      assert (a + b)[0] == a[0] && (a + b)[1..] == a[1..] + b;
      CountCharAppend(a[1..], b, c);
    }
  }

  /** The HTML text escape of one character. */
  function EscapeChar(c: char): string {
    if c == '<' then "&lt;" else if c == '&' then "&amp;" else [c]
  }

  function Escape(s: string): (r: string)
    ensures forall i :: 0 <= i < |r| ==> r[i] != '<'
  {
    if s == [] then [] else EscapeChar(s[0]) + Escape(s[1..])
  }

  /** Reading escaped text back: the two entities become their characters. */
  function Unescape(s: string): string
    decreases |s|
  {
    if |s| >= 4 && s[..4] == "&lt;" then "<" + Unescape(s[4..])
    else if |s| >= 5 && s[..5] == "&amp;" then "&" + Unescape(s[5..])
    else if s == [] then []
    else [s[0]] + Unescape(s[1..])
  }

  /** Escaping loses nothing. */
  lemma {:induction false} EscapeRoundTrip(s: string)
    ensures Unescape(Escape(s)) == s
    decreases |s|
  {
    if s != [] {
      var e := Escape(s);
      var head := EscapeChar(s[0]);
      assert e == head + Escape(s[1..]);
      EscapeRoundTrip(s[1..]);
      if s[0] == '<' {
        assert e[..4] == "&lt;" && e[4..] == Escape(s[1..]);
      } else if s[0] == '&' {
        assert e[..4] != "&lt;" by {
          assert e[1] == 'a';
        }
        assert e[..5] == "&amp;" && e[5..] == Escape(s[1..]);
      } else {
        assert e[0] == s[0] && e[1..] == Escape(s[1..]);
      }
    }
  }

  /** The markup with plain pieces escaped. */
  function RenderEscaped(pcs: seq<Piece>): string {
    if pcs == [] then []
    else
      (match pcs[0]
       case Plain(t) => Escape(t)
       case Censored(_, lit) => Wrap(lit))
      + RenderEscaped(pcs[1..])
  }

  /** A string without `<`. */
  lemma NoLess(s: string)
    requires forall i :: 0 <= i < |s| ==> s[i] != '<'
    ensures CountChar(s, '<') == 0
  {
  }

  lemma OpenTagLess()
    ensures CountChar(OpenTag, '<') == 1
  {
    var rest := "span class=\"job-censor-anim\">";
    OpenTagRest(rest);
    NoLess(rest);
    CountCharAppend("<", rest, '<');
  }

  lemma OpenTagRest(rest: string)
    requires rest == "span class=\"job-censor-anim\">"
    ensures OpenTag == "<" + rest
    ensures forall i :: 0 <= i < |rest| ==> rest[i] != '<'
  {
  }

  lemma CloseTagLess()
    ensures CountChar(CloseTag, '<') == 1
  {
    var rest := "/span>";
    assert CloseTag == "<" + rest;
    NoLess(rest);
    CountCharAppend("<", rest, '<');
  }

  /** A wrapper around a literal without `<` holds the two tag openers. */
  lemma WrapLess(lit: string)
    requires forall i :: 0 <= i < |lit| ==> lit[i] != '<'
    ensures CountChar(Wrap(lit), '<') == 2
  {
    OpenTagLess();
    CloseTagLess();
    NoLess(lit);
    CountCharAppend(OpenTag + lit, CloseTag, '<');
    CountCharAppend(OpenTag, lit, '<');
  }

  lemma LiteralsHaveNoLess(j: nat)
    requires j < |Patterns|
    ensures forall i :: 0 <= i < |Patterns[j].replacement| ==> Patterns[j].replacement[i] != '<'
  {
  }

  /** In the escaped markup every `<` opens or closes a censor span: there
      are exactly two per censored word. */
  lemma {:induction false} EscapedTagsAreOurs(pcs: seq<Piece>)
    requires CensorOk(pcs)
    ensures CountChar(RenderEscaped(pcs), '<') == 2 * CensoredCount(pcs)
    decreases |pcs|
  {
    if pcs != [] {
      SliceCensorOk(pcs, 1);
      EscapedTagsAreOurs(pcs[1..]);
      match pcs[0]
      case Plain(t) =>
        NoLess(Escape(t));
        CountCharAppend(Escape(t), RenderEscaped(pcs[1..]), '<');
      case Censored(_, lit) =>
        var j :| 0 <= j < |Patterns| && lit == Patterns[j].replacement;
        LiteralsHaveNoLess(j);
        WrapLess(lit);
        CountCharAppend(Wrap(lit), RenderEscaped(pcs[1..]), '<');
    }
  }

  /** The corrected markup of a text node: every `<` in it belongs to a
      censor tag, and a text without censored words is only escaped. */
  lemma EscapedMarkup(d: string)
    ensures CountChar(RenderEscaped(Censor(d)), '<') == 2 * CensoredCount(Censor(d))
    ensures CensoredCount(Censor(d)) == 0 ==> RenderEscaped(Censor(d)) == Escape(d)
  {
    CensorIsOk(d);
    EscapedTagsAreOurs(Censor(d));
    if CensoredCount(Censor(d)) == 0 {
      EscapedPlain(Censor(d));
    }
  }

  lemma {:induction false} EscapedPlain(pcs: seq<Piece>)
    requires forall i :: 0 <= i < |pcs| ==> pcs[i].Plain?
    ensures RenderEscaped(pcs) == Escape(Concat(Source(pcs)))
    decreases |pcs|
  {
    if pcs != [] {
      EscapedPlain(pcs[1..]);
      assert Source(pcs) == [pcs[0].text] + Source(pcs[1..]);
      EscapeAppend(pcs[0].text, Concat(Source(pcs[1..])));
    }
  }

  lemma {:induction false} EscapeAppend(a: string, b: string)
    ensures Escape(a + b) == Escape(a) + Escape(b)
    decreases |a|
  {
    if a == [] {
      assert a + b == b;
    } else {
      assert (a + b)[0] == a[0] && (a + b)[1..] == a[1..] + b;
      EscapeAppend(a[1..], b);
    }
  }

  // ---- the code as written ----

  lemma LessBJobLex(s: string)
    requires s == "<b>job"
    ensures Lex(s) == ["<", "b", ">", "job"]
  {
    var ts := ["<", "b", ">", "job"];
    assert IsGapToken(ts[0]) && IsGapToken(ts[2]);
    assert Concat(ts) == s;
    LexConcat(ts);
  }

  lemma LessBJobPieces(s: string)
    requires s == "<b>job"
    ensures Censor(s) == [Plain("<"), Plain("b"), Plain(">"), Censored("job", "j*b")]
  {
    LessBJobLex(s);
    LessBJobTokens(Lex(s));
  }

  lemma LessBJobTokens(ts: seq<string>)
    requires ts == ["<", "b", ">", "job"]
    ensures CensorTokens(Patterns, ts) == [Plain("<"), Plain("b"), Plain(">"), Censored("job", "j*b")]
  {
    GapPiece(ts[0]);
    BPiece(ts[1]);
    GapPiece(ts[2]);
    JobPiece(ts[3]);
    CensorFour(ts);
  }

  lemma CensorFour(ts: seq<string>)
    requires |ts| == 4
    ensures CensorTokens(Patterns, ts)
      == [CensorToken(Patterns, ts[0]), CensorToken(Patterns, ts[1]), CensorToken(Patterns, ts[2]), CensorToken(Patterns, ts[3])]
  {
  }

  lemma GapPiece(t: string)
    requires |t| == 1 && !IsWordChar(t[0])
    ensures CensorToken(Patterns, t) == Plain(t)
  {
  }

  lemma BPiece(t: string)
    requires t == "b"
    ensures CensorToken(Patterns, t) == Plain("b")
  {
    LowerKeeps(t);
    BIsNoPatternWord();
  }

  lemma JobPiece(t: string)
    requires t == "job"
    ensures CensorToken(Patterns, t) == Censored("job", "j*b")
  {
    LowerKeeps(t);
    assert FirstMatch(Patterns, "job") == Some(0);
  }

  lemma BIsNoPatternWord()
    ensures forall j :: 0 <= j < |Patterns| ==> "b" !in Patterns[j].words
  {
  }

  lemma LessBJobRender(pcs: seq<Piece>)
    requires pcs == [Plain("<"), Plain("b"), Plain(">"), Censored("job", "j*b")]
    ensures Render(pcs) == "<b>" + Wrap("j*b")
  {
    var t1, t2, t3 := pcs[1..], pcs[2..], pcs[3..];
    assert t3[1..] == [];
    assert Render(t3) == Wrap("j*b") + Render(t3[1..]);
    assert t2[1..] == t3;
    assert Render(t2) == ">" + Render(t3);
    assert t1[1..] == t2;
    assert Render(t1) == "b" + Render(t2);
    assert pcs[1..] == t1;
    assert Render(pcs) == "<" + Render(t1);
  }

  /** As written: a text node whose data is `<b>job` (the page shows the
      characters `<b>job`) is handed to `innerHTML` as `<b>` followed by the
      censor span, so its `<b>` becomes a real element. The corrected
      markup escapes it. */
  lemma MarkupInjection(s: string)
    requires s == "<b>job"
    ensures ReplaceText(s).newText == "<b>" + Wrap("j*b")
    ensures CountChar(ReplaceText(s).newText, '<') == 3
    ensures CountChar(RenderEscaped(Censor(s)), '<') == 2
  {
    LessBJobPieces(s);
    InjectedText(s);
    InjectedCount(ReplaceText(s).newText);
    EscapedCount(s);
  }

  lemma InjectedText(s: string)
    requires Censor(s) == [Plain("<"), Plain("b"), Plain(">"), Censored("job", "j*b")]
    ensures ReplaceText(s).newText == "<b>" + Wrap("j*b")
  {
    LessBJobRender(Censor(s));
    ReplaceTextSpec(s);
  }

  lemma InjectedCount(t: string)
    requires t == "<b>" + Wrap("j*b")
    ensures CountChar(t, '<') == 3
  {
    InjectedCountOf("<b>", "j*b", t);
  }

  lemma InjectedCountOf(a: string, lit: string, t: string)
    requires a == "<b>" && lit == "j*b" && t == a + Wrap(lit)
    ensures CountChar(t, '<') == 3
  {
    WrapLess(lit);
    CountCharAppend(a, Wrap(lit), '<');
    assert a == "<" + a[1..] && a[1..] == "b>";
    CountCharAppend("<", a[1..], '<');
    NoLess(a[1..]);
  }

  lemma EscapedCount(s: string)
    requires Censor(s) == [Plain("<"), Plain("b"), Plain(">"), Censored("job", "j*b")]
    ensures CountChar(RenderEscaped(Censor(s)), '<') == 2
  {
    var pcs := Censor(s);
    EscapedMarkup(s);
    assert pcs[3..][1..] == [];
    assert CensoredCount(pcs[3..]) == 1;
    assert pcs[2..][1..] == pcs[3..];
    assert pcs[1..][1..] == pcs[2..];
    assert CensoredCount(pcs[2..]) == 1;
    assert CensoredCount(pcs[1..]) == 1;
    assert CensoredCount(pcs) == 1;
  }
}
