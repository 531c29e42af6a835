/** What `replaceTextInNode` does to one text node, stated against the
    first-match reading of `Censor`: the markup it builds, the occurrence
    map it returns, when it leaves the node alone, and why a second visit
    finds nothing to do. */
module Censoring {
  import opened Chars
  import opened Lexer
  import opened Config
  import opened Occurrences
  import opened Pieces
  import opened Rewriter
  import opened TableFold
  import opened Markup

  /** The six passes, in the script's order, build the rendering of the
      first-match reading, and record its censored words up to order. */
  lemma PassIsCensor(s: string)
    ensures ApplyTable(Patterns, s).text == Render(Censor(s))
    ensures multiset(ApplyTable(Patterns, s).matched) == multiset(CensoredKeys(Censor(s)))
  {
    TableIsSafe();
    TableIsCensor(Patterns, s);
  }

  /** The number of words the pieces censor. */
  function CensoredCount(pcs: seq<Piece>): (n: nat)
    ensures n <= |pcs|
    ensures n == 0 <==> forall i :: 0 <= i < |pcs| ==> pcs[i].Plain?
  {
    if pcs == [] then 0 else (if pcs[0].Censored? then 1 else 0) + CensoredCount(pcs[1..])
  }

  lemma {:induction false} CensoredKeysCount(pcs: seq<Piece>)
    ensures |CensoredKeys(pcs)| == CensoredCount(pcs)
    decreases |pcs|
  {
    if pcs != [] {
      CensoredKeysCount(pcs[1..]);
    }
  }

  /** The result of `replaceTextInNode`: the new markup is the rendering of
      the censored pieces; the map has one key per distinct lower-cased
      censored word, counting its occurrences; the counts add up to the
      number of censor spans inserted. */
  lemma ReplaceTextSpec(s: string)
    ensures ReplaceText(s).newText == Render(Censor(s))
    ensures ReplaceText(s).counts.Keys == set w | w in CensoredKeys(Censor(s))
    ensures forall w :: Get(ReplaceText(s).counts, w) == multiset(CensoredKeys(Censor(s)))[w]
    ensures Sum(ReplaceText(s).counts) == CensoredCount(Censor(s))
  {
    PassIsCensor(s);
    TallyOf(ApplyTable(Patterns, s).matched, CensoredKeys(Censor(s)));
    CensoredKeysCount(Censor(s));
  }

  /** Every word of every pattern is at most twelve characters long. */
  lemma PatternWordsShort()
    ensures forall j, w :: 0 <= j < |Patterns| && w in Patterns[j].words ==> |w| <= 12
  {
  }

  /** A censored word's markup is longer than the word. */
  lemma {:induction false} RenderLonger(pcs: seq<Piece>)
    requires forall i :: 0 <= i < |pcs| && pcs[i].Censored? ==> |pcs[i].word| <= 12
    ensures |Render(pcs)| >= |Concat(Source(pcs))|
    ensures (exists i :: 0 <= i < |pcs| && pcs[i].Censored?) ==> |Render(pcs)| > |Concat(Source(pcs))|
    decreases |pcs|
  {
    if pcs != [] {
      RenderLonger(pcs[1..]);
      assert Source(pcs) == [SourceOf(pcs[0])] + Source(pcs[1..]);
      if pcs[0].Censored? {
        WrapEnds(pcs[0].replacement);
        assert |OpenTag| == 30;
      }
      if exists i :: 0 <= i < |pcs| && pcs[i].Censored? {
        var i :| 0 <= i < |pcs| && pcs[i].Censored?;
        if i > 0 {
          assert pcs[1..][i - 1].Censored?;
        }
      }
    }
  }

  /** `newText !== text` exactly when some pattern matched, and exactly
      when the returned map is non-empty: a text node without a pattern
      word is neither replaced nor counted. */
  lemma UnchangedIffNoMatch(s: string)
    ensures ReplaceText(s).newText == s <==> forall i :: 0 <= i < |Censor(s)| ==> Censor(s)[i].Plain?
    ensures ReplaceText(s).counts == map[] <==> forall i :: 0 <= i < |Censor(s)| ==> Censor(s)[i].Plain?
  {
    var pcs := Censor(s);
    ReplaceTextSpec(s);
    CensoredKeysCount(pcs);
    PatternWordsShort();
    RenderLonger(pcs);
    if forall i :: 0 <= i < |pcs| ==> pcs[i].Plain? {
      assert Render(pcs) == Concat(Source(pcs)) by {
        AllPlainRenders(pcs);
      }
    } else {
      assert CensoredKeys(pcs) != [];
      assert CensoredKeys(pcs)[0] in CensoredKeys(pcs);
    }
  }

  lemma {:induction false} AllPlainRenders(pcs: seq<Piece>)
    requires forall i :: 0 <= i < |pcs| ==> pcs[i].Plain?
    ensures Render(pcs) == Concat(Source(pcs))
    decreases |pcs|
  {
    if pcs != [] {
      AllPlainRenders(pcs[1..]);
      assert Source(pcs) == [SourceOf(pcs[0])] + Source(pcs[1..]);
    }
  }

  /** Pieces as `Censor` produces them: lexed, plain words outside every
      pattern, censored words carrying one of the table's literals. */
  predicate CensorOk(pcs: seq<Piece>) {
    && PiecesOk(pcs)
    && (forall i :: 0 <= i < |pcs| && pcs[i].Plain? && IsWordToken(pcs[i].text) ==>
          forall j :: 0 <= j < |Patterns| ==> Lower(pcs[i].text) !in Patterns[j].words)
    && (forall i :: 0 <= i < |pcs| && pcs[i].Censored? ==>
          exists j :: 0 <= j < |Patterns| && pcs[i].replacement == Patterns[j].replacement)
  }

  lemma CensorIsOk(s: string)
    ensures CensorOk(Censor(s))
  {
  }

  lemma SliceCensorOk(pcs: seq<Piece>, lo: nat)
    requires CensorOk(pcs) && lo <= |pcs|
    ensures CensorOk(pcs[lo..])
  {
    SlicePiecesOk(pcs, lo, |pcs|);
    assert pcs[lo..] == pcs[lo..|pcs|];
    forall i | 0 <= i < |pcs[lo..]| ensures pcs[lo..][i] == pcs[lo + i] {
    }
  }

  lemma VisibleFirst(pcs: seq<Piece>)
    requires pcs != [] && VisiblePiece(pcs[0]) != []
    ensures Visible(pcs) != [] && Visible(pcs)[0] == VisiblePiece(pcs[0])[0]
  {
  }

  /** What a reader sees of one piece is quiet for every pattern. */
  lemma PieceQuiet(pcs: seq<Piece>, j: nat)
    requires CensorOk(pcs) && pcs != [] && j < |Patterns|
    ensures Quiet(Patterns[j], Lex(VisiblePiece(pcs[0])))
  {
    assert IsToken(Source(pcs)[0]);
    match pcs[0]
    case Plain(t) =>
      LexToken(t);
    case Censored(_, lit) =>
      var k :| 0 <= k < |Patterns| && lit == Patterns[k].replacement;
      LiteralsWithin(k);
      LiteralWordsAreFree();
      QuietBy(Patterns[j], Lex(lit), LiteralWords);
  }

  lemma VisibleBoundary(pcs: seq<Piece>)
    requires PiecesOk(pcs) && pcs != []
    ensures Boundary(VisiblePiece(pcs[0]), Visible(pcs[1..]))
  {
    var hd := VisiblePiece(pcs[0]);
    assert IsToken(Source(pcs)[0]);
    if !IsWordToken(SourceOf(pcs[0])) {
      assert pcs[0].Plain? && IsGapToken(pcs[0].text);
      assert Last(hd) == hd[0];
    } else if |pcs| > 1 {
      NeighbourIsGap(pcs, 0);
      VisibleFirst(pcs[1..]);
    }
  }

  /** Text whose matched words were replaced by their literals holds no
      word of any pattern. */
  lemma {:induction false} VisibleQuiet(pcs: seq<Piece>, j: nat)
    requires CensorOk(pcs) && j < |Patterns|
    ensures Quiet(Patterns[j], Lex(Visible(pcs)))
    decreases |pcs|
  {
    if pcs == [] {
      assert Lex([]) == [];
    } else {
      SliceCensorOk(pcs, 1);
      VisibleQuiet(pcs[1..], j);
      PieceQuiet(pcs, j);
      VisibleBoundary(pcs);
      LexAppend(VisiblePiece(pcs[0]), Visible(pcs[1..]));
      QuietAppend(Patterns[j], Lex(VisiblePiece(pcs[0])), Lex(Visible(pcs[1..])));
    }
  }

  /** Running the six passes again over what a reader sees finds nothing:
      the text stays and the occurrence map is empty. */
  lemma VisibleIsInert(s: string)
    ensures Inert(Patterns, Visible(Censor(s)))
    ensures ReplaceText(Visible(Censor(s))) == Replacement(Visible(Censor(s)), map[])
  {
    var v := Visible(Censor(s));
    forall j | 0 <= j < |Patterns| ensures Quiet(Patterns[j], Lex(v)) {
      VisibleQuiet(Censor(s), j);
    }
    ApplyTableInert(Patterns, v);
  }

  /** Text that trims to nothing holds no word, so `replaceTextInNode`
      leaves it as it is and counts nothing. */
  lemma BlankIsUntouched(d: string)
    requires IsBlank(d)
    ensures ReplaceText(d) == Replacement(d, map[])
  {
    forall i | 0 <= i < |d| ensures !IsWordChar(d[i]) {
      SpaceIsNotWordChar(d[i]);
    }
    LexNoWords(d);
    ApplyTableInert(Patterns, d);
    TallyCounts(map[], []);
  }
}
