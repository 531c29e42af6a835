/** Why the table-order fold of string passes censors exactly the words the
    first-match reading censors: each pass turns the pieces its pattern
    hits from plain to censored and leaves the markup the earlier passes
    inserted alone, provided that markup is quiet for it. */
module TableFold {
  import opened Chars
  import opened Lexer
  import opened Config
  import opened Wrappers
  import opened Pieces
  import opened Rewriter

  /** No pattern fires on the markup an earlier pattern inserts. */
  predicate SafeTable(ps: seq<Pattern>) {
    forall i, j :: 0 <= i < j < |ps| ==> Quiet(ps[j], Lex(Wrap(ps[i].replacement)))
  }

  /** What pattern `p` does to one piece: a plain word it hits becomes
      censored with `p`'s literal. */
  function StepPiece(p: Pattern, pc: Piece): (r: Piece)
    ensures SourceOf(r) == SourceOf(pc)
    ensures r.Censored? <==> pc.Censored? || (pc.Plain? && Hits(p, pc.text))
  {
    if pc.Plain? && Hits(p, pc.text) then Censored(pc.text, p.replacement) else pc
  }

  function StepPieces(p: Pattern, pcs: seq<Piece>): (r: seq<Piece>)
    ensures |r| == |pcs|
    ensures forall i :: 0 <= i < |pcs| ==> r[i] == StepPiece(p, pcs[i])
  {
    if pcs == [] then [] else [StepPiece(p, pcs[0])] + StepPieces(p, pcs[1..])
  }

  /** The lower-cased words `p` newly censors, in document order. */
  function Fresh(p: Pattern, pcs: seq<Piece>): seq<string> {
    if pcs == [] then []
    else (if pcs[0].Plain? && Hits(p, pcs[0].text) then [Lower(pcs[0].text)] else []) + Fresh(p, pcs[1..])
  }

  /** The markup of every censored piece is quiet for `p`. */
  predicate WrapsQuiet(p: Pattern, pcs: seq<Piece>) {
    forall i :: 0 <= i < |pcs| && pcs[i].Censored? ==> Quiet(p, Lex(Wrap(pcs[i].replacement)))
  }

  lemma WrapEnds(lit: string)
    ensures |Wrap(lit)| == |OpenTag| + |lit| + |CloseTag|
    ensures Wrap(lit)[0] == '<' && Last(Wrap(lit)) == '>'
  {
  }

  lemma RenderFirst(pcs: seq<Piece>)
    requires pcs != [] && RenderPiece(pcs[0]) != []
    ensures Render(pcs) != [] && Render(pcs)[0] == RenderPiece(pcs[0])[0]
  {
  }

  /** The first piece of a lexed rendering meets the rest at a word
      boundary. */
  lemma RenderBoundary(pcs: seq<Piece>)
    requires PiecesOk(pcs) && pcs != []
    ensures Boundary(RenderPiece(pcs[0]), Render(pcs[1..]))
  {
    var hd := RenderPiece(pcs[0]);
    assert IsToken(Source(pcs)[0]);
    if pcs[0].Censored? {
      WrapEnds(pcs[0].replacement);
    } else if IsGapToken(pcs[0].text) {
      assert Last(hd) == hd[0];
    } else if |pcs| > 1 {
      NeighbourIsGap(pcs, 0);
      RenderFirst(pcs[1..]);
    }
  }

  /** One pattern pass over rendered pieces is one step on the pieces. */
  lemma {:induction false} StepRender(p: Pattern, pcs: seq<Piece>)
    requires PiecesOk(pcs) && WrapsQuiet(p, pcs)
    ensures ApplyPattern(p, Render(pcs)) == PassResult(Render(StepPieces(p, pcs)), Fresh(p, pcs))
    decreases |pcs|
  {
    if pcs == [] {
      assert Lex([]) == [];
    } else {
      var hd, tl := RenderPiece(pcs[0]), Render(pcs[1..]);
      SlicePiecesOk(pcs, 1, |pcs|);
      assert WrapsQuiet(p, pcs[1..]) by {
        forall i | 0 <= i < |pcs[1..]| && pcs[1..][i].Censored?
          ensures Quiet(p, Lex(Wrap(pcs[1..][i].replacement)))
        {
          assert pcs[1..][i] == pcs[i + 1];
        }
      }
      StepRender(p, pcs[1..]);
      RenderBoundary(pcs);
      ApplyPatternAppend(p, hd, tl);
      assert StepPieces(p, pcs) == [StepPiece(p, pcs[0])] + StepPieces(p, pcs[1..]);
      match pcs[0]
      case Plain(t) =>
        assert IsToken(Source(pcs)[0]);
        ApplyPatternToken(p, t);
      case Censored(_, lit) =>
        assert Quiet(p, Lex(Wrap(lit)));
    }
  }

  /** The first match in `ps[..k+1]` is the first match in `ps[..k]` or,
      failing that, pattern `k`. */
  lemma FirstMatchSnoc(ps: seq<Pattern>, k: nat, w: string)
    requires k < |ps|
    ensures FirstMatch(ps[..k + 1], w) ==
      match FirstMatch(ps[..k], w)
      case Some(i) => Some(i)
      case None => if w in ps[k].words then Some(k) else None
  {
    var a, b := FirstMatch(ps[..k], w), FirstMatch(ps[..k + 1], w);
    assert forall j :: 0 <= j < k ==> ps[..k][j] == ps[j] && ps[..k + 1][j] == ps[j];
    assert ps[..k + 1][k] == ps[k];
    if a.Some? {
      assert b.Some? && b.value <= a.value;
    } else if b.Some? {
      assert b.value == k;
    }
  }

  /** Pass `k` of the fold extends the first-match reading from the first
      `k` patterns to the first `k + 1`. */
  lemma StepCensor(ps: seq<Pattern>, k: nat, ts: seq<string>)
    requires k < |ps|
    ensures StepPieces(ps[k], CensorTokens(ps[..k], ts)) == CensorTokens(ps[..k + 1], ts)
  {
    forall i | 0 <= i < |ts|
      ensures StepPiece(ps[k], CensorToken(ps[..k], ts[i])) == CensorToken(ps[..k + 1], ts[i])
    {
      if IsWordToken(ts[i]) {
        FirstMatchSnoc(ps, k, Lower(ts[i]));
        assert ps[..k + 1][k] == ps[k];
      }
    }
  }

  /** In a safe table, the markup already inserted by the first `k`
      patterns is quiet for pattern `k`. */
  lemma EarlierWrapsQuiet(ps: seq<Pattern>, k: nat, ts: seq<string>)
    requires k < |ps| && SafeTable(ps)
    ensures WrapsQuiet(ps[k], CensorTokens(ps[..k], ts))
  {
    var pcs := CensorTokens(ps[..k], ts);
    forall i | 0 <= i < |pcs| && pcs[i].Censored?
      ensures Quiet(ps[k], Lex(Wrap(pcs[i].replacement)))
    {
      var j :| 0 <= j < k && pcs[i].replacement == ps[..k][j].replacement;
      assert ps[..k][j] == ps[j];
    }
  }

  /** The matches of passes `k`, `k+1`, ..., in the order the fold records
      them: pattern by pattern, and within a pattern in document order. */
  function PassMatches(ps: seq<Pattern>, k: nat, ts: seq<string>): seq<string>
    requires k <= |ps|
    decreases |ps| - k
  {
    if k == |ps| then [] else Fresh(ps[k], CensorTokens(ps[..k], ts)) + PassMatches(ps, k + 1, ts)
  }

  /** The fold from pass `k` on, started on the rendering after `k`
      passes, ends on the rendering of the full first-match reading. */
  lemma {:induction false} FoldCorrect(ps: seq<Pattern>, k: nat, ts: seq<string>)
    requires WellFormed(ts) && k <= |ps| && SafeTable(ps)
    ensures ApplyTable(ps[k..], Render(CensorTokens(ps[..k], ts)))
      == PassResult(Render(CensorTokens(ps, ts)), PassMatches(ps, k, ts))
    decreases |ps| - k
  {
    if k == |ps| {
      assert ps[..k] == ps && ps[k..] == [];
    } else {
      var pcs := CensorTokens(ps[..k], ts);
      CensorTokensOk(ps[..k], ts);
      EarlierWrapsQuiet(ps, k, ts);
      StepRender(ps[k], pcs);
      StepCensor(ps, k, ts);
      FoldCorrect(ps, k + 1, ts);
      assert ps[k..][0] == ps[k] && ps[k..][1..] == ps[k + 1..];
    }
  }

  /** A newly censored word joins the censored keys. */
  lemma {:induction false} FreshKeys(p: Pattern, pcs: seq<Piece>)
    ensures multiset(CensoredKeys(StepPieces(p, pcs))) == multiset(CensoredKeys(pcs)) + multiset(Fresh(p, pcs))
    decreases |pcs|
  {
    if pcs != [] {
      FreshKeys(p, pcs[1..]);
      assert StepPieces(p, pcs)[1..] == StepPieces(p, pcs[1..]);
    }
  }

  /** Up to order, the fold records exactly the censored words. */
  lemma {:induction false} PassMatchesAreKeys(ps: seq<Pattern>, k: nat, ts: seq<string>)
    requires k <= |ps|
    ensures multiset(PassMatches(ps, k, ts)) + multiset(CensoredKeys(CensorTokens(ps[..k], ts)))
      == multiset(CensoredKeys(CensorTokens(ps, ts)))
    decreases |ps| - k
  {
    if k == |ps| {
      assert ps[..k] == ps;
    } else {
      PassMatchesAreKeys(ps, k + 1, ts);
      StepCensor(ps, k, ts);
      FreshKeys(ps[k], CensorTokens(ps[..k], ts));
    }
  }

  /** Before any pass every token is a plain piece. */
  lemma {:induction false} NoPatterns(ts: seq<string>)
    ensures Render(CensorTokens([], ts)) == Concat(ts)
    ensures CensoredKeys(CensorTokens([], ts)) == []
    decreases |ts|
  {
    if ts != [] {
      NoPatterns(ts[1..]);
      assert CensorTokens([], ts)[1..] == CensorTokens([], ts[1..]);
    }
  }

  /** In a safe table, the fold of string passes is the first-match
      reading: same text, and the same matched words up to order. */
  lemma TableIsCensor(ps: seq<Pattern>, s: string)
    requires SafeTable(ps)
    ensures ApplyTable(ps, s).text == Render(CensorTokens(ps, Lex(s)))
    ensures multiset(ApplyTable(ps, s).matched) == multiset(CensoredKeys(CensorTokens(ps, Lex(s))))
  {
    var ts := Lex(s);
    NoPatterns(ts);
    assert ps[..0] == [] && ps[0..] == ps;
    FoldCorrect(ps, 0, ts);
    PassMatchesAreKeys(ps, 0, ts);
  }
}
