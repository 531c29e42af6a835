/** The reference reading of one rewritten text node: a sequence of plain
    pieces, kept as they were, and censored pieces, each standing for one
    word that the first pattern (in table order) holding its lower-cased
    form replaces with that pattern's literal. */
module Pieces {
  import opened Chars
  import opened Lexer
  import opened Config
  import opened Wrappers

  datatype Piece = Plain(text: string) | Censored(word: string, replacement: string)

  /** What one token becomes under the first-match rule of table `ps`. */
  function CensorToken(ps: seq<Pattern>, t: string): (pc: Piece)
    ensures pc.Censored? ==> pc.word == t && IsWordToken(t)
    ensures pc.Censored? <==> IsWordToken(t) && exists j :: 0 <= j < |ps| && Lower(t) in ps[j].words
    ensures pc.Plain? ==> pc.text == t
    ensures pc.Censored? ==> exists i :: 0 <= i < |ps| && pc.replacement == ps[i].replacement
    ensures pc.Censored? ==>
      && FirstMatch(ps, Lower(t)).Some?
      && pc.replacement == ps[FirstMatch(ps, Lower(t)).value].replacement
  {
    if IsWordToken(t) then
      match FirstMatch(ps, Lower(t))
      case Some(i) => Censored(t, ps[i].replacement)
      case None => Plain(t)
    else Plain(t)
  }

  function CensorTokens(ps: seq<Pattern>, ts: seq<string>): (pcs: seq<Piece>)
    ensures |pcs| == |ts|
    ensures forall i :: 0 <= i < |ts| ==> pcs[i] == CensorToken(ps, ts[i])
  {
    if ts == [] then [] else [CensorToken(ps, ts[0])] + CensorTokens(ps, ts[1..])
  }

  /** The pieces one text node's content splits into under the script's
      pattern table. */
  function Censor(s: string): (pcs: seq<Piece>)
    ensures Concat(Source(pcs)) == s
    ensures forall i :: 0 <= i < |pcs| && pcs[i].Censored? ==>
      exists j :: 0 <= j < |Patterns| && Lower(pcs[i].word) in Patterns[j].words
    ensures forall i :: 0 <= i < |pcs| && pcs[i].Plain? && IsWordToken(pcs[i].text) ==>
      forall j :: 0 <= j < |Patterns| ==> Lower(pcs[i].text) !in Patterns[j].words
    ensures forall i :: 0 <= i < |pcs| && pcs[i].Censored? ==>
      exists j :: 0 <= j < |Patterns| && pcs[i].replacement == Patterns[j].replacement
    ensures forall i :: 0 <= i < |pcs| && pcs[i].Censored? ==>
      && FirstMatch(Patterns, Lower(pcs[i].word)).Some?
      && pcs[i].replacement == Patterns[FirstMatch(Patterns, Lower(pcs[i].word)).value].replacement
    ensures PiecesOk(pcs)
  {
    var pcs := CensorTokens(Patterns, Lex(s));
    SourceOfCensor(Patterns, Lex(s));
    CensorTokensOk(Patterns, Lex(s));
    pcs
  }

  /** The original token each piece stands for. */
  function SourceOf(pc: Piece): string {
    match pc
    case Plain(t) => t
    case Censored(w, _) => w
  }

  function Source(pcs: seq<Piece>): (ts: seq<string>)
    ensures |ts| == |pcs|
    ensures forall i :: 0 <= i < |pcs| ==> ts[i] == SourceOf(pcs[i])
  {
    if pcs == [] then [] else [SourceOf(pcs[0])] + Source(pcs[1..])
  }

  /** Censoring keeps every original token where it was. */
  lemma SourceOfCensor(ps: seq<Pattern>, ts: seq<string>)
    ensures Source(CensorTokens(ps, ts)) == ts
  {
  }

  /** The markup a piece contributes to `newText`. */
  function RenderPiece(pc: Piece): string {
    match pc
    case Plain(t) => t
    case Censored(_, lit) => Wrap(lit)
  }

  function Render(pcs: seq<Piece>): string {
    if pcs == [] then [] else RenderPiece(pcs[0]) + Render(pcs[1..])
  }

  /** The text a reader sees once the markup is parsed: plain pieces as
      they are, censored pieces as their literal. */
  function VisiblePiece(pc: Piece): string {
    match pc
    case Plain(t) => t
    case Censored(_, lit) => lit
  }

  function Visible(pcs: seq<Piece>): string {
    if pcs == [] then [] else VisiblePiece(pcs[0]) + Visible(pcs[1..])
  }

  /** Lower-cased words of the censored pieces, in document order. */
  function CensoredKeys(pcs: seq<Piece>): seq<string> {
    if pcs == [] then []
    else (if pcs[0].Censored? then [Lower(pcs[0].word)] else []) + CensoredKeys(pcs[1..])
  }

  /** Pieces that come from a lexed string: their sources form a
      well-formed token sequence and every censored piece replaces a word. */
  predicate PiecesOk(pcs: seq<Piece>) {
    && WellFormed(Source(pcs))
    && forall i :: 0 <= i < |pcs| && pcs[i].Censored? ==> IsWordToken(pcs[i].word)
  }

  lemma CensorTokensOk(ps: seq<Pattern>, ts: seq<string>)
    requires WellFormed(ts)
    ensures PiecesOk(CensorTokens(ps, ts))
  {
    SourceOfCensor(ps, ts);
  }

  lemma SlicePiecesOk(pcs: seq<Piece>, lo: nat, hi: nat)
    requires PiecesOk(pcs) && lo <= hi <= |pcs|
    ensures PiecesOk(pcs[lo..hi])
  {
    assert Source(pcs[lo..hi]) == Source(pcs)[lo..hi];
    SliceWellFormed(Source(pcs), lo, hi);
  }

  /** Next to a piece that replaced a word there is only ever a separator. */
  lemma NeighbourIsGap(pcs: seq<Piece>, i: nat)
    requires PiecesOk(pcs) && i + 1 < |pcs|
    requires IsWordToken(SourceOf(pcs[i])) || IsWordToken(SourceOf(pcs[i + 1]))
    ensures !IsWordToken(SourceOf(pcs[i])) ==> pcs[i].Plain? && IsGapToken(pcs[i].text)
    ensures !IsWordToken(SourceOf(pcs[i + 1])) ==> pcs[i + 1].Plain? && IsGapToken(pcs[i + 1].text)
  {
    var ts := Source(pcs);
    assert ts[i] == SourceOf(pcs[i]) && ts[i + 1] == SourceOf(pcs[i + 1]);
    assert IsToken(ts[i]) && IsToken(ts[i + 1]);
  }
}
