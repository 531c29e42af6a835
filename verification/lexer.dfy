/** The word-token view of a string that the content script's patterns see.

    Every pattern has the shape `\b(w1|w2|...)\b` with alternatives made of
    word characters only, so a match always starts where a word-character
    run starts and ends where that run ends. Splitting a string into its
    maximal word-character runs and its single non-word characters therefore
    loses nothing: a pattern matches exactly the word tokens whose ASCII
    lower-cased form is one of its alternatives. */
module Lexer {
  import opened Chars

  /** A maximal run of word characters (maximality is a property of the
      sequence it sits in, see WellFormed). */
  predicate IsWordToken(t: string) {
    |t| > 0 && forall i :: 0 <= i < |t| ==> IsWordChar(t[i])
  }

  /** One character that is not a word character. */
  predicate IsGapToken(t: string) {
    |t| == 1 && !IsWordChar(t[0])
  }

  predicate IsToken(t: string) {
    IsWordToken(t) || IsGapToken(t)
  }

  /** A token sequence as the lexer produces it: word runs and single
      separators, with no two word runs side by side. */
  predicate WellFormed(ts: seq<string>) {
    && (forall i :: 0 <= i < |ts| ==> IsToken(ts[i]))
    && (forall i :: 0 < i < |ts| ==> !(IsWordToken(ts[i - 1]) && IsWordToken(ts[i])))
  }

  /** Length of the word-character run at the start of `s`. */
  function WordLen(s: string): (n: nat)
    requires s != [] && IsWordChar(s[0])
    ensures 1 <= n <= |s|
    ensures IsWordToken(s[..n])
    ensures n == |s| || !IsWordChar(s[n])
  {
    if |s| == 1 || !IsWordChar(s[1]) then 1 else 1 + WordLen(s[1..])
  }

  function Last(s: string): char
    requires s != []
  {
    s[|s| - 1]
  }

  function Concat(ts: seq<string>): string {
    if ts == [] then [] else ts[0] + Concat(ts[1..])
  }

  /** Splits `s` into maximal word runs and single separators. */
  function Lex(s: string): (ts: seq<string>)
    ensures WellFormed(ts)
    ensures Concat(ts) == s
    decreases |s|, 0
  {
    if s == [] then []
    else
      var n := if IsWordChar(s[0]) then WordLen(s) else 1;
      var rest := Lex(s[n..]);
      assert s[..n] + s[n..] == s;
      assert IsToken(s[..n]);
      assert rest != [] ==> !IsWordToken(s[..n]) || !IsWordToken(rest[0]) by {
        if rest != [] {
          LexEnds(s[n..]);
        }
      }
      JoinWellFormed([s[..n]], rest);
      assert Concat([s[..n]] + rest) == s[..n] + Concat(rest);
      [s[..n]] + rest
  }

  /** The first token starts, and the last token ends, with the string's
      own first and last characters. */
  lemma {:induction false} LexEnds(s: string)
    ensures Lex(s) != [] <==> s != []
    ensures s != [] ==> Lex(s)[0][0] == s[0]
    ensures s != [] ==> Last(Lex(s)[|Lex(s)| - 1]) == Last(s)
    decreases |s|, 1
  {
    if s != [] {
      var n := if IsWordChar(s[0]) then WordLen(s) else 1;
      assert Lex(s) == [s[..n]] + Lex(s[n..]);
      LexEnds(s[n..]);
      if n < |s| {
        assert Last(s[n..]) == Last(s);
      }
    }
  }

  /** A word run followed by nothing or by a separator is exactly the run
      WordLen measures. */
  lemma WordLenOfRun(t: string, rest: string)
    requires IsWordToken(t)
    requires rest == [] || !IsWordChar(rest[0])
    ensures WordLen(t + rest) == |t|
    decreases |t|
  {
    if |t| > 1 {
      assert (t + rest)[1] == t[1];
      assert (t + rest)[1..] == t[1..] + rest;
      WordLenOfRun(t[1..], rest);
    }
  }

  lemma ConcatFirst(ts: seq<string>)
    requires ts != [] && ts[0] != []
    ensures Concat(ts) != [] && Concat(ts)[0] == ts[0][0]
  {
  }

  lemma {:induction false} ConcatAppend(a: seq<string>, b: seq<string>)
    ensures Concat(a + b) == Concat(a) + Concat(b)
    decreases |a|
  {
    if a == [] {
      assert a + b == b;
    } else {
      assert (a + b)[1..] == a[1..] + b;
      ConcatAppend(a[1..], b);
    }
  }

  /** Lexing a token followed by text that cannot extend it. */
  lemma LexCons(t: string, rest: string)
    requires IsToken(t)
    requires IsWordToken(t) ==> rest == [] || !IsWordChar(rest[0])
    ensures Lex(t + rest) == [t] + Lex(rest)
  {
    var s := t + rest;
    if IsWordToken(t) {
      WordLenOfRun(t, rest);
    }
    var n := if IsWordChar(s[0]) then WordLen(s) else 1;
    assert n == |t|;
    assert s[..n] == t && s[n..] == rest;
  }

  /** Lexing is the inverse of concatenation on well-formed token
      sequences: the token view of a string is unique. */
  lemma {:induction false} LexConcat(ts: seq<string>)
    requires WellFormed(ts)
    ensures Lex(Concat(ts)) == ts
    decreases |ts|
  {
    if ts != [] {
      var tail := ts[1..];
      SliceWellFormed(ts, 1, |ts|);
      LexConcat(tail);
      if tail != [] {
        assert ts[1] == tail[0];
        assert IsGapToken(tail[0]) || !IsWordToken(ts[0]);
        ConcatFirst(tail);
      }
      var s := Concat(ts);
      assert s == ts[0] + Concat(tail);
      LexCons(ts[0], Concat(tail));
      assert Lex(s) == [ts[0]] + tail;
    }
  }

  /** Two well-formed sequences joined where at least one side is a
      separator stay well-formed. */
  lemma JoinWellFormed(a: seq<string>, b: seq<string>)
    requires WellFormed(a) && WellFormed(b)
    requires a == [] || b == [] || !IsWordToken(a[|a| - 1]) || !IsWordToken(b[0])
    ensures WellFormed(a + b)
  {
    var ab := a + b;
    forall i | 0 < i < |ab|
      ensures !(IsWordToken(ab[i - 1]) && IsWordToken(ab[i]))
    {
      if i < |a| {
        assert ab[i - 1] == a[i - 1] && ab[i] == a[i];
      } else if i == |a| {
        assert ab[i - 1] == a[|a| - 1] && ab[i] == b[0];
      } else {
        assert ab[i - 1] == b[i - 1 - |a|] && ab[i] == b[i - |a|];
      }
    }
  }

  /** A contiguous slice of a well-formed sequence is well-formed. */
  lemma SliceWellFormed(ts: seq<string>, lo: nat, hi: nat)
    requires WellFormed(ts) && lo <= hi <= |ts|
    ensures WellFormed(ts[lo..hi])
  {
    var u := ts[lo..hi];
    forall i | 0 < i < |u|
      ensures !(IsWordToken(u[i - 1]) && IsWordToken(u[i]))
    {
      assert u[i - 1] == ts[lo + i - 1] && u[i] == ts[lo + i];
    }
  }

  /** Where `a` and `b` meet at a word boundary, lexing `a + b` lexes the
      two halves separately. */
  lemma LexAppend(a: string, b: string)
    requires a == [] || b == [] || !IsWordChar(Last(a)) || !IsWordChar(b[0])
    ensures Lex(a + b) == Lex(a) + Lex(b)
  {
    var ta, tb := Lex(a), Lex(b);
    LexEnds(a);
    LexEnds(b);
    if ta != [] && tb != [] {
      assert IsWordToken(ta[|ta| - 1]) ==> IsWordChar(Last(a));
      assert IsWordToken(tb[0]) ==> IsWordChar(b[0]);
    }
    JoinWellFormed(ta, tb);
    ConcatAppend(ta, tb);
    LexConcat(ta + tb);
  }

  /** A single token lexes to itself. */
  lemma LexToken(t: string)
    requires IsToken(t)
    ensures Lex(t) == [t]
  {
    assert Concat([t]) == t;
    LexConcat([t]);
  }

  /** A string without word characters lexes into separators only. */
  lemma {:induction false} LexNoWords(s: string)
    requires forall i :: 0 <= i < |s| ==> !IsWordChar(s[i])
    ensures forall k :: 0 <= k < |Lex(s)| ==> IsGapToken(Lex(s)[k])
    decreases |s|
  {
    if s != [] {
      LexNoWords(s[1..]);
      assert Lex(s) == [s[..1]] + Lex(s[1..]);
    }
  }
}
