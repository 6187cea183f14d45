/**
 * `maskWord`: every letter or digit of a matched word becomes the replacement character,
 * everything else (separators, punctuation, spaces) stays where it is.
 */
module Masking {
  import opened Text
  import opened Unicode

  /** One character of `maskWord`'s output. */
  function MaskChar(u: CharClasses, rc: char, c: char): char
  {
    if IsAlnum(u, c) then rc else c
  }

  /** The masked word, built left to right as the source concatenates it. */
  function Mask(u: CharClasses, rc: char, w: string): (r: string)
    ensures |r| == |w|
    decreases |w|
  {
    if w == [] then [] else Mask(u, rc, w[..|w| - 1]) + [MaskChar(u, rc, w[|w| - 1])]
  }

  /** Masking is position-wise: letters and digits become `rc`, everything else is kept. */
  lemma {:induction false} MaskAt(u: CharClasses, rc: char, w: string)
    ensures forall q | 0 <= q < |w| :: Mask(u, rc, w)[q] == (if IsAlnum(u, w[q]) then rc else w[q])
    decreases |w|
  {
    if w != [] {
      MaskAt(u, rc, w[..|w| - 1]);
    }
  }

  /** `maskWord($word, $replacementChar)`. */
  method MaskWord(u: CharClasses, w: string, rc: char) returns (masked: string)
    ensures masked == Mask(u, rc, w)
  {
    masked := [];
    for i := 0 to |w|
      invariant masked == Mask(u, rc, w[..i])
    {
      assert w[..i + 1][..i] == w[..i];
      masked := masked + [MaskChar(u, rc, w[i])];
    }
    assert w[..|w|] == w;
  }

  /** A masked word only ever differs from the word by holding `rc`. */
  lemma MaskIsMasking(u: CharClasses, rc: char, w: string)
    ensures MaskedFrom(rc, w, Mask(u, rc, w))
  {
    MaskAt(u, rc, w);
  }

  /** When the replacement character is itself neither a letter nor a digit, masking twice
      is masking once. */
  lemma MaskIdempotent(u: CharClasses, rc: char, w: string)
    requires !IsAlnum(u, rc)
    ensures Mask(u, rc, Mask(u, rc, w)) == Mask(u, rc, w)
  {
    MaskAt(u, rc, w);
    MaskAt(u, rc, Mask(u, rc, w));
  }

  /** A word is left as it is exactly when it holds no letter or digit other than `rc`. */
  lemma MaskUnchangedIff(u: CharClasses, rc: char, w: string)
    ensures Mask(u, rc, w) == w <==> forall q | 0 <= q < |w| :: IsAlnum(u, w[q]) ==> w[q] == rc
  {
    MaskAt(u, rc, w);
    if Mask(u, rc, w) == w {
      forall q | 0 <= q < |w| && IsAlnum(u, w[q]) ensures w[q] == rc {
        assert Mask(u, rc, w)[q] == w[q];
      }
    }
  }

  /** Every letter and digit of the word is replaced, so the masked word holds at least as
      many `rc` as the word has letters and digits. */
  lemma MaskHidesAlnum(u: CharClasses, rc: char, w: string)
    ensures forall q | 0 <= q < |w| :: IsAlnum(u, w[q]) ==> Mask(u, rc, w)[q] == rc
    ensures forall q | 0 <= q < |w| :: !IsAlnum(u, w[q]) ==> Mask(u, rc, w)[q] == w[q]
  {
    MaskAt(u, rc, w);
  }

  /** `d-a-m-n` masks to `*-*-*-*` and `Cus$tom` to `***$***` with ASCII letters. */
  lemma MaskExamples(u: CharClasses)
    requires forall c :: u.isLetter(c) <==> ('a' <= c <= 'z' || 'A' <= c <= 'Z')
    requires forall c :: !u.isDigit(c)
    ensures Mask(u, '*', "d-a-m-n") == "*-*-*-*"
    ensures Mask(u, '*', "Cus$tom") == "***$***"
  {
    MaskAt(u, '*', "d-a-m-n");
    MaskAt(u, '*', "Cus$tom");
  }
}

/**
 * `preg_split('/\b/', $text)` and the walk over its pieces in `findOriginalWord` and in
 * the accent pass of `filterWithLanguage`. The text is cut at every `\b` position; the
 * empty pieces a split at either end of the text produces are left out, since they have
 * no characters and never contain a position.
 */
module Tokens {
  import opened Wrappers
  import opened Unicode

  /** A cut: either end of the text or a `\b` position. */
  predicate IsCut(isWord: char -> bool, text: string, c: int)
  {
    c == 0 || c == |text| || Boundary(isWord, text, c)
  }

  /** The first cut at or after `b`. */
  function CutFrom(isWord: char -> bool, text: string, b: nat): (r: nat)
    requires b <= |text|
    ensures b <= r <= |text| && IsCut(isWord, text, r)
    ensures forall c | b <= c < r :: !Boundary(isWord, text, c)
    decreases |text| - b
  {
    if b == |text| || Boundary(isWord, text, b) then b else CutFrom(isWord, text, b + 1)
  }

  /** Where the piece starting at `a` ends. */
  function NextCut(isWord: char -> bool, text: string, a: nat): nat
    requires a < |text|
  {
    CutFrom(isWord, text, a + 1)
  }

  /** The nonempty pieces of the split from position `a` on. */
  function PiecesFrom(isWord: char -> bool, text: string, a: nat): (r: seq<string>)
    requires a <= |text|
    ensures forall k | 0 <= k < |r| :: r[k] != []
    decreases |text| - a
  {
    if a == |text| then [] else [text[a..NextCut(isWord, text, a)]] + PiecesFrom(isWord, text, NextCut(isWord, text, a))
  }

  function Pieces(isWord: char -> bool, text: string): seq<string>
  {
    PiecesFrom(isWord, text, 0)
  }

  /** The pieces, put back together, give the text again. */
  lemma {:induction false} PiecesFromJoin(isWord: char -> bool, text: string, a: nat)
    requires a <= |text|
    ensures Join(PiecesFrom(isWord, text, a)) == text[a..]
    decreases |text| - a
  {
    if a < |text| {
      var b := NextCut(isWord, text, a);
      PiecesFromJoin(isWord, text, b);
      assert text[a..] == text[a..b] + text[b..];
    }
  }

  function Join(ss: seq<string>): string
  {
    if ss == [] then [] else ss[0] + Join(ss[1..])
  }

  lemma PiecesJoin(isWord: char -> bool, text: string)
    ensures Join(Pieces(isWord, text)) == text
  {
    PiecesFromJoin(isWord, text, 0);
  }

  /** The walk over the pieces from offset `a`: the piece holding `pos`, if one does. */
  function TokenFrom(isWord: char -> bool, text: string, a: nat, pos: int): Option<string>
    requires a <= |text|
    decreases |text| - a
  {
    if a == |text| then None
    else
      var b := NextCut(isWord, text, a);
      if a <= pos < b then Some(text[a..b]) else TokenFrom(isWord, text, b, pos)
  }

  /** The piece of `preg_split('/\b/', $text)` that holds the character at `pos`. */
  function TokenAt(isWord: char -> bool, text: string, pos: int): Option<string>
  {
    TokenFrom(isWord, text, 0, pos)
  }

  lemma {:induction false} TokenFromSpan(isWord: char -> bool, text: string, a: nat, pos: int)
    requires a <= |text| && IsCut(isWord, text, a)
    ensures TokenFrom(isWord, text, a, pos).Some? <==> a <= pos < |text|
    ensures a <= pos < |text| ==> exists x, y ::
              a <= x <= pos < y <= |text| && TokenFrom(isWord, text, a, pos) == Some(text[x..y]) && IsToken(isWord, text, x, y)
    decreases |text| - a
  {
    if a < |text| {
      var b := NextCut(isWord, text, a);
      if a <= pos < b {
        assert IsToken(isWord, text, a, b);
      } else {
        TokenFromSpan(isWord, text, b, pos);
      }
    }
  }

  /** `text[x..y]` is a piece of the split: it runs from a cut to the next one. */
  predicate IsToken(isWord: char -> bool, text: string, x: int, y: int)
  {
    0 <= x < y <= |text| && IsCut(isWord, text, x) && IsCut(isWord, text, y)
    && forall c | x < c < y :: !Boundary(isWord, text, c)
  }

  /** The token holding `pos` exists exactly when `pos` lies inside the text, and then it is
      the piece between the cuts on either side of `pos`. */
  lemma TokenAtSpan(isWord: char -> bool, text: string, pos: int)
    ensures TokenAt(isWord, text, pos).Some? <==> 0 <= pos < |text|
    ensures 0 <= pos < |text| ==> exists x, y ::
              x <= pos < y && IsToken(isWord, text, x, y) && TokenAt(isWord, text, pos) == Some(text[x..y])
  {
    TokenFromSpan(isWord, text, 0, pos);
  }

  /** `findOriginalWord($text, $position, $length)`: walks the pieces of the split with a running
      offset and returns the one holding `position`, or `None` (`null`). `length` is unused in
      the source and so is not a parameter here. */
  method FindOriginalWord(isWord: char -> bool, text: string, position: int) returns (r: Option<string>)
    ensures r == TokenAt(isWord, text, position)
  {
    var words := Pieces(isWord, text);
    var curPos: nat := 0;
    var k := 0;
    while k < |words|
      invariant 0 <= k <= |words| && curPos <= |text|
      invariant words[k..] == PiecesFrom(isWord, text, curPos)
      invariant TokenAt(isWord, text, position) == TokenFrom(isWord, text, curPos, position)
      decreases |words| - k
    {
      var word := words[k];
      var next := curPos + |word|;
      if curPos <= position < next {
        return Some(word);
      }
      assert words[k + 1..] == words[k..][1..];
      curPos := next;
      k := k + 1;
    }
    return None;
  }
}
