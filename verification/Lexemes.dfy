/**
 The longer tokens, byte by byte, and the errors of malformed ones: which error, and at which
 byte.
 */
module Lexemes {
  import opened Bytes
  import opened Lexical
  import opened Utf8
  import opened UnicodeEsc
  import opened StringLine
  import opened BlockString
  import opened Numbers
  import opened Grammar
  import opened Printing
  import opened Soundness
  import D = Descent
  import Completeness
  import Locality

  // ----- Names and the ellipsis

  lemma OneLexeme(s: bytes, t: Token)
    requires s != [] && Skip(s, 0) == 0 && Lex(s, 0) == Ok(t, |s|)
    ensures Tokens(s, 0) == Some([t])
  {
    hide Lex, Skip;
    TokensEnd(s);
    assert [t] + [] == [t];
  }

  /** A Name is a letter or underscore, and letters, digits and underscores. */
  lemma NameExactly(n: bytes)
    ensures Tokens(n, 0) == Some([NameToken(n)]) <==>
              && n != [] && (0x41 <= n[0] <= 0x5a || n[0] == 0x5f || 0x61 <= n[0] <= 0x7a)
              && forall k | 0 <= k < |n| :: 0x41 <= n[k] <= 0x5a || n[k] == 0x5f || 0x61 <= n[k] <= 0x7a || 0x30 <= n[k] <= 0x39
  {
    hide Tokens, Lex, NameEnd, Skip;
    if IsName(n) {
      NothingToSkip(n, 0);
      NameReach(n, 1, |n|);
      NameIsLexed(n);
      OneLexeme(n, NameToken(n));
    }
    if Tokens(n, 0) == Some([NameToken(n)]) {
      Completeness.First(n, 0, [NameToken(n)]);
      var k := Skip(n, 0);
      NameShapeAt(n, k);
    }
  }

  lemma NameIsLexed(n: bytes)
    requires IsName(n) && NameEnd(n, 1) == |n|
    ensures Lex(n, 0) == Ok(NameToken(n), |n|)
  {
    hide NameEnd, Number, D.StringToken;
    FirstByte(n, 0, D.ELLIPSIS);
    assert n[0..|n|] == n;
  }

  lemma NameShapeAt(n: bytes, k: nat)
    requires k < |n| && Lex(n, k).Ok? && Lex(n, k).v == NameToken(n)
    ensures IsName(n)
  {
    hide NameEnd, Number, D.StringToken;
    NameEndIs(n, k + 1);
    Completeness.TokenTells(n, k);
  }

  lemma EllipsisExactly()
    ensures Tokens([0x2e, 0x2e, 0x2e], 0) == Some([Ellipsis])
  {
    var s: bytes := [0x2e, 0x2e, 0x2e];
    assert s[0..3] == s;
    NothingToSkip(s, 0);
    hide Tokens;
    assert Lex(s, 0) == Ok(Ellipsis, 3);
    OneLexeme(s, Ellipsis);
  }

  // ----- Strings

  /** Text that may stand between two quotes as it is. */
  predicate IsPlainText(t: bytes) {
    IsUtf8(t) && forall k | 0 <= k < |t| :: t[k] >= 0x20 && t[k] != 0x22 && t[k] != 0x5c
  }

  /** The first character of the text from i to j, and the text after it. */
  lemma TextStep(s: bytes, i: nat, j: nat) returns (n: nat)
    requires i < j <= |s| && IsUtf8(s[i..j])
    ensures n == SourceCharacterLen(s, i) && 0 < n <= j - i && IsUtf8(s[i + n..j])
    ensures Scalars(s[i..j]) == [Decode(s, i)] + Scalars(s[i + n..j])
  {
    hide SourceCharacterLen, Decode;
    var t := s[i..j];
    assert t <= s[i..];
    CharacterMoves(s, i, t);
    n := SourceCharacterLen(t, 0);
    assert t[n..] == s[i + n..j];
  }

  lemma PlainStep(s: bytes, i: nat)
    requires i < |s| && s[i] >= 0x20 && s[i] != 0x22 && s[i] != 0x5c && SourceCharacterLen(s, i) > 0
    ensures var rest := Contents(s, i + SourceCharacterLen(s, i));
            Contents(s, i) == if rest.Err? then rest else Ok([Decode(s, i)] + rest.v, rest.next)
  {
    hide SourceCharacterLen, Decode, Contents;
    ContentsAre(s, i);
  }

  lemma CodePointsAssoc(a: seq<scalar>, b: seq<scalar>, c: seq<scalar>)
    ensures a + (b + c) == a + b + c && [] + c == c && c + [] == c
  {
  }

  /** What comes after plain text decides. */
  lemma {:induction false} PlainContents(s: bytes, i: nat, j: nat)
    requires i <= j <= |s| && IsUtf8(s[i..j]) && forall k | i <= k < j :: s[k] >= 0x20 && s[k] != 0x22 && s[k] != 0x5c
    ensures var rest := Contents(s, j);
            Contents(s, i) == if rest.Err? then rest else Ok(Scalars(s[i..j]) + rest.v, rest.next)
    decreases j - i
  {
    hide *;
    var rest := Contents(s, j);
    if i == j {
      NoText(s, i);
      if rest.Ok? {
        CodePointsAssoc([], [], rest.v);
      }
    } else {
      var n := TextStep(s, i, j);
      PlainStep(s, i);
      PlainContents(s, i + n, j);
      if rest.Ok? {
        CodePointsAssoc([Decode(s, i)], Scalars(s[i + n..j]), rest.v);
      }
    }
  }

  lemma NoText(s: bytes, i: nat)
    requires i <= |s|
    ensures IsUtf8(s[i..i]) && Scalars(s[i..i]) == []
  {
  }

  /** Between two quotes plain text stands for itself. */
  lemma QuotedText(t: bytes)
    requires IsPlainText(t)
    ensures Tokens([0x22] + t + [0x22], 0) == Some([StringToken(t)])
  {
    hide IsUtf8, Tokens;
    var s: bytes := [0x22] + t + [0x22];
    assert t != [] ==> s[1] == t[0];
    assert s[1..|s| - 1] == t;
    QuotedAlone(s);
  }

  lemma QuotedAlone(s: bytes)
    requires |s| >= 2 && s[0] == 0x22 && s[|s| - 1] == 0x22 && IsUtf8(s[1..|s| - 1])
    requires forall k | 1 <= k < |s| - 1 :: s[k] >= 0x20 && s[k] != 0x22 && s[k] != 0x5c
    ensures Tokens(s, 0) == Some([StringToken(s[1..|s| - 1])])
  {
    QuoteIs();
    hide *;
    var j := |s| - 1;
    var t := s[1..j];
    PlainContents(s, 1, j);
    Closed(s, j);
    ScalarsEncoded(t);
    CodePointsAssoc([], [], Scalars(t));
    NotThree(s);
    QuotedLexed(s, 0, Scalars(t), |s|);
    NothingToSkip(s, 0);
    OneLexeme(s, StringToken(t));
  }

  lemma QuoteIs()
    ensures QUOTE == 0x22 && COMMA != QUOTE && QUOTE != HASH
  {
  }

  lemma Closed(s: bytes, i: nat)
    requires i < |s| && s[i] == 0x22
    ensures Contents(s, i) == Ok([], i + 1)
  {
  }

  lemma NotThree(s: bytes)
    requires |s| < 3 || s[1] != 0x22
    ensures !HasPrefixAt(s, 0, TRIPLE)
  {
    if |s| >= 3 {
      assert s[0..3][1] == s[1];
    }
  }

  /** The error of a string line, by the byte it is reported at. */
  ghost predicate IsLineError(s: bytes, e: Error, p: nat) {
    match e
    case UnescapedControlChar => p < |s| && s[p] < 0x20
    case MalformedUTF8 => p < |s| && forall v: scalar :: !(Encode(v) <= s[p..])
    case InvalidEscape =>
      p < |s| && (s[p] == 0x5c || (p > 0 && s[p - 1] == 0x5c && s[p] == 0x75))
    case UnexpectedEOF =>
      || p == |s| || (p + 1 == |s| && s[p] == 0x5c)
      || (p < |s| && p > 0 && s[p - 1] == 0x5c && s[p] == 0x75
          && (|s| < p + 11 || (s[p + 1] == 0x7b && forall k | p + 2 <= k < |s| :: IsHexDigit(s[k]))))
    case _ => false
  }

  lemma NoCharacter(s: bytes, i: nat)
    requires i < |s| && SourceCharacterLen(s, i) == 0
    ensures forall v: scalar :: !(Encode(v) <= s[i..])
  {
    hide Encode, SourceCharacterLen;
    forall v: scalar ensures !(Encode(v) <= s[i..]) {
      SourceCharacterIs(s, i, |Encode(v)|);
    }
  }

  lemma CharacterError(s: bytes, i: nat)
    requires i < |s| && s[i] != 0x22 && Character(s, i).Err?
    ensures IsLineError(s, Character(s, i).e, Character(s, i).pos)
  {
    hide Encode, SourceCharacterLen, HexValue, Value, Pair, SimpleEscape;
    if SourceCharacterLen(s, i) == 0 {
      NoCharacter(s, i);
    }
  }

  /** A control byte, malformed UTF-8, a broken escape and the end of the source are told apart. */
  lemma {:induction false} LineErrors(s: bytes, i: nat)
    requires i <= |s| && Contents(s, i).Err?
    ensures IsLineError(s, Contents(s, i).e, Contents(s, i).pos)
    decreases |s| - i
  {
    hide Character, IsLineError;
    if i == |s| {
      AtEnd(s);
    } else {
      ContentsAre(s, i);
      if Character(s, i).Err? {
        CharacterError(s, i);
      } else {
        LineErrors(s, Character(s, i).next);
      }
    }
  }

  lemma AtEnd(s: bytes)
    ensures IsLineError(s, UnexpectedEOF, |s|)
  {
  }

  /** Within three quotes only malformed UTF-8 and the end of the source are errors. */
  lemma {:induction false} BlockErrors(s: bytes, i: nat)
    requires i <= |s| && BlockEnd(s, i).Err?
    ensures var e, p := BlockEnd(s, i).e, BlockEnd(s, i).pos;
            (e == UnexpectedEOF && p == |s|) || (e == MalformedUTF8 && p < |s| && forall v: scalar :: !(Encode(v) <= s[p..]))
    decreases |s| - i
  {
    hide Encode, SourceCharacterLen;
    if i < |s| && !HasPrefixAt(s, i, TRIPLE) {
      if HasPrefixAt(s, i, ESCAPED_TRIPLE) {
        BlockErrors(s, i + 4);
      } else {
        if SourceCharacterLen(s, i) > 0 {
          BlockErrors(s, i + SourceCharacterLen(s, i));
        } else {
          NoCharacter(s, i);
        }
      }
    }
  }

  /** The error of a string, whichever kind it is. */
  lemma StringErrors(s: bytes, i: nat)
    requires i < |s| && s[i] == 0x22 && Lex(s, i).Err?
    ensures IsLineError(s, Lex(s, i).e, Lex(s, i).pos) && Lex(s, i).pos > i
    ensures (i + 2 < |s| && s[i + 1] == 0x22 && s[i + 2] == 0x22) ==> Lex(s, i).e == UnexpectedEOF || Lex(s, i).e == MalformedUTF8
  {
    hide Contents, BlockEnd, BlockStringValue, Unquote, Number, Encode;
    FirstByte(s, i, D.ELLIPSIS);
    Locality.TripleIs(s, i);
    if HasPrefixAt(s, i, TRIPLE) {
      BlockErrors(s, i + 3);
    } else {
      LineErrors(s, i + 1);
    }
  }

  // ----- Block strings

  /** Between three quotes text without quotes and backslashes stands for its value. */
  lemma BlockQuoted(t: bytes)
    requires IsUtf8(t) && forall k | 0 <= k < |t| :: t[k] != 0x22 && t[k] != 0x5c
    ensures Tokens([0x22, 0x22, 0x22] + t + [0x22, 0x22, 0x22], 0) == Some([StringToken(BlockStringValue(t))])
  {
    hide *;
    var s := [0x22, 0x22, 0x22] + t + [0x22, 0x22, 0x22];
    Delimited(t);
    BlockReach(s, 3, 3 + |t|);
    Unquoted(t);
    BlockLexed(s, 0, |s|);
    NothingToSkip(s, 0);
    OneLexeme(s, StringToken(BlockStringValue(t)));
  }

  lemma Delimited(t: bytes)
    ensures var s: bytes := [0x22, 0x22, 0x22] + t + [0x22, 0x22, 0x22];
            && s[3..3 + |t|] == t && s[3 + |t|..] == [0x22, 0x22, 0x22] && HasPrefixAt(s, 0, TRIPLE) && s[0] == QUOTE
            && (forall k | 3 <= k < 3 + |t| :: s[k] == t[k - 3]) && COMMA != QUOTE && QUOTE != HASH
  {
    var s: bytes := [0x22, 0x22, 0x22] + t + [0x22, 0x22, 0x22];
    assert s[0..3] == TRIPLE;
  }

  lemma {:induction false} BlockReach(s: bytes, i: nat, j: nat)
    requires i <= j <= |s| && IsUtf8(s[i..j]) && s[j..] == [0x22, 0x22, 0x22] && forall k | i <= k < j :: s[k] != 0x22 && s[k] != 0x5c
    ensures BlockEnd(s, i) == Ok((), j + 3)
    decreases j - i
  {
    hide *;
    if i == j {
      BlockCloses(s, i);
    } else {
      var n := TextStep(s, i, j);
      BlockStep(s, i);
      BlockReach(s, i + n, j);
    }
  }

  lemma BlockCloses(s: bytes, i: nat)
    requires i <= |s| && s[i..] == [0x22, 0x22, 0x22]
    ensures BlockEnd(s, i) == Ok((), i + 3)
  {
    assert s[i..i + 3] == s[i..];
  }

  lemma BlockStep(s: bytes, i: nat)
    requires i < |s| && s[i] != 0x22 && s[i] != 0x5c && SourceCharacterLen(s, i) > 0
    ensures BlockEnd(s, i) == BlockEnd(s, i + SourceCharacterLen(s, i))
  {
    hide SourceCharacterLen;
    FirstByte(s, i, TRIPLE);
    FirstByte(s, i, ESCAPED_TRIPLE);
  }

  lemma {:induction false} Unquoted(t: bytes)
    requires forall k | 0 <= k < |t| :: t[k] != 0x5c
    ensures Unquote(t) == t
  {
    if t != [] {
      Unquoted(t[1..]);
      assert t == [t[0]] + t[1..];
    }
  }

  lemma UnquoteIs(t: bytes)
    requires t != []
    ensures Unquote(t) == if ESCAPED_TRIPLE <= t then TRIPLE + Unquote(t[4..]) else [t[0]] + Unquote(t[1..])
  {
  }

  /** An escaped triple quote stands for three quotes. */
  lemma QuotesUnquoted(rest: bytes)
    ensures Unquote([0x5c, 0x22, 0x22, 0x22] + rest) == [0x22, 0x22, 0x22] + Unquote(rest)
  {
    hide Unquote;
    var e: bytes := [0x5c, 0x22, 0x22, 0x22];
    UnquoteIs(e + rest);
    assert (e + rest)[4..] == rest && e <= e + rest;
  }

  /** No other backslash escapes anything. */
  lemma OthersKept(b: byte, rest: bytes)
    requires b != 0x5c || |rest| < 3 || rest[0] != 0x22 || rest[1] != 0x22 || rest[2] != 0x22
    ensures Unquote([b] + rest) == [b] + Unquote(rest)
  {
    hide Unquote;
    var s := [b] + rest;
    UnquoteIs(s);
    StartsEscaped(s);
    assert s[1..] == rest && s[0] == b;
  }

  lemma StartsEscaped(s: bytes)
    ensures ESCAPED_TRIPLE <= s <==> |s| >= 4 && s[0] == 0x5c && s[1] == 0x22 && s[2] == 0x22 && s[3] == 0x22
  {
    if |s| >= 4 {
      var t := s[..4];
      assert t == [s[0], s[1], s[2], s[3]];
    }
  }

  lemma BlockLexed(s: bytes, i: nat, j: nat)
    requires i < |s| && s[i] == QUOTE && HasPrefixAt(s, i, TRIPLE) && BlockEnd(s, i + 3) == Ok((), j)
    ensures Lex(s, i) == Ok(StringToken(BlockStringValue(Unquote(s[i + 3..j - 3]))), j)
  {
    hide BlockEnd, BlockStringValue, Unquote, Number;
    NoEllipsis(s, i);
  }

  // ----- Numbers

  /** A malformed number is reported at its first byte, if that is a sign that no digit follows;
      else at the byte that ends what could still become a number, or that may not follow one. */
  lemma NumberErrors(s: bytes, i: nat)
    requires i < |s| && (s[i] == MINUS || IsDigit(s[i])) && Number(s, i).Err?
    ensures var p := Number(s, i).pos;
            if p == i then s[i] == 0x2d && (i + 1 == |s| || !IsDigit(s[i + 1]))
            else
              || (IsNumberText(s[i..p] + [0x30], true) && (p == |s| || !IsDigit(s[p])))
              || (p < |s| && !Ends(s, p) && (IsNumberText(s[i..p], false) || IsNumberText(s[i..p], true)))
  {
    hide DigitsEnd, AfterInteger, IsNumberText;
    var d := AfterSign(s, i, false);
    if d < |s| && IsDigit(s[d]) {
      DigitsEndIs(s, d + 1);
      var m := if s[d] == ZERO then d + 1 else DigitsEnd(s, d + 1);
      RestError(s, i, m);
    }
  }

  lemma PartsText(t: bytes, a: nat, b: nat)
    requires IsParts(t, 0, a, b, |t|)
    ensures IsNumberText(t, a < |t|)
  {
    NumberReads(t, 0, a, b, |t|);
  }

  lemma RestError(s: bytes, i: nat, m: nat)
    requires m <= |s| && IsIntegerPart(s, i, m) && AfterInteger(s, m).Err?
    ensures var p := AfterInteger(s, m).pos;
            && i < p
            && ((IsNumberText(s[i..p] + [0x30], true) && (p == |s| || !IsDigit(s[p])))
                || (p < |s| && !Ends(s, p) && (IsNumberText(s[i..p], false) || IsNumberText(s[i..p], true))))
  {
    hide DigitsEnd, IsNumberText, Exponent;
    var p := AfterInteger(s, m).pos;
    var b := m;
    if m < |s| && s[m] == DOT {
      b := DigitsEnd(s, m + 1);
      DigitsEndIs(s, m + 1);
    }
    if b == m + 1 {
      MoreText(s, i, m, m, p);
    } else if b < |s| && IsExponentMark(s[b]) {
      ExponentError(s, i, m, b);
    } else {
      WholeText(s, i, m, b, p);
    }
  }

  lemma ExponentError(s: bytes, i: nat, m: nat, b: nat)
    requires i < m <= b < |s| && IsIntegerPart(s, i, m) && IsFraction(s, m, b) && IsExponentMark(s[b]) && Exponent(s, b).Err?
    ensures var p := Exponent(s, b).pos;
            && i < p
            && ((IsNumberText(s[i..p] + [0x30], true) && (p == |s| || !IsDigit(s[p])))
                || (p < |s| && !Ends(s, p) && IsNumberText(s[i..p], true)))
  {
    hide DigitsEnd, IsNumberText;
    var d := AfterSign(s, b + 1, true);
    var p := Exponent(s, b).pos;
    DigitsEndIs(s, d);
    if DigitsEnd(s, d) == d {
      MoreText(s, i, m, b, p);
    } else {
      WholeText(s, i, m, b, p);
    }
  }

  /** A number up to p. */
  lemma WholeText(s: bytes, i: nat, m: nat, b: nat, p: nat)
    requires i < p && IsParts(s, i, m, b, p)
    ensures IsNumberText(s[i..p], m < p)
  {
    PartsMove(s, i, m, b, p);
    PartsText(s[i..p], m - i, b - i);
  }

  /** With one digit more there is a number up to p. */
  lemma MoreText(s: bytes, i: nat, m: nat, b: nat, p: nat)
    requires i < m <= b <= p <= |s| && IsIntegerPart(s, i, m) && m < p
    requires (b == m && s[m] == DOT && p == m + 1)
             || (IsFraction(s, m, b) && b < |s| && IsExponentMark(s[b]) && p == AfterSign(s, b + 1, true))
    ensures IsNumberText(s[i..p] + [0x30], true)
  {
    hide IsNumberText, IsIntegerPart, IsFraction, IsExponentMark;
    var t: bytes := s[i..p] + [0x30];
    Placed(s, i, p);
    IntegerMoves(s, i, m, t);
    if b == m && s[m] == DOT && p == m + 1 {
      DotMore(t, m - i);
      PartsText(t, m - i, |t|);
    } else {
      FractionMoves(s, i, m, b, t);
      MarkMore(t, m - i, b - i);
      PartsText(t, m - i, b - i);
    }
  }

  /** t holds from 0 what s holds from i, and a digit at the end. */
  predicate Holds(s: bytes, i: nat, p: nat, t: bytes) {
    i < p <= |s| && |t| == p - i + 1 && t[p - i] == 0x30 && forall k | i <= k < p :: t[k - i] == s[k]
  }

  lemma Placed(s: bytes, i: nat, p: nat)
    requires i < p <= |s|
    ensures Holds(s, i, p, s[i..p] + [0x30])
  {
  }

  lemma IntegerMoves(s: bytes, i: nat, m: nat, t: bytes)
    requires |t| > 0 && Holds(s, i, i + |t| - 1, t) && i < m < i + |t| && IsIntegerPart(s, i, m)
    ensures IsIntegerPart(t, 0, m - i)
  {
    assert forall k | 0 <= k < |t| - 1 :: t[k] == s[i + k];
  }

  lemma FractionMoves(s: bytes, i: nat, m: nat, b: nat, t: bytes)
    requires |t| > 0 && Holds(s, i, i + |t| - 1, t) && i < m <= b < i + |t| && IsFraction(s, m, b)
    ensures IsFraction(t, m - i, b - i)
  {
    assert forall k | 0 <= k < |t| - 1 :: t[k] == s[i + k];
  }

  lemma DotMore(t: bytes, m: nat)
    requires m + 2 == |t| && IsIntegerPart(t, 0, m) && t[m] == DOT && t[m + 1] == 0x30
    ensures IsParts(t, 0, m, |t|, |t|)
  {
  }

  lemma MarkMore(t: bytes, m: nat, b: nat)
    requires m <= b < |t| && IsIntegerPart(t, 0, m) && IsFraction(t, m, b) && IsExponentMark(t[b])
    requires |t| == AfterSign(t, b + 1, true) + 1 && t[|t| - 1] == 0x30
    ensures IsParts(t, 0, m, b, |t|)
  {
  }
}
