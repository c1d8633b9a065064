/**
 The lexical grammar in its plainest form: one byte at a time, no lookup tables, no
 unrolled loops. The scanners of module Scanner are proved against these functions.
 */
module Lexical {
  import opened Bytes
  import opened Utf8

  predicate IsWhiteSpace(b: byte) { b == SPACE || b == TAB }

  predicate IsLineTerminatorByte(b: byte) { b == LF || b == CR }

  /** The length of the LineTerminator at s[i]: 0 for none, 2 for CRLF. */
  function LineTerminatorLen(s: bytes, i: nat): (n: nat)
    requires i < |s|
    ensures n > 0 <==> IsLineTerminatorByte(s[i])
    ensures i + n <= |s|
  {
    if s[i] == LF then 1
    else if s[i] == CR then (if i + 1 < |s| && s[i + 1] == LF then 2 else 1)
    else 0
  }

  predicate IsDigit(b: byte) { ZERO <= b <= NINE }

  predicate IsNameStart(b: byte) { 0x61 <= b <= 0x7a || 0x41 <= b <= 0x5a || b == 0x5f }

  predicate IsNameCont(b: byte) { IsNameStart(b) || IsDigit(b) }

  /** A Name: a NameStart followed by NameContinue. */
  predicate IsName(n: bytes) {
    |n| > 0 && IsNameStart(n[0]) && forall k | 0 <= k < |n| :: IsNameCont(n[k])
  }

  /** The index of the first byte at or after i that is no NameContinue. */
  function NameEnd(s: bytes, i: nat): (j: nat)
    requires i <= |s|
    ensures i <= j <= |s|
    decreases |s| - i
  {
    if i < |s| && IsNameCont(s[i]) then NameEnd(s, i + 1) else i
  }

  /** The run is the longest: all of it continues and what follows does not. */
  lemma {:induction false} NameEndIs(s: bytes, i: nat)
    requires i <= |s|
    ensures forall k | i <= k < NameEnd(s, i) :: IsNameCont(s[k])
    ensures NameEnd(s, i) < |s| ==> !IsNameCont(s[NameEnd(s, i)])
    decreases |s| - i
  {
    if i < |s| && IsNameCont(s[i]) {
      NameEndIs(s, i + 1);
    }
  }

  /** NameContinue bytes that none follows are all there are. */
  lemma NameReach(s: bytes, i: nat, j: nat)
    requires i <= j <= |s| && (forall k | i <= k < j :: IsNameCont(s[k])) && (j < |s| ==> !IsNameCont(s[j]))
    ensures NameEnd(s, i) == j
  {
    hide NameEnd;
    NameEndIs(s, i);
  }

  /** The index of the first byte at or after i that is no Digit. */
  function DigitsEnd(s: bytes, i: nat): (j: nat)
    requires i <= |s|
    ensures i <= j <= |s|
    decreases |s| - i
  {
    if i < |s| && IsDigit(s[i]) then DigitsEnd(s, i + 1) else i
  }

  /** The run is the longest: all of it continues and what follows does not. */
  lemma {:induction false} DigitsEndIs(s: bytes, i: nat)
    requires i <= |s|
    ensures forall k | i <= k < DigitsEnd(s, i) :: IsDigit(s[k])
    ensures DigitsEnd(s, i) < |s| ==> !IsDigit(s[DigitsEnd(s, i)])
    decreases |s| - i
  {
    if i < |s| && IsDigit(s[i]) {
      DigitsEndIs(s, i + 1);
    }
  }

  /** isKeywordAt: whether the whole word kw begins at s[i]. */
  predicate IsKeywordAt(s: bytes, i: nat, kw: bytes): (b: bool)
    requires i <= |s|
    ensures b ==> i + |kw| <= |s|
  {
    HasPrefixAt(s, i, kw) && (i + |kw| == |s| || !IsNameCont(s[i + |kw|]))
  }

  // ----- Ignored tokens

  const BOM: bytes := [0xef, 0xbb, 0xbf]

  /** WhiteSpace, a LineTerminator or a comma. */
  predicate IsIgnorableByte(b: byte) {
    IsWhiteSpace(b) || IsLineTerminatorByte(b) || b == COMMA
  }

  /** The end of the CommentChars at or after i: a LineTerminator, malformed UTF-8 or the end. */
  function CommentEnd(s: bytes, i: nat): (j: nat)
    requires i <= |s|
    ensures i <= j <= |s|
    decreases |s| - i
  {
    if i == |s| || IsLineTerminatorByte(s[i]) || SourceCharacterLen(s, i) == 0 then i
    else CommentEnd(s, i + SourceCharacterLen(s, i))
  }

  /** The end of the one Ignored token that begins at s[i], or i if none does. */
  function IgnoredEnd(s: bytes, i: nat): (j: nat)
    requires i <= |s|
    ensures i <= j <= |s|
  {
    if i == |s| then i
    else if IsIgnorableByte(s[i]) then i + 1
    else if s[i] == HASH then CommentEnd(s, i + 1)
    else if HasPrefixAt(s, i, BOM) then i + 3
    else i
  }

  /** The end of the longest run of Ignored tokens at i. */
  function Skip(s: bytes, i: nat): (j: nat)
    requires i <= |s|
    ensures i <= j <= |s|
    decreases |s| - i
  {
    var j := IgnoredEnd(s, i);
    if j == i then i else Skip(s, j)
  }

  /** Nothing is left to skip where a skip ended. */
  lemma {:induction false} SkipStops(s: bytes, i: nat)
    requires i <= |s|
    ensures IgnoredEnd(s, Skip(s, i)) == Skip(s, i)
    decreases |s| - i
  {
    var j := IgnoredEnd(s, i);
    if j != i {
      SkipStops(s, j);
    }
  }

  lemma SkipIdempotent(s: bytes, i: nat)
    requires i <= |s|
    ensures Skip(s, Skip(s, i)) == Skip(s, i)
  {
    SkipStops(s, i);
  }

  // ----- Numbers

  /** scanNumber: the IntValue or FloatValue at s[i], a NegativeSign or a Digit; v says
      whether it is a FloatValue. */
  function Number(s: bytes, i: nat): (r: R<bool>)
    requires i < |s| && (s[i] == MINUS || IsDigit(s[i]))
    ensures r.Ok? ==> i < r.next <= |s|
    ensures r.Err? ==> i <= r.pos <= |s| && r.e == MalformedNumber
  {
    var d := if s[i] == MINUS then i + 1 else i;
    if d == |s| || !IsDigit(s[d]) then Err(MalformedNumber, i)
    else AfterInteger(s, if s[d] == ZERO then d + 1 else DigitsEnd(s, d + 1))
  }

  /** What may follow an IntegerPart: a fraction, an exponent, both or neither. */
  function AfterInteger(s: bytes, j: nat): (r: R<bool>)
    requires j <= |s|
    ensures r.Ok? ==> j <= r.next <= |s|
    ensures r.Err? ==> j <= r.pos <= |s| && r.e == MalformedNumber
  {
    if j < |s| && s[j] == DOT then
      var k := DigitsEnd(s, j + 1);
      if k == j + 1 then Err(MalformedNumber, k)
      else if k < |s| && IsExponentMark(s[k]) then Exponent(s, k)
      else NumberEnd(s, k, true)
    else if j < |s| && IsExponentMark(s[j]) then Exponent(s, j)
    else NumberEnd(s, j, false)
  }

  predicate IsExponentMark(b: byte) { b == 0x65 || b == 0x45 }

  function Exponent(s: bytes, i: nat): (r: R<bool>)
    requires i < |s|
    ensures r.Ok? ==> i < r.next <= |s| && r.v
    ensures r.Err? ==> i <= r.pos <= |s| && r.e == MalformedNumber
  {
    var d := if i + 1 < |s| && (s[i + 1] == MINUS || s[i + 1] == PLUS) then i + 2 else i + 1;
    var j := DigitsEnd(s, d);
    if j == d then Err(MalformedNumber, j) else NumberEnd(s, j, true)
  }

  /** No Digit, '.' or NameStart may follow a number. */
  function NumberEnd(s: bytes, i: nat, isFloat: bool): (r: R<bool>)
    requires i <= |s|
    ensures r.Ok? ==> r.next == i && r.v == isFloat
    ensures r.Err? ==> i <= r.pos <= |s| && r.e == MalformedNumber
  {
    if i < |s| && (IsDigit(s[i]) || s[i] == DOT || IsNameStart(s[i]))
    then Err(MalformedNumber, i)
    else Ok(isFloat, i)
  }
}
