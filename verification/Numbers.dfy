/**
 IntValue and FloatValue as the grammar gives them, sections "Int Value" and "Float Value" of
 the September 2025 GraphQL specification, and what scanNumber accepts. Each token is a
 stretch of the source, from one index up to another.
 */
module Numbers {
  import opened Bytes
  import opened Lexical

  /** Digit+ */
  predicate IsDigits(s: bytes, i: nat, j: nat) {
    i < j <= |s| && forall k | i <= k < j :: IsDigit(s[k])
  }

  /** The index after an optional sign that begins at i. */
  function AfterSign(s: bytes, i: nat, plus: bool): nat {
    if i < |s| && (s[i] == MINUS || (plus && s[i] == PLUS)) then i + 1 else i
  }

  /** NegativeSign? followed by 0, or by NonZeroDigit Digit*. */
  predicate IsIntegerPart(s: bytes, i: nat, j: nat) {
    var d := AfterSign(s, i, false);
    IsDigits(s, d, j) && (s[d] == ZERO ==> j == d + 1)
  }

  /** A dot and Digit+, or nothing. */
  predicate IsFraction(s: bytes, i: nat, j: nat) {
    i == j || (i < |s| && s[i] == DOT && IsDigits(s, i + 1, j))
  }

  /** ExponentIndicator Sign? Digit+, or nothing. */
  predicate IsExponent(s: bytes, i: nat, j: nat) {
    i == j || (i < |s| && IsExponentMark(s[i]) && IsDigits(s, AfterSign(s, i + 1, true), j))
  }

  /** From i there is an IntegerPart up to a, a fraction up to b, and an exponent up to j. */
  predicate IsParts(s: bytes, i: nat, a: nat, b: nat, j: nat) {
    a <= b <= j <= |s| && IsIntegerPart(s, i, a) && IsFraction(s, a, b) && IsExponent(s, b, j)
  }

  /** From i to j there is an IntValue, or a FloatValue: it has a fraction or an exponent. */
  ghost predicate IsNumber(s: bytes, i: nat, j: nat, isFloat: bool) {
    exists a: nat, b: nat :: IsParts(s, i, a, b, j) && isFloat == (a < j)
  }

  /** The lookahead restriction of both tokens. */
  predicate Ends(s: bytes, j: nat)
    requires j <= |s|
  {
    j == |s| || !(IsDigit(s[j]) || s[j] == DOT || IsNameStart(s[j]))
  }

  /** Digits that no Digit follows are all the digits there are. */
  lemma DigitsReach(s: bytes, i: nat, j: nat)
    requires i <= j <= |s| && forall k | i <= k < j :: IsDigit(s[k])
    requires j < |s| ==> !IsDigit(s[j])
    ensures DigitsEnd(s, i) == j
  {
    hide DigitsEnd;
    DigitsEndIs(s, i);
    var e := DigitsEnd(s, i);
    var found := (if e < |s| then IsDigit(s[e]) else false, if j < |s| then IsDigit(s[j]) else false);
  }

  lemma ExponentIs(s: bytes, i: nat, j: nat)
    requires i < |s| && IsExponentMark(s[i])
    ensures Exponent(s, i) == Ok(true, j) <==> i < j <= |s| && IsExponent(s, i, j) && Ends(s, j)
  {
    hide DigitsEnd;
    var d := AfterSign(s, i + 1, true);
    DigitsEndIs(s, d);
    if i < j <= |s| && IsExponent(s, i, j) && Ends(s, j) {
      DigitsReach(s, d, j);
    }
  }

  lemma RestRead(s: bytes, m: nat) returns (b: nat)
    requires m <= |s| && AfterInteger(s, m).Ok?
    ensures var f, j := AfterInteger(s, m).v, AfterInteger(s, m).next;
            m <= b <= j && IsFraction(s, m, b) && IsExponent(s, b, j) && Ends(s, j) && f == (m < j)
  {
    hide DigitsEnd, Exponent, IsExponent;
    b := m;
    if m < |s| && s[m] == DOT {
      b := DigitsEnd(s, m + 1);
      DigitsEndIs(s, m + 1);
    }
    if b < |s| && IsExponentMark(s[b]) {
      ExponentIs(s, b, AfterInteger(s, m).next);
    } else {
      NoExponent(s, b);
    }
  }

  lemma NoExponent(s: bytes, b: nat)
    ensures IsExponent(s, b, b)
  {
  }

  lemma RestReads(s: bytes, m: nat, b: nat, j: nat)
    requires m <= b <= j <= |s| && IsFraction(s, m, b) && IsExponent(s, b, j) && Ends(s, j)
    ensures AfterInteger(s, m) == Ok(m < j, j)
  {
    hide DigitsEnd, Exponent;
    if b < j {
      ExponentIs(s, b, j);
    }
    if m < b {
      DigitsReach(s, m + 1, b);
    }
  }

  /** A number is what the grammar allows: nothing else is accepted, and nothing of it is not. */
  lemma NumberIs(s: bytes, i: nat, j: nat, isFloat: bool)
    requires i < |s| && (s[i] == MINUS || IsDigit(s[i]))
    ensures Number(s, i) == Ok(isFloat, j) <==> j <= |s| && IsNumber(s, i, j, isFloat) && Ends(s, j)
  {
    hide Number, IsParts;
    if Number(s, i) == Ok(isFloat, j) {
      NumberRead(s, i);
    }
    if j <= |s| && IsNumber(s, i, j, isFloat) && Ends(s, j) {
      var a: nat, b: nat :| IsParts(s, i, a, b, j) && isFloat == (a < j);
      NumberReads(s, i, a, b, j);
    }
  }

  lemma NumberRead(s: bytes, i: nat)
    requires i < |s| && (s[i] == MINUS || IsDigit(s[i])) && Number(s, i).Ok?
    ensures IsNumber(s, i, Number(s, i).next, Number(s, i).v) && Ends(s, Number(s, i).next)
  {
    hide AfterInteger, DigitsEnd, IsFraction, IsExponent;
    var d := AfterSign(s, i, false);
    DigitsEndIs(s, d + 1);
    var m := if s[d] == ZERO then d + 1 else DigitsEnd(s, d + 1);
    var b := RestRead(s, m);
    assert IsParts(s, i, m, b, Number(s, i).next);
  }

  lemma NumberReads(s: bytes, i: nat, m: nat, b: nat, j: nat)
    requires i < |s| && IsParts(s, i, m, b, j) && Ends(s, j)
    ensures Number(s, i) == Ok(m < j, j)
  {
    hide AfterInteger, DigitsEnd;
    RestReads(s, m, b, j);
    var d := AfterSign(s, i, false);
    if s[d] != ZERO {
      DigitsReach(s, d + 1, m);
    }
  }

  // ----- A number on its own

  /** t is the whole of an IntValue or a FloatValue. */
  predicate IsNumberText(t: bytes, isFloat: bool) {
    t != [] && (t[0] == MINUS || IsDigit(t[0])) && Number(t, 0) == Ok(isFloat, |t|)
  }

  /** The same bytes elsewhere make up the same number. */
  lemma PartsMove(s: bytes, i: nat, a: nat, b: nat, j: nat)
    requires i <= |s| && IsParts(s, i, a, b, j)
    ensures i < a && IsParts(s[i..j], 0, a - i, b - i, j - i)
  {
    var t := s[i..j];
    assert forall k | i <= k < j :: t[k - i] == s[k];
    assert forall k | 0 <= k < j - i :: t[k] == s[i + k];
  }

  lemma PartsPlaced(s: bytes, i: nat, a: nat, b: nat, j: nat)
    requires i <= j <= |s| && IsParts(s[i..j], 0, a, b, j - i)
    ensures IsParts(s, i, a + i, b + i, j)
  {
    var t := s[i..j];
    assert forall k | i <= k < j :: t[k - i] == s[k];
    assert forall k | 0 <= k < j - i :: t[k] == s[i + k];
  }

  /** A number that stands in the source, where it may end, is read as it is. */
  lemma NumberPlaced(s: bytes, i: nat, j: nat, isFloat: bool)
    requires i <= j <= |s| && IsNumberText(s[i..j], isFloat) && Ends(s, j)
    ensures i < j && (s[i] == MINUS || IsDigit(s[i])) && Number(s, i) == Ok(isFloat, j)
  {
    hide Number, IsParts;
    var t := s[i..j];
    assert t[0] == s[i];
    NumberIs(t, 0, |t|, isFloat);
    var a: nat, b: nat :| IsParts(t, 0, a, b, |t|) && isFloat == (a < |t|);
    PartsPlaced(s, i, a, b, j);
    NumberIs(s, i, j, isFloat);
  }

  lemma NumberAlone(s: bytes, i: nat)
    requires i < |s| && (s[i] == MINUS || IsDigit(s[i])) && Number(s, i).Ok?
    ensures IsNumberText(s[i..Number(s, i).next], Number(s, i).v)
  {
    hide Number, IsParts;
    var j, f := Number(s, i).next, Number(s, i).v;
    NumberIs(s, i, j, f);
    var a: nat, b: nat :| IsParts(s, i, a, b, j) && f == (a < j);
    PartsMove(s, i, a, b, j);
    NumberIs(s[i..j], 0, j - i, f);
  }

  /** A Digit, a sign, a dot or an exponent mark. */
  predicate IsNumberByte(b: byte) {
    IsDigit(b) || b == MINUS || b == PLUS || b == DOT || IsExponentMark(b)
  }

  lemma NumberBytes(t: bytes, isFloat: bool)
    requires IsNumberText(t, isFloat)
    ensures forall k | 0 <= k < |t| :: IsNumberByte(t[k])
  {
    hide Number;
    NumberIs(t, 0, |t|, isFloat);
    var a: nat, b: nat :| IsParts(t, 0, a, b, |t|) && isFloat == (a < |t|);
  }
}
