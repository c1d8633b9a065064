/**
 What the prefixes of the canonical form are for: a byte that introduces a token is never a
 byte of a token's text, so where a text ends can be told.
 */
module Marks {
  import opened Bytes
  import opened Lexical
  import opened Canonical
  import opened Numbers

  /** A byte that may introduce a token. TAB, LF and CR may occur in a string. */
  predicate IsMark(b: byte) { b < 0x20 && b != TAB && b != LF && b != CR }

  predicate IsText(t: bytes) { forall k | 0 <= k < |t| :: !IsMark(t[k]) }

  /** A text that comes before these bytes ends there. */
  predicate Stops(x: bytes) { x == [] || IsMark(x[0]) }

  lemma Longer(a: bytes, x: bytes, b: bytes, y: bytes)
    requires |a| < |b| && a + x == b + y
    ensures x != [] && x[0] == b[|a|]
  {
    assert (a + x)[|a|] == (b + y)[|a|];
  }

  /** A text and what follows it are told apart. */
  lemma Cut(a: bytes, x: bytes, b: bytes, y: bytes)
    requires IsText(a) && IsText(b) && Stops(x) && Stops(y) && a + x == b + y
    ensures a == b && x == y
  {
    if |a| < |b| {
      Longer(a, x, b, y);
    } else if |b| < |a| {
      Longer(b, y, a, x);
    }
    var s := a + x;
    assert a == s[..|a|] && x == s[|a|..];
    assert b == s[..|b|] && y == s[|b|..];
  }

  lemma NameIsText(n: bytes)
    requires IsName(n)
    ensures IsText(n)
  {
  }

  lemma NumberIsText(t: bytes, isFloat: bool)
    requires IsNumberText(t, isFloat)
    ensures IsText(t)
  {
    NumberBytes(t, isFloat);
  }

  lemma TextCat(a: bytes, b: bytes)
    ensures IsText(a + b) <==> IsText(a) && IsText(b)
  {
    assert forall k | 0 <= k < |a| :: a[k] == (a + b)[k];
    assert forall k | 0 <= k < |b| :: b[k] == (a + b)[|a| + k];
  }

  /** No string value can hold a byte that looks like a prefix. */
  lemma {:induction false} EscapeIsText(s: bytes)
    ensures IsText(Escape(s))
  {
    if s != [] {
      EscapeIsText(s[1..]);
      TextCat(EscapeByte(s[0]), Escape(s[1..]));
    }
  }

  /** No two bytes share an escape, and none begins another. */
  lemma EscapeByteInjective(a: byte, x: bytes, b: byte, y: bytes)
    requires EscapeByte(a) + x == EscapeByte(b) + y
    ensures a == b && x == y
  {
    var s := EscapeByte(a) + x;
    assert s[0] == EscapeByte(a)[0] && s[0] == EscapeByte(b)[0];
    assert |EscapeByte(a)| == 2 ==> s[1] == EscapeByte(a)[1];
    assert |EscapeByte(b)| == 2 ==> s[1] == EscapeByte(b)[1];
    assert x == s[|EscapeByte(a)|..] && y == s[|EscapeByte(b)|..];
  }

  /** Different string values are written differently. */
  lemma {:induction false} EscapeInjective(a: bytes, b: bytes)
    requires Escape(a) == Escape(b)
    ensures a == b
  {
    if a != [] && b != [] {
      EscapeByteInjective(a[0], Escape(a[1..]), b[0], Escape(b[1..]));
      EscapeInjective(a[1..], b[1..]);
      assert a == [a[0]] + a[1..] && b == [b[0]] + b[1..];
    }
  }
}
