/**
 UTF-8 as section 3 of RFC 3629 defines it: which bytes encode a Unicode scalar value,
 which value that is, and the encoding of a value.
 */
module Utf8 {
  import opened Bytes

  predicate IsCont(b: byte) { 0x80 <= b <= 0xbf }

  /** isScalarValue: a code point that is no surrogate. */
  predicate IsScalarValue(v: nat) { v <= 0xd7ff || 0xe000 <= v <= 0x10ffff }

  type scalar = v: nat | v <= 0xd7ff || 0xe000 <= v <= 0x10ffff

  /** The bytes that may follow a lead byte, by the rows of the RFC's table. */
  predicate SecondByteOk(lead: byte, b: byte) {
    if lead == 0xe0 then 0xa0 <= b <= 0xbf
    else if lead == 0xed then 0x80 <= b <= 0x9f
    else if lead == 0xf0 then 0x90 <= b <= 0xbf
    else if lead == 0xf4 then 0x80 <= b <= 0x8f
    else IsCont(b)
  }

  /** The length of the encoded scalar value at s[i], or 0 if the bytes there encode none. */
  function SourceCharacterLen(s: bytes, i: nat): (n: nat)
    requires i < |s|
    ensures n <= 4 && i + n <= |s|
    ensures s[i] < 0x80 ==> n == 1
    ensures n == 1 <==> s[i] < 0x80
    ensures forall k | i <= k < i + n && n > 1 :: s[k] >= 0x80
  {
    if s[i] < 0x80 then 1
    else if 0xc2 <= s[i] <= 0xdf then
      if i + 1 < |s| && IsCont(s[i + 1]) then 2 else 0
    else if 0xe0 <= s[i] <= 0xef then
      if i + 2 < |s| && SecondByteOk(s[i], s[i + 1]) && IsCont(s[i + 2]) then 3 else 0
    else if 0xf0 <= s[i] <= 0xf4 then
      if i + 3 < |s| && SecondByteOk(s[i], s[i + 1]) && IsCont(s[i + 2]) && IsCont(s[i + 3]) then 4 else 0
    else 0
  }

  /** The scalar value that the bytes at s[i] encode. */
  function Decode(s: bytes, i: nat): (v: scalar)
    requires i < |s| && SourceCharacterLen(s, i) > 0
  {
    var n := SourceCharacterLen(s, i);
    var lead: int := s[i];
    if n == 1 then lead
    else if n == 2 then (lead - 0xc0) * 0x40 + Six(s[i + 1])
    else if n == 3 then (lead - 0xe0) * 0x1000 + Six(s[i + 1]) * 0x40 + Six(s[i + 2])
    else (lead - 0xf0) * 0x40000 + Six(s[i + 1]) * 0x1000 + Six(s[i + 2]) * 0x40 + Six(s[i + 3])
  }

  /** The six value bits of a continuation byte. */
  function Six(b: byte): int { b - 0x80 }

  /** The continuation byte that holds the low six bits of v. */
  function Cont(v: nat): (b: byte)
    ensures IsCont(b)
    ensures Six(b) == v % 0x40
  {
    0x80 + v % 0x40
  }

  /** The UTF-8 encoding of a scalar value. */
  function Encode(v: scalar): (s: bytes)
    ensures 1 <= |s| <= 4
    ensures v < 0x80 ==> s == [v]
    ensures v >= 0x80 ==> forall k | 0 <= k < |s| :: s[k] >= 0x80
  {
    if v < 0x80 then [v]
    else if v < 0x800 then [0xc0 + v / 0x40, Cont(v)]
    else if v < 0x10000 then [0xe0 + v / 0x1000, Cont(v / 0x40), Cont(v)]
    else
      assert v < 5 * 0x40000;
      [0xf0 + v / 0x40000, Cont(v / 0x1000), Cont(v / 0x40), Cont(v)]
  }

  function EncodeAll(vs: seq<scalar>): bytes {
    if vs == [] then [] else Encode(vs[0]) + EncodeAll(vs[1..])
  }

  /** Four digits to base 0x40 are what a division takes apart again. */
  lemma Sextets(a: nat, b: nat, c: nat, d: nat)
    requires b < 0x40 && c < 0x40 && d < 0x40
    ensures var v := a * 0x40000 + b * 0x1000 + c * 0x40 + d;
            v / 0x40000 == a && v / 0x1000 % 0x40 == b && v / 0x40 % 0x40 == c && v % 0x40 == d
            && v / 0x1000 == a * 0x40 + b
  {
    var v := a * 0x40000 + b * 0x1000 + c * 0x40 + d;
    assert v / 0x40 == a * 0x1000 + b * 0x40 + c;
    assert v / 0x1000 == a * 0x40 + b;
  }

  /** A value is made of its base-0x40 digits. */
  lemma SextetsOf(v: nat)
    ensures v == v / 0x40000 * 0x40000 + v / 0x1000 % 0x40 * 0x1000 + v / 0x40 % 0x40 * 0x40 + v % 0x40
    ensures v / 0x1000 == v / 0x40000 * 0x40 + v / 0x1000 % 0x40
    ensures v / 0x40 == v / 0x1000 * 0x40 + v / 0x40 % 0x40
  {
    assert v / 0x40 / 0x40 == v / 0x1000;
    assert v / 0x1000 / 0x40 == v / 0x40000;
  }

  lemma EncodeTwo(a: byte, b: byte)
    requires 0xc2 <= a <= 0xdf && IsCont(b)
    ensures var v := (a - 0xc0) * 0x40 + Six(b);
            0x80 <= v < 0x800 && Encode(v) == [a, b]
  {
    var v := (a - 0xc0) * 0x40 + Six(b);
    assert v / 0x40 == a - 0xc0 && v % 0x40 == Six(b);
  }

  lemma EncodeThree(a: byte, b: byte, c: byte)
    requires 0xe0 <= a <= 0xef && SecondByteOk(a, b) && IsCont(c)
    ensures var v := (a - 0xe0) * 0x1000 + Six(b) * 0x40 + Six(c);
            0x800 <= v < 0x10000 && IsScalarValue(v) && Encode(v) == [a, b, c]
  {
    Sextets(0, a - 0xe0, Six(b), Six(c));
  }

  lemma EncodeFour(a: byte, b: byte, c: byte, d: byte)
    requires 0xf0 <= a <= 0xf4 && SecondByteOk(a, b) && IsCont(c) && IsCont(d)
    ensures var v := (a - 0xf0) * 0x40000 + Six(b) * 0x1000 + Six(c) * 0x40 + Six(d);
            0x10000 <= v && IsScalarValue(v) && Encode(v) == [a, b, c, d]
  {
    Sextets(a - 0xf0, Six(b), Six(c), Six(d));
  }

  /** Re-encoding a decoded character gives back its own bytes. */
  lemma EncodeDecode(s: bytes, i: nat)
    requires i < |s| && SourceCharacterLen(s, i) > 0
    ensures Encode(Decode(s, i)) == s[i..i + SourceCharacterLen(s, i)]
  {
    hide Encode;
    var n := SourceCharacterLen(s, i);
    if n == 1 {
      EncodeOne(s[i]);
    } else if n == 2 {
      EncodeTwo(s[i], s[i + 1]);
    } else if n == 3 {
      EncodeThree(s[i], s[i + 1], s[i + 2]);
    } else {
      EncodeFour(s[i], s[i + 1], s[i + 2], s[i + 3]);
    }
  }

  lemma EncodeOne(b: byte)
    requires b < 0x80
    ensures Encode(b) == [b]
  {
  }

  /** An encoded scalar value is read back, whatever follows it. */
  lemma DecodeEncode(v: scalar, rest: bytes)
    ensures SourceCharacterLen(Encode(v) + rest, 0) == |Encode(v)|
    ensures Decode(Encode(v) + rest, 0) == v
  {
    SextetsOf(v);
    var m := Encode(v);
    var s := m + rest;
    assert s[0] == m[0];
    if v < 0x80 {
    } else if v < 0x800 {
      assert s[1] == m[1];
    } else if v < 0x10000 {
      assert s[1] == m[1] && s[2] == m[2];
      assert v / 0x1000 == v / 0x40 / 0x40;
    } else {
      assert s[1] == m[1] && s[2] == m[2] && s[3] == m[3];
    }
  }

  /** Where a character stands makes no difference. */
  lemma CharacterMoves(s: bytes, i: nat, t: bytes)
    requires i < |s| && t != [] && t <= s[i..]
    ensures SourceCharacterLen(t, 0) > 0 ==> SourceCharacterLen(s, i) == SourceCharacterLen(t, 0) && Decode(s, i) == Decode(t, 0)
    ensures |t| >= SourceCharacterLen(s, i) > 0 ==> SourceCharacterLen(t, 0) == SourceCharacterLen(s, i)
  {
    assert forall k | 0 <= k < |t| :: t[k] == s[i..][k] == s[i + k];
  }

  /** sourceCharacterLen tells exactly the encodings of scalar values. */
  lemma SourceCharacterIs(s: bytes, i: nat, n: nat)
    requires i < |s|
    ensures (SourceCharacterLen(s, i) == n && n > 0) <==> exists v: scalar :: Encode(v) <= s[i..] && n == |Encode(v)|
  {
    hide Encode, Decode, SourceCharacterLen;
    if SourceCharacterLen(s, i) == n && n > 0 {
      EncodeDecode(s, i);
      assert s[i..i + n] == s[i..][..n];
      assert Encode(Decode(s, i)) <= s[i..] && n == |Encode(Decode(s, i))|;
    }
    forall v: scalar | Encode(v) <= s[i..] && n == |Encode(v)| ensures SourceCharacterLen(s, i) == n && n > 0 {
      DecodeEncode(v, []);
      assert Encode(v) + [] == Encode(v);
      CharacterMoves(s, i, Encode(v));
    }
  }

  // ----- Text

  /** The bytes are the UTF-8 encoding of some scalar values. */
  predicate IsUtf8(s: bytes) {
    s == [] || (SourceCharacterLen(s, 0) > 0 && IsUtf8(s[SourceCharacterLen(s, 0)..]))
  }

  function Scalars(s: bytes): seq<scalar>
    requires IsUtf8(s)
  {
    if s == [] then [] else [Decode(s, 0)] + Scalars(s[SourceCharacterLen(s, 0)..])
  }

  lemma {:induction false} ScalarsEncoded(s: bytes)
    requires IsUtf8(s)
    ensures EncodeAll(Scalars(s)) == s
  {
    hide Encode, Decode, SourceCharacterLen;
    if s != [] {
      var n := SourceCharacterLen(s, 0);
      ScalarsEncoded(s[n..]);
      EncodeDecode(s, 0);
      var vs := Scalars(s);
      assert vs[0] == Decode(s, 0) && vs[1..] == Scalars(s[n..]);
      assert EncodeAll(vs) == s[0..n] + s[n..];
    }
  }

  lemma {:induction false} EncodedIsUtf8(vs: seq<scalar>)
    ensures IsUtf8(EncodeAll(vs)) && Scalars(EncodeAll(vs)) == vs
  {
    hide Encode, Decode, SourceCharacterLen;
    if vs != [] {
      var e, rest := Encode(vs[0]), EncodeAll(vs[1..]);
      EncodedIsUtf8(vs[1..]);
      DecodeEncode(vs[0], rest);
      assert (e + rest)[|e|..] == rest;
      assert vs == [vs[0]] + vs[1..];
    }
  }

  /** Exactly the encodings of sequences of scalar values. */
  lemma IsUtf8Exactly(s: bytes)
    ensures IsUtf8(s) <==> exists vs: seq<scalar> :: EncodeAll(vs) == s
  {
    if IsUtf8(s) {
      ScalarsEncoded(s);
    }
    forall vs: seq<scalar> | EncodeAll(vs) == s ensures IsUtf8(s) {
      EncodedIsUtf8(vs);
    }
  }

  /** Text may be cut where a text ends. */
  lemma {:induction false} TextCat(a: bytes, b: bytes)
    requires IsUtf8(a)
    ensures IsUtf8(a + b) <==> IsUtf8(b)
  {
    hide SourceCharacterLen;
    if a == [] {
      assert a + b == b;
    } else {
      var n := SourceCharacterLen(a, 0);
      CharacterMoves(a + b, 0, a);
      assert (a + b)[n..] == a[n..] + b;
      TextCat(a[n..], b);
    }
  }

  /** An ASCII byte is a text of its own. */
  lemma AsciiText(b: byte)
    requires b < 0x80
    ensures IsUtf8([b])
  {
    assert IsUtf8([b][1..]);
  }

  /** ASCII bytes may come off a text. */
  lemma {:induction false} AsciiCut(s: bytes, n: nat)
    requires n <= |s| && forall k | 0 <= k < n :: s[k] < 0x80
    ensures IsUtf8(s) <==> IsUtf8(s[n..])
  {
    hide SourceCharacterLen;
    if n > 0 {
      AsciiText(s[0]);
      TextCat([s[0]], s[1..]);
      assert s == [s[0]] + s[1..];
      AsciiCut(s[1..], n - 1);
      assert s[1..][n - 1..] == s[n..];
    }
  }
}
