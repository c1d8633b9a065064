/**
 The \uXXXX escape that JSON and GraphQL share. The source computes in 32 bits;
 WrapShift writes that out, and the lemmas show where nothing is lost.
 */
module UnicodeEsc {
  import opened Bytes

  const U32: nat := 0x1_0000_0000

  predicate IsHexDigit(b: byte) {
    0x30 <= b <= 0x39 || 0x61 <= b <= 0x66 || 0x41 <= b <= 0x46
  }

  /** The value of a hexadecimal digit. On any other byte the source's subtraction may
      wrap; no caller asks for one. */
  function DigitValue(b: byte): (v: nat)
    requires IsHexDigit(b)
    ensures v < 16
  {
    if b <= 0x39 then b - 0x30
    else if b >= 0x61 then b - 0x61 + 10
    else b - 0x41 + 10
  }

  function HexDigitOf(v: nat): (b: byte)
    requires v < 16
    ensures IsHexDigit(b) && DigitValue(b) == v
  {
    if v < 10 then 0x30 + v else 0x61 + (v - 10)
  }

  /** The hexadecimal digit of a value, in either case. */
  function HexText(n: nat, upper: bool): byte
    requires n < 16
  {
    if n < 10 then 0x30 + n else if upper then 0x41 + n - 10 else 0x61 + n - 10
  }

  /** Both cases are digits of that value, and no other byte is one. */
  lemma HexDigitsAre(b: byte)
    ensures forall n: nat, upper: bool | n < 16 :: IsHexDigit(HexText(n, upper)) && DigitValue(HexText(n, upper)) == n
    ensures IsHexDigit(b) <==> exists n: nat, upper: bool :: n < 16 && HexText(n, upper) == b
  {
    if IsHexDigit(b) {
      assert HexText(DigitValue(b), b <= 0x46) == b;
    }
  }

  /** `v<<4 | digit` on a uint32. The shift leaves four zero bits, so the or is a sum. */
  function WrapShift(v: nat, digit: nat): nat
    requires digit < 16
  {
    (v * 16) % U32 + digit
  }

  /** The number that a run of hexadecimal digits spells, unbounded. */
  function HexValue(s: bytes): nat
    requires forall k | 0 <= k < |s| :: IsHexDigit(s[k])
  {
    if s == [] then 0 else HexValue(s[..|s| - 1]) * 16 + DigitValue(s[|s| - 1])
  }

  /** The hexadecimal digits of a number. */
  function Hex(v: nat): (s: bytes)
    ensures s != [] && forall k | 0 <= k < |s| :: IsHexDigit(s[k])
  {
    if v < 16 then [HexDigitOf(v)] else Hex(v / 16) + [HexDigitOf(v % 16)]
  }

  lemma {:induction false} HexIs(v: nat)
    ensures HexValue(Hex(v)) == v
  {
    if v < 16 {
      assert HexValue([]) == 0 && Hex(v)[..0] == [];
    } else {
      HexIs(v / 16);
      var s := Hex(v);
      assert s[..|s| - 1] == Hex(v / 16) && s[|s| - 1] == HexDigitOf(v % 16);
    }
  }

  predicate IsHex4(s: bytes, i: nat) {
    i + 4 <= |s| && IsHexDigit(s[i]) && IsHexDigit(s[i + 1]) && IsHexDigit(s[i + 2]) && IsHexDigit(s[i + 3])
  }

  /** The value of the four hexadecimal digits at s[i]. */
  function Value(s: bytes, i: nat): (v: nat)
    requires IsHex4(s, i)
    ensures v < 0x10000
  {
    DigitValue(s[i]) * 0x1000 + DigitValue(s[i + 1]) * 0x100 + DigitValue(s[i + 2]) * 0x10 + DigitValue(s[i + 3])
  }

  predicate IsLeadingSurrogate(v: nat) { 0xd800 <= v <= 0xdbff }

  predicate IsTrailingSurrogate(v: nat) { 0xdc00 <= v <= 0xdfff }

  /** `\u` and four digits, in any case, write v at s[i]. */
  predicate WritesFour(s: bytes, i: nat, v: nat, upper: seq<bool>) {
    && v < 0x10000 && |upper| == 4 && i + 5 < |s| && s[i] == 0x5c && s[i + 1] == 0x75
    && s[i + 2] == HexText(v / 0x1000, upper[0]) && s[i + 3] == HexText(v / 0x100 % 16, upper[1])
    && s[i + 4] == HexText(v / 0x10 % 16, upper[2]) && s[i + 5] == HexText(v % 16, upper[3])
  }

  /** A number is made of its four digits to base 16. */
  lemma Hexads(v: nat)
    requires v < 0x10000
    ensures v / 0x1000 < 16
    ensures v == v / 0x1000 * 0x1000 + v / 0x100 % 16 * 0x100 + v / 0x10 % 16 * 0x10 + v % 16
  {
    assert v / 0x10 == v / 0x100 * 16 + v / 0x10 % 16;
    assert v / 0x100 == v / 0x1000 * 16 + v / 0x100 % 16;
  }

  lemma FourValue(s: bytes, i: nat, a: nat, b: nat, c: nat, d: nat)
    requires IsHex4(s, i) && DigitValue(s[i]) == a && DigitValue(s[i + 1]) == b && DigitValue(s[i + 2]) == c && DigitValue(s[i + 3]) == d
    ensures Value(s, i) == a * 0x1000 + b * 0x100 + c * 0x10 + d
  {
    hide DigitValue, IsHexDigit;
  }

  lemma FourRead(s: bytes, i: nat, v: nat, upper: seq<bool>)
    requires WritesFour(s, i, v, upper)
    ensures IsHex4(s, i + 2) && Value(s, i + 2) == v
  {
    HexDigitsAre(0);
    hide HexText, IsHexDigit, DigitValue, Value;
    Hexads(v);
    FourValue(s, i + 2, v / 0x1000, v / 0x100 % 16, v / 0x10 % 16, v % 16);
  }

  /** The code point that a surrogate pair spells. */
  function Pair(leading: nat, trailing: nat): (v: nat)
    requires IsLeadingSurrogate(leading) && IsTrailingSurrogate(trailing)
    ensures 0x10000 <= v <= 0x10ffff
  {
    0x10000 + (leading - 0xd800) * 0x400 + (trailing - 0xdc00)
  }

  /** Every supplementary code point is spelled by exactly one pair. */
  lemma PairIsOnto(v: nat)
    requires 0x10000 <= v <= 0x10ffff
    ensures var l, t := 0xd800 + (v - 0x10000) / 0x400, 0xdc00 + (v - 0x10000) % 0x400;
            IsLeadingSurrogate(l) && IsTrailingSurrogate(t) && Pair(l, t) == v
    ensures forall l, t | IsLeadingSurrogate(l) && IsTrailingSurrogate(t) && Pair(l, t) == v ::
              l == 0xd800 + (v - 0x10000) / 0x400 && t == 0xdc00 + (v - 0x10000) % 0x400
  {
    assert (v - 0x10000) / 0x400 < 0x400;
  }

  /** The four-digit value is the general one. */
  lemma ValueIsHexValue(s: bytes, i: nat)
    requires IsHex4(s, i)
    ensures Value(s, i) == HexValue(s[i..i + 4])
  {
    var t := s[i..i + 4];
    assert t[..3][..2] == t[..2] && t[..2][..1] == t[..1] && t[..1][..0] == [];
    assert HexValue(t[..1]) == HexValue([]) * 16 + DigitValue(t[0]);
    assert HexValue(t[..2]) == HexValue(t[..1]) * 16 + DigitValue(t[1]);
    assert HexValue(t[..3]) == HexValue(t[..2]) * 16 + DigitValue(t[2]);
  }

  /** The value of fewer of the digits is not larger. */
  lemma {:induction false} HexValueGrows(s: bytes, k: nat)
    requires k <= |s| && forall m | 0 <= m < |s| :: IsHexDigit(s[m])
    ensures HexValue(s[..k]) <= HexValue(s)
    decreases |s|
  {
    if k < |s| {
      HexValueGrows(s[..|s| - 1], k);
      assert s[..|s| - 1][..k] == s[..k];
    } else {
      assert s[..k] == s;
    }
  }

  lemma HexValueNone(s: bytes, a: nat)
    requires a <= |s|
    ensures HexValue(s[a..a]) == 0
  {
  }

  /** One digit more; j is where the digits end. */
  lemma HexValueStep(s: bytes, a: nat, i: nat, j: nat)
    requires a <= i < j <= |s| && forall k | a <= k < j :: IsHexDigit(s[k])
    ensures HexValue(s[a..i + 1]) == HexValue(s[a..i]) * 16 + DigitValue(s[i])
    ensures HexValue(s[a..i + 1]) <= HexValue(s[a..j])
  {
    var t := s[a..i + 1];
    assert t[..|t| - 1] == s[a..i];
    HexValueGrows(s[a..j], i + 1 - a);
    assert s[a..j][..i + 1 - a] == t;
  }
}
