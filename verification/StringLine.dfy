/**
 Single-line StringValues: what the source text between two quotes spells. The parser takes
 what section "String Value" of the September 2025 GraphQL specification allows, unless a
 control byte stands in it as it is; see ControlBytesRefused.
 */
module StringLine {
  import opened Bytes
  import opened Utf8
  import opened UnicodeEsc

  const LOWER_U: byte := 0x75

  /** EscapedCharacter: the byte that follows the backslash, and what the two stand for. */
  function SimpleEscape(b: byte): Option<byte> {
    if b == QUOTE || b == BACKSLASH || b == 0x2f then Some(b)
    else if b == 0x62 then Some(0x08)
    else if b == 0x66 then Some(0x0c)
    else if b == 0x6e then Some(0x0a)
    else if b == 0x72 then Some(0x0d)
    else if b == 0x74 then Some(0x09)
    else None
  }

  /** The end of the hexadecimal digits at or after i. */
  function HexEnd(s: bytes, i: nat): (j: nat)
    requires i <= |s|
    ensures i <= j <= |s|
    ensures forall k | i <= k < j :: IsHexDigit(s[k])
    ensures j < |s| ==> !IsHexDigit(s[j])
    decreases |s| - i
  {
    if i < |s| && IsHexDigit(s[i]) then HexEnd(s, i + 1) else i
  }

  /** `\u{HexDigit+}` at s[i]: one scalar value, leading zeros permitted. */
  function BracedEscape(s: bytes, i: nat): (r: R<scalar>)
    requires i + 2 < |s| && s[i + 2] == LBRACE
    ensures r.Ok? ==> i + 4 < r.next <= |s|
    ensures r.Err? ==> i <= r.pos < |s|
  {
    var j := HexEnd(s, i + 3);
    if j == |s| then Err(UnexpectedEOF, i + 1)
    else if j == i + 3 || s[j] != RBRACE then Err(InvalidEscape, i + 1)
    else if !IsScalarValue(HexValue(s[i + 3..j])) then Err(InvalidEscape, i + 1)
    else Ok(HexValue(s[i + 3..j]), j + 1)
  }

  /** `\uXXXX` at s[i], or two of them that spell a surrogate pair. */
  function FixedEscape(s: bytes, i: nat): (r: R<scalar>)
    requires i + 2 < |s|
    ensures r.Ok? ==> i < r.next <= |s|
    ensures r.Err? ==> i <= r.pos < |s|
  {
    if i + 5 >= |s| then Err(UnexpectedEOF, i + 1)
    else if !IsHex4(s, i + 2) then Err(InvalidEscape, i + 1)
    else if IsScalarValue(Value(s, i + 2)) then Ok(Value(s, i + 2), i + 6)
    else if !IsLeadingSurrogate(Value(s, i + 2)) then Err(InvalidEscape, i + 1)
    else if i + 6 >= |s| then Err(UnexpectedEOF, i + 1)
    else if s[i + 6] != BACKSLASH then Err(InvalidEscape, i + 1)
    else if i + 7 >= |s| then Err(UnexpectedEOF, i + 1)
    else if s[i + 7] != LOWER_U then Err(InvalidEscape, i + 1)
    else if i + 11 >= |s| then Err(UnexpectedEOF, i + 1)
    else if !IsHex4(s, i + 8) || !IsTrailingSurrogate(Value(s, i + 8)) then Err(InvalidEscape, i + 1)
    else Ok(Pair(Value(s, i + 2), Value(s, i + 8)), i + 12)
  }

  /** One StringCharacter at s[i], which is no closing quote. */
  function Character(s: bytes, i: nat): (r: R<scalar>)
    requires i < |s|
    ensures r.Ok? ==> i < r.next <= |s|
    ensures r.Err? ==> i <= r.pos < |s|
  {
    if s[i] == BACKSLASH then
      if i + 1 == |s| then Err(UnexpectedEOF, i)
      else if SimpleEscape(s[i + 1]).Some? then Ok(SimpleEscape(s[i + 1]).value, i + 2)
      else if s[i + 1] != LOWER_U then Err(InvalidEscape, i)
      else if i + 2 == |s| then Err(UnexpectedEOF, i + 1)
      else if s[i + 2] == LBRACE then BracedEscape(s, i)
      else FixedEscape(s, i)
    else if s[i] < 0x20 then Err(UnescapedControlChar, i)
    else if SourceCharacterLen(s, i) == 0 then Err(MalformedUTF8, i)
    else Ok(Decode(s, i), i + SourceCharacterLen(s, i))
  }

  /** The code points that the string contents at s[i] spell, up to the closing quote. */
  function Contents(s: bytes, i: nat): (r: R<seq<scalar>>)
    requires i <= |s|
    ensures r.Ok? ==> i < r.next <= |s| && s[r.next - 1] == QUOTE
    ensures r.Err? ==> i <= r.pos <= |s|
    decreases |s| - i
  {
    if i == |s| then Err(UnexpectedEOF, |s|)
    else if s[i] == QUOTE then Ok([], i + 1)
    else
      var (c, j) :- Character(s, i);
      var (cs, k) :- Contents(s, j);
      Ok([c] + cs, k)
  }

  /** The value of the single-line string whose contents begin at s[i], as UTF-8. */
  function LineString(s: bytes, i: nat): (r: R<bytes>)
    requires i <= |s|
    ensures r.Ok? ==> i < r.next <= |s|
    ensures r.Err? ==> i <= r.pos <= |s|
  {
    var (cs, k) :- Contents(s, i);
    Ok(EncodeAll(cs), k)
  }

  // ----- Escapes, byte by byte

  /** The eight short escapes: the byte after the backslash, and what the two stand for. */
  const SHORT: set<(byte, byte)> := {
    (0x22, 0x22), (0x5c, 0x5c), (0x2f, 0x2f), (0x62, 0x08), (0x66, 0x0c), (0x6e, 0x0a), (0x72, 0x0d), (0x74, 0x09)}

  /** What one character adds to the contents. */
  lemma ContentsAre(s: bytes, i: nat)
    requires i < |s| && s[i] != QUOTE
    ensures var r, c := Contents(s, i), Character(s, i);
            if c.Err? then r == Err(c.e, c.pos)
            else
              var rest := Contents(s, c.next);
              r == if rest.Err? then rest else Ok([c.v] + rest.v, rest.next)
  {
    hide Character;
  }

  /** Wherever one stands, a short escape adds its byte. */
  lemma ShortEscapes(s: bytes, i: nat, b: byte, c: byte)
    requires i + 1 < |s| && s[i] == 0x5c && s[i + 1] == b && (b, c) in SHORT
    ensures var rest := Contents(s, i + 2);
            Contents(s, i) == if rest.Err? then rest else Ok([c] + rest.v, rest.next)
  {
    hide Contents;
    ContentsAre(s, i);
  }

  /** Any other byte but a 'u' makes the escape invalid. */
  lemma NoOtherEscapes(s: bytes, i: nat)
    requires i + 1 < |s| && s[i] == 0x5c && s[i + 1] !in {0x22, 0x5c, 0x2f, 0x62, 0x66, 0x6e, 0x72, 0x74, 0x75}
    ensures Contents(s, i) == Err(InvalidEscape, i)
  {
    hide Contents;
    ContentsAre(s, i);
  }

  /** Four digits after `\u`, in any case, add the scalar value they write. */
  lemma FourDigits(s: bytes, i: nat, v: scalar, upper: seq<bool>)
    requires WritesFour(s, i, v, upper)
    ensures var rest := Contents(s, i + 6);
            Contents(s, i) == if rest.Err? then rest else Ok([v] + rest.v, rest.next)
  {
    FourRead(s, i, v, upper);
    hide Contents, Value, IsHex4, HexText, SimpleEscape;
    ContentsAre(s, i);
    NoShort(s, i);
  }

  lemma NoShort(s: bytes, i: nat)
    requires i + 2 < |s| && s[i] == 0x5c && s[i + 1] == 0x75
    ensures SimpleEscape(s[i + 1]) == None
    ensures IsHex4(s, i + 2) ==> s[i + 2] != LBRACE
  {
  }

  /** Both halves of a surrogate pair add one scalar value. */
  lemma TwelveDigits(s: bytes, i: nat, v: nat, upper: seq<bool>, w: nat, more: seq<bool>)
    requires WritesFour(s, i, v, upper) && 0xd800 <= v <= 0xdbff && WritesFour(s, i + 6, w, more) && 0xdc00 <= w <= 0xdfff
    ensures var rest := Contents(s, i + 12);
            Contents(s, i) == if rest.Err? then rest
                              else Ok([0x10000 + (v - 0xd800) * 0x400 + (w - 0xdc00)] + rest.v, rest.next)
  {
    FourRead(s, i, v, upper);
    FourRead(s, i + 6, w, more);
    hide Contents, Value, IsHex4, HexText, SimpleEscape;
    ContentsAre(s, i);
    NoShort(s, i);
  }

  // ----- What the specification allows

  /** StringCharacter of the specification: a SourceCharacter, which is any scalar value, but no
      quote, backslash or LineTerminator; or an escape. */
  function SpecCharacter(s: bytes, i: nat): (r: R<scalar>)
    requires i < |s|
    ensures r.Ok? ==> i < r.next <= |s|
  {
    if s[i] == BACKSLASH then Character(s, i)
    else if s[i] == LF || s[i] == CR then Err(UnescapedControlChar, i)
    else if SourceCharacterLen(s, i) == 0 then Err(MalformedUTF8, i)
    else Ok(Decode(s, i), i + SourceCharacterLen(s, i))
  }

  function SpecContents(s: bytes, i: nat): (r: R<seq<scalar>>)
    requires i <= |s|
    ensures r.Ok? ==> i < r.next <= |s|
    decreases |s| - i
  {
    if i == |s| then Err(UnexpectedEOF, |s|)
    else if s[i] == QUOTE then Ok([], i + 1)
    else
      var (c, j) :- SpecCharacter(s, i);
      var (cs, k) :- SpecContents(s, j);
      Ok([c] + cs, k)
  }

  predicate NoControl(s: bytes, i: nat, j: nat)
    requires j <= |s|
  {
    forall m | i <= m < j :: s[m] >= 0x20
  }

  /** An escape holds no control byte. */
  lemma EscapeIsVisible(s: bytes, i: nat)
    requires i < |s| && s[i] == BACKSLASH && Character(s, i).Ok?
    ensures NoControl(s, i, Character(s, i).next)
  {
    hide HexValue, Value, Pair, Decode;
    var j := Character(s, i).next;
    if SimpleEscape(s[i + 1]).Some? {
    } else if s[i + 2] == LBRACE {
      assert forall m | i + 3 <= m < j - 1 :: IsHexDigit(s[m]);
    } else {
      assert forall m | i + 2 <= m < i + 6 :: IsHexDigit(s[m]);
    }
  }

  /** A character the parser takes is one the specification allows that is no control byte. */
  lemma CharacterIs(s: bytes, i: nat, c: scalar, j: nat)
    requires i < |s|
    ensures Character(s, i) == Ok(c, j) <==> SpecCharacter(s, i) == Ok(c, j) && NoControl(s, i, j)
  {
    hide SimpleEscape, BracedEscape, FixedEscape, Decode;
    if s[i] == BACKSLASH && Character(s, i).Ok? {
      EscapeIsVisible(s, i);
    }
  }

  /** The parser takes exactly the strings of the specification in which no byte below 0x20
      stands as it is, and reads the same value. */
  lemma {:induction false} ControlBytesRefused(s: bytes, i: nat, cs: seq<scalar>, k: nat)
    requires i <= |s|
    ensures Contents(s, i) == Ok(cs, k) <==> SpecContents(s, i) == Ok(cs, k) && NoControl(s, i, k)
    decreases |s| - i
  {
    hide Character, SpecCharacter;
    if i < |s| && s[i] != QUOTE {
      var c, d := Character(s, i), SpecCharacter(s, i);
      if c.Ok? {
        CharacterIs(s, i, c.v, c.next);
      }
      if d.Ok? {
        CharacterIs(s, i, d.v, d.next);
        var rest := SpecContents(s, d.next);
        if rest.Ok? {
          ControlBytesRefused(s, d.next, rest.v, rest.next);
        }
        var read := Contents(s, d.next);
        if read.Ok? {
          ControlBytesRefused(s, d.next, read.v, read.next);
        }
      }
    }
  }

  /** A TAB between the quotes: a string of the specification that the parser refuses. */
  lemma TabWitness()
    ensures var s: bytes := [QUOTE, TAB, QUOTE];
            SpecContents(s, 1) == Ok([0x09], 3) && Contents(s, 1) == Err(UnescapedControlChar, 1)
  {
    var s: bytes := [QUOTE, TAB, QUOTE];
    assert SpecCharacter(s, 1) == Ok(0x09, 2);
    assert SpecContents(s, 2) == Ok([], 3);
    var none: seq<scalar> := [];
    assert [0x09] + none == [0x09];
    assert Character(s, 1) == Err(UnescapedControlChar, 1);
  }
}
