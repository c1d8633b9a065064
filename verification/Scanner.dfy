/**
 The scanners: unrolled loops over lookup tables, each proved to compute the plain function
 of module Lexical, StringLine or BlockString.
 */
module Scanner {
  import opened Bytes
  import opened Utf8
  import opened Lexical
  import opened UnicodeEsc
  import opened StringLine
  import opened BlockString

  /** A 256-entry table of booleans. */
  type Lut = byte -> bool

  const LUT_NAME_END: Lut := (b: byte) => !IsNameCont(b)
  const LUT_IGNORABLE_END: Lut := (b: byte) => !IsIgnorableByte(b)
  const LUT_COMMENT_STOP: Lut := (b: byte) => b == LF || b == CR || b >= 0x80
  const LUT_STRING_STOP: Lut := (b: byte) => b == QUOTE || b == BACKSLASH || b < 0x20 || b >= 0x80
  const LUT_BLOCK_STOP: Lut :=
    (b: byte) => b == QUOTE || b == BACKSLASH || b == LF || b == CR || b == SPACE || b == TAB || b >= 0x80

  /** The loop the scanners share, eight bytes a round: the first byte at or after start that
      the table marks, or the end. */
  method FirstStop(s: bytes, start: nat, lut: Lut) returns (i: nat)
    requires start <= |s|
    ensures start <= i <= |s|
    ensures forall k | start <= k < i :: !lut(s[k])
    ensures i < |s| ==> lut(s[i])
  {
    i := start;
    while i + 8 <= |s|
      invariant start <= i <= |s|
      invariant forall k | start <= k < i :: !lut(s[k])
    {
      if lut(s[i]) { return i; }
      if lut(s[i + 1]) { return i + 1; }
      if lut(s[i + 2]) { return i + 2; }
      if lut(s[i + 3]) { return i + 3; }
      if lut(s[i + 4]) { return i + 4; }
      if lut(s[i + 5]) { return i + 5; }
      if lut(s[i + 6]) { return i + 6; }
      if lut(s[i + 7]) { return i + 7; }
      i := i + 8;
    }
    while i < |s| && !lut(s[i])
      invariant start <= i <= |s|
      invariant forall k | start <= k < i :: !lut(s[k])
    {
      i := i + 1;
    }
  }

  // ----- Names

  lemma {:induction false} NameRun(s: bytes, i: nat, j: nat)
    requires i <= j <= |s| && forall k | i <= k < j :: IsNameCont(s[k])
    ensures NameEnd(s, i) == NameEnd(s, j)
    decreases j - i
  {
    if i < j {
      NameRun(s, i + 1, j);
    }
  }

  method ScanNameEnd(s: bytes, start: nat) returns (i: nat)
    requires start <= |s|
    ensures i == NameEnd(s, start)
  {
    i := FirstStop(s, start, LUT_NAME_END);
    NameRun(s, start, i);
  }

  // ----- Ignored tokens

  lemma {:induction false} IgnorableRun(s: bytes, i: nat, j: nat)
    requires i <= j <= |s| && forall k | i <= k < j :: IsIgnorableByte(s[k])
    ensures Skip(s, i) == Skip(s, j)
    decreases j - i
  {
    if i < j {
      IgnorableRun(s, i + 1, j);
    }
  }

  lemma {:induction false} CommentRun(s: bytes, i: nat, j: nat)
    requires i <= j <= |s| && forall k | i <= k < j :: !LUT_COMMENT_STOP(s[k])
    ensures CommentEnd(s, i) == CommentEnd(s, j)
    decreases j - i
  {
    if i < j {
      CommentRun(s, i + 1, j);
    }
  }

  /** The comment whose CommentChars begin at start. It is cut short at a byte that is no
      SourceCharacter, and then nothing else can be skipped there. */
  method ScanComment(s: bytes, start: nat) returns (i: nat, stuck: bool)
    requires start <= |s|
    ensures i == CommentEnd(s, start)
    ensures stuck ==> Skip(s, i) == i
    ensures !stuck ==> i < |s| && IsLineTerminatorByte(s[i])
  {
    i := start;
    while true
      invariant start <= i <= |s| && CommentEnd(s, i) == CommentEnd(s, start)
      decreases |s| - i
    {
      var j := FirstStop(s, i, LUT_COMMENT_STOP);
      CommentRun(s, i, j);
      i := j;
      if i == |s| {
        return i, true;
      }
      if s[i] == LF || s[i] == CR {
        return i, false;
      }
      var n := SourceCharacterLen(s, i);
      if n == 0 {
        BomIsACharacter(s, i);
        return i, true;
      }
      i := i + n;
    }
  }

  lemma BomIsACharacter(s: bytes, i: nat)
    requires i < |s|
    ensures HasPrefixAt(s, i, BOM) ==> SourceCharacterLen(s, i) == 3
  {
    if HasPrefixAt(s, i, BOM) {
      assert s[i..i + 3][0] == s[i] && s[i..i + 3][1] == s[i + 1] && s[i..i + 3][2] == s[i + 2];
    }
  }

  /** The end of the longest run of Ignored tokens. */
  method SkipIgnorables(s: bytes, start: nat) returns (i: nat)
    requires start <= |s|
    ensures i == Skip(s, start)
  {
    hide CommentEnd, SourceCharacterLen;
    i := start;
    while true
      invariant start <= i <= |s| && Skip(s, i) == Skip(s, start)
      decreases |s| - i
    {
      var j := FirstStop(s, i, LUT_IGNORABLE_END);
      IgnorableRun(s, i, j);
      i := j;
      if i == |s| {
        return;
      }
      if s[i] == HASH {
        var stuck;
        i, stuck := ScanComment(s, i + 1);
        if stuck {
          return;
        }
      } else if HasPrefixAt(s, i, BOM) {
        i := i + |BOM|;
      } else {
        return;
      }
    }
  }

  // ----- Numbers

  method ScanDigits(s: bytes, start: nat) returns (i: nat)
    requires start <= |s|
    ensures i == DigitsEnd(s, start)
  {
    i := start;
    while i < |s| && IsDigit(s[i])
      invariant start <= i <= |s| && DigitsEnd(s, i) == DigitsEnd(s, start)
    {
      i := i + 1;
    }
  }

  method ScanNumber(s: bytes, start: nat) returns (end: nat, isFloat: bool, errPos: nat, err: Option<Error>)
    requires start < |s| && (s[start] == MINUS || IsDigit(s[start]))
    ensures Number(s, start) == if err.Some? then Err(err.value, errPos) else Ok(isFloat, end)
  {
    hide DigitsEnd, AfterInteger;
    var i := start;
    if s[i] == MINUS {
      i := i + 1;
    }
    if i >= |s| || !IsDigit(s[i]) {
      return i, false, start, Some(MalformedNumber);
    }
    if s[i] == ZERO {
      i := i + 1;
    } else {
      i := ScanDigits(s, i + 1);
    }
    end, isFloat, errPos, err := ScanAfterInteger(s, i);
  }

  /** The rest of scanNumber, after the IntegerPart. */
  method ScanAfterInteger(s: bytes, start: nat) returns (i: nat, isFloat: bool, errPos: nat, err: Option<Error>)
    requires start <= |s|
    ensures AfterInteger(s, start) == if err.Some? then Err(err.value, errPos) else Ok(isFloat, i)
  {
    hide DigitsEnd, IsNameStart;
    i, isFloat := start, false;
    if i < |s| && (s[i] == DOT || IsExponentMark(s[i])) {
      isFloat := true;
      if s[i] == DOT {
        var first := i + 1;
        i := ScanDigits(s, first);
        if i == first {
          return i, isFloat, i, Some(MalformedNumber);
        }
      }
      if i < |s| && IsExponentMark(s[i]) {
        i := i + 1;
        if i < |s| && (s[i] == MINUS || s[i] == PLUS) {
          i := i + 1;
        }
        var first := i;
        i := ScanDigits(s, first);
        if i == first {
          return i, isFloat, i, Some(MalformedNumber);
        }
      }
    }
    if i < |s| && (IsDigit(s[i]) || s[i] == DOT || IsNameStart(s[i])) {
      return i, isFloat, i, Some(MalformedNumber);
    }
    return i, isFloat, 0, None;
  }

  // ----- Single-line strings

  /** Two reads end at the same index, or in the same error. */
  predicate SameEnd(a: R<seq<scalar>>, b: R<seq<scalar>>) {
    if a.Ok? then b.Ok? && a.next == b.next else a == b
  }

  lemma {:induction false} PlainRun(s: bytes, i: nat, j: nat)
    requires i <= j <= |s| && forall k | i <= k < j :: !LUT_STRING_STOP(s[k])
    ensures SameEnd(Contents(s, i), Contents(s, j))
    ensures BACKSLASH !in s[i..j]
    decreases j - i
  {
    if i < j {
      PlainRun(s, i + 1, j);
      assert Character(s, i) == Ok(s[i], i + 1);
    }
  }

  /** The digits of `\u{...}`, accumulated in 32 bits until they are out of range. */
  method ScanHexDigits(s: bytes, start: nat) returns (j: nat, v: nat, outOfRange: bool)
    requires start <= |s|
    ensures j == HexEnd(s, start)
    ensures outOfRange <==> HexValue(s[start..j]) > 0x10ffff
    ensures !outOfRange ==> v == HexValue(s[start..j])
  {
    hide HexValue;
    j, v, outOfRange := start, 0, false;
    HexValueNone(s, start);
    while j < |s| && IsHexDigit(s[j])
      invariant start <= j <= |s| && HexEnd(s, j) == HexEnd(s, start)
      invariant forall k | start <= k < j :: IsHexDigit(s[k])
      invariant outOfRange <==> HexValue(s[start..j]) > 0x10ffff
      invariant !outOfRange ==> v == HexValue(s[start..j])
    {
      HexValueStep(s, start, j, j + 1);
      if !outOfRange {
        v := WrapShift(v, DigitValue(s[j]));
        outOfRange := v > 0x10ffff;
      }
      j := j + 1;
    }
  }

  /** The escape sequence at i: the index to go on at, or the error. A `\uXXXX` that is no
      half of a pair goes on at its last digit, which stands for itself. */
  method ScanEscape(s: bytes, i: nat) returns (next: nat, errPos: nat, err: Option<Error>)
    requires i < |s| && s[i] == BACKSLASH
    ensures err.Some? ==> Character(s, i) == Err(err.value, errPos)
    ensures err.None? ==> i < next <= |s| && SameEnd(Contents(s, i), Contents(s, next))
  {
    hide Contents, HexValue, Value, Pair, Decode;
    next, errPos, err := i, i, None;
    if i + 1 >= |s| {
      return i, i, Some(UnexpectedEOF);
    }
    if s[i + 1] == QUOTE || s[i + 1] == BACKSLASH || s[i + 1] == 0x2f || s[i + 1] == 0x62 || s[i + 1] == 0x66
       || s[i + 1] == 0x6e || s[i + 1] == 0x72 || s[i + 1] == 0x74 {
      CharacterThen(s, i);
      return i + 2, 0, None;
    }
    if s[i + 1] != LOWER_U {
      return i, i, Some(InvalidEscape);
    }
    if i + 2 >= |s| {
      return i, i + 1, Some(UnexpectedEOF);
    }
    if s[i + 2] == LBRACE {
      var j, v, outOfRange := ScanHexDigits(s, i + 3);
      if j >= |s| {
        return i, i + 1, Some(UnexpectedEOF);
      }
      if j == i + 3 || s[j] != RBRACE {
        return i, i + 1, Some(InvalidEscape);
      }
      if outOfRange || !IsScalarValue(v) {
        return i, i + 1, Some(InvalidEscape);
      }
      CharacterThen(s, i);
      return j + 1, 0, None;
    }
    if i + 5 >= |s| {
      return i, i + 1, Some(UnexpectedEOF);
    }
    if !IsHexDigit(s[i + 2]) || !IsHexDigit(s[i + 3]) || !IsHexDigit(s[i + 4]) || !IsHexDigit(s[i + 5]) {
      return i, i + 1, Some(InvalidEscape);
    }
    var leading := Value(s, i + 2);
    if IsLeadingSurrogate(leading) {
      if i + 6 >= |s| {
        return i, i + 1, Some(UnexpectedEOF);
      }
      if s[i + 6] != BACKSLASH {
        return i, i + 1, Some(InvalidEscape);
      }
      if i + 7 >= |s| {
        return i, i + 1, Some(UnexpectedEOF);
      }
      if s[i + 7] != LOWER_U {
        return i, i + 1, Some(InvalidEscape);
      }
      if i + 11 >= |s| {
        return i, i + 1, Some(UnexpectedEOF);
      }
      if !IsHexDigit(s[i + 8]) || !IsHexDigit(s[i + 9]) || !IsHexDigit(s[i + 10]) || !IsHexDigit(s[i + 11]) {
        return i, i + 1, Some(InvalidEscape);
      }
      if !IsTrailingSurrogate(Value(s, i + 8)) {
        return i, i + 1, Some(InvalidEscape);
      }
      CharacterThen(s, i);
      return i + 12, 0, None;
    }
    if !IsScalarValue(leading) {
      return i, i + 1, Some(InvalidEscape);
    }
    CharacterThen(s, i);
    CharacterThen(s, i + 5);
    return i + 5, 0, None;
  }

  /** A string reads on after a character as if it began there. */
  lemma CharacterThen(s: bytes, i: nat)
    requires i < |s| && s[i] != QUOTE && Character(s, i).Ok?
    ensures SameEnd(Contents(s, i), Contents(s, Character(s, i).next))
  {
    hide Character;
  }

  lemma ContentsFirst(s: bytes, i: nat)
    requires i <= |s|
    ensures i == |s| ==> Contents(s, i) == Err(UnexpectedEOF, |s|)
    ensures i < |s| && s[i] == QUOTE ==> Contents(s, i) == Ok([], i + 1)
    ensures i < |s| && s[i] != QUOTE && Character(s, i).Err? ==>
              Contents(s, i).Err? && Contents(s, i).e == Character(s, i).e && Contents(s, i).pos == Character(s, i).pos
  {
    hide Character;
  }

  method ScanStringLine(s: bytes, start: nat) returns (end: nat, esc: bool, errPos: nat, err: Option<Error>)
    requires start <= |s|
    ensures err.Some? ==> Contents(s, start) == Err(err.value, errPos)
    ensures err.None? ==> Contents(s, start).Ok? && Contents(s, start).next == end
    ensures err.None? ==> esc == (BACKSLASH in s[start..end - 1])
  {
    hide Contents, Character, SourceCharacterLen, Decode, Occurs;
    var i := start;
    esc := false;
    OccursIs(s, BACKSLASH, start, start);
    while true
      invariant start <= i <= |s| && SameEnd(Contents(s, start), Contents(s, i))
      invariant esc == Occurs(s, BACKSLASH, start, i)
      decreases |s| - i
    {
      var j := FirstStop(s, i, LUT_STRING_STOP);
      PlainRun(s, i, j);
      OccursNot(s, BACKSLASH, i, j);
      OccursCat(s, BACKSLASH, start, i, j);
      i := j;
      ContentsFirst(s, i);
      if i == |s| {
        return i, esc, |s|, Some(UnexpectedEOF);
      }
      if s[i] == QUOTE {
        OccursIs(s, BACKSLASH, start, i);
        return i + 1, esc, 0, None;
      }
      if s[i] == BACKSLASH {
        esc := true;
        var next;
        next, errPos, err := ScanEscape(s, i);
        if err.Some? {
          return i, esc, errPos, err;
        }
        OccursFirst(s, i, next);
        OccursCat(s, BACKSLASH, start, i, next);
        i := next;
      } else {
        PlainCharacter(s, i);
        if s[i] < 0x20 {
          return i, esc, i, Some(UnescapedControlChar);
        }
        var n := SourceCharacterLen(s, i);
        if n == 0 {
          return i, esc, i, Some(MalformedUTF8);
        }
        CharacterThen(s, i);
        OccursCat(s, BACKSLASH, start, i, i + n);
        i := i + n;
      }
    }
  }

  predicate Occurs(s: bytes, b: byte, i: nat, j: nat)
    requires i <= j <= |s|
  {
    b in s[i..j]
  }

  lemma OccursIs(s: bytes, b: byte, i: nat, j: nat)
    requires i <= j <= |s|
    ensures Occurs(s, b, i, j) <==> b in s[i..j]
  {
  }

  lemma OccursNot(s: bytes, b: byte, i: nat, j: nat)
    requires i <= j <= |s| && forall k | i <= k < j :: s[k] != b
    ensures !Occurs(s, b, i, j)
  {
  }

  lemma OccursFirst(s: bytes, i: nat, j: nat)
    requires i < j <= |s|
    ensures Occurs(s, s[i], i, j)
  {
    assert s[i..j][0] == s[i];
  }

  lemma OccursCat(s: bytes, b: byte, i: nat, j: nat, k: nat)
    requires i <= j <= k <= |s|
    ensures Occurs(s, b, i, k) <==> Occurs(s, b, i, j) || Occurs(s, b, j, k)
  {
    assert s[i..k] == s[i..j] + s[j..k];
  }

  lemma PlainCharacter(s: bytes, i: nat)
    requires i < |s| && s[i] != BACKSLASH
    ensures s[i] < 0x20 ==> Character(s, i) == Err(UnescapedControlChar, i)
    ensures s[i] >= 0x20 && SourceCharacterLen(s, i) == 0 ==> Character(s, i) == Err(MalformedUTF8, i)
    ensures s[i] >= 0x20 && SourceCharacterLen(s, i) > 0 ==>
              Character(s, i) == Ok(Decode(s, i), i + SourceCharacterLen(s, i))
              && !Occurs(s, BACKSLASH, i, i + SourceCharacterLen(s, i))
  {
  }

  // ----- Block strings

  /** As FirstStop, but eight bytes are tested together. */
  method BlockRunEnd(s: bytes, start: nat) returns (i: nat)
    requires start <= |s|
    ensures start <= i <= |s|
    ensures forall k | start <= k < i :: !LUT_BLOCK_STOP(s[k])
    ensures i < |s| ==> LUT_BLOCK_STOP(s[i])
  {
    i := start;
    while i + 8 <= |s| && !LUT_BLOCK_STOP(s[i]) && !LUT_BLOCK_STOP(s[i + 1]) && !LUT_BLOCK_STOP(s[i + 2])
          && !LUT_BLOCK_STOP(s[i + 3]) && !LUT_BLOCK_STOP(s[i + 4]) && !LUT_BLOCK_STOP(s[i + 5])
          && !LUT_BLOCK_STOP(s[i + 6]) && !LUT_BLOCK_STOP(s[i + 7])
      invariant start <= i <= |s|
      invariant forall k | start <= k < i :: !LUT_BLOCK_STOP(s[k])
    {
      i := i + 8;
    }
    while i < |s| && !LUT_BLOCK_STOP(s[i])
      invariant start <= i <= |s|
      invariant forall k | start <= k < i :: !LUT_BLOCK_STOP(s[k])
    {
      i := i + 1;
    }
  }

  /** The indentation that the lines after the one at i have in common; e is where the text ends. */
  function RestIndent(s: bytes, i: nat, e: nat): Option<nat>
    requires i <= e <= |s|
  {
    CommonIndent(Lines(s[i..e])[1..])
  }

  /** Bytes within a line change nothing about the lines after it. */
  lemma {:induction false} RestWithin(s: bytes, i: nat, j: nat, e: nat)
    requires i <= j <= e <= |s| && forall k | i <= k < j :: !IsLineTerminatorByte(s[k])
    ensures Lines(s[i..e])[1..] == Lines(s[j..e])[1..]
    decreases j - i
  {
    if i < j {
      RestWithin(s, i + 1, j, e);
      assert s[i..e][1..] == s[i + 1..e];
    }
  }

  predicate LineOver(s: bytes, i: nat, e: nat)
    requires i <= e <= |s|
  {
    i == e || IsLineTerminatorByte(s[i])
  }

  /** The line at k whose WhiteSpace reaches up to j. */
  lemma {:induction false} FirstLineIndent(s: bytes, k: nat, j: nat, e: nat)
    requires k <= j <= e <= |s| && (forall m | k <= m < j :: IsWhiteSpace(s[m])) && (j < e ==> !IsWhiteSpace(s[j]))
    ensures var line := Lines(s[k..e])[0];
            IsBlank(line) == LineOver(s, j, e) && (!LineOver(s, j, e) ==> Indent(line) == j - k)
    decreases j - k
  {
    var u := s[k..e];
    if k < j {
      FirstLineIndent(s, k + 1, j, e);
      assert u[1..] == s[k + 1..e];
      var line, next := Lines(u)[0], Lines(s[k + 1..e])[0];
      assert line == [s[k]] + next;
      assert line[1..] == next;
    } else if k < e {
      assert !LineOver(s, j, e) ==> !IsWhiteSpace(Lines(u)[0][0]);
    }
  }

  /** The lines after a LineTerminator at i: first the one whose WhiteSpace reaches up to j. */
  lemma RestAtTerminator(s: bytes, i: nat, j: nat, e: nat)
    requires i < e < |s| && IsLineTerminatorByte(s[i]) && s[e] == QUOTE
    requires i + LineTerminatorLen(s, i) <= j <= e
    requires (forall m | i + LineTerminatorLen(s, i) <= m < j :: IsWhiteSpace(s[m])) && (j < e ==> !IsWhiteSpace(s[j]))
    ensures RestIndent(s, i, e)
         == MinIndent(if LineOver(s, j, e) then None else Some(j - (i + LineTerminatorLen(s, i))), RestIndent(s, j, e))
  {
    hide Lines, CommonIndent, IsBlank, Indent;
    var k := i + LineTerminatorLen(s, i);
    TerminatorStarts(s, i, e);
    RestWithin(s, k, j, e);
    FirstLineIndent(s, k, j, e);
    CommonIndentFirst(Lines(s[k..e]));
  }

  lemma TerminatorStarts(s: bytes, i: nat, e: nat)
    requires i < e < |s| && IsLineTerminatorByte(s[i]) && s[e] == QUOTE
    ensures i + LineTerminatorLen(s, i) <= e
    ensures Lines(s[i..e])[1..] == Lines(s[i + LineTerminatorLen(s, i)..e])
  {
    var u, n := s[i..e], LineTerminatorLen(s, i);
    assert LineTerminatorLen(u, 0) == n;
    assert u[n..] == s[i + n..e];
    assert Lines(u)[1..] == Lines(u[n..]);
  }

  lemma CommonIndentFirst(lines: seq<bytes>)
    requires lines != []
    ensures CommonIndent(lines) == MinIndent(LineIndent(lines[0]), CommonIndent(lines[1..]))
  {
  }

  /** A block string closes at a `"""`. */
  lemma {:induction false} BlockCloses(s: bytes, i: nat)
    requires i <= |s| && BlockEnd(s, i).Ok?
    ensures HasPrefixAt(s, BlockEnd(s, i).next - 3, TRIPLE)
    decreases |s| - i
  {
    hide HasPrefixAt, SourceCharacterLen;
    if HasPrefixAt(s, i, TRIPLE) {
    } else if HasPrefixAt(s, i, ESCAPED_TRIPLE) {
      BlockCloses(s, i + 4);
    } else {
      BlockCloses(s, i + SourceCharacterLen(s, i));
    }
  }

  predicate TripleAt(s: bytes, i: nat)
    requires i <= |s|
  {
    i + 2 < |s| && s[i] == QUOTE && s[i + 1] == QUOTE && s[i + 2] == QUOTE
  }

  lemma TripleIs(s: bytes, i: nat)
    requires i <= |s|
    ensures TripleAt(s, i) <==> HasPrefixAt(s, i, TRIPLE)
  {
    if HasPrefixAt(s, i, TRIPLE) {
      assert s[i..i + 3][0] == s[i] && s[i..i + 3][1] == s[i + 1] && s[i..i + 3][2] == s[i + 2];
    }
  }

  /** ASCII bytes that close nothing and escape nothing. */
  lemma {:induction false} BlockRun(s: bytes, i: nat, j: nat)
    requires i <= j <= |s|
    requires forall k | i <= k < j :: s[k] < 0x80 && s[k] != QUOTE && s[k] != BACKSLASH
    ensures BlockEnd(s, i) == BlockEnd(s, j)
    decreases j - i
  {
    hide BlockEnd, HasPrefixAt;
    if i < j {
      BlockRun(s, i + 1, j);
      TripleIs(s, i);
      BlockStep(s, i);
    }
  }

  predicate IsBlankByte(b: byte) { IsWhiteSpace(b) || IsLineTerminatorByte(b) }

  /** content is the index of the first byte that is neither WhiteSpace nor a LineTerminator,
      which may be the byte at i, and -1 if there is none before i. */
  predicate ContentAt(s: bytes, start: nat, i: nat, content: int)
    requires start <= i <= |s|
  {
    if content < 0 then forall k | start <= k < i :: IsBlankByte(s[k])
    else
      && start <= content <= i && content < |s| && !IsBlankByte(s[content])
      && forall k | start <= k < content :: IsBlankByte(s[k])
  }

  lemma ContentIs(s: bytes, start: nat, i: nat, content: int)
    requires start <= i <= |s| && ContentAt(s, start, i, content)
    ensures HasContent(s[start..i]) <==> content >= 0 && content != i
  {
    if content >= 0 && content != i {
      assert s[start..i][content - start] == s[content];
    }
  }

  /** The scan has reached i: closing and the common indentation are still to come out the same. */
  predicate Scanned(s: bytes, start: nat, i: nat, seen: Option<nat>)
    requires start <= i <= |s|
  {
    && BlockEnd(s, i) == BlockEnd(s, start)
    && (BlockEnd(s, i).Ok? ==>
          var e := BlockEnd(s, i).next - 3;
          MinIndent(seen, RestIndent(s, i, e)) == RestIndent(s, start, e))
  }

  /** Reading on within a line. */
  lemma ScanWithin(s: bytes, start: nat, i: nat, j: nat, seen: Option<nat>)
    requires start <= i <= j <= |s| && Scanned(s, start, i, seen)
    requires BlockEnd(s, i) == BlockEnd(s, j)
    requires forall k | i <= k < j :: !IsLineTerminatorByte(s[k])
    ensures Scanned(s, start, j, seen)
  {
    hide Lines, CommonIndent, BlockEnd;
    if BlockEnd(s, i).Ok? {
      RestWithin(s, i, j, BlockEnd(s, i).next - 3);
    }
  }

  /** Reading a LineTerminator and the WhiteSpace after it, up to j. */
  lemma ScanTerminator(s: bytes, start: nat, i: nat, j: nat, seen: Option<nat>)
    requires start <= i < |s| && Scanned(s, start, i, seen) && IsLineTerminatorByte(s[i])
    requires i + LineTerminatorLen(s, i) <= j <= |s|
    requires forall m | i + LineTerminatorLen(s, i) <= m < j :: IsWhiteSpace(s[m])
    requires j < |s| ==> !IsWhiteSpace(s[j])
    ensures Scanned(s, start, j, if j == |s| || IsLineTerminatorByte(s[j]) || TripleAt(s, j) then seen
                                 else MinIndent(seen, Some(j - (i + LineTerminatorLen(s, i)))))
  {
    hide Lines, CommonIndent, Indent, RestIndent, BlockEnd, HasPrefixAt;
    BlockRun(s, i, j);
    if BlockEnd(s, j).Ok? {
      var e := BlockEnd(s, j).next - 3;
      BlockCloses(s, j);
      TripleIs(s, e);
      if TripleAt(s, j) {
        BlockClosesHere(s, j, j);
      }
      RestAtTerminator(s, i, j, e);
    }
  }

  lemma BlockClosesHere(s: bytes, start: nat, i: nat)
    requires start <= i <= |s| && TripleAt(s, i)
    ensures BlockEnd(s, i) == Ok((), i + 3)
    ensures RestIndent(s, i, i) == None
    ensures CommonPrefix(s[start..i]) == OrZero(RestIndent(s, start, i))
  {
    TripleIs(s, i);
  }

  lemma BlockRunsOut(s: bytes)
    ensures BlockEnd(s, |s|) == Err(UnexpectedEOF, |s|)
  {
  }

  /** One step of a block string that does not close at i. */
  lemma BlockStep(s: bytes, i: nat)
    requires i < |s| && !TripleAt(s, i)
    ensures HasPrefixAt(s, i, ESCAPED_TRIPLE) ==>
              BlockEnd(s, i) == BlockEnd(s, i + 4) && forall k | i <= k < i + 4 :: !IsLineTerminatorByte(s[k])
    ensures !HasPrefixAt(s, i, ESCAPED_TRIPLE) && SourceCharacterLen(s, i) == 0 ==> BlockEnd(s, i) == Err(MalformedUTF8, i)
    ensures !HasPrefixAt(s, i, ESCAPED_TRIPLE) && SourceCharacterLen(s, i) > 0 ==>
              BlockEnd(s, i) == BlockEnd(s, i + SourceCharacterLen(s, i))
    ensures s[i] != BACKSLASH ==> !HasPrefixAt(s, i, ESCAPED_TRIPLE)
  {
    TripleIs(s, i);
    if HasPrefixAt(s, i, ESCAPED_TRIPLE) {
      assert s[i..i + 4][0] == s[i] && s[i..i + 4][1] == s[i + 1] && s[i..i + 4][2] == s[i + 2]
             && s[i..i + 4][3] == s[i + 3];
    }
  }

  lemma ScanStarts(s: bytes, start: nat)
    requires start <= |s|
    ensures Scanned(s, start, start, None) && ContentAt(s, start, start, -1)
  {
    hide BlockEnd, RestIndent;
  }

  lemma ScanCloses(s: bytes, start: nat, i: nat, seen: Option<nat>)
    requires start <= i <= |s| && Scanned(s, start, i, seen) && TripleAt(s, i)
    ensures BlockEnd(s, start) == Ok((), i + 3) && CommonPrefix(s[start..i]) == OrZero(seen)
  {
    hide RestIndent, BlockEnd, CommonPrefix;
    BlockClosesHere(s, start, i);
  }

  lemma ScanFails(s: bytes, start: nat, i: nat, seen: Option<nat>)
    requires start <= i <= |s| && Scanned(s, start, i, seen)
    ensures BlockEnd(s, start) == BlockEnd(s, i)
  {
  }

  /** The first byte that is not blank is where the content begins. */
  lemma ContentFirst(s: bytes, start: nat, i: nat, content: int)
    requires start <= i < |s| && ContentAt(s, start, i, content) && !IsBlankByte(s[i])
    ensures ContentAt(s, start, i, if content < 0 then i else content)
  {
  }

  /** After it, or over blank bytes, it stays where it is. */
  lemma ContentStays(s: bytes, start: nat, i: nat, j: nat, content: int)
    requires start <= i <= j <= |s| && ContentAt(s, start, i, content)
    requires content < 0 ==> forall k | i <= k < j :: IsBlankByte(s[k])
    ensures ContentAt(s, start, j, content)
  {
  }

  /** A LineTerminator and the WhiteSpace after it, which is counted. */
  method ScanLineBreak(s: bytes, start: nat) returns (i: nat, c: nat)
    requires start < |s| && IsLineTerminatorByte(s[start])
    ensures i == start + LineTerminatorLen(s, start) + c <= |s|
    ensures forall k | start + LineTerminatorLen(s, start) <= k < i :: IsWhiteSpace(s[k])
    ensures i < |s| ==> !IsWhiteSpace(s[i])
    ensures forall k | start <= k < i :: IsBlankByte(s[k])
  {
    i, c := start + LineTerminatorLen(s, start), 0;
    while i < |s| && IsWhiteSpace(s[i])
      invariant i == start + LineTerminatorLen(s, start) + c <= |s|
      invariant forall k | start <= k < i :: IsBlankByte(s[k])
      invariant forall k | start + LineTerminatorLen(s, start) <= k < i :: IsWhiteSpace(s[k])
    {
      i, c := i + 1, c + 1;
    }
  }

  /** One step within a line: an ASCII byte, an escaped delimiter or a longer character. */
  lemma ScanStep(s: bytes, start: nat, i: nat, j: nat, content: int, seen: Option<nat>)
    requires start <= i < |s| && !TripleAt(s, i) && Scanned(s, start, i, seen) && ContentAt(s, start, i, content)
    requires !IsLineTerminatorByte(s[i]) && (content < 0 ==> IsWhiteSpace(s[i]))
    requires j == if HasPrefixAt(s, i, ESCAPED_TRIPLE) then i + 4 else i + SourceCharacterLen(s, i)
    requires HasPrefixAt(s, i, ESCAPED_TRIPLE) || SourceCharacterLen(s, i) > 0
    ensures j <= |s| && Scanned(s, start, j, seen) && ContentAt(s, start, j, content)
  {
    hide Lines, BlockEnd, HasPrefixAt, RestIndent, Scanned, ContentAt;
    EscapedLength(s, i);
    BlockStep(s, i);
    ScanWithin(s, start, i, j, seen);
    ContentStays(s, start, i, j, content);
  }

  lemma EscapedLength(s: bytes, i: nat)
    requires i < |s|
    ensures HasPrefixAt(s, i, ESCAPED_TRIPLE) ==> i + 4 <= |s| && s[i] == BACKSLASH
  {
    if i + 4 <= |s| {
      assert s[i..i + 4][0] == s[i];
    }
  }

  /** Only a backslash begins an escape, and an ASCII byte is a character. */
  lemma AsciiStep(s: bytes, i: nat)
    requires i < |s|
    ensures s[i] != BACKSLASH ==> !HasPrefixAt(s, i, ESCAPED_TRIPLE)
    ensures s[i] < 0x80 ==> SourceCharacterLen(s, i) == 1
  {
    hide HasPrefixAt;
    EscapedLength(s, i);
  }

  method ScanStringBlock(s: bytes, start: nat)
    returns (end: nat, prefixLen: nat, hasContent: bool, errPos: nat, err: Option<Error>)
    requires start <= |s|
    ensures err.Some? ==> BlockEnd(s, start) == Err(err.value, errPos)
    ensures err.None? ==> BlockEnd(s, start) == Ok((), end)
    ensures err.None? ==> prefixLen == CommonPrefix(s[start..end - 3])
    ensures err.None? ==> hasContent == HasContent(s[start..end - 3])
  {
    hide Lines, CommonIndent, BlockEnd, HasContent, SourceCharacterLen, RestIndent, HasPrefixAt, Scanned, ContentAt,
         CommonPrefix;
    var i, content, prefixLenSet := start, -1, false;
    prefixLen := 0;
    ScanStarts(s, start);
    while i < |s|
      invariant start <= i <= |s| && ContentAt(s, start, i, content)
      invariant prefixLenSet || prefixLen == 0
      invariant Scanned(s, start, i, if prefixLenSet then Some(prefixLen) else None)
    {
      ghost var seen := if prefixLenSet then Some(prefixLen) else None;
      ghost var was := i;
      if !LUT_BLOCK_STOP(s[i]) {
        ContentFirst(s, start, i, content);
        if content < 0 {
          content := i;
        }
        i := BlockRunEnd(s, i + 1);
        ContentStays(s, start, was, i, content);
        BlockRun(s, was, i);
        ScanWithin(s, start, was, i, seen);
        continue;
      }
      if s[i] == QUOTE {
        if i + 2 < |s| && s[i + 1] == QUOTE && s[i + 2] == QUOTE {
          ScanCloses(s, start, i, seen);
          ContentIs(s, start, i, content);
          return i + 3, prefixLen, content >= 0 && content != i, 0, None;
        }
        ContentFirst(s, start, i, content);
        if content < 0 {
          content := i;
        }
        i := i + 1;
      } else if s[i] == BACKSLASH {
        ContentFirst(s, start, i, content);
        if content < 0 {
          content := i;
        }
        i := if HasPrefixAt(s, i, ESCAPED_TRIPLE) then i + 4 else i + 1;
      } else if IsLineTerminatorByte(s[i]) {
        var c;
        i, c := ScanLineBreak(s, i);
        ContentStays(s, start, was, i, content);
        if i < |s| && LineTerminatorLen(s, i) == 0 {
          ContentFirst(s, start, i, content);
        }
        if i < |s| && LineTerminatorLen(s, i) == 0 && content < 0 {
          content := i;
        }
        ScanTerminator(s, start, was, i, seen);
        var isBlankLine := i >= |s| || LineTerminatorLen(s, i) > 0;
        var isLastLine := i + 2 < |s| && s[i] == QUOTE && s[i + 1] == QUOTE && s[i + 2] == QUOTE;
        if !isBlankLine && !isLastLine {
          if prefixLenSet {
            prefixLen := if prefixLen <= c then prefixLen else c;
          } else {
            prefixLen, prefixLenSet := c, true;
          }
        }
        continue;
      } else if IsWhiteSpace(s[i]) {
        i := i + 1;
      } else {
        var n := SourceCharacterLen(s, i);
        if n == 0 {
          BlockStep(s, i);
          ScanFails(s, start, i, seen);
          return i, prefixLen, false, i, Some(MalformedUTF8);
        }
        ContentFirst(s, start, i, content);
        if content < 0 {
          content := i;
        }
        i := i + n;
      }
      AsciiStep(s, was);
      ScanStep(s, start, was, i, content, seen);
    }
    ScanFails(s, start, i, if prefixLenSet then Some(prefixLen) else None);
    BlockRunsOut(s);
    return i, prefixLen, false, |s|, Some(UnexpectedEOF);
  }
}
