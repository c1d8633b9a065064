/** Every string value is UTF-8, whichever way it is written. */
module TextForm {
  import opened Bytes
  import opened Lexical
  import opened Utf8
  import opened StringLine
  import opened BlockString
  import opened BlockLines
  import Descent

  predicate AllUtf8(lines: seq<bytes>) {
    forall k | 0 <= k < |lines| :: IsUtf8(lines[k])
  }

  // ----- The text between the delimiters of a block string

  /** The next character, or the escape sequence, of a block string that does not end here. */
  lemma BlockUnit(s: bytes, i: nat) returns (n: nat)
    requires i <= |s| && BlockEnd(s, i).Ok? && !HasPrefixAt(s, i, TRIPLE)
    ensures 0 < n && i + n <= |s| && BlockEnd(s, i) == BlockEnd(s, i + n)
    ensures IsUtf8(s[i..i + n])
  {
    hide IsUtf8, SourceCharacterLen, HasPrefixAt;
    if HasPrefixAt(s, i, ESCAPED_TRIPLE) {
      n := 4;
      EscapedIs(s, i);
      NoText();
      assert s[i..i + 4][4..] == [];
      AsciiCut(s[i..i + 4], 4);
    } else {
      n := SourceCharacterLen(s, i);
      OneCharacter(s, i, n);
    }
  }

  /** What is scanned before the end is text. */
  lemma {:induction false} BlockTextIsUtf8(s: bytes, i: nat)
    requires i <= |s| && BlockEnd(s, i).Ok?
    ensures i <= BlockEnd(s, i).next - 3 && IsUtf8(s[i..BlockEnd(s, i).next - 3])
    decreases |s| - i
  {
    hide IsUtf8, HasPrefixAt;
    if HasPrefixAt(s, i, TRIPLE) {
      assert s[i..i] == [];
      NoText();
    } else {
      hide BlockEnd;
      var n := BlockUnit(s, i);
      BlockTextIsUtf8(s, i + n);
      var e := BlockEnd(s, i).next - 3;
      TextCat(s[i..i + n], s[i + n..e]);
      assert s[i..e] == s[i..i + n] + s[i + n..e];
    }
  }

  lemma NoText()
    ensures IsUtf8([])
  {
  }

  lemma EscapedIs(s: bytes, i: nat)
    requires i <= |s| && HasPrefixAt(s, i, ESCAPED_TRIPLE)
    ensures i + 4 <= |s| && forall k | i <= k < i + 4 :: s[k] < 0x80
  {
    var t := s[i..i + 4];
    assert t[0] == s[i] && t[1] == s[i + 1] && t[2] == s[i + 2] && t[3] == s[i + 3];
  }

  lemma OneCharacter(s: bytes, i: nat, n: nat)
    requires i < |s| && n == SourceCharacterLen(s, i) > 0
    ensures IsUtf8(s[i..i + n])
  {
    hide SourceCharacterLen;
    var t := s[i..i + n];
    assert t <= s[i..];
    CharacterMoves(s, i, t);
    assert t[n..] == [];
  }

  // ----- What BlockStringValue makes of it

  lemma {:induction false} UnquoteRun(a: bytes, u: bytes)
    requires forall k | 0 <= k < |a| :: a[k] != BACKSLASH
    ensures Unquote(a + u) == a + Unquote(u)
  {
    hide Unquote;
    if a == [] {
      assert a + u == u;
    } else {
      assert ([a[0]] + (a[1..] + u))[0] == a[0];
      UnquoteRun(a[1..], u);
      UnquotePush(a[0], a[1..] + u);
      assert a + u == [a[0]] + (a[1..] + u);
    }
  }

  lemma {:induction false} LinesRun(a: bytes, u: bytes)
    requires forall k | 0 <= k < |a| :: !IsLineTerminatorByte(a[k])
    ensures Lines(a + u) == [a + Lines(u)[0]] + Lines(u)[1..]
  {
    hide Lines;
    if a == [] {
      assert a + u == u && a + Lines(u)[0] == Lines(u)[0];
    } else {
      assert [a[0]] + (a[1..] + Lines(u)[0]) == a + Lines(u)[0];
      LinesRun(a[1..], u);
      LinesPush(a[0], a[1..] + u);
      assert a + u == [a[0]] + (a[1..] + u);
    }
  }

  /** A text is empty, or a character and a text; only an ASCII character is one byte. */
  lemma FirstCharacter(t: bytes) returns (a: bytes, u: bytes)
    requires t != [] && IsUtf8(t)
    ensures t == a + u && a != [] && IsUtf8(a) && IsUtf8(u)
    ensures |a| == 1 || forall k | 0 <= k < |a| :: a[k] >= 0x80
    ensures t[0] < 0x80 ==> a == [t[0]]
  {
    var n := SourceCharacterLen(t, 0);
    a, u := t[..n], t[n..];
    OneCharacter(t, 0, n);
    assert t[0..n] == a && (n == 1 ==> a == [t[0]]);
    assert forall k | 0 <= k < |a| :: a[k] == t[k];
  }

  lemma {:induction false} UnquoteIsUtf8(t: bytes)
    requires IsUtf8(t)
    ensures IsUtf8(Unquote(t))
    decreases |t|
  {
    hide IsUtf8, Unquote;
    if t == [] {
      assert Unquote([]) == [] by { UnquoteNothing(); }
    } else if ESCAPED_TRIPLE <= t {
      UnquoteEscaped(t[4..]);
      assert t == ESCAPED_TRIPLE + t[4..];
      AsciiCut(t, 4);
      UnquoteIsUtf8(t[4..]);
      AsciiCut(Unquote(t), 3);
      assert Unquote(t)[3..] == Unquote(t[4..]);
    } else {
      var a, u := FirstCharacter(t);
      UnquoteIsUtf8(u);
      TextCat(a, Unquote(u));
      if |a| == 1 {
        assert a == [a[0]];
        UnquotePush(a[0], u);
      } else {
        UnquoteRun(a, u);
      }
    }
  }

  lemma UnquoteNothing()
    ensures Unquote([]) == []
  {
  }

  lemma OneMore(line: bytes, lines: seq<bytes>)
    requires IsUtf8(line) && AllUtf8(lines)
    ensures AllUtf8([line] + lines)
  {
    hide IsUtf8;
  }

  lemma {:induction false} LinesAreUtf8(t: bytes)
    requires IsUtf8(t)
    ensures AllUtf8(Lines(t))
    decreases |t|
  {
    hide IsUtf8, Lines;
    if t == [] {
      OneLine(t);
    } else if IsLineTerminatorByte(t[0]) {
      var n := LineTerminatorLen(t, 0);
      AsciiCut(t, n);
      LinesAreUtf8(t[n..]);
      LinesTerminator(t);
      NoText();
      OneMore([], Lines(t[n..]));
    } else {
      var a, u := FirstCharacter(t);
      assert a[0] == t[0];
      LinesAreUtf8(u);
      LinesRun(a, u);
      TextCat(a, Lines(u)[0]);
      OneMore(a + Lines(u)[0], Lines(u)[1..]);
    }
  }

  /** The indentation that comes off a line is WhiteSpace. */
  lemma UnindentIsUtf8(line: bytes, n: nat)
    requires IsUtf8(line) && (IsBlank(line) || n <= Indent(line))
    ensures IsUtf8(Unindent(line, n))
  {
    hide IsUtf8;
    NoText();
    if n <= |line| {
      AsciiCut(line, n);
    }
  }

  lemma DedentIsUtf8(lines: seq<bytes>)
    requires lines != [] && AllUtf8(lines)
    ensures AllUtf8(Dedent(lines))
  {
    hide IsUtf8, CommonIndent, Unindent;
    var rest := lines[1..];
    var n := OrZero(CommonIndent(rest));
    CommonIndentFits(rest);
    var d := Dedent(lines);
    forall k | 0 < k < |lines| ensures IsUtf8(d[k]) {
      assert rest[k - 1] == lines[k];
      UnindentIsUtf8(lines[k], n);
      assert d[k] == UnindentAll(rest, n)[k - 1];
    }
  }

  lemma {:induction false} DropLeadingIsUtf8(lines: seq<bytes>)
    requires AllUtf8(lines)
    ensures AllUtf8(DropLeadingBlank(lines))
  {
    hide IsUtf8, IsBlank;
    if lines != [] && IsBlank(lines[0]) {
      DropLeadingIsUtf8(lines[1..]);
    }
  }

  lemma {:induction false} DropTrailingIsUtf8(lines: seq<bytes>)
    requires AllUtf8(lines)
    ensures AllUtf8(DropTrailingBlank(lines))
  {
    hide IsUtf8, IsBlank;
    if lines != [] && IsBlank(lines[|lines| - 1]) {
      DropTrailingIsUtf8(lines[..|lines| - 1]);
    }
  }

  lemma {:induction false} JoinIsUtf8(lines: seq<bytes>)
    requires AllUtf8(lines)
    ensures IsUtf8(Join(lines))
  {
    hide IsUtf8;
    NoText();
    if |lines| > 1 {
      JoinIsUtf8(lines[1..]);
      AsciiText(LF);
      TextCat([LF], Join(lines[1..]));
      TextCat(lines[0], [LF] + Join(lines[1..]));
      assert Join(lines) == lines[0] + ([LF] + Join(lines[1..]));
    }
  }

  lemma BlockValueIsUtf8(t: bytes)
    requires IsUtf8(t)
    ensures IsUtf8(BlockStringValue(Unquote(t)))
  {
    hide IsUtf8, Lines, Unquote, Dedent, DropLeadingBlank, DropTrailingBlank, Join, AllUtf8;
    UnquoteIsUtf8(t);
    var lines := Lines(Unquote(t));
    LinesAreUtf8(Unquote(t));
    DedentIsUtf8(lines);
    DropLeadingIsUtf8(Dedent(lines));
    DropTrailingIsUtf8(DropLeadingBlank(Dedent(lines)));
    JoinIsUtf8(DropTrailingBlank(DropLeadingBlank(Dedent(lines))));
  }

  /** The value of a string token, block string or not, is UTF-8. */
  lemma StringIsUtf8(s: bytes, i: nat)
    requires i < |s| && s[i] == QUOTE && Descent.StringToken(s, i).Ok?
    ensures IsUtf8(Descent.StringToken(s, i).v)
  {
    hide IsUtf8, BlockStringValue, BlockEnd, Contents, EncodeAll;
    if HasPrefixAt(s, i, TRIPLE) {
      BlockTextIsUtf8(s, i + 3);
      BlockValueIsUtf8(s[i + 3..BlockEnd(s, i + 3).next - 3]);
    } else {
      EncodedIsUtf8(Contents(s, i + 1).v);
    }
  }
}
