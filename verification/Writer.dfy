/** The buffered, mutable writer that the state machine hands its tokens to. */
module Output {
  import opened Bytes
  import opened Lexical
  import opened StringLine
  import opened BlockString
  import opened Canonical
  import opened Utf8
  import opened UnicodeEsc
  import opened BlockLines
  import opened StringText
  import opened Scanner

  /** With out written so far and rest still to be written, all is to be written after before. */
  predicate IsPending(out: bytes, mute: nat, before: bytes, all: bytes, rest: bytes) {
    if mute == 0 then out + rest == before + all else out == before
  }

  lemma PendingStarts(out: bytes, mute: nat, all: bytes)
    ensures IsPending(out, mute, out, all, all)
  {
  }

  /** A piece that was to be written is written. */
  lemma PendingGoesOn(out: bytes, mute: nat, before: bytes, all: bytes, piece: bytes, rest: bytes)
    requires IsPending(out, mute, before, all, piece + rest)
    ensures IsPending(if mute == 0 then out + piece else out, mute, before, all, rest)
  {
    Assoc(out, piece, rest);
  }

  lemma PendingEnds(out: bytes, mute: nat, before: bytes, all: bytes)
    requires IsPending(out, mute, before, all, [])
    ensures out == if mute == 0 then before + all else before
  {
    NoBytes(out);
  }

  class Writer {
    var buf: bytes
    /** How many reasons there are not to write. */
    var mute: nat

    /** The buffer is a reused one, cut to nothing. */
    constructor (retained: bytes)
      ensures buf == [] && mute == 0
    {
      buf, mute := retained[..0], 0;
    }

    method WriteByte(b: byte)
      modifies this`buf
      ensures buf == if mute == 0 then old(buf) + ([b]) else old(buf)
    {
      if mute == 0 {
        buf := buf + [b];
      }
    }

    method Str(s: bytes)
      modifies this`buf
      ensures buf == if mute == 0 then old(buf) + (s) else old(buf)
    {
      if mute == 0 {
        buf := buf + s;
      }
    }

    method Tok(prefix: byte, s: bytes)
      modifies this`buf
      ensures buf == if mute == 0 then old(buf) + ([prefix] + s) else old(buf)
    {
      if mute != 0 {
        return;
      }
      buf := (buf + [prefix]) + s;
      assert buf == old(buf) + ([prefix] + s);
    }

    method NameTok(prefix: byte, s: bytes, start: nat) returns (i: nat)
      requires start < |s|
      modifies this`buf
      ensures i == NameEnd(s, start + 1)
      ensures buf == if mute == 0 then old(buf) + ([prefix] + s[start..i]) else old(buf)
    {
      i := ScanNameEnd(s, start + 1);
      Tok(prefix, s[start..i]);
    }

    method NameStr(s: bytes, start: nat) returns (i: nat)
      requires start < |s|
      modifies this`buf
      ensures i == NameEnd(s, start + 1)
      ensures buf == if mute == 0 then old(buf) + (s[start..i]) else old(buf)
    {
      i := ScanNameEnd(s, start + 1);
      Str(s[start..i]);
    }

    /** esc: writes b as its escape sequence. */
    method Esc(b: byte)
      requires NeedsEscape(b)
      modifies this`buf
      ensures buf == if mute == 0 then old(buf) + EscapeByte(b) else old(buf)
    {
      if mute == 0 {
        buf := buf + EscapeByte(b);
      }
    }

    method StrByte(b: byte)
      modifies this`buf
      ensures buf == if mute == 0 then old(buf) + EscapeByte(b) else old(buf)
    {
      if NeedsEscape(b) {
        Esc(b);
        return;
      }
      WriteByte(b);
    }

    /** Writes a code point as UTF-8, byte by byte. */
    method StrRune(v: scalar)
      modifies this`buf
      ensures buf == if mute == 0 then old(buf) + Escape(Encode(v)) else old(buf)
    {
      var b, k := Encode(v), 0;
      NoBytes(buf);
      while k < |b|
        invariant k <= |b|
        invariant buf == if mute == 0 then old(buf) + Escape(b[..k]) else old(buf)
      {
        EscapePush(b, k);
        assert old(buf) + (Escape(b[..k]) + EscapeByte(b[k])) == old(buf) + Escape(b[..k]) + EscapeByte(b[k]);
        StrByte(b[k]);
        k := k + 1;
      }
      assert b[..k] == b;
    }

    /** Writes the value of the single-line string between the quotes at lo - 1 and hi. */
    method StringValue(s: bytes, lo: nat, hi: nat, esc: bool)
      requires lo <= hi < |s| && Contents(s, lo).Ok? && Contents(s, lo).next == hi + 1
      requires esc == (BACKSLASH in s[lo..hi])
      modifies this`buf
      ensures buf == if mute == 0 then old(buf) + Escape(EncodeAll(Contents(s, lo).v)) else old(buf)
    {
      hide Contents, TextFrom, Escape, EncodeAll, Encode, Character;
      TextFromIs(s, lo);
      TextEnds(s, lo, hi);
      if !esc {
        TextPlain(s, lo, hi, hi);
        NoBytes(s[lo..hi]);
        Str(s[lo..hi]);
        return;
      }
      var p := lo;
      while true
        invariant lo <= p && Closes(s, p, hi)
        invariant Pending(old(buf), TextFrom(s, lo), TextFrom(s, p))
        decreases hi - p
      {
        var i := NextBackslash(s, p, hi);
        TextPlain(s, p, i, hi);
        Assoc(buf, s[p..i], TextFrom(s, i));
        Str(s[p..i]);
        if i == hi {
          NoBytes(buf);
          return;
        }
        TextPush(s, i, hi);
        Assoc(buf, Escape(Encode(Character(s, i).v)), TextFrom(s, Character(s, i).next));
        p := EscapedCharacter(s, i);
      }
    }

    /** What is written so far and what is still to be written make up all there is to write. */
    ghost predicate Pending(before: bytes, all: bytes, rest: bytes)
      reads this
    {
      IsPending(buf, mute, before, all, rest)
    }

    /** Writes the escape sequence at p and returns where it ends. */
    method EscapedCharacter(s: bytes, p: nat) returns (next: nat)
      requires p < |s| && s[p] == BACKSLASH && Character(s, p).Ok?
      modifies this`buf
      ensures next == Character(s, p).next
      ensures buf == if mute == 0 then old(buf) + Escape(Encode(Character(s, p).v)) else old(buf)
    {
      hide Escape, Encode, IsHex4, Value, HexEnd, HexValue, Pair;
      if SimpleEscape(s[p + 1]).Some? {
        SimpleCharacterIs(s, p);
        StrByte(SimpleEscape(s[p + 1]).value);
        return p + 2;
      }
      var v: nat;
      if s[p + 2] == LBRACE {
        v, next := BracedValue(s, p);
      } else {
        v := Value(s, p + 2);
        next := p + 6;
        if IsLeadingSurrogate(v) {
          v := Pair(v, Value(s, next + 2));
          next := next + 6;
        }
      }
      StrRune(v);
    }

    // ----- Block strings

    /** Writes the BlockStringValue of the text between the delimiters: one pass over the lines. */
    method BlockStringValue(text: bytes, prefixLen: nat)
      requires HasContent(text) && prefixLen == CommonPrefix(text)
      modifies this`buf
      ensures buf == if mute == 0 then old(buf) + Escape(BlockString.BlockStringValue(Unquote(text))) else old(buf)
    {
      hide Lines, HasContent, CommonPrefix, DropTrailingBlank, DropLeadingBlank, DedentBy, JoinText, LineText,
           IsBlank, Indent, RestFits, Escape, BlockString.BlockStringValue, IsPending, TextAfter, FitsAfter;
      BlockTextWritten(text, prefixLen);
      var s := TrimEmptyLinesSuffix(text);
      DropTrailingFits(Lines(text), prefixLen);
      ghost var all := Escape(BlockString.BlockStringValue(Unquote(text)));
      var i, firstLineIsEmpty := LineEnd(s, 0);
      assert s[0..i] == s[..i];
      FirstLine(s, i, prefixLen);
      PendingStarts(buf, mute, all);
      var contentSeen, firstLine := !firstLineIsEmpty, true;
      if !firstLineIsEmpty {
        PendingGoesOn(buf, mute, old(buf), all, LineText(s[..i]), TextAfter(s, i, prefixLen, true));
        BlockStringLine(s[..i]);
        firstLine := false;
      }
      while i < |s|
        invariant i <= |s| && (i < |s| ==> IsLineTerminatorByte(s[i])) && firstLine == !contentSeen
        invariant FitsAfter(s, i, prefixLen) && Pending(old(buf), all, TextAfter(s, i, prefixLen, contentSeen))
        decreases |s| - i
      {
        ghost var terminator := i;
        i := i + LineTerminatorLen(s, i);
        ghost var first := i;
        var skipped := 0;
        while i < |s| && skipped < prefixLen && IsWhiteSpace(s[i])
          invariant first <= i <= |s| && skipped == i - first <= prefixLen
          invariant forall m | first <= m < i :: IsWhiteSpace(s[m])
        {
          i, skipped := i + 1, skipped + 1;
        }
        var lineStart := i;
        var blank;
        i, blank := LineEnd(s, i);
        NextLine(s, terminator, lineStart, i, prefixLen, contentSeen);
        if blank && !contentSeen {
          continue;
        }
        if !blank {
          contentSeen := true;
        }
        ghost var line, rest := LineText(s[lineStart..i]), TextAfter(s, i, prefixLen, true);
        PendingGoesOn(buf, mute, old(buf), all, if firstLine then [] else [LF], line + rest);
        NoBytes(buf);
        if !firstLine {
          WriteByte(LF);
        }
        firstLine := false;
        PendingGoesOn(buf, mute, old(buf), all, line, rest);
        BlockStringLine(s[lineStart..i]);
      }
      TextAfterEnd(s, prefixLen, contentSeen);
      PendingEnds(buf, mute, old(buf), all);
    }

    /** Writes one line of a block string, whose only escape is `\"""`. */
    method BlockStringLine(s: bytes)
      modifies this`buf
      ensures buf == if mute == 0 then old(buf) + LineText(s) else old(buf)
    {
      hide LineText, IsPending;
      var start: nat, i: nat := 0, 0;
      PendingStarts(buf, mute, LineText(s));
      NoBytes(LineText(s));
      assert s[0..0] == [] && s[0..] == s;
      while i < |s|
        invariant start <= i <= |s|
        invariant Pending(old(buf), LineText(s), s[start..i] + LineText(s[i..]))
      {
        LineTextStep(s, i);
        if !NeedsEscape(s[i]) {
          LinePlain(s, start, i);
          i := i + 1;
          continue;
        }
        PendingGoesOn(buf, mute, old(buf), LineText(s), s[start..i], LineText(s[i..]));
        Str(s[start..i]);
        if HasPrefixAt(s, i, ESCAPED_TRIPLE) {
          PendingGoesOn(buf, mute, old(buf), LineText(s), TRIPLE, LineText(s[i + 4..]));
          Str(TRIPLE);
          i := i + |ESCAPED_TRIPLE|;
        } else {
          PendingGoesOn(buf, mute, old(buf), LineText(s), EscapeByte(s[i]), LineText(s[i + 1..]));
          Esc(s[i]);
          i := i + 1;
        }
        start := i;
        assert s[start..i] == [];
        NoBytes(LineText(s[i..]));
      }
      PendingGoesOn(buf, mute, old(buf), LineText(s), s[start..i], LineText(s[i..]));
      LineTextNil(s);
      assert s[start..] == s[start..i];
      PendingEnds(if mute == 0 then buf + s[start..] else buf, mute, old(buf), LineText(s));
      Str(s[start..]);
    }
  }

  // ----- Reading the lines

  /** A byte that stands for itself joins those before it. */
  lemma LinePlain(s: bytes, start: nat, i: nat)
    requires start <= i < |s| && LineText(s[i..]) == [s[i]] + LineText(s[i + 1..])
    ensures s[start..i + 1] + LineText(s[i + 1..]) == s[start..i] + LineText(s[i..])
  {
    hide LineText;
    Assoc(s[start..i], [s[i]], LineText(s[i + 1..]));
    assert s[start..i + 1] == s[start..i] + [s[i]];
  }

  /** The value of the `\u{...}` at p, accumulated in 32 bits, and where it ends. */
  method BracedValue(s: bytes, p: nat) returns (v: nat, next: nat)
    requires p + 2 < |s| && s[p + 2] == LBRACE && BracedEscape(s, p).Ok?
    ensures BracedEscape(s, p) == Ok(v, next)
  {
    hide HexValue;
    v := 0;
    var i := p + 3;
    HexValueNone(s, i);
    ghost var j := HexEnd(s, i);
    while s[i] != RBRACE
      invariant p + 3 <= i <= j && v == HexValue(s[p + 3..i])
      decreases j - i
    {
      HexValueStep(s, p + 3, i, j);
      v := WrapShift(v, DigitValue(s[i]));
      i := i + 1;
    }
    next := i + 1;
  }

  /** strings.IndexByte, within the window up to hi. */
  method NextBackslash(s: bytes, p: nat, hi: nat) returns (i: nat)
    requires p <= hi <= |s|
    ensures p <= i <= hi && BACKSLASH !in s[p..i]
    ensures i < hi ==> s[i] == BACKSLASH
  {
    i := p;
    while i < hi && s[i] != BACKSLASH
      invariant p <= i <= hi
      invariant forall k | p <= k < i :: s[k] != BACKSLASH
    {
      i := i + 1;
    }
  }

  /** The end of the line at start, and whether there is only WhiteSpace up to it. */
  method LineEnd(s: bytes, start: nat) returns (i: nat, blank: bool)
    requires start <= |s|
    ensures start <= i <= |s| && (forall k | start <= k < i :: !IsLineTerminatorByte(s[k]))
    ensures i < |s| ==> IsLineTerminatorByte(s[i])
    ensures blank <==> IsBlank(s[start..i])
  {
    i, blank := start, true;
    while i < |s| && LineTerminatorLen(s, i) == 0
      invariant start <= i <= |s| && (forall k | start <= k < i :: !IsLineTerminatorByte(s[k]))
      invariant blank <==> forall k | start <= k < i :: IsWhiteSpace(s[k])
    {
      if !IsWhiteSpace(s[i]) {
        blank := false;
      }
      i := i + 1;
    }
    assert forall k | 0 <= k < i - start :: s[start..i][k] == s[start + k];
    assert forall k | start <= k < i :: s[k] == s[start..i][k - start];
  }

  method ContainsOnlyWhiteSpace(s: bytes) returns (r: bool)
    ensures r <==> IsBlank(s)
  {
    for i := 0 to |s|
      invariant forall k | 0 <= k < i :: IsWhiteSpace(s[k])
    {
      if !IsWhiteSpace(s[i]) {
        return false;
      }
    }
    return true;
  }

  /** The text without the blank lines at its end, scanned from there. */
  method TrimEmptyLinesSuffix(s: bytes) returns (r: bytes)
    requires HasContent(s)
    ensures r <= s && Lines(r) == DropTrailingBlank(Lines(s))
  {
    hide Lines, HasContent, IsBlank;
    AllBlankLines(s);
    var e := |s|;
    assert s[..e] == s;
    while true
      invariant 0 <= e <= |s| && DropTrailingBlank(Lines(s[..e])) == DropTrailingBlank(Lines(s))
      invariant !AllBlank(Lines(s[..e]))
      decreases e
    {
      var termEnd, i: int := -1, e - 1;
      while i >= 0
        invariant -1 <= i < e
        invariant forall k | i < k < e :: !IsLineTerminatorByte(s[k])
      {
        if s[i] == LF || s[i] == CR {
          termEnd := i;
          break;
        }
        i := i - 1;
      }
      if termEnd < 0 {
        OneLine(s[..e]);
        return s[..e];
      }
      var blank := ContainsOnlyWhiteSpace(s[termEnd + 1..e]);
      ghost var k := termEnd + 1;
      ghost var p := if s[termEnd] == LF && termEnd > 0 && s[termEnd - 1] == CR then termEnd - 1 else termEnd;
      LastLineTrimmed(s[..e], p, k);
      assert s[..e][k..] == s[k..e] && s[..e][..p] == s[..p];
      if !blank {
        return s[..e];
      }
      if s[termEnd] == LF && termEnd > 0 && s[termEnd - 1] == CR {
        termEnd := termEnd - 1;
      }
      e := termEnd;
    }
  }
}
