/**
 Which bytes make no difference between tokens, byte by byte: section "Ignored Tokens" of the
 September 2025 GraphQL specification.
 */
module Layout {
  import opened Bytes
  import opened Lexical
  import opened Utf8
  import opened BlockString
  import opened Grammar
  import opened Locality
  import opened Suffix
  import opened Parsing
  import Documents
  import Positions
  import StringLine

  // ----- Between tokens

  /** A hash, any text on one line, and a line feed. */
  predicate IsCommentLine(w: bytes) {
    && |w| >= 2 && w[0] == 0x23 && w[|w| - 1] == 0x0a && IsUtf8(w[1..|w| - 1])
    && forall k | 1 <= k < |w| - 1 :: w[k] != 0x0a && w[k] != 0x0d
  }

  /** What may stand in place of a space between two tokens. */
  predicate IsGap(w: bytes) {
    || w == [0x20] || w == [0x09] || w == [0x0a] || w == [0x0d] || w == [0x0d, 0x0a] || w == [0x2c]
    || w == [0xef, 0xbb, 0xbf] || IsCommentLine(w)
  }

  /** The source is empty or its last byte ends a token. */
  ghost predicate EndsInToken(a: bytes) {
    exists ts: seq<Token> :: Runs(a, 0, ts, |a|)
  }

  lemma SkipTokens(s: bytes, i: nat, j: nat)
    requires i <= |s| && j <= |s| && Skip(s, i) == Skip(s, j)
    ensures Tokens(s, i) == Tokens(s, j)
  {
    hide Skip, Lex;
  }

  lemma {:induction false} CommentReach(s: bytes, i: nat, j: nat)
    requires i <= j < |s| && IsUtf8(s[i..j]) && s[j] == 0x0a && forall k | i <= k < j :: s[k] != 0x0a && s[k] != 0x0d
    ensures CommentEnd(s, i) == j
    decreases j - i
  {
    hide SourceCharacterLen;
    if i < j {
      var t := s[i..j];
      assert t <= s[i..];
      CharacterMoves(s, i, t);
      var n := SourceCharacterLen(t, 0);
      assert t[n..] == s[i + n..j];
      CommentReach(s, i + n, j);
    }
  }

  /** The first Ignored token of a gap, and the next. */
  lemma GapSkipped(w: bytes, c: bytes)
    requires IsGap(w)
    ensures Skip(w + c, 0) == Skip(w + c, |w|)
  {
    var s := w + c;
    if w == [0x0d, 0x0a] {
      assert IgnoredEnd(s, 0) == 1 && IgnoredEnd(s, 1) == 2;
    } else if w == [0xef, 0xbb, 0xbf] {
      assert s[0..3] == BOM;
    } else if |w| == 1 {
      assert IgnoredEnd(s, 0) == 1;
    } else {
      CommentSkipped(w, c);
    }
  }

  lemma CommentSkipped(w: bytes, c: bytes)
    requires IsCommentLine(w)
    ensures Skip(w + c, 0) == Skip(w + c, |w|)
  {
    hide CommentEnd, IsUtf8;
    var s, j := w + c, |w| - 1;
    assert s[1..j] == w[1..j];
    CommentReach(s, 1, j);
    assert IgnoredEnd(s, 0) == j && IgnoredEnd(s, j) == j + 1;
  }

  lemma GapTokens(w: bytes, c: bytes)
    requires IsGap(w)
    ensures Tokens(w + c, 0) == Tokens(c, 0)
  {
    hide Skip, Tokens, IsGap;
    GapSkipped(w, c);
    SkipTokens(w + c, 0, |w|);
    TokensTail(w + c, |w|, c, 0);
  }

  lemma GapAgrees(a: bytes, w: bytes, c: bytes)
    requires IsGap(w)
    ensures Agree(a, a + w + c, |a|)
  {
    var t := a + w + c;
    assert t[|a|] == w[0];
  }

  /** After a token, or at the beginning, a gap is as good as a space, whatever comes next. */
  lemma GapIsSpace(a: bytes, w: bytes, c: bytes)
    requires EndsInToken(a) && IsGap(w)
    ensures Tokens(a + w + c, 0) == Tokens(a + [0x20] + c, 0)
  {
    hide Runs, Agree, Tokens;
    var ts :| Runs(a, 0, ts, |a|);
    GapRead(a, ts, w, c);
    GapRead(a, ts, [0x20], c);
  }

  /** So the parser makes the same of both sources. */
  lemma GapChangesNothing(a: bytes, w: bytes, c: bytes, o: Options)
    requires EndsInToken(a) && IsGap(w)
    ensures Documents.SameVerdict(Reading(a + w + c, o), Reading(a + [0x20] + c, o))
  {
    hide *;
    GapIsSpace(a, w, c);
    Documents.LayoutDoesNotMatter(a + w + c, a + [0x20] + c, o);
  }

  lemma GapRead(a: bytes, ts: seq<Token>, w: bytes, c: bytes)
    requires Runs(a, 0, ts, |a|) && IsGap(w)
    ensures Tokens(a + w + c, 0) == if Tokens(c, 0).None? then None else Some(ts + Tokens(c, 0).value)
  {
    hide Runs, Agree, Tokens, IsGap;
    var t := a + w + c;
    GapAgrees(a, w, c);
    RunsSame(a, t, |a|, 0, ts);
    assert t[|a|..] == (w + c)[0..];
    TokensTail(t, |a|, w + c, 0);
    GapTokens(w, c);
  }

  /** What a byte is on its own: ignored, a punctuator, a Name, an IntValue, or nothing. */
  lemma EveryByte(b: byte)
    ensures Tokens([b], 0) ==
            if b == 0x09 || b == 0x0a || b == 0x0d || b == 0x20 || b == 0x2c || b == 0x23 then Some([])
            else if b == 0x21 || b == 0x24 || b == 0x26 || b == 0x28 || b == 0x29 || b == 0x3a || b == 0x3d || b == 0x40
                    || b == 0x5b || b == 0x5d || b == 0x7b || b == 0x7c || b == 0x7d then Some([Punct(b)])
            else if 0x41 <= b <= 0x5a || b == 0x5f || 0x61 <= b <= 0x7a then Some([NameToken([b])])
            else if 0x30 <= b <= 0x39 then Some([IntToken([b])])
            else None
  {
    hide Lex, Skip;
    var s := [b];
    AloneSkips(b);
    AloneLexed(b);
    assert Tokens(s, 1) == Some([]);
    if Lex(s, 0).Ok? {
      assert [Lex(s, 0).v] + [] == [Lex(s, 0).v];
    }
  }

  lemma AloneSkips(b: byte)
    ensures Skip([b], 0) ==
            if b == 0x09 || b == 0x0a || b == 0x0d || b == 0x20 || b == 0x2c || b == 0x23 then 1 else 0
    ensures Skip([b], 1) == 1
  {
    var s := [b];
    assert CommentEnd(s, 1) == 1;
    assert IgnoredEnd(s, 1) == 1;
  }

  lemma AloneLexed(b: byte)
    ensures Lex([b], 0) ==
            if b == 0x21 || b == 0x24 || b == 0x26 || b == 0x28 || b == 0x29 || b == 0x3a || b == 0x3d || b == 0x40
               || b == 0x5b || b == 0x5d || b == 0x7b || b == 0x7c || b == 0x7d then Ok(Punct(b), 1)
            else if 0x41 <= b <= 0x5a || b == 0x5f || 0x61 <= b <= 0x7a then Ok(NameToken([b]), 1)
            else if 0x30 <= b <= 0x39 then Ok(IntToken([b]), 1)
            else if b == 0x2d then Err(MalformedNumber, 0)
            else if b == 0x22 then Err(UnexpectedEOF, 1)
            else Err(UnexpectedToken, 0)
  {
    var s := [b];
    assert s[0..1] == s;
    assert NameEnd(s, 1) == 1 && DigitsEnd(s, 1) == 1;
    assert StringLine.Contents(s, 1) == Err(UnexpectedEOF, 1);
  }

  /** Those five bytes, and no other, are as good as a space at the beginning. */
  lemma GapBytesOnly(b: byte)
    ensures (forall c: bytes :: Tokens([b] + c, 0) == Tokens([0x20] + c, 0))
            <==> b == 0x09 || b == 0x0a || b == 0x0d || b == 0x20 || b == 0x2c
  {
    hide Tokens;
    if b == 0x09 || b == 0x0a || b == 0x0d || b == 0x20 || b == 0x2c {
      forall c: bytes ensures Tokens([b] + c, 0) == Tokens([0x20] + c, 0) {
        GapTokens([b], c);
        GapTokens([0x20], c);
      }
    } else if b == 0x23 {
      HashHides();
      GapTokens([0x20], [0x61]);
      EveryByte(0x61);
      assert Tokens([0x23] + [0x61], 0) != Tokens([0x20] + [0x61], 0);
    } else {
      EveryByte(b);
      EveryByte(0x20);
      assert [b] + [] == [b] && [0x20] + [] == [0x20];
      assert Tokens([b] + [], 0) != Tokens([0x20] + [], 0);
    }
  }

  lemma HashHides()
    ensures Tokens([0x23] + [0x61], 0) == Some([])
  {
    var s: bytes := [0x23] + [0x61];
    assert CommentEnd(s, 2) == 2;
    assert CommentEnd(s, 1) == 2;
    assert Skip(s, 0) == 2;
  }

  // ----- Within a block string

  /** The indentation of a line are its leading spaces and tabs. */
  lemma {:induction false} IndentExactly(w: bytes, rest: bytes)
    requires forall k | 0 <= k < |w| :: w[k] == 0x20 || w[k] == 0x09
    requires rest != [] ==> rest[0] != 0x20 && rest[0] != 0x09
    ensures Indent(w + rest) == |w|
    ensures IsBlank(w + rest) <==> rest == []
  {
    if w == [] {
      assert w + rest == rest;
    } else {
      IndentExactly(w[1..], rest);
      assert (w + rest)[1..] == w[1..] + rest;
      if rest != [] {
        assert (w + rest)[|w|] == rest[0];
      }
    }
  }

  /** A line feed, a carriage return with one or without. */
  predicate IsLineEnd(e: bytes, rest: bytes) {
    e == [0x0a] || e == [0x0d, 0x0a] || (e == [0x0d] && (rest == [] || rest[0] != 0x0a))
  }

  lemma LineEnds(e: bytes, rest: bytes)
    requires IsLineEnd(e, rest)
    ensures Lines(e + rest) == [[]] + Lines(rest)
  {
    hide Lines;
    Positions.LinesStep(e + rest);
    var s := e + rest;
    if e == [0x0d, 0x0a] {
      assert s[0..2] == e && s[1..][1..] == rest;
    } else {
      assert s[1..] == rest;
      if |s| >= 2 {
        assert s[0..2][0] == e[0] && s[0..2][1] == rest[0];
      }
    }
  }

  lemma LineGrows(b: byte, s: bytes)
    requires b != 0x0a && b != 0x0d
    ensures Lines([b] + s) == [[b] + Lines(s)[0]] + Lines(s)[1..]
  {
    assert ([b] + s)[1..] == s;
  }

  lemma OneLine()
    ensures Lines([]) == [[]]
  {
  }

  lemma LinesAdd(b: byte, line: bytes, more: seq<bytes>)
    ensures [[b] + ([line] + more)[0]] + ([line] + more)[1..] == [[b] + line] + more
  {
    assert ([line] + more)[1..] == more;
  }

  lemma {:induction false} LineEnded(line: bytes, e: bytes, rest: bytes)
    requires IsLineEnd(e, rest) && forall k | 0 <= k < |line| :: line[k] != 0x0a && line[k] != 0x0d
    ensures Lines(line + (e + rest)) == [line] + Lines(rest)
  {
    hide Lines, IsLineEnd;
    if line == [] {
      LineEnds(e, rest);
      NoBytes(e + rest);
      assert line + (e + rest) == e + rest;
    } else {
      LineEnded(line[1..], e, rest);
      Split(line, e + rest);
      LineGrows(line[0], line[1..] + (e + rest));
      LinesAdd(line[0], line[1..], Lines(rest));
      assert Lines([line[0]] + (line[1..] + (e + rest))) == [[line[0]] + line[1..]] + Lines(rest);
    }
  }

  lemma Split(line: bytes, s: bytes)
    requires line != []
    ensures [line[0]] + line[1..] == line && [line[0]] + (line[1..] + s) == line + s
  {
  }

  lemma {:induction false} LastLine(line: bytes)
    requires forall k | 0 <= k < |line| :: line[k] != 0x0a && line[k] != 0x0d
    ensures Lines(line) == [line]
  {
    hide Lines;
    if line == [] {
      OneLine();
    } else {
      LastLine(line[1..]);
      Split(line, []);
      LineGrows(line[0], line[1..]);
      LinesAdd(line[0], line[1..], []);
      assert [line[1..]] + [] == [line[1..]] && [line] + [] == [line];
    }
  }

  /** Lines end at a line feed, a carriage return, or both, and nowhere else. */
  lemma LinesExactly(line: bytes, rest: bytes)
    requires forall k | 0 <= k < |line| :: line[k] != 0x0a && line[k] != 0x0d
    ensures Lines(line) == [line]
    ensures Lines(line + ([0x0a] + rest)) == [line] + Lines(rest)
    ensures Lines(line + ([0x0d, 0x0a] + rest)) == [line] + Lines(rest)
    ensures (rest == [] || rest[0] != 0x0a) ==> Lines(line + ([0x0d] + rest)) == [line] + Lines(rest)
  {
    hide Lines;
    LastLine(line);
    LineEnded(line, [0x0a], rest);
    LineEnded(line, [0x0d, 0x0a], rest);
    if rest == [] || rest[0] != 0x0a {
      LineEnded(line, [0x0d], rest);
    }
  }
}
