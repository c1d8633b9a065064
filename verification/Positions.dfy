/** Position: the line and the column of an offset. */
module Positions {
  import opened Bytes
  import opened Lexical
  import opened Utf8
  import opened BlockString

  function Count(s: bytes, b: byte): nat {
    if s == [] then 0 else Count(s[1..], b) + if s[0] == b then 1 else 0
  }

  /** How often CR LF occurs. */
  function CountPairs(s: bytes): nat {
    if s == [] then 0 else CountPairs(s[1..]) + if HasPrefixAt(s, 0, [CR, LF]) then 1 else 0
  }

  /** The index after the last b, or 0. */
  function AfterLast(s: bytes, b: byte): (n: nat)
    ensures n <= |s|
  {
    if s == [] then 0
    else if AfterLast(s[1..], b) > 0 || s[0] == b then 1 + AfterLast(s[1..], b)
    else 0
  }

  /** Characters; a malformed byte counts as one. */
  function RuneCount(s: bytes): nat {
    if s == [] then 0
    else 1 + RuneCount(s[if SourceCharacterLen(s, 0) == 0 then 1 else SourceCharacterLen(s, 0)..])
  }

  function Head(src: bytes, offset: nat): bytes {
    if offset <= |src| then src[..offset] else src
  }

  function LineStart(head: bytes): (n: nat)
    ensures n <= |head|
  {
    if AfterLast(head, LF) >= AfterLast(head, CR) then AfterLast(head, LF) else AfterLast(head, CR)
  }

  function Position(src: bytes, offset: int): (int, int) {
    if offset < 0 then (0, 0)
    else
      var head := Head(src, offset);
      (1 + Count(head, LF) + Count(head, CR) - CountPairs(head), RuneCount(head[LineStart(head)..]) + 1)
  }

  /** Lines, with its first step taken. */
  lemma LinesStep(t: bytes)
    requires t != []
    ensures var u, ls := t[1..], Lines(t[1..]);
            Lines(t) == if HasPrefixAt(t, 0, [CR, LF]) then [[]] + Lines(u[1..])
                        else if IsLineTerminatorByte(t[0]) then [[]] + ls
                        else [[t[0]] + ls[0]] + ls[1..]
  {
    assert HasPrefixAt(t, 0, [CR, LF]) <==> |t| > 1 && t[0] == CR && t[1] == LF by {
      if |t| > 1 {
        assert t[0..2] == [t[0], t[1]];
      }
    }
    if |t| > 1 {
      assert t[1..][1..] == t[2..];
    }
  }

  /** Counting the bytes and the pairs counts the lines. */
  lemma {:induction false} LinesCounted(t: bytes)
    ensures |Lines(t)| == 1 + Count(t, LF) + Count(t, CR) - CountPairs(t)
  {
    if t != [] {
      var u := t[1..];
      LinesStep(t);
      LinesCounted(u);
      hide Lines;
      if HasPrefixAt(t, 0, [CR, LF]) {
        assert t[..2][0] == CR && t[..2][1] == LF;
        LinesStep(u);
        assert !HasPrefixAt(u, 0, [CR, LF]);
      }
    }
  }

  /** The last line begins after the last LineTerminator. */
  lemma {:induction false} LastLine(t: bytes)
    ensures Lines(t)[|Lines(t)| - 1] == t[LineStart(t)..]
    ensures LineStart(t) > 0 <==> |Lines(t)| > 1
  {
    if t != [] {
      var u := t[1..];
      LinesStep(t);
      LastLine(u);
      hide Lines;
      if HasPrefixAt(t, 0, [CR, LF]) {
        assert t[..2][0] == CR && t[..2][1] == LF;
        LinesStep(u);
        assert !HasPrefixAt(u, 0, [CR, LF]);
      }
      if LineStart(t) > 0 {
        assert LineStart(t) == 1 + LineStart(u);
        assert t[LineStart(t)..] == u[LineStart(u)..];
      }
    }
  }

  /** A position is the number of lines up to the offset, and one more than the characters of
      the last. */
  lemma PositionExactly(src: bytes, offset: nat)
    ensures var ls := Lines(Head(src, offset));
            Position(src, offset) == (|ls|, RuneCount(ls[|ls| - 1]) + 1)
  {
    hide Lines, Count, CountPairs, RuneCount, LineStart, Head;
    LinesCounted(Head(src, offset));
    LastLine(Head(src, offset));
  }

  /** Every character of a text counts as one. */
  lemma {:induction false} RunesCounted(vs: seq<scalar>, rest: bytes)
    ensures RuneCount(EncodeAll(vs) + rest) == |vs| + RuneCount(rest)
    ensures RuneCount(EncodeAll(vs)) == |vs|
    decreases |vs|
  {
    hide Encode, SourceCharacterLen;
    if vs == [] {
      NoBytes(rest);
    } else {
      var e, more := Encode(vs[0]), EncodeAll(vs[1..]);
      RunesCounted(vs[1..], rest);
      Assoc(e, more, rest);
      DecodeEncode(vs[0], more + rest);
      DecodeEncode(vs[0], more);
      assert (e + (more + rest))[|e|..] == more + rest && (e + more)[|e|..] == more;
    }
  }

  /** A byte that begins no character counts as one. */
  lemma MalformedCounted(s: bytes)
    requires s != [] && forall v: scalar :: !(Encode(v) <= s)
    ensures RuneCount(s) == 1 + RuneCount(s[1..])
  {
    hide Encode;
    assert s[0..] == s;
    SourceCharacterIs(s, 0, SourceCharacterLen(s, 0));
  }
}
