/**
 BlockStringValue() worked out on the raw lines of a text: what comes off, what goes away,
 and what is written of the rest. The writer does this in one pass.
 */
module BlockLines {
  import opened Bytes
  import opened Lexical
  import opened BlockString
  import opened Canonical

  // ----- `\"""` does not change what the lines are

  function UnquoteAll(lines: seq<bytes>): (r: seq<bytes>)
    ensures |r| == |lines|
    ensures forall k | 0 <= k < |lines| :: r[k] == Unquote(lines[k])
  {
    if lines == [] then [] else [Unquote(lines[0])] + UnquoteAll(lines[1..])
  }

  lemma {:induction false} FirstLineIsPrefix(t: bytes)
    ensures Lines(t)[0] <= t
  {
    if t != [] && !IsLineTerminatorByte(t[0]) {
      FirstLineIsPrefix(t[1..]);
    }
  }

  lemma LinesPush(c: byte, u: bytes)
    requires !IsLineTerminatorByte(c)
    ensures Lines([c] + u) == [[c] + Lines(u)[0]] + Lines(u)[1..]
  {
    assert ([c] + u)[1..] == u;
  }

  lemma UnquotePush(c: byte, u: bytes)
    requires !(ESCAPED_TRIPLE <= [c] + u)
    ensures Unquote([c] + u) == [c] + Unquote(u)
  {
    assert ([c] + u)[1..] == u;
  }

  lemma UnquoteEscaped(u: bytes)
    ensures Unquote(ESCAPED_TRIPLE + u) == TRIPLE + Unquote(u)
  {
    assert (ESCAPED_TRIPLE + u)[4..] == u;
  }

  lemma LinesPushTriple(u: bytes)
    ensures Lines(TRIPLE + u) == [TRIPLE + Lines(u)[0]] + Lines(u)[1..]
    ensures Lines(ESCAPED_TRIPLE + u) == [ESCAPED_TRIPLE + Lines(u)[0]] + Lines(u)[1..]
  {
    hide Lines;
    var q, b := [QUOTE], [BACKSLASH];
    LinesPush(QUOTE, u);
    LinesPush(QUOTE, q + u);
    LinesPush(QUOTE, q + (q + u));
    LinesPush(BACKSLASH, q + (q + (q + u)));
    assert q + (q + (q + u)) == TRIPLE + u && b + (q + (q + (q + u))) == ESCAPED_TRIPLE + u;
    var l := Lines(u)[0];
    assert q + (q + (q + l)) == TRIPLE + l && b + (TRIPLE + l) == ESCAPED_TRIPLE + l;
  }

  lemma UnquoteFirst(t: bytes)
    requires t != [] && IsLineTerminatorByte(t[0])
    ensures Unquote(t) != [] && Unquote(t)[0] == t[0]
    ensures LineTerminatorLen(Unquote(t), 0) == LineTerminatorLen(t, 0)
    ensures Unquote(t)[LineTerminatorLen(t, 0)..] == Unquote(t[LineTerminatorLen(t, 0)..])
  {
    assert !(ESCAPED_TRIPLE <= t);
    if |t| > 1 {
      assert Unquote(t[1..])[0] == LF <==> t[1] == LF by {
        if ESCAPED_TRIPLE <= t[1..] {
          assert t[1..][0] == BACKSLASH;
        }
      }
      if t[1] == LF {
        assert t[1..][1..] == t[2..];
      }
    }
  }

  /** Unquoting and splitting into lines may be done in either order. */
  lemma {:induction false} LinesUnquote(t: bytes)
    ensures Lines(Unquote(t)) == UnquoteAll(Lines(t))
    decreases |t|
  {
    if t == [] {
    } else if ESCAPED_TRIPLE <= t {
      var u := t[4..];
      LinesUnquote(u);
      assert t == ESCAPED_TRIPLE + u;
      UnquoteEscaped(u);
      LinesPushTriple(u);
      LinesPushTriple(Unquote(u));
      UnquoteEscaped(Lines(u)[0]);
      assert Lines(Unquote(t)) == UnquoteAll(Lines(t));
    } else if IsLineTerminatorByte(t[0]) {
      LinesUnquote(t[LineTerminatorLen(t, 0)..]);
      UnquoteFirst(t);
    } else {
      var c, u := t[0], t[1..];
      LinesUnquote(u);
      assert t == [c] + u;
      UnquotePush(c, u);
      LinesPush(c, u);
      LinesPush(c, Unquote(u));
      FirstLineIsPrefix(t);
      UnquotePush(c, Lines(u)[0]);
      assert Lines(Unquote(t)) == UnquoteAll(Lines(t));
    }
  }

  lemma {:induction false} UnquoteBlank(line: bytes)
    ensures IsBlank(Unquote(line)) <==> IsBlank(line)
    ensures IsBlank(line) ==> Unquote(line) == line
  {
    if line != [] {
      if ESCAPED_TRIPLE <= line {
        assert line[0] == BACKSLASH && Unquote(line)[0] == QUOTE;
      } else {
        UnquoteBlank(line[1..]);
        var u := Unquote(line);
        assert u == [line[0]] + Unquote(line[1..]);
        assert IsBlank(line) <==> IsWhiteSpace(line[0]) && IsBlank(line[1..]);
        assert IsBlank(u) <==> IsWhiteSpace(u[0]) && IsBlank(u[1..]);
      }
    }
  }

  /** The WhiteSpace that n characters of a line are is the WhiteSpace of the unquoted line. */
  lemma {:induction false} UnquoteIndent(line: bytes, n: nat)
    requires n <= Indent(line)
    ensures n <= |Unquote(line)| && Unquote(line)[n..] == Unquote(line[n..])
    ensures Indent(Unquote(line)) == Indent(line)
  {
    if line != [] && IsWhiteSpace(line[0]) {
      var rest := line[1..];
      UnquoteIndent(rest, if n > 0 then n - 1 else 0);
      UnquoteFirstByte(line);
      IndentPush(line[0], rest);
      IndentPush(line[0], Unquote(rest));
      hide Unquote, Indent;
      assert line == [line[0]] + rest;
      if n > 0 {
        assert rest[n - 1..] == line[n..];
        assert Unquote(line)[n..] == Unquote(rest)[n - 1..];
      }
    } else if line != [] {
      UnquoteFirstByte(line);
    }
  }

  lemma UnquoteFirstByte(line: bytes)
    requires line != []
    ensures IsWhiteSpace(line[0]) ==> Unquote(line) == [line[0]] + Unquote(line[1..])
    ensures !IsWhiteSpace(line[0]) ==> Unquote(line) != [] && !IsWhiteSpace(Unquote(line)[0])
  {
    assert ESCAPED_TRIPLE <= line ==> line[0] == BACKSLASH;
  }

  lemma IndentPush(c: byte, rest: bytes)
    requires IsWhiteSpace(c)
    ensures Indent([c] + rest) == 1 + Indent(rest)
  {
    assert ([c] + rest)[1..] == rest;
  }

  // ----- Indentation

  /** n characters of WhiteSpace can come off every line that is not blank. */
  predicate Fits(lines: seq<bytes>, n: nat) {
    forall k | 0 <= k < |lines| :: IsBlank(lines[k]) || n <= Indent(lines[k])
  }

  lemma {:induction false} CommonIndentFits(lines: seq<bytes>)
    ensures CommonIndent(lines).Some? ==> Fits(lines, CommonIndent(lines).value)
    ensures CommonIndent(lines).None? ==> forall k | 0 <= k < |lines| :: IsBlank(lines[k])
  {
    if lines != [] {
      CommonIndentFits(lines[1..]);
      assert forall k | 0 < k < |lines| :: lines[k] == lines[1..][k - 1];
    }
  }

  lemma {:induction false} CommonIndentUnquote(lines: seq<bytes>)
    ensures CommonIndent(UnquoteAll(lines)) == CommonIndent(lines)
  {
    if lines != [] {
      CommonIndentUnquote(lines[1..]);
      UnquoteBlank(lines[0]);
      UnquoteIndent(lines[0], 0);
      assert UnquoteAll(lines)[1..] == UnquoteAll(lines[1..]);
    }
  }

  lemma UnindentBlank(line: bytes, n: nat)
    requires IsBlank(line) || n <= Indent(line)
    ensures IsBlank(Unindent(line, n)) <==> IsBlank(line)
    ensures Unindent(Unquote(line), n) == Unquote(Unindent(line, n))
  {
    UnquoteBlank(line);
    if n <= |line| {
      UnquoteBlank(line[n..]);
      if IsBlank(line) {
        assert forall k | 0 <= k < |line| - n :: line[n..][k] == line[n + k];
      } else {
        UnquoteIndent(line, n);
        assert exists k | 0 <= k < |line| :: !IsWhiteSpace(line[k]);
        var k :| 0 <= k < |line| && !IsWhiteSpace(line[k]);
        assert line[n..][k - n] == line[k];
      }
    }
  }

  lemma {:induction false} UnindentUnquote(lines: seq<bytes>, n: nat)
    requires Fits(lines, n)
    ensures UnindentAll(UnquoteAll(lines), n) == UnquoteAll(UnindentAll(lines, n))
  {
    forall k | 0 <= k < |lines| ensures UnindentAll(UnquoteAll(lines), n)[k] == UnquoteAll(UnindentAll(lines, n))[k] {
      UnindentBlank(lines[k], n);
    }
  }

  /** n characters come off every line but the first. */
  function DedentBy(lines: seq<bytes>, n: nat): (r: seq<bytes>)
    ensures |r| == |lines|
  {
    if lines == [] then [] else [lines[0]] + UnindentAll(lines[1..], n)
  }

  predicate RestFits(lines: seq<bytes>, n: nat) {
    lines != [] ==> Fits(lines[1..], n)
  }

  lemma DedentUnquote(lines: seq<bytes>)
    requires lines != []
    ensures var n := OrZero(CommonIndent(lines[1..]));
            RestFits(lines, n) && Dedent(UnquoteAll(lines)) == UnquoteAll(DedentBy(lines, n))
  {
    var rest := lines[1..];
    CommonIndentFits(rest);
    CommonIndentUnquote(rest);
    var n := OrZero(CommonIndent(rest));
    UnindentUnquote(rest, n);
    assert UnquoteAll(lines)[1..] == UnquoteAll(rest);
    assert DedentBy(lines, n)[1..] == UnindentAll(rest, n);
    assert Dedent(UnquoteAll(lines)) == UnquoteAll(DedentBy(lines, n));
  }

  // ----- Blank lines at both ends

  lemma {:induction false} DropLeadingUnquote(lines: seq<bytes>)
    ensures DropLeadingBlank(UnquoteAll(lines)) == UnquoteAll(DropLeadingBlank(lines))
  {
    if lines != [] {
      UnquoteBlank(lines[0]);
      DropLeadingUnquote(lines[1..]);
      assert UnquoteAll(lines)[1..] == UnquoteAll(lines[1..]);
    }
  }

  lemma {:induction false} DropTrailingUnquote(lines: seq<bytes>)
    ensures DropTrailingBlank(UnquoteAll(lines)) == UnquoteAll(DropTrailingBlank(lines))
    decreases |lines|
  {
    if lines != [] {
      var n := |lines| - 1;
      UnquoteBlank(lines[n]);
      DropTrailingUnquote(lines[..n]);
      assert UnquoteAll(lines)[..n] == UnquoteAll(lines[..n]);
    }
  }

  predicate AllBlank(lines: seq<bytes>) {
    forall k | 0 <= k < |lines| :: IsBlank(lines[k])
  }

  lemma {:induction false} AllBlankDrops(lines: seq<bytes>)
    requires AllBlank(lines)
    ensures DropLeadingBlank(lines) == []
  {
    if lines != [] {
      AllBlankDrops(lines[1..]);
    }
  }

  /** A first line stays unless all the lines are blank. */
  lemma {:induction false} DropTrailingPush(lines: seq<bytes>)
    requires !AllBlank(lines)
    ensures DropTrailingBlank(lines) == [lines[0]] + DropTrailingBlank(lines[1..])
    decreases |lines|
  {
    var n := |lines| - 1;
    if IsBlank(lines[n]) {
      assert !AllBlank(lines[..n]) by {
        var k :| 0 <= k < |lines| && !IsBlank(lines[k]);
        assert lines[..n][k] == lines[k];
      }
      DropTrailingPush(lines[..n]);
      assert lines[..n][1..] == lines[1..][..n - 1];
    }
  }

  /** Blank lines may be dropped at the end first. */
  lemma {:induction false} DropsCommute(lines: seq<bytes>)
    requires !AllBlank(lines)
    ensures DropTrailingBlank(DropLeadingBlank(lines)) == DropLeadingBlank(DropTrailingBlank(lines))
  {
    DropTrailingPush(lines);
    if IsBlank(lines[0]) {
      assert !AllBlank(lines[1..]) by {
        var k :| 0 <= k < |lines| && !IsBlank(lines[k]);
        assert lines[1..][k - 1] == lines[k];
      }
      DropsCommute(lines[1..]);
    }
  }

  lemma DedentKeepsBlank(lines: seq<bytes>, n: nat, k: nat)
    requires RestFits(lines, n) && k < |lines|
    ensures IsBlank(DedentBy(lines, n)[k]) <==> IsBlank(lines[k])
  {
    if k > 0 {
      assert lines[k] == lines[1..][k - 1];
      UnindentBlank(lines[k], n);
    }
  }

  lemma {:induction false} DropTrailingDedent(lines: seq<bytes>, n: nat)
    requires RestFits(lines, n)
    ensures DropTrailingBlank(DedentBy(lines, n)) == DedentBy(DropTrailingBlank(lines), n)
    decreases |lines|
  {
    hide IsBlank, Indent, Unindent;
    if lines != [] {
      var m := |lines| - 1;
      DedentKeepsBlank(lines, n, m);
      assert lines[..m] != [] ==> lines[..m][1..] == lines[1..][..m - 1];
      DropTrailingDedent(lines[..m], n);
      assert DedentBy(lines, n)[..m] == DedentBy(lines[..m], n);
    }
  }

  // ----- What is written

  /** What blockStringLine writes: the line unquoted and escaped. */
  function LineText(line: bytes): bytes { Escape(Unquote(line)) }

  function JoinText(lines: seq<bytes>): bytes {
    if lines == [] then []
    else if |lines| == 1 then LineText(lines[0])
    else LineText(lines[0]) + [LF] + JoinText(lines[1..])
  }

  lemma {:induction false} EscapeCat(a: bytes, b: bytes)
    ensures Escape(a + b) == Escape(a) + Escape(b)
  {
    hide EscapeByte;
    if a == [] {
      assert a + b == b;
    } else {
      EscapeCat(a[1..], b);
      assert (a + b)[1..] == a[1..] + b;
      assert EscapeByte(a[0]) + (Escape(a[1..]) + Escape(b)) == EscapeByte(a[0]) + Escape(a[1..]) + Escape(b);
    }
  }

  /** A LineTerminator is no hash prefix and stays as it is. */
  lemma {:induction false} EscapeJoin(lines: seq<bytes>)
    ensures Escape(Join(UnquoteAll(lines))) == JoinText(lines)
  {
    hide Unquote;
    if |lines| > 1 {
      var a, b := Unquote(lines[0]), Join(UnquoteAll(lines[1..]));
      EscapeJoin(lines[1..]);
      assert UnquoteAll(lines)[1..] == UnquoteAll(lines[1..]);
      EscapeCat(a + [LF], b);
      EscapeCat(a, [LF]);
      assert Escape([LF]) == [LF];
    } else if |lines| == 1 {
      assert Join(UnquoteAll(lines)) == UnquoteAll(lines)[0];
    }
  }

  lemma {:induction false} AllBlankLines(t: bytes)
    ensures AllBlank(Lines(t)) <==> !HasContent(t)
    decreases |t|
  {
    if t != [] {
      var n := if IsLineTerminatorByte(t[0]) then LineTerminatorLen(t, 0) else 1;
      AllBlankLines(t[n..]);
      assert HasContent(t) <==> (!IsWhiteSpace(t[0]) && !IsLineTerminatorByte(t[0])) || HasContent(t[n..]) by {
        if HasContent(t) {
          var k :| 0 <= k < |t| && !IsWhiteSpace(t[k]) && !IsLineTerminatorByte(t[k]);
          if k >= n {
            assert t[n..][k - n] == t[k];
          }
        }
        if HasContent(t[n..]) {
          var k :| 0 <= k < |t[n..]| && !IsWhiteSpace(t[n..][k]) && !IsLineTerminatorByte(t[n..][k]);
          assert t[n + k] == t[n..][k];
        }
      }
      if IsLineTerminatorByte(t[0]) {
        assert Lines(t)[1..] == Lines(t[n..]);
        AllBlankPush([], Lines(t[n..]));
      } else {
        var ls := Lines(t[1..]);
        AllBlankPush([t[0]] + ls[0], ls[1..]);
        AllBlankPush(ls[0], ls[1..]);
        assert [ls[0]] + ls[1..] == ls;
        BlankPush(t[0], ls[0]);
      }
    }
  }

  lemma AllBlankPush(line: bytes, lines: seq<bytes>)
    ensures AllBlank([line] + lines) <==> IsBlank(line) && AllBlank(lines)
  {
    var all := [line] + lines;
    assert all[0] == line;
    assert forall k | 0 <= k < |lines| :: lines[k] == all[k + 1];
  }

  lemma BlankPush(b: byte, line: bytes)
    ensures IsBlank([b] + line) <==> IsWhiteSpace(b) && IsBlank(line)
  {
    var all := [b] + line;
    assert all[0] == b;
    assert forall k | 0 <= k < |line| :: line[k] == all[k + 1];
  }

  /** A block string without content is the empty string. */
  lemma BlankText(t: bytes)
    requires !HasContent(t)
    ensures BlockStringValue(Unquote(t)) == []
  {
    hide Lines, Unquote, HasContent;
    AllBlankLines(t);
    LinesUnquote(t);
    var lines := Lines(t);
    var n := OrZero(CommonIndent(lines[1..]));
    DedentUnquote(lines);
    var d := DedentBy(lines, n);
    forall k | 0 <= k < |d| ensures IsBlank(d[k]) {
      DedentKeepsBlank(lines, n, k);
    }
    AllBlankDrops(d);
    DropLeadingUnquote(d);
  }

  /** What is written of a block string with content: the lines without the blank ones at the
      end, n characters off every line but the first, without the blank ones at the start. */
  lemma BlockTextWritten(t: bytes, n: nat)
    requires HasContent(t) && n == CommonPrefix(t)
    ensures Escape(BlockStringValue(Unquote(t))) == JoinText(DropLeadingBlank(DedentBy(DropTrailingBlank(Lines(t)), n)))
    ensures RestFits(Lines(t), n) && !AllBlank(Lines(t))
  {
    hide Lines, Unquote, HasContent, DropLeadingBlank, DropTrailingBlank, CommonIndent, Join, JoinText, Escape;
    AllBlankLines(t);
    LinesUnquote(t);
    var lines := Lines(t);
    DedentUnquote(lines);
    var d := DedentBy(lines, n);
    assert !AllBlank(d) by {
      var k :| 0 <= k < |lines| && !IsBlank(lines[k]);
      DedentKeepsBlank(lines, n, k);
    }
    DropLeadingUnquote(d);
    DropTrailingUnquote(DropLeadingBlank(d));
    DropsCommute(d);
    DropTrailingDedent(lines, n);
    EscapeJoin(DropTrailingBlank(DropLeadingBlank(d)));
  }

  // ----- One pass over the lines

  /** What is written of the lines after those already seen, n characters of each left out. */
  function RestText(lines: seq<bytes>, n: nat, contentSeen: bool): bytes {
    if lines == [] then []
    else
      var line := Unindent(lines[0], n);
      if IsBlank(line) && !contentSeen then RestText(lines[1..], n, false)
      else (if contentSeen then [LF] else []) + LineText(line) + RestText(lines[1..], n, true)
  }

  lemma {:induction false} RestTextIs(lines: seq<bytes>, n: nat, line: bytes)
    ensures LineText(line) + RestText(lines, n, true) == JoinText([line] + UnindentAll(lines, n))
    ensures RestText(lines, n, false) == JoinText(DropLeadingBlank(UnindentAll(lines, n)))
  {
    hide LineText, IsBlank, Unindent;
    if lines != [] {
      var first := Unindent(lines[0], n);
      RestTextIs(lines[1..], n, first);
      var all := UnindentAll(lines, n);
      assert all == [first] + UnindentAll(lines[1..], n);
      assert ([line] + all)[1..] == all;
      assert LineText(line) + ([LF] + LineText(first) + RestText(lines[1..], n, true))
            == LineText(line) + [LF] + (LineText(first) + RestText(lines[1..], n, true));
    } else {
      assert [line] + UnindentAll(lines, n) == [line];
      assert LineText(line) + [] == LineText(line);
    }
  }

  /** The first line, whole or not at all, then the rest. */
  lemma TextIs(lines: seq<bytes>, n: nat)
    requires lines != []
    ensures JoinText(DropLeadingBlank(DedentBy(lines, n)))
              == if IsBlank(lines[0]) then RestText(lines[1..], n, false)
            else LineText(lines[0]) + RestText(lines[1..], n, true)
  {
    hide LineText, IsBlank, Unindent;
    RestTextIs(lines[1..], n, lines[0]);
    assert DedentBy(lines, n)[1..] == UnindentAll(lines[1..], n);
  }

  // ----- The lines of a suffix

  lemma TerminatorIs(s: bytes, i: nat)
    requires i < |s| && IsLineTerminatorByte(s[i])
    ensures Lines(s[i..])[1..] == Lines(s[i + LineTerminatorLen(s, i)..])
  {
    var u, n := s[i..], LineTerminatorLen(s, i);
    assert LineTerminatorLen(u, 0) == n;
    assert u[n..] == s[i + n..];
    assert Lines(u)[1..] == Lines(u[n..]);
  }

  /** The line from k to i. */
  lemma {:induction false} LineIs(s: bytes, k: nat, i: nat)
    requires k <= i <= |s| && forall m | k <= m < i :: !IsLineTerminatorByte(s[m])
    requires i < |s| ==> IsLineTerminatorByte(s[i])
    ensures Lines(s[k..])[0] == s[k..i] && Lines(s[k..])[1..] == Lines(s[i..])[1..]
    decreases i - k
  {
    if k < i {
      LineIs(s, k + 1, i);
      assert s[k..] == [s[k]] + s[k + 1..];
      LinesPush(s[k], s[k + 1..]);
    }
  }

  /** The line at k after up to n bytes of WhiteSpace were skipped. */
  lemma StrippedIs(s: bytes, k: nat, j: nat, i: nat, n: nat, lines: seq<bytes>)
    requires k <= j <= i <= |s| && j - k <= n && forall m | k <= m < j :: IsWhiteSpace(s[m])
    requires j - k == n || j == i || !IsWhiteSpace(s[j])
    requires lines != [] && lines[0] == s[k..i] && Fits(lines, n)
    ensures s[j..i] == Unindent(lines[0], n) && Fits(lines[1..], n)
  {
    var line := lines[0];
    if j < i {
      assert line[j - k] == s[j];
    }
  }

  lemma RestTextStep(lines: seq<bytes>, n: nat, contentSeen: bool)
    requires lines != []
    ensures var line := Unindent(lines[0], n);
            RestText(lines, n, contentSeen) ==
            if IsBlank(line) && !contentSeen then RestText(lines[1..], n, false)
            else (if contentSeen then [LF] else []) + LineText(line) + RestText(lines[1..], n, true)
  {
  }

  /** What is written after the line that ends at i. */
  function TextAfter(s: bytes, i: nat, n: nat, contentSeen: bool): bytes
    requires i <= |s|
  {
    RestText(Lines(s[i..])[1..], n, contentSeen)
  }

  predicate FitsAfter(s: bytes, i: nat, n: nat)
    requires i <= |s|
  {
    Fits(Lines(s[i..])[1..], n)
  }

  /** The line after the LineTerminator at t: from j to i, up to n bytes of WhiteSpace skipped. */
  lemma NextLine(s: bytes, t: nat, j: nat, i: nat, n: nat, contentSeen: bool)
    requires t < |s| && IsLineTerminatorByte(s[t]) && FitsAfter(s, t, n)
    requires var k := t + LineTerminatorLen(s, t);
             && k <= j <= i <= |s| && j - k <= n && (forall m | k <= m < j :: IsWhiteSpace(s[m]))
             && (j - k == n || j == i || !IsWhiteSpace(s[j])) && (forall m | k <= m < i :: !IsLineTerminatorByte(s[m]))
    requires i < |s| ==> IsLineTerminatorByte(s[i])
    ensures FitsAfter(s, i, n)
    ensures TextAfter(s, t, n, contentSeen) ==
            if IsBlank(s[j..i]) && !contentSeen then TextAfter(s, i, n, false)
            else (if contentSeen then [LF] else []) + (LineText(s[j..i]) + TextAfter(s, i, n, true))
  {
    hide Lines, RestText, LineText, Unindent, IsBlank, Fits;
    var k, lines := t + LineTerminatorLen(s, t), Lines(s[t..])[1..];
    TerminatorIs(s, t);
    LineIs(s, k, i);
    StrippedIs(s, k, j, i, n, lines);
    RestTextStep(lines, n, contentSeen);
    Assoc(if contentSeen then [LF] else [], LineText(s[j..i]), RestText(lines[1..], n, true));
  }

  lemma TextAfterEnd(s: bytes, n: nat, contentSeen: bool)
    ensures TextAfter(s, |s|, n, contentSeen) == []
  {
  }

  /** The first line of the text, up to i, and what is written after it. */
  lemma FirstLine(s: bytes, i: nat, n: nat)
    requires i <= |s| && (forall m | 0 <= m < i :: !IsLineTerminatorByte(s[m])) && (i < |s| ==> IsLineTerminatorByte(s[i]))
    requires RestFits(Lines(s), n)
    ensures FitsAfter(s, i, n)
    ensures JoinText(DropLeadingBlank(DedentBy(Lines(s), n))) ==
            if IsBlank(s[..i]) then TextAfter(s, i, n, false) else LineText(s[..i]) + TextAfter(s, i, n, true)
  {
    hide Lines, RestText, LineText, Unindent, IsBlank, Fits, JoinText, DropLeadingBlank, DedentBy;
    assert s[0..] == s && s[0..i] == s[..i];
    LineIs(s, 0, i);
    TextIs(Lines(s), n);
  }

  lemma LineTextStep(s: bytes, i: nat)
    requires i < |s|
    ensures !NeedsEscape(s[i]) ==> LineText(s[i..]) == [s[i]] + LineText(s[i + 1..])
    ensures NeedsEscape(s[i]) && !HasPrefixAt(s, i, ESCAPED_TRIPLE) ==>
              LineText(s[i..]) == EscapeByte(s[i]) + LineText(s[i + 1..])
    ensures HasPrefixAt(s, i, ESCAPED_TRIPLE) ==> LineText(s[i..]) == TRIPLE + LineText(s[i + 4..])
  {
    var u := s[i..];
    assert |u| >= 4 ==> u[..4] == s[i..i + 4];
    if HasPrefixAt(s, i, ESCAPED_TRIPLE) {
      assert u == ESCAPED_TRIPLE + s[i + 4..];
      UnquoteEscaped(s[i + 4..]);
      EscapeCat(TRIPLE, Unquote(s[i + 4..]));
      assert Escape(TRIPLE) == TRIPLE by {
        assert TRIPLE == [QUOTE] + ([QUOTE] + [QUOTE]);
        EscapeCat([QUOTE], [QUOTE]);
        EscapeCat([QUOTE], [QUOTE] + [QUOTE]);
        assert Escape([QUOTE]) == EscapeByte(QUOTE) + Escape([]);
      }
    } else {
      assert u == [s[i]] + s[i + 1..];
      UnquotePush(s[i], s[i + 1..]);
      EscapeCat([s[i]], Unquote(s[i + 1..]));
      assert Escape([s[i]]) == EscapeByte(s[i]) + Escape([]);
    }
  }

  lemma LineTextNil(s: bytes)
    ensures LineText(s[|s|..]) == []
  {
  }

  // ----- The last line

  /** A text without LineTerminators is one line. */
  lemma {:induction false} OneLine(t: bytes)
    requires forall k | 0 <= k < |t| :: !IsLineTerminatorByte(t[k])
    ensures Lines(t) == [t]
    ensures !AllBlank(Lines(t)) ==> DropTrailingBlank(Lines(t)) == Lines(t)
  {
    if t != [] {
      OneLine(t[1..]);
      assert t == [t[0]] + t[1..];
      LinesPush(t[0], t[1..]);
    }
    assert Lines(t) == [t];
  }

  /** The LineTerminator that ends at k begins at p. */
  predicate TerminatorAt(t: bytes, p: nat, k: nat)
    requires p < k <= |t|
  {
    && IsLineTerminatorByte(t[p]) && k == p + LineTerminatorLen(t, p)
    && (t[p] == LF && p > 0 ==> t[p - 1] != CR)
  }

  /** A byte before a line leaves the last line the last. */
  lemma LastLinePush(c: byte, u: bytes, v: bytes, line: bytes)
    requires !IsLineTerminatorByte(c) && Lines(u) == Lines(v) + [line]
    ensures Lines([c] + u) == Lines([c] + v) + [line]
  {
    hide Lines;
    LinesPush(c, u);
    LinesPush(c, v);
    assert (Lines(v) + [line])[1..] == Lines(v)[1..] + [line];
  }

  lemma LinesTerminator(t: bytes)
    requires t != [] && IsLineTerminatorByte(t[0])
    ensures Lines(t) == [[]] + Lines(t[LineTerminatorLen(t, 0)..])
  {
  }

  /** The last LineTerminator of what comes after the first n bytes. */
  lemma LastLineLater(t: bytes, p: nat, k: nat, n: nat)
    requires n <= p < k <= |t| && TerminatorAt(t, p, k)
    requires forall m | k <= m < |t| :: !IsLineTerminatorByte(t[m])
    ensures var u := t[n..];
            && TerminatorAt(u, p - n, k - n) && (forall m | k - n <= m < |u| :: !IsLineTerminatorByte(u[m]))
            && u[..p - n] == t[..p][n..] && u[k - n..] == t[k..]
  {
    var u := t[n..];
    assert forall m | 0 <= m < |u| :: u[m] == t[n + m];
  }

  /** A byte that ends no line comes before the first one. */
  lemma LinesOfPush(t: bytes, p: nat, k: nat)
    requires 0 < p < k <= |t| && !IsLineTerminatorByte(t[0])
    requires Lines(t[1..]) == Lines(t[..p][1..]) + [t[k..]]
    ensures Lines(t) == Lines(t[..p]) + [t[k..]]
  {
    hide Lines;
    assert t == [t[0]] + t[1..] && t[..p] == [t[0]] + t[..p][1..];
    LastLinePush(t[0], t[1..], t[..p][1..], t[k..]);
  }

  lemma LinesOfTerminator(t: bytes, p: nat, k: nat)
    requires 0 < p < k <= |t| && IsLineTerminatorByte(t[0]) && LineTerminatorLen(t, 0) <= p
    requires Lines(t[LineTerminatorLen(t, 0)..]) == Lines(t[..p][LineTerminatorLen(t, 0)..]) + [t[k..]]
    ensures Lines(t) == Lines(t[..p]) + [t[k..]]
  {
    hide Lines;
    var n := LineTerminatorLen(t, 0);
    assert t[..p][0] == t[0] && (p > 1 ==> t[..p][1] == t[1]);
    assert LineTerminatorLen(t[..p], 0) == n;
    LinesTerminator(t);
    LinesTerminator(t[..p]);
    assert [[]] + (Lines(t[..p][n..]) + [t[k..]]) == [[]] + Lines(t[..p][n..]) + [t[k..]];
  }

  /** The last line begins at k, after the LineTerminator at p. */
  lemma {:induction false} LastLineIs(t: bytes, p: nat, k: nat)
    requires p < k <= |t| && TerminatorAt(t, p, k)
    requires forall m | k <= m < |t| :: !IsLineTerminatorByte(t[m])
    ensures Lines(t) == Lines(t[..p]) + [t[k..]]
    decreases |t|
  {
    hide Lines;
    if p == 0 {
      OneLine(t[k..]);
      OneLine(t[..p]);
      LinesTerminator(t);
    } else if IsLineTerminatorByte(t[0]) {
      var n := LineTerminatorLen(t, 0);
      LastLineLater(t, p, k, n);
      LastLineIs(t[n..], p - n, k - n);
      LinesOfTerminator(t, p, k);
    } else {
      LastLineLater(t, p, k, 1);
      LastLineIs(t[1..], p - 1, k - 1);
      LinesOfPush(t, p, k);
    }
  }

  lemma AllBlankLast(lines: seq<bytes>, line: bytes)
    ensures AllBlank(lines + [line]) <==> AllBlank(lines) && IsBlank(line)
  {
    var all := lines + [line];
    assert all[|lines|] == line;
    assert forall k | 0 <= k < |lines| :: lines[k] == all[k];
  }

  /** Trimming the last line, if it is blank. */
  lemma LastLineTrimmed(t: bytes, p: nat, k: nat)
    requires p < k <= |t| && TerminatorAt(t, p, k)
    requires forall m | k <= m < |t| :: !IsLineTerminatorByte(t[m])
    requires !AllBlank(Lines(t))
    ensures !IsBlank(t[k..]) ==> DropTrailingBlank(Lines(t)) == Lines(t)
    ensures IsBlank(t[k..]) ==> DropTrailingBlank(Lines(t)) == DropTrailingBlank(Lines(t[..p])) && !AllBlank(Lines(t[..p]))
  {
    LastLineIs(t, p, k);
    var ls := Lines(t);
    assert ls[..|ls| - 1] == Lines(t[..p]);
    assert AllBlank(ls) <==> IsBlank(t[k..]) && AllBlank(Lines(t[..p])) by {
      AllBlankLast(Lines(t[..p]), t[k..]);
    }
  }

  /** Dropping lines at the end leaves lines that n characters can come off. */
  lemma {:induction false} DropTrailingFits(lines: seq<bytes>, n: nat)
    requires RestFits(lines, n)
    ensures RestFits(DropTrailingBlank(lines), n)
    ensures !AllBlank(lines) ==> DropTrailingBlank(lines) != []
    decreases |lines|
  {
    if lines != [] && IsBlank(lines[|lines| - 1]) {
      var m := |lines| - 1;
      assert m > 0 ==> forall k | 0 <= k < m - 1 :: lines[..m][1..][k] == lines[1..][k];
      DropTrailingFits(lines[..m], n);
      AllBlankLast(lines[..m], lines[m]);
      assert lines == lines[..m] + [lines[m]];
    }
  }
}
