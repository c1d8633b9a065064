/**
 JSON string contents, section 7 of RFC 8259: what they spell, how the proxy reads and writes
 them, and which member names it takes for the query.
 */
module JsonText {
  import opened Bytes
  import opened Utf8
  import opened UnicodeEsc
  import opened StringLine

  /** utf8.AppendRune: half a pair on its own becomes U+FFFD. */
  function Rune(v: nat): (r: bytes)
    requires v <= 0x10ffff
    ensures r != [] && (v >= 0x80 ==> r[0] >= 0x80) && (v < 0x80 ==> r == [v])
  {
    if IsScalarValue(v) then Encode(v) else [0xef, 0xbf, 0xbd]
  }

  /** What the string contents from i on spell; None for an invalid escape. */
  function Spelled(s: bytes, i: nat): Option<bytes>
    decreases |s| - i
  {
    if i >= |s| then Some([])
    else if s[i] != BACKSLASH then Before([s[i]], Spelled(s, i + 1))
    else if i + 1 >= |s| then None
    else if SimpleEscape(s[i + 1]).Some? then Before([SimpleEscape(s[i + 1]).value], Spelled(s, i + 2))
    else if s[i + 1] != LOWER_U || !IsHex4(s, i + 2) then None
    else if !IsLeadingSurrogate(Value(s, i + 2)) then Before(Rune(Value(s, i + 2)), Spelled(s, i + 6))
    else if TrailingAt(s, i + 6) then Before(Rune(Pair(Value(s, i + 2), Value(s, i + 8))), Spelled(s, i + 12))
    else None
  }

  /** The second half of a pair is at i. */
  predicate TrailingAt(s: bytes, i: nat) {
    i + 6 <= |s| && s[i] == BACKSLASH && s[i + 1] == LOWER_U && IsHex4(s, i + 2) && IsTrailingSurrogate(Value(s, i + 2))
  }

  function Before(a: bytes, rest: Option<bytes>): Option<bytes> {
    if rest.None? then None else Some(a + rest.value)
  }

  lemma BeforeBoth(a: bytes, b: bytes, rest: Option<bytes>)
    ensures Before(a + b, rest) == Before(a, Before(b, rest))
  {
    if rest.Some? {
      Assoc(a, b, rest.value);
    }
  }

  lemma {:induction false} PlainSpelled(s: bytes, i: nat, j: nat)
    requires i <= j <= |s| && BACKSLASH !in s[i..j]
    ensures Spelled(s, i) == Before(s[i..j], Spelled(s, j))
    decreases j - i
  {
    if i < j {
      assert s[i] == s[i..j][0] && s[i..j] == [s[i]] + s[i + 1..j];
      PlainSpelled(s, i + 1, j);
      BeforeBoth([s[i]], s[i + 1..j], Spelled(s, j));
    } else {
      assert s[i..j] == [];
      if Spelled(s, j).Some? {
        NoBytes(Spelled(s, j).value);
      }
    }
  }

  // ----- Escapes, byte by byte

  /** Wherever one stands, a short escape spells its byte. */
  lemma ShortEscapes(s: bytes, i: nat, b: byte, c: byte)
    requires i + 1 < |s| && s[i] == 0x5c && s[i + 1] == b && (b, c) in SHORT
    ensures Spelled(s, i) == Before([c], Spelled(s, i + 2))
  {
  }

  /** Any other byte but a 'u' makes the escape invalid. */
  lemma NoOtherEscapes(s: bytes, i: nat)
    requires i < |s| && s[i] == 0x5c
    requires i + 1 < |s| ==> s[i + 1] !in {0x22, 0x5c, 0x2f, 0x62, 0x66, 0x6e, 0x72, 0x74, 0x75}
    ensures Spelled(s, i) == None
  {
  }

  lemma NoShort(s: bytes, i: nat)
    requires i + 1 < |s| && s[i] == 0x5c && s[i + 1] == 0x75
    ensures SimpleEscape(s[i + 1]) == None && s[i] == BACKSLASH && s[i + 1] == LOWER_U
  {
  }

  /** Four digits after `\u`, in any case, spell the UTF-8 of the value they write; the second
      half of a surrogate pair on its own spells U+FFFD. */
  lemma FourDigits(s: bytes, i: nat, v: nat, upper: seq<bool>)
    requires WritesFour(s, i, v, upper) && !(0xd800 <= v <= 0xdbff)
    ensures Spelled(s, i) == Before(if 0xdc00 <= v <= 0xdfff then [0xef, 0xbf, 0xbd] else Encode(v), Spelled(s, i + 6))
  {
    FourRead(s, i, v, upper);
    NoShort(s, i);
    hide Encode, Value, IsHex4, HexText, SimpleEscape;
  }

  /** The first half takes the second half with it. */
  lemma TwelveDigits(s: bytes, i: nat, v: nat, upper: seq<bool>, w: nat, more: seq<bool>)
    requires WritesFour(s, i, v, upper) && 0xd800 <= v <= 0xdbff && WritesFour(s, i + 6, w, more)
    ensures Spelled(s, i) ==
            if 0xdc00 <= w <= 0xdfff then Before(Encode(0x10000 + (v - 0xd800) * 0x400 + (w - 0xdc00)), Spelled(s, i + 12)) else None
  {
    FourRead(s, i, v, upper);
    FourRead(s, i + 6, w, more);
    NoShort(s, i);
    hide Encode, Value, IsHex4, HexText, SimpleEscape;
  }

  /** Without it the string is invalid. */
  lemma LoneHalf(s: bytes, i: nat, v: nat, upper: seq<bool>)
    requires WritesFour(s, i, v, upper) && 0xd800 <= v <= 0xdbff
    requires i + 6 == |s| || s[i + 6] != 0x5c || i + 7 == |s| || s[i + 7] != 0x75
    ensures Spelled(s, i) == None
  {
    FourRead(s, i, v, upper);
    NoShort(s, i);
    hide Encode, Value, IsHex4, HexText, SimpleEscape;
  }

  // ----- unescapeJSON

  /** bytes.IndexByte: the first backslash, or -1. */
  method IndexBackslash(s: bytes) returns (i: int)
    ensures i < 0 ==> BACKSLASH !in s
    ensures i >= 0 ==> i < |s| && s[i] == BACKSLASH && BACKSLASH !in s[..i]
  {
    i := 0;
    while i < |s|
      invariant 0 <= i <= |s| && BACKSLASH !in s[..i]
    {
      if s[i] == BACKSLASH {
        return;
      }
      assert s[..i + 1] == s[..i] + [s[i]];
      i := i + 1;
    }
    assert s[..i] == s;
    i := -1;
  }

  /** One escape sequence at i: what it stands for and where it ends. */
  method UnescapeOne(s: bytes, i: nat) returns (ok: bool, c: bytes, next: nat)
    requires i < |s| && s[i] == BACKSLASH
    ensures ok ==> i < next <= |s| && Spelled(s, i) == Before(c, Spelled(s, next))
    ensures !ok ==> Spelled(s, i) == None
  {
    ok, c, next := false, [], i;
    if i + 1 >= |s| {
      return;
    }
    if SimpleEscape(s[i + 1]).Some? {
      return true, [SimpleEscape(s[i + 1]).value], i + 2;
    }
    if s[i + 1] != LOWER_U || i + 6 > |s| || !IsHex4(s, i + 2) {
      return;
    }
    var v := Value(s, i + 2);
    next := i + 6;
    if IsLeadingSurrogate(v) {
      if next + 6 > |s| || s[next] != BACKSLASH || s[next + 1] != LOWER_U {
        return;
      }
      if !IsHex4(s, next + 2) || !IsTrailingSurrogate(Value(s, next + 2)) {
        return;
      }
      v := Pair(v, Value(s, next + 2));
      next := next + 6;
    }
    ok, c := true, Rune(v);
  }

  /** Without an escape the value is s itself and the scratch is left alone. */
  method UnescapeJSON(scratch: bytes, s: bytes) returns (value: Option<bytes>, newScratch: bytes)
    ensures value == Spelled(s, 0)
    ensures BACKSLASH !in s ==> newScratch == scratch
    ensures BACKSLASH in s && value.Some? ==> newScratch == value.value
  {
    hide SimpleEscape, IsHex4;
    var i: int := IndexBackslash(s);
    if i < 0 {
      assert s[0..|s|] == s;
      PlainSpelled(s, 0, |s|);
      NoBytes(s);
      return Some(s), scratch;
    }
    newScratch := s[..i];
    assert s[0..i] == s[..i];
    PlainSpelled(s, 0, i);
    while i < |s|
      invariant 0 <= i <= |s| && Spelled(s, 0) == Before(newScratch, Spelled(s, i))
      decreases |s| - i
    {
      if s[i] != BACKSLASH {
        BeforeBoth(newScratch, [s[i]], Spelled(s, i + 1));
        newScratch := newScratch + [s[i]];
        i := i + 1;
      } else {
        hide Spelled;
        var ok, c, next := UnescapeOne(s, i);
        if !ok {
          return None, newScratch;
        }
        BeforeBoth(newScratch, c, Spelled(s, next));
        newScratch := newScratch + c;
        i := next;
      }
    }
    NoBytes(newScratch);
    value := Some(newScratch);
  }

  // ----- writeJSONString

  const QUOTE_ESCAPE: bytes := [0x5c, 0x22]
  const BACKSLASH_ESCAPE: bytes := [0x5c, 0x5c]

  /** jsonEscape: the escape of a control byte. */
  function ControlEscape(c: byte): bytes
    requires c < 0x20
  {
    if c == 0x08 then [BACKSLASH, 0x62]
    else if c == 0x0c then [BACKSLASH, 0x66]
    else if c == 0x0a then [BACKSLASH, 0x6e]
    else if c == 0x0d then [BACKSLASH, 0x72]
    else if c == 0x09 then [BACKSLASH, 0x74]
    else [BACKSLASH, LOWER_U, 0x30, 0x30, HexDigitOf(c / 16), HexDigitOf(c % 16)]
  }

  function EscapeOf(c: byte): (r: bytes)
    ensures r != []
  {
    if c == QUOTE then QUOTE_ESCAPE
    else if c == BACKSLASH then BACKSLASH_ESCAPE
    else if c < 0x20 then ControlEscape(c)
    else [c]
  }

  predicate StandsForItself(c: byte) { c >= 0x20 && c != QUOTE && c != BACKSLASH }

  function Written(s: bytes): bytes {
    if s == [] then [] else EscapeOf(s[0]) + Written(s[1..])
  }

  lemma {:induction false} WrittenCat(a: bytes, b: bytes)
    ensures Written(a + b) == Written(a) + Written(b)
  {
    hide EscapeOf;
    if a == [] {
      NoBytes(b);
      NoBytes(Written(b));
    } else {
      WrittenCat(a[1..], b);
      assert (a + b)[1..] == a[1..] + b;
      Assoc(EscapeOf(a[0]), Written(a[1..]), Written(b));
    }
  }

  lemma {:induction false} WrittenPlain(s: bytes)
    requires forall k | 0 <= k < |s| :: StandsForItself(s[k])
    ensures Written(s) == s
  {
    if s != [] {
      WrittenPlain(s[1..]);
    }
  }

  lemma WrittenOne(c: byte)
    ensures Written([c]) == EscapeOf(c)
  {
    hide EscapeOf;
    assert [c][1..] == [];
    NoBytes(EscapeOf(c));
  }

  /** The run between two escapes is written whole. */
  method WriteJSONString(s: bytes) returns (out: bytes)
    ensures out == Written(s)
  {
    hide EscapeOf, Written;
    var start: nat := 0;
    out := [];
    assert s[..0] == [];
    WrittenPlain([]);
    for i := 0 to |s|
      invariant start <= i && out == Written(s[..start])
      invariant forall k | start <= k < i :: StandsForItself(s[k])
    {
      var c := s[i];
      if c >= 0x20 && c != QUOTE && c != BACKSLASH {
        continue;
      }
      WrittenRun(s, start, i);
      if start < i {
        out := out + s[start..i];
      } else {
        assert s[..start] == s[..i];
      }
      out := out + EscapeOf(c);
      WrittenOne(c);
      WrittenCat(s[..i], [c]);
      assert s[..i + 1] == s[..i] + [c];
      start := i + 1;
    }
    WrittenRun(s, start, |s|);
    assert s[..|s|] == s;
    if start < |s| {
      out := out + s[start..];
    }
  }

  lemma WrittenRun(s: bytes, start: nat, i: nat)
    requires start <= i <= |s| && forall k | start <= k < i :: StandsForItself(s[k])
    ensures Written(s[..i]) == Written(s[..start]) + s[start..i]
  {
    assert s[..i] == s[..start] + s[start..i];
    WrittenCat(s[..start], s[start..i]);
    WrittenPlain(s[start..i]);
  }

  /** What is written of one byte is read back, wherever it stands. */
  lemma ByteReadBack(s: bytes, i: nat, c: byte)
    requires i + |EscapeOf(c)| <= |s| && s[i..i + |EscapeOf(c)|] == EscapeOf(c)
    ensures Spelled(s, i) == Before([c], Spelled(s, i + |EscapeOf(c)|))
  {
    var e := EscapeOf(c);
    var t := s[i..i + |e|];
    assert t[0] == s[i] && t[0] == e[0];
    if |e| == 6 {
      assert t[1] == s[i + 1] && t[2] == s[i + 2] && t[3] == s[i + 3] && t[4] == s[i + 4] && t[5] == s[i + 5];
      assert Value(s, i + 2) == c / 16 * 16 + c % 16;
    } else if |e| == 2 {
      assert t[1] == s[i + 1];
    }
  }

  /** The byte at k is written between what is written before it and after it. */
  lemma WrittenAt(s: bytes, k: nat)
    requires k < |s|
    ensures var done, e, w := Written(s[..k]), EscapeOf(s[k]), Written(s);
            && |done| + |e| <= |w| && w[|done|..|done| + |e|] == e
            && Written(s[..k + 1]) == done + e
  {
    hide EscapeOf, Written;
    var done, e := Written(s[..k]), EscapeOf(s[k]);
    assert s == s[..k + 1] + s[k + 1..] && s[..k + 1] == s[..k] + [s[k]];
    WrittenCat(s[..k + 1], s[k + 1..]);
    WrittenCat(s[..k], [s[k]]);
    WrittenOne(s[k]);
  }

  /** The reader undoes the writer, on every byte string. */
  lemma {:induction false} ReadBack(s: bytes, done: bytes, k: nat)
    requires k <= |s| && done == Written(s[..k])
    ensures |done| <= |Written(s)| && Spelled(Written(s), |done|) == Some(s[k..])
    decreases |s| - k
  {
    hide EscapeOf, Spelled, Written;
    var w := Written(s);
    if k == |s| {
      assert s[..k] == s && s[k..] == [];
      SpelledEnd(w);
    } else {
      var e := EscapeOf(s[k]);
      WrittenAt(s, k);
      ByteReadBack(w, |done|, s[k]);
      ReadBack(s, done + e, k + 1);
      assert s[k..] == [s[k]] + s[k + 1..];
    }
  }

  lemma SpelledEnd(s: bytes)
    ensures Spelled(s, |s|) == Some([])
  {
  }

  /** unescapeJSON gives back what writeJSONString was given. */
  lemma RoundTrip(s: bytes)
    ensures Spelled(Written(s), 0) == Some(s)
  {
    assert s[..0] == [];
    ReadBack(s, [], 0);
  }

  // ----- isQueryKey

  const WANT: bytes := [0x71, 0x75, 0x65, 0x72, 0x79]

  /** b is the letter, in either case. */
  predicate SameLetter(b: byte, letter: byte) { b == letter || b == letter - 0x20 }

  predicate IsQuery(v: bytes) {
    |v| == |WANT| && forall k | 0 <= k < |v| :: SameLetter(v[k], WANT[k])
  }

  /** The quoted key spells the name of the query member, in any case. */
  predicate SpellsQuery(key: bytes) {
    && |key| >= 2
    && Spelled(key[1..|key| - 1], 0).Some? && IsQuery(Spelled(key[1..|key| - 1], 0).value)
  }

  predicate IsLetter(b: byte) { 0x41 <= b <= 0x5a || 0x61 <= b <= 0x7a }

  /** Of letters only, every one is written as it is or as a six-byte escape. */
  lemma {:induction false} LettersLength(s: bytes, i: nat) returns (k: nat)
    requires i <= |s| && Spelled(s, i).Some? && forall m | 0 <= m < |Spelled(s, i).value| :: IsLetter(Spelled(s, i).value[m])
    ensures |s| - i == |Spelled(s, i).value| + 5 * k && k <= |Spelled(s, i).value|
    ensures k == 0 <==> BACKSLASH !in s[i..]
    decreases |s| - i
  {
    k := 0;
    if i < |s| {
      var v := Spelled(s, i).value;
      var next := if s[i] != BACKSLASH then i + 1 else i + 6;
      LetterNext(s, i);
      assert forall m | 0 <= m < |v| - 1 :: v[1..][m] == v[m + 1];
      k := LettersLength(s, next);
      assert s[i..] == [s[i]] + s[i + 1..];
      if s[i] == BACKSLASH {
        k := k + 1;
      }
    }
  }

  /** The next unit of the contents. Only a plain byte or a \u escape spells a letter. */
  lemma Unit(s: bytes, i: nat) returns (c: bytes, next: nat)
    requires i < |s| && Spelled(s, i).Some?
    ensures i < next <= |s| && Spelled(s, next).Some? && Spelled(s, i).value == c + Spelled(s, next).value && c != []
    ensures IsLetter(c[0]) ==> |c| == 1 && next == if s[i] != BACKSLASH then i + 1 else i + 6
  {
    if s[i] != BACKSLASH {
      c, next := [s[i]], i + 1;
    } else if SimpleEscape(s[i + 1]).Some? {
      c, next := [SimpleEscape(s[i + 1]).value], i + 2;
    } else if IsLeadingSurrogate(Value(s, i + 2)) {
      c, next := Rune(Pair(Value(s, i + 2), Value(s, i + 8))), i + 12;
    } else {
      c, next := Rune(Value(s, i + 2)), i + 6;
    }
  }

  /** The next letter. */
  lemma LetterNext(s: bytes, i: nat)
    requires i < |s| && Spelled(s, i).Some? && forall m | 0 <= m < |Spelled(s, i).value| :: IsLetter(Spelled(s, i).value[m])
    ensures var next := if s[i] != BACKSLASH then i + 1 else i + 6;
            && next <= |s| && Spelled(s, i).value != [] && Spelled(s, next).Some?
            && Spelled(s, next).value == Spelled(s, i).value[1..]
  {
    hide Spelled;
    var c, next := Unit(s, i);
    assert Spelled(s, i).value[0] == c[0];
  }

  /** `c | 0x20`. */
  function OrSpace(c: byte): byte {
    if c / 0x20 % 2 == 1 then c else c + 0x20
  }

  lemma OrSpaceIs(c: byte, letter: byte)
    requires 0x61 <= letter <= 0x7a
    ensures OrSpace(c) == letter <==> SameLetter(c, letter)
  {
  }

  /** The other case of a letter. */
  function OtherCase(b: byte): byte {
    if 0x41 <= b <= 0x5a then b + 0x20 else if 0x61 <= b <= 0x7a then b - 0x20 else b
  }

  /** The case of a letter does not matter. */
  lemma AnyCase(v: bytes, k: nat)
    requires k < |v|
    ensures IsQuery(v) <==> IsQuery(v[k := OtherCase(v[k])])
  {
    var w := v[k := OtherCase(v[k])];
    if IsQuery(v) {
      assert forall m | 0 <= m < |w| :: SameLetter(w[m], WANT[m]);
    }
    if IsQuery(w) {
      assert SameLetter(w[k], WANT[k]);
      assert forall m | 0 <= m < |v| && m != k :: v[m] == w[m];
    }
  }

  /** In lower case the name of the query member is `query`, and nothing else. */
  lemma LowerCase(v: bytes)
    requires forall k | 0 <= k < |v| :: !(0x41 <= v[k] <= 0x5a)
    ensures IsQuery(v) <==> v == [0x71, 0x75, 0x65, 0x72, 0x79]
  {
    if IsQuery(v) {
      assert forall k | 0 <= k < |v| :: SameLetter(v[k], WANT[k]);
    }
  }

  /** isQueryKey: the lengths filter out most members before anything is decoded. */
  method IsQueryKey(key: bytes) returns (yes: bool)
    ensures yes <==> SpellsQuery(key)
  {
    hide Spelled;
    if |key| < 2 {
      return false;
    }
    var name := key[1..|key| - 1];
    if |name| != |WANT| {
      if |name| < |WANT| || |name| > 30 || (|name| - |WANT|) % |WANT| != 0 {
        QueryLength(name);
        return false;
      }
      var at := IndexBackslash(name);
      if at < 0 {
        QueryLength(name);
        return false;
      }
      var value, scratch := UnescapeJSON([], name);
      if value.None? || |value.value| != |WANT| {
        return false;
      }
      yes := LowersToQuery(value.value);
      return;
    }
    QueryLength(name);
    PlainName(name);
    yes := LowersToQuery(name);
  }

  /** A name that spells the query has five letters, each of one byte or of six. */
  lemma QueryLength(name: bytes)
    ensures Spelled(name, 0).Some? && IsQuery(Spelled(name, 0).value) ==>
              && (|name| == 5 || |name| == 10 || |name| == 15 || |name| == 20 || |name| == 25 || |name| == 30)
              && (|name| == 5 <==> BACKSLASH !in name)
  {
    hide Spelled;
    if Spelled(name, 0).Some? && IsQuery(Spelled(name, 0).value) {
      var k := LettersLength(name, 0);
      assert name[0..] == name;
    }
  }

  /** A name without escapes is its own value; a backslash is no letter of the name. */
  lemma PlainName(name: bytes)
    ensures BACKSLASH !in name ==> Spelled(name, 0) == Some(name)
    ensures BACKSLASH in name ==> !IsQuery(name)
  {
    if BACKSLASH !in name {
      assert name[0..|name|] == name;
      PlainSpelled(name, 0, |name|);
      NoBytes(name);
    }
  }

  /** The loop over the letters, compared without case. */
  method LowersToQuery(v: bytes) returns (yes: bool)
    requires |v| == |WANT|
    ensures yes <==> IsQuery(v)
  {
    for i := 0 to |WANT|
      invariant forall k | 0 <= k < i :: SameLetter(v[k], WANT[k])
    {
      OrSpaceIs(v[i], WANT[i]);
      if OrSpace(v[i]) != WANT[i] {
        return false;
      }
    }
    return true;
  }
}
