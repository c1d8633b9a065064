/**
 The query string of a request: pairs, percent-encoding (section 2.1 of RFC 3986), and the one
 parameter that carries a document.
 */
module QueryString {
  import opened Bytes
  import opened UnicodeEsc
  import opened JsonText

  const AMP: byte := 0x26
  const SEMICOLON: byte := 0x3b
  const PERCENT: byte := 0x25

  predicate IsSeparator(b: byte) { b == AMP || b == SEMICOLON }

  /** Where the pair at i ends. */
  function PairEnd(q: bytes, i: nat): (e: nat)
    requires i <= |q|
    ensures i <= e <= |q| && (e < |q| ==> IsSeparator(q[e]))
    ensures forall k | i <= k < e :: !IsSeparator(q[k])
    decreases |q| - i
  {
    if i < |q| && !IsSeparator(q[i]) then PairEnd(q, i + 1) else i
  }

  /** The pairs from i on. A separator at the end begins no further pair. */
  function Pairs(q: bytes, i: nat): seq<bytes>
    decreases |q| - i
  {
    if i >= |q| then [] else [q[i..PairEnd(q, i)]] + Pairs(q, PairEnd(q, i) + 1)
  }

  /** Where the first '=' is, or the end. */
  function Equals(pair: bytes, i: nat): (e: nat)
    requires i <= |pair|
    ensures i <= e <= |pair| && (e < |pair| ==> pair[e] == EQUALS)
    ensures forall k | i <= k < e :: pair[k] != EQUALS
    decreases |pair| - i
  {
    if i < |pair| && pair[i] != EQUALS then Equals(pair, i + 1) else i
  }

  function KeyOf(pair: bytes): bytes { pair[..Equals(pair, 0)] }

  /** A pair without '=' has an empty value. */
  function ValueOf(pair: bytes): bytes {
    if Equals(pair, 0) < |pair| then pair[Equals(pair, 0) + 1..] else []
  }

  /** What the text from i on decodes to; None for a broken escape. */
  function Decoded(s: bytes, i: nat): Option<bytes>
    decreases |s| - i
  {
    if i >= |s| then Some([])
    else if s[i] == PLUS then Before([SPACE], Decoded(s, i + 1))
    else if s[i] != PERCENT then Before([s[i]], Decoded(s, i + 1))
    else if i + 2 < |s| && IsHexDigit(s[i + 1]) && IsHexDigit(s[i + 2])
    then Before([DigitValue(s[i + 1]) * 16 + DigitValue(s[i + 2])], Decoded(s, i + 3))
    else None
  }

  /** The key decodes to `query`. */
  predicate NamesQuery(key: bytes) { Decoded(key, 0) == Some(WANT) }

  /** The raw values of the pairs that name the query. */
  function Values(pairs: seq<bytes>): seq<bytes> {
    if pairs == [] then []
    else (if NamesQuery(KeyOf(pairs[0])) then [ValueOf(pairs[0])] else []) + Values(pairs[1..])
  }

  function QueryValues(q: bytes): seq<bytes> { Values(Pairs(q, 0)) }

  datatype Extraction = Found(value: bytes) | NoQuery | DuplicateQuery | InvalidQueryEscape

  /** The one value of the one query parameter. */
  function Extracted(q: bytes): Extraction {
    var vs := QueryValues(q);
    if vs == [] then NoQuery
    else if |vs| > 1 then DuplicateQuery
    else if Decoded(vs[0], 0).None? then InvalidQueryEscape
    else Found(Decoded(vs[0], 0).value)
  }

  // ----- isQueryParam

  lemma DecodedStep(s: bytes, i: nat, k: nat)
    requires i < |s| && k < |WANT|
    ensures Decoded(s, i) == Some(WANT[k..]) <==>
              (s[i] == PERCENT ==> i + 2 < |s| && IsHexDigit(s[i + 1]) && IsHexDigit(s[i + 2]))
              && (var (c, next) := if s[i] == PLUS then (SPACE, i + 1) else if s[i] != PERCENT then (s[i], i + 1)
                                   else if i + 2 < |s| && IsHexDigit(s[i + 1]) && IsHexDigit(s[i + 2])
                                   then (DigitValue(s[i + 1]) * 16 + DigitValue(s[i + 2]), i + 3) else (0, i + 1);
                  c == WANT[k] && Decoded(s, next) == Some(WANT[k + 1..]))
  {
    assert WANT[k..] == [WANT[k]] + WANT[k + 1..];
    var (c, next) := if s[i] == PLUS then (SPACE, i + 1) else if s[i] != PERCENT then (s[i], i + 1)
                     else if i + 2 < |s| && IsHexDigit(s[i + 1]) && IsHexDigit(s[i + 2])
                     then (DigitValue(s[i + 1]) * 16 + DigitValue(s[i + 2]), i + 3) else (0, i + 1);
    if Decoded(s, next).Some? {
      var v := Decoded(s, next).value;
      assert ([c] + v)[0] == c && ([c] + v)[1..] == v;
      assert WANT[k..][0] == WANT[k] && WANT[k..][1..] == WANT[k + 1..];
    }
  }

  method IsQueryParam(key: bytes) returns (yes: bool)
    ensures yes <==> NamesQuery(key)
  {
    hide Decoded;
    var decoded: nat, i: nat := 0, 0;
    assert WANT[0..] == WANT;
    while i < |key|
      invariant decoded <= |WANT|
      invariant NamesQuery(key) <==> Decoded(key, i) == Some(WANT[decoded..])
      decreases |key| - i
    {
      if decoded == |WANT| {
        DecodedMore(key, i);
        return false;
      }
      DecodedStep(key, i, decoded);
      var c := key[i];
      var next := i + 1;
      if c == PLUS {
        c := SPACE;
      } else if c == PERCENT {
        if i + 2 >= |key| || !IsHexDigit(key[i + 1]) || !IsHexDigit(key[i + 2]) {
          return false;
        }
        c := DigitValue(key[i + 1]) * 16 + DigitValue(key[i + 2]);
        next := i + 3;
      }
      if c != WANT[decoded] {
        return false;
      }
      i, decoded := next, decoded + 1;
    }
    DecodedEnd(key, i);
    assert WANT[decoded..] == [] <==> decoded == |WANT|;
    yes := decoded == |WANT|;
  }

  lemma DecodedMore(s: bytes, i: nat)
    requires i < |s|
    ensures Decoded(s, i) != Some([])
  {
  }

  lemma DecodedEnd(s: bytes, i: nat)
    requires i >= |s|
    ensures Decoded(s, i) == Some([])
  {
  }

  // ----- hasQueryParam and extractQueryParam

  method ScanPair(q: bytes, start: nat) returns (end: nat)
    requires start <= |q|
    ensures end == PairEnd(q, start)
  {
    end := start;
    while end < |q| && q[end] != AMP && q[end] != SEMICOLON
      invariant start <= end <= |q| && PairEnd(q, end) == PairEnd(q, start)
    {
      end := end + 1;
    }
  }

  method ScanEquals(pair: bytes) returns (eq: nat)
    ensures eq == Equals(pair, 0)
  {
    eq := 0;
    while eq < |pair| && pair[eq] != EQUALS
      invariant 0 <= eq <= |pair| && Equals(pair, eq) == Equals(pair, 0)
    {
      eq := eq + 1;
    }
  }

  /** strings.Cut at the first '='. */
  method Cut(pair: bytes) returns (before: bytes, ok: bool)
    ensures ok <==> Equals(pair, 0) < |pair|
    ensures ok ==> before == KeyOf(pair)
  {
    var eq := ScanEquals(pair);
    ok, before := eq < |pair|, if eq < |pair| then pair[..eq] else pair;
  }

  lemma ValuesStep(q: bytes, i: nat)
    requires i < |q|
    ensures var pair := q[i..PairEnd(q, i)];
            Values(Pairs(q, i)) == (if NamesQuery(KeyOf(pair)) then [ValueOf(pair)] else []) + Values(Pairs(q, PairEnd(q, i) + 1))
  {
    hide NamesQuery, KeyOf, ValueOf;
    var rest := Pairs(q, PairEnd(q, i) + 1);
    assert ([q[i..PairEnd(q, i)]] + rest)[1..] == rest;
  }

  method HasQueryParam(q: bytes) returns (yes: bool)
    ensures yes <==> QueryValues(q) != []
  {
    hide NamesQuery;
    var i: nat := 0;
    while i < |q|
      invariant QueryValues(q) == Values(Pairs(q, i))
      decreases |q| - i
    {
      ValuesStep(q, i);
      var end := ScanPair(q, i);
      var pair := q[i..end];
      i := end + 1;
      var key := pair;
      var before, ok := Cut(pair);
      if ok {
        key := before;
      }
      assert key == KeyOf(pair);
      var named := IsQueryParam(key);
      if named {
        return true;
      }
    }
    return false;
  }

  predicate NeedsDecoding(s: bytes) { exists k | 0 <= k < |s| :: s[k] == PERCENT || s[k] == PLUS }

  method NeedsURLDecode(s: bytes) returns (yes: bool)
    ensures yes <==> NeedsDecoding(s)
  {
    for i := 0 to |s|
      invariant forall k | 0 <= k < i :: s[k] != PERCENT && s[k] != PLUS
    {
      if s[i] == PERCENT || s[i] == PLUS {
        return true;
      }
    }
    return false;
  }

  lemma {:induction false} NothingToDecode(s: bytes, i: nat)
    requires i <= |s| && !NeedsDecoding(s)
    ensures Decoded(s, i) == Some(s[i..])
    decreases |s| - i
  {
    if i < |s| {
      NothingToDecode(s, i + 1);
      assert s[i..] == [s[i]] + s[i + 1..];
    } else {
      assert s[i..] == [];
    }
  }

  method URLDecode(raw: bytes) returns (value: Option<bytes>)
    ensures value == Decoded(raw, 0)
  {
    var scratch: bytes, j: nat := [], 0;
    if Decoded(raw, 0).Some? {
      NoBytes(Decoded(raw, 0).value);
    }
    while j < |raw|
      invariant 0 <= j <= |raw| && Decoded(raw, 0) == Before(scratch, Decoded(raw, j))
      decreases |raw| - j
    {
      var c := raw[j];
      var next := j + 1;
      if raw[j] == PLUS {
        c := SPACE;
      } else if raw[j] == PERCENT {
        if j + 2 >= |raw| {
          return None;
        }
        if !IsHexDigit(raw[j + 1]) || !IsHexDigit(raw[j + 2]) {
          return None;
        }
        c := DigitValue(raw[j + 1]) * 16 + DigitValue(raw[j + 2]);
        next := j + 3;
      }
      BeforeBoth(scratch, [c], Decoded(raw, next));
      scratch, j := scratch + [c], next;
    }
    NoBytes(scratch);
    value := Some(scratch);
  }

  /** The key and the value of a pair. */
  method SplitPair(pair: bytes) returns (key: bytes, val: bytes)
    ensures key == KeyOf(pair) && val == ValueOf(pair)
  {
    key, val := pair, [];
    var eq := ScanEquals(pair);
    if eq < |pair| {
      key, val := pair[..eq], pair[eq + 1..];
    }
    assert pair[..|pair|] == pair;
  }

  /** The value of the one query parameter; with nothing to decode it is the text itself. */
  method DecodeValue(raw: bytes) returns (r: Extraction)
    ensures r == if Decoded(raw, 0).None? then InvalidQueryEscape else Found(Decoded(raw, 0).value)
  {
    var decode := NeedsURLDecode(raw);
    if !decode {
      NothingToDecode(raw, 0);
      assert raw[0..] == raw;
      return Found(raw);
    }
    var value := URLDecode(raw);
    r := if value.None? then InvalidQueryEscape else Found(value.value);
  }

  /** A second query parameter is an error rather than a value to choose between. */
  method ExtractQueryParam(q: bytes) returns (r: Extraction)
    ensures r == Extracted(q)
  {
    hide NamesQuery, Decoded, KeyOf, ValueOf, Values, Pairs;
    var i: nat, raw: bytes, found := 0, [], false;
    ValuesDone(q, i);
    while i < |q|
      invariant QueryValues(q) == (if found then [raw] else []) + Values(Pairs(q, i))
      decreases |q| - i
    {
      ValuesStep(q, i);
      ghost var later := Values(Pairs(q, PairEnd(q, i) + 1));
      ValuesAssoc(if found then [raw] else [], [ValueOf(q[i..PairEnd(q, i)])], later);
      NoValues(later);
      var end := ScanPair(q, i);
      var key, val := SplitPair(q[i..end]);
      i := end + 1;
      var named := IsQueryParam(key);
      if !named {
        continue;
      }
      if found {
        return DuplicateQuery;
      }
      raw, found := val, true;
    }
    ValuesDone(q, i);
    if !found {
      return NoQuery;
    }
    r := DecodeValue(raw);
  }

  lemma NoValues(vs: seq<bytes>)
    ensures [] + vs == vs
  {
  }

  lemma ValuesDone(q: bytes, i: nat)
    ensures i >= |q| ==> Values(Pairs(q, i)) == []
    ensures forall v: bytes :: [v] + Values(Pairs(q, |q|)) == [v]
    ensures [] + Values(Pairs(q, i)) == Values(Pairs(q, i))
  {
  }

  /** The two agree, although they split the pairs with different code. */
  lemma HasAgreesWithExtract(q: bytes)
    ensures QueryValues(q) == [] <==> Extracted(q) == NoQuery
  {
  }

  // ----- mergeQuery

  /** The parameters of the endpoint, then the client's. */
  function MergeQuery(upstream: bytes, client: bytes): bytes {
    if upstream == [] then client
    else if client == [] then upstream
    else upstream + [AMP] + client
  }

  lemma {:induction false} PairEndLater(p: bytes, c: bytes, i: nat)
    requires i <= |c|
    ensures PairEnd(p + c, |p| + i) == |p| + PairEnd(c, i)
    decreases |c| - i
  {
    if i < |c| && !IsSeparator(c[i]) {
      PairEndLater(p, c, i + 1);
    }
  }

  lemma PairsStep(q: bytes, i: nat)
    ensures i >= |q| ==> Pairs(q, i) == []
    ensures i < |q| ==> Pairs(q, i) == [q[i..PairEnd(q, i)]] + Pairs(q, PairEnd(q, i) + 1)
  {
    hide PairEnd;
  }

  lemma SliceLater(p: bytes, c: bytes, i: nat, e: nat)
    requires i <= e <= |c|
    ensures (p + c)[|p| + i..|p| + e] == c[i..e]
  {
  }

  lemma {:induction false} PairsLater(p: bytes, c: bytes, i: nat)
    ensures Pairs(p + c, |p| + i) == Pairs(c, i)
    decreases |c| - i
  {
    hide Pairs, PairEnd;
    PairsStep(c, i);
    PairsStep(p + c, |p| + i);
    if i < |c| {
      PairEndLater(p, c, i);
      var e := PairEnd(c, i);
      PairsLater(p, c, e + 1);
      SliceLater(p, c, i, e);
    }
  }

  lemma {:induction false} PairEndEarlier(u: bytes, rest: bytes, i: nat)
    requires i <= |u| && rest != [] && IsSeparator(rest[0])
    ensures PairEnd(u + rest, i) == PairEnd(u, i)
    decreases |u| - i
  {
    if i < |u| && !IsSeparator(u[i]) {
      PairEndEarlier(u, rest, i + 1);
    }
  }

  lemma {:induction false} ValuesMerge(u: bytes, b: byte, c: bytes, i: nat)
    requires i <= |u| && IsSeparator(b)
    ensures Values(Pairs(u + [b] + c, i)) == Values(Pairs(u, i)) + Values(Pairs(c, 0))
    decreases |u| - i
  {
    hide NamesQuery, KeyOf, ValueOf, Values, Pairs;
    var m, e := u + [b] + c, PairEnd(u, i);
    Assoc(u, [b], c);
    PairEndEarlier(u, [b] + c, i);
    ValuesStep(m, i);
    assert m[i..e] == u[i..e];
    if e < |u| {
      ValuesMerge(u, b, c, e + 1);
    } else {
      PairsLater(u + [b], c, 0);
      ValuesDone(u, e + 1);
    }
    if i < |u| {
      ValuesStep(u, i);
      ValuesAssoc(if NamesQuery(KeyOf(u[i..e])) then [ValueOf(u[i..e])] else [], Values(Pairs(u, e + 1)), Values(Pairs(c, 0)));
    } else {
      NoName();
      ValuesDone(u, i);
      assert u[i..e] == [];
    }
  }

  lemma ValuesAssoc(a: seq<bytes>, b: seq<bytes>, c: seq<bytes>)
    ensures a + (b + c) == a + b + c
  {
  }

  lemma NoName()
    ensures !NamesQuery(KeyOf([]))
  {
  }

  /** An ampersand and a semicolon end a pair, wherever they stand. */
  lemma SeparatorsSplit(u: bytes, b: byte, c: bytes)
    requires b == 0x26 || b == 0x3b
    ensures QueryValues(u + [b] + c) == QueryValues(u) + QueryValues(c)
  {
    ValuesMerge(u, b, c, 0);
  }

  lemma {:induction false} EqualsReach(pair: bytes, i: nat, e: nat)
    requires i <= e <= |pair| && (e < |pair| ==> pair[e] == 0x3d) && forall k | i <= k < e :: pair[k] != 0x3d
    ensures Equals(pair, i) == e
    decreases e - i
  {
    if i < e {
      EqualsReach(pair, i + 1, e);
    }
  }

  lemma {:induction false} PairEndReach(q: bytes, i: nat)
    requires i <= |q| && forall k | i <= k < |q| :: q[k] != 0x26 && q[k] != 0x3b
    ensures PairEnd(q, i) == |q|
    decreases |q| - i
  {
    if i < |q| {
      PairEndReach(q, i + 1);
    }
  }

  /** Text with neither of them is one pair: a key, and from the first '=' on its value. If the
      key decodes to `query`, the value is one of the query values. */
  lemma OnePair(key: bytes, val: bytes, equals: bool)
    requires forall k | 0 <= k < |key| :: key[k] != 0x26 && key[k] != 0x3b && key[k] != 0x3d
    requires forall k | 0 <= k < |val| :: val[k] != 0x26 && val[k] != 0x3b
    requires !equals ==> val == []
    ensures QueryValues(key + (if equals then [0x3d] else []) + val)
            == if Decoded(key, 0) == Some([0x71, 0x75, 0x65, 0x72, 0x79]) then [val] else []
  {
    hide *;
    var q: bytes := key + (if equals then [0x3d] else []) + val;
    Halves(key, val, equals);
    if q == [] {
      Nothing(key);
    } else {
      PairEndReach(q, 0);
      WholePair(q);
      WantIs(key);
    }
  }

  lemma WantIs(key: bytes)
    ensures NamesQuery(key) <==> Decoded(key, 0) == Some([0x71, 0x75, 0x65, 0x72, 0x79])
  {
    hide Decoded;
  }

  lemma Nothing(key: bytes)
    ensures QueryValues([]) == [] && Decoded([], 0) == Some([])
  {
  }

  lemma Halves(key: bytes, val: bytes, equals: bool)
    requires forall k | 0 <= k < |key| :: key[k] != 0x3d
    requires !equals ==> val == []
    ensures var q: bytes := key + (if equals then [0x3d] else []) + val;
            KeyOf(q) == key && ValueOf(q) == val
  {
    hide Equals;
    var q: bytes := key + (if equals then [0x3d] else []) + val;
    EqualsReach(q, 0, |key|);
    assert q[..|key|] == key;
    if equals {
      assert q[|key|] == 0x3d && q[|key| + 1..] == val;
    }
  }

  lemma WholePair(q: bytes)
    requires q != [] && PairEnd(q, 0) == |q|
    ensures QueryValues(q) == if NamesQuery(KeyOf(q)) then [ValueOf(q)] else []
  {
    hide NamesQuery, KeyOf, ValueOf, PairEnd, Pairs;
    PairsStep(q, 0);
    PairsStep(q, |q| + 1);
    assert q[0..|q|] == q;
    ValuesStep(q, 0);
  }

  lemma {:induction false} DecodedLater(p: bytes, s: bytes, i: nat)
    ensures Decoded(p + s, |p| + i) == Decoded(s, i)
    decreases |s| - i
  {
    if i < |s| {
      DecodedLater(p, s, i + 1);
      DecodedLater(p, s, i + 3);
      assert forall k: nat | k < |s| :: (p + s)[|p| + k] == s[k];
    }
  }

  lemma DecodedStarts(s: bytes, i: nat)
    requires i < |s|
    ensures s[i] == 0x2b ==> Decoded(s, i) == Before([0x20], Decoded(s, i + 1))
    ensures s[i] != 0x2b && s[i] != 0x25 ==> Decoded(s, i) == Before([s[i]], Decoded(s, i + 1))
    ensures s[i] == 0x25 && i + 2 < |s| && IsHexDigit(s[i + 1]) && IsHexDigit(s[i + 2]) ==>
              Decoded(s, i) == Before([DigitValue(s[i + 1]) * 16 + DigitValue(s[i + 2])], Decoded(s, i + 3))
    ensures s[i] == 0x25 && !(i + 2 < |s| && IsHexDigit(s[i + 1]) && IsHexDigit(s[i + 2])) ==> Decoded(s, i) == None
  {
  }

  /** A percent sign and two digits of either case are the byte they write. */
  lemma PercentDecoded(s: bytes, c: byte, u: bool, l: bool)
    ensures Decoded([0x25, HexText(c / 16, u), HexText(c % 16, l)] + s, 0) == Before([c], Decoded(s, 0))
  {
    hide *;
    var e := [0x25, HexText(c / 16, u), HexText(c % 16, l)];
    assert forall k: nat | k < 3 :: (e + s)[k] == e[k];
    HexDigitsAre(0);
    DecodedStarts(e + s, 0);
    DecodedLater(e, s, 0);
  }

  /** A plus sign is a space, and any other byte but the percent sign is itself. */
  lemma ByteDecoded(s: bytes, c: byte)
    requires c != 0x25
    ensures Decoded([c] + s, 0) == Before([if c == 0x2b then 0x20 else c], Decoded(s, 0))
  {
    hide *;
    DecodedStarts([c] + s, 0);
    DecodedLater([c], s, 0);
  }

  /** A percent sign without two digits after it is broken. */
  lemma BrokenEscape(s: bytes)
    requires |s| < 2 || (forall n: nat, u: bool | n < 16 :: s[0] != HexText(n, u)) || (forall n: nat, u: bool | n < 16 :: s[1] != HexText(n, u))
    ensures Decoded([0x25] + s, 0) == None
  {
    hide *;
    var e: bytes := [0x25] + s;
    DecodedStarts(e, 0);
    if |s| >= 2 {
      assert e[1] == s[0] && e[2] == s[1];
      HexDigitsAre(s[0]);
      HexDigitsAre(s[1]);
    }
  }

  /** Merging adds up the query parameters of both sides. */
  lemma MergeAddsUp(u: bytes, c: bytes)
    ensures QueryValues(MergeQuery(u, c)) == QueryValues(u) + QueryValues(c)
  {
    hide NamesQuery;
    if u != [] && c != [] {
      ValuesMerge(u, AMP, c, 0);
    } else {
      assert QueryValues([]) == [];
    }
  }

  /** Endpoint parameters that name no query never change the document. */
  lemma MergeKeepsDocument(u: bytes, c: bytes)
    requires QueryValues(u) == []
    ensures Extracted(MergeQuery(u, c)) == Extracted(c)
  {
    hide QueryValues;
    MergeAddsUp(u, c);
    assert [] + QueryValues(c) == QueryValues(c);
  }
}
