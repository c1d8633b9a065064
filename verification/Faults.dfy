/**
 Where a rejected source goes wrong: what was read up to there begins a document of the
 grammar, and one is built that begins with it.
 */
module Faults {
  import opened Bytes
  import opened Lexical
  import opened Numbers
  import opened Ast
  import opened Grammar
  import opened Soundness
  import opened TextForm
  import D = Descent
  import L = Limits

  /** A number, whichever it is. */
  const ANY_NUMBER: Token := IntToken([MINUS, ZERO])

  /** A string, whichever it is. */
  const ANY_STRING: Token := StringToken([])

  /** The error e at p is due to what stands at q; more is what could have stood there instead of
      a variable, or what stands there and is malformed. */
  predicate Site(s: bytes, q: nat, e: Error, p: nat, more: seq<Token>) {
    && q <= |s| && Skip(s, q) == q
    && if e == TooDeep then p == q && more == []
       else if q == |s| then e == UnexpectedEOF && p == q && more == []
       else
         || (e == UnexpectedToken && p == q && more == [])
         || (e == UnexpectedVariable && p == q && s[q] == DOLLAR && more == [ANY_NUMBER])
         || (Lex(s, q) == Err(e, p) && s[q] == QUOTE && more == [ANY_STRING])
         || (Lex(s, q) == Err(e, p) && (s[q] == MINUS || IsDigit(s[q])) && more == [ANY_NUMBER])
  }

  /** The tokens read before the site q. */
  datatype Fault = Fault(us: seq<Token>, q: nat, more: seq<Token>)

  /** A bracket or a brace was opened last. */
  predicate JustOpened(us: seq<Token>) {
    us != [] && (us[|us| - 1] == Punct(LBRACKET) || us[|us| - 1] == Punct(LBRACE))
  }

  predicate FaultAt(s: bytes, i: nat, e: Error, p: nat, f: Fault) {
    Reads(s, i, f.us, f.q) && Site(s, f.q, e, p, f.more) && (e == TooDeep ==> JustOpened(f.us))
  }

  /** The tokens xs begin with what was read and more. */
  predicate Begun(f: Fault, xs: seq<Token>) {
    f.us + f.more <= xs
  }

  // ----- Putting faults together

  /** The fault comes after the tokens a. */
  lemma After(s: bytes, i: nat, a: seq<Token>, j: nat, k: nat, e: Error, p: nat, f: Fault, xs: seq<Token>)
    requires Reads(s, i, a, j) && (k == j || k == Skip(s, j)) && FaultAt(s, k, e, p, f) && Begun(f, xs)
    ensures FaultAt(s, i, e, p, f.(us := a + f.us)) && Begun(f.(us := a + f.us), a + xs)
  {
    hide Reads, Site;
    ReadsBoth(s, i, a, j, f.us, f.q);
    assert a + f.us + f.more == a + (f.us + f.more);
  }

  lemma BegunMore(f: Fault, xs: seq<Token>, ys: seq<Token>)
    requires Begun(f, xs)
    ensures Begun(f, xs + ys)
  {
  }

  /** Nothing is read before the fault. */
  lemma Here(s: bytes, i: nat, k: nat, e: Error, p: nat, more: seq<Token>, xs: seq<Token>)
    requires i <= |s| && (k == i || k == Skip(s, i)) && Site(s, k, e, p, more) && more <= xs && e != TooDeep
    ensures FaultAt(s, i, e, p, Fault([], k, more)) && Begun(Fault([], k, more), xs)
  {
    hide Reads, Site;
    ReadsSkip(s, i);
    assert [] + more == more;
  }

  /** What was just opened is too deep. */
  lemma Opened(s: bytes, i: nat, b: byte, xs: seq<Token>)
    requires i < |s| && s[i] == b && (b == LBRACKET || b == LBRACE)
    ensures var f := Fault([Punct(b)], Skip(s, i + 1), []);
            FaultAt(s, i, TooDeep, f.q, f) && Begun(f, [Punct(b)] + xs)
  {
    hide Reads, Skip;
    assert IsPunctuator(b);
    ReadsByte(s, i);
    SkipIdempotent(s, i + 1);
    ReadsSkip(s, i + 1);
    ReadsBoth(s, i, [Punct(b)], i + 1, [], Skip(s, i + 1));
    Unit([Punct(b)]);
  }

  /** Where no token is left, or another had to come. */
  lemma Unexpected(s: bytes, q: nat, e: Error)
    requires q <= |s| && Skip(s, q) == q && e == if q == |s| then UnexpectedEOF else UnexpectedToken
    ensures Site(s, q, e, q, [])
  {
  }

  /** A Name that is missing. */
  lemma NoName(s: bytes, i: nat)
    requires i <= |s| && Skip(s, i) == i && D.Name(s, i).Err?
    ensures Site(s, i, D.Name(s, i).e, D.Name(s, i).pos, []) && D.Name(s, i).e != TooDeep
  {
  }

  lemma NoByte(s: bytes, i: nat, b: byte)
    requires i <= |s| && Skip(s, i) == i && D.Expect(s, i, b).Err?
    ensures Site(s, i, D.Expect(s, i, b).e, D.Expect(s, i, b).pos, []) && D.Expect(s, i, b).e != TooDeep
  {
  }

  /** A string that is malformed. */
  lemma BadString(s: bytes, i: nat)
    requires i < |s| && Skip(s, i) == i && s[i] == QUOTE && D.StringToken(s, i).Err?
    ensures Site(s, i, D.StringToken(s, i).e, D.StringToken(s, i).pos, [ANY_STRING]) && D.StringToken(s, i).e != TooDeep
  {
    L.StringNotDeep(s, i);
    hide D.StringToken, Number;
    FirstByte(s, i, D.ELLIPSIS);
  }

  lemma BadNumber(s: bytes, i: nat)
    requires i < |s| && Skip(s, i) == i && (s[i] == MINUS || IsDigit(s[i])) && Number(s, i).Err?
    ensures Site(s, i, Number(s, i).e, Number(s, i).pos, [ANY_NUMBER]) && Number(s, i).e != TooDeep
  {
    hide D.StringToken, Number;
    FirstByte(s, i, D.ELLIPSIS);
  }

  // ----- The smallest instance of each production

  const NAME: bytes := [0x61]

  const A_FIELD: Selection := Field(None, NAME, [], [], [])

  lemma Smallest()
    ensures IsName(NAME) && IsNumberText([MINUS, ZERO], false) && Utf8.IsUtf8([])
    ensures forall k: bool :: WfValue(NullValue, k) && WfValue(IntValue([MINUS, ZERO]), k) && WfValue(StringValue([]), k)
    ensures WfValue(Variable(NAME), false)
    ensures forall k: bool :: WfItems([], k) && WfFields([], k) && WfArguments([], k) && WfDirectives([], k)
    ensures WfVariables([]) && WfType(Named(NAME)) && WfSelections([])
    ensures WfSelections([A_FIELD])
  {
    assert Number([MINUS, ZERO], 0) == Ok(false, 2);
    assert [A_FIELD][1..] == [];
    assert WfSelection(A_FIELD);
  }

  lemma SmallestItems(constant: bool)
    ensures WfItems([NullValue], constant) && WfFields([ObjectField(NAME, NullValue)], constant)
  {
    Smallest();
    assert [NullValue][1..] == [] && [ObjectField(NAME, NullValue)][1..] == [];
    assert WfField(ObjectField(NAME, NullValue), constant);
  }

  // ----- Values

  lemma {:induction false} ValueFault(s: bytes, i: nat, constant: bool, room: nat) returns (f: Fault, v: Value)
    requires i <= |s| && Skip(s, i) == i && D.ParseValue(s, i, constant, room).Err?
    ensures var r := D.ParseValue(s, i, constant, room);
            FaultAt(s, i, r.e, r.pos, f) && WfValue(v, constant) && Begun(f, ValueTokens(v))
    decreases |s| - i, 1
  {
    if i < |s| && s[i] == LBRACKET {
      f, v := ListFault(s, i, constant, room);
    } else if i < |s| && s[i] == LBRACE {
      f, v := ObjectFault(s, i, constant, room);
    } else {
      f, v := LeafFault(s, i, constant, room);
    }
  }

  lemma LeafFault(s: bytes, i: nat, constant: bool, room: nat) returns (f: Fault, v: Value)
    requires i <= |s| && Skip(s, i) == i && D.ParseValue(s, i, constant, room).Err?
    requires i < |s| ==> s[i] != LBRACKET && s[i] != LBRACE
    ensures var r := D.ParseValue(s, i, constant, room);
            FaultAt(s, i, r.e, r.pos, f) && WfValue(v, constant) && Begun(f, ValueTokens(v))
  {
    hide D.StringToken, Number, Skip, IsKeywordAt, NameEnd, Reads, Lex, FaultAt, Begun, WfValue;
    var r := D.ParseValue(s, i, constant, room);
    Smallest();
    if i < |s| && s[i] == DOLLAR {
      if constant {
        v, f := IntValue([MINUS, ZERO]), Fault([], i, [ANY_NUMBER]);
        Here(s, i, i, r.e, r.pos, [ANY_NUMBER], ValueTokens(v));
      } else {
        v := Variable(NAME);
        var j := Skip(s, i + 1);
        SkipIdempotent(s, i + 1);
        NoName(s, j);
        ReadsByte(s, i);
        Here(s, j, j, r.e, r.pos, [], [NameToken(NAME)]);
        f := Fault([], j, []);
        After(s, i, [Punct(DOLLAR)], i + 1, j, r.e, r.pos, f, [NameToken(NAME)]);
        f := f.(us := [Punct(DOLLAR)] + f.us);
        assert ValueTokens(v) == [Punct(DOLLAR)] + [NameToken(NAME)];
      }
    } else if i < |s| && s[i] == QUOTE {
      v, f := StringValue([]), Fault([], i, [ANY_STRING]);
      BadString(s, i);
      Here(s, i, i, r.e, r.pos, [ANY_STRING], ValueTokens(v));
    } else if i < |s| && (s[i] == MINUS || IsDigit(s[i])) {
      v, f := IntValue([MINUS, ZERO]), Fault([], i, [ANY_NUMBER]);
      BadNumber(s, i);
      Here(s, i, i, r.e, r.pos, [ANY_NUMBER], ValueTokens(v));
    } else {
      v, f := NullValue, Fault([], i, []);
      Unexpected(s, i, r.e);
      Here(s, i, i, r.e, r.pos, [], ValueTokens(v));
    }
  }

  lemma {:induction false} ListFault(s: bytes, i: nat, constant: bool, room: nat) returns (f: Fault, v: Value)
    requires i < |s| && s[i] == LBRACKET && D.ParseValue(s, i, constant, room).Err?
    ensures var r := D.ParseValue(s, i, constant, room);
            FaultAt(s, i, r.e, r.pos, f) && WfValue(v, constant) && Begun(f, ValueTokens(v))
    decreases |s| - i, 0
  {
    Smallest();
    SmallestItems(constant);
    hide *;
    ListTokensAre([], constant);
    L.ListIs(s, i, constant, room);
    L.WithinIs(room, Skip(s, i + 1), L.ListRest(s, Skip(s, i + 1), constant, if room == 0 then 0 else room - 1));
    var j := Skip(s, i + 1);
    var r := D.ParseValue(s, i, constant, room);
    SkipIdempotent(s, i + 1);
    var vs := [NullValue];
    if room == 0 {
      Opened(s, i, LBRACKET, ItemsTokens(vs) + [Punct(RBRACKET)]);
      f := Fault([Punct(LBRACKET)], j, []);
    } else {
      f, vs := ItemsAllFault(s, j, constant, room - 1);
      ReadsOpen(s, i, LBRACKET);
      After(s, i, [Punct(LBRACKET)], i + 1, j, r.e, r.pos, f, ItemsTokens(vs) + [Punct(RBRACKET)]);
      f := f.(us := [Punct(LBRACKET)] + f.us);
    }
    v := ListValue(vs);
    ListTokensAre(vs, constant);
  }

  lemma ReadsOpen(s: bytes, i: nat, b: byte)
    requires i < |s| && s[i] == b && IsPunctuator(b)
    ensures Reads(s, i, [Punct(b)], i + 1)
  {
    hide Reads;
    ReadsByte(s, i);
  }

  lemma ListTokensAre(vs: seq<Value>, constant: bool)
    ensures ValueTokens(ListValue(vs)) == [Punct(LBRACKET)] + (ItemsTokens(vs) + [Punct(RBRACKET)])
    ensures WfValue(ListValue(vs), constant) <==> WfItems(vs, constant)
    ensures IsPunctuator(LBRACKET) && IsPunctuator(LBRACE)
  {
    hide ItemsTokens, WfItems;
  }

  /** The items of a list, of which there are some. */
  lemma {:induction false} ItemsAllFault(s: bytes, j: nat, constant: bool, room: nat) returns (f: Fault, vs: seq<Value>)
    requires j <= |s| && Skip(s, j) == j && L.ListRest(s, j, constant, room).Err?
    ensures var r := L.ListRest(s, j, constant, room);
            FaultAt(s, j, r.e, r.pos, f) && WfItems(vs, constant) && Begun(f, ItemsTokens(vs) + [Punct(RBRACKET)])
    decreases |s| - j, 3
  {
    hide D.ParseValue, D.ParseItems, Skip, FaultAt, Begun, Reads, WfValue, ValueTokens;
    var r, v := L.ListRest(s, j, constant, room), D.ParseValue(s, j, constant, room);
    var close := [Punct(RBRACKET)];
    Smallest();
    if v.Err? {
      var w;
      f, w := ValueFault(s, j, constant, room);
      BegunMore(f, ValueTokens(w), close);
      vs := [w];
      ItemsAre(w, [], close, constant);
      Unit(close);
    } else {
      var more;
      f, more := ItemsFault(s, v.next, constant, room);
      ValueSound(s, j, constant, room);
      After(s, j, ValueTokens(v.v), v.next, v.next, r.e, r.pos, f, ItemsTokens(more) + close);
      f := f.(us := ValueTokens(v.v) + f.us);
      vs := [v.v] + more;
      ItemsAre(v.v, more, close, constant);
    }
  }

  lemma ItemsAre(v: Value, vs: seq<Value>, close: seq<Token>, constant: bool)
    ensures ItemsTokens([v] + vs) + close == ValueTokens(v) + (ItemsTokens(vs) + close)
    ensures WfItems([v] + vs, constant) <==> WfValue(v, constant) && WfItems(vs, constant)
    ensures [v] + [] == [v] && ItemsTokens([]) + close == close
  {
    hide ValueTokens, WfValue;
    assert ([v] + vs)[1..] == vs;
  }

  lemma {:induction false} ItemsFault(s: bytes, i: nat, constant: bool, room: nat) returns (f: Fault, vs: seq<Value>)
    requires i <= |s| && D.ParseItems(s, i, constant, room).Err?
    ensures var r := D.ParseItems(s, i, constant, room);
            FaultAt(s, i, r.e, r.pos, f) && WfItems(vs, constant) && Begun(f, ItemsTokens(vs) + [Punct(RBRACKET)])
    decreases |s| - i, 4
  {
    hide D.ParseValue, Skip, FaultAt, Begun, Reads, WfValue, ValueTokens, Site;
    var j, r := Skip(s, i), D.ParseItems(s, i, constant, room);
    SkipIdempotent(s, i);
    Smallest();
    if j == |s| {
      vs, f := [], Fault([], j, []);
      Unexpected(s, j, r.e);
      Here(s, i, j, r.e, r.pos, [], ItemsTokens(vs) + [Punct(RBRACKET)]);
    } else {
      ItemsRestIs(s, i, constant, room);
      f, vs := ItemsAllFault(s, j, constant, room);
      ReadsSkip(s, i);
      Later(s, i, j, r.e, r.pos, f);
    }
  }

  lemma ItemsRestIs(s: bytes, i: nat, constant: bool, room: nat)
    requires i <= |s|
    ensures var j := Skip(s, i);
            j < |s| && s[j] != RBRACKET && D.ParseItems(s, i, constant, room).Err? ==>
              L.ListRest(s, j, constant, room).Err?
              && L.ListRest(s, j, constant, room).e == D.ParseItems(s, i, constant, room).e
              && L.ListRest(s, j, constant, room).pos == D.ParseItems(s, i, constant, room).pos
  {
    hide D.ParseValue, Skip;
  }

  /** Ignored tokens before it make no difference. */
  lemma Later(s: bytes, i: nat, j: nat, e: Error, p: nat, f: Fault)
    requires i <= |s| && j == Skip(s, i) && FaultAt(s, j, e, p, f)
    ensures FaultAt(s, i, e, p, f)
  {
    hide Reads, Site;
    ReadsFrom(s, i, f.us, f.q);
  }

  lemma {:induction false} ObjectFault(s: bytes, i: nat, constant: bool, room: nat) returns (f: Fault, v: Value)
    requires i < |s| && s[i] == LBRACE && D.ParseValue(s, i, constant, room).Err?
    ensures var r := D.ParseValue(s, i, constant, room);
            FaultAt(s, i, r.e, r.pos, f) && WfValue(v, constant) && Begun(f, ValueTokens(v))
    decreases |s| - i, 0
  {
    Smallest();
    SmallestItems(constant);
    hide *;
    L.ObjectIs(s, i, constant, room);
    L.WithinIs(room, Skip(s, i + 1), L.ObjectRest(s, Skip(s, i + 1), constant, if room == 0 then 0 else room - 1));
    ListTokensAre([], constant);
    var j := Skip(s, i + 1);
    var r := D.ParseValue(s, i, constant, room);
    SkipIdempotent(s, i + 1);
    var fs := [ObjectField(NAME, NullValue)];
    if room == 0 {
      Opened(s, i, LBRACE, FieldsTokens(fs) + [Punct(RBRACE)]);
      f := Fault([Punct(LBRACE)], j, []);
    } else {
      f, fs := FieldsAllFault(s, j, constant, room - 1);
      ReadsOpen(s, i, LBRACE);
      After(s, i, [Punct(LBRACE)], i + 1, j, r.e, r.pos, f, FieldsTokens(fs) + [Punct(RBRACE)]);
      f := f.(us := [Punct(LBRACE)] + f.us);
    }
    v := ObjectValue(fs);
    ObjectTokensAre(fs, constant);
  }

  lemma ObjectTokensAre(fs: seq<ObjectField>, constant: bool)
    ensures ValueTokens(ObjectValue(fs)) == [Punct(LBRACE)] + (FieldsTokens(fs) + [Punct(RBRACE)])
    ensures WfValue(ObjectValue(fs), constant) <==> WfFields(fs, constant)
  {
    hide FieldsTokens, WfFields;
  }

  lemma {:induction false} FieldsAllFault(s: bytes, j: nat, constant: bool, room: nat) returns (f: Fault, fs: seq<ObjectField>)
    requires j <= |s| && Skip(s, j) == j && L.ObjectRest(s, j, constant, room).Err?
    ensures var r := L.ObjectRest(s, j, constant, room);
            FaultAt(s, j, r.e, r.pos, f) && WfFields(fs, constant) && Begun(f, FieldsTokens(fs) + [Punct(RBRACE)])
    decreases |s| - j, 3
  {
    hide D.ParseField, D.ParseFields, Skip, FaultAt, Begun, Reads, WfField, FieldTokens;
    var r, v := L.ObjectRest(s, j, constant, room), D.ParseField(s, j, constant, room);
    var close := [Punct(RBRACE)];
    Smallest();
    if v.Err? {
      var w;
      f, w := FieldFault(s, j, constant, room);
      BegunMore(f, FieldTokens(w), close);
      fs := [w];
      FieldsAre(w, [], close, constant);
      Unit(close);
    } else {
      var more;
      f, more := FieldsFault(s, v.next, constant, room);
      FieldSound(s, j, constant, room);
      After(s, j, FieldTokens(v.v), v.next, v.next, r.e, r.pos, f, FieldsTokens(more) + close);
      f := f.(us := FieldTokens(v.v) + f.us);
      fs := [v.v] + more;
      FieldsAre(v.v, more, close, constant);
    }
  }

  lemma FieldsAre(v: ObjectField, vs: seq<ObjectField>, close: seq<Token>, constant: bool)
    ensures FieldsTokens([v] + vs) + close == FieldTokens(v) + (FieldsTokens(vs) + close)
    ensures WfFields([v] + vs, constant) <==> WfField(v, constant) && WfFields(vs, constant)
    ensures [v] + [] == [v] && FieldsTokens([]) + close == close
  {
    hide FieldTokens, WfField;
    assert ([v] + vs)[1..] == vs;
  }

  lemma {:induction false} FieldsFault(s: bytes, i: nat, constant: bool, room: nat) returns (f: Fault, fs: seq<ObjectField>)
    requires i <= |s| && D.ParseFields(s, i, constant, room).Err?
    ensures var r := D.ParseFields(s, i, constant, room);
            FaultAt(s, i, r.e, r.pos, f) && WfFields(fs, constant) && Begun(f, FieldsTokens(fs) + [Punct(RBRACE)])
    decreases |s| - i, 4
  {
    hide D.ParseField, Skip, FaultAt, Begun, Reads, WfField, FieldTokens, Site;
    var j, r := Skip(s, i), D.ParseFields(s, i, constant, room);
    SkipIdempotent(s, i);
    Smallest();
    if j == |s| {
      fs, f := [], Fault([], j, []);
      Unexpected(s, j, r.e);
      Here(s, i, j, r.e, r.pos, [], FieldsTokens(fs) + [Punct(RBRACE)]);
    } else {
      FieldsRestIs(s, i, constant, room);
      f, fs := FieldsAllFault(s, j, constant, room);
      Later(s, i, j, r.e, r.pos, f);
    }
  }

  lemma FieldsRestIs(s: bytes, i: nat, constant: bool, room: nat)
    requires i <= |s|
    ensures var j := Skip(s, i);
            j < |s| && s[j] != RBRACE && D.ParseFields(s, i, constant, room).Err? ==>
              L.ObjectRest(s, j, constant, room).Err?
              && L.ObjectRest(s, j, constant, room).e == D.ParseFields(s, i, constant, room).e
              && L.ObjectRest(s, j, constant, room).pos == D.ParseFields(s, i, constant, room).pos
  {
    hide D.ParseField, Skip;
  }

  /** A name, a colon and a value: the fault of a field or an argument. */
  lemma {:induction false} NamedFault(s: bytes, i: nat, constant: bool, room: nat, e: Error, p: nat)
    returns (f: Fault, n: bytes, v: Value)
    requires i <= |s| && Skip(s, i) == i && D.ParseField(s, i, constant, room) == Err(e, p)
    ensures FaultAt(s, i, e, p, f) && IsName(n) && WfValue(v, constant)
    ensures Begun(f, [NameToken(n), Punct(COLON)] + ValueTokens(v))
    decreases |s| - i, 0
  {
    hide D.ParseValue, D.Name, Skip, FaultAt, Begun, Reads, WfValue, ValueTokens, Site, IsName;
    Smallest();
    var name := D.Name(s, i);
    v := NullValue;
    if name.Err? {
      n, f := NAME, Fault([], i, []);
      NoName(s, i);
      Here(s, i, i, e, p, [], [NameToken(n), Punct(COLON)] + ValueTokens(v));
      return;
    }
    n := name.v;
    ReadsName(s, i);
    var j := Skip(s, name.next);
    SkipIdempotent(s, name.next);
    var colon := D.Expect(s, j, COLON);
    if colon.Err? {
      NoByte(s, j, COLON);
      f := Fault([], j, []);
      Here(s, j, j, e, p, [], [Punct(COLON)] + ValueTokens(v));
      After(s, i, [NameToken(n)], name.next, j, e, p, f, [Punct(COLON)] + ValueTokens(v));
    } else {
      var k := Skip(s, j + 1);
      SkipIdempotent(s, j + 1);
      f, v := ValueFault(s, k, constant, room);
      ReadsOpen(s, j, COLON);
      After(s, j, [Punct(COLON)], j + 1, k, e, p, f, ValueTokens(v));
      f := f.(us := [Punct(COLON)] + f.us);
      After(s, i, [NameToken(n)], name.next, j, e, p, f, [Punct(COLON)] + ValueTokens(v));
    }
    f := f.(us := [NameToken(n)] + f.us);
    assert [NameToken(n), Punct(COLON)] + ValueTokens(v) == [NameToken(n)] + ([Punct(COLON)] + ValueTokens(v));
  }

  lemma {:induction false} FieldFault(s: bytes, i: nat, constant: bool, room: nat) returns (f: Fault, x: ObjectField)
    requires i <= |s| && Skip(s, i) == i && D.ParseField(s, i, constant, room).Err?
    ensures var r := D.ParseField(s, i, constant, room);
            FaultAt(s, i, r.e, r.pos, f) && WfField(x, constant) && Begun(f, FieldTokens(x))
    decreases |s| - i, 1
  {
    hide D.ParseField, FaultAt, Begun, WfValue, ValueTokens, IsName;
    var r := D.ParseField(s, i, constant, room);
    var n, v;
    f, n, v := NamedFault(s, i, constant, room, r.e, r.pos);
    x := ObjectField(n, v);
  }

  // ----- Arguments and directives

  lemma ArgumentIs(s: bytes, i: nat, constant: bool, limit: nat)
    requires i <= |s|
    ensures var a, f := D.ParseArgument(s, i, constant, limit), D.ParseField(s, i, constant, limit);
            a == if f.Err? then Err(f.e, f.pos) else Ok(Argument(f.v.name, f.v.value), f.next)
  {
    hide D.ParseValue, Skip, NameEnd;
  }

  lemma ArgumentFault(s: bytes, i: nat, constant: bool, limit: nat) returns (f: Fault, x: Argument)
    requires i <= |s| && Skip(s, i) == i && D.ParseArgument(s, i, constant, limit).Err?
    ensures var r := D.ParseArgument(s, i, constant, limit);
            FaultAt(s, i, r.e, r.pos, f) && WfArgument(x, constant) && Begun(f, ArgumentTokens(x))
  {
    ArgumentIs(s, i, constant, limit);
    hide D.ParseField, D.ParseArgument, FaultAt, Begun, WfValue, ValueTokens, IsName;
    var r := D.ParseArgument(s, i, constant, limit);
    var n, v;
    f, n, v := NamedFault(s, i, constant, limit, r.e, r.pos);
    x := Argument(n, v);
  }

  /** The arguments after the opening parenthesis, of which there are some. */
  lemma {:induction false} ArgumentsFault(s: bytes, i: nat, constant: bool, limit: nat) returns (f: Fault, xs: seq<Argument>)
    requires i <= |s| && Skip(s, i) == i && D.ParseArguments(s, i, constant, limit).Err?
    ensures var r := D.ParseArguments(s, i, constant, limit);
            FaultAt(s, i, r.e, r.pos, f) && xs != [] && WfArguments(xs, constant)
            && Begun(f, ArgumentListTokens(xs) + [Punct(RPAREN)])
    decreases |s| - i, 1
  {
    hide D.ParseArgument, D.ArgumentsRest, Skip, FaultAt, Begun, Reads, WfArgument, ArgumentTokens;
    var r, a := D.ParseArguments(s, i, constant, limit), D.ParseArgument(s, i, constant, limit);
    var close := [Punct(RPAREN)];
    Smallest();
    if a.Err? {
      var w;
      f, w := ArgumentFault(s, i, constant, limit);
      BegunMore(f, ArgumentTokens(w), close);
      xs := [w];
      ArgumentsAre(w, [], close, constant);
      Unit(close);
    } else {
      var more;
      f, more := ArgumentsRestFault(s, a.next, constant, limit);
      ArgumentSound(s, i, constant, limit);
      After(s, i, ArgumentTokens(a.v), a.next, a.next, r.e, r.pos, f, ArgumentListTokens(more) + close);
      f := f.(us := ArgumentTokens(a.v) + f.us);
      xs := [a.v] + more;
      ArgumentsAre(a.v, more, close, constant);
    }
  }

  lemma ArgumentsAre(v: Argument, vs: seq<Argument>, close: seq<Token>, constant: bool)
    ensures ArgumentListTokens([v] + vs) + close == ArgumentTokens(v) + (ArgumentListTokens(vs) + close)
    ensures WfArguments([v] + vs, constant) <==> WfArgument(v, constant) && WfArguments(vs, constant)
    ensures [v] + [] == [v] && ArgumentListTokens([]) + close == close
  {
    hide ArgumentTokens, WfArgument;
    assert ([v] + vs)[1..] == vs;
  }

  lemma {:induction false} ArgumentsRestFault(s: bytes, i: nat, constant: bool, limit: nat) returns (f: Fault, xs: seq<Argument>)
    requires i <= |s| && D.ArgumentsRest(s, i, constant, limit).Err?
    ensures var r := D.ArgumentsRest(s, i, constant, limit);
            FaultAt(s, i, r.e, r.pos, f) && WfArguments(xs, constant) && Begun(f, ArgumentListTokens(xs) + [Punct(RPAREN)])
    decreases |s| - i, 2
  {
    hide D.ParseArguments, Skip, FaultAt, Begun, Reads, Site;
    var j, r := Skip(s, i), D.ArgumentsRest(s, i, constant, limit);
    SkipIdempotent(s, i);
    Smallest();
    if j == |s| {
      xs, f := [], Fault([], j, []);
      Unexpected(s, j, r.e);
      Here(s, i, j, r.e, r.pos, [], ArgumentListTokens(xs) + [Punct(RPAREN)]);
    } else {
      f, xs := ArgumentsFault(s, j, constant, limit);
      Later(s, i, j, r.e, r.pos, f);
    }
  }

  /** Arguments in parentheses. */
  lemma ParenthesesFault(s: bytes, k: nat, constant: bool, limit: nat) returns (f: Fault, xs: seq<Argument>)
    requires k < |s| && s[k] == LPAREN
    requires var r := D.ParseArguments(s, Skip(s, k + 1), constant, limit); r.Err?
    ensures var r := D.ParseArguments(s, Skip(s, k + 1), constant, limit);
            FaultAt(s, k, r.e, r.pos, f) && WfArguments(xs, constant) && Begun(f, ArgumentsTokens(xs))
  {
    hide D.ParseArguments, Skip, FaultAt, Begun, Reads, WfArguments, ArgumentListTokens;
    var j := Skip(s, k + 1);
    var r := D.ParseArguments(s, j, constant, limit);
    SkipIdempotent(s, k + 1);
    f, xs := ArgumentsFault(s, j, constant, limit);
    ReadsOpen(s, k, LPAREN);
    After(s, k, [Punct(LPAREN)], k + 1, j, r.e, r.pos, f, ArgumentListTokens(xs) + [Punct(RPAREN)]);
    f := f.(us := [Punct(LPAREN)] + f.us);
  }

  lemma DirectivesFault(s: bytes, i: nat, constant: bool, limit: nat) returns (f: Fault, ds: seq<Directive>)
    requires i <= |s| && D.ParseDirectives(s, i, constant, limit).Err?
    ensures var r := D.ParseDirectives(s, i, constant, limit);
            FaultAt(s, i, r.e, r.pos, f) && WfDirectives(ds, constant) && Begun(f, DirectivesTokens(ds))
    decreases |s| - i, 1
  {
    NotAt(s, i, constant, limit);
    L.DirectivesAre(s, i, constant, limit);
    Smallest();
    hide *;
    var r := D.ParseDirectives(s, i, constant, limit);
    var j := Skip(s, i + 1);
    SkipIdempotent(s, i + 1);
    ReadsOpen(s, i, AT);
    var n := D.Name(s, j);
    if n.Err? {
      NoName(s, j);
      var d := Directive(NAME, []);
      f := Fault([], j, []);
      Here(s, j, j, r.e, r.pos, [], [NameToken(NAME)]);
      After(s, i, [Punct(AT)], i + 1, j, r.e, r.pos, f, [NameToken(NAME)]);
      f := f.(us := [Punct(AT)] + f.us);
      ds := [d];
      OneDirective(NAME, constant);
      return;
    }
    ReadsName(s, j);
    var k := Skip(s, n.next);
    SkipIdempotent(s, n.next);
    var xs, more;
    f, xs, more := DirectiveRestFault(s, k, n.v, constant, limit, r.e, r.pos);
    var rest := ArgumentsTokens(xs) + DirectivesTokens(more);
    After(s, j, [NameToken(n.v)], n.next, k, r.e, r.pos, f, rest);
    f := f.(us := [NameToken(n.v)] + f.us);
    After(s, i, [Punct(AT)], i + 1, j, r.e, r.pos, f, [NameToken(n.v)] + rest);
    f := f.(us := [Punct(AT)] + f.us);
    ds := [Directive(n.v, xs)] + more;
    DirectivesAdd(n.v, xs, more, constant);
  }

  lemma NotAt(s: bytes, i: nat, constant: bool, limit: nat)
    requires i <= |s| && D.ParseDirectives(s, i, constant, limit).Err?
    ensures i < |s| && s[i] == AT && IsPunctuator(AT)
  {
    hide D.ParseArguments, Skip, NameEnd;
  }

  lemma OneDirective(n: bytes, constant: bool)
    ensures DirectivesTokens([Directive(n, [])]) == [Punct(AT)] + [NameToken(n)]
    ensures WfDirectives([Directive(n, [])], constant) <==> IsName(n)
  {
    hide IsName;
    var d := Directive(n, []);
    assert [d][1..] == [];
    assert DirectivesTokens([d]) == DirectiveTokens(d) + DirectivesTokens([]);
    assert WfDirectives([d], constant) <==> WfDirective(d, constant) && WfDirectives([], constant);
  }

  lemma DirectivesAdd(n: bytes, xs: seq<Argument>, more: seq<Directive>, constant: bool)
    ensures var ds := [Directive(n, xs)] + more;
            && DirectivesTokens(ds) == [Punct(AT)] + ([NameToken(n)] + (ArgumentsTokens(xs) + DirectivesTokens(more)))
            && (WfDirectives(ds, constant) <==> IsName(n) && WfArguments(xs, constant) && WfDirectives(more, constant))
  {
    hide IsName, ArgumentsTokens, WfArguments;
    var d := Directive(n, xs);
    assert ([d] + more)[1..] == more;
  }

  /** After the name of a directive: its arguments, or the next directive. */
  lemma DirectiveRestFault(s: bytes, k: nat, n: bytes, constant: bool, limit: nat, e: Error, p: nat)
    returns (f: Fault, xs: seq<Argument>, ds: seq<Directive>)
    requires k <= |s| && Skip(s, k) == k
    requires Err(e, p) == if k == |s| then Err(UnexpectedEOF, k) else L.DirectiveRest(s, k, n, constant, limit)
    ensures FaultAt(s, k, e, p, f) && WfArguments(xs, constant) && WfDirectives(ds, constant)
    ensures Begun(f, ArgumentsTokens(xs) + DirectivesTokens(ds))
    decreases |s| - k, 2
  {
    hide D.ParseArguments, D.ParseDirectives, Skip, FaultAt, Begun, Reads, Site;
    Smallest();
    xs, ds := [], [];
    if k == |s| {
      f := Fault([], k, []);
      Unexpected(s, k, e);
      Here(s, k, k, e, p, [], ArgumentsTokens(xs) + DirectivesTokens(ds));
    } else if s[k] == LPAREN {
      var j := Skip(s, k + 1);
      var a := D.ParseArguments(s, j, constant, limit);
      if a.Err? {
        f, xs := ParenthesesFault(s, k, constant, limit);
        BegunMore(f, ArgumentsTokens(xs), DirectivesTokens(ds));
      } else {
        ArgumentsInParentheses(s, k, constant, limit);
        xs := a.v;
        var m := Skip(s, a.next);
        f, ds := DirectivesFault(s, m, constant, limit);
        After(s, k, ArgumentsTokens(xs), a.next, m, e, p, f, DirectivesTokens(ds));
        f := f.(us := ArgumentsTokens(xs) + f.us);
      }
    } else {
      f, ds := DirectivesFault(s, k, constant, limit);
      Unit(DirectivesTokens(ds));
    }
  }

  /** Something had to come at k. */
  lemma Missing(s: bytes, i: nat, k: nat, e: Error, xs: seq<Token>)
    requires i <= |s| && (k == i || k == Skip(s, i)) && Skip(s, k) == k && e == if k == |s| then UnexpectedEOF else UnexpectedToken
    ensures FaultAt(s, i, e, k, Fault([], k, [])) && Begun(Fault([], k, []), xs)
  {
    hide Skip, Reads, FaultAt, Begun;
    Unexpected(s, k, e);
    Here(s, i, k, e, k, [], xs);
  }

  lemma NameMissing(s: bytes, i: nat)
    requires i <= |s| && D.Name(s, i).Err?
    ensures D.Name(s, i) == Err(if i == |s| then UnexpectedEOF else UnexpectedToken, i)
  {
  }

  lemma ByteMissing(s: bytes, i: nat, b: byte)
    requires i <= |s|
    ensures var r := D.Expect(s, i, b);
            if i < |s| && s[i] == b then r == Ok((), i + 1)
            else r == Err(if i == |s| then UnexpectedEOF else UnexpectedToken, i)
  {
  }

  // ----- Types and variable definitions

  lemma {:induction false} TypeFault(s: bytes, i: nat) returns (f: Fault, t: Type)
    requires i <= |s| && Skip(s, i) == i && D.ParseType(s, i).Err?
    ensures var r := D.ParseType(s, i);
            FaultAt(s, i, r.e, r.pos, f) && WfType(t) && Begun(f, TypeTokens(t))
    decreases |s| - i
  {
    Smallest();
    TypeIs(s, i);
    NamedTypeIs();
    hide *;
    var r := D.ParseType(s, i);
    if i < |s| && s[i] == LBRACKET {
      var j := Skip(s, i + 1);
      SkipIdempotent(s, i + 1);
      ReadsOpen(s, i, LBRACKET);
      var u := D.ParseType(s, j);
      var close := [Punct(RBRACKET)];
      var inner;
      if u.Err? {
        f, inner := TypeFault(s, j);
        BegunMore(f, TypeTokens(inner), close);
      } else {
        inner := u.v;
        var k := Skip(s, u.next);
        SkipIdempotent(s, u.next);
        ByteMissing(s, k, RBRACKET);
        TypeSound(s, j);
        Missing(s, k, k, r.e, close);
        f := Fault([], k, []);
        After(s, j, TypeTokens(inner), u.next, k, r.e, r.pos, f, close);
        f := f.(us := TypeTokens(inner) + f.us);
      }
      After(s, i, [Punct(LBRACKET)], i + 1, j, r.e, r.pos, f, TypeTokens(inner) + close);
      f := f.(us := [Punct(LBRACKET)] + f.us);
      t := ListType(inner);
      ListTypeIs(inner);
    } else {
      NameMissing(s, i);
      t, f := Named(NAME), Fault([], i, []);
      Missing(s, i, i, r.e, TypeTokens(t));
    }
  }

  lemma TypeIs(s: bytes, i: nat)
    requires i <= |s|
    ensures var r := D.ParseType(s, i);
            if i < |s| && s[i] == LBRACKET then
              var u := D.ParseType(s, Skip(s, i + 1));
              if u.Err? then r.Err? && r.e == u.e && r.pos == u.pos
              else
                var c := D.Expect(s, Skip(s, u.next), RBRACKET);
                r.Err? <==> c.Err? && (r.Err? ==> r.e == c.e && r.pos == c.pos)
            else
              var n := D.Name(s, i);
              r.Err? <==> n.Err? && (r.Err? ==> r.e == n.e && r.pos == n.pos)
    ensures IsPunctuator(LBRACKET)
  {
    hide Skip, NameEnd;
  }

  lemma NamedTypeIs()
    ensures WfType(Named(NAME))
  {
  }

  lemma ListTypeIs(t: Type)
    ensures TypeTokens(ListType(t)) == [Punct(LBRACKET)] + (TypeTokens(t) + [Punct(RBRACKET)])
    ensures WfType(ListType(t)) <==> WfType(t)
  {
  }

  lemma DescriptionFault(s: bytes, i: nat) returns (f: Fault, d: Option<bytes>)
    requires i < |s| && Skip(s, i) == i && D.Description(s, i).Err?
    ensures var r := D.Description(s, i);
            FaultAt(s, i, r.e, r.pos, f) && IsTextIf(d) && Begun(f, DescriptionTokens(d))
  {
    hide D.StringToken, Skip, FaultAt, Begun, Reads, Site, Utf8.IsUtf8;
    Smallest();
    var r, t := D.Description(s, i), D.StringToken(s, i);
    if t.Err? {
      d, f := Some([]), Fault([], i, [ANY_STRING]);
      BadString(s, i);
      Here(s, i, i, r.e, r.pos, [ANY_STRING], DescriptionTokens(d));
    } else {
      d := Some(t.v);
      var k := Skip(s, t.next);
      SkipIdempotent(s, t.next);
      ReadsString(s, i);
      StringIsUtf8(s, i);
      Missing(s, k, k, r.e, []);
      f := Fault([], k, []);
      After(s, i, [StringToken(t.v)], t.next, k, r.e, r.pos, f, []);
      f := f.(us := [StringToken(t.v)] + f.us);
      Unit([StringToken(t.v)]);
    }
  }

  lemma DefaultFault(s: bytes, i: nat, limit: nat) returns (f: Fault, v: Option<Value>)
    requires i <= |s| && D.ParseDefault(s, i, limit).Err?
    ensures var r := D.ParseDefault(s, i, limit);
            FaultAt(s, i, r.e, r.pos, f) && (v.Some? ==> WfValue(v.value, true)) && Begun(f, DefaultTokens(v))
  {
    hide D.ParseValue, Skip, FaultAt, Begun, Reads, WfValue, ValueTokens;
    var r, j := D.ParseDefault(s, i, limit), Skip(s, i);
    SkipIdempotent(s, i);
    if j == |s| {
      v, f := None, Fault([], j, []);
      Missing(s, i, j, r.e, DefaultTokens(v));
    } else {
      var k := Skip(s, j + 1);
      SkipIdempotent(s, j + 1);
      var w;
      f, w := ValueFault(s, k, true, limit);
      ReadsOpen(s, j, EQUALS);
      After(s, j, [Punct(EQUALS)], j + 1, k, r.e, r.pos, f, ValueTokens(w));
      f := f.(us := [Punct(EQUALS)] + f.us);
      Later(s, i, j, r.e, r.pos, f);
      v := Some(w);
    }
  }

  /** What may follow the name of a variable and its colon. */
  function TailTokens(t: Type, v: Option<Value>, ds: seq<Directive>): seq<Token> {
    TypeTokens(t) + (DefaultTokens(v) + DirectivesTokens(ds))
  }

  /** From the type of a variable definition on. */
  lemma TypeOnFault(s: bytes, i: nat, limit: nat, e: Error, p: nat) returns (f: Fault, t: Type, v: Option<Value>, ds: seq<Directive>)
    requires i <= |s| && Skip(s, i) == i
    requires var a := D.ParseType(s, i);
             if a.Err? then a.e == e && a.pos == p
             else
               var b := D.ParseDefault(s, a.next, limit);
               if b.Err? then b.e == e && b.pos == p
               else D.ParseDirectives(s, b.next, true, limit).Err? && D.ParseDirectives(s, b.next, true, limit).e == e
                    && D.ParseDirectives(s, b.next, true, limit).pos == p
    ensures FaultAt(s, i, e, p, f) && WfType(t) && (v.Some? ==> WfValue(v.value, true)) && WfDirectives(ds, true)
    ensures Begun(f, TailTokens(t, v, ds))
  {
    Smallest();
    hide D.ParseType, D.ParseDefault, D.ParseDirectives, Skip, FaultAt, Begun, Reads, WfType, WfValue, WfDirectives,
         TypeTokens, DefaultTokens, DirectivesTokens;
    var a := D.ParseType(s, i);
    v, ds := None, [];
    if a.Err? {
      f, t := TypeFault(s, i);
      BegunMore(f, TypeTokens(t), DefaultTokens(v) + DirectivesTokens(ds));
      return;
    }
    t := a.v;
    TypeSound(s, i);
    var b := D.ParseDefault(s, a.next, limit);
    if b.Err? {
      f, v := DefaultFault(s, a.next, limit);
      BegunMore(f, DefaultTokens(v), DirectivesTokens(ds));
      After(s, i, TypeTokens(t), a.next, a.next, e, p, f, DefaultTokens(v) + DirectivesTokens(ds));
    } else {
      v := b.v;
      DefaultSound(s, a.next, limit);
      f, ds := DirectivesFault(s, b.next, true, limit);
      After(s, a.next, DefaultTokens(v), b.next, b.next, e, p, f, DirectivesTokens(ds));
      f := f.(us := DefaultTokens(v) + f.us);
      After(s, i, TypeTokens(t), a.next, a.next, e, p, f, DefaultTokens(v) + DirectivesTokens(ds));
    }
    f := f.(us := TypeTokens(t) + f.us);
  }

  lemma VariableIs(s: bytes, i: nat, limit: nat)
    requires i < |s|
    ensures var r, d := D.ParseVariable(s, i, limit), D.Description(s, i);
            if d.Err? then r == Err(d.e, d.pos)
            else
              var a := D.Expect(s, d.next, DOLLAR);
              if a.Err? then r == Err(a.e, a.pos)
              else
                var n := D.Name(s, Skip(s, a.next));
                if n.Err? then r == Err(n.e, n.pos)
                else
                  var c := D.Expect(s, Skip(s, n.next), COLON);
                  if c.Err? then r == Err(c.e, c.pos)
                  else
                    var t := D.ParseType(s, Skip(s, c.next));
                    if t.Err? then r == Err(t.e, t.pos)
                    else
                      var v := D.ParseDefault(s, t.next, limit);
                      if v.Err? then r == Err(v.e, v.pos)
                      else
                        var ds := D.ParseDirectives(s, v.next, true, limit);
                        r == if ds.Err? then Err(ds.e, ds.pos) else Ok(VariableDefinition(d.v, n.v, t.v, v.v, ds.v), ds.next)
  {
    hide D.Description, Skip, D.Name, D.Expect, D.ParseType, D.ParseDefault, D.ParseDirectives;
  }

  lemma DescribedIs(s: bytes, i: nat)
    requires i < |s| && Skip(s, i) == i && D.Description(s, i).Ok?
    ensures Skip(s, D.Description(s, i).next) == D.Description(s, i).next
  {
    hide D.StringToken, Skip;
    if s[i] == QUOTE {
      SkipIdempotent(s, D.StringToken(s, i).next);
    }
  }

  lemma VariableFault(s: bytes, i: nat, limit: nat) returns (f: Fault, x: VariableDefinition)
    requires i < |s| && Skip(s, i) == i && D.ParseVariable(s, i, limit).Err?
    ensures var r := D.ParseVariable(s, i, limit);
            FaultAt(s, i, r.e, r.pos, f) && WfVariable(x) && Begun(f, VariableTokens(x))
  {
    VariableIs(s, i, limit);
    Smallest();
    hide *;
    var r, d := D.ParseVariable(s, i, limit), D.Description(s, i);
    var desc, n, t: Type, v: Option<Value>, ds: seq<Directive> := None, NAME, Named(NAME), None, [];
    if d.Err? {
      f, desc := DescriptionFault(s, i);
      BegunMore(f, DescriptionTokens(desc), [Punct(DOLLAR)] + ([NameToken(n)] + ([Punct(COLON)] + TailTokens(t, v, ds))));
    } else {
      desc := d.v;
      DescriptionSound(s, i);
      DescribedIs(s, i);
      f, n, t, v, ds := DollarFault(s, d.next, limit, r.e, r.pos);
      After(s, i, DescriptionTokens(desc), d.next, d.next, r.e, r.pos, f,
            [Punct(DOLLAR)] + ([NameToken(n)] + ([Punct(COLON)] + TailTokens(t, v, ds))));
      f := f.(us := DescriptionTokens(desc) + f.us);
    }
    x := VariableDefinition(desc, n, t, v, ds);
    VariableMade(x);
  }

  lemma VariableMade(x: VariableDefinition)
    ensures VariableTokens(x) == DescriptionTokens(x.description)
            + ([Punct(DOLLAR)] + ([NameToken(x.name)] + ([Punct(COLON)] + TailTokens(x.ty, x.default, x.directives))))
    ensures WfVariable(x) <==> IsTextIf(x.description) && IsName(x.name) && WfType(x.ty)
                               && (x.default.Some? ==> WfValue(x.default.value, true)) && WfDirectives(x.directives, true)
  {
    hide TypeTokens, DefaultTokens, DirectivesTokens, DescriptionTokens, WfType, WfValue, WfDirectives, IsName, IsTextIf;
    var tail := TypeTokens(x.ty) + (DefaultTokens(x.default) + DirectivesTokens(x.directives));
    assert [Punct(DOLLAR), NameToken(x.name), Punct(COLON)] + tail == [Punct(DOLLAR)] + ([NameToken(x.name)] + ([Punct(COLON)] + tail));
  }

  /** From the dollar sign of a variable definition on. */
  lemma DollarFault(s: bytes, i: nat, limit: nat, e: Error, p: nat)
    returns (f: Fault, n: bytes, t: Type, v: Option<Value>, ds: seq<Directive>)
    requires i < |s| && Skip(s, i) == i
    requires var a := D.Expect(s, i, DOLLAR);
             if a.Err? then a.e == e && a.pos == p
             else
               var m := D.Name(s, Skip(s, a.next));
               if m.Err? then m.e == e && m.pos == p
               else
                 var c := D.Expect(s, Skip(s, m.next), COLON);
                 if c.Err? then c.e == e && c.pos == p
                 else
                   var u := D.ParseType(s, Skip(s, c.next));
                   if u.Err? then u.e == e && u.pos == p
                   else
                     var w := D.ParseDefault(s, u.next, limit);
                     if w.Err? then w.e == e && w.pos == p
                     else
                       var x := D.ParseDirectives(s, w.next, true, limit);
                       x.Err? && x.e == e && x.pos == p
    ensures FaultAt(s, i, e, p, f) && IsName(n) && WfType(t) && (v.Some? ==> WfValue(v.value, true)) && WfDirectives(ds, true)
    ensures Begun(f, [Punct(DOLLAR)] + ([NameToken(n)] + ([Punct(COLON)] + TailTokens(t, v, ds))))
  {
    Smallest();
    hide *;
    n, t, v, ds := NAME, Named(NAME), None, [];
    ByteMissing(s, i, DOLLAR);
    Punctuators();
    if s[i] != DOLLAR {
      f := Fault([], i, []);
      Missing(s, i, i, e, [Punct(DOLLAR)] + ([NameToken(n)] + ([Punct(COLON)] + TailTokens(t, v, ds))));
      return;
    }
    ReadsOpen(s, i, DOLLAR);
    var j := Skip(s, i + 1);
    SkipIdempotent(s, i + 1);
    var m := D.Name(s, j);
    if m.Err? {
      NameMissing(s, j);
      f := Fault([], j, []);
      Missing(s, j, j, e, [NameToken(n)] + ([Punct(COLON)] + TailTokens(t, v, ds)));
    } else {
      n := m.v;
      ReadsName(s, j);
      var k := Skip(s, m.next);
      SkipIdempotent(s, m.next);
      ByteMissing(s, k, COLON);
      if k == |s| || s[k] != COLON {
        f := Fault([], k, []);
        Missing(s, k, k, e, [Punct(COLON)] + TailTokens(t, v, ds));
      } else {
        ReadsOpen(s, k, COLON);
        var l := Skip(s, k + 1);
        SkipIdempotent(s, k + 1);
        f, t, v, ds := TypeOnFault(s, l, limit, e, p);
        After(s, k, [Punct(COLON)], k + 1, l, e, p, f, TailTokens(t, v, ds));
        f := f.(us := [Punct(COLON)] + f.us);
      }
      After(s, j, [NameToken(n)], m.next, k, e, p, f, [Punct(COLON)] + TailTokens(t, v, ds));
      f := f.(us := [NameToken(n)] + f.us);
    }
    After(s, i, [Punct(DOLLAR)], i + 1, j, e, p, f, [NameToken(n)] + ([Punct(COLON)] + TailTokens(t, v, ds)));
    f := f.(us := [Punct(DOLLAR)] + f.us);
  }

  lemma Punctuators()
    ensures IsPunctuator(DOLLAR) && IsPunctuator(COLON) && IsPunctuator(LBRACE) && IsPunctuator(RBRACE) && IsPunctuator(LPAREN)
  {
  }

  lemma {:induction false} VariablesFault(s: bytes, i: nat, limit: nat) returns (f: Fault, xs: seq<VariableDefinition>)
    requires i < |s| && Skip(s, i) == i && D.ParseVariables(s, i, limit).Err?
    ensures var r := D.ParseVariables(s, i, limit);
            FaultAt(s, i, r.e, r.pos, f) && xs != [] && WfVariables(xs) && Begun(f, VariableListTokens(xs) + [Punct(RPAREN)])
    decreases |s| - i, 1
  {
    hide D.ParseVariable, D.VariablesRest, Skip, FaultAt, Begun, Reads, WfVariable, VariableTokens;
    var r, a := D.ParseVariables(s, i, limit), D.ParseVariable(s, i, limit);
    var close := [Punct(RPAREN)];
    Smallest();
    if a.Err? {
      var w;
      f, w := VariableFault(s, i, limit);
      BegunMore(f, VariableTokens(w), close);
      xs := [w];
      VariablesAre(w, [], close);
      Unit(close);
    } else {
      var more;
      f, more := VariablesRestFault(s, a.next, limit);
      VariableSound(s, i, limit);
      After(s, i, VariableTokens(a.v), a.next, a.next, r.e, r.pos, f, VariableListTokens(more) + close);
      f := f.(us := VariableTokens(a.v) + f.us);
      xs := [a.v] + more;
      VariablesAre(a.v, more, close);
    }
  }

  lemma VariablesAre(v: VariableDefinition, vs: seq<VariableDefinition>, close: seq<Token>)
    ensures VariableListTokens([v] + vs) + close == VariableTokens(v) + (VariableListTokens(vs) + close)
    ensures WfVariables([v] + vs) <==> WfVariable(v) && WfVariables(vs)
    ensures [v] + [] == [v] && VariableListTokens([]) + close == close
  {
    hide VariableTokens, WfVariable;
    assert ([v] + vs)[1..] == vs;
  }

  lemma {:induction false} VariablesRestFault(s: bytes, i: nat, limit: nat) returns (f: Fault, xs: seq<VariableDefinition>)
    requires i <= |s| && D.VariablesRest(s, i, limit).Err?
    ensures var r := D.VariablesRest(s, i, limit);
            FaultAt(s, i, r.e, r.pos, f) && WfVariables(xs) && Begun(f, VariableListTokens(xs) + [Punct(RPAREN)])
    decreases |s| - i, 2
  {
    hide D.ParseVariables, Skip, FaultAt, Begun, Reads, Site;
    var j, r := Skip(s, i), D.VariablesRest(s, i, limit);
    SkipIdempotent(s, i);
    Smallest();
    if j == |s| {
      xs, f := [], Fault([], j, []);
      Missing(s, i, j, r.e, VariableListTokens(xs) + [Punct(RPAREN)]);
    } else {
      f, xs := VariablesFault(s, j, limit);
      Later(s, i, j, r.e, r.pos, f);
    }
  }

  // ----- Selections

  lemma {:induction false} SelectionSetFault(s: bytes, i: nat, depth: nat, limit: nat) returns (f: Fault, xs: seq<Selection>)
    requires i <= |s| && Skip(s, i) == i
    requires D.ParseSelectionSet(s, i, depth, limit).Err?
    ensures var r := D.ParseSelectionSet(s, i, depth, limit);
            FaultAt(s, i, r.e, r.pos, f) && xs != [] && WfSelections(xs) && Begun(f, SelectionSetTokens(xs))
    decreases |s| - i, 1
  {
    SelectionSetIs(s, i, depth, limit);
    Smallest();
    Punctuators();
    hide *;
    var r := D.ParseSelectionSet(s, i, depth, limit);
    if i == |s| || s[i] != LBRACE {
      xs, f := [A_FIELD], Fault([], i, []);
      Missing(s, i, i, r.e, SelectionSetTokens(xs));
      return;
    }
    if depth + 1 > limit {
      xs, f := [A_FIELD], Fault([Punct(LBRACE)], Skip(s, i + 1), []);
      Opened(s, i, LBRACE, SelectionsTokens(xs) + [Punct(RBRACE)]);
      SetIs(xs);
      return;
    }
    var j := Skip(s, i + 1);
    SkipIdempotent(s, i + 1);
    ReadsOpen(s, i, LBRACE);
    var x := D.ParseSelection(s, j, depth + 1, limit);
    var close := [Punct(RBRACE)];
    if x.Err? {
      var w;
      f, w := SelectionFault(s, j, depth + 1, limit);
      BegunMore(f, SelectionTokens(w), close);
      xs := [w];
      SelectionsAre(w, [], close);
      Unit(close);
    } else {
      var more;
      SelectionEnds(s, j, depth + 1, limit);
      f, more := SelectionsFault(s, x.next, depth + 1, limit);
      SelectionSound(s, j, depth + 1, limit);
      After(s, j, SelectionTokens(x.v), x.next, x.next, r.e, r.pos, f, SelectionsTokens(more) + close);
      f := f.(us := SelectionTokens(x.v) + f.us);
      xs := [x.v] + more;
      SelectionsAre(x.v, more, close);
    }
    After(s, i, [Punct(LBRACE)], i + 1, j, r.e, r.pos, f, SelectionsTokens(xs) + close);
    f := f.(us := [Punct(LBRACE)] + f.us);
    SetIs(xs);
  }

  lemma SetIs(xs: seq<Selection>)
    ensures SelectionSetTokens(xs) == [Punct(LBRACE)] + (SelectionsTokens(xs) + [Punct(RBRACE)])
  {
  }

  lemma SelectionSetIs(s: bytes, i: nat, depth: nat, limit: nat)
    requires i <= |s|
    ensures var r := D.ParseSelectionSet(s, i, depth, limit);
            if i == |s| || s[i] != LBRACE then r == Err(if i == |s| then UnexpectedEOF else UnexpectedToken, i)
            else if depth + 1 > limit then r == Err(TooDeep, Skip(s, i + 1))
            else
              var x := D.ParseSelection(s, Skip(s, i + 1), depth + 1, limit);
              if x.Err? then r == Err(x.e, x.pos)
              else
                var xs := D.SelectionsRest(s, x.next, depth + 1, limit);
                r == if xs.Err? then Err(xs.e, xs.pos) else Ok([x.v] + xs.v, xs.next)
  {
    hide D.ParseSelection, D.SelectionsRest, Skip;
  }

  lemma SelectionsAre(v: Selection, vs: seq<Selection>, close: seq<Token>)
    ensures SelectionsTokens([v] + vs) + close == SelectionTokens(v) + (SelectionsTokens(vs) + close)
    ensures WfSelections([v] + vs) <==> WfSelection(v) && WfSelections(vs)
    ensures [v] + [] == [v] && SelectionsTokens([]) + close == close
  {
    hide SelectionTokens, WfSelection;
    assert ([v] + vs)[1..] == vs;
  }

  /** A selection includes the Ignored tokens after it. */
  lemma SelectionEnds(s: bytes, i: nat, depth: nat, limit: nat)
    requires i <= |s| && D.ParseSelection(s, i, depth, limit).Ok?
    ensures Skip(s, D.ParseSelection(s, i, depth, limit).next) == D.ParseSelection(s, i, depth, limit).next
  {
    hide D.ParseDirectives, D.ParseSelectionSet, D.FieldArguments, Skip, NameEnd, HasPrefixAt, IsKeywordAt;
    forall k: nat | k <= |s| ensures Skip(s, Skip(s, k)) == Skip(s, k) {
      SkipIdempotent(s, k);
    }
  }

  lemma {:induction false} SelectionsFault(s: bytes, i: nat, depth: nat, limit: nat) returns (f: Fault, xs: seq<Selection>)
    requires i <= |s| && Skip(s, i) == i
    requires D.SelectionsRest(s, i, depth, limit).Err?
    ensures var r := D.SelectionsRest(s, i, depth, limit);
            FaultAt(s, i, r.e, r.pos, f) && WfSelections(xs) && Begun(f, SelectionsTokens(xs) + [Punct(RBRACE)])
    decreases |s| - i, 5
  {
    hide D.ParseSelection, Skip, FaultAt, Begun, Reads, WfSelection, SelectionTokens, Site;
    var r := D.SelectionsRest(s, i, depth, limit);
    var close := [Punct(RBRACE)];
    Smallest();
    if i == |s| {
      xs, f := [], Fault([], i, []);
      Missing(s, i, i, r.e, SelectionsTokens(xs) + close);
      return;
    }
    var x := D.ParseSelection(s, i, depth, limit);
    if x.Err? {
      var w;
      f, w := SelectionFault(s, i, depth, limit);
      BegunMore(f, SelectionTokens(w), close);
      xs := [w];
      SelectionsAre(w, [], close);
      Unit(close);
    } else {
      var more;
      SelectionEnds(s, i, depth, limit);
      f, more := SelectionsFault(s, x.next, depth, limit);
      SelectionSound(s, i, depth, limit);
      After(s, i, SelectionTokens(x.v), x.next, x.next, r.e, r.pos, f, SelectionsTokens(more) + close);
      f := f.(us := SelectionTokens(x.v) + f.us);
      xs := [x.v] + more;
      SelectionsAre(x.v, more, close);
    }
  }

  lemma {:induction false} SelectionFault(s: bytes, i: nat, depth: nat, limit: nat) returns (f: Fault, x: Selection)
    requires i <= |s| && Skip(s, i) == i
    requires D.ParseSelection(s, i, depth, limit).Err?
    ensures var r := D.ParseSelection(s, i, depth, limit);
            FaultAt(s, i, r.e, r.pos, f) && WfSelection(x) && Begun(f, SelectionTokens(x))
    decreases |s| - i, 4
  {
    if HasPrefixAt(s, i, D.ELLIPSIS) {
      f, x := EllipsisFault(s, i, depth, limit);
    } else {
      f, x := NameFault(s, i, depth, limit);
    }
  }

  lemma EllipsisIs(s: bytes, i: nat, depth: nat, limit: nat)
    requires i <= |s| && HasPrefixAt(s, i, D.ELLIPSIS)
    ensures i + 3 <= |s|
    ensures var r, j := D.ParseSelection(s, i, depth, limit), Skip(s, i + 3);
            if IsKeywordAt(s, j, KW_ON) then
              var t := D.Name(s, Skip(s, j + 2));
              if t.Err? then r == Err(t.e, t.pos) else InlineSame(r, L.DirectedSet(s, Skip(s, t.next), depth, limit))
            else if D.Name(s, j).Ok? then
              var ds := D.ParseDirectives(s, Skip(s, D.Name(s, j).next), false, limit);
              if ds.Err? then r == Err(ds.e, ds.pos) else r.Ok?
            else InlineSame(r, L.DirectedSet(s, j, depth, limit))
  {
    hide D.ParseDirectives, D.ParseSelectionSet, Skip, D.Name, IsKeywordAt;
  }

  /** The error of an inline fragment is that of its directives and its selection set. */
  predicate InlineSame(r: R<Selection>, d: R<(seq<Directive>, seq<Selection>)>) {
    if d.Err? then r == Err(d.e, d.pos) else r.Ok?
  }

  lemma {:induction false} EllipsisFault(s: bytes, i: nat, depth: nat, limit: nat) returns (f: Fault, x: Selection)
    requires i <= |s| && Skip(s, i) == i && HasPrefixAt(s, i, D.ELLIPSIS)
    requires D.ParseSelection(s, i, depth, limit).Err?
    ensures var r := D.ParseSelection(s, i, depth, limit);
            FaultAt(s, i, r.e, r.pos, f) && WfSelection(x) && Begun(f, SelectionTokens(x))
    decreases |s| - i, 3
  {
    EllipsisIs(s, i, depth, limit);
    hide *;
    var r, j := D.ParseSelection(s, i, depth, limit), Skip(s, i + 3);
    if IsKeywordAt(s, j, KW_ON) {
      f, x := ConditionedFault(s, i, depth, limit, r);
    } else if D.Name(s, j).Ok? {
      f, x := SpreadFault(s, i, limit, r.e, r.pos);
    } else {
      SameError(r, L.DirectedSet(s, j, depth, limit));
      f, x := BareFault(s, i, depth, limit);
    }
  }

  lemma {:induction false} BareFault(s: bytes, i: nat, depth: nat, limit: nat) returns (f: Fault, x: Selection)
    requires i <= |s| && HasPrefixAt(s, i, D.ELLIPSIS) && i + 3 <= |s|
    requires var r := L.DirectedSet(s, Skip(s, i + 3), depth, limit); r.Err?
    ensures var r := L.DirectedSet(s, Skip(s, i + 3), depth, limit);
            FaultAt(s, i, r.e, r.pos, f) && WfSelection(x) && Begun(f, SelectionTokens(x))
    decreases |s| - i, 2
  {
    hide *;
    var j := Skip(s, i + 3);
    var r := L.DirectedSet(s, j, depth, limit);
    SkipIdempotent(s, i + 3);
    ReadsEllipsis(s, i);
    var ds, xs;
    f, ds, xs := DirectedSetFault(s, j, depth, limit);
    x := InlineFragment(None, ds, xs);
    BareMade(ds, xs);
    After(s, i, [Ellipsis], i + 3, j, r.e, r.pos, f, DirectivesTokens(ds) + SelectionSetTokens(xs));
    f := f.(us := [Ellipsis] + f.us);
  }

  lemma {:induction false} ConditionedFault(s: bytes, i: nat, depth: nat, limit: nat, r: R<Selection>)
    returns (f: Fault, x: Selection)
    requires i <= |s| && HasPrefixAt(s, i, D.ELLIPSIS) && i + 3 <= |s| && IsKeywordAt(s, Skip(s, i + 3), KW_ON)
    requires r.Err?
    requires var t := D.Name(s, Skip(s, Skip(s, i + 3) + 2));
             if t.Err? then r == Err(t.e, t.pos) else InlineSame(r, L.DirectedSet(s, Skip(s, t.next), depth, limit))
    ensures FaultAt(s, i, r.e, r.pos, f) && WfSelection(x) && Begun(f, SelectionTokens(x))
    decreases |s| - i, 2
  {
    hide *;
    var j := Skip(s, i + 3);
    ReadsEllipsis(s, i);
    var c, ds, xs;
    f, c, ds, xs := ConditionFault(s, j, depth, limit, r);
    x := InlineFragment(Some(c), ds, xs);
    ConditionMade(c, ds, xs);
    After(s, i, [Ellipsis], i + 3, j, r.e, r.pos, f,
          [NameToken(KW_ON)] + ([NameToken(c)] + (DirectivesTokens(ds) + SelectionSetTokens(xs))));
    f := f.(us := [Ellipsis] + f.us);
  }

  lemma SpreadNamed(s: bytes, j: nat)
    requires j <= |s| && !IsKeywordAt(s, j, KW_ON) && D.Name(s, j).Ok?
    ensures IsName(D.Name(s, j).v) && D.Name(s, j).v != KW_ON
  {
    hide *;
    Keywords();
    KeywordIs(s, j, KW_ON);
    ReadsName(s, j);
  }

  /** A fragment spread. */
  lemma SpreadFault(s: bytes, i: nat, limit: nat, e: Error, p: nat) returns (f: Fault, x: Selection)
    requires i <= |s| && HasPrefixAt(s, i, D.ELLIPSIS) && i + 3 <= |s|
    requires !IsKeywordAt(s, Skip(s, i + 3), KW_ON) && D.Name(s, Skip(s, i + 3)).Ok?
    requires var r := D.ParseDirectives(s, Skip(s, D.Name(s, Skip(s, i + 3)).next), false, limit);
             r.Err? && r.e == e && r.pos == p
    ensures FaultAt(s, i, e, p, f) && WfSelection(x) && Begun(f, SelectionTokens(x))
  {
    hide *;
    var j := Skip(s, i + 3);
    var n := D.Name(s, j);
    ReadsName(s, j);
    ReadsEllipsis(s, i);
    SpreadNamed(s, j);
    var k := Skip(s, n.next);
    var ds;
    f, ds := DirectivesFault(s, k, false, limit);
    After(s, j, [NameToken(n.v)], n.next, k, e, p, f, DirectivesTokens(ds));
    f := f.(us := [NameToken(n.v)] + f.us);
    After(s, i, [Ellipsis], i + 3, j, e, p, f, [NameToken(n.v)] + DirectivesTokens(ds));
    f := f.(us := [Ellipsis] + f.us);
    x := FragmentSpread(n.v, ds);
    SpreadMade(n.v, ds);
  }

  /** A type condition and what follows it. */
  lemma {:induction false} ConditionFault(s: bytes, j: nat, depth: nat, limit: nat, r: R<Selection>)
    returns (f: Fault, c: bytes, ds: seq<Directive>, xs: seq<Selection>)
    requires j <= |s| && IsKeywordAt(s, j, KW_ON) && r.Err?
    requires var t := D.Name(s, Skip(s, j + 2));
             if t.Err? then r == Err(t.e, t.pos) else InlineSame(r, L.DirectedSet(s, Skip(s, t.next), depth, limit))
    ensures FaultAt(s, j, r.e, r.pos, f) && IsName(c) && WfDirectives(ds, false) && xs != [] && WfSelections(xs)
    ensures Begun(f, [NameToken(KW_ON)] + ([NameToken(c)] + (DirectivesTokens(ds) + SelectionSetTokens(xs))))
    decreases |s| - j, 3
  {
    Keywords();
    assert |KW_ON| == 2;
    hide *;
    ReadsKeyword(s, j, KW_ON);
    var k := Skip(s, j + 2);
    SkipIdempotent(s, j + 2);
    f, c, ds, xs := TypedSetFault(s, k, depth, limit, r);
    After(s, j, [NameToken(KW_ON)], j + 2, k, r.e, r.pos, f, [NameToken(c)] + (DirectivesTokens(ds) + SelectionSetTokens(xs)));
    f := f.(us := [NameToken(KW_ON)] + f.us);
  }

  /** A name, directives and a selection set. */
  lemma {:induction false} TypedSetFault(s: bytes, k: nat, depth: nat, limit: nat, r: R<Selection>)
    returns (f: Fault, c: bytes, ds: seq<Directive>, xs: seq<Selection>)
    requires k <= |s| && Skip(s, k) == k && r.Err?
    requires var t := D.Name(s, k);
             if t.Err? then r == Err(t.e, t.pos) else InlineSame(r, L.DirectedSet(s, Skip(s, t.next), depth, limit))
    ensures FaultAt(s, k, r.e, r.pos, f) && IsName(c) && WfDirectives(ds, false) && xs != [] && WfSelections(xs)
    ensures Begun(f, [NameToken(c)] + (DirectivesTokens(ds) + SelectionSetTokens(xs)))
    decreases |s| - k, 3
  {
    Smallest();
    hide *;
    c, ds, xs := NAME, [], [A_FIELD];
    var t := D.Name(s, k);
    if t.Err? {
      NameMissing(s, k);
      f := Fault([], k, []);
      Missing(s, k, k, r.e, [NameToken(c)] + (DirectivesTokens(ds) + SelectionSetTokens(xs)));
      return;
    }
    c := t.v;
    ReadsName(s, k);
    var l := Skip(s, t.next);
    SkipIdempotent(s, t.next);
    SameError(r, L.DirectedSet(s, l, depth, limit));
    f, ds, xs := DirectedSetFault(s, l, depth, limit);
    After(s, k, [NameToken(c)], t.next, l, r.e, r.pos, f, DirectivesTokens(ds) + SelectionSetTokens(xs));
    f := f.(us := [NameToken(c)] + f.us);
  }

  lemma SameError(r: R<Selection>, d: R<(seq<Directive>, seq<Selection>)>)
    requires InlineSame(r, d) && r.Err?
    ensures d.Err? && d.e == r.e && d.pos == r.pos
  {
  }

  lemma ConditionMade(c: bytes, ds: seq<Directive>, xs: seq<Selection>)
    ensures var x := InlineFragment(Some(c), ds, xs);
            && SelectionTokens(x) == [Ellipsis] + ([NameToken(KW_ON)] + ([NameToken(c)] + (DirectivesTokens(ds) + SelectionSetTokens(xs))))
            && (WfSelection(x) <==> IsName(c) && WfDirectives(ds, false) && xs != [] && WfSelections(xs))
  {
    hide DirectivesTokens, SelectionsTokens, WfDirectives, WfSelections, IsName;
    var rest := DirectivesTokens(ds) + SelectionSetTokens(xs);
    assert [NameToken(KW_ON), NameToken(c)] + rest == [NameToken(KW_ON)] + ([NameToken(c)] + rest);
  }

  lemma BareMade(ds: seq<Directive>, xs: seq<Selection>)
    ensures var x := InlineFragment(None, ds, xs);
            && SelectionTokens(x) == [Ellipsis] + (DirectivesTokens(ds) + SelectionSetTokens(xs))
            && (WfSelection(x) <==> WfDirectives(ds, false) && xs != [] && WfSelections(xs))
  {
    hide DirectivesTokens, SelectionsTokens, WfDirectives, WfSelections;
    Unit(DirectivesTokens(ds) + SelectionSetTokens(xs));
  }

  lemma SpreadMade(n: bytes, ds: seq<Directive>)
    ensures var x := FragmentSpread(n, ds);
            && SelectionTokens(x) == [Ellipsis] + ([NameToken(n)] + DirectivesTokens(ds))
            && (WfSelection(x) <==> IsName(n) && n != KW_ON && WfDirectives(ds, false))
  {
    hide DirectivesTokens, WfDirectives, IsName;
    assert [Ellipsis, NameToken(n)] + DirectivesTokens(ds) == [Ellipsis] + ([NameToken(n)] + DirectivesTokens(ds));
  }

  lemma {:induction false} DirectedSetFault(s: bytes, i: nat, depth: nat, limit: nat)
    returns (f: Fault, ds: seq<Directive>, xs: seq<Selection>)
    requires i <= |s| && Skip(s, i) == i && L.DirectedSet(s, i, depth, limit).Err?
    ensures var r := L.DirectedSet(s, i, depth, limit);
            && FaultAt(s, i, r.e, r.pos, f) && WfDirectives(ds, false) && xs != [] && WfSelections(xs)
            && Begun(f, DirectivesTokens(ds) + SelectionSetTokens(xs))
    decreases |s| - i, 2
  {
    Smallest();
    hide D.ParseDirectives, D.ParseSelectionSet, Skip, FaultAt, Begun, Reads, WfDirectives, WfSelections, DirectivesTokens,
         SelectionSetTokens;
    var r, a := L.DirectedSet(s, i, depth, limit), D.ParseDirectives(s, i, false, limit);
    if a.Err? {
      f, ds := DirectivesFault(s, i, false, limit);
      xs := [A_FIELD];
      BegunMore(f, DirectivesTokens(ds), SelectionSetTokens(xs));
    } else {
      ds := a.v;
      DirectivesSound(s, i, false, limit);
      var j := Skip(s, a.next);
      SkipIdempotent(s, a.next);
      f, xs := SelectionSetFault(s, j, depth, limit);
      After(s, i, DirectivesTokens(ds), a.next, j, r.e, r.pos, f, SelectionSetTokens(xs));
      f := f.(us := DirectivesTokens(ds) + f.us);
    }
  }

  lemma NameIs(s: bytes, i: nat, depth: nat, limit: nat)
    requires i <= |s| && !HasPrefixAt(s, i, D.ELLIPSIS)
    ensures var r, n := D.ParseSelection(s, i, depth, limit), D.Name(s, i);
            if n.Err? then r == Err(n.e, n.pos)
            else
              var k := Skip(s, n.next);
              if k == |s| then r == Err(UnexpectedEOF, k)
              else if s[k] != COLON then r == D.ParseFieldRest(s, k, None, n.v, depth, limit)
              else AliasedIs(s, k, n.v, depth, limit, r)
  {
    hide D.ParseFieldRest, Skip, D.Name, HasPrefixAt;
  }

  lemma {:induction false} NameFault(s: bytes, i: nat, depth: nat, limit: nat) returns (f: Fault, x: Selection)
    requires i <= |s| && Skip(s, i) == i && !HasPrefixAt(s, i, D.ELLIPSIS)
    requires D.ParseSelection(s, i, depth, limit).Err?
    ensures var r := D.ParseSelection(s, i, depth, limit);
            FaultAt(s, i, r.e, r.pos, f) && WfSelection(x) && Begun(f, SelectionTokens(x))
    decreases |s| - i, 3
  {
    NameIs(s, i, depth, limit);
    hide *;
    var r, n := D.ParseSelection(s, i, depth, limit), D.Name(s, i);
    if n.Err? {
      NameMissing(s, i);
      SmallestField();
      x, f := A_FIELD, Fault([], i, []);
      Missing(s, i, i, r.e, SelectionTokens(x));
    } else if Skip(s, n.next) < |s| && s[Skip(s, n.next)] == COLON {
      f, x := AliasFault(s, i, depth, limit, r);
    } else {
      f, x := PlainFault(s, i, depth, limit, r);
    }
  }

  lemma {:induction false} PlainFault(s: bytes, i: nat, depth: nat, limit: nat, r: R<Selection>) returns (f: Fault, x: Selection)
    requires i <= |s| && D.Name(s, i).Ok? && r.Err?
    requires var n := D.Name(s, i);
             var k := Skip(s, n.next);
             if k == |s| then r == Err(UnexpectedEOF, k) else r == D.ParseFieldRest(s, k, None, n.v, depth, limit)
    ensures FaultAt(s, i, r.e, r.pos, f) && WfSelection(x) && Begun(f, SelectionTokens(x))
    decreases |s| - i, 2
  {
    hide *;
    var n := D.Name(s, i);
    ReadsName(s, i);
    var k := Skip(s, n.next);
    SkipIdempotent(s, n.next);
    var args, dirs, sels;
    f, args, dirs, sels := FieldAtFault(s, k, None, n.v, depth, limit, r);
    After(s, i, [NameToken(n.v)], n.next, k, r.e, r.pos, f, FieldRestTokens(args, dirs, sels));
    f := f.(us := [NameToken(n.v)] + f.us);
    x := Field(None, n.v, args, dirs, sels);
    PlainMade(n.v, args, dirs, sels);
  }

  lemma {:induction false} AliasFault(s: bytes, i: nat, depth: nat, limit: nat, r: R<Selection>) returns (f: Fault, x: Selection)
    requires i <= |s| && D.Name(s, i).Ok? && r.Err?
    requires var k := Skip(s, D.Name(s, i).next);
             k < |s| && s[k] == COLON && AliasedIs(s, k, D.Name(s, i).v, depth, limit, r)
    ensures FaultAt(s, i, r.e, r.pos, f) && WfSelection(x) && Begun(f, SelectionTokens(x))
    decreases |s| - i, 2
  {
    hide *;
    var n := D.Name(s, i);
    ReadsName(s, i);
    var k := Skip(s, n.next);
    var name, args, dirs, sels;
    f, name, args, dirs, sels := AliasedFault(s, k, n.v, depth, limit, r);
    After(s, i, [NameToken(n.v)], n.next, k, r.e, r.pos, f, [Punct(COLON)] + ([NameToken(name)] + FieldRestTokens(args, dirs, sels)));
    f := f.(us := [NameToken(n.v)] + f.us);
    x := Field(Some(n.v), name, args, dirs, sels);
    AliasMade(n.v, name, args, dirs, sels);
  }

  /** r is the error after the colon of an alias. */
  predicate AliasedIs(s: bytes, k: nat, alias: bytes, depth: nat, limit: nat, r: R<Selection>)
    requires k < |s|
  {
    var m := D.Name(s, Skip(s, k + 1));
    if m.Err? then r == Err(m.e, m.pos)
    else
      var l := Skip(s, m.next);
      if l == |s| then r == Err(UnexpectedEOF, l) else r == D.ParseFieldRest(s, l, Some(alias), m.v, depth, limit)
  }

  lemma SmallestField()
    ensures WfSelection(A_FIELD)
  {
    Smallest();
  }

  lemma AliasedMeans(s: bytes, k: nat, alias: bytes, depth: nat, limit: nat, r: R<Selection>)
    requires k < |s| && AliasedIs(s, k, alias, depth, limit, r)
    ensures var m := D.Name(s, Skip(s, k + 1));
            if m.Err? then r == Err(m.e, m.pos)
            else
              var l := Skip(s, m.next);
              if l == |s| then r == Err(UnexpectedEOF, l) else r == D.ParseFieldRest(s, l, Some(alias), m.v, depth, limit)
  {
    hide D.Name, Skip, D.ParseFieldRest;
  }

  /** The colon after an alias, and the field. */
  lemma {:induction false} AliasedFault(s: bytes, k: nat, alias: bytes, depth: nat, limit: nat, r: R<Selection>)
    returns (f: Fault, name: bytes, args: seq<Argument>, dirs: seq<Directive>, sels: seq<Selection>)
    requires k < |s| && s[k] == COLON && r.Err? && AliasedIs(s, k, alias, depth, limit, r)
    ensures FaultAt(s, k, r.e, r.pos, f) && IsName(name)
    ensures WfArguments(args, false) && WfDirectives(dirs, false) && WfSelections(sels)
    ensures Begun(f, [Punct(COLON)] + ([NameToken(name)] + FieldRestTokens(args, dirs, sels)))
    decreases |s| - k, 3
  {
    Smallest();
    Punctuators();
    AliasedMeans(s, k, alias, depth, limit, r);
    hide *;
    ReadsOpen(s, k, COLON);
    var j := Skip(s, k + 1);
    SkipIdempotent(s, k + 1);
    var m := D.Name(s, j);
    name, args, dirs, sels := NAME, [], [], [];
    if m.Err? {
      NameMissing(s, j);
      f := Fault([], j, []);
      Missing(s, j, j, r.e, [NameToken(name)] + FieldRestTokens(args, dirs, sels));
    } else {
      name := m.v;
      ReadsName(s, j);
      var l := Skip(s, m.next);
      SkipIdempotent(s, m.next);
      f, args, dirs, sels := FieldAtFault(s, l, Some(alias), name, depth, limit, r);
      After(s, j, [NameToken(name)], m.next, l, r.e, r.pos, f, FieldRestTokens(args, dirs, sels));
      f := f.(us := [NameToken(name)] + f.us);
    }
    After(s, k, [Punct(COLON)], k + 1, j, r.e, r.pos, f, [NameToken(name)] + FieldRestTokens(args, dirs, sels));
    f := f.(us := [Punct(COLON)] + f.us);
  }

  /** After the name of a field something must come. */
  lemma {:induction false} FieldAtFault(s: bytes, l: nat, alias: Option<bytes>, name: bytes, depth: nat, limit: nat, r: R<Selection>)
    returns (f: Fault, args: seq<Argument>, dirs: seq<Directive>, sels: seq<Selection>)
    requires l <= |s| && Skip(s, l) == l && r.Err?
    requires if l == |s| then r == Err(UnexpectedEOF, l) else r == D.ParseFieldRest(s, l, alias, name, depth, limit)
    ensures FaultAt(s, l, r.e, r.pos, f) && WfArguments(args, false) && WfDirectives(dirs, false) && WfSelections(sels)
    ensures Begun(f, FieldRestTokens(args, dirs, sels))
    decreases |s| - l, 4
  {
    if l == |s| {
      Smallest();
      hide *;
      args, dirs, sels, f := [], [], [], Fault([], l, []);
      Missing(s, l, l, r.e, FieldRestTokens(args, dirs, sels));
    } else {
      f, args, dirs, sels := FieldRestFault(s, l, alias, name, depth, limit);
    }
  }

  lemma PlainMade(n: bytes, args: seq<Argument>, dirs: seq<Directive>, sels: seq<Selection>)
    ensures var x := Field(None, n, args, dirs, sels);
            && SelectionTokens(x) == [NameToken(n)] + FieldRestTokens(args, dirs, sels)
            && (WfSelection(x) <==> IsName(n) && WfArguments(args, false) && WfDirectives(dirs, false) && WfSelections(sels))
  {
    hide SelectionTokens, WfSelection, FieldRestTokens, IsName, WfArguments, WfDirectives, WfSelections;
    FieldIs(None, n, args, dirs, sels);
  }

  lemma AliasMade(a: bytes, n: bytes, args: seq<Argument>, dirs: seq<Directive>, sels: seq<Selection>)
    ensures var x := Field(Some(a), n, args, dirs, sels);
            && SelectionTokens(x) == [NameToken(a)] + ([Punct(COLON)] + ([NameToken(n)] + FieldRestTokens(args, dirs, sels)))
            && (WfSelection(x) <==> IsName(a) && IsName(n) && WfArguments(args, false) && WfDirectives(dirs, false) && WfSelections(sels))
  {
    hide SelectionTokens, WfSelection, FieldRestTokens, IsName, WfArguments, WfDirectives, WfSelections;
    FieldIs(Some(a), n, args, dirs, sels);
    var rest := FieldRestTokens(args, dirs, sels);
    assert FieldNames(Some(a), n) + rest == [NameToken(a)] + ([Punct(COLON)] + ([NameToken(n)] + rest));
  }

  lemma FieldArgumentsFault(s: bytes, i: nat, limit: nat) returns (f: Fault, xs: seq<Argument>)
    requires i < |s| && D.FieldArguments(s, i, limit).Err?
    ensures var r := D.FieldArguments(s, i, limit);
            FaultAt(s, i, r.e, r.pos, f) && WfArguments(xs, false) && Begun(f, ArgumentsTokens(xs))
  {
    hide D.ParseArguments, Skip, FaultAt, Begun, Reads, WfArguments, ArgumentsTokens;
    f, xs := ParenthesesFault(s, i, false, limit);
  }

  lemma {:induction false} FieldRestFault(s: bytes, i: nat, alias: Option<bytes>, name: bytes, depth: nat, limit: nat)
    returns (f: Fault, args: seq<Argument>, dirs: seq<Directive>, sels: seq<Selection>)
    requires i < |s| && Skip(s, i) == i
    requires D.ParseFieldRest(s, i, alias, name, depth, limit).Err?
    ensures var r := D.ParseFieldRest(s, i, alias, name, depth, limit);
            && FaultAt(s, i, r.e, r.pos, f) && WfArguments(args, false) && WfDirectives(dirs, false) && WfSelections(sels)
            && Begun(f, FieldRestTokens(args, dirs, sels))
    decreases |s| - i, 3
  {
    L.FieldRestIs(s, i, alias, name, depth, limit);
    FieldOfError(alias, name, D.FieldArguments(s, i, limit), s, depth, limit);
    Smallest();
    hide *;
    var r, a := D.ParseFieldRest(s, i, alias, name, depth, limit), D.FieldArguments(s, i, limit);
    dirs, sels := [], [];
    if a.Err? {
      f, args := FieldArgumentsFault(s, i, limit);
      BegunMore(f, ArgumentsTokens(args), EndTokens(dirs, sels));
    } else {
      args := a.v;
      FieldArgumentsSound(s, i, limit);
      ArgumentsEnd(s, i, limit);
      f, dirs, sels := FieldEndFault(s, a.next, depth, limit);
      After(s, i, ArgumentsTokens(args), a.next, a.next, r.e, r.pos, f, EndTokens(dirs, sels));
      f := f.(us := ArgumentsTokens(args) + f.us);
    }
    RestIs(args, dirs, sels);
  }

  lemma FieldOfError(alias: Option<bytes>, name: bytes, xs: R<seq<Argument>>, s: bytes, depth: nat, limit: nat)
    requires xs.Ok? ==> xs.next <= |s|
    ensures xs.Ok? ==>
              var d := L.FieldEnd(s, xs.next, depth, limit);
              var r := L.FieldOf(alias, name, xs.v, d);
              if d.Err? then r == Err(d.e, d.pos) else r.Ok?
  {
    hide L.FieldEnd;
  }

  lemma ArgumentsEnd(s: bytes, i: nat, limit: nat)
    requires i < |s| && Skip(s, i) == i && D.FieldArguments(s, i, limit).Ok?
    ensures Skip(s, D.FieldArguments(s, i, limit).next) == D.FieldArguments(s, i, limit).next
  {
    hide D.ParseArguments, Skip;
    if s[i] == LPAREN {
      SkipIdempotent(s, D.ParseArguments(s, Skip(s, i + 1), false, limit).next);
    }
  }

  function EndTokens(dirs: seq<Directive>, sels: seq<Selection>): seq<Token> {
    DirectivesTokens(dirs) + (if sels == [] then [] else SelectionSetTokens(sels))
  }

  lemma RestIs(args: seq<Argument>, dirs: seq<Directive>, sels: seq<Selection>)
    ensures FieldRestTokens(args, dirs, sels) == ArgumentsTokens(args) + EndTokens(dirs, sels)
  {
    hide ArgumentsTokens, DirectivesTokens, SelectionSetTokens;
  }

  lemma {:induction false} FieldEndFault(s: bytes, i: nat, depth: nat, limit: nat)
    returns (f: Fault, dirs: seq<Directive>, sels: seq<Selection>)
    requires i <= |s| && Skip(s, i) == i && L.FieldEnd(s, i, depth, limit).Err?
    ensures var r := L.FieldEnd(s, i, depth, limit);
            && FaultAt(s, i, r.e, r.pos, f) && WfDirectives(dirs, false) && WfSelections(sels) && Begun(f, EndTokens(dirs, sels))
    decreases |s| - i, 2
  {
    Smallest();
    hide D.ParseDirectives, D.ParseSelectionSet, Skip, FaultAt, Begun, Reads, WfDirectives, WfSelections, DirectivesTokens,
         SelectionSetTokens;
    var r, a := L.FieldEnd(s, i, depth, limit), D.ParseDirectives(s, i, false, limit);
    sels := [];
    if a.Err? {
      f, dirs := DirectivesFault(s, i, false, limit);
      Unit(DirectivesTokens(dirs));
      return;
    }
    dirs := a.v;
    DirectivesSound(s, i, false, limit);
    var j := Skip(s, a.next);
    SkipIdempotent(s, a.next);
    if j == |s| {
      f := Fault([], j, []);
      Missing(s, j, j, r.e, []);
      After(s, i, DirectivesTokens(dirs), a.next, j, r.e, r.pos, f, []);
    } else {
      f, sels := SelectionSetFault(s, j, depth, limit);
      After(s, i, DirectivesTokens(dirs), a.next, j, r.e, r.pos, f, SelectionSetTokens(sels));
    }
    f := f.(us := DirectivesTokens(dirs) + f.us);
  }

  // ----- Definitions

  lemma OperationNameFault(s: bytes, i: nat) returns (f: Fault, n: Option<bytes>)
    requires i <= |s| && Skip(s, i) == i && D.OperationName(s, i).Err?
    ensures var r := D.OperationName(s, i);
            FaultAt(s, i, r.e, r.pos, f) && r.e != TooDeep && IsNameIf(n) && Begun(f, NameTokens(n))
  {
    hide D.Name, Skip, FaultAt, Begun, Reads, IsName;
    var r := D.OperationName(s, i);
    if i == |s| {
      n, f := None, Fault([], i, []);
      Missing(s, i, i, r.e, NameTokens(n));
    } else {
      var m := D.Name(s, i);
      n := Some(m.v);
      ReadsName(s, i);
      var k := Skip(s, m.next);
      SkipIdempotent(s, m.next);
      f := Fault([], k, []);
      Missing(s, k, k, r.e, []);
      After(s, i, [NameToken(m.v)], m.next, k, r.e, r.pos, f, []);
      f := f.(us := [NameToken(m.v)] + f.us);
      Unit([NameToken(m.v)]);
    }
  }

  lemma OperationVariablesFault(s: bytes, i: nat, limit: nat) returns (f: Fault, vs: seq<VariableDefinition>)
    requires i < |s| && D.OperationVariables(s, i, limit).Err?
    ensures var r := D.OperationVariables(s, i, limit);
            FaultAt(s, i, r.e, r.pos, f) && WfVariables(vs) && Begun(f, VariablesTokens(vs))
  {
    SomeVariable();
    hide D.ParseVariables, Skip, FaultAt, Begun, Reads, WfVariables, VariableListTokens;
    var r, j := D.OperationVariables(s, i, limit), Skip(s, i + 1);
    SkipIdempotent(s, i + 1);
    ReadsOpen(s, i, LPAREN);
    if j == |s| {
      vs := [VariableDefinition(None, NAME, Named(NAME), None, [])];
      f := Fault([], j, []);
      Missing(s, j, j, r.e, VariableListTokens(vs) + [Punct(RPAREN)]);
    } else {
      f, vs := VariablesFault(s, j, limit);
    }
    After(s, i, [Punct(LPAREN)], i + 1, j, r.e, r.pos, f, VariableListTokens(vs) + [Punct(RPAREN)]);
    f := f.(us := [Punct(LPAREN)] + f.us);
  }

  lemma SomeVariable()
    ensures WfVariables([VariableDefinition(None, NAME, Named(NAME), None, [])])
  {
    var v := VariableDefinition(None, NAME, Named(NAME), None, []);
    assert [v][1..] == [];
    assert WfVariable(v);
  }

  lemma OperationOfError(d: Option<bytes>, kind: Kind, n: Option<bytes>, vs: seq<VariableDefinition>,
                         r: R<(seq<Directive>, seq<Selection>)>)
    ensures var o := L.OperationOf(d, kind, n, vs, r);
            if r.Err? then o == Err(r.e, r.pos) else o.Ok?
  {
  }

  function BodyTokens(n: Option<bytes>, vs: seq<VariableDefinition>, ds: seq<Directive>, xs: seq<Selection>): seq<Token> {
    NameTokens(n) + (VariablesTokens(vs) + (DirectivesTokens(ds) + SelectionSetTokens(xs)))
  }

  lemma OperationFault(s: bytes, i: nat, d: Option<bytes>, kind: Kind, limit: nat)
    returns (f: Fault, n: Option<bytes>, vs: seq<VariableDefinition>, ds: seq<Directive>, xs: seq<Selection>)
    requires i <= |s| && Skip(s, i) == i && D.ParseOperation(s, i, d, kind, limit).Err?
    ensures var r := D.ParseOperation(s, i, d, kind, limit);
            FaultAt(s, i, r.e, r.pos, f)
    ensures IsNameIf(n) && WfVariables(vs) && WfDirectives(ds, false) && xs != [] && WfSelections(xs)
    ensures Begun(f, BodyTokens(n, vs, ds, xs))
  {
    L.OperationIs(s, i, d, kind, limit);
    Smallest();
    hide *;
    var r, a := D.ParseOperation(s, i, d, kind, limit), D.OperationName(s, i);
    n, vs, ds, xs := None, [], [], [A_FIELD];
    var tail := DirectivesTokens(ds) + SelectionSetTokens(xs);
    if a.Err? {
      f, n := OperationNameFault(s, i);
      BegunMore(f, NameTokens(n), VariablesTokens(vs) + tail);
    } else {
      n := a.v;
      OperationNameSound(s, i);
      NameEnds(s, i);
      var b := D.OperationVariables(s, a.next, limit);
      if b.Err? {
        f, vs := OperationVariablesFault(s, a.next, limit);
        BegunMore(f, VariablesTokens(vs), tail);
      } else {
        vs := b.v;
        OperationVariablesSound(s, a.next, limit);
        VariablesEnd(s, a.next, limit);
        OperationOfError(d, kind, n, vs, L.DirectedSet(s, b.next, 0, limit));
        f, ds, xs := DirectedSetFault(s, b.next, 0, limit);
        tail := DirectivesTokens(ds) + SelectionSetTokens(xs);
        After(s, a.next, VariablesTokens(vs), b.next, b.next, r.e, r.pos, f, tail);
        f := f.(us := VariablesTokens(vs) + f.us);
      }
      After(s, i, NameTokens(n), a.next, a.next, r.e, r.pos, f, VariablesTokens(vs) + tail);
      f := f.(us := NameTokens(n) + f.us);
    }
    BodyIs(n, vs, ds, xs);
  }

  lemma BodyIs(n: Option<bytes>, vs: seq<VariableDefinition>, ds: seq<Directive>, xs: seq<Selection>)
    ensures BodyTokens(n, vs, ds, xs) == NameTokens(n) + (VariablesTokens(vs) + (DirectivesTokens(ds) + SelectionSetTokens(xs)))
    ensures IsNameIf(None)
  {
  }

  lemma NameEnds(s: bytes, i: nat)
    requires i <= |s| && Skip(s, i) == i && D.OperationName(s, i).Ok?
    ensures Skip(s, D.OperationName(s, i).next) == D.OperationName(s, i).next
  {
    hide D.Name, Skip;
    if D.Name(s, i).Ok? {
      SkipIdempotent(s, D.Name(s, i).next);
    }
  }

  lemma VariablesEnd(s: bytes, i: nat, limit: nat)
    requires i < |s| && Skip(s, i) == i && D.OperationVariables(s, i, limit).Ok?
    ensures Skip(s, D.OperationVariables(s, i, limit).next) == D.OperationVariables(s, i, limit).next
  {
    hide D.ParseVariables, Skip;
    if s[i] == LPAREN {
      SkipIdempotent(s, D.ParseVariables(s, Skip(s, i + 1), limit).next);
    }
  }

  predicate IsFragmentName(n: bytes) { IsName(n) && n != KW_ON }

  lemma SmallestFragmentName()
    ensures IsFragmentName(NAME)
  {
    assert |NAME| != |KW_ON|;
  }

  lemma FragmentNamed(s: bytes, i: nat)
    requires i <= |s| && D.Name(s, i).Ok? && D.Name(s, i).v != KW_ON
    ensures IsFragmentName(D.Name(s, i).v)
  {
    hide D.Name, IsName;
    ReadsName(s, i);
  }

  function OnTokens(t: bytes, ds: seq<Directive>, xs: seq<Selection>): seq<Token> {
    [NameToken(KW_ON)] + ([NameToken(t)] + (DirectivesTokens(ds) + SelectionSetTokens(xs)))
  }

  lemma OnAre(t: bytes, ds: seq<Directive>, xs: seq<Selection>)
    ensures OnTokens(t, ds, xs) == [NameToken(KW_ON)] + ([NameToken(t)] + (DirectivesTokens(ds) + SelectionSetTokens(xs)))
  {
  }

  /** After the keyword of a fragment. */
  lemma FragmentFault(s: bytes, i: nat, d: Option<bytes>, limit: nat)
    returns (f: Fault, n: bytes, t: bytes, ds: seq<Directive>, xs: seq<Selection>)
    requires i <= |s| && Skip(s, i) == i && D.ParseFragment(s, i, d, limit).Err?
    ensures var r := D.ParseFragment(s, i, d, limit);
            FaultAt(s, i, r.e, r.pos, f)
    ensures IsFragmentName(n) && IsName(t) && WfDirectives(ds, false) && xs != [] && WfSelections(xs)
    ensures Begun(f, [NameToken(n)] + OnTokens(t, ds, xs))
  {
    var a := D.Name(s, i);
    if a.Err? || a.v == KW_ON {
      f, n, t, ds, xs := FragmentNameFault(s, i, d, limit);
    } else {
      n := a.v;
      f, t, ds, xs := FragmentRestFault(s, i, d, limit);
    }
  }

  lemma FragmentNameFault(s: bytes, i: nat, d: Option<bytes>, limit: nat)
    returns (f: Fault, n: bytes, t: bytes, ds: seq<Directive>, xs: seq<Selection>)
    requires i <= |s| && Skip(s, i) == i && (D.Name(s, i).Err? || D.Name(s, i).v == KW_ON)
    ensures var r := D.ParseFragment(s, i, d, limit);
            r.Err? && FaultAt(s, i, r.e, r.pos, f)
    ensures IsFragmentName(n) && IsName(t) && WfDirectives(ds, false) && xs != [] && WfSelections(xs)
    ensures Begun(f, [NameToken(n)] + OnTokens(t, ds, xs))
  {
    L.FragmentIs(s, i, d, limit);
    Smallest();
    SmallestFragmentName();
    NameNeeded(s, i);
    hide *;
    n, t, ds, xs := NAME, NAME, [], [A_FIELD];
    f := Fault([], i, []);
    Missing(s, i, i, D.ParseFragment(s, i, d, limit).e, [NameToken(n)] + OnTokens(t, ds, xs));
  }

  lemma FragmentRestFault(s: bytes, i: nat, d: Option<bytes>, limit: nat)
    returns (f: Fault, t: bytes, ds: seq<Directive>, xs: seq<Selection>)
    requires i <= |s| && Skip(s, i) == i && D.Name(s, i).Ok? && D.Name(s, i).v != KW_ON
    requires D.ParseFragment(s, i, d, limit).Err?
    ensures var r := D.ParseFragment(s, i, d, limit);
            FaultAt(s, i, r.e, r.pos, f)
    ensures IsFragmentName(D.Name(s, i).v) && IsName(t) && WfDirectives(ds, false) && xs != [] && WfSelections(xs)
    ensures Begun(f, [NameToken(D.Name(s, i).v)] + OnTokens(t, ds, xs))
  {
    OnHolds(s, i, d, limit);
    ReadsName(s, i);
    FragmentNamed(s, i);
    hide *;
    var r, a := D.ParseFragment(s, i, d, limit), D.Name(s, i);
    var k := Skip(s, a.next);
    SkipIdempotent(s, a.next);
    f, t, ds, xs := OnFault(s, k, limit, r);
    After(s, i, [NameToken(a.v)], a.next, k, r.e, r.pos, f, OnTokens(t, ds, xs));
    f := f.(us := [NameToken(a.v)] + f.us);
  }

  lemma NameNeeded(s: bytes, i: nat)
    requires i <= |s|
    ensures var a := D.Name(s, i);
            if a.Err? then a.e == (if i == |s| then UnexpectedEOF else UnexpectedToken) && a.pos == i else i < |s|
  {
  }

  /** r is the error after the name of a fragment. */
  predicate OnIs(s: bytes, k: nat, limit: nat, r: R<Definition>)
    requires k <= |s|
  {
    if k == |s| then r == Err(UnexpectedEOF, k)
    else if !IsKeywordAt(s, k, KW_ON) then r == Err(UnexpectedToken, k)
    else
      var b := D.Name(s, Skip(s, k + 2));
      if b.Err? then r == Err(b.e, b.pos)
      else
        var x := L.DirectedSet(s, Skip(s, b.next), 0, limit);
        if x.Err? then r == Err(x.e, x.pos) else r.Ok?
  }

  lemma OnMeans(s: bytes, k: nat, limit: nat, r: R<Definition>)
    requires k <= |s| && OnIs(s, k, limit, r)
    ensures if k == |s| then r == Err(UnexpectedEOF, k)
            else if !IsKeywordAt(s, k, KW_ON) then r == Err(UnexpectedToken, k)
            else
              var b := D.Name(s, Skip(s, k + 2));
              if b.Err? then r == Err(b.e, b.pos)
              else
                var x := L.DirectedSet(s, Skip(s, b.next), 0, limit);
                if x.Err? then r == Err(x.e, x.pos) else r.Ok?
  {
    hide D.Name, Skip, IsKeywordAt, L.DirectedSet;
  }

  lemma OnHolds(s: bytes, i: nat, d: Option<bytes>, limit: nat)
    requires i <= |s| && D.Name(s, i).Ok? && D.Name(s, i).v != KW_ON
    ensures OnIs(s, Skip(s, D.Name(s, i).next), limit, D.ParseFragment(s, i, d, limit))
  {
    hide D.Name, Skip, IsKeywordAt, D.ParseDirectives, D.ParseSelectionSet;
  }

  /** After the name of a fragment: the word and what follows it. */
  lemma OnFault(s: bytes, k: nat, limit: nat, r: R<Definition>)
    returns (f: Fault, t: bytes, ds: seq<Directive>, xs: seq<Selection>)
    requires k <= |s| && Skip(s, k) == k && r.Err?
    requires OnIs(s, k, limit, r)
    ensures FaultAt(s, k, r.e, r.pos, f) && IsName(t) && WfDirectives(ds, false) && xs != [] && WfSelections(xs)
    ensures Begun(f, OnTokens(t, ds, xs))
  {
    OnMeans(s, k, limit, r);
    Smallest();
    Keywords();
    assert |KW_ON| == 2;
    hide *;
    if k == |s| || !IsKeywordAt(s, k, KW_ON) {
      t, ds, xs, f := NAME, [], [A_FIELD], Fault([], k, []);
      Missing(s, k, k, r.e, OnTokens(t, ds, xs));
    } else {
      var b := D.Name(s, Skip(s, k + 2));
      var q: R<Selection> := Err(r.e, r.pos);
      if b.Ok? {
        ErrorSame(q, L.DirectedSet(s, Skip(s, b.next), 0, limit));
      }
      f, t, ds, xs := ConditionFault(s, k, 0, limit, q);
    }
    OnAre(t, ds, xs);
  }

  lemma ErrorSame(r: R<Selection>, d: R<(seq<Directive>, seq<Selection>)>)
    requires r.Err? && d.Err? && d.e == r.e && d.pos == r.pos
    ensures InlineSame(r, d)
  {
  }

  // ----- Definitions and documents

  lemma FragmentMade(d: Option<bytes>, n: bytes, t: bytes, ds: seq<Directive>, xs: seq<Selection>)
    ensures var x := Fragment(d, n, t, ds, xs);
            && DefinitionTokens(x) == DescriptionTokens(d) + ([NameToken(KW_FRAGMENT)]
                 + ([NameToken(n)] + ([NameToken(KW_ON)] + ([NameToken(t)] + (DirectivesTokens(ds) + SelectionSetTokens(xs))))))
            && (WfDefinition(x) <==> IsTextIf(d) && IsFragmentName(n) && IsName(t) && WfDirectives(ds, false) && xs != [] && WfSelections(xs))
  {
    hide DescriptionTokens, DirectivesTokens, SelectionSetTokens, WfDirectives, WfSelections, IsTextIf, IsName;
    var rest := DirectivesTokens(ds) + SelectionSetTokens(xs);
    assert [NameToken(KW_FRAGMENT), NameToken(n), NameToken(KW_ON), NameToken(t)] + rest
        == [NameToken(KW_FRAGMENT)] + ([NameToken(n)] + ([NameToken(KW_ON)] + ([NameToken(t)] + rest)));
  }

  lemma OperationMade(d: Option<bytes>, kind: Kind, n: Option<bytes>, vs: seq<VariableDefinition>, ds: seq<Directive>, xs: seq<Selection>)
    ensures var x := Operation(d, false, kind, n, vs, ds, xs);
            && DefinitionTokens(x) == DescriptionTokens(d) + ([NameToken(D.KindKeyword(kind))] + BodyTokens(n, vs, ds, xs))
            && (WfDefinition(x) <==> IsTextIf(d) && IsNameIf(n) && WfVariables(vs) && WfDirectives(ds, false) && xs != [] && WfSelections(xs))
  {
    hide DescriptionTokens, DirectivesTokens, SelectionSetTokens, VariablesTokens, NameTokens, D.KindKeyword, WfDirectives, WfSelections,
         WfVariables, IsTextIf, IsNameIf;
  }

  lemma ShorthandMade(xs: seq<Selection>)
    ensures var x := Operation(None, true, Query, None, [], [], xs);
            DefinitionTokens(x) == SelectionSetTokens(xs) && (WfDefinition(x) <==> xs != [] && WfSelections(xs))
  {
    hide SelectionSetTokens, WfSelections;
    Smallest();
  }

  /** The description of a definition is read, and what follows it is at j. */
  lemma DefinitionIs(s: bytes, i: nat, limit: nat)
    requires i < |s|
    ensures var r, d := D.ParseDefinition(s, i, limit), D.Description(s, i);
            if d.Err? then r == Err(d.e, d.pos)
            else
              var j := d.next;
              if s[j] == LBRACE then
                if d.v.Some? then r == Err(UnexpectedToken, j)
                else
                  var x := D.ParseSelectionSet(s, j, 0, limit);
                  if x.Err? then r == Err(x.e, x.pos) else r.Ok?
              else if IsKeywordAt(s, j, KW_FRAGMENT) then r == D.ParseFragment(s, Skip(s, j + |KW_FRAGMENT|), d.v, limit)
              else if D.KindAt(s, j).Some? then
                r == D.ParseOperation(s, Skip(s, j + |D.KindKeyword(D.KindAt(s, j).value)|), d.v, D.KindAt(s, j).value, limit)
              else r == Err(UnexpectedToken, j)
    ensures D.Description(s, i).Ok? && D.KindAt(s, D.Description(s, i).next).Some? ==>
              var j := D.Description(s, i).next;
              IsKeywordAt(s, j, D.KindKeyword(D.KindAt(s, j).value))
  {
    hide D.Description, D.ParseSelectionSet, D.ParseFragment, D.ParseOperation, Skip, IsKeywordAt;
  }

  /** After the description of a definition: the part x that a definition is made of. */
  lemma DefinitionFault(s: bytes, i: nat, limit: nat) returns (f: Fault, x: Definition)
    requires i < |s| && Skip(s, i) == i && D.ParseDefinition(s, i, limit).Err?
    ensures var r := D.ParseDefinition(s, i, limit);
            FaultAt(s, i, r.e, r.pos, f) && WfDefinition(x) && Begun(f, DefinitionTokens(x))
  {
    DefinitionIs(s, i, limit);
    hide *;
    var r, d := D.ParseDefinition(s, i, limit), D.Description(s, i);
    if d.Err? {
      f, x := DescribedFault(s, i, r.e, r.pos);
    } else {
      DescribedIs(s, i);
      var j := d.next;
      if s[j] == LBRACE && d.v.None? {
        NotDescribed(s, i);
        var xs;
        f, xs := SelectionSetFault(s, j, 0, limit);
        x := Operation(None, true, Query, None, [], [], xs);
        ShorthandMade(xs);
      } else if s[j] != LBRACE && IsKeywordAt(s, j, KW_FRAGMENT) {
        f, x := FragmentOnFault(s, i, limit, r);
      } else if s[j] != LBRACE && D.KindAt(s, j).Some? {
        f, x := OperationOnFault(s, i, limit, r);
      } else {
        f, x := NothingDefinedFault(s, i, d.v, j, r.e);
      }
    }
  }

  lemma NotDescribed(s: bytes, i: nat)
    requires i < |s| && D.Description(s, i).Ok? && D.Description(s, i).v.None?
    ensures D.Description(s, i).next == i
  {
    hide D.StringToken, Skip;
  }

  lemma DescribedFault(s: bytes, i: nat, e: Error, p: nat) returns (f: Fault, x: Definition)
    requires i < |s| && Skip(s, i) == i && D.Description(s, i) == Err(e, p)
    ensures FaultAt(s, i, e, p, f) && WfDefinition(x) && Begun(f, DefinitionTokens(x))
  {
    Smallest();
    SmallestFragmentName();
    hide *;
    var d;
    f, d := DescriptionFault(s, i);
    x := Fragment(d, NAME, NAME, [], [A_FIELD]);
    FragmentMade(d, NAME, NAME, [], [A_FIELD]);
    var rest := [NameToken(NAME)] + ([NameToken(KW_ON)] + ([NameToken(NAME)] + (DirectivesTokens([]) + SelectionSetTokens([A_FIELD]))));
    BegunMore(f, DescriptionTokens(d), [NameToken(KW_FRAGMENT)] + rest);
  }

  /** Nothing that defines follows the description. */
  lemma NothingDefinedFault(s: bytes, i: nat, d: Option<bytes>, j: nat, e: Error) returns (f: Fault, x: Definition)
    requires i < |s| && D.Description(s, i) == Ok(d, j) && Skip(s, j) == j && e == UnexpectedToken
    ensures FaultAt(s, i, e, j, f) && WfDefinition(x) && Begun(f, DefinitionTokens(x))
  {
    Smallest();
    SmallestFragmentName();
    hide *;
    DescriptionSound(s, i);
    x := Fragment(d, NAME, NAME, [], [A_FIELD]);
    FragmentMade(d, NAME, NAME, [], [A_FIELD]);
    var rest := [NameToken(KW_FRAGMENT)] + ([NameToken(NAME)] + ([NameToken(KW_ON)] + ([NameToken(NAME)]
                + (DirectivesTokens([]) + SelectionSetTokens([A_FIELD])))));
    f := Fault([], j, []);
    Missing(s, j, j, e, rest);
    After(s, i, DescriptionTokens(d), j, j, e, j, f, rest);
    f := f.(us := DescriptionTokens(d) + f.us);
  }

  lemma FragmentOnFault(s: bytes, i: nat, limit: nat, r: R<Definition>) returns (f: Fault, x: Definition)
    requires i < |s| && D.Description(s, i).Ok? && IsKeywordAt(s, D.Description(s, i).next, KW_FRAGMENT)
    requires r.Err?
    requires r == D.ParseFragment(s, Skip(s, D.Description(s, i).next + |KW_FRAGMENT|), D.Description(s, i).v, limit)
    ensures FaultAt(s, i, r.e, r.pos, f) && WfDefinition(x) && Begun(f, DefinitionTokens(x))
  {
    Keywords();
    hide *;
    var d := D.Description(s, i);
    var j := d.next;
    DescriptionSound(s, i);
    ReadsKeyword(s, j, KW_FRAGMENT);
    var k := Skip(s, j + |KW_FRAGMENT|);
    SkipIdempotent(s, j + |KW_FRAGMENT|);
    var n, t, ds, xs;
    f, n, t, ds, xs := FragmentFault(s, k, d.v, limit);
    OnAre(t, ds, xs);
    var rest := [NameToken(n)] + ([NameToken(KW_ON)] + ([NameToken(t)] + (DirectivesTokens(ds) + SelectionSetTokens(xs))));
    After(s, j, [NameToken(KW_FRAGMENT)], j + |KW_FRAGMENT|, k, r.e, r.pos, f, rest);
    f := f.(us := [NameToken(KW_FRAGMENT)] + f.us);
    After(s, i, DescriptionTokens(d.v), j, j, r.e, r.pos, f, [NameToken(KW_FRAGMENT)] + rest);
    f := f.(us := DescriptionTokens(d.v) + f.us);
    x := Fragment(d.v, n, t, ds, xs);
    FragmentMade(d.v, n, t, ds, xs);
  }

  lemma KindIsName(kind: Kind)
    ensures IsName(D.KindKeyword(kind))
  {
  }

  lemma OperationOnFault(s: bytes, i: nat, limit: nat, r: R<Definition>) returns (f: Fault, x: Definition)
    requires i < |s| && D.Description(s, i).Ok? && D.KindAt(s, D.Description(s, i).next).Some?
    requires IsKeywordAt(s, D.Description(s, i).next, D.KindKeyword(D.KindAt(s, D.Description(s, i).next).value))
    requires r.Err?
    requires var j := D.Description(s, i).next;
             var kind := D.KindAt(s, j).value;
             r == D.ParseOperation(s, Skip(s, j + |D.KindKeyword(kind)|), D.Description(s, i).v, kind, limit)
    ensures FaultAt(s, i, r.e, r.pos, f) && WfDefinition(x) && Begun(f, DefinitionTokens(x))
  {
    hide *;
    var d := D.Description(s, i);
    var j := d.next;
    var kind := D.KindAt(s, j).value;
    var word := D.KindKeyword(kind);
    KindIsName(kind);
    DescriptionSound(s, i);
    ReadsKeyword(s, j, word);
    var k := Skip(s, j + |word|);
    SkipIdempotent(s, j + |word|);
    var n, vs, ds, xs;
    f, n, vs, ds, xs := OperationFault(s, k, d.v, kind, limit);
    var rest := BodyTokens(n, vs, ds, xs);
    After(s, j, [NameToken(word)], j + |word|, k, r.e, r.pos, f, rest);
    f := f.(us := [NameToken(word)] + f.us);
    After(s, i, DescriptionTokens(d.v), j, j, r.e, r.pos, f, [NameToken(word)] + rest);
    f := f.(us := DescriptionTokens(d.v) + f.us);
    x := Operation(d.v, false, kind, n, vs, ds, xs);
    OperationMade(d.v, kind, n, vs, ds, xs);
  }

  lemma DefinitionsAre(x: Definition, xs: Document)
    ensures DocumentTokens([x] + xs) == DefinitionTokens(x) + DocumentTokens(xs)
    ensures WfDocument([x] + xs) <==> WfDefinition(x) && WfDefinitions(xs)
    ensures [x] + [] == [x] && DocumentTokens([]) == [] && WfDefinitions([])
  {
    hide DefinitionTokens, WfDefinition;
    assert ([x] + xs)[1..] == xs;
  }

  lemma WfRest(xs: Document)
    requires WfDocument(xs)
    ensures WfDefinitions(xs)
  {
  }

  lemma DefinitionsStepIs(s: bytes, i: nat, limit: nat)
    requires i < |s|
    ensures var r, x := D.ParseDefinitions(s, i, limit), D.ParseDefinition(s, i, limit);
            if x.Err? then r == Err(x.e, x.pos)
            else if Skip(s, x.next) == |s| then r.Ok?
            else
              var xs := D.ParseDefinitions(s, Skip(s, x.next), limit);
              if xs.Err? then r == Err(xs.e, xs.pos) else r.Ok?
  {
    hide D.ParseDefinition, Skip;
  }

  lemma {:induction false} DefinitionsFault(s: bytes, i: nat, limit: nat) returns (f: Fault, d: Document)
    requires i < |s| && Skip(s, i) == i && D.ParseDefinitions(s, i, limit).Err?
    ensures var r := D.ParseDefinitions(s, i, limit);
            FaultAt(s, i, r.e, r.pos, f) && WfDocument(d) && Begun(f, DocumentTokens(d))
    decreases |s| - i
  {
    DefinitionsStepIs(s, i, limit);
    hide *;
    var r, x := D.ParseDefinitions(s, i, limit), D.ParseDefinition(s, i, limit);
    if x.Err? {
      var w;
      f, w := DefinitionFault(s, i, limit);
      DefinitionsAre(w, []);
      BegunMore(f, DefinitionTokens(w), []);
      d := [w] + [];
    } else {
      var j, more := Skip(s, x.next), [];
      SkipIdempotent(s, x.next);
      f, more := DefinitionsFault(s, j, limit);
      DefinitionSound(s, i, limit);
      After(s, i, DefinitionTokens(x.v), x.next, j, r.e, r.pos, f, DocumentTokens(more));
      f := f.(us := DefinitionTokens(x.v) + f.us);
      WfRest(more);
      d := [x.v] + more;
      DefinitionsAre(x.v, more);
    }
  }

  /** What was read before the fault, and what could have stood there, begin the document d. */
  lemma DocumentFault(s: bytes, limit: nat) returns (f: Fault, d: Document)
    requires D.ParseDocument(s, limit).Err?
    ensures var r := D.ParseDocument(s, limit);
            FaultAt(s, 0, r.e, r.pos, f) && WfDocument(d) && Begun(f, DocumentTokens(d))
  {
    Smallest();
    hide D.ParseDefinitions, Skip, Reads, FaultAt, Begun, WfDefinitions, WfSelections, DocumentTokens;
    var r, i := D.ParseDocument(s, limit), Skip(s, 0);
    SkipIdempotent(s, 0);
    if i == |s| {
      var x := Operation(None, true, Query, None, [], [], [A_FIELD]);
      ShorthandMade([A_FIELD]);
      DefinitionsAre(x, []);
      d, f := [x] + [], Fault([], i, []);
      Missing(s, 0, i, r.e, DocumentTokens(d));
    } else {
      f, d := DefinitionsFault(s, i, limit);
      Later(s, 0, i, r.e, r.pos, f);
    }
  }
}
