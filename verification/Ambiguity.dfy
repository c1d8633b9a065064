/**
 The other half of module DocumentCode: a document that is not clear shares its canonical
 form with another document. Each lemma builds that other one.
 */
module Ambiguity {
  import opened Bytes
  import opened Ast
  import opened Canonical
  import opened Grammar
  import opened ValueCode
  import opened DocumentCode
  import opened Documents

  // ----- Lists

  lemma {:induction false} ItemsCat(a: seq<Value>, b: seq<Value>, constant: bool)
    ensures EncItems(a + b) == EncItems(a) + EncItems(b)
    ensures WfItems(a + b, constant) <==> WfItems(a, constant) && WfItems(b, constant)
  {
    hide EncValue, WfValue;
    if a == [] {
      assert a + b == b;
    } else {
      ItemsCat(a[1..], b, constant);
      assert (a + b)[1..] == a[1..] + b;
      Assoc(EncValue(a[0]), EncItems(a[1..]), EncItems(b));
    }
  }

  lemma ItemsOne(v: Value, constant: bool)
    ensures EncItems([v]) == EncValue(v)
    ensures WfItems([v], constant) <==> WfValue(v, constant)
  {
    assert [v][1..] == [];
  }

  /** Where the list with items is that comes after an empty one. */
  lemma {:induction false} FullListIn(vs: seq<Value>) returns (k: nat)
    requires !NoFullList(vs)
    ensures k < |vs| && IsFullList(vs[k])
  {
    if IsFullList(vs[0]) {
      k := 0;
    } else {
      k := FullListIn(vs[1..]);
      k := k + 1;
    }
  }

  /** Where the empty list is that something comes after. */
  lemma {:induction false} EmptyListIn(vs: seq<Value>) returns (k: nat)
    requires ClearItems(vs, false) && !ClearItems(vs, true)
    ensures k + 1 < |vs| && IsEmptyList(vs[k])
  {
    if IsEmptyList(vs[0]) && |vs| != 1 {
      k := 0;
    } else {
      k := EmptyListIn(vs[1..]);
      k := k + 1;
    }
  }

  lemma Split(vs: seq<Value>, k: nat)
    requires k < |vs|
    ensures vs == vs[..k] + ([vs[k]] + vs[k + 1..])
  {
  }

  lemma ItemsAround(vs: seq<Value>, k: nat, constant: bool)
    requires k < |vs|
    ensures EncItems(vs) == EncItems(vs[..k]) + (EncValue(vs[k]) + EncItems(vs[k + 1..]))
    ensures WfItems(vs, constant) <==> WfItems(vs[..k], constant) && WfValue(vs[k], constant) && WfItems(vs[k + 1..], constant)
  {
    hide EncValue, WfValue;
    Split(vs, k);
    ItemsCat(vs[..k], [vs[k]] + vs[k + 1..], constant);
    ItemsCat([vs[k]], vs[k + 1..], constant);
    ItemsOne(vs[k], constant);
  }

  /** A list with items, before the rest. */
  lemma FullListEnc(vs: seq<Value>, rest: bytes)
    requires vs != []
    ensures EncValue(ListValue(vs)) + rest == [PREF_LIST] + (EncItems(vs) + ([PREF_LIST_END] + rest))
  {
    hide EncItems;
    Assoc([PREF_LIST], EncItems(vs) + [PREF_LIST_END], rest);
    Assoc(EncItems(vs), [PREF_LIST_END], rest);
  }

  lemma EmptyListEnc(rest: bytes)
    ensures EncValue(ListValue([])) + rest == [PREF_LIST] + rest
  {
  }

  /** `[[], x, [y]]` and `[[x, [], y]]`: the empty list takes in what follows it. */
  lemma TakeIn(vs: seq<Value>, k: nat, constant: bool) returns (us: seq<Value>)
    requires 0 < k < |vs| && IsEmptyList(vs[0]) && IsFullList(vs[k]) && WfItems(vs, constant)
    ensures us != vs && us != [] && WfItems(us, constant) && EncItems(us) == EncItems(vs)
  {
    hide EncValue, EncItems, WfItems;
    var items, rest := vs[k].items, vs[k + 1..];
    var inner := vs[1..k] + ([vs[0]] + items);
    us := [ListValue(inner)] + rest;
    assert us[0] != vs[0];
    ItemsAround(vs, k, constant);
    ItemsAround(vs[..k], 0, constant);
    assert vs[..k][1..] == vs[1..k] && vs[..k][..0] == [];
    ItemsCat(vs[1..k], [vs[0]] + items, constant);
    ItemsCat([vs[0]], items, constant);
    ItemsOne(vs[0], constant);
    ItemsCat([ListValue(inner)], rest, constant);
    ItemsOne(ListValue(inner), constant);
    WfList(vs[k], constant);
    WfList(ListValue(inner), constant);
    NoItems();
    var a, n, r := EncItems(vs[1..k]), EncItems(items), EncItems(rest);
    FullListEnc(inner, r);
    FullListEnc(items, r);
    EmptyListEnc(n);
    EmptyListEnc(a + ([PREF_LIST] + (n + ([PREF_LIST_END] + r))));
    EmptyListEnc(a);
    Assoc([PREF_LIST], a, [PREF_LIST] + (n + ([PREF_LIST_END] + r)));
    Assoc(a, [PREF_LIST] + n, [PREF_LIST_END] + r);
    Assoc([PREF_LIST], n, [PREF_LIST_END] + r);
  }

  lemma WfList(v: Value, constant: bool)
    requires v.ListValue?
    ensures WfValue(v, constant) <==> WfItems(v.items, constant)
  {
  }

  lemma NoItems()
    ensures EncItems([]) == [] && forall s: bytes :: [] + s == s
  {
  }

  /** `[[x, [], y]]` and `[[], x, [y]]`: the list gives up what comes before its empty item. */
  lemma GiveUp(vs: seq<Value>, k: nat, rest: seq<Value>, constant: bool) returns (us: seq<Value>)
    requires k + 1 < |vs| && IsEmptyList(vs[k]) && WfItems(vs, constant) && WfItems(rest, constant)
    ensures us != [ListValue(vs)] + rest && us != [] && WfItems(us, constant)
    ensures EncItems(us) == EncItems([ListValue(vs)] + rest)
  {
    hide EncValue, EncItems, WfItems;
    var items := vs[k + 1..];
    us := [vs[k]] + (vs[..k] + ([ListValue(items)] + rest));
    assert us[0] != ([ListValue(vs)] + rest)[0];
    ItemsAround(vs, k, constant);
    ItemsCat([vs[k]], vs[..k] + ([ListValue(items)] + rest), constant);
    ItemsOne(vs[k], constant);
    ItemsCat(vs[..k], [ListValue(items)] + rest, constant);
    ItemsCat([ListValue(items)], rest, constant);
    ItemsOne(ListValue(items), constant);
    ItemsCat([ListValue(vs)], rest, constant);
    ItemsOne(ListValue(vs), constant);
    WfList(ListValue(items), constant);
    var a, n, r := EncItems(vs[..k]), EncItems(items), EncItems(rest);
    FullListEnc(vs, r);
    FullListEnc(items, r);
    EmptyListEnc(n);
    EmptyListEnc(a + ([PREF_LIST] + (n + ([PREF_LIST_END] + r))));
    Assoc(a, [PREF_LIST] + n, [PREF_LIST_END] + r);
    Assoc([PREF_LIST], n, [PREF_LIST_END] + r);
  }

  // ----- Input objects

  lemma {:induction false} FieldsCat(a: seq<ObjectField>, b: seq<ObjectField>, constant: bool)
    ensures EncFields(a + b) == EncFields(a) + EncFields(b)
    ensures WfFields(a + b, constant) <==> WfFields(a, constant) && WfFields(b, constant)
  {
    hide EncField, WfField;
    if a == [] {
      assert a + b == b;
    } else {
      FieldsCat(a[1..], b, constant);
      assert (a + b)[1..] == a[1..] + b;
      Assoc(EncField(a[0]), EncFields(a[1..]), EncFields(b));
    }
  }

  lemma FieldsOne(f: ObjectField, constant: bool)
    ensures EncFields([f]) == EncField(f)
    ensures WfFields([f], constant) <==> WfField(f, constant)
  {
    assert [f][1..] == [];
  }

  lemma {:induction false} FullObjectIn(fs: seq<ObjectField>) returns (k: nat)
    requires !NoFullObject(fs)
    ensures k < |fs| && IsFullObject(fs[k].value)
  {
    if IsFullObject(fs[0].value) {
      k := 0;
    } else {
      k := FullObjectIn(fs[1..]);
      k := k + 1;
    }
  }

  lemma {:induction false} EmptyObjectIn(fs: seq<ObjectField>) returns (k: nat)
    requires ClearFields(fs, false) && !ClearFields(fs, true)
    ensures k + 1 < |fs| && IsEmptyObject(fs[k].value)
  {
    if IsEmptyObject(fs[0].value) && |fs| != 1 {
      k := 0;
    } else {
      k := EmptyObjectIn(fs[1..]);
      k := k + 1;
    }
  }

  lemma FieldsAround(fs: seq<ObjectField>, k: nat, constant: bool)
    requires k < |fs|
    ensures EncFields(fs) == EncFields(fs[..k]) + (EncField(fs[k]) + EncFields(fs[k + 1..]))
    ensures WfFields(fs, constant) <==> WfFields(fs[..k], constant) && WfField(fs[k], constant) && WfFields(fs[k + 1..], constant)
  {
    hide EncField, WfField;
    assert fs == fs[..k] + ([fs[k]] + fs[k + 1..]);
    FieldsCat(fs[..k], [fs[k]] + fs[k + 1..], constant);
    FieldsCat([fs[k]], fs[k + 1..], constant);
    FieldsOne(fs[k], constant);
  }

  /** A field whose value is an input object with fields, before the rest. */
  lemma FullObjectEnc(n: bytes, fs: seq<ObjectField>, rest: bytes)
    requires fs != []
    ensures EncField(ObjectField(n, ObjectValue(fs))) + rest
              == ([PREF_OBJECT_FIELD] + n + [PREF_OBJECT]) + (EncFields(fs) + ([PREF_OBJECT_END] + rest))
  {
    hide EncFields;
    var head := [PREF_OBJECT_FIELD] + n;
    Assoc(head, [PREF_OBJECT], EncFields(fs) + [PREF_OBJECT_END]);
    Assoc(head + [PREF_OBJECT], EncFields(fs) + [PREF_OBJECT_END], rest);
    Assoc(EncFields(fs), [PREF_OBJECT_END], rest);
  }

  lemma EmptyObjectEnc(n: bytes)
    ensures EncField(ObjectField(n, ObjectValue([]))) == [PREF_OBJECT_FIELD] + n + [PREF_OBJECT]
  {
    assert [PREF_OBJECT] + [] == [PREF_OBJECT];
  }

  lemma WfObject(n: bytes, fs: seq<ObjectField>, constant: bool)
    ensures WfField(ObjectField(n, ObjectValue(fs)), constant) <==> Lexical.IsName(n) && WfFields(fs, constant)
  {
    hide WfFields, Lexical.IsName;
    WfObjectValue(fs, constant);
  }

  lemma WfObjectValue(fs: seq<ObjectField>, constant: bool)
    ensures WfValue(ObjectValue(fs), constant) <==> WfFields(fs, constant)
  {
  }

  /** `{a: {}, x: 1, b: {c: 2}}` and `{a: {x: 1, b: {}, c: 2}}`. */
  lemma TakeInFields(fs: seq<ObjectField>, k: nat, constant: bool) returns (gs: seq<ObjectField>)
    requires 0 < k < |fs| && IsEmptyObject(fs[0].value) && IsFullObject(fs[k].value) && WfFields(fs, constant)
    ensures gs != fs && gs != [] && WfFields(gs, constant) && EncFields(gs) == EncFields(fs)
  {
    hide EncField, EncFields, WfFields, WfField, Lexical.IsName;
    var items, rest := fs[k].value.fields, fs[k + 1..];
    var n, m := fs[0].name, fs[k].name;
    var e := ObjectField(m, ObjectValue([]));
    var inner := fs[1..k] + ([e] + items);
    var f := ObjectField(n, ObjectValue(inner));
    gs := [f] + rest;
    assert gs[0] != fs[0];
    assert fs[0] == ObjectField(n, ObjectValue([])) && fs[k] == ObjectField(m, ObjectValue(items));
    FieldsAround(fs, k, constant);
    FieldsAround(fs[..k], 0, constant);
    assert fs[..k][1..] == fs[1..k] && fs[..k][..0] == [];
    FieldsCat(fs[1..k], [e] + items, constant);
    FieldsCat([e], items, constant);
    FieldsOne(e, constant);
    FieldsCat([f], rest, constant);
    FieldsOne(f, constant);
    WfObject(n, [], constant);
    WfObject(m, [], constant);
    WfObject(m, items, constant);
    WfObject(n, inner, constant);
    NoFields(constant);
    var a, i, r := EncFields(fs[1..k]), EncFields(items), EncFields(rest);
    var pn, pm := [PREF_OBJECT_FIELD] + n + [PREF_OBJECT], [PREF_OBJECT_FIELD] + m + [PREF_OBJECT];
    EmptyObjectEnc(n);
    EmptyObjectEnc(m);
    FullObjectEnc(n, inner, r);
    FullObjectEnc(m, items, r);
    Assoc(pn, a, pm + (i + ([PREF_OBJECT_END] + r)));
    Assoc(a, pm + i, [PREF_OBJECT_END] + r);
    Assoc(pm, i, [PREF_OBJECT_END] + r);
  }

  lemma NoFields(constant: bool)
    ensures EncFields([]) == [] && WfFields([], constant) && forall s: bytes :: [] + s == s
  {
  }

  /** `{a: {x: 1, b: {}, c: 2}}` and `{a: {}, x: 1, b: {c: 2}}`. */
  lemma GiveUpFields(n: bytes, fs: seq<ObjectField>, k: nat, rest: seq<ObjectField>, constant: bool) returns (gs: seq<ObjectField>)
    requires k + 1 < |fs| && IsEmptyObject(fs[k].value) && WfFields(fs, constant) && WfFields(rest, constant) && Lexical.IsName(n)
    ensures gs != [ObjectField(n, ObjectValue(fs))] + rest && gs != [] && WfFields(gs, constant)
    ensures EncFields(gs) == EncFields([ObjectField(n, ObjectValue(fs))] + rest)
  {
    hide EncField, EncFields, WfFields, WfField, Lexical.IsName;
    var items, m := fs[k + 1..], fs[k].name;
    var e, f, g := ObjectField(n, ObjectValue([])), ObjectField(n, ObjectValue(fs)), ObjectField(m, ObjectValue(items));
    gs := [e] + (fs[..k] + ([g] + rest));
    assert gs[0] != ([f] + rest)[0];
    assert fs[k] == ObjectField(m, ObjectValue([]));
    FieldsAround(fs, k, constant);
    FieldsCat([e], fs[..k] + ([g] + rest), constant);
    FieldsOne(e, constant);
    FieldsCat(fs[..k], [g] + rest, constant);
    FieldsCat([g], rest, constant);
    FieldsOne(g, constant);
    FieldsCat([f], rest, constant);
    FieldsOne(f, constant);
    WfObject(n, [], constant);
    WfObject(m, [], constant);
    WfObject(m, items, constant);
    WfObject(n, fs, constant);
    NoFields(constant);
    var a, i, r := EncFields(fs[..k]), EncFields(items), EncFields(rest);
    var pn, pm := [PREF_OBJECT_FIELD] + n + [PREF_OBJECT], [PREF_OBJECT_FIELD] + m + [PREF_OBJECT];
    EmptyObjectEnc(n);
    EmptyObjectEnc(m);
    FullObjectEnc(n, fs, r);
    FullObjectEnc(m, items, r);
    Assoc(a, pm + i, [PREF_OBJECT_END] + r);
    Assoc(pm, i, [PREF_OBJECT_END] + r);
  }

  // ----- Values

  lemma {:induction false} OtherItems(vs: seq<Value>, constant: bool) returns (us: seq<Value>)
    requires !ClearItems(vs, false) && WfItems(vs, constant)
    ensures us != vs && us != [] && WfItems(us, constant) && EncItems(us) == EncItems(vs)
    decreases vs, 1
  {
    var v, rest := vs[0], vs[1..];
    assert vs == [v] + rest;
    if !ClearIn(v, true, false) {
      if v.ListValue? && ClearItems(v.items, false) {
        var k := EmptyListIn(v.items);
        us := GiveUp(v.items, k, rest, constant);
      } else {
        var u := OtherInItem(v, constant);
        us := [u] + rest;
        assert us[0] != vs[0] && us[1..] == rest;
      }
    } else if IsEmptyList(v) && !NoFullList(rest) {
      var k := FullListIn(rest);
      us := TakeIn(vs, k + 1, constant);
    } else {
      var more := OtherItems(rest, constant);
      us := [v] + more;
      assert us[1..] == more;
    }
  }

  lemma {:induction false} OtherInItem(v: Value, constant: bool) returns (u: Value)
    requires !ClearIn(v, false, false) && WfValue(v, constant)
    ensures u != v && WfValue(u, constant) && EncValue(u) == EncValue(v)
    decreases v, 0
  {
    if v.ListValue? {
      var us := OtherItems(v.items, constant);
      u := ListValue(us);
    } else {
      var gs := OtherFields(v.fields, constant);
      u := ObjectValue(gs);
    }
  }

  lemma {:induction false} OtherFields(fs: seq<ObjectField>, constant: bool) returns (gs: seq<ObjectField>)
    requires !ClearFields(fs, false) && WfFields(fs, constant)
    ensures gs != fs && gs != [] && WfFields(gs, constant) && EncFields(gs) == EncFields(fs)
    decreases fs, 1
  {
    var f, rest := fs[0], fs[1..];
    assert fs == [f] + rest;
    FieldParts(f, constant);
    if !ClearField(f) {
      if f.value.ObjectValue? && ClearFields(f.value.fields, false) {
        var k := EmptyObjectIn(f.value.fields);
        gs := GiveUpFields(f.name, f.value.fields, k, rest, constant);
      } else {
        var u := OtherInItem(f.value, constant);
        gs := [ObjectField(f.name, u)] + rest;
        assert gs[0] != fs[0] && gs[1..] == rest;
      }
    } else if IsEmptyObject(f.value) && !NoFullObject(rest) {
      var k := FullObjectIn(rest);
      gs := TakeInFields(fs, k + 1, constant);
    } else {
      var more := OtherFields(rest, constant);
      gs := [f] + more;
      assert gs[1..] == more;
    }
  }

  lemma FieldParts(f: ObjectField, constant: bool)
    requires WfField(f, constant)
    ensures Lexical.IsName(f.name) && WfValue(f.value, constant)
    ensures ClearField(f) <==> ClearIn(f.value, false, true)
    ensures !f.value.ObjectValue? ==> ClearIn(f.value, false, true) == ClearIn(f.value, false, false)
    ensures f.value.ObjectValue? ==>
              && WfFields(f.value.fields, constant)
              && ClearIn(f.value, false, true) == ClearFields(f.value.fields, true)
              && ClearIn(f.value, false, false) == ClearFields(f.value.fields, false)
  {
  }

  // ----- Arguments and directives

  lemma {:induction false} OtherArguments(xs: seq<Argument>, constant: bool) returns (ys: seq<Argument>)
    requires !ClearArguments(xs) && WfArguments(xs, constant)
    ensures ys != xs && ys != [] && WfArguments(ys, constant) && Args(ys) == Args(xs)
  {
    hide EncValue, WfValue, Clear;
    var a, rest := xs[0], xs[1..];
    assert xs == [a] + rest;
    if !Clear(a.value) {
      var u := OtherValue(a.value, constant);
      ys := [a.(value := u)] + rest;
      assert ys[0] != a && ys[1..] == rest;
    } else {
      var more := OtherArguments(rest, constant);
      ys := [a] + more;
      assert ys[1..] == more;
    }
  }

  lemma OtherValue(v: Value, constant: bool) returns (u: Value)
    requires !Clear(v) && WfValue(v, constant)
    ensures u != v && WfValue(u, constant) && EncValue(u) == EncValue(v)
  {
    u := OtherInItem(v, constant);
  }

  lemma {:induction false} OtherDirectives(ds: seq<Directive>, constant: bool) returns (es: seq<Directive>)
    requires !ClearDirectives(ds) && WfDirectives(ds, constant)
    ensures es != ds && es != [] && WfDirectives(es, constant) && Dirs(es) == Dirs(ds)
  {
    hide SerArguments, WfArguments, ClearArguments;
    var d, rest := ds[0], ds[1..];
    assert ds == [d] + rest;
    if !ClearArguments(d.arguments) {
      var ys := OtherArguments(d.arguments, constant);
      es := [d.(arguments := ys)] + rest;
      assert es[0] != d && es[1..] == rest;
    } else {
      var more := OtherDirectives(rest, constant);
      es := [d] + more;
      assert es[1..] == more;
    }
  }

  // ----- Variable definitions

  lemma OtherVariable(v: VariableDefinition) returns (w: VariableDefinition)
    requires !ClearVariable(v) && WfVariable(v)
    ensures PlainVariable(w) != PlainVariable(v) && WfVariable(w) && SerVariable(Nothing, w) == SerVariable(Nothing, v)
  {
    hide EncValue, WfValue, Clear, SerDirectives, WfDirectives, ClearDirectives, TypeText, WfType;
    if v.default.Some? && !Clear(v.default.value) {
      var u := OtherValue(v.default.value, true);
      w := v.(default := Some(u));
    } else {
      var es := OtherDirectives(v.directives, true);
      w := v.(directives := es);
    }
  }

  lemma {:induction false} OtherVariables(vs: seq<VariableDefinition>) returns (ws: seq<VariableDefinition>)
    requires !ClearVariables(vs) && WfVariables(vs)
    ensures PlainVariables(ws) != PlainVariables(vs) && ws != [] && WfVariables(ws) && Vars(ws) == Vars(vs)
  {
    hide SerVariable, WfVariable, ClearVariable, PlainVariable;
    var v, rest := vs[0], vs[1..];
    if !ClearVariable(v) {
      var w := OtherVariable(v);
      ws := [w] + rest;
      assert ws[1..] == rest;
      assert PlainVariables(ws)[0] != PlainVariables(vs)[0];
    } else {
      var more := OtherVariables(rest);
      ws := [v] + more;
      assert ws[1..] == more;
      assert PlainVariables(ws)[1..] == PlainVariables(more) && PlainVariables(vs)[1..] == PlainVariables(rest);
    }
  }

  lemma {:induction false} VarsCat(a: seq<VariableDefinition>, b: seq<VariableDefinition>)
    ensures Vars(a + b) == Vars(a) + Vars(b)
    ensures WfVariables(a + b) <==> WfVariables(a) && WfVariables(b)
    ensures PlainVariables(a + b) == PlainVariables(a) + PlainVariables(b)
  {
    hide SerVariable, WfVariable, PlainVariable;
    if a == [] {
      assert a + b == b;
    } else {
      VarsCat(a[1..], b);
      assert (a + b)[1..] == a[1..] + b;
      Assoc(SerVariable(Nothing, a[0]), Vars(a[1..]), Vars(b));
    }
  }

  /** The last variable and the directives it has. */
  lemma LastVariable(vs: seq<VariableDefinition>, es: seq<Directive>, t: bytes) returns (ws: seq<VariableDefinition>)
    requires vs != [] && WfVariables(vs) && WfDirectives(es, true)
    ensures WfVariables(ws) && ws == vs[..|vs| - 1] + [vs[|vs| - 1].(directives := es)]
    ensures Vars(ws) + t == Vars(vs[..|vs| - 1]) + (VariableHead(vs[|vs| - 1]) + (Dirs(es) + t))
    ensures Vars(vs) + t == Vars(vs[..|vs| - 1]) + (VariableHead(vs[|vs| - 1]) + (Dirs(vs[|vs| - 1].directives) + t))
    ensures es != vs[|vs| - 1].directives ==> PlainVariables(ws) != PlainVariables(vs)
  {
    hide Vars, Dirs, WfVariables, PlainVariables, VariableHead, WfDirectives, WfType, WfValue;
    var n := |vs| - 1;
    var v := vs[n];
    var w := v.(directives := es);
    ws := vs[..n] + [w];
    assert vs == vs[..n] + [v];
    VarsCat(vs[..n], [v]);
    VarsCat(vs[..n], [w]);
    OneVariable(v);
    OneVariable(w);
    HeadSame(v, es);
    Assoc(Vars(vs[..n]), VariableHead(v) + Dirs(es), t);
    Assoc(VariableHead(v), Dirs(es), t);
    Assoc(Vars(vs[..n]), VariableHead(v) + Dirs(v.directives), t);
    Assoc(VariableHead(v), Dirs(v.directives), t);
    var p := PlainVariables(vs[..n]);
    assert (p + [PlainVariable(v)])[|p|] == PlainVariable(v) && (p + [PlainVariable(w)])[|p|] == PlainVariable(w);
  }

  lemma HeadSame(v: VariableDefinition, es: seq<Directive>)
    ensures VariableHead(v.(directives := es)) == VariableHead(v)
  {
  }

  /** What a variable definition writes before its directives. */
  function VariableHead(v: VariableDefinition): bytes {
    [PREF_VARIABLE_DEFINITION] + v.name + [PREF_TYPE] + TypeText(v.ty) + SerDefault(Nothing, v.default)
  }

  lemma OneVariable(v: VariableDefinition)
    ensures Vars([v]) == VariableHead(v) + Dirs(v.directives)
    ensures WfVariables([v]) <==> WfVariable(v)
    ensures PlainVariables([v]) == [PlainVariable(v)]
  {
    hide WfVariable, TypeText, SerDefault, SerDirectives;
    assert [v][1..] == [];
    assert Vars([v]) == SerVariable(Nothing, v) + Vars([v][1..]) by {
      hide SerVariable;
    }
    assert Vars([]) == [];
    assert SerVariable(Nothing, v) + [] == SerVariable(Nothing, v);
  }

  // ----- Selections

  lemma {:induction false} OtherSelection(x: Selection) returns (y: Selection)
    requires !ClearSelection(x) && WfSelection(x)
    ensures y != x && WfSelection(y) && SerSelection(Nothing, y) == SerSelection(Nothing, x)
    decreases x, 0
  {
    hide SerArguments, SerDirectives, WfArguments, WfDirectives, ClearArguments, ClearDirectives;
    if !ClearDirectives(x.directives) {
      var es := OtherDirectives(x.directives, false);
      y := x.(directives := es);
    } else if x.Field? && !ClearArguments(x.arguments) {
      var ys := OtherArguments(x.arguments, false);
      y := x.(arguments := ys);
    } else {
      var zs := OtherSelections(x.selections);
      y := x.(selections := zs);
    }
  }

  lemma {:induction false} OtherSelections(xs: seq<Selection>) returns (ys: seq<Selection>)
    requires !ClearSelections(xs) && WfSelections(xs)
    ensures ys != xs && ys != [] && WfSelections(ys) && Sels(ys) == Sels(xs)
    decreases xs, 1
  {
    hide SerSelection, WfSelection, ClearSelection;
    var x, rest := xs[0], xs[1..];
    assert xs == [x] + rest;
    if !ClearSelection(x) {
      var y := OtherSelection(x);
      ys := [y] + rest;
      assert ys[0] != x && ys[1..] == rest;
    } else {
      var more := OtherSelections(rest);
      ys := [x] + more;
      assert ys[1..] == more;
    }
  }

  // ----- Definitions

  /** e has the directives of the last variable and of the operation d in the same order, but
      divided elsewhere. */
  predicate Regrouped(d: Definition, e: Definition)
    requires d.Operation? && d.variables != []
  {
    var n := |d.variables| - 1;
    && e.Operation? && |e.variables| == n + 1
    && e == d.(variables := d.variables[..n] + [d.variables[n].(directives := e.variables[n].directives)], directives := e.directives)
    && e.variables[n].directives + e.directives == d.variables[n].directives + d.directives
  }

  /** `query Q($x: Int @d) {f}` and `query Q($x: Int) @d {f}`: a constant directive may belong to
      the last variable or to the operation. */
  lemma OtherSplit(d: Definition) returns (e: Definition)
    requires d.Operation? && WfDefinition(d) && !ClearSplit(d.variables, d.directives)
    ensures Plain(e) != Plain(d) && WfDefinition(e) && SerDefinition(Nothing, e) == SerDefinition(Nothing, d)
    ensures Regrouped(d, e)
  {
    hide Vars, Dirs, SerSelectionSet, WfVariables, WfDirectives, WfSelections, PlainVariables, VariableHead, SerDefinition,
         WfDirective;
    var vs, ds := d.variables, d.directives;
    var last, body := vs[|vs| - 1].directives, SerSelectionSet(Nothing, d.selections);
    LastWf(vs);
    var es, fs;
    if last != [] {
      var n := |last| - 1;
      es, fs := last[..n], [last[n]] + ds;
      assert last == es + [last[n]];
      DirectivesCatIn(es, [last[n]], true);
      RelaxDirectives([last[n]]);
      DirectivesCat([last[n]], ds);
      DirectivesCat(es, [last[n]]);
      Assoc(Dirs(es), Dirs([last[n]]), Dirs(ds) + body);
      Assoc(Dirs([last[n]]), Dirs(ds), body);
    } else {
      es, fs := [ds[0]], ds[1..];
      assert ds == es + fs;
      OneDirective(ds[0], true);
      DirectivesCat(es, fs);
      NoArgs();
      Assoc(Dirs(es), Dirs(fs), body);
    }
    var ws := LastVariable(vs, es, Dirs(fs) + body);
    var vs' := LastVariable(vs, es, Dirs(ds) + body);
    e := d.(variables := ws, directives := fs);
    OperationSer(d);
    OperationSer(e);
  }

  lemma LastWf(vs: seq<VariableDefinition>)
    requires vs != [] && WfVariables(vs)
    ensures WfDirectives(vs[|vs| - 1].directives, true)
  {
    hide WfVariable, SerVariable, PlainVariable;
    var n := |vs| - 1;
    assert vs == vs[..n] + [vs[n]];
    VarsCat(vs[..n], [vs[n]]);
    OneVariable(vs[n]);
    VariableDirectives(vs[n]);
  }

  lemma OneDirective(d: Directive, constant: bool)
    ensures WfDirectives([d], constant) <==> WfDirective(d, constant)
  {
    assert [d][1..] == [];
  }

  lemma {:induction false} DirectivesCatIn(a: seq<Directive>, b: seq<Directive>, constant: bool)
    ensures WfDirectives(a + b, constant) <==> WfDirectives(a, constant) && WfDirectives(b, constant)
  {
    hide WfDirective;
    if a == [] {
      assert a + b == b;
    } else {
      DirectivesCatIn(a[1..], b, constant);
      assert (a + b)[1..] == a[1..] + b;
    }
  }

  lemma OperationSer(d: Definition)
    requires d.Operation?
    ensures SerDefinition(Nothing, d)
              == [KindPrefix(d.kind)] + (NameOf(d.opName) + (Vars(d.variables) + (Dirs(d.directives) + SerSelectionSet(Nothing, d.selections))))
  {
    hide SerVariables, SerDirectives, SerSelectionSet, KindPrefix;
    var n, vs, ds, ss := NameOf(d.opName), Vars(d.variables), Dirs(d.directives), SerSelectionSet(Nothing, d.selections);
    Assoc([KindPrefix(d.kind)] + n + vs, ds, ss);
    Assoc([KindPrefix(d.kind)] + n, vs, ds + ss);
    Assoc([KindPrefix(d.kind)], n, vs + (ds + ss));
  }

  lemma NothingIsClear()
    ensures ClearVariables([]) && ClearDirectives([]) && forall ds: seq<Directive> :: ClearSplit([], ds)
  {
  }

  lemma OtherDefinition(d: Definition) returns (e: Definition)
    requires WfDefinition(d) && !ClearDefinition(d)
    ensures Plain(e) != Plain(d) && WfDefinition(e) && SerDefinition(Nothing, e) == SerDefinition(Nothing, d)
  {
    hide SerVariables, SerDirectives, SerSelections, WfVariables, WfDirectives, WfSelections, ClearVariables, ClearDirectives,
         ClearSelections, ClearSplit, PlainVariables;
    NothingIsClear();
    if d.Operation? && !ClearVariables(d.variables) {
      var ws := OtherVariables(d.variables);
      e := d.(variables := ws);
    } else if !ClearDirectives(d.directives) {
      var es := OtherDirectives(d.directives, false);
      e := d.(directives := es);
    } else if !ClearSelections(d.selections) {
      var zs := OtherSelections(d.selections);
      e := d.(selections := zs);
    } else {
      e := OtherSplit(d);
    }
  }

  // ----- Documents

  lemma {:induction false} OtherDocument(ds: Document) returns (es: Document)
    requires WfDefinitions(ds) && !ClearDocument(ds)
    ensures PlainDocument(es) != PlainDocument(ds) && es != [] && WfDefinitions(es) && Doc(es) == Doc(ds)
  {
    hide SerDefinition, WfDefinition, ClearDefinition, Plain;
    var d, rest := ds[0], ds[1..];
    if !ClearDefinition(d) {
      var e := OtherDefinition(d);
      es := [e] + rest;
      assert es[1..] == rest;
      assert PlainDocument(es)[0] != PlainDocument(ds)[0];
    } else {
      var more := OtherDocument(rest);
      es := [d] + more;
      assert es[1..] == more;
      assert PlainDocument(es)[1..] == PlainDocument(more) && PlainDocument(ds)[1..] == PlainDocument(rest);
    }
  }

  /** A document's canonical form is that of no other document exactly if the document is clear. */
  lemma UniquelyDecodable(d: Document)
    requires WfDocument(d)
    ensures ClearDocument(d) <==>
              forall e | WfDocument(e) && SerDocument(Nothing, e) == SerDocument(Nothing, d) :: PlainDocument(e) == PlainDocument(d)
  {
    hide SerDocument, WfDefinitions, ClearDocument, PlainDocument;
    if ClearDocument(d) {
      forall e | WfDocument(e) && SerDocument(Nothing, e) == SerDocument(Nothing, d) ensures PlainDocument(e) == PlainDocument(d) {
        ClearDocumentCode(d, e);
      }
    } else {
      var e := OtherDocument(d);
      assert WfDocument(e) && SerDocument(Nothing, e) == SerDocument(Nothing, d);
    }
  }

  // ----- The smallest cases

  /** `[[], [x]]` and `[[[], x]]` are written alike, whatever x is. */
  lemma EmptyListWitness(x: Value)
    ensures var a, b := ListValue([ListValue([]), ListValue([x])]), ListValue([ListValue([ListValue([]), x])]);
            a != b && EncValue(a) == EncValue(b) && !Clear(a) && !Clear(b)
  {
    var e, l, m := ListValue([]), ListValue([x]), ListValue([ListValue([]), x]);
    var a, b := [e, l], [m];
    hide EncItems;
    NotClear(a);
    NestedNotClear([e, x]);
    ItemsOne(m, false);
    assert a == [e] + [l] && [e, x] == [e] + [x];
    ItemsCat([e], [l], false);
    ItemsCat([e], [x], false);
    ItemsOne(e, false);
    ItemsOne(l, false);
    ItemsOne(x, false);
    var d, f := EncValue(x), [PREF_LIST_END];
    NoItems();
    FullListEnc([x], []);
    FullListEnc([e, x], []);
    EmptyListEnc([]);
    EmptyListEnc(d);
    assert EncValue(l) + [] == EncValue(l) && EncValue(m) + [] == EncValue(m) && f + [] == f;
    Assoc([PREF_LIST], d, f);
  }

  lemma NotClear(vs: seq<Value>)
    requires |vs| == 2 && IsEmptyList(vs[0]) && IsFullList(vs[1])
    ensures !ClearItems(vs, false) && !Clear(ListValue(vs))
  {
    assert vs[1..][0] == vs[1];
    assert !NoFullList(vs[1..]);
  }

  lemma NestedNotClear(vs: seq<Value>)
    requires |vs| == 2 && IsEmptyList(vs[0])
    ensures !ClearItems([ListValue(vs)], false) && !Clear(ListValue([ListValue(vs)]))
  {
    assert !ClearItems(vs, true);
    assert !ClearIn(ListValue(vs), true, false);
    assert [ListValue(vs)][0] == ListValue(vs);
  }

  /** `{a: {}, b: {c: x}}` and `{a: {b: {}, c: x}}` are written alike. */
  lemma EmptyObjectWitness(a: bytes, b: bytes, c: bytes, x: Value)
    ensures var first := ObjectValue([ObjectField(a, ObjectValue([])), ObjectField(b, ObjectValue([ObjectField(c, x)]))]);
            var second := ObjectValue([ObjectField(a, ObjectValue([ObjectField(b, ObjectValue([])), ObjectField(c, x)]))]);
            first != second && EncValue(first) == EncValue(second)
  {
    var none := ObjectValue([]);
    var e, f, g := ObjectField(a, none), ObjectField(b, none), ObjectField(c, x);
    var full, nested := ObjectField(b, ObjectValue([g])), ObjectField(a, ObjectValue([f, g]));
    assert EncFields([e, full]) == EncFields([nested]) by {
      hide EncFields, EncField;
      assert [e, full] == [e] + [full] && [f, g] == [f] + [g];
      FieldsCat([e], [full], false);
      FieldsCat([f], [g], false);
      FieldsOne(e, false);
      FieldsOne(f, false);
      FieldsOne(g, false);
      FieldsOne(full, false);
      FieldsOne(nested, false);
      EmptyObjectEnc(a);
      EmptyObjectEnc(b);
      FullObjectEnc(b, [g], []);
      FullObjectEnc(a, [f, g], []);
      var heads, rest, end := EncField(f), EncField(g), [PREF_OBJECT_END] + [];
      Assoc(heads, rest, end);
      assert EncField(full) + [] == EncField(full) && EncField(nested) + [] == EncField(nested);
    }
    hide EncFields, EncField;
    assert |[e, full]| != |[nested]|;
  }

  /** `query Q($v: T @d) {...}` and `query Q($v: T) @d {...}` are written alike. */
  lemma DirectiveWitness(d: Definition, v: VariableDefinition, ds: seq<Directive>)
    requires d.Operation? && v.directives == [] && ds != []
    ensures var inside, outside := d.(variables := [v.(directives := ds)], directives := []),
                                   d.(variables := [v], directives := ds);
            inside != outside && SerDefinition(Nothing, inside) == SerDefinition(Nothing, outside)
  {
    hide SerDefinition, SerVariables, SerDirectives, SerSelectionSet, KindPrefix;
    var inside, outside := d.(variables := [v.(directives := ds)], directives := []), d.(variables := [v], directives := ds);
    assert inside.directives != outside.directives;
    OperationSer(inside);
    OperationSer(outside);
    HeadSame(v, ds);
    OneVariable(v);
    OneVariable(v.(directives := ds));
    NoArgs();
    var h, x, ss := VariableHead(v), Dirs(ds), SerSelectionSet(Nothing, d.selections);
    assert h + [] == h && [] + ss == ss;
    Assoc(h, x, ss);
  }
}
