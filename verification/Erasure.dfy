/**
 The Ignore levels as erasures: what Inputs and Variables leave out of the canonical form can
 be cut out of the full form afterwards, token by token, without knowing the document.
 */
module Erasure {
  import opened Bytes
  import opened Ast
  import opened Canonical
  import opened Grammar
  import opened Marks
  import V = ValueCode
  import C = DocumentCode

  /** The prefix of an input value, or of a part of one. */
  predicate IsInputMark(b: byte) { PREF_OBJECT <= b <= PREF_VARIABLE }

  /** s without the tokens that an input mark introduces; drop says whether s begins in one. */
  function EraseInputs(s: bytes, drop: bool): bytes {
    if s == [] then []
    else
      var d := if IsMark(s[0]) then IsInputMark(s[0]) else drop;
      (if d then [] else [s[0]]) + EraseInputs(s[1..], d)
  }

  /** Where the erasure of variable definitions is: anywhere, in the name of a variable, or in
      its type. */
  datatype Place = Elsewhere | InName | InType

  function PlaceAfter(b: byte, p: Place): Place {
    if !IsMark(b) then p
    else if b == PREF_VARIABLE_DEFINITION then InName
    else if b == PREF_TYPE && p.InName? then InType
    else Elsewhere
  }

  /** s without the tokens of variable definitions and the type tokens after them. */
  function EraseVariables(s: bytes, p: Place): bytes {
    if s == [] then []
    else
      var q := PlaceAfter(s[0], p);
      (if q.Elsewhere? then [s[0]] else []) + EraseVariables(s[1..], q)
  }

  // ----- Erasing inputs

  /** A token that begins anew makes no difference to what was before it. */
  lemma EraseStops(s: bytes, drop: bool)
    requires Stops(s)
    ensures EraseInputs(s, drop) == EraseInputs(s, false)
  {
  }

  lemma {:induction false} EraseText(a: bytes, t: bytes, drop: bool)
    requires IsText(a)
    ensures EraseInputs(a + t, drop) == (if drop then [] else a) + EraseInputs(t, drop)
  {
    if a == [] {
      assert a + t == t;
      NoBytes(EraseInputs(t, drop));
    } else {
      EraseText(a[1..], t, drop);
      assert (a + t)[1..] == a[1..] + t;
      assert a == [a[0]] + a[1..];
      Assoc([a[0]], a[1..], EraseInputs(t, drop));
      NoBytes(EraseInputs(t, drop));
    }
  }

  lemma EraseMark(b: byte, t: bytes, drop: bool)
    requires IsMark(b)
    ensures EraseInputs([b] + t, drop) == (if IsInputMark(b) then [] else [b]) + EraseInputs(t, IsInputMark(b))
  {
    assert ([b] + t)[1..] == t;
  }

  /** Everything in s belongs to tokens of inputs. */
  predicate IsInput(s: bytes) {
    s != [] ==> IsMark(s[0]) && forall k | 0 <= k < |s| :: IsMark(s[k]) ==> IsInputMark(s[k])
  }

  lemma {:induction false} EraseInput(s: bytes, t: bytes, drop: bool)
    requires (forall k | 0 <= k < |s| :: IsMark(s[k]) ==> IsInputMark(s[k])) && (s != [] ==> drop || IsMark(s[0])) && Stops(t)
    ensures EraseInputs(s + t, drop) == EraseInputs(t, false)
  {
    if s == [] {
      assert s + t == t;
      EraseStops(t, drop);
    } else {
      assert (s + t)[1..] == s[1..] + t;
      EraseInput(s[1..], t, true);
      NoBytes(EraseInputs(t, false));
    }
  }

  lemma InputCat(a: bytes, b: bytes)
    requires IsInput(a) && IsInput(b)
    ensures IsInput(a + b)
  {
    if a == [] {
      assert a + b == b;
    } else {
      assert (a + b)[0] == a[0];
    }
  }

  lemma InputToken(p: byte, t: bytes)
    requires IsInputMark(p) && IsMark(p) && IsText(t)
    ensures IsInput([p] + t)
  {
    assert forall k | 0 <= k < |t| :: ([p] + t)[k + 1] == t[k];
  }

  lemma InputMark(p: byte)
    requires IsInputMark(p) && IsMark(p)
    ensures IsInput([p])
  {
  }

  /** All that a value writes is an input. */
  lemma {:induction false} ValueIsInput(v: Value)
    requires WfValue(v, false)
    ensures IsInput(EncValue(v))
    decreases v, 0
  {
    hide IsInput, IsText, Escape;
    InputMark(V.ValueMark(v));
    match v {
      case ListValue(vs) =>
        V.WfParts(v);
        ItemsAreInput(vs);
        InputMark(PREF_LIST_END);
        if vs != [] {
          InputCat(EncItems(vs), [PREF_LIST_END]);
          InputCat([PREF_LIST], EncItems(vs) + [PREF_LIST_END]);
        } else {
          NoBytes([PREF_LIST]);
        }
      case ObjectValue(fs) =>
        V.WfParts(v);
        FieldsAreInput(fs);
        InputMark(PREF_OBJECT_END);
        if fs != [] {
          InputCat(EncFields(fs), [PREF_OBJECT_END]);
          InputCat([PREF_OBJECT], EncFields(fs) + [PREF_OBJECT_END]);
        } else {
          NoBytes([PREF_OBJECT]);
        }
      case _ =>
        V.ScalarBodyIsText(v);
        V.ValueIs(v);
        InputToken(V.ValueMark(v), V.ValueBody(v));
    }
  }

  lemma {:induction false} ItemsAreInput(vs: seq<Value>)
    requires WfItems(vs, false)
    ensures IsInput(EncItems(vs))
    decreases vs, 1
  {
    if vs != [] {
      ValueIsInput(vs[0]);
      ItemsAreInput(vs[1..]);
      InputCat(EncValue(vs[0]), EncItems(vs[1..]));
    }
  }

  lemma {:induction false} FieldsAreInput(fs: seq<ObjectField>)
    requires WfFields(fs, false)
    ensures IsInput(EncFields(fs))
    decreases fs, 1
  {
    if fs != [] {
      FieldIsInput(fs[0]);
      FieldsAreInput(fs[1..]);
      InputCat(EncField(fs[0]), EncFields(fs[1..]));
    }
  }

  lemma {:induction false} FieldIsInput(f: ObjectField)
    requires WfField(f, false)
    ensures IsInput(EncField(f))
    decreases f, 1
  {
    NameIsText(f.name);
    InputToken(PREF_OBJECT_FIELD, f.name);
    ValueIsInput(f.value);
    InputCat([PREF_OBJECT_FIELD] + f.name, EncValue(f.value));
  }

  // ----- What erasing inputs makes of each production

  /** Erasing inputs from full, written before anything that begins a token, leaves bare. */
  ghost predicate Erases(full: bytes, bare: bytes) {
    && Stops(full)
    && forall t: bytes | Stops(t) :: EraseInputs(full + t, false) == bare + EraseInputs(t, false)
  }

  lemma ErasesAt(full: bytes, bare: bytes, t: bytes)
    requires Erases(full, bare) && Stops(t)
    ensures EraseInputs(full + t, false) == bare + EraseInputs(t, false)
  {
  }

  lemma StopsCat(a: bytes, b: bytes)
    requires Stops(a) && Stops(b)
    ensures Stops(a + b)
  {
    if a == [] {
      assert a + b == b;
    } else {
      assert (a + b)[0] == a[0];
    }
  }

  lemma ErasesNone()
    ensures Erases([], [])
  {
    forall t: bytes | Stops(t) ensures EraseInputs([] + t, false) == [] + EraseInputs(t, false) {
      NoBytes(t);
      NoBytes(EraseInputs(t, false));
    }
  }

  lemma ErasesBoth(a: bytes, x: bytes, b: bytes, y: bytes)
    requires Erases(a, x) && Erases(b, y)
    ensures Erases(a + b, x + y)
  {
    StopsCat(a, b);
    forall t: bytes | Stops(t) ensures EraseInputs(a + b + t, false) == x + y + EraseInputs(t, false) {
      Assoc(a, b, t);
      StopsCat(b, t);
      ErasesAt(a, x, b + t);
      ErasesAt(b, y, t);
      Assoc(x, y, EraseInputs(t, false));
    }
  }

  /** A token that stays. */
  lemma ErasesToken(p: byte, a: bytes)
    requires IsMark(p) && !IsInputMark(p) && IsText(a)
    ensures Erases([p] + a, [p] + a)
  {
    forall t: bytes | Stops(t) ensures EraseInputs([p] + a + t, false) == [p] + a + EraseInputs(t, false) {
      Assoc([p], a, t);
      EraseMark(p, a + t, false);
      EraseText(a, t, false);
      Assoc([p], a, EraseInputs(t, false));
    }
  }

  lemma ErasesMark(p: byte)
    requires IsMark(p) && !IsInputMark(p)
    ensures Erases([p], [p])
  {
    ErasesToken(p, []);
    NoBytes([p]);
  }

  lemma ErasesValue(v: Value)
    requires WfValue(v, false)
    ensures Erases(EncValue(v), [])
  {
    hide EncValue;
    ValueIsInput(v);
    forall t: bytes | Stops(t) ensures EraseInputs(EncValue(v) + t, false) == [] + EraseInputs(t, false) {
      EraseInput(EncValue(v), t, false);
      NoBytes(EraseInputs(t, false));
    }
  }

  lemma {:induction false} ErasesArguments(xs: seq<Argument>)
    requires WfArguments(xs, false)
    ensures Erases(SerArguments(Nothing, xs), SerArguments(Inputs, xs))
  {
    hide EncValue, WfValue, Erases;
    ErasesNone();
    if xs != [] {
      var a := xs[0];
      NameIsText(a.name);
      ErasesToken(PREF_ARGUMENT, a.name);
      ErasesValue(a.value);
      ErasesArguments(xs[1..]);
      ErasesBoth([PREF_ARGUMENT] + a.name, [PREF_ARGUMENT] + a.name, EncValue(a.value), []);
      ErasesBoth(SerArgument(Nothing, a), SerArgument(Inputs, a), SerArguments(Nothing, xs[1..]), SerArguments(Inputs, xs[1..]));
    }
  }

  lemma {:induction false} ErasesDirectives(ds: seq<Directive>)
    requires WfDirectives(ds, false)
    ensures Erases(SerDirectives(Nothing, ds), SerDirectives(Inputs, ds))
  {
    hide SerArguments, WfArguments, Erases;
    ErasesNone();
    if ds != [] {
      var d := ds[0];
      NameIsText(d.name);
      ErasesToken(PREF_DIRECTIVE, d.name);
      ErasesArguments(d.arguments);
      ErasesDirectives(ds[1..]);
      ErasesBoth([PREF_DIRECTIVE] + d.name, [PREF_DIRECTIVE] + d.name, SerArguments(Nothing, d.arguments), SerArguments(Inputs, d.arguments));
      ErasesBoth(SerDirective(Nothing, d), SerDirective(Inputs, d), SerDirectives(Nothing, ds[1..]), SerDirectives(Inputs, ds[1..]));
    }
  }

  lemma ErasesVariable(v: VariableDefinition)
    requires WfVariable(v)
    ensures Erases(SerVariable(Nothing, v), SerVariable(Inputs, v))
  {
    hide Erases, WfValue, WfType, WfDirectives, SerDirectives, TypeText, EncValue;
    var head, ty := [PREF_VARIABLE_DEFINITION] + v.name, [PREF_TYPE] + TypeText(v.ty);
    NameIsText(v.name);
    C.TypeIsText(v.ty);
    ErasesToken(PREF_VARIABLE_DEFINITION, v.name);
    ErasesToken(PREF_TYPE, TypeText(v.ty));
    ErasesBoth(head, head, ty, ty);
    Assoc(head, [PREF_TYPE], TypeText(v.ty));
    ErasesNone();
    if v.default.Some? {
      C.RelaxValue(v.default.value);
      ErasesValue(v.default.value);
    }
    ErasesBoth(head + ty, head + ty, SerDefault(Nothing, v.default), []);
    NoBytes(head + ty);
    C.RelaxDirectives(v.directives);
    ErasesDirectives(v.directives);
    ErasesBoth(head + ty + SerDefault(Nothing, v.default), head + ty + SerDefault(Inputs, v.default),
               SerDirectives(Nothing, v.directives), SerDirectives(Inputs, v.directives));
  }

  lemma {:induction false} ErasesVariables(vs: seq<VariableDefinition>)
    requires WfVariables(vs)
    ensures Erases(SerVariables(Nothing, vs), SerVariables(Inputs, vs))
  {
    hide Erases, SerVariable, WfVariable;
    ErasesNone();
    if vs != [] {
      ErasesVariable(vs[0]);
      ErasesVariables(vs[1..]);
      ErasesBoth(SerVariable(Nothing, vs[0]), SerVariable(Inputs, vs[0]), SerVariables(Nothing, vs[1..]), SerVariables(Inputs, vs[1..]));
    }
  }

  lemma {:induction false} ErasesSet(xs: seq<Selection>)
    requires WfSelections(xs)
    ensures Erases(SerSelectionSet(Nothing, xs), SerSelectionSet(Inputs, xs))
    decreases xs, 2
  {
    hide Erases, SerSelections, WfSelections;
    ErasesMark(PREF_SELECTION_SET);
    ErasesMark(PREF_SELECTION_SET_END);
    ErasesSelections(xs);
    ErasesBoth([PREF_SELECTION_SET], [PREF_SELECTION_SET], SerSelections(Nothing, xs), SerSelections(Inputs, xs));
    ErasesBoth([PREF_SELECTION_SET] + SerSelections(Nothing, xs), [PREF_SELECTION_SET] + SerSelections(Inputs, xs),
               [PREF_SELECTION_SET_END], [PREF_SELECTION_SET_END]);
  }

  lemma {:induction false} ErasesSelections(xs: seq<Selection>)
    requires WfSelections(xs)
    ensures Erases(SerSelections(Nothing, xs), SerSelections(Inputs, xs))
    decreases xs, 1
  {
    hide Erases, SerSelection, WfSelection;
    ErasesNone();
    if xs != [] {
      ErasesSelection(xs[0]);
      ErasesSelections(xs[1..]);
      ErasesBoth(SerSelection(Nothing, xs[0]), SerSelection(Inputs, xs[0]), SerSelections(Nothing, xs[1..]), SerSelections(Inputs, xs[1..]));
    }
  }

  lemma {:induction false} ErasesSelection(x: Selection)
    requires WfSelection(x)
    ensures Erases(SerSelection(Nothing, x), SerSelection(Inputs, x))
    decreases x, 3
  {
    hide Erases, SerArguments, SerDirectives, SerSelections, WfArguments, WfDirectives, WfSelections;
    ErasesDirectives(x.directives);
    var ds, es := SerDirectives(Nothing, x.directives), SerDirectives(Inputs, x.directives);
    match x {
      case Field(alias, name, args, dirs, sels) =>
        var head := FieldHead(alias, name);
        ErasesFieldHead(alias, name);
        ErasesArguments(args);
        ErasesBoth(head, head, SerArguments(Nothing, args), SerArguments(Inputs, args));
        ErasesBoth(head + SerArguments(Nothing, args), head + SerArguments(Inputs, args), ds, es);
        ErasesNone();
        if sels != [] {
          ErasesSet(sels);
        }
        var s, r := if sels == [] then [] else SerSelectionSet(Nothing, sels), if sels == [] then [] else SerSelectionSet(Inputs, sels);
        ErasesBoth(head + SerArguments(Nothing, args) + ds, head + SerArguments(Inputs, args) + es, s, r);
      case FragmentSpread(name, dirs) =>
        NameIsText(name);
        ErasesToken(PREF_SPREAD, name);
        ErasesBoth([PREF_SPREAD] + name, [PREF_SPREAD] + name, ds, es);
      case InlineFragment(cond, dirs, sels) =>
        var head := [PREF_INLINE_FRAGMENT] + (if cond.Some? then [PREF_TYPE] + cond.value else []);
        ErasesInlineHead(cond);
        ErasesBoth(head, head, ds, es);
        ErasesSet(sels);
        ErasesBoth(head + ds, head + es, SerSelectionSet(Nothing, sels), SerSelectionSet(Inputs, sels));
    }
  }

  function FieldHead(alias: Option<bytes>, name: bytes): bytes {
    [PREF_FIELD] + (if alias.Some? then alias.value + [PREF_ALIASED_NAME] else []) + name
  }

  lemma ErasesFieldHead(alias: Option<bytes>, name: bytes)
    requires IsNameIf(alias) && Lexical.IsName(name)
    ensures Erases(FieldHead(alias, name), FieldHead(alias, name))
  {
    hide Erases;
    NameIsText(name);
    if alias.Some? {
      NameIsText(alias.value);
      ErasesToken(PREF_FIELD, alias.value);
      ErasesToken(PREF_ALIASED_NAME, name);
      ErasesBoth([PREF_FIELD] + alias.value, [PREF_FIELD] + alias.value, [PREF_ALIASED_NAME] + name, [PREF_ALIASED_NAME] + name);
      Assoc([PREF_FIELD], alias.value, [PREF_ALIASED_NAME]);
      Assoc([PREF_FIELD] + alias.value, [PREF_ALIASED_NAME], name);
    } else {
      ErasesToken(PREF_FIELD, name);
      NoBytes([PREF_FIELD]);
    }
  }

  lemma ErasesInlineHead(cond: Option<bytes>)
    requires IsNameIf(cond)
    ensures var head := [PREF_INLINE_FRAGMENT] + (if cond.Some? then [PREF_TYPE] + cond.value else []);
            Erases(head, head)
  {
    hide Erases;
    ErasesMark(PREF_INLINE_FRAGMENT);
    NoBytes([PREF_INLINE_FRAGMENT]);
    if cond.Some? {
      NameIsText(cond.value);
      ErasesToken(PREF_TYPE, cond.value);
      ErasesBoth([PREF_INLINE_FRAGMENT], [PREF_INLINE_FRAGMENT], [PREF_TYPE] + cond.value, [PREF_TYPE] + cond.value);
    }
  }

  lemma ErasesDefinition(d: Definition)
    requires WfDefinition(d)
    ensures Erases(SerDefinition(Nothing, d), SerDefinition(Inputs, d))
  {
    hide Erases, SerVariables, SerDirectives, SerSelectionSet, WfVariables, WfDirectives, WfSelections, KindPrefix;
    ErasesDirectives(d.directives);
    ErasesSet(d.selections);
    var ds, es := SerDirectives(Nothing, d.directives), SerDirectives(Inputs, d.directives);
    var s, r := SerSelectionSet(Nothing, d.selections), SerSelectionSet(Inputs, d.selections);
    if d.Operation? {
      var head := [KindPrefix(d.kind)] + C.NameOf(d.opName);
      OperationHead(d);
      ErasesToken(KindPrefix(d.kind), C.NameOf(d.opName));
      ErasesVariables(d.variables);
      ErasesBoth(head, head, SerVariables(Nothing, d.variables), SerVariables(Inputs, d.variables));
      ErasesBoth(head + SerVariables(Nothing, d.variables), head + SerVariables(Inputs, d.variables), ds, es);
      ErasesBoth(head + SerVariables(Nothing, d.variables) + ds, head + SerVariables(Inputs, d.variables) + es, s, r);
    } else {
      var head := [PREF_FRAGMENT] + d.name + [PREF_TYPE] + d.condition;
      NameIsText(d.name);
      NameIsText(d.condition);
      ErasesToken(PREF_FRAGMENT, d.name);
      ErasesToken(PREF_TYPE, d.condition);
      ErasesBoth([PREF_FRAGMENT] + d.name, [PREF_FRAGMENT] + d.name, [PREF_TYPE] + d.condition, [PREF_TYPE] + d.condition);
      Assoc([PREF_FRAGMENT] + d.name, [PREF_TYPE], d.condition);
      ErasesBoth(head, head, ds, es);
      ErasesBoth(head + ds, head + es, s, r);
    }
  }

  lemma OperationHead(d: Definition)
    requires d.Operation? && WfDefinition(d)
    ensures IsText(C.NameOf(d.opName)) && IsMark(KindPrefix(d.kind)) && !IsInputMark(KindPrefix(d.kind))
    ensures KindPrefix(d.kind) != PREF_VARIABLE_DEFINITION && KindPrefix(d.kind) != PREF_TYPE
  {
    if d.opName.Some? {
      NameIsText(d.opName.value);
    }
  }

  lemma {:induction false} ErasesDocument(ds: Document)
    requires WfDefinitions(ds)
    ensures Erases(SerDocument(Nothing, ds), SerDocument(Inputs, ds))
  {
    hide Erases, SerDefinition, WfDefinition;
    ErasesNone();
    if ds != [] {
      ErasesDefinition(ds[0]);
      ErasesDocument(ds[1..]);
      ErasesBoth(SerDefinition(Nothing, ds[0]), SerDefinition(Inputs, ds[0]), SerDocument(Nothing, ds[1..]), SerDocument(Inputs, ds[1..]));
    }
  }

  /** IgnoreInputs writes the full canonical form without the tokens of its inputs. */
  lemma InputsErased(ds: Document)
    requires WfDocument(ds)
    ensures SerDocument(Inputs, ds) == EraseInputs(SerDocument(Nothing, ds), false)
  {
    hide SerDocument, Erases, WfDefinitions;
    ErasesDocument(ds);
    ErasesAt(SerDocument(Nothing, ds), SerDocument(Inputs, ds), []);
    NoBytes(SerDocument(Nothing, ds));
    NoBytes(SerDocument(Inputs, ds));
  }

  // ----- Erasing variable definitions

  /** What was before makes no difference here. */
  predicate Begins(t: bytes) { t == [] || (IsMark(t[0]) && t[0] != PREF_TYPE) }

  lemma BeginsAnew(t: bytes, p: Place)
    requires Begins(t)
    ensures EraseVariables(t, p) == EraseVariables(t, Elsewhere)
  {
  }

  predicate NoVariable(s: bytes) { forall k | 0 <= k < |s| :: s[k] != PREF_VARIABLE_DEFINITION }

  lemma {:induction false} NoVariableStays(s: bytes, t: bytes)
    requires NoVariable(s)
    ensures EraseVariables(s + t, Elsewhere) == s + EraseVariables(t, Elsewhere)
  {
    if s == [] {
      NoBytes(t);
      NoBytes(EraseVariables(t, Elsewhere));
    } else {
      NoVariableStays(s[1..], t);
      assert (s + t)[1..] == s[1..] + t;
      assert s == [s[0]] + s[1..];
      Assoc([s[0]], s[1..], EraseVariables(t, Elsewhere));
    }
  }

  lemma {:induction false} TextGoes(a: bytes, t: bytes, p: Place)
    requires IsText(a) && !p.Elsewhere?
    ensures EraseVariables(a + t, p) == EraseVariables(t, p)
  {
    NoBytes(t);
    if a != [] {
      TextGoes(a[1..], t, p);
      assert (a + t)[1..] == a[1..] + t;
      NoBytes(EraseVariables(t, p));
    }
  }

  lemma MarkGoes(b: byte, t: bytes, p: Place)
    requires IsMark(b) && !PlaceAfter(b, p).Elsewhere?
    ensures EraseVariables([b] + t, p) == EraseVariables(t, PlaceAfter(b, p))
  {
    assert ([b] + t)[1..] == t;
    NoBytes(EraseVariables(t, PlaceAfter(b, p)));
  }

  lemma NoVariableCat(a: bytes, b: bytes)
    requires NoVariable(a) && NoVariable(b)
    ensures NoVariable(a + b)
  {
  }

  lemma NoVariableToken(p: byte, a: bytes)
    requires p != PREF_VARIABLE_DEFINITION && IsText(a)
    ensures NoVariable([p] + a)
  {
  }

  lemma {:induction false} ArgumentsNoVariable(xs: seq<Argument>)
    requires WfArguments(xs, false)
    ensures NoVariable(SerArguments(Inputs, xs))
  {
    hide NoVariable, WfValue;
    NoVariableNone();
    if xs != [] {
      NameIsText(xs[0].name);
      NoVariableToken(PREF_ARGUMENT, xs[0].name);
      NoBytes([PREF_ARGUMENT] + xs[0].name);
      ArgumentsNoVariable(xs[1..]);
      NoVariableCat(SerArgument(Inputs, xs[0]), SerArguments(Inputs, xs[1..]));
    }
  }

  lemma NoVariableNone()
    ensures NoVariable([])
  {
  }

  lemma {:induction false} DirectivesNoVariable(ds: seq<Directive>)
    requires WfDirectives(ds, false)
    ensures NoVariable(SerDirectives(Inputs, ds))
    ensures Begins(SerDirectives(Inputs, ds))
  {
    hide NoVariable, WfArguments, SerArguments;
    NoVariableNone();
    if ds != [] {
      var d := ds[0];
      NameIsText(d.name);
      NoVariableToken(PREF_DIRECTIVE, d.name);
      ArgumentsNoVariable(d.arguments);
      NoVariableCat([PREF_DIRECTIVE] + d.name, SerArguments(Inputs, d.arguments));
      DirectivesNoVariable(ds[1..]);
      NoVariableCat(SerDirective(Inputs, d), SerDirectives(Inputs, ds[1..]));
    }
  }

  lemma {:induction false} SetNoVariable(xs: seq<Selection>)
    requires WfSelections(xs)
    ensures NoVariable(SerSelectionSet(Inputs, xs))
    decreases xs, 2
  {
    hide NoVariable, WfSelections, SerSelections;
    NoVariableMark(PREF_SELECTION_SET);
    NoVariableMark(PREF_SELECTION_SET_END);
    SelectionsNoVariable(xs);
    NoVariableCat([PREF_SELECTION_SET], SerSelections(Inputs, xs));
    NoVariableCat([PREF_SELECTION_SET] + SerSelections(Inputs, xs), [PREF_SELECTION_SET_END]);
  }

  lemma NoVariableMark(p: byte)
    requires p != PREF_VARIABLE_DEFINITION
    ensures NoVariable([p])
  {
  }

  lemma {:induction false} SelectionsNoVariable(xs: seq<Selection>)
    requires WfSelections(xs)
    ensures NoVariable(SerSelections(Inputs, xs))
    decreases xs, 1
  {
    hide NoVariable, WfSelection, SerSelection;
    NoVariableNone();
    if xs != [] {
      SelectionNoVariable(xs[0]);
      SelectionsNoVariable(xs[1..]);
      NoVariableCat(SerSelection(Inputs, xs[0]), SerSelections(Inputs, xs[1..]));
    }
  }

  lemma {:induction false} SelectionNoVariable(x: Selection)
    requires WfSelection(x)
    ensures NoVariable(SerSelection(Inputs, x))
    decreases x, 3
  {
    hide NoVariable, SerArguments, SerDirectives, SerSelections, WfArguments, WfDirectives, WfSelections;
    DirectivesNoVariable(x.directives);
    var ds := SerDirectives(Inputs, x.directives);
    match x {
      case Field(alias, name, args, dirs, sels) =>
        var head := FieldHead(alias, name);
        FieldHeadNoVariable(alias, name);
        ArgumentsNoVariable(args);
        NoVariableCat(head, SerArguments(Inputs, args));
        NoVariableCat(head + SerArguments(Inputs, args), ds);
        NoVariableNone();
        if sels != [] {
          SetNoVariable(sels);
        }
        NoVariableCat(head + SerArguments(Inputs, args) + ds, if sels == [] then [] else SerSelectionSet(Inputs, sels));
      case FragmentSpread(name, dirs) =>
        NameIsText(name);
        NoVariableToken(PREF_SPREAD, name);
        NoVariableCat([PREF_SPREAD] + name, ds);
      case InlineFragment(cond, dirs, sels) =>
        var c := if cond.Some? then [PREF_TYPE] + cond.value else [];
        NoVariableMark(PREF_INLINE_FRAGMENT);
        NoVariableNone();
        if cond.Some? {
          NameIsText(cond.value);
          NoVariableToken(PREF_TYPE, cond.value);
        }
        NoVariableCat([PREF_INLINE_FRAGMENT], c);
        NoVariableCat([PREF_INLINE_FRAGMENT] + c, ds);
        SetNoVariable(sels);
        NoVariableCat([PREF_INLINE_FRAGMENT] + c + ds, SerSelectionSet(Inputs, sels));
    }
  }

  lemma FieldHeadNoVariable(alias: Option<bytes>, name: bytes)
    requires IsNameIf(alias) && Lexical.IsName(name)
    ensures NoVariable(FieldHead(alias, name))
  {
    NameIsText(name);
    if alias.Some? {
      NameIsText(alias.value);
      NoVariableToken(PREF_FIELD, alias.value);
      NoVariableToken(PREF_ALIASED_NAME, name);
      NoVariableCat([PREF_FIELD] + alias.value, [PREF_ALIASED_NAME] + name);
      Assoc([PREF_FIELD], alias.value, [PREF_ALIASED_NAME]);
      Assoc([PREF_FIELD] + alias.value, [PREF_ALIASED_NAME], name);
    } else {
      NoVariableToken(PREF_FIELD, name);
      NoBytes([PREF_FIELD]);
    }
  }

  /** The directives of the variables, which are no part of the tokens erased. */
  function VariableDirectives(vs: seq<VariableDefinition>): bytes {
    if vs == [] then [] else SerDirectives(Inputs, vs[0].directives) + VariableDirectives(vs[1..])
  }

  lemma {:induction false} VariablesGo(vs: seq<VariableDefinition>, t: bytes)
    requires WfVariables(vs) && Begins(t)
    ensures EraseVariables(SerVariables(Inputs, vs) + t, Elsewhere) == VariableDirectives(vs) + EraseVariables(t, Elsewhere)
    ensures Begins(SerVariables(Inputs, vs) + t)
  {
    hide SerDirectives, TypeText, WfType, WfDirectives, WfValue;
    if vs == [] {
      NoBytes(t);
      NoBytes(EraseVariables(t, Elsewhere));
    } else {
      var v, more := vs[0], SerVariables(Inputs, vs[1..]) + t;
      var ds := SerDirectives(Inputs, v.directives);
      VariablesGo(vs[1..], t);
      InputsVariable(v, SerVariables(Inputs, vs[1..]), t);
      C.RelaxDirectives(v.directives);
      DirectivesNoVariable(v.directives);
      NameIsText(v.name);
      C.TypeIsText(v.ty);
      hide EraseVariables;
      MarkGoes(PREF_VARIABLE_DEFINITION, v.name + ([PREF_TYPE] + (TypeText(v.ty) + (ds + more))), Elsewhere);
      TextGoes(v.name, [PREF_TYPE] + (TypeText(v.ty) + (ds + more)), InName);
      MarkGoes(PREF_TYPE, TypeText(v.ty) + (ds + more), InName);
      TextGoes(TypeText(v.ty), ds + more, InType);
      BeginsBoth(ds, more);
      BeginsAnew(ds + more, InType);
      NoVariableStays(ds, more);
      Assoc(ds, VariableDirectives(vs[1..]), EraseVariables(t, Elsewhere));
    }
  }

  lemma BeginsBoth(a: bytes, b: bytes)
    requires Begins(a) && Begins(b)
    ensures Begins(a + b)
  {
    if a == [] {
      NoBytes(b);
    }
  }

  lemma InputsVariable(v: VariableDefinition, more: bytes, t: bytes)
    ensures SerVariable(Inputs, v) + more + t == [PREF_VARIABLE_DEFINITION] + (v.name + ([PREF_TYPE] + (TypeText(v.ty)
              + (SerDirectives(Inputs, v.directives) + (more + t)))))
  {
    hide SerDirectives, TypeText;
    var ds, ty := SerDirectives(Inputs, v.directives), TypeText(v.ty);
    var head := [PREF_VARIABLE_DEFINITION] + v.name;
    NoBytes(head + [PREF_TYPE] + ty);
    Assoc(head + [PREF_TYPE] + ty + ds, more, t);
    Assoc(head + [PREF_TYPE] + ty, ds, more + t);
    Assoc(head + [PREF_TYPE], ty, ds + (more + t));
    Assoc(head, [PREF_TYPE], ty + (ds + (more + t)));
    Assoc([PREF_VARIABLE_DEFINITION], v.name, [PREF_TYPE] + (ty + (ds + (more + t))));
  }

  // ----- From Inputs to Variables nothing else changes

  lemma {:induction false} SameArguments(xs: seq<Argument>)
    ensures SerArguments(Variables, xs) == SerArguments(Inputs, xs)
  {
    if xs != [] {
      SameArguments(xs[1..]);
    }
  }

  lemma {:induction false} SameDirectives(ds: seq<Directive>)
    ensures SerDirectives(Variables, ds) == SerDirectives(Inputs, ds)
  {
    hide SerArguments;
    if ds != [] {
      SameArguments(ds[0].arguments);
      SameDirectives(ds[1..]);
    }
  }

  lemma {:induction false} SameSelection(x: Selection)
    ensures SerSelection(Variables, x) == SerSelection(Inputs, x)
    decreases x, 1
  {
    hide SerArguments, SerDirectives, SerSelections;
    SameDirectives(x.directives);
    if x.Field? {
      SameArguments(x.arguments);
    }
    if !x.FragmentSpread? {
      SameSelections(x.selections);
    }
  }

  lemma {:induction false} SameSelections(xs: seq<Selection>)
    ensures SerSelections(Variables, xs) == SerSelections(Inputs, xs)
    decreases xs, 0
  {
    hide SerSelection;
    if xs != [] {
      SameSelection(xs[0]);
      SameSelections(xs[1..]);
    }
  }

  /** What is left of a definition once its variables are erased. */
  function Left(d: Definition): bytes {
    if d.Operation? then
      [KindPrefix(d.kind)] + C.NameOf(d.opName) + VariableDirectives(d.variables) + SerDirectives(Inputs, d.directives)
      + SerSelectionSet(Inputs, d.selections)
    else SerDefinition(Inputs, d)
  }

  /** How many bytes more that is than Variables writes. */
  function Excess(d: Definition): nat {
    if d.Operation? then |VariableDirectives(d.variables)| else 0
  }

  lemma LeftIs(d: Definition)
    ensures |Left(d)| == |SerDefinition(Variables, d)| + Excess(d)
    ensures Excess(d) == 0 ==> Left(d) == SerDefinition(Variables, d)
  {
    hide SerDirectives, SerSelections, VariableDirectives, KindPrefix;
    SameDirectives(d.directives);
    SameSelections(d.selections);
    if d.Operation? {
      var head := [KindPrefix(d.kind)] + C.NameOf(d.opName);
      assert head + [] == head;
    }
  }

  lemma DefinitionErased(d: Definition, t: bytes)
    requires WfDefinition(d) && Begins(t)
    ensures EraseVariables(SerDefinition(Inputs, d) + t, Elsewhere) == Left(d) + EraseVariables(t, Elsewhere)
    ensures Begins(SerDefinition(Inputs, d) + t)
  {
    hide SerVariables, SerDirectives, SerSelectionSet, WfVariables, WfDirectives, WfSelections, KindPrefix, VariableDirectives,
         EraseVariables;
    DirectivesNoVariable(d.directives);
    SetNoVariable(d.selections);
    var ds, s := SerDirectives(Inputs, d.directives), SerSelectionSet(Inputs, d.selections);
    NoVariableCat(ds, s);
    if d.Operation? {
      var head, vs := [KindPrefix(d.kind)] + C.NameOf(d.opName), SerVariables(Inputs, d.variables);
      OperationHead(d);
      NoVariableToken(KindPrefix(d.kind), C.NameOf(d.opName));
      Assoc(head + vs, ds, s);
      Assoc(head + vs, ds + s, t);
      Assoc(head, vs, ds + s + t);
      SetBegins(ds, d.selections, t);
      VariablesGo(d.variables, ds + s + t);
      NoVariableStays(head, vs + (ds + s + t));
      NoVariableStays(ds + s, t);
      Assoc(VariableDirectives(d.variables), ds + s, EraseVariables(t, Elsewhere));
      Assoc(head, VariableDirectives(d.variables) + (ds + s), EraseVariables(t, Elsewhere));
      Assoc(head, VariableDirectives(d.variables), ds + s);
      Assoc(head + VariableDirectives(d.variables), ds, s);
    } else {
      FragmentNoVariable(d);
      NoVariableStays(SerDefinition(Inputs, d), t);
    }
  }

  lemma SetBegins(ds: bytes, sels: seq<Selection>, t: bytes)
    requires Begins(ds)
    ensures Begins(ds + SerSelectionSet(Inputs, sels) + t)
  {
    hide SerSelections;
    var s := SerSelectionSet(Inputs, sels);
    assert s != [] && s[0] == PREF_SELECTION_SET;
    assert ds == [] ==> (ds + s + t)[0] == s[0];
  }

  lemma FragmentNoVariable(d: Definition)
    requires d.Fragment? && WfDefinition(d)
    ensures NoVariable(SerDefinition(Inputs, d))
  {
    hide NoVariable, SerDirectives, SerSelectionSet, WfDirectives, WfSelections;
    NameIsText(d.name);
    NameIsText(d.condition);
    DirectivesNoVariable(d.directives);
    SetNoVariable(d.selections);
    NoVariableToken(PREF_FRAGMENT, d.name);
    NoVariableToken(PREF_TYPE, d.condition);
    var head := [PREF_FRAGMENT] + d.name;
    NoVariableCat(head, [PREF_TYPE] + d.condition);
    Assoc(head, [PREF_TYPE], d.condition);
    NoVariableCat(head + [PREF_TYPE] + d.condition, SerDirectives(Inputs, d.directives));
    NoVariableCat(head + [PREF_TYPE] + d.condition + SerDirectives(Inputs, d.directives), SerSelectionSet(Inputs, d.selections));
  }

  function LeftAll(ds: Document): bytes {
    if ds == [] then [] else Left(ds[0]) + LeftAll(ds[1..])
  }

  function ExcessAll(ds: Document): nat {
    if ds == [] then 0 else Excess(ds[0]) + ExcessAll(ds[1..])
  }

  lemma {:induction false} LeftAllIs(ds: Document)
    ensures |LeftAll(ds)| == |SerDocument(Variables, ds)| + ExcessAll(ds)
    ensures ExcessAll(ds) == 0 ==> LeftAll(ds) == SerDocument(Variables, ds)
  {
    hide Left, Excess, SerDefinition;
    if ds != [] {
      LeftIs(ds[0]);
      LeftAllIs(ds[1..]);
    }
  }

  lemma {:induction false} DocumentErased(ds: Document)
    requires WfDefinitions(ds)
    ensures EraseVariables(SerDocument(Inputs, ds), Elsewhere) == LeftAll(ds) && Begins(SerDocument(Inputs, ds))
  {
    hide Left, SerDefinition, WfDefinition;
    if ds != [] {
      DocumentErased(ds[1..]);
      DefinitionErased(ds[0], SerDocument(Inputs, ds[1..]));
    }
  }

  predicate NoVariableDirectives(vs: seq<VariableDefinition>) {
    forall k | 0 <= k < |vs| :: vs[k].directives == []
  }

  /** No variable definition of the document has directives. */
  predicate Undirected(ds: Document) {
    forall k | 0 <= k < |ds| :: ds[k].Operation? ==> NoVariableDirectives(ds[k].variables)
  }

  lemma {:induction false} VariableDirectivesEmpty(vs: seq<VariableDefinition>)
    ensures VariableDirectives(vs) == [] <==> NoVariableDirectives(vs)
  {
    if vs != [] {
      VariableDirectivesEmpty(vs[1..]);
      assert forall k | 0 < k < |vs| :: vs[k] == vs[1..][k - 1];
      assert SerDirectives(Inputs, vs[0].directives) == [] <==> vs[0].directives == [];
    }
  }

  lemma {:induction false} ExcessAllIs(ds: Document)
    ensures ExcessAll(ds) == 0 <==> Undirected(ds)
  {
    if ds != [] {
      ExcessAllIs(ds[1..]);
      assert forall k | 0 < k < |ds| :: ds[k] == ds[1..][k - 1];
      if ds[0].Operation? {
        VariableDirectivesEmpty(ds[0].variables);
      }
    }
  }

  /** IgnoreVariables writes what IgnoreInputs does without the variable definitions and their
      types, exactly if no variable definition has directives: those it leaves out as well. */
  lemma VariablesErased(ds: Document)
    requires WfDocument(ds)
    ensures SerDocument(Variables, ds) == EraseVariables(SerDocument(Inputs, ds), Elsewhere) <==> Undirected(ds)
  {
    hide SerDocument, EraseVariables, Undirected, WfDefinitions, LeftAll;
    DocumentErased(ds);
    LeftAllIs(ds);
    ExcessAllIs(ds);
  }
}
