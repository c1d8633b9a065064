/**
 What equal bytes mean where inputs or variables are left out: the documents are the same but
 for what is left out. A bare document stands for all that agree with it in the rest.
 */
module Levels {
  import opened Bytes
  import opened Ast
  import opened Canonical
  import opened Grammar
  import opened Marks
  import opened Documents
  import opened DocumentCode
  import V = ValueCode
  import E = Erasure
  import A = Ambiguity

  // ----- Documents without inputs

  /** Every argument value is null. */
  function BareArguments(xs: seq<Argument>): (r: seq<Argument>)
    ensures |r| == |xs|
  {
    if xs == [] then [] else [Argument(xs[0].name, NullValue)] + BareArguments(xs[1..])
  }

  function BareDirective(d: Directive): Directive { Directive(d.name, BareArguments(d.arguments)) }

  function BareDirectives(ds: seq<Directive>): (r: seq<Directive>)
    ensures |r| == |ds|
  {
    if ds == [] then [] else [BareDirective(ds[0])] + BareDirectives(ds[1..])
  }

  /** There is no default value. */
  function BareVariable(v: VariableDefinition): VariableDefinition {
    v.(default := None, directives := BareDirectives(v.directives))
  }

  function BareVariables(vs: seq<VariableDefinition>): (r: seq<VariableDefinition>)
    ensures |r| == |vs|
  {
    if vs == [] then [] else [BareVariable(vs[0])] + BareVariables(vs[1..])
  }

  function BareSelection(x: Selection): Selection
    decreases x, 0
  {
    match x
    case Field(alias, name, args, dirs, sels) =>
      Field(alias, name, BareArguments(args), BareDirectives(dirs), BareSelections(sels))
    case FragmentSpread(name, dirs) => FragmentSpread(name, BareDirectives(dirs))
    case InlineFragment(cond, dirs, sels) => InlineFragment(cond, BareDirectives(dirs), BareSelections(sels))
  }

  function BareSelections(xs: seq<Selection>): (r: seq<Selection>)
    ensures |r| == |xs|
    decreases xs, 1
  {
    if xs == [] then [] else [BareSelection(xs[0])] + BareSelections(xs[1..])
  }

  function Bare(d: Definition): Definition {
    match d
    case Operation(_, _, _, _, vars, dirs, sels) =>
      d.(variables := BareVariables(vars), directives := BareDirectives(dirs), selections := BareSelections(sels))
    case Fragment(_, _, _, dirs, sels) => d.(directives := BareDirectives(dirs), selections := BareSelections(sels))
  }

  function BareDocument(ds: Document): (r: Document)
    ensures |r| == |ds|
  {
    if ds == [] then [] else [Bare(ds[0])] + BareDocument(ds[1..])
  }

  /** An operation without its variable definitions. */
  function Unsigned(d: Definition): Definition {
    if d.Operation? then d.(variables := []) else d
  }

  function UnsignedDocument(ds: Document): (r: Document)
    ensures |r| == |ds|
  {
    if ds == [] then [] else [Unsigned(ds[0])] + UnsignedDocument(ds[1..])
  }

  // ----- The nulls, put back

  /** s with a null after every argument; open says whether s begins in one. */
  function Restore(s: bytes, open: bool): bytes {
    if s == [] then (if open then [PREF_NULL] else [])
    else if IsMark(s[0]) then (if open then [PREF_NULL] else []) + ([s[0]] + Restore(s[1..], s[0] == PREF_ARGUMENT))
    else [s[0]] + Restore(s[1..], open)
  }

  lemma {:induction false} RestoreText(a: bytes, t: bytes, open: bool)
    requires IsText(a)
    ensures Restore(a + t, open) == a + Restore(t, open)
  {
    if a == [] {
      assert a + t == t;
      NoBytes(Restore(t, open));
    } else {
      assert (a + t)[0] == a[0] && (a + t)[1..] == a[1..] + t;
      RestoreText(a[1..], t, open);
      Assoc([a[0]], a[1..], Restore(t, open));
    }
  }

  lemma RestoreMark(p: byte, t: bytes)
    requires IsMark(p)
    ensures Restore([p] + t, false) == [p] + Restore(t, p == PREF_ARGUMENT)
  {
    assert ([p] + t)[1..] == t;
    NoBytes([p] + Restore(t, p == PREF_ARGUMENT));
  }

  lemma RestoreStops(t: bytes)
    requires Stops(t)
    ensures Restore(t, true) == [PREF_NULL] + Restore(t, false)
  {
    NoBytes(Restore(t, false));
  }

  /** Putting the nulls back into bare, written before anything that begins a token, makes full. */
  ghost predicate Restores(bare: bytes, full: bytes) {
    && Stops(bare)
    && forall t: bytes | Stops(t) :: Restore(bare + t, false) == full + Restore(t, false)
  }

  lemma RestoresAt(bare: bytes, full: bytes, t: bytes)
    requires Restores(bare, full) && Stops(t)
    ensures Restore(bare + t, false) == full + Restore(t, false)
  {
  }

  lemma RestoresNone()
    ensures Restores([], [])
  {
    forall t: bytes | Stops(t) ensures Restore([] + t, false) == [] + Restore(t, false) {
      NoBytes(t);
      NoBytes(Restore(t, false));
    }
  }

  lemma RestoresBoth(a: bytes, x: bytes, b: bytes, y: bytes)
    requires Restores(a, x) && Restores(b, y)
    ensures Restores(a + b, x + y)
  {
    hide Restore;
    E.StopsCat(a, b);
    forall t: bytes | Stops(t) ensures Restore(a + b + t, false) == x + y + Restore(t, false) {
      Assoc(a, b, t);
      E.StopsCat(b, t);
      RestoresAt(a, x, b + t);
      RestoresAt(b, y, t);
      Assoc(x, y, Restore(t, false));
    }
  }

  lemma RestoresToken(p: byte, a: bytes)
    requires IsMark(p) && p != PREF_ARGUMENT && IsText(a)
    ensures Restores([p] + a, [p] + a)
  {
    hide Restore;
    forall t: bytes | Stops(t) ensures Restore([p] + a + t, false) == [p] + a + Restore(t, false) {
      Assoc([p], a, t);
      RestoreMark(p, a + t);
      RestoreText(a, t, false);
      Assoc([p], a, Restore(t, false));
    }
  }

  lemma RestoresMark(p: byte)
    requires IsMark(p) && p != PREF_ARGUMENT
    ensures Restores([p], [p])
  {
    RestoresToken(p, []);
    NoBytes([p]);
  }

  lemma RestoresArgument(n: bytes)
    requires IsText(n)
    ensures Restores([PREF_ARGUMENT] + n, [PREF_ARGUMENT] + n + [PREF_NULL])
  {
    hide Restore;
    forall t: bytes | Stops(t)
      ensures Restore([PREF_ARGUMENT] + n + t, false) == [PREF_ARGUMENT] + n + [PREF_NULL] + Restore(t, false)
    {
      Assoc([PREF_ARGUMENT], n, t);
      RestoreMark(PREF_ARGUMENT, n + t);
      RestoreText(n, t, true);
      RestoreStops(t);
      Assoc([PREF_ARGUMENT], n, [PREF_NULL] + Restore(t, false));
      Assoc([PREF_ARGUMENT] + n, [PREF_NULL], Restore(t, false));
    }
  }

  // ----- Production by production: the bare one is well-formed and clear, and writes the same

  lemma NullIs()
    ensures EncValue(NullValue) == [PREF_NULL] && V.Clear(NullValue) && WfValue(NullValue, true) && WfValue(NullValue, false)
  {
  }

  lemma {:induction false} BareArgumentsAre(xs: seq<Argument>, constant: bool)
    requires WfArguments(xs, constant)
    ensures forall k: bool :: WfArguments(BareArguments(xs), k)
    ensures ClearArguments(BareArguments(xs))
    ensures SerArguments(Inputs, BareArguments(xs)) == SerArguments(Inputs, xs)
    ensures Restores(SerArguments(Inputs, xs), SerArguments(Nothing, BareArguments(xs)))
  {
    hide EncValue, WfValue, V.Clear, Restores;
    RestoresNone();
    NullIs();
    if xs != [] {
      var a, bare := xs[0], BareArguments(xs);
      BareArgumentsAre(xs[1..], constant);
      assert bare[1..] == BareArguments(xs[1..]) && bare[0] == Argument(a.name, NullValue);
      NameIsText(a.name);
      RestoresArgument(a.name);
      NoBytes([PREF_ARGUMENT] + a.name);
      RestoresBoth(SerArgument(Inputs, a), SerArgument(Nothing, bare[0]), SerArguments(Inputs, xs[1..]), SerArguments(Nothing, bare[1..]));
    }
  }

  lemma {:induction false} BareDirectivesAre(ds: seq<Directive>, constant: bool)
    requires WfDirectives(ds, constant)
    ensures forall k: bool :: WfDirectives(BareDirectives(ds), k)
    ensures ClearDirectives(BareDirectives(ds))
    ensures SerDirectives(Inputs, BareDirectives(ds)) == SerDirectives(Inputs, ds)
    ensures Restores(SerDirectives(Inputs, ds), SerDirectives(Nothing, BareDirectives(ds)))
  {
    hide SerArguments, WfArguments, ClearArguments, BareArguments, Restores;
    RestoresNone();
    if ds != [] {
      var d, bare := ds[0], BareDirectives(ds);
      BareArgumentsAre(d.arguments, constant);
      BareDirectivesAre(ds[1..], constant);
      assert bare[1..] == BareDirectives(ds[1..]) && bare[0] == BareDirective(d);
      NameIsText(d.name);
      RestoresToken(PREF_DIRECTIVE, d.name);
      RestoresBoth([PREF_DIRECTIVE] + d.name, [PREF_DIRECTIVE] + d.name,
                   SerArguments(Inputs, d.arguments), SerArguments(Nothing, BareArguments(d.arguments)));
      RestoresBoth(SerDirective(Inputs, d), SerDirective(Nothing, bare[0]), SerDirectives(Inputs, ds[1..]), SerDirectives(Nothing, bare[1..]));
    }
  }

  lemma BareVariableIs(v: VariableDefinition)
    requires WfVariable(v)
    ensures WfVariable(BareVariable(v)) && ClearVariable(BareVariable(v))
    ensures SerVariable(Inputs, BareVariable(v)) == SerVariable(Inputs, v)
    ensures Restores(SerVariable(Inputs, v), SerVariable(Nothing, BareVariable(v)))
  {
    hide WfValue, WfType, WfDirectives, ClearDirectives, SerDirectives, TypeText, EncValue, Restores, BareDirectives;
    var head, ty := [PREF_VARIABLE_DEFINITION] + v.name, [PREF_TYPE] + TypeText(v.ty);
    BareDirectivesAre(v.directives, true);
    NameIsText(v.name);
    TypeIsText(v.ty);
    RestoresToken(PREF_VARIABLE_DEFINITION, v.name);
    RestoresToken(PREF_TYPE, TypeText(v.ty));
    RestoresBoth(head, head, ty, ty);
    Assoc(head, [PREF_TYPE], TypeText(v.ty));
    NoBytes(head + ty);
    RestoresBoth(head + ty, head + ty, SerDirectives(Inputs, v.directives), SerDirectives(Nothing, BareDirectives(v.directives)));
  }

  lemma {:induction false} BareVariablesAre(vs: seq<VariableDefinition>)
    requires WfVariables(vs)
    ensures WfVariables(BareVariables(vs)) && ClearVariables(BareVariables(vs))
    ensures SerVariables(Inputs, BareVariables(vs)) == SerVariables(Inputs, vs)
    ensures Restores(SerVariables(Inputs, vs), SerVariables(Nothing, BareVariables(vs)))
  {
    hide Restores, SerVariable, WfVariable, ClearVariable, BareVariable;
    RestoresNone();
    if vs != [] {
      var bare := BareVariables(vs);
      BareVariableIs(vs[0]);
      BareVariablesAre(vs[1..]);
      assert bare[1..] == BareVariables(vs[1..]) && bare[0] == BareVariable(vs[0]);
      RestoresBoth(SerVariable(Inputs, vs[0]), SerVariable(Nothing, bare[0]), SerVariables(Inputs, vs[1..]), SerVariables(Nothing, bare[1..]));
    }
  }

  lemma {:induction false} BareSetIs(xs: seq<Selection>)
    requires WfSelections(xs)
    ensures WfSelections(BareSelections(xs)) && ClearSelections(BareSelections(xs))
    ensures SerSelectionSet(Inputs, BareSelections(xs)) == SerSelectionSet(Inputs, xs)
    ensures Restores(SerSelectionSet(Inputs, xs), SerSelectionSet(Nothing, BareSelections(xs)))
    decreases xs, 2
  {
    hide Restores, SerSelections, WfSelections, ClearSelections, BareSelections;
    var bare := BareSelections(xs);
    RestoresMark(PREF_SELECTION_SET);
    RestoresMark(PREF_SELECTION_SET_END);
    BareSelectionsAre(xs);
    RestoresBoth([PREF_SELECTION_SET], [PREF_SELECTION_SET], SerSelections(Inputs, xs), SerSelections(Nothing, bare));
    RestoresBoth([PREF_SELECTION_SET] + SerSelections(Inputs, xs), [PREF_SELECTION_SET] + SerSelections(Nothing, bare),
                 [PREF_SELECTION_SET_END], [PREF_SELECTION_SET_END]);
  }

  lemma {:induction false} BareSelectionsAre(xs: seq<Selection>)
    requires WfSelections(xs)
    ensures WfSelections(BareSelections(xs)) && ClearSelections(BareSelections(xs))
    ensures SerSelections(Inputs, BareSelections(xs)) == SerSelections(Inputs, xs)
    ensures Restores(SerSelections(Inputs, xs), SerSelections(Nothing, BareSelections(xs)))
    decreases xs, 1
  {
    hide Restores, SerSelection, WfSelection, ClearSelection, BareSelection;
    RestoresNone();
    if xs != [] {
      var bare := BareSelections(xs);
      BareSelectionIs(xs[0]);
      BareSelectionsAre(xs[1..]);
      assert bare[1..] == BareSelections(xs[1..]) && bare[0] == BareSelection(xs[0]);
      RestoresBoth(SerSelection(Inputs, xs[0]), SerSelection(Nothing, bare[0]), SerSelections(Inputs, xs[1..]), SerSelections(Nothing, bare[1..]));
    }
  }

  /** The selection set of a field, which may have none. */
  lemma {:induction false} BareOptionalSet(xs: seq<Selection>)
    requires WfSelections(xs)
    ensures WfSelections(BareSelections(xs)) && ClearSelections(BareSelections(xs))
    ensures var bare := BareSelections(xs);
            var s, r := if xs == [] then [] else SerSelectionSet(Inputs, xs), if bare == [] then [] else SerSelectionSet(Nothing, bare);
            Restores(s, r) && (xs != [] ==> SerSelectionSet(Inputs, bare) == SerSelectionSet(Inputs, xs))
    decreases xs, 3
  {
    hide Restores, SerSelectionSet, WfSelections, ClearSelections;
    RestoresNone();
    BareSetIs(xs);
  }

  lemma {:induction false} BareSelectionIs(x: Selection)
    requires WfSelection(x)
    ensures WfSelection(BareSelection(x)) && ClearSelection(BareSelection(x))
    ensures SerSelection(Inputs, BareSelection(x)) == SerSelection(Inputs, x)
    ensures Restores(SerSelection(Inputs, x), SerSelection(Nothing, BareSelection(x)))
    decreases x, 4
  {
    hide Restores, SerArguments, SerDirectives, SerSelections, WfArguments, WfDirectives, WfSelections, ClearArguments,
         ClearDirectives, ClearSelections, BareArguments, BareDirectives, BareSelections;
    BareDirectivesAre(x.directives, false);
    var ds, es := SerDirectives(Inputs, x.directives), SerDirectives(Nothing, BareDirectives(x.directives));
    match x {
      case Field(alias, name, args, dirs, sels) =>
        var head, bare := E.FieldHead(alias, name), BareArguments(args);
        RestoresFieldHead(alias, name);
        BareArgumentsAre(args, false);
        BareOptionalSet(sels);
        RestoresBoth(head, head, SerArguments(Inputs, args), SerArguments(Nothing, bare));
        RestoresBoth(head + SerArguments(Inputs, args), head + SerArguments(Nothing, bare), ds, es);
        var s := if sels == [] then [] else SerSelectionSet(Inputs, sels);
        var r := if sels == [] then [] else SerSelectionSet(Nothing, BareSelections(sels));
        RestoresBoth(head + SerArguments(Inputs, args) + ds, head + SerArguments(Nothing, bare) + es, s, r);
      case FragmentSpread(name, dirs) =>
        NameIsText(name);
        RestoresToken(PREF_SPREAD, name);
        RestoresBoth([PREF_SPREAD] + name, [PREF_SPREAD] + name, ds, es);
      case InlineFragment(cond, dirs, sels) =>
        var head := [PREF_INLINE_FRAGMENT] + (if cond.Some? then [PREF_TYPE] + cond.value else []);
        RestoresInlineHead(cond);
        RestoresBoth(head, head, ds, es);
        BareSetIs(sels);
        RestoresBoth(head + ds, head + es, SerSelectionSet(Inputs, sels), SerSelectionSet(Nothing, BareSelections(sels)));
    }
  }

  lemma RestoresFieldHead(alias: Option<bytes>, name: bytes)
    requires IsNameIf(alias) && Lexical.IsName(name)
    ensures Restores(E.FieldHead(alias, name), E.FieldHead(alias, name))
  {
    hide Restores;
    NameIsText(name);
    if alias.Some? {
      NameIsText(alias.value);
      RestoresToken(PREF_FIELD, alias.value);
      RestoresToken(PREF_ALIASED_NAME, name);
      RestoresBoth([PREF_FIELD] + alias.value, [PREF_FIELD] + alias.value, [PREF_ALIASED_NAME] + name, [PREF_ALIASED_NAME] + name);
      Assoc([PREF_FIELD], alias.value, [PREF_ALIASED_NAME]);
      Assoc([PREF_FIELD] + alias.value, [PREF_ALIASED_NAME], name);
    } else {
      RestoresToken(PREF_FIELD, name);
      NoBytes([PREF_FIELD]);
    }
  }

  lemma RestoresInlineHead(cond: Option<bytes>)
    requires IsNameIf(cond)
    ensures var head := [PREF_INLINE_FRAGMENT] + (if cond.Some? then [PREF_TYPE] + cond.value else []);
            Restores(head, head)
  {
    hide Restores;
    RestoresMark(PREF_INLINE_FRAGMENT);
    NoBytes([PREF_INLINE_FRAGMENT]);
    if cond.Some? {
      NameIsText(cond.value);
      RestoresToken(PREF_TYPE, cond.value);
      RestoresBoth([PREF_INLINE_FRAGMENT], [PREF_INLINE_FRAGMENT], [PREF_TYPE] + cond.value, [PREF_TYPE] + cond.value);
    }
  }

  lemma BareIs(d: Definition)
    requires WfDefinition(d)
    ensures WfDefinition(Bare(d)) && ClearBody(Bare(d))
    ensures SerDefinition(Inputs, Bare(d)) == SerDefinition(Inputs, d)
    ensures Restores(SerDefinition(Inputs, d), SerDefinition(Nothing, Bare(d)))
  {
    hide Restores, SerVariables, SerDirectives, SerSelectionSet, WfVariables, WfDirectives, WfSelections, KindPrefix,
         ClearVariables, ClearDirectives, ClearSelections, BareVariables, BareDirectives, BareSelections;
    BareDirectivesAre(d.directives, false);
    BareSetIs(d.selections);
    var bare := Bare(d);
    var ds, es := SerDirectives(Inputs, d.directives), SerDirectives(Nothing, bare.directives);
    var s, r := SerSelectionSet(Inputs, d.selections), SerSelectionSet(Nothing, bare.selections);
    if d.Operation? {
      var head := [KindPrefix(d.kind)] + NameOf(d.opName);
      var vs, ws := SerVariables(Inputs, d.variables), SerVariables(Nothing, bare.variables);
      E.OperationHead(d);
      KindIsNoArgument(d.kind);
      RestoresToken(KindPrefix(d.kind), NameOf(d.opName));
      BareVariablesAre(d.variables);
      RestoresBoth(head, head, vs, ws);
      RestoresBoth(head + vs, head + ws, ds, es);
      RestoresBoth(head + vs + ds, head + ws + es, s, r);
    } else {
      var head := [PREF_FRAGMENT] + d.name + [PREF_TYPE] + d.condition;
      NameIsText(d.name);
      NameIsText(d.condition);
      RestoresToken(PREF_FRAGMENT, d.name);
      RestoresToken(PREF_TYPE, d.condition);
      RestoresBoth([PREF_FRAGMENT] + d.name, [PREF_FRAGMENT] + d.name, [PREF_TYPE] + d.condition, [PREF_TYPE] + d.condition);
      Assoc([PREF_FRAGMENT] + d.name, [PREF_TYPE], d.condition);
      RestoresBoth(head, head, ds, es);
      RestoresBoth(head + ds, head + es, s, r);
    }
  }

  lemma KindIsNoArgument(k: Kind)
    ensures KindPrefix(k) != PREF_ARGUMENT
  {
  }

  lemma {:induction false} BareDocumentIs(ds: Document)
    requires WfDefinitions(ds)
    ensures WfDefinitions(BareDocument(ds)) && ClearBodies(BareDocument(ds))
    ensures SerDocument(Inputs, BareDocument(ds)) == SerDocument(Inputs, ds)
    ensures Restores(SerDocument(Inputs, ds), SerDocument(Nothing, BareDocument(ds)))
  {
    hide Restores, SerDefinition, WfDefinition, ClearBody, Bare;
    RestoresNone();
    if ds != [] {
      var bare := BareDocument(ds);
      BareIs(ds[0]);
      BareDocumentIs(ds[1..]);
      assert bare[1..] == BareDocument(ds[1..]) && bare[0] == Bare(ds[0]);
      RestoresBoth(SerDefinition(Inputs, ds[0]), SerDefinition(Nothing, bare[0]), SerDocument(Inputs, ds[1..]), SerDocument(Nothing, bare[1..]));
    }
  }

  // ----- Inputs

  /** With inputs left out, the same bytes are the same bytes of the bare documents. */
  lemma SameBare(ds: Document, es: Document)
    requires WfDefinitions(ds) && WfDefinitions(es)
    ensures SerDocument(Inputs, ds) == SerDocument(Inputs, es) <==> Doc(BareDocument(ds)) == Doc(BareDocument(es))
  {
    hide SerDocument, Restore, WfDefinitions, BareDocument;
    BareDocumentIs(ds);
    BareDocumentIs(es);
    RestoredIs(ds);
    RestoredIs(es);
    if Doc(BareDocument(ds)) == Doc(BareDocument(es)) {
      InputsOf(BareDocument(ds));
      InputsOf(BareDocument(es));
    }
  }

  lemma RestoredIs(ds: Document)
    requires WfDefinitions(ds)
    ensures Doc(BareDocument(ds)) == Restore(SerDocument(Inputs, ds), false)
  {
    hide SerDocument, WfDefinitions, BareDocument;
    BareDocumentIs(ds);
    RestoresAt(SerDocument(Inputs, ds), Doc(BareDocument(ds)), []);
    NoBytes(SerDocument(Inputs, ds));
    NoBytes(Doc(BareDocument(ds)));
  }

  /** The bytes with inputs left out are a function of the full bytes. */
  lemma InputsOf(ds: Document)
    requires WfDefinitions(ds)
    ensures SerDocument(Inputs, ds) == E.EraseInputs(Doc(ds), false)
  {
    if ds != [] {
      E.InputsErased(ds);
    }
  }

  /** Where the variable definitions end is plain without the inputs: the last has no directives
      and the operation has none either. */
  predicate SplitKnown(d: Definition) {
    d.Operation? && d.variables != [] ==> LastPlain(d.variables) && d.directives == []
  }

  predicate SplitsKnown(ds: Document) {
    ds == [] || (SplitKnown(ds[0]) && SplitsKnown(ds[1..]))
  }

  lemma {:induction false} BareVariableAt(vs: seq<VariableDefinition>, k: nat)
    requires k < |vs|
    ensures BareVariables(vs)[k] == BareVariable(vs[k])
  {
    if k > 0 {
      BareVariableAt(vs[1..], k - 1);
    }
  }

  lemma LastBare(vs: seq<VariableDefinition>)
    ensures LastPlain(BareVariables(vs)) <==> LastPlain(vs)
  {
    hide BareVariables, BareDirectives;
    if vs != [] {
      BareVariableAt(vs, |vs| - 1);
    }
  }

  lemma ClearBare(d: Definition)
    requires WfDefinition(d)
    ensures ClearDefinition(Bare(d)) <==> SplitKnown(d)
    ensures EndsPlain(Bare(d)) <==> EndsPlain(d)
  {
    hide ClearBody, BareVariables, BareDirectives, BareSelections, WfVariables, WfDirectives, WfSelections, LastPlain;
    BareIs(d);
    if d.Operation? {
      LastBare(d.variables);
      BareDirectivesAre(d.directives, false);
      SplitIs(BareVariables(d.variables), BareDirectives(d.directives));
    }
  }

  /** A directive without variables may always be one of the last variable definition. */
  lemma SplitIs(vs: seq<VariableDefinition>, ds: seq<Directive>)
    requires WfDirectives(ds, true)
    ensures ClearSplit(vs, ds) <==> (vs != [] ==> LastPlain(vs) && ds == [])
  {
    hide WfDirective;
  }

  lemma {:induction false} ClearBareDocument(ds: Document)
    requires WfDefinitions(ds)
    ensures ClearDocument(BareDocument(ds)) <==> SplitsKnown(ds)
    ensures AllEndPlain(BareDocument(ds)) <==> AllEndPlain(ds)
  {
    hide Bare, ClearDefinition, EndsPlain, SplitKnown, WfDefinition;
    if ds != [] {
      ClearBare(ds[0]);
      ClearBareDocument(ds[1..]);
      assert BareDocument(ds)[1..] == BareDocument(ds[1..]);
    }
  }

  /** Among documents without directives on a last variable definition, what IgnoreInputs
      writes tells everything but the inputs. */
  lemma InputsTell(ds: Document, es: Document)
    requires WfDefinitions(ds) && WfDefinitions(es) && AllEndPlain(ds) && AllEndPlain(es)
    ensures SerDocument(Inputs, ds) == SerDocument(Inputs, es) <==>
              PlainDocument(BareDocument(ds)) == PlainDocument(BareDocument(es))
  {
    hide SerDocument, WfDefinitions, AllEndPlain, ClearBodies, BareDocument, PlainDocument, Restores;
    BareDocumentIs(ds);
    BareDocumentIs(es);
    ClearBareDocument(ds);
    ClearBareDocument(es);
    SameBare(ds, es);
    if Doc(BareDocument(ds)) == Doc(BareDocument(es)) {
      PlainEndsCode(BareDocument(ds), BareDocument(es));
    }
    PlainDocumentSame(BareDocument(ds), Nothing, 0);
    PlainDocumentSame(BareDocument(es), Nothing, 0);
  }

  // ----- Which documents IgnoreInputs tells from all others

  lemma {:induction false} BareDirectivesCat(a: seq<Directive>, b: seq<Directive>)
    ensures BareDirectives(a + b) == BareDirectives(a) + BareDirectives(b)
  {
    hide BareDirective;
    if a == [] {
      assert a + b == b;
    } else {
      BareDirectivesCat(a[1..], b);
      assert (a + b)[1..] == a[1..] + b;
    }
  }

  lemma {:induction false} BareVariablesCat(a: seq<VariableDefinition>, b: seq<VariableDefinition>)
    ensures BareVariables(a + b) == BareVariables(a) + BareVariables(b)
  {
    hide BareVariable;
    if a == [] {
      assert a + b == b;
    } else {
      BareVariablesCat(a[1..], b);
      assert (a + b)[1..] == a[1..] + b;
    }
  }

  /** Directives regrouped stay bare. */
  lemma RegroupedIsBare(d: Definition, e: Definition)
    requires d.Operation? && d.variables != [] && A.Regrouped(d, e) && Bare(d) == d
    ensures Bare(e) == e
  {
    hide BareDirectives, BareVariables, BareSelections;
    var n := |d.variables| - 1;
    var v, w := d.variables[n], e.variables[n];
    BareDirectivesCat(w.directives, e.directives);
    BareDirectivesCat(v.directives, d.directives);
    BareVariableAt(d.variables, n);
    assert BareDirectives(w.directives) + BareDirectives(e.directives) == w.directives + e.directives;
    assert BareDirectives(w.directives) == (w.directives + e.directives)[..|w.directives|] == w.directives;
    assert BareDirectives(e.directives) == (w.directives + e.directives)[|w.directives|..] == e.directives;
    assert d.variables == d.variables[..n] + [v] && e.variables == d.variables[..n] + [w];
    BareVariablesCat(d.variables[..n], [v]);
    BareVariablesCat(d.variables[..n], [w]);
    OneBare(v);
    OneBare(w);
    assert BareVariables(d.variables)[..n] == BareVariables(d.variables[..n]);
  }

  lemma OneBare(v: VariableDefinition)
    ensures BareVariables([v]) == [BareVariable(v)]
  {
    assert [v][1..] == [];
  }

  /** Another bare document of the same bytes. */
  lemma {:induction false} OtherBare(ds: Document) returns (es: Document)
    requires WfDefinitions(ds) && BareDocument(ds) == ds && ClearBodies(ds) && !ClearDocument(ds)
    ensures es != [] && WfDefinitions(es) && BareDocument(es) == es
    ensures PlainDocument(es) != PlainDocument(ds) && Doc(es) == Doc(ds)
  {
    hide SerDefinition, WfDefinition, ClearBody, Plain, Bare;
    var d, rest := ds[0], ds[1..];
    assert Bare(d) == BareDocument(ds)[0] == d;
    assert BareDocument(rest) == BareDocument(ds)[1..] == rest;
    if !ClearDefinition(d) {
      var e := A.OtherSplit(d);
      RegroupedIsBare(d, e);
      es := [e] + rest;
      assert es[1..] == rest;
      assert PlainDocument(es)[0] != PlainDocument(ds)[0];
    } else {
      var more := OtherBare(rest);
      es := [d] + more;
      assert es[1..] == more;
      assert PlainDocument(es)[1..] == PlainDocument(more) && PlainDocument(ds)[1..] == PlainDocument(rest);
    }
  }

  lemma {:induction false} BareTwice(ds: Document)
    ensures BareDocument(BareDocument(ds)) == BareDocument(ds)
  {
    hide Bare;
    if ds != [] {
      BareDefinitionTwice(ds[0]);
      BareTwice(ds[1..]);
      assert BareDocument(ds)[1..] == BareDocument(ds[1..]);
    }
  }

  lemma BareDefinitionTwice(d: Definition)
    ensures Bare(Bare(d)) == Bare(d)
  {
    hide BareVariables, BareDirectives, BareSelections;
    BareDirectivesTwice(d.directives);
    BareSelectionsTwice(d.selections);
    if d.Operation? {
      BareVariablesTwice(d.variables);
    }
  }

  lemma {:induction false} BareArgumentsTwice(xs: seq<Argument>)
    ensures BareArguments(BareArguments(xs)) == BareArguments(xs)
  {
    if xs != [] {
      BareArgumentsTwice(xs[1..]);
      assert BareArguments(xs)[1..] == BareArguments(xs[1..]);
    }
  }

  lemma {:induction false} BareDirectivesTwice(ds: seq<Directive>)
    ensures BareDirectives(BareDirectives(ds)) == BareDirectives(ds)
  {
    hide BareArguments;
    if ds != [] {
      BareArgumentsTwice(ds[0].arguments);
      BareDirectivesTwice(ds[1..]);
      assert BareDirectives(ds)[1..] == BareDirectives(ds[1..]);
    }
  }

  lemma {:induction false} BareVariablesTwice(vs: seq<VariableDefinition>)
    ensures BareVariables(BareVariables(vs)) == BareVariables(vs)
  {
    hide BareDirectives;
    if vs != [] {
      BareDirectivesTwice(vs[0].directives);
      BareVariablesTwice(vs[1..]);
      assert BareVariables(vs)[1..] == BareVariables(vs[1..]);
    }
  }

  lemma {:induction false} BareSelectionTwice(x: Selection)
    ensures BareSelection(BareSelection(x)) == BareSelection(x)
    decreases x, 0
  {
    hide BareArguments, BareDirectives, BareSelections;
    BareDirectivesTwice(x.directives);
    if x.Field? {
      BareArgumentsTwice(x.arguments);
    }
    if !x.FragmentSpread? {
      BareSelectionsTwice(x.selections);
    }
  }

  lemma {:induction false} BareSelectionsTwice(xs: seq<Selection>)
    ensures BareSelections(BareSelections(xs)) == BareSelections(xs)
    decreases xs, 1
  {
    hide BareSelection;
    if xs != [] {
      BareSelectionTwice(xs[0]);
      BareSelectionsTwice(xs[1..]);
      assert BareSelections(xs)[1..] == BareSelections(xs[1..]);
    }
  }

  /** A document is told by what IgnoreInputs writes from all that differ in more than inputs,
      exactly if it is known where its variable definitions end. */
  lemma InputsUniquelyDecodable(d: Document)
    requires WfDocument(d)
    ensures SplitsKnown(d) <==>
              forall e | WfDocument(e) && SerDocument(Inputs, e) == SerDocument(Inputs, d) ::
                PlainDocument(BareDocument(e)) == PlainDocument(BareDocument(d))
  {
    hide SerDocument, WfDefinitions, ClearDocument, ClearBodies, BareDocument, PlainDocument, Restores, SplitsKnown;
    var bare := BareDocument(d);
    BareDocumentIs(d);
    ClearBareDocument(d);
    if SplitsKnown(d) {
      forall e | WfDocument(e) && SerDocument(Inputs, e) == SerDocument(Inputs, d)
        ensures PlainDocument(BareDocument(e)) == PlainDocument(bare)
      {
        BareDocumentIs(e);
        SameBare(e, d);
        ClearDocumentCode(bare, BareDocument(e));
      }
    } else {
      BareTwice(d);
      var e := OtherBare(bare);
      SameBare(e, bare);
      assert WfDocument(e) && SerDocument(Inputs, e) == SerDocument(Inputs, d);
    }
  }

  // ----- Variables

  lemma {:induction false} UnsignedWrites(ds: Document)
    ensures SerDocument(Variables, ds) == SerDocument(Inputs, UnsignedDocument(ds))
    ensures WfDefinitions(ds) ==> WfDefinitions(UnsignedDocument(ds))
    ensures AllEndPlain(UnsignedDocument(ds))
  {
    hide SerDefinition, WfDefinition, Unsigned, EndsPlain;
    if ds != [] {
      var u := UnsignedDocument(ds);
      UnsignedIs(ds[0]);
      UnsignedWrites(ds[1..]);
      assert u[1..] == UnsignedDocument(ds[1..]) && u[0] == Unsigned(ds[0]);
    }
  }

  lemma UnsignedIs(d: Definition)
    ensures SerDefinition(Variables, d) == SerDefinition(Inputs, Unsigned(d))
    ensures WfDefinition(d) ==> WfDefinition(Unsigned(d))
    ensures EndsPlain(Unsigned(d))
  {
    hide SerDirectives, SerSelections, KindPrefix, WfDirectives, WfSelections;
    E.SameDirectives(d.directives);
    E.SameSelections(d.selections);
    assert SerVariables(Inputs, []) == [] && WfVariables([]) && LastPlain([]);
  }

  /** What IgnoreVariables writes tells everything but inputs and variable definitions, of
      every two documents. */
  lemma VariablesTell(ds: Document, es: Document)
    requires WfDocument(ds) && WfDocument(es)
    ensures SerDocument(Variables, ds) == SerDocument(Variables, es) <==>
              PlainDocument(BareDocument(UnsignedDocument(ds))) == PlainDocument(BareDocument(UnsignedDocument(es)))
  {
    hide SerDocument, WfDefinitions, AllEndPlain, BareDocument, PlainDocument, UnsignedDocument;
    UnsignedWrites(ds);
    UnsignedWrites(es);
    InputsTell(UnsignedDocument(ds), UnsignedDocument(es));
  }
}
