/**
 When the canonical form of a whole document can be read back, with nothing left out. Two
 more ambiguities come from how values are written, see ValueCode, and one from the
 directives after variable definitions, whose end nothing marks.
 */
module DocumentCode {
  import opened Bytes
  import opened Ast
  import opened Canonical
  import opened Grammar
  import opened Marks
  import opened ValueCode
  import opened Documents

  // ----- Which documents can be read back

  predicate ClearArguments(xs: seq<Argument>) {
    xs == [] || (Clear(xs[0].value) && ClearArguments(xs[1..]))
  }

  predicate ClearDirectives(ds: seq<Directive>) {
    ds == [] || (ClearArguments(ds[0].arguments) && ClearDirectives(ds[1..]))
  }

  predicate ClearVariable(v: VariableDefinition) {
    (v.default.Some? ==> Clear(v.default.value)) && ClearDirectives(v.directives)
  }

  predicate ClearVariables(vs: seq<VariableDefinition>) {
    vs == [] || (ClearVariable(vs[0]) && ClearVariables(vs[1..]))
  }

  /** Where the directives of the last variable end must be plain: it has none, and the first
      directive of the operation, if it has any, uses a variable and so cannot be one of them. */
  predicate ClearSplit(vs: seq<VariableDefinition>, ds: seq<Directive>) {
    vs == [] || (vs[|vs| - 1].directives == [] && (ds == [] || !WfDirective(ds[0], true)))
  }

  predicate ClearSelection(x: Selection)
    decreases x, 0
  {
    match x
    case Field(_, _, args, dirs, sels) => ClearArguments(args) && ClearDirectives(dirs) && ClearSelections(sels)
    case FragmentSpread(_, dirs) => ClearDirectives(dirs)
    case InlineFragment(_, dirs, sels) => ClearDirectives(dirs) && ClearSelections(sels)
  }

  predicate ClearSelections(xs: seq<Selection>)
    decreases xs, 1
  {
    xs == [] || (ClearSelection(xs[0]) && ClearSelections(xs[1..]))
  }

  /** Every value of the definition can be read back. */
  predicate ClearBody(d: Definition) {
    match d
    case Operation(_, _, _, _, vars, dirs, sels) => ClearVariables(vars) && ClearDirectives(dirs) && ClearSelections(sels)
    case Fragment(_, _, _, dirs, sels) => ClearDirectives(dirs) && ClearSelections(sels)
  }

  predicate ClearDefinition(d: Definition) {
    ClearBody(d) && (d.Operation? ==> ClearSplit(d.variables, d.directives))
  }

  /** No directives on the last variable definition. */
  predicate LastPlain(vs: seq<VariableDefinition>) {
    vs == [] || vs[|vs| - 1].directives == []
  }

  predicate EndsPlain(d: Definition) { d.Operation? ==> LastPlain(d.variables) }

  predicate ClearDocument(ds: Document) {
    ds == [] || (ClearDefinition(ds[0]) && ClearDocument(ds[1..]))
  }

  // ----- A constant value is a value

  lemma {:induction false} RelaxValue(v: Value)
    requires WfValue(v, true)
    ensures WfValue(v, false)
    decreases v, 0
  {
    if v.ListValue? {
      RelaxItems(v.items);
    } else if v.ObjectValue? {
      RelaxFields(v.fields);
    }
  }

  lemma {:induction false} RelaxItems(vs: seq<Value>)
    requires WfItems(vs, true)
    ensures WfItems(vs, false)
    decreases vs, 1
  {
    if vs != [] {
      RelaxValue(vs[0]);
      RelaxItems(vs[1..]);
    }
  }

  lemma {:induction false} RelaxFields(fs: seq<ObjectField>)
    requires WfFields(fs, true)
    ensures WfFields(fs, false)
    decreases fs, 1
  {
    if fs != [] {
      RelaxField(fs[0]);
      RelaxFields(fs[1..]);
    }
  }

  lemma {:induction false} RelaxField(f: ObjectField)
    requires WfField(f, true)
    ensures WfField(f, false)
    decreases f, 1
  {
    RelaxValue(f.value);
  }

  lemma {:induction false} RelaxArguments(xs: seq<Argument>)
    requires WfArguments(xs, true)
    ensures WfArguments(xs, false)
  {
    if xs != [] {
      RelaxValue(xs[0].value);
      RelaxArguments(xs[1..]);
    }
  }

  lemma {:induction false} RelaxDirectives(ds: seq<Directive>)
    requires WfDirectives(ds, true)
    ensures WfDirectives(ds, false)
  {
    if ds != [] {
      RelaxArguments(ds[0].arguments);
      RelaxDirectives(ds[1..]);
    }
  }

  // ----- Arguments and directives

  predicate EndsArguments(t: bytes) { EndsValue(t) && (t != [] ==> t[0] != PREF_ARGUMENT) }

  predicate EndsDirectives(t: bytes) { EndsArguments(t) && (t != [] ==> t[0] != PREF_DIRECTIVE) }

  function Args(xs: seq<Argument>): bytes { SerArguments(Nothing, xs) }

  function Dirs(ds: seq<Directive>): bytes { SerDirectives(Nothing, ds) }

  function Sels(xs: seq<Selection>): bytes { SerSelections(Nothing, xs) }

  lemma ArgumentFirst(xs: seq<Argument>, t: bytes)
    requires xs != []
    ensures Args(xs) + t == [PREF_ARGUMENT] + (xs[0].name + (EncValue(xs[0].value) + (Args(xs[1..]) + t)))
  {
    hide EncValue;
    var e, more := EncValue(xs[0].value), Args(xs[1..]);
    Assoc([PREF_ARGUMENT] + xs[0].name + e, more, t);
    Assoc([PREF_ARGUMENT] + xs[0].name, e, more + t);
    Assoc([PREF_ARGUMENT], xs[0].name, e + (more + t));
  }

  /** A text, a byte that introduces the next token, and what follows. */
  lemma TextCut(a: bytes, p: byte, x: bytes, b: bytes, q: byte, y: bytes)
    requires IsText(a) && IsText(b) && IsMark(p) && IsMark(q)
    requires a + ([p] + x) == b + ([q] + y)
    ensures a == b && p == q && x == y
  {
    Cut(a, [p] + x, b, [q] + y);
    Tail(p, x, q, y);
  }

  lemma NameAndValue(n: bytes, v: Value, x: bytes, m: bytes, w: Value, y: bytes)
    requires Lexical.IsName(n) && Lexical.IsName(m) && n + (EncValue(v) + x) == m + (EncValue(w) + y)
    ensures n == m && EncValue(v) + x == EncValue(w) + y
  {
    hide EncValue;
    ValueIs(v);
    ValueIs(w);
    NameIsText(n);
    NameIsText(m);
    Cut(n, EncValue(v) + x, m, EncValue(w) + y);
  }

  lemma {:induction false} ArgumentsCode(xs: seq<Argument>, t: bytes, ys: seq<Argument>, u: bytes)
    requires ClearArguments(xs) && WfArguments(xs, false) && WfArguments(ys, false)
    requires EndsArguments(t) && EndsArguments(u) && Args(xs) + t == Args(ys) + u
    ensures xs == ys && t == u
    decreases |xs|
  {
    hide EncValue, Args, Clear, WfValue;
    NoArgs();
    if xs != [] {
      ArgumentFirst(xs, t);
    }
    if ys != [] {
      ArgumentFirst(ys, u);
    }
    if xs != [] && ys != [] {
      var a, b := xs[0], ys[0];
      var x, y := Args(xs[1..]) + t, Args(ys[1..]) + u;
      Tail(PREF_ARGUMENT, a.name + (EncValue(a.value) + x), PREF_ARGUMENT, b.name + (EncValue(b.value) + y));
      NameAndValue(a.name, a.value, x, b.name, b.value, y);
      ArgumentsEndValue(xs[1..], t);
      ArgumentsEndValue(ys[1..], u);
      ClearCode(a.value, x, b.value, y);
      ArgumentsCode(xs[1..], t, ys[1..], u);
      assert xs == [a] + xs[1..] && ys == [b] + ys[1..];
    }
  }

  lemma NoArgs()
    ensures Args([]) == [] && Dirs([]) == [] && Sels([]) == []
    ensures forall s: bytes :: [] + s == s
  {
  }

  lemma ArgumentsEndValue(xs: seq<Argument>, t: bytes)
    requires EndsArguments(t)
    ensures EndsValue(Args(xs) + t)
    ensures var s := Args(xs) + t;
            (t != [] ==> s != []) && (s != [] ==> s[0] == PREF_ARGUMENT || (t != [] && s[0] == t[0]))
  {
    hide Args, EncValue;
    NoArgs();
    if xs != [] {
      ArgumentFirst(xs, t);
    }
  }

  lemma DirectiveFirst(ds: seq<Directive>, t: bytes)
    requires ds != []
    ensures Dirs(ds) + t == [PREF_DIRECTIVE] + (ds[0].name + (Args(ds[0].arguments) + (Dirs(ds[1..]) + t)))
  {
    hide SerArguments;
    var e, more := Args(ds[0].arguments), Dirs(ds[1..]);
    Assoc([PREF_DIRECTIVE] + ds[0].name + e, more, t);
    Assoc([PREF_DIRECTIVE] + ds[0].name, e, more + t);
    Assoc([PREF_DIRECTIVE], ds[0].name, e + (more + t));
  }

  lemma DirectivesEndArguments(ds: seq<Directive>, t: bytes)
    requires EndsDirectives(t)
    ensures EndsArguments(Dirs(ds) + t)
    ensures var s := Dirs(ds) + t;
            (t != [] ==> s != []) && (s != [] ==> s[0] == PREF_DIRECTIVE || (t != [] && s[0] == t[0]))
  {
    hide Dirs, Args;
    NoArgs();
    if ds != [] {
      DirectiveFirst(ds, t);
    }
  }

  lemma {:induction false} DirectivesCode(ds: seq<Directive>, t: bytes, es: seq<Directive>, u: bytes)
    requires ClearDirectives(ds) && WfDirectives(ds, false) && WfDirectives(es, false)
    requires EndsDirectives(t) && EndsDirectives(u) && Dirs(ds) + t == Dirs(es) + u
    ensures ds == es && t == u
    decreases |ds|
  {
    hide Dirs, Args, ClearArguments, WfArguments;
    NoArgs();
    if ds != [] {
      DirectiveFirst(ds, t);
    }
    if es != [] {
      DirectiveFirst(es, u);
    }
    if ds != [] && es != [] {
      var d, e := ds[0], es[0];
      var x, y := Dirs(ds[1..]) + t, Dirs(es[1..]) + u;
      Tail(PREF_DIRECTIVE, d.name + (Args(d.arguments) + x), PREF_DIRECTIVE, e.name + (Args(e.arguments) + y));
      DirectivesEndArguments(ds[1..], t);
      DirectivesEndArguments(es[1..], u);
      ArgumentsEndValue(d.arguments, x);
      ArgumentsEndValue(e.arguments, y);
      NameIsText(d.name);
      NameIsText(e.name);
      Cut(d.name, Args(d.arguments) + x, e.name, Args(e.arguments) + y);
      ArgumentsCode(d.arguments, x, e.arguments, y);
      DirectivesCode(ds[1..], t, es[1..], u);
      assert ds == [d] + ds[1..] && es == [e] + es[1..];
    }
  }

  // ----- Selections

  /** What comes after a selection. */
  predicate EndsSelection(t: bytes) {
    t != [] && (t[0] == PREF_FIELD || t[0] == PREF_SPREAD || t[0] == PREF_INLINE_FRAGMENT || t[0] == PREF_SELECTION_SET_END)
  }

  function SelectionMark(x: Selection): byte {
    match x
    case Field(_, _, _, _, _) => PREF_FIELD
    case FragmentSpread(_, _) => PREF_SPREAD
    case InlineFragment(_, _, _) => PREF_INLINE_FRAGMENT
  }

  /** The optional selection set of a field. */
  function OptionalSet(xs: seq<Selection>): bytes {
    if xs == [] then [] else SerSelectionSet(Nothing, xs)
  }

  /** A selection, its parts one after another. */
  function SelectionThen(x: Selection, t: bytes): bytes {
    match x
    case Field(alias, name, args, dirs, sels) =>
      [PREF_FIELD] + (if alias.Some? then alias.value + ([PREF_ALIASED_NAME] + (name + (Args(args) + (Dirs(dirs) + (OptionalSet(sels) + t)))))
                      else name + (Args(args) + (Dirs(dirs) + (OptionalSet(sels) + t))))
    case FragmentSpread(name, dirs) => [PREF_SPREAD] + (name + (Dirs(dirs) + t))
    case InlineFragment(cond, dirs, sels) =>
      [PREF_INLINE_FRAGMENT] + (if cond.Some? then [PREF_TYPE] + (cond.value + (Dirs(dirs) + (SerSelectionSet(Nothing, sels) + t)))
                                else Dirs(dirs) + (SerSelectionSet(Nothing, sels) + t))
  }

  lemma SelectionIs(x: Selection, t: bytes)
    ensures SerSelection(Nothing, x) + t == SelectionThen(x, t)
  {
    hide SerArguments, SerDirectives, SerSelections;
    match x {
      case Field(alias, name, args, dirs, sels) =>
        var after := OptionalSet(sels);
        var head := [PREF_FIELD] + (if alias.Some? then alias.value + [PREF_ALIASED_NAME] else []);
        Assoc(head + name + Args(args) + Dirs(dirs), after, t);
        Assoc(head + name + Args(args), Dirs(dirs), after + t);
        Assoc(head + name, Args(args), Dirs(dirs) + (after + t));
        var more := Args(args) + (Dirs(dirs) + (after + t));
        Assoc(head, name, more);
        HeadIs(alias, name + more);
      case FragmentSpread(name, dirs) =>
        Assoc([PREF_SPREAD] + name, Dirs(dirs), t);
        Assoc([PREF_SPREAD], name, Dirs(dirs) + t);
      case InlineFragment(cond, dirs, sels) =>
        var after := SerSelectionSet(Nothing, sels);
        var c := if cond.Some? then [PREF_TYPE] + cond.value else [];
        Assoc([PREF_INLINE_FRAGMENT] + c + Dirs(dirs), after, t);
        Assoc([PREF_INLINE_FRAGMENT] + c, Dirs(dirs), after + t);
        Assoc([PREF_INLINE_FRAGMENT], c, Dirs(dirs) + (after + t));
        if cond.Some? {
          Assoc([PREF_TYPE], cond.value, Dirs(dirs) + (after + t));
        } else {
          NoArgs();
        }
    }
  }

  lemma HeadIs(alias: Option<bytes>, more: bytes)
    ensures [PREF_FIELD] + (if alias.Some? then alias.value + [PREF_ALIASED_NAME] else []) + more
              == [PREF_FIELD] + (if alias.Some? then alias.value + ([PREF_ALIASED_NAME] + more) else more)
  {
    if alias.Some? {
      Assoc([PREF_FIELD], alias.value + [PREF_ALIASED_NAME], more);
      Assoc(alias.value, [PREF_ALIASED_NAME], more);
    } else {
      Assoc([PREF_FIELD], [], more);
      NoArgs();
    }
  }

  /** What a selection set writes, and what follows it. */
  lemma SetIs(xs: seq<Selection>, t: bytes)
    ensures SerSelectionSet(Nothing, xs) + t == [PREF_SELECTION_SET] + (Sels(xs) + ([PREF_SELECTION_SET_END] + t))
  {
    hide SerSelections;
    Assoc([PREF_SELECTION_SET] + Sels(xs), [PREF_SELECTION_SET_END], t);
    Assoc([PREF_SELECTION_SET], Sels(xs), [PREF_SELECTION_SET_END] + t);
  }

  predicate EndsSet(t: bytes) { t != [] && t[0] == PREF_SELECTION_SET_END }

  lemma SelectionFirst(x: Selection, t: bytes)
    ensures var s := SerSelection(Nothing, x) + t;
            s != [] && s[0] == SelectionMark(x)
  {
    hide SerSelection, SerArguments, SerDirectives, SerSelections;
    SelectionIs(x, t);
  }

  lemma SelectionsFirst(xs: seq<Selection>, t: bytes)
    requires xs != []
    ensures Sels(xs) + t == SerSelection(Nothing, xs[0]) + (Sels(xs[1..]) + t)
  {
    hide SerSelection;
    Assoc(SerSelection(Nothing, xs[0]), Sels(xs[1..]), t);
  }

  lemma SelectionsEnd(xs: seq<Selection>, t: bytes)
    requires EndsSet(t)
    ensures EndsSelection(Sels(xs) + t)
  {
    hide Sels, SerSelection;
    NoArgs();
    if xs != [] {
      SelectionsFirst(xs, t);
      SelectionFirst(xs[0], Sels(xs[1..]) + t);
    }
  }

  lemma {:induction false} SelectionsCode(xs: seq<Selection>, t: bytes, ys: seq<Selection>, u: bytes)
    requires ClearSelections(xs) && WfSelections(xs) && WfSelections(ys) && EndsSet(t) && EndsSet(u)
    requires Sels(xs) + t == Sels(ys) + u
    ensures xs == ys && t == u
    decreases xs, 3
  {
    hide Sels, SerSelection, ClearSelection, WfSelection;
    NoArgs();
    if xs != [] {
      SelectionsFirst(xs, t);
      SelectionFirst(xs[0], Sels(xs[1..]) + t);
    }
    if ys != [] {
      SelectionsFirst(ys, u);
      SelectionFirst(ys[0], Sels(ys[1..]) + u);
    }
    if xs != [] && ys != [] {
      SelectionsEnd(xs[1..], t);
      SelectionsEnd(ys[1..], u);
      SelectionCode(xs[0], Sels(xs[1..]) + t, ys[0], Sels(ys[1..]) + u);
      SelectionsCode(xs[1..], t, ys[1..], u);
      assert xs == [xs[0]] + xs[1..] && ys == [ys[0]] + ys[1..];
    }
  }

  lemma {:induction false} SetCode(xs: seq<Selection>, t: bytes, ys: seq<Selection>, u: bytes)
    requires ClearSelections(xs) && WfSelections(xs) && WfSelections(ys)
    requires SerSelectionSet(Nothing, xs) + t == SerSelectionSet(Nothing, ys) + u
    ensures xs == ys && t == u
    decreases xs, 4
  {
    hide Sels, SerSelectionSet, ClearSelections, WfSelections;
    SetIs(xs, t);
    SetIs(ys, u);
    var x, y := [PREF_SELECTION_SET_END] + t, [PREF_SELECTION_SET_END] + u;
    Tail(PREF_SELECTION_SET, Sels(xs) + x, PREF_SELECTION_SET, Sels(ys) + y);
    SelectionsCode(xs, x, ys, y);
    Tail(PREF_SELECTION_SET_END, t, PREF_SELECTION_SET_END, u);
  }

  /** What comes before an optional selection set, and after it, is not taken for directives. */
  lemma OptionalSetEnds(xs: seq<Selection>, t: bytes)
    requires EndsSelection(t)
    ensures EndsDirectives(OptionalSet(xs) + t) && OptionalSet(xs) + t != []
    ensures (OptionalSet(xs) + t)[0] == PREF_SELECTION_SET <==> xs != []
    ensures (OptionalSet(xs) + t)[0] != PREF_ALIASED_NAME
  {
    hide SerSelectionSet;
    NoArgs();
    if xs != [] {
      SetIs(xs, t);
    }
  }

  /** The arguments, directives and selection set of a field. */
  lemma {:induction false} FieldRestCode(x: Selection, t: bytes, y: Selection, u: bytes)
    requires x.Field? && y.Field? && ClearSelection(x) && WfSelection(x) && WfSelection(y) && EndsSelection(t) && EndsSelection(u)
    requires Args(x.arguments) + (Dirs(x.directives) + (OptionalSet(x.selections) + t))
          == Args(y.arguments) + (Dirs(y.directives) + (OptionalSet(y.selections) + u))
    ensures x.arguments == y.arguments && x.directives == y.directives && x.selections == y.selections && t == u
    decreases x, 5
  {
    hide Args, Dirs, SerSelectionSet, ClearArguments, ClearDirectives, ClearSelections, WfArguments, WfDirectives, WfSelections;
    var x2, y2 := OptionalSet(x.selections) + t, OptionalSet(y.selections) + u;
    OptionalSetEnds(x.selections, t);
    OptionalSetEnds(y.selections, u);
    DirectivesEndArguments(x.directives, x2);
    DirectivesEndArguments(y.directives, y2);
    ArgumentsCode(x.arguments, Dirs(x.directives) + x2, y.arguments, Dirs(y.directives) + y2);
    DirectivesCode(x.directives, x2, y.directives, y2);
    if x.selections == [] {
      NoArgs();
    } else {
      SetCode(x.selections, t, y.selections, u);
    }
  }

  lemma FieldRestFirst(x: Selection, t: bytes)
    requires x.Field? && EndsSelection(t)
    ensures var s := Args(x.arguments) + (Dirs(x.directives) + (OptionalSet(x.selections) + t));
            s != [] && IsMark(s[0]) && s[0] != PREF_ALIASED_NAME
  {
    hide Args, Dirs, OptionalSet;
    var x2 := OptionalSet(x.selections) + t;
    OptionalSetEnds(x.selections, t);
    DirectivesEndArguments(x.directives, x2);
    ArgumentsEndValue(x.arguments, Dirs(x.directives) + x2);
  }

  lemma {:induction false} FieldCode(x: Selection, t: bytes, y: Selection, u: bytes)
    requires x.Field? && y.Field? && ClearSelection(x) && WfSelection(x) && WfSelection(y) && EndsSelection(t) && EndsSelection(u)
    requires SelectionThen(x, t) == SelectionThen(y, u)
    ensures x == y && t == u
    decreases x, 6
  {
    hide Args, Dirs, OptionalSet, ClearArguments, ClearDirectives, ClearSelections, WfArguments, WfDirectives, WfSelections;
    var rx := Args(x.arguments) + (Dirs(x.directives) + (OptionalSet(x.selections) + t));
    var ry := Args(y.arguments) + (Dirs(y.directives) + (OptionalSet(y.selections) + u));
    FieldRestFirst(x, t);
    FieldRestFirst(y, u);
    NameIsText(x.name);
    NameIsText(y.name);
    FieldNamesCode(x.alias, x.name, rx, y.alias, y.name, ry);
    FieldRestCode(x, t, y, u);
  }

  function NamesThen(alias: Option<bytes>, name: bytes, rest: bytes): bytes {
    if alias.Some? then alias.value + ([PREF_ALIASED_NAME] + (name + rest)) else name + rest
  }

  lemma FieldNamesCode(a: Option<bytes>, n: bytes, x: bytes, b: Option<bytes>, m: bytes, y: bytes)
    requires IsNameIf(a) && IsNameIf(b) && IsText(n) && IsText(m)
    requires x != [] && IsMark(x[0]) && x[0] != PREF_ALIASED_NAME && y != [] && IsMark(y[0]) && y[0] != PREF_ALIASED_NAME
    requires [PREF_FIELD] + NamesThen(a, n, x) == [PREF_FIELD] + NamesThen(b, m, y)
    ensures a == b && n == m && x == y
  {
    Tail(PREF_FIELD, NamesThen(a, n, x), PREF_FIELD, NamesThen(b, m, y));
    if a.Some? {
      NameIsText(a.value);
    }
    if b.Some? {
      NameIsText(b.value);
    }
    if a.Some? && b.Some? {
      TextCut(a.value, PREF_ALIASED_NAME, n + x, b.value, PREF_ALIASED_NAME, m + y);
      Cut(n, x, m, y);
    } else if a.Some? {
      Cut(a.value, [PREF_ALIASED_NAME] + (n + x), m, y);
    } else if b.Some? {
      Cut(n, x, b.value, [PREF_ALIASED_NAME] + (m + y));
    } else {
      Cut(n, x, m, y);
    }
  }

  lemma {:induction false} SelectionCode(x: Selection, t: bytes, y: Selection, u: bytes)
    requires ClearSelection(x) && WfSelection(x) && WfSelection(y) && EndsSelection(t) && EndsSelection(u)
    requires SerSelection(Nothing, x) + t == SerSelection(Nothing, y) + u
    ensures x == y && t == u
    decreases x, 7
  {
    hide SerSelection, Args, Dirs, OptionalSet, SerSelectionSet, ClearArguments, ClearDirectives, ClearSelections,
         WfArguments, WfDirectives, WfSelections;
    SelectionFirst(x, t);
    SelectionFirst(y, u);
    SelectionIs(x, t);
    SelectionIs(y, u);
    match x {
      case Field(_, _, _, _, _) => FieldCode(x, t, y, u);
      case FragmentSpread(name, dirs) =>
        Tail(PREF_SPREAD, name + (Dirs(dirs) + t), PREF_SPREAD, y.name + (Dirs(y.directives) + u));
        DirectivesEndArguments(dirs, t);
        DirectivesEndArguments(y.directives, u);
        NameIsText(name);
        NameIsText(y.name);
        Cut(name, Dirs(dirs) + t, y.name, Dirs(y.directives) + u);
        DirectivesCode(dirs, t, y.directives, u);
      case InlineFragment(cond, dirs, sels) => InlineCode(x, t, y, u);
    }
  }

  lemma SetFirst(xs: seq<Selection>, t: bytes)
    ensures var s := SerSelectionSet(Nothing, xs) + t;
            s != [] && s[0] == PREF_SELECTION_SET && EndsDirectives(s)
  {
    hide SerSelectionSet;
    SetIs(xs, t);
  }

  lemma {:induction false} InlineCode(x: Selection, t: bytes, y: Selection, u: bytes)
    requires x.InlineFragment? && y.InlineFragment? && ClearSelection(x) && WfSelection(x) && WfSelection(y)
    requires SelectionThen(x, t) == SelectionThen(y, u)
    ensures x == y && t == u
    decreases x, 6
  {
    hide Dirs, SerSelectionSet, ClearDirectives, ClearSelections, WfDirectives, WfSelections;
    var x2, y2 := SerSelectionSet(Nothing, x.selections) + t, SerSelectionSet(Nothing, y.selections) + u;
    SetFirst(x.selections, t);
    SetFirst(y.selections, u);
    DirectivesEndArguments(x.directives, x2);
    DirectivesEndArguments(y.directives, y2);
    ConditionCode(x.condition, Dirs(x.directives) + x2, y.condition, Dirs(y.directives) + y2);
    DirectivesCode(x.directives, x2, y.directives, y2);
    SetCode(x.selections, t, y.selections, u);
  }

  function ConditionThen(c: Option<bytes>, rest: bytes): bytes {
    if c.Some? then [PREF_TYPE] + (c.value + rest) else rest
  }

  lemma ConditionCode(a: Option<bytes>, x: bytes, b: Option<bytes>, y: bytes)
    requires IsNameIf(a) && IsNameIf(b) && [PREF_INLINE_FRAGMENT] + ConditionThen(a, x) == [PREF_INLINE_FRAGMENT] + ConditionThen(b, y)
    requires x != [] && IsMark(x[0]) && x[0] != PREF_TYPE && y != [] && IsMark(y[0]) && y[0] != PREF_TYPE
    ensures a == b && x == y
  {
    Tail(PREF_INLINE_FRAGMENT, ConditionThen(a, x), PREF_INLINE_FRAGMENT, ConditionThen(b, y));
    if a.Some? && b.Some? {
      Tail(PREF_TYPE, a.value + x, PREF_TYPE, b.value + y);
      NameIsText(a.value);
      NameIsText(b.value);
      Cut(a.value, x, b.value, y);
    }
  }

  // ----- Types

  lemma {:induction false} TypeIsText(t: Type)
    requires WfType(t)
    ensures IsText(TypeText(t)) && TypeText(t) != []
    ensures TypeText(t)[0] == LBRACKET <==> (t.ListType? || (t.NonNull? && t.inner.ListType?))
    ensures TypeText(t)[|TypeText(t)| - 1] == BANG <==> t.NonNull?
  {
    match t {
      case Named(n) =>
        NameIsText(n);
        assert Lexical.IsNameCont(n[|n| - 1]);
      case ListType(u) =>
        TypeIsText(u);
        TextCat([LBRACKET], TypeText(u));
        TextCat([LBRACKET] + TypeText(u), [RBRACKET]);
      case NonNull(u) =>
        TypeIsText(u);
        TextCat(TypeText(u), [BANG]);
    }
  }

  /** A type is read back from its punctuators and its name. */
  lemma {:induction false} TypeCode(t: Type, u: Type)
    requires WfType(t) && WfType(u) && TypeText(t) == TypeText(u)
    ensures t == u
  {
    TypeIsText(t);
    TypeIsText(u);
    var s := TypeText(t);
    match t {
      case Named(n) =>
      case ListType(a) =>
        assert s[1..|s| - 1] == TypeText(a) && TypeText(u)[1..|s| - 1] == TypeText(u.inner);
        TypeCode(a, u.inner);
      case NonNull(a) =>
        assert s[..|s| - 1] == TypeText(a) && TypeText(u)[..|s| - 1] == TypeText(u.inner);
        TypeCode(a, u.inner);
    }
  }

  // ----- Variable definitions

  function Vars(vs: seq<VariableDefinition>): bytes { SerVariables(Nothing, vs) }

  function Default(v: Option<Value>): bytes { if v.Some? then EncValue(v.value) else [] }

  lemma VariableFirst(vs: seq<VariableDefinition>, t: bytes)
    requires vs != []
    ensures var v := vs[0];
            Vars(vs) + t == [PREF_VARIABLE_DEFINITION] + (v.name + ([PREF_TYPE] + (TypeText(v.ty)
                              + (Default(v.default) + (Dirs(v.directives) + (Vars(vs[1..]) + t))))))
  {
    hide EncValue, SerDirectives, TypeText;
    var v, more := vs[0], Vars(vs[1..]);
    var d, ds, ty := Default(v.default), Dirs(v.directives), TypeText(v.ty);
    var head := [PREF_VARIABLE_DEFINITION] + v.name;
    Assoc(head + [PREF_TYPE] + ty + d + ds, more, t);
    Assoc(head + [PREF_TYPE] + ty + d, ds, more + t);
    Assoc(head + [PREF_TYPE] + ty, d, ds + (more + t));
    Assoc(head + [PREF_TYPE], ty, d + (ds + (more + t)));
    Assoc(head, [PREF_TYPE], ty + (d + (ds + (more + t))));
    Assoc([PREF_VARIABLE_DEFINITION], v.name, [PREF_TYPE] + (ty + (d + (ds + (more + t)))));
  }

  /** A default value, or none. */
  lemma DefaultCode(v: Option<Value>, t: bytes, w: Option<Value>, u: bytes)
    requires v.Some? ==> Clear(v.value) && WfValue(v.value, true)
    requires w.Some? ==> WfValue(w.value, true)
    requires EndsValue(t) && EndsValue(u) && t != [] && u != [] && Default(v) + t == Default(w) + u
    ensures v == w && t == u
  {
    hide EncValue;
    NoArgs();
    if v.Some? {
      ValueIs(v.value);
      RelaxValue(v.value);
    }
    if w.Some? {
      ValueIs(w.value);
      RelaxValue(w.value);
    }
    if v.Some? && w.Some? {
      ClearCode(v.value, t, w.value, u);
    }
  }

  /** The name, the type and the default value of a variable. */
  lemma VariableHeadCode(v: VariableDefinition, t: bytes, w: VariableDefinition, u: bytes)
    requires ClearVariable(v) && WfVariable(v) && WfVariable(w) && EndsValue(t) && EndsValue(u) && t != [] && u != []
    requires v.name + ([PREF_TYPE] + (TypeText(v.ty) + (Default(v.default) + t)))
          == w.name + ([PREF_TYPE] + (TypeText(w.ty) + (Default(w.default) + u)))
    ensures PlainVariable(v).(directives := []) == PlainVariable(w).(directives := []) && t == u
  {
    hide EncValue, WfType, WfDirectives, ClearDirectives, WfValue, TypeText;
    NameIsText(v.name);
    NameIsText(w.name);
    TypeIsText(v.ty);
    TypeIsText(w.ty);
    TextCut(v.name, PREF_TYPE, TypeText(v.ty) + (Default(v.default) + t), w.name, PREF_TYPE, TypeText(w.ty) + (Default(w.default) + u));
    DefaultStops(v.default, t);
    DefaultStops(w.default, u);
    Cut(TypeText(v.ty), Default(v.default) + t, TypeText(w.ty), Default(w.default) + u);
    TypeCode(v.ty, w.ty);
    DefaultCode(v.default, t, w.default, u);
  }

  lemma DefaultStops(v: Option<Value>, t: bytes)
    requires EndsValue(t)
    ensures Stops(Default(v) + t)
  {
    hide EncValue;
    NoArgs();
    if v.Some? {
      ValueIs(v.value);
    }
  }

  lemma DirectivesCat(a: seq<Directive>, b: seq<Directive>)
    ensures Dirs(a + b) == Dirs(a) + Dirs(b)
    ensures WfDirectives(a + b, false) <==> WfDirectives(a, false) && WfDirectives(b, false)
    ensures ClearDirectives(a + b) <==> ClearDirectives(a) && ClearDirectives(b)
  {
    if a == [] {
      assert a + b == b;
    } else {
      DirectivesCat(a[1..], b);
      assert (a + b)[1..] == a[1..] + b;
      Assoc(SerDirective(Nothing, a[0]), Dirs(a[1..]), Dirs(b));
    }
  }

  /** What follows the variables of an operation: its directives and its selection set. */
  function AfterVariables(ds: seq<Directive>, sels: seq<Selection>, t: bytes): bytes {
    Dirs(ds) + (SerSelectionSet(Nothing, sels) + t)
  }

  lemma AfterVariablesFirst(vs: seq<VariableDefinition>, ds: seq<Directive>, sels: seq<Selection>, t: bytes)
    ensures var s := Vars(vs) + AfterVariables(ds, sels, t);
            && s != [] && EndsArguments(s)
            && (s[0] == PREF_VARIABLE_DEFINITION <==> vs != []) && (vs != [] ==> EndsDirectives(s))
  {
    hide Vars, Dirs, SerSelectionSet;
    SetFirst(sels, t);
    DirectivesEndArguments(ds, SerSelectionSet(Nothing, sels) + t);
    NoVars();
    if vs != [] {
      VariableFirst(vs, AfterVariables(ds, sels, t));
    }
  }

  lemma NoVars()
    ensures Vars([]) == [] && forall s: bytes :: [] + s == s
  {
  }

  /** The directives of a variable that another follows end there. */
  lemma InnerDirectivesCode(ds: seq<Directive>, x: bytes, es: seq<Directive>, y: bytes)
    requires ClearDirectives(ds) && WfDirectives(ds, true) && WfDirectives(es, true)
    requires EndsDirectives(x) && EndsDirectives(y) && Dirs(ds) + x == Dirs(es) + y
    ensures ds == es && x == y
  {
    RelaxDirectives(ds);
    RelaxDirectives(es);
    DirectivesCode(ds, x, es, y);
  }

  /** The directives of the last variable and those of the operation. */
  lemma LastDirectivesCode(v: seq<Directive>, ds: seq<Directive>, x: bytes, w: seq<Directive>, es: seq<Directive>, y: bytes)
    requires v == [] && (w == [] || ds == [] || !WfDirective(ds[0], true)) && ClearDirectives(ds)
    requires WfDirectives(ds, false) && WfDirectives(w, true) && WfDirectives(es, false) && EndsDirectives(x) && EndsDirectives(y)
    requires Dirs(v) + (Dirs(ds) + x) == Dirs(w) + (Dirs(es) + y)
    ensures w == [] && ds == es && x == y
  {
    hide Dirs, WfDirective, ClearDirectives;
    NoArgs();
    RelaxDirectives(w);
    DirectivesCat(w, es);
    Assoc(Dirs(w), Dirs(es), y);
    assert w != [] ==> (w + es)[0] == w[0] && WfDirective(w[0], true);
    assert w == [] ==> w + es == es;
    DirectivesCode(ds, x, w + es, y);
  }

  /** Once variables have come to an end on one side only, the other side cannot go on. */
  lemma NoMoreVariables(vs: seq<VariableDefinition>, v: seq<Directive>, ds: seq<Directive>, ss: seq<Selection>, t: bytes,
                        w: seq<Directive>, es: seq<Directive>, zs: seq<Selection>, u: bytes)
    requires vs != [] && ClearDirectives(v) && WfDirectives(v, true) && WfDirectives(w, true) && WfDirectives(es, false)
    ensures Dirs(v) + (Vars(vs) + AfterVariables(ds, ss, t)) != Dirs(w) + AfterVariables(es, zs, u)
  {
    hide Dirs, Vars, SerSelectionSet, AfterVariables, WfDirectives, ClearDirectives;
    if Dirs(v) + (Vars(vs) + AfterVariables(ds, ss, t)) == Dirs(w) + AfterVariables(es, zs, u) {
      var x, y := Vars(vs) + AfterVariables(ds, ss, t), SerSelectionSet(Nothing, zs) + u;
      AfterVariablesFirst(vs, ds, ss, t);
      SetFirst(zs, u);
      RelaxDirectives(v);
      RelaxDirectives(w);
      DirectivesCat(w, es);
      AfterVariablesIs(es, zs, u);
      Assoc(Dirs(w), Dirs(es), y);
      DirectivesCode(v, x, w + es, y);
    }
  }

  lemma AfterVariablesIs(ds: seq<Directive>, sels: seq<Selection>, t: bytes)
    ensures AfterVariables(ds, sels, t) == Dirs(ds) + (SerSelectionSet(Nothing, sels) + t)
  {
  }

  lemma {:induction false} VariablesCode(vs: seq<VariableDefinition>, ds: seq<Directive>, ss: seq<Selection>, t: bytes,
                                         ws: seq<VariableDefinition>, es: seq<Directive>, zs: seq<Selection>, u: bytes)
    requires ClearVariables(vs) && ClearDirectives(ds) && (ClearSplit(vs, ds) || (LastPlain(vs) && LastPlain(ws)))
    requires WfVariables(vs) && WfVariables(ws) && WfDirectives(ds, false) && WfDirectives(es, false)
    requires Vars(vs) + AfterVariables(ds, ss, t) == Vars(ws) + AfterVariables(es, zs, u)
    ensures PlainVariables(vs) == PlainVariables(ws) && ds == es
    ensures SerSelectionSet(Nothing, ss) + t == SerSelectionSet(Nothing, zs) + u
    decreases |vs|
  {
    hide Vars, Dirs, SerSelectionSet, ClearVariable, WfVariable, WfDirectives, ClearDirectives, PlainVariable, WfDirective;
    AfterVariablesFirst(vs, ds, ss, t);
    AfterVariablesFirst(ws, es, zs, u);
    if vs == [] {
      NoVars();
      SetFirst(ss, t);
      SetFirst(zs, u);
      DirectivesCode(ds, SerSelectionSet(Nothing, ss) + t, es, SerSelectionSet(Nothing, zs) + u);
      return;
    }
    hide AfterVariables;
    var v, w := vs[0], ws[0];
    var x := Vars(vs[1..]) + AfterVariables(ds, ss, t);
    var y := Vars(ws[1..]) + AfterVariables(es, zs, u);
    VariableFirst(vs, AfterVariables(ds, ss, t));
    VariableFirst(ws, AfterVariables(es, zs, u));
    AfterVariablesFirst(vs[1..], ds, ss, t);
    AfterVariablesFirst(ws[1..], es, zs, u);
    HeadThenDirectives(v, x, w, y);
    NoVars();
    VariableDirectives(v);
    VariableDirectives(w);
    if vs[1..] != [] && ws[1..] != [] {
      InnerDirectivesCode(v.directives, x, w.directives, y);
      assert vs[1..][|vs| - 2] == vs[|vs| - 1] && ws[1..][|ws| - 2] == ws[|ws| - 1];
      VariablesCode(vs[1..], ds, ss, t, ws[1..], es, zs, u);
    } else if vs[1..] != [] {
      NoMoreVariables(vs[1..], v.directives, ds, ss, t, w.directives, es, zs, u);
    } else if ws[1..] != [] {
      NoMoreAfterLast(ws[1..], w.directives, es, zs, u, v.directives, ds, ss, t);
    } else {
      AfterVariablesIs(ds, ss, t);
      AfterVariablesIs(es, zs, u);
      SetFirst(ss, t);
      SetFirst(zs, u);
      LastDirectivesCode(v.directives, ds, SerSelectionSet(Nothing, ss) + t, w.directives, es, SerSelectionSet(Nothing, zs) + u);
    }
    SameVariable(v, w);
  }

  lemma VariableDirectives(v: VariableDefinition)
    requires WfVariable(v)
    ensures WfDirectives(v.directives, true) && (ClearVariable(v) ==> ClearDirectives(v.directives))
  {
  }

  lemma SameVariable(v: VariableDefinition, w: VariableDefinition)
    requires PlainVariable(v).(directives := []) == PlainVariable(w).(directives := []) && v.directives == w.directives
    ensures PlainVariable(v) == PlainVariable(w)
  {
  }

  /** As NoMoreVariables, where the side that ends is the one known to be clear. */
  lemma NoMoreAfterLast(ws: seq<VariableDefinition>, w: seq<Directive>, es: seq<Directive>, zs: seq<Selection>, u: bytes,
                        v: seq<Directive>, ds: seq<Directive>, ss: seq<Selection>, t: bytes)
    requires ws != [] && v == [] && ClearDirectives(ds) && WfDirectives(ds, false) && WfDirectives(w, true)
    ensures Dirs(v) + AfterVariables(ds, ss, t) != Dirs(w) + (Vars(ws) + AfterVariables(es, zs, u))
  {
    hide Dirs, Vars, SerSelectionSet, AfterVariables, WfDirectives, ClearDirectives;
    if Dirs(v) + AfterVariables(ds, ss, t) == Dirs(w) + (Vars(ws) + AfterVariables(es, zs, u)) {
      var x, y := SerSelectionSet(Nothing, ss) + t, Vars(ws) + AfterVariables(es, zs, u);
      NoArgs();
      AfterVariablesFirst(ws, es, zs, u);
      SetFirst(ss, t);
      RelaxDirectives(w);
      AfterVariablesIs(ds, ss, t);
      DirectivesCode(ds, x, w, y);
    }
  }

  lemma HeadThenDirectives(v: VariableDefinition, x: bytes, w: VariableDefinition, y: bytes)
    requires ClearVariable(v) && WfVariable(v) && WfVariable(w) && EndsArguments(x) && EndsArguments(y) && x != [] && y != []
    requires [PREF_VARIABLE_DEFINITION] + (v.name + ([PREF_TYPE] + (TypeText(v.ty) + (Default(v.default) + (Dirs(v.directives) + x)))))
          == [PREF_VARIABLE_DEFINITION] + (w.name + ([PREF_TYPE] + (TypeText(w.ty) + (Default(w.default) + (Dirs(w.directives) + y)))))
    ensures PlainVariable(v).(directives := []) == PlainVariable(w).(directives := [])
    ensures Dirs(v.directives) + x == Dirs(w.directives) + y
  {
    hide Dirs, TypeText, Default, ClearVariable, WfVariable;
    var dx, dy := Dirs(v.directives) + x, Dirs(w.directives) + y;
    Tail(PREF_VARIABLE_DEFINITION, v.name + ([PREF_TYPE] + (TypeText(v.ty) + (Default(v.default) + dx))),
         PREF_VARIABLE_DEFINITION, w.name + ([PREF_TYPE] + (TypeText(w.ty) + (Default(w.default) + dy))));
    DirectivesEndValue(v.directives, x);
    DirectivesEndValue(w.directives, y);
    VariableHeadCode(v, dx, w, dy);
  }

  lemma DirectivesEndValue(ds: seq<Directive>, t: bytes)
    requires EndsArguments(t) && t != []
    ensures EndsValue(Dirs(ds) + t) && Dirs(ds) + t != []
  {
    hide Dirs, Args;
    NoArgs();
    if ds != [] {
      DirectiveFirst(ds, t);
    }
  }

  // ----- Definitions

  predicate EndsDefinition(t: bytes) { t == [] || PREF_QUERY <= t[0] <= PREF_FRAGMENT }

  function NameOf(n: Option<bytes>): bytes { if n.Some? then n.value else [] }

  lemma OperationIs(d: Definition, t: bytes)
    requires d.Operation?
    ensures SerDefinition(Nothing, d) + t
              == [KindPrefix(d.kind)] + (NameOf(d.opName) + (Vars(d.variables) + AfterVariables(d.directives, d.selections, t)))
  {
    hide SerVariables, SerDirectives, SerSelectionSet, KindPrefix;
    var n, vs, ds, ss := NameOf(d.opName), Vars(d.variables), Dirs(d.directives), SerSelectionSet(Nothing, d.selections);
    Assoc([KindPrefix(d.kind)] + n + vs + ds, ss, t);
    Assoc([KindPrefix(d.kind)] + n + vs, ds, ss + t);
    Assoc([KindPrefix(d.kind)] + n, vs, ds + (ss + t));
    Assoc([KindPrefix(d.kind)], n, vs + (ds + (ss + t)));
  }

  lemma FragmentIs(d: Definition, t: bytes)
    requires d.Fragment?
    ensures SerDefinition(Nothing, d) + t
              == [PREF_FRAGMENT] + (d.name + ([PREF_TYPE] + (d.condition + (Dirs(d.directives) + (SerSelectionSet(Nothing, d.selections) + t)))))
  {
    hide SerDirectives, SerSelectionSet;
    var ds, ss := Dirs(d.directives), SerSelectionSet(Nothing, d.selections);
    var head := [PREF_FRAGMENT] + d.name;
    Assoc(head + [PREF_TYPE] + d.condition + ds, ss, t);
    Assoc(head + [PREF_TYPE] + d.condition, ds, ss + t);
    Assoc(head + [PREF_TYPE], d.condition, ds + (ss + t));
    Assoc(head, [PREF_TYPE], d.condition + (ds + (ss + t)));
    Assoc([PREF_FRAGMENT], d.name, [PREF_TYPE] + (d.condition + (ds + (ss + t))));
  }

  function DefinitionMark(d: Definition): byte {
    if d.Operation? then KindPrefix(d.kind) else PREF_FRAGMENT
  }

  lemma DefinitionFirst(d: Definition, t: bytes)
    ensures var s := SerDefinition(Nothing, d) + t;
            s != [] && s[0] == DefinitionMark(d) && EndsDefinition(s)
  {
    hide SerDefinition, Vars, AfterVariables, Dirs, SerSelectionSet;
    if d.Operation? {
      OperationIs(d, t);
    } else {
      FragmentIs(d, t);
    }
  }

  lemma OperationCode(d: Definition, t: bytes, e: Definition, u: bytes)
    requires d.Operation? && e.Operation? && ClearBody(d) && WfDefinition(d) && WfDefinition(e)
    requires ClearDefinition(d) || (EndsPlain(d) && EndsPlain(e))
    requires SerDefinition(Nothing, d) + t == SerDefinition(Nothing, e) + u
    ensures Plain(d) == Plain(e) && t == u
  {
    hide SerDefinition, Vars, AfterVariables, SerSelectionSet, ClearVariables, ClearDirectives, ClearSelections, WfVariables,
         WfDirectives, WfSelections, PlainVariables, ClearSplit, LastPlain;
    OperationIs(d, t);
    OperationIs(e, u);
    var x := Vars(d.variables) + AfterVariables(d.directives, d.selections, t);
    var y := Vars(e.variables) + AfterVariables(e.directives, e.selections, u);
    Tail(KindPrefix(d.kind), NameOf(d.opName) + x, KindPrefix(e.kind), NameOf(e.opName) + y);
    AfterVariablesFirst(d.variables, d.directives, d.selections, t);
    AfterVariablesFirst(e.variables, e.directives, e.selections, u);
    if d.opName.Some? {
      NameIsText(d.opName.value);
    }
    if e.opName.Some? {
      NameIsText(e.opName.value);
    }
    Cut(NameOf(d.opName), x, NameOf(e.opName), y);
    VariablesCode(d.variables, d.directives, d.selections, t, e.variables, e.directives, e.selections, u);
    SetCode(d.selections, t, e.selections, u);
  }

  lemma FragmentCode(d: Definition, t: bytes, e: Definition, u: bytes)
    requires d.Fragment? && e.Fragment? && ClearBody(d) && WfDefinition(d) && WfDefinition(e)
    requires SerDefinition(Nothing, d) + t == SerDefinition(Nothing, e) + u
    ensures Plain(d) == Plain(e) && t == u
  {
    hide SerDefinition, Dirs, SerSelectionSet, ClearDirectives, ClearSelections, WfDirectives, WfSelections;
    FragmentIs(d, t);
    FragmentIs(e, u);
    var sx, sy := SerSelectionSet(Nothing, d.selections) + t, SerSelectionSet(Nothing, e.selections) + u;
    var x, y := Dirs(d.directives) + sx, Dirs(e.directives) + sy;
    SetFirst(d.selections, t);
    SetFirst(e.selections, u);
    DirectivesEndArguments(d.directives, sx);
    DirectivesEndArguments(e.directives, sy);
    NameIsText(d.name);
    NameIsText(e.name);
    NameIsText(d.condition);
    NameIsText(e.condition);
    Tail(PREF_FRAGMENT, d.name + ([PREF_TYPE] + (d.condition + x)), PREF_FRAGMENT, e.name + ([PREF_TYPE] + (e.condition + y)));
    TextCut(d.name, PREF_TYPE, d.condition + x, e.name, PREF_TYPE, e.condition + y);
    Cut(d.condition, x, e.condition, y);
    DirectivesCode(d.directives, sx, e.directives, sy);
    SetCode(d.selections, t, e.selections, u);
  }

  function Doc(ds: Document): bytes { SerDocument(Nothing, ds) }

  lemma DefinitionCode(d: Definition, t: bytes, e: Definition, u: bytes)
    requires ClearBody(d) && WfDefinition(d) && WfDefinition(e) && (ClearDefinition(d) || (EndsPlain(d) && EndsPlain(e)))
    requires SerDefinition(Nothing, d) + t == SerDefinition(Nothing, e) + u
    ensures Plain(d) == Plain(e) && t == u
  {
    hide SerDefinition, ClearBody, ClearDefinition, EndsPlain, WfDefinition, Plain;
    DefinitionFirst(d, t);
    DefinitionFirst(e, u);
    MarkTellsKind(d, e);
    if d.Operation? {
      OperationCode(d, t, e, u);
    } else {
      FragmentCode(d, t, e, u);
    }
  }

  /** The canonical form of a clear document is the form of no other: descriptions aside, any
      document with these bytes is the same. */
  lemma {:induction false} ClearDocumentCode(ds: Document, es: Document)
    requires ClearDocument(ds) && WfDefinitions(ds) && WfDefinitions(es) && Doc(ds) == Doc(es)
    ensures PlainDocument(ds) == PlainDocument(es)
  {
    hide SerDefinition, ClearBody, EndsPlain, WfDefinition, Plain;
    if ds == [] && es == [] {
      return;
    }
    DocFirst(ds);
    DocFirst(es);
    DefinitionCode(ds[0], Doc(ds[1..]), es[0], Doc(es[1..]));
    ClearDocumentCode(ds[1..], es[1..]);
  }

  lemma DocFirst(ds: Document)
    ensures ds == [] <==> Doc(ds) == []
    ensures ds != [] ==> Doc(ds) == SerDefinition(Nothing, ds[0]) + Doc(ds[1..])
  {
    hide SerDefinition;
    if ds != [] {
      DefinitionFirst(ds[0], Doc(ds[1..]));
    }
  }

  predicate ClearBodies(ds: Document) {
    ds == [] || (ClearBody(ds[0]) && ClearBodies(ds[1..]))
  }

  predicate AllEndPlain(ds: Document) {
    ds == [] || (EndsPlain(ds[0]) && AllEndPlain(ds[1..]))
  }

  /** Among the documents without directives on a last variable definition, values that can be
      read back are enough. */
  lemma {:induction false} PlainEndsCode(ds: Document, es: Document)
    requires ClearBodies(ds) && AllEndPlain(ds) && AllEndPlain(es) && WfDefinitions(ds) && WfDefinitions(es) && Doc(ds) == Doc(es)
    ensures PlainDocument(ds) == PlainDocument(es)
  {
    hide SerDefinition, ClearBody, EndsPlain, WfDefinition, Plain;
    if ds == [] && es == [] {
      return;
    }
    DocFirst(ds);
    DocFirst(es);
    DefinitionCode(ds[0], Doc(ds[1..]), es[0], Doc(es[1..]));
    PlainEndsCode(ds[1..], es[1..]);
  }

  lemma MarkTellsKind(d: Definition, e: Definition)
    requires DefinitionMark(d) == DefinitionMark(e)
    ensures d.Operation? <==> e.Operation?
  {
  }
}
