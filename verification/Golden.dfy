/**
 The words of the grammar and the bytes of the canonical form, written out: what the constants
 of the other modules stand for.
 */
module Golden {
  import opened Bytes
  import opened Lexical
  import opened Numbers
  import opened Ast
  import opened Canonical
  import opened Grammar

  /** The words that begin an operation. */
  lemma OperationWords(xs: seq<Selection>)
    ensures forall kind: Kind ::
              DefinitionTokens(Operation(None, false, kind, None, [], [], xs)) ==
              [NameToken(match kind
                         case Query => [0x71, 0x75, 0x65, 0x72, 0x79]
                         case Mutation => [0x6d, 0x75, 0x74, 0x61, 0x74, 0x69, 0x6f, 0x6e]
                         case Subscription => [0x73, 0x75, 0x62, 0x73, 0x63, 0x72, 0x69, 0x70, 0x74, 0x69, 0x6f, 0x6e])]
              + SelectionSetTokens(xs)
  {
  }

  /** `fragment n on c {...}`, `... on c {...}` and the one name that no fragment has. */
  lemma FragmentWords(n: bytes, c: bytes, xs: seq<Selection>)
    ensures DefinitionTokens(Fragment(None, n, c, [], xs)) ==
            [NameToken([0x66, 0x72, 0x61, 0x67, 0x6d, 0x65, 0x6e, 0x74]), NameToken(n), NameToken([0x6f, 0x6e]), NameToken(c)]
            + SelectionSetTokens(xs)
    ensures SelectionTokens(InlineFragment(Some(c), [], xs)) ==
            [Ellipsis, NameToken([0x6f, 0x6e]), NameToken(c)] + SelectionSetTokens(xs)
    ensures WfDefinition(Fragment(None, n, c, [], xs)) ==> n != [0x6f, 0x6e]
    ensures WfSelection(FragmentSpread(n, [])) ==> n != [0x6f, 0x6e]
  {
    assert DirectivesTokens([]) + SelectionSetTokens(xs) == SelectionSetTokens(xs);
  }

  /** `null`, `true` and `false`, which are no enum values. */
  lemma ValueWords(n: bytes, constant: bool)
    ensures ValueTokens(NullValue) == [NameToken([0x6e, 0x75, 0x6c, 0x6c])]
    ensures ValueTokens(BooleanValue(true)) == [NameToken([0x74, 0x72, 0x75, 0x65])]
    ensures ValueTokens(BooleanValue(false)) == [NameToken([0x66, 0x61, 0x6c, 0x73, 0x65])]
    ensures WfValue(EnumValue(n), constant) <==>
              IsName(n) && n != [0x6e, 0x75, 0x6c, 0x6c] && n != [0x74, 0x72, 0x75, 0x65] && n != [0x66, 0x61, 0x6c, 0x73, 0x65]
  {
  }

  /** -0, 10, 0.5, 1e5, 1E+5 and 1.5e-3; but not 01, 1., 1e, 1e+, - or 1a. */
  lemma NumberTexts()
    ensures IsNumberText([0x2d, 0x30], false) && IsNumberText([0x31, 0x30], false) && IsNumberText([0x30, 0x2e, 0x35], true)
    ensures IsNumberText([0x31, 0x65, 0x35], true) && IsNumberText([0x31, 0x45, 0x2b, 0x35], true)
    ensures IsNumberText([0x31, 0x2e, 0x35, 0x65, 0x2d, 0x33], true)
    ensures forall f: bool ::
              && !IsNumberText([0x30, 0x31], f) && !IsNumberText([0x31, 0x2e], f) && !IsNumberText([0x31, 0x65], f)
              && !IsNumberText([0x31, 0x65, 0x2b], f) && !IsNumberText([0x2d], f) && !IsNumberText([0x31, 0x61], f)
  {
    Fractions();
    Refused();
    assert DigitsEnd([0x31, 0x30], 1) == 2;
    assert Number([0x31, 0x30], 0) == Ok(false, 2);
    assert Number([0x2d, 0x30], 0) == Ok(false, 2);
  }

  lemma Fractions()
    ensures Number([0x30, 0x2e, 0x35], 0) == Ok(true, 3) && Number([0x31, 0x65, 0x35], 0) == Ok(true, 3)
    ensures Number([0x31, 0x45, 0x2b, 0x35], 0) == Ok(true, 4)
    ensures Number([0x31, 0x2e, 0x35, 0x65, 0x2d, 0x33], 0) == Ok(true, 6)
  {
    assert DigitsEnd([0x30, 0x2e, 0x35], 2) == 3;
    assert DigitsEnd([0x31, 0x65, 0x35], 1) == 1 && DigitsEnd([0x31, 0x65, 0x35], 2) == 3;
    assert DigitsEnd([0x31, 0x45, 0x2b, 0x35], 1) == 1 && DigitsEnd([0x31, 0x45, 0x2b, 0x35], 3) == 4;
    var s: bytes := [0x31, 0x2e, 0x35, 0x65, 0x2d, 0x33];
    assert DigitsEnd(s, 1) == 1 && DigitsEnd(s, 2) == 3 && DigitsEnd(s, 5) == 6;
  }

  lemma Refused()
    ensures Number([0x30, 0x31], 0).Err? && Number([0x31, 0x2e], 0).Err? && Number([0x31, 0x65], 0).Err?
    ensures Number([0x31, 0x65, 0x2b], 0).Err? && Number([0x2d], 0).Err? && Number([0x31, 0x61], 0).Err?
  {
    assert DigitsEnd([0x31, 0x2e], 1) == 1 && DigitsEnd([0x31, 0x65], 1) == 1;
    assert DigitsEnd([0x31, 0x65, 0x2b], 1) == 1 && DigitsEnd([0x31, 0x61], 1) == 1;
  }

  // ----- The canonical form

  lemma Leaves(n: bytes)
    ensures EncValue(Variable(n)) == [0x1f] + n
    ensures EncValue(IntValue(n)) == [0x19] + n
    ensures EncValue(FloatValue(n)) == [0x1a] + n
    ensures EncValue(EnumValue(n)) == [0x1b] + n
    ensures EncValue(NullValue) == [0x16] && EncValue(BooleanValue(true)) == [0x17] && EncValue(BooleanValue(false)) == [0x18]
    ensures EncValue(ListValue([])) == [0x1d] && EncValue(ObjectValue([])) == [0x13]
  {
  }

  /** A list of one item, and an input object of one field. */
  lemma Nested(n: bytes, v: Value)
    ensures EncValue(ListValue([v])) == [0x1d] + EncValue(v) + [0x1e]
    ensures EncValue(ObjectValue([ObjectField(n, v)])) == [0x13, 0x14] + n + EncValue(v) + [0x15]
  {
    hide EncValue;
    var f := ObjectField(n, v);
    assert [v][1..] == [] && [f][1..] == [];
    assert EncItems([v]) == EncValue(v) + EncItems([]);
    assert EncField(f) == [0x14] + n + EncValue(v);
    assert EncFields([f]) == EncField(f) + EncFields([]);
    NestedAre([v], [f]);
    NoBytesAfter(EncValue(v));
    NoBytesAfter(EncField(f));
    assert [0x13] + ([0x14] + n + EncValue(v) + [0x15]) == [0x13, 0x14] + n + EncValue(v) + [0x15];
  }

  lemma NestedAre(vs: seq<Value>, fs: seq<ObjectField>)
    requires vs != [] && fs != []
    ensures EncValue(ListValue(vs)) == [0x1d] + (EncItems(vs) + [0x1e])
    ensures EncValue(ObjectValue(fs)) == [0x13] + (EncFields(fs) + [0x15])
  {
    hide EncItems, EncFields;
  }

  /** A string is written byte by byte, the control bytes but TAB, LF and CR and the backslash as two. */
  lemma Strings(b: byte)
    ensures EncValue(StringValue([b])) ==
            [0x1c] + if b == 0x5c then [0x5c, 0x7c]
                     else if b < 0x20 && b != 0x09 && b != 0x0a && b != 0x0d then [0x5c, b + 0x40] else [b]
  {
    assert [b][1..] == [];
    assert Escape([b]) == EscapeByte(b) + Escape([]);
  }

  /** A field, with an alias, an argument, a directive and a selection set. */
  lemma Fields(a: bytes, n: bytes, m: bytes, v: Value, d: bytes, x: Selection)
    ensures SerSelection(Nothing, Field(None, n, [], [], [])) == [0x07] + n
    ensures SerSelection(Nothing, Field(Some(a), n, [Argument(m, v)], [Directive(d, [])], [x])) ==
            [0x07] + (a + [0x0b]) + n + ([0x0f] + m + EncValue(v)) + ([0x06] + d) + ([0x11] + SerSelection(Nothing, x) + [0x12])
  {
    Parts(m, v, d);
    OneSelection(x);
    hide EncValue, SerArguments, SerDirectives, SerSelections;
    FieldForm(Some(a), n, [Argument(m, v)], [Directive(d, [])], [x]);
  }

  lemma FieldForm(a: Option<bytes>, n: bytes, args: seq<Argument>, dirs: seq<Directive>, xs: seq<Selection>)
    ensures SerSelection(Nothing, Field(None, n, [], [], [])) == [0x07] + n
    ensures a.Some? && xs != [] ==>
              SerSelection(Nothing, Field(a, n, args, dirs, xs)) ==
              [0x07] + (a.value + [0x0b]) + n + SerArguments(Nothing, args) + SerDirectives(Nothing, dirs)
              + ([0x11] + SerSelections(Nothing, xs) + [0x12])
  {
    hide SerSelections;
    NoBytesAfter([0x07] + n);
    assert [0x07] + [] + n == [0x07] + n;
  }

  lemma Parts(m: bytes, v: Value, d: bytes)
    ensures SerArguments(Nothing, [Argument(m, v)]) == [0x0f] + m + EncValue(v)
    ensures SerDirectives(Nothing, [Directive(d, [])]) == [0x06] + d
  {
    hide EncValue;
    assert [Argument(m, v)][1..] == [] && [Directive(d, [])][1..] == [];
    assert SerDirective(Nothing, Directive(d, [])) == [0x06] + d;
  }

  lemma OneSelection(x: Selection)
    ensures SerSelections(Nothing, [x]) == SerSelection(Nothing, x)
  {
    hide SerSelection;
    assert [x][1..] == [];
  }

  lemma Fragments(n: bytes, x: Selection)
    ensures SerSelection(Nothing, FragmentSpread(n, [])) == [0x0c] + n
    ensures SerSelection(Nothing, InlineFragment(None, [], [x])) == [0x0e] + ([0x11] + SerSelection(Nothing, x) + [0x12])
    ensures SerSelection(Nothing, InlineFragment(Some(n), [], [x])) ==
            [0x0e] + ([0x08] + n) + ([0x11] + SerSelection(Nothing, x) + [0x12])
  {
    OneSelection(x);
    FragmentForm(n, [x]);
  }

  lemma FragmentForm(n: bytes, xs: seq<Selection>)
    ensures SerSelection(Nothing, FragmentSpread(n, [])) == [0x0c] + n
    ensures SerSelection(Nothing, InlineFragment(None, [], xs)) == [0x0e] + ([0x11] + SerSelections(Nothing, xs) + [0x12])
    ensures SerSelection(Nothing, InlineFragment(Some(n), [], xs)) ==
            [0x0e] + ([0x08] + n) + ([0x11] + SerSelections(Nothing, xs) + [0x12])
  {
    hide SerSelections;
    NoBytesAfter([0x0c] + n);
    NoBytesAfter([0x0e]);
    NoBytesAfter([0x0e] + ([0x08] + n));
  }

  /** The definitions, with a variable and without. */
  lemma Definitions(n: bytes, c: bytes, t: bytes, x: Selection)
    ensures forall kind: Kind ::
              SerDefinition(Nothing, Operation(None, false, kind, None, [], [], [x])) ==
              [match kind case Query => 0x01 case Mutation => 0x02 case Subscription => 0x03, 0x11] + SerSelection(Nothing, x) + [0x12]
    ensures SerDefinition(Nothing, Operation(None, false, Query, Some(n), [VariableDefinition(None, c, NonNull(ListType(Named(t))), None, [])], [], [x]))
            == [0x01] + n + [0x05] + c + [0x08, 0x5b] + t + [0x5d, 0x21, 0x11] + SerSelection(Nothing, x) + [0x12]
    ensures SerDefinition(Nothing, Fragment(None, n, c, [], [x])) ==
            [0x04] + n + [0x08] + c + [0x11] + SerSelection(Nothing, x) + [0x12]
  {
    hide SerSelection;
    var v := VariableDefinition(None, c, NonNull(ListType(Named(t))), None, []);
    assert [x][1..] == [] && [v][1..] == [];
    assert SerSelections(Nothing, [x]) == SerSelection(Nothing, x);
    assert TypeText(ListType(Named(t))) == [0x5b] + t + [0x5d];
    assert TypeText(v.ty) == [0x5b] + t + [0x5d] + [0x21];
    assert SerVariable(Nothing, v) == [0x05] + c + [0x08, 0x5b] + t + [0x5d, 0x21];
    assert SerVariables(Nothing, [v]) == SerVariable(Nothing, v);
  }
}
