/**
 The state of a run at a label, what the rest of the run comes to from there, and one lemma
 for each label: how that changes as the label is passed.
 */
module Steps {
  import opened Bytes
  import opened Lexical
  import opened StringLine
  import opened BlockString
  import opened Ast
  import opened Canonical
  import opened Descent
  import opened Continuation

  datatype Label =
    | DefinitionL | DefinitionEndL | FragmentL
    | VarDefL | TypeL | TypeAfterL | VarDefAfterDefaultL | VarDefDirectivesL | VarDefEndL
    | DirectivesL | ArgsL | ArgsNextL | ArgsAfterValueL
    | ValueL | AfterValueL | ObjectFieldL
    | SelSetL | SelectionL | FieldAfterArgsL | FieldDirectivesL | FieldAfterDirectivesL | AfterSelectionL
    | DoneL | ErrorL

  /** Transitions that read nothing go to a label of lower rank. */
  function Rank(l: Label): nat {
    match l
    case DefinitionEndL => 20
    case DefinitionL => 19
    case FragmentL => 18
    case AfterValueL => 17
    case ArgsAfterValueL => 16
    case VarDefAfterDefaultL => 16
    case TypeAfterL => 16
    case FieldAfterArgsL => 15
    case VarDefDirectivesL => 14
    case FieldDirectivesL => 14
    case DirectivesL => 13
    case VarDefEndL => 12
    case FieldAfterDirectivesL => 12
    case VarDefL => 11
    case SelSetL => 10
    case AfterSelectionL => 10
    case SelectionL => 9
    case ArgsL => 9
    case ArgsNextL => 8
    case TypeL => 8
    case ValueL => 8
    case ObjectFieldL => 8
    case DoneL => 0
    case ErrorL => 0
  }

  predicate AtValue(l: Label) { l.ValueL? || l.AfterValueL? || l.ObjectFieldL? }

  predicate InArguments(l: Label) { l.ArgsL? || l.ArgsNextL? || l.ArgsAfterValueL? }

  predicate InVariableDefinitions(l: Label) {
    l.VarDefL? || l.TypeL? || l.TypeAfterL? || l.VarDefAfterDefaultL? || l.VarDefDirectivesL? || l.VarDefEndL?
  }

  /** The labels of a definition before its selection set. */
  predicate InHeader(l: Label) {
    l.DefinitionL? || l.DefinitionEndL? || l.FragmentL? || InVariableDefinitions(l)
  }

  predicate InSelections(l: Label) {
    || l.SelectionL? || l.AfterSelectionL? || l.FieldAfterArgsL? || l.FieldDirectivesL?
    || l.FieldAfterDirectivesL?
  }

  /** The labels where a value is being read and the writer is muted for it. */
  predicate InValue(l: Label) { AtValue(l) || l.ArgsAfterValueL? || l.VarDefAfterDefaultL? }

  /** Whether the machine is within variable definitions, as its label and slots tell. */
  predicate InVariables(l: Label, r: Slots) {
    || InVariableDefinitions(l)
    || (l.DirectivesL? && r.dir.DirVarDef?)
    || (InArguments(l) && ArgInVariables(r))
    || (AtValue(l) && ValInVariables(r))
  }

  function Count(b: bool): nat { if b then 1 else 0 }

  /** The writer's mute counter at each label. */
  function MuteAt(l: Label, r: Slots, g: Ignore): nat {
    Count(InVariables(l, r) && g.Variables?) + Count(InValue(l) && !g.Nothing?)
  }

  /** A state of the machine: where it is, what is open, and the bytes written. */
  datatype Here = Here(at: Label, i: nat, stack: seq<Frame>, typeDepth: nat, r: Slots, out: bytes)

  /** What each label may rely on. */
  predicate Shape(c: Context, h: Here) {
    && h.i <= |c.src|
    && |h.stack| <= c.limit
    && (h.at.DefinitionL? || h.at.VarDefL? || h.at.ArgsL? ==> h.i < |c.src|)
    && (h.at.FragmentL? ==> IsKeywordAt(c.src, h.i, KW_FRAGMENT))
    && (AtValue(h.at) || h.stack == [])
    && (h.at.ObjectFieldL? ==> h.stack != [])
    && (h.at.TypeL? || h.at.TypeAfterL? || h.typeDepth == 0)
    && (InHeader(h.at) || h.at.DoneL? ==> h.r.depth == 0)
    && (InSelections(h.at) ==> h.r.depth > 0)
    && (h.at.DirectivesL? ==> DirOk(h.r.dir, h.r.depth))
    && (InArguments(h.at) ==> ArgOk(h.r))
    && (AtValue(h.at) ==> ValOk(h.r))
  }

  /** What the rest of the run comes to. An error is an outcome already. */
  function Meaning(c: Context, h: Here): Outcome
    requires Shape(c, h) && !h.at.ErrorL?
  {
    match h.at
    case DefinitionL => FromDefinition(c, h.i, h.out)
    case DefinitionEndL => FromDefinitionEnd(c, h.i, h.out)
    case FragmentL => FromFragment(c, h.i, h.out)
    case VarDefL => FromVariable(c, h.i, h.out)
    case TypeL => FromType(c, h.i, h.typeDepth, h.out)
    case TypeAfterL => FromTypeAfter(c, h.i, h.typeDepth, h.out)
    case VarDefAfterDefaultL => FromDirectives(c, Skip(c.src, h.i), DirVarDef, 0, h.out)
    case VarDefDirectivesL => FromDirectives(c, h.i, DirVarDef, 0, h.out)
    case VarDefEndL => FromVariableEnd(c, h.i, h.out)
    case DirectivesL => FromDirectives(c, h.i, h.r.dir, h.r.depth, h.out)
    case ArgsL => FromArguments(c, Skip(c.src, h.i + 1), h.r, h.out)
    case ArgsNextL => FromArguments(c, h.i, h.r, h.out)
    case ArgsAfterValueL => FromArgumentsRest(c, h.i, h.r, h.out)
    case ValueL => FromValue(c, h.i, h.stack, h.r, h.out)
    case AfterValueL => FromAfterValue(c, h.i, h.stack, h.r, h.out)
    case ObjectFieldL => FromObjectField(c, h.i, h.stack, h.r, h.out)
    case SelSetL => FromSelectionSet(c, h.i, h.r.depth, h.out)
    case SelectionL => FromSelection(c, h.i, h.r.depth, h.out)
    case FieldAfterArgsL => FromDirectives(c, Skip(c.src, h.i), DirField, h.r.depth, h.out)
    case FieldDirectivesL => FromDirectives(c, h.i, DirField, h.r.depth, h.out)
    case FieldAfterDirectivesL => FromFieldAfterDirectives(c, h.i, h.r.depth, h.out)
    case AfterSelectionL => FromAfterSelection(c, h.i, h.r.depth, h.out)
    case DoneL => Accept(h.out)
  }

  // ----- The canonical form of one element more

  lemma SerSelectionsCons(g: Ignore, x: Selection, xs: seq<Selection>)
    ensures SerSelections(g, [x] + xs) == SerSelection(g, x) + SerSelections(g, xs)
  {
  }

  lemma SerDirectivesCons(g: Ignore, x: Directive, xs: seq<Directive>)
    ensures SerDirectives(g, [x] + xs) == SerDirective(g, x) + SerDirectives(g, xs)
  {
  }

  lemma SerArgumentsCons(g: Ignore, x: Argument, xs: seq<Argument>)
    ensures SerArguments(g, [x] + xs) == SerArgument(g, x) + SerArguments(g, xs)
  {
  }

  lemma SerVariablesCons(g: Ignore, x: VariableDefinition, xs: seq<VariableDefinition>)
    ensures SerVariables(g, [x] + xs) == SerVariable(g, x) + SerVariables(g, xs)
  {
  }

  lemma EncItemsCons(x: Value, xs: seq<Value>)
    ensures EncItems([x] + xs) == EncValue(x) + EncItems(xs)
  {
  }

  lemma EncFieldsCons(x: ObjectField, xs: seq<ObjectField>)
    ensures EncFields([x] + xs) == EncField(x) + EncFields(xs)
  {
  }

  /** The state h gone on to the directives at index i. */
  function DirectivesAt(h: Here, i: nat, ret: DirRet, out: bytes): Here {
    h.(at := DirectivesL, i := i, r := h.r.(dir := ret), out := out)
  }

  // ----- Selection sets

  lemma SelSetStep(c: Context, h: Here)
    requires Shape(c, h) && h.at.SelSetL?
    ensures var s, d := c.src, h.r.depth;
            Meaning(c, h) ==
            if h.i == |s| then Reject(UnexpectedEOF, h.i)
            else if s[h.i] != LBRACE then Reject(UnexpectedToken, h.i)
            else if d + 1 > c.limit then Reject(TooDeep, Skip(s, h.i + 1))
            else Meaning(c, h.(at := SelectionL, i := Skip(s, h.i + 1), r := h.r.(depth := d + 1),
                               out := h.out + [PREF_SELECTION_SET]))
  {
    hide IsKeywordAt, Skip, FromDefinition, FromDefinitionEnd, FromFragment, FromSelectionSetEnd,
         FromFieldAfterDirectives, FromDirectives, FromVariableEnd, FromVariable, FromTypeAfter, FromType,
         FromArguments, FromArgumentsRest, FromAfterValue, FromValue, FromObjectField, SelectionsRest, ParseSelection,
         SerSelections, SerSelection;
    var s, d, g := c.src, h.r.depth, c.ignore;
    if h.i < |s| && s[h.i] == LBRACE && d + 1 <= c.limit {
      var x := ParseSelection(s, Skip(s, h.i + 1), d + 1, c.limit);
      if x.Ok? {
        var xs := SelectionsRest(s, x.next, d + 1, c.limit);
        if xs.Ok? {
          var p, e, b, bs := [PREF_SELECTION_SET], [PREF_SELECTION_SET_END], SerSelection(g, x.v), SerSelections(g, xs.v);
          SerSelectionsCons(g, x.v, xs.v);
          Assoc(h.out, p + (b + bs), e);
          Assoc(h.out, p, b + bs);
          Assoc(h.out + p, b, bs);
        }
      }
    }
  }

  lemma FieldAfterArgsStep(c: Context, h: Here)
    requires Shape(c, h) && h.at.FieldAfterArgsL?
    ensures Meaning(c, h) == Meaning(c, h.(at := FieldDirectivesL, i := Skip(c.src, h.i)))
  {
    hide IsKeywordAt, Skip, FromDefinition, FromDefinitionEnd, FromFragment, FromAfterSelection, FromSelectionSet,
         FromSelection, FromFieldAfterDirectives, FromDirectives, FromVariableEnd, FromVariable, FromTypeAfter,
         FromType, FromArguments, FromArgumentsRest, FromAfterValue, FromValue, FromObjectField;
  }

  lemma FieldDirectivesStep(c: Context, h: Here)
    requires Shape(c, h) && h.at.FieldDirectivesL?
    ensures Meaning(c, h) == Meaning(c, h.(at := DirectivesL, r := h.r.(dir := DirField)))
  {
    hide IsKeywordAt, Skip, FromDefinition, FromDefinitionEnd, FromFragment, FromAfterSelection, FromSelectionSet,
         FromSelection, FromFieldAfterDirectives, FromDirectives, FromVariableEnd, FromVariable, FromTypeAfter,
         FromType, FromArguments, FromArgumentsRest, FromAfterValue, FromValue, FromObjectField;
  }

  lemma AfterSelectionStep(c: Context, h: Here)
    requires Shape(c, h) && h.at.AfterSelectionL?
    ensures var s, d := c.src, h.r.depth;
            Meaning(c, h) ==
            if h.i == |s| then Reject(UnexpectedEOF, h.i)
            else if s[h.i] != RBRACE then Meaning(c, h.(at := SelectionL))
            else
              var out := h.out + [PREF_SELECTION_SET_END];
              if d == 1 then Meaning(c, h.(at := DefinitionEndL, i := h.i + 1, r := h.r.(depth := 0), out := out))
              else Meaning(c, h.(i := Skip(s, h.i + 1), r := h.r.(depth := d - 1), out := out))
  {
    hide IsKeywordAt, Skip, FromDefinition, FromDefinitionEnd, FromFragment, FromSelectionSet,
         FromFieldAfterDirectives, FromDirectives, FromVariableEnd, FromVariable, FromTypeAfter, FromType,
         FromArguments, FromArgumentsRest, FromAfterValue, FromValue, FromObjectField, ParseSelection, SerSelections,
         SerSelection;
    var s, d, g := c.src, h.r.depth, c.ignore;
    if h.i < |s| && s[h.i] == RBRACE {
      assert SerSelections(g, []) == [] by { SerSelectionsNil(g); }
      NoBytesAfter(h.out);
      assert FromAfterSelection(c, h.i, d, h.out)
          == FromSelectionSetEnd(c, h.i + 1, d - 1, h.out + [PREF_SELECTION_SET_END]);
    } else if h.i < |s| {
      var x := ParseSelection(s, h.i, d, c.limit);
      if x.Ok? {
        var xs := SelectionsRest(s, x.next, d, c.limit);
        if xs.Ok? {
          SerSelectionsCons(g, x.v, xs.v);
          Assoc(h.out, SerSelection(g, x.v), SerSelections(g, xs.v));
        }
      }
    }
  }

  lemma SerSelectionsNil(g: Ignore)
    ensures SerSelections(g, []) == []
  {
  }

  lemma FieldAfterDirectivesStep(c: Context, h: Here)
    requires Shape(c, h) && h.at.FieldAfterDirectivesL?
    ensures var s, j := c.src, Skip(c.src, h.i);
            Meaning(c, h) ==
            if j == |s| then Reject(UnexpectedEOF, j)
            else Meaning(c, h.(at := if s[j] == LBRACE then SelSetL else AfterSelectionL, i := j))
  {
    hide IsKeywordAt, Skip, FromDefinition, FromDefinitionEnd, FromFragment, FromAfterSelection, FromSelectionSet,
         FromSelection, FromDirectives, FromVariableEnd, FromVariable, FromTypeAfter, FromType, FromArguments,
         FromArgumentsRest, FromAfterValue, FromValue, FromObjectField;
  }

  /** The state that a selection goes on with, or the error it ends in. */
  lemma SelectionStep(c: Context, h: Here)
    requires Shape(c, h) && h.at.SelectionL?
    ensures Meaning(c, h) ==
            if HasPrefixAt(c.src, h.i, ELLIPSIS) then AfterEllipsis(c, h, Skip(c.src, h.i + 3))
            else AtField(c, h)
  {
    hide HasPrefixAt, IsKeywordAt, Skip, NameEnd, FromDefinition, FromDefinitionEnd, FromFragment, FromAfterSelection,
         FromSelectionSet, FromSelection, FromFieldAfterDirectives, FromDirectives, FromVariableEnd, FromVariable,
         FromTypeAfter, FromType, FromArguments, FromArgumentsRest, FromAfterValue, FromValue, FromObjectField;
    if HasPrefixAt(c.src, h.i, ELLIPSIS) {
      EllipsisStep(c, h);
    } else {
      FieldStep(c, h);
    }
  }

  function AfterEllipsis(c: Context, h: Here, j: nat): Outcome
    requires Shape(c, h) && h.at.SelectionL? && j <= |c.src|
  {
    var s := c.src;
    if IsKeywordAt(s, j, KW_ON) then
      match Name(s, Skip(s, j + 2))
      case Err(e, p) => Reject(e, p)
      case Ok(t, k) =>
        Meaning(c, DirectivesAt(h, Skip(s, k), DirSelectionSet, h.out + [PREF_INLINE_FRAGMENT] + ([PREF_TYPE] + t)))
    else if Name(s, j).Ok? then
      Meaning(c, DirectivesAt(h, Skip(s, Name(s, j).next), DirSpread, h.out + ([PREF_SPREAD] + Name(s, j).v)))
    else
      Meaning(c, DirectivesAt(h, j, DirSelectionSet, h.out + [PREF_INLINE_FRAGMENT]))
  }

  /** What an inline fragment writes before its directives. */
  function InlineHead(cond: Option<bytes>, out: bytes): bytes {
    if cond.Some? then out + [PREF_INLINE_FRAGMENT] + ([PREF_TYPE] + cond.value)
    else out + [PREF_INLINE_FRAGMENT]
  }

  /** After a selection, which is not written yet. */
  function FromSelectionRead(c: Context, x: R<Selection>, d: nat, out: bytes): Outcome
    requires (x.Ok? ==> x.next <= |c.src|) && d > 0
  {
    match x
    case Err(e, p) => Reject(e, p)
    case Ok(v, j) => FromAfterSelection(c, j, d, out + SerSelection(c.ignore, v))
  }

  lemma InlineStep(c: Context, i: nat, cond: Option<bytes>, d: nat, out: bytes)
    requires i <= |c.src| && d > 0
    ensures FromDirectives(c, i, DirSelectionSet, d, InlineHead(cond, out))
              == FromSelectionRead(c, ParseInline(c.src, i, cond, d, c.limit), d, out)
  {
    hide IsKeywordAt, Skip, FromDefinition, FromDefinitionEnd, FromFragment, FromAfterSelection, FromSelection,
         FromFieldAfterDirectives, FromVariableEnd, FromVariable, FromTypeAfter, FromType, FromArguments,
         FromArgumentsRest, FromAfterValue, FromValue, FromObjectField, ParseDirectives, ParseSelectionSet,
         SerSelections, SerDirectives, SerArguments;
    var s, g, head := c.src, c.ignore, InlineHead(cond, out);
    var ds := ParseDirectives(s, i, false, c.limit);
    if ds.Ok? {
      var b := SerDirectives(g, ds.v);
      assert FromDirectives(c, i, DirSelectionSet, d, head) == FromDirectivesEnd(c, ds.next, DirSelectionSet, d, head + b);
      assert FromDirectivesEnd(c, ds.next, DirSelectionSet, d, head + b) == FromSelectionSet(c, Skip(s, ds.next), d, head + b);
      var xs := ParseSelectionSet(s, Skip(s, ds.next), d, c.limit);
      if xs.Ok? {
        var p, q := [PREF_INLINE_FRAGMENT], if cond.Some? then [PREF_TYPE] + cond.value else [];
        NoBytesAfter(out + p);
        Assoc(out, p + q + b, SerSelectionSet(g, xs.v));
        Assoc(out, p + q, b);
        Assoc(out, p, q);
      }
    }
  }

  function ParseSpread(s: bytes, i: nat, n: bytes, limit: nat): (r: R<Selection>)
    requires i <= |s|
    ensures r.Ok? ==> r.next <= |s|
  {
    var (ds, j) :- ParseDirectives(s, i, false, limit);
    Ok(FragmentSpread(n, ds), Skip(s, j))
  }

  lemma SpreadStep(c: Context, i: nat, n: bytes, d: nat, out: bytes)
    requires i <= |c.src| && d > 0
    ensures FromDirectives(c, i, DirSpread, d, out + ([PREF_SPREAD] + n))
              == FromSelectionRead(c, ParseSpread(c.src, i, n, c.limit), d, out)
  {
    var ds := ParseDirectives(c.src, i, false, c.limit);
    if ds.Ok? {
      Assoc(out, [PREF_SPREAD] + n, SerDirectives(c.ignore, ds.v));
      assert FromDirectives(c, i, DirSpread, d, out + ([PREF_SPREAD] + n))
          == FromDirectivesEnd(c, ds.next, DirSpread, d, out + ([PREF_SPREAD] + n) + SerDirectives(c.ignore, ds.v));
    }
  }

  lemma EllipsisDot(s: bytes, i: nat)
    requires i < |s|
    ensures HasPrefixAt(s, i, ELLIPSIS) ==> s[i] == DOT
  {
    if HasPrefixAt(s, i, ELLIPSIS) {
      assert s[i..i + 3][0] == ELLIPSIS[0];
    }
  }

  lemma EndIsNoSelection(c: Context, h: Here)
    requires Shape(c, h) && h.at.SelectionL? && h.i == |c.src|
    ensures !HasPrefixAt(c.src, h.i, ELLIPSIS)
    ensures AtField(c, h) == Reject(UnexpectedEOF, h.i)
  {
    hide Meaning;
  }

  lemma EllipsisStep(c: Context, h: Here)
    requires Shape(c, h) && h.at.SelectionL? && HasPrefixAt(c.src, h.i, ELLIPSIS)
    ensures FromSelection(c, h.i, h.r.depth, h.out) == AfterEllipsis(c, h, Skip(c.src, h.i + 3))
  {
    hide HasPrefixAt, IsKeywordAt, Skip, FromSelection, AfterEllipsis, NameEnd;
    var s, j := c.src, Skip(c.src, h.i + 3);
    if IsKeywordAt(s, j, KW_ON) {
      ConditionStep(c, h, j);
    } else if Name(s, j).Ok? {
      NamedSpreadStep(c, h, j);
    } else {
      BareInlineStep(c, h, j);
    }
  }

  lemma ConditionStep(c: Context, h: Here, j: nat)
    requires Shape(c, h) && h.at.SelectionL? && HasPrefixAt(c.src, h.i, ELLIPSIS) && j == Skip(c.src, h.i + 3)
    requires IsKeywordAt(c.src, j, KW_ON)
    ensures FromSelection(c, h.i, h.r.depth, h.out) == AfterEllipsis(c, h, j)
  {
    hide HasPrefixAt, IsKeywordAt, Skip, NameEnd, FromDefinition, FromDefinitionEnd, FromFragment, FromAfterSelection,
         FromSelectionSet, FromFieldAfterDirectives, FromDirectives, FromVariableEnd, FromVariable, FromTypeAfter,
         FromType, FromArguments, FromArgumentsRest, FromAfterValue, FromValue, FromObjectField, ParseDirectives,
         ParseInline, ParseFieldRest, SerSelection;
    var s := c.src;
    var t := Name(s, Skip(s, j + 2));
    if t.Ok? {
      InlineStep(c, Skip(s, t.next), Some(t.v), h.r.depth, h.out);
    }
  }

  lemma NamedSpreadStep(c: Context, h: Here, j: nat)
    requires Shape(c, h) && h.at.SelectionL? && HasPrefixAt(c.src, h.i, ELLIPSIS) && j == Skip(c.src, h.i + 3)
    requires !IsKeywordAt(c.src, j, KW_ON) && Name(c.src, j).Ok?
    ensures FromSelection(c, h.i, h.r.depth, h.out) == AfterEllipsis(c, h, j)
  {
    hide HasPrefixAt, IsKeywordAt, Skip, NameEnd, FromDefinition, FromDefinitionEnd, FromFragment, FromAfterSelection,
         FromSelectionSet, FromFieldAfterDirectives, FromDirectives, FromVariableEnd, FromVariable, FromTypeAfter,
         FromType, FromArguments, FromArgumentsRest, FromAfterValue, FromValue, FromObjectField, ParseDirectives,
         ParseInline, ParseFieldRest, SerSelection;
    SpreadStep(c, Skip(c.src, Name(c.src, j).next), Name(c.src, j).v, h.r.depth, h.out);
  }

  lemma BareInlineStep(c: Context, h: Here, j: nat)
    requires Shape(c, h) && h.at.SelectionL? && HasPrefixAt(c.src, h.i, ELLIPSIS) && j == Skip(c.src, h.i + 3)
    requires !IsKeywordAt(c.src, j, KW_ON) && !Name(c.src, j).Ok?
    ensures FromSelection(c, h.i, h.r.depth, h.out) == AfterEllipsis(c, h, j)
  {
    hide HasPrefixAt, IsKeywordAt, Skip, NameEnd, FromDefinition, FromDefinitionEnd, FromFragment, FromAfterSelection,
         FromSelectionSet, FromFieldAfterDirectives, FromDirectives, FromVariableEnd, FromVariable, FromTypeAfter,
         FromType, FromArguments, FromArgumentsRest, FromAfterValue, FromValue, FromObjectField, ParseDirectives,
         ParseInline, ParseFieldRest, SerSelection;
    InlineStep(c, j, None, h.r.depth, h.out);
  }

  function AtField(c: Context, h: Here): Outcome
    requires Shape(c, h) && h.at.SelectionL?
  {
    var s := c.src;
    match Name(s, h.i)
    case Err(e, p) => Reject(e, p)
    case Ok(n, j) =>
      var k, out := Skip(s, j), h.out + ([PREF_FIELD] + n);
      if k == |s| then Reject(UnexpectedEOF, k)
      else if s[k] != COLON then Meaning(c, AfterFieldName(c, h, k, out))
      else
        match Name(s, Skip(s, k + 1))
        case Err(e, p) => Reject(e, p)
        case Ok(m, e) =>
          var f := Skip(s, e);
          if f == |s| then Reject(UnexpectedEOF, f)
          else Meaning(c, AfterFieldName(c, h, f, out + ([PREF_ALIASED_NAME] + m)))
  }

  /** What a field writes before its arguments. */
  function FieldHead(alias: Option<bytes>, name: bytes): bytes {
    [PREF_FIELD] + (if alias.Some? then alias.value + [PREF_ALIASED_NAME] else []) + name
  }

  lemma FieldHeadPlain(n: bytes)
    ensures FieldHead(None, n) == [PREF_FIELD] + n
  {
  }

  lemma FieldHeadAliased(out: bytes, n: bytes, m: bytes)
    ensures out + FieldHead(Some(n), m) == out + ([PREF_FIELD] + n) + ([PREF_ALIASED_NAME] + m)
  {
  }

  /** The name of a field and its alias are read: its arguments or its directives follow. */
  function AfterFieldName(c: Context, h: Here, i: nat, out: bytes): Here
    requires i < |c.src|
  {
    if c.src[i] == LPAREN then h.(at := ArgsL, i := i, r := h.r.(arg := ArgField), out := out)
    else h.(at := FieldDirectivesL, i := i, out := out)
  }

  lemma FieldRestStep(c: Context, h: Here, i: nat, alias: Option<bytes>, name: bytes, out: bytes)
    requires Shape(c, h) && h.at.SelectionL? && i < |c.src|
    requires out == h.out + FieldHead(alias, name)
    ensures Meaning(c, AfterFieldName(c, h, i, out))
              == FromSelectionRead(c, ParseFieldRest(c.src, i, alias, name, h.r.depth, c.limit), h.r.depth, h.out)
  {
    hide IsKeywordAt, Skip, FromDefinition, FromDefinitionEnd, FromFragment, FromAfterSelection, FromSelectionSet,
         FromSelection, FromFieldAfterDirectives, FromDirectives, FromVariableEnd, FromVariable, FromTypeAfter,
         FromType, FromArgumentsRest, FromAfterValue, FromValue, FromObjectField, ParseArguments, ParseDirectives,
         ParseSelectionSet, SerSelection, SerArguments;
    var s, d, g := c.src, h.r.depth, c.ignore;
    var xs := FieldArguments(s, i, c.limit);
    if xs.Ok? {
      FieldTailStep(c, xs.next, d, alias, name, xs.v, h.out, out);
      assert SerArguments(g, []) == [] by { SerArgumentsNil(g); }
      NoBytesAfter(out);
    }
  }

  lemma SerArgumentsNil(g: Ignore)
    ensures SerArguments(g, []) == []
  {
  }

  /** The directives and the selection set of a field, and the field they complete. */
  function ParseFieldTail(s: bytes, i: nat, d: nat, limit: nat, alias: Option<bytes>, name: bytes, xs: seq<Argument>): (r: R<Selection>)
    requires i <= |s|
    ensures r.Ok? ==> r.next <= |s|
  {
    var (ds, j) :- ParseDirectives(s, i, false, limit);
    var (b, k) :- Peek(s, Skip(s, j));
    if b == LBRACE then
      var (ss, m) :- ParseSelectionSet(s, k, d, limit);
      Ok(Field(alias, name, xs, ds, ss), Skip(s, m))
    else Ok(Field(alias, name, xs, ds, []), k)
  }

  /** The directives and the selection set of a field whose arguments are written. */
  lemma FieldTailStep(c: Context, i: nat, d: nat, alias: Option<bytes>, name: bytes, xs: seq<Argument>, out: bytes, named: bytes)
    requires i <= |c.src| && d > 0
    requires named == out + FieldHead(alias, name)
    ensures FromDirectives(c, i, DirField, d, named + SerArguments(c.ignore, xs))
              == FromSelectionRead(c, ParseFieldTail(c.src, i, d, c.limit, alias, name, xs), d, out)
  {
    hide IsKeywordAt, Skip, FromDefinition, FromDefinitionEnd, FromFragment, FromAfterSelection, FromSelection,
         FromVariableEnd, FromVariable, FromTypeAfter, FromType, FromArguments, FromArgumentsRest, FromAfterValue,
         FromValue, FromObjectField, ParseDirectives, ParseSelectionSet, SerSelections, SerDirectives, SerArguments;
    var s, g := c.src, c.ignore;
    var ds := ParseDirectives(s, i, false, c.limit);
    if ds.Ok? {
      var p := FieldHead(alias, name);
      var a, b := SerArguments(g, xs), SerDirectives(g, ds.v);
      Assoc(out, p + a, b);
      Assoc(out, p, a);
      NoBytesAfter(p + a + b);
      var k := Skip(s, ds.next);
      if k < |s| && s[k] == LBRACE {
        var ss := ParseSelectionSet(s, k, d, c.limit);
        if ss.Ok? {
          Assoc(out, p + a + b, SerSelectionSet(g, ss.v));
        }
      }
    }
  }

  lemma FieldStep(c: Context, h: Here)
    requires Shape(c, h) && h.at.SelectionL? && !HasPrefixAt(c.src, h.i, ELLIPSIS)
    ensures FromSelection(c, h.i, h.r.depth, h.out) == AtField(c, h)
  {
    hide HasPrefixAt, IsKeywordAt, Skip, NameEnd, FromAfterSelection, ParseDirectives, ParseInline, ParseFieldRest,
         SerSelection;
    hide FieldHead, AfterFieldName, Meaning;
    var s, n := c.src, Name(c.src, h.i);
    if n.Ok? {
      var k, out := Skip(s, n.next), h.out + ([PREF_FIELD] + n.v);
      if k < |s| && s[k] != COLON {
        FieldHeadPlain(n.v);
        FieldRestStep(c, h, k, None, n.v, out);
      } else if k < |s| {
        var m := Name(s, Skip(s, k + 1));
        if m.Ok? && Skip(s, m.next) < |s| {
          FieldHeadAliased(h.out, n.v, m.v);
          FieldRestStep(c, h, Skip(s, m.next), Some(n.v), m.v, out + ([PREF_ALIASED_NAME] + m.v));
        }
      }
    }
  }

  // ----- Directives

  lemma DirectivesEndStep(c: Context, h: Here)
    requires Shape(c, h) && h.at.DirectivesL? && (h.i == |c.src| || c.src[h.i] != AT)
    ensures Meaning(c, h) ==
            match h.r.dir
            case DirVarDef => Meaning(c, h.(at := VarDefEndL))
            case DirField => Meaning(c, h.(at := FieldAfterDirectivesL))
            case DirSpread => Meaning(c, h.(at := AfterSelectionL, i := Skip(c.src, h.i)))
            case DirSelectionSet => Meaning(c, h.(at := SelSetL, i := Skip(c.src, h.i)))
  {
    hide IsKeywordAt, Skip, NameEnd, FromDefinition, FromDefinitionEnd, FromFragment, FromAfterSelection,
         FromSelectionSet, FromSelection, FromFieldAfterDirectives, FromVariableEnd, FromVariable, FromTypeAfter,
         FromType, FromArguments, FromArgumentsRest, FromAfterValue, FromValue, FromObjectField, ParseArguments,
         SerDirectives;
    assert SerDirectives(c.ignore, []) == [] by { SerDirectivesNil(c.ignore); }
    NoBytesAfter(h.out);
    assert FromDirectives(c, h.i, h.r.dir, h.r.depth, h.out) == FromDirectivesEnd(c, h.i, h.r.dir, h.r.depth, h.out);
  }

  lemma SerDirectivesNil(g: Ignore)
    ensures SerDirectives(g, []) == []
  {
  }

  /** At an '@': the name of the directive, then its arguments or the next directive. */
  function AtDirective(c: Context, h: Here): Outcome
    requires Shape(c, h) && h.at.DirectivesL? && h.i < |c.src|
  {
    var s := c.src;
    match Name(s, Skip(s, h.i + 1))
    case Err(e, p) => Reject(e, p)
    case Ok(n, j) =>
      var k := Skip(s, j);
      var out := h.out + Unless(h.r.dir.DirVarDef? && c.ignore.Variables?, [PREF_DIRECTIVE] + n);
      if k == |s| then Reject(UnexpectedEOF, k)
      else if s[k] == LPAREN then Meaning(c, h.(at := ArgsL, i := k, r := h.r.(arg := ArgDirective), out := out))
      else Meaning(c, h.(i := k, out := out))
  }

  lemma DirectiveStep(c: Context, h: Here)
    requires Shape(c, h) && h.at.DirectivesL? && h.i < |c.src| && c.src[h.i] == AT
    ensures Meaning(c, h) == AtDirective(c, h)
  {
    hide IsKeywordAt, Skip, FromDefinition, FromDefinitionEnd, FromFragment, FromAfterSelection, FromSelectionSet,
         FromSelection, FromFieldAfterDirectives, FromDirectivesEnd, FromVariableEnd, FromVariable, FromTypeAfter,
         FromType, FromArgumentsRest, FromAfterValue, FromValue, FromObjectField, ParseArguments, SerDirectives,
         SerArguments;
    hide Name;
    var n := Name(c.src, Skip(c.src, h.i + 1));
    if n.Ok? && Skip(c.src, n.next) < |c.src| {
      if c.src[Skip(c.src, n.next)] == LPAREN {
        DirectiveArguments(c, h);
      } else {
        DirectiveAlone(c, h);
      }
    }
  }

  predicate DirectiveNamed(c: Context, h: Here) {
    && Shape(c, h) && h.at.DirectivesL? && h.i < |c.src| && c.src[h.i] == AT
    && Name(c.src, Skip(c.src, h.i + 1)).Ok? && Skip(c.src, Name(c.src, Skip(c.src, h.i + 1)).next) < |c.src|
  }

  lemma DirectiveArguments(c: Context, h: Here)
    requires DirectiveNamed(c, h) && c.src[Skip(c.src, Name(c.src, Skip(c.src, h.i + 1)).next)] == LPAREN
    ensures Meaning(c, h) == AtDirective(c, h)
  {
    hide IsKeywordAt, Skip, FromDefinition, FromDefinitionEnd, FromFragment, FromAfterSelection, FromSelectionSet,
         FromSelection, FromFieldAfterDirectives, FromDirectivesEnd, FromVariableEnd, FromVariable, FromTypeAfter,
         FromType, FromArgumentsRest, FromAfterValue, FromValue, FromObjectField, ParseArguments, SerDirectives,
         SerArguments;
    hide Name;
    var s, v, n := c.src, h.r.dir.DirVarDef?, Name(c.src, Skip(c.src, h.i + 1));
    var xs := ParseArguments(s, Skip(s, Skip(s, n.next) + 1), v, c.limit);
    if xs.Ok? {
      DirectiveWritten(c, h, Directive(n.v, xs.v), ParseDirectives(s, Skip(s, xs.next), v, c.limit));
    }
  }

  lemma DirectiveAlone(c: Context, h: Here)
    requires DirectiveNamed(c, h) && c.src[Skip(c.src, Name(c.src, Skip(c.src, h.i + 1)).next)] != LPAREN
    ensures Meaning(c, h) == AtDirective(c, h)
  {
    hide IsKeywordAt, Skip, FromDefinition, FromDefinitionEnd, FromFragment, FromAfterSelection, FromSelectionSet,
         FromSelection, FromFieldAfterDirectives, FromDirectivesEnd, FromVariableEnd, FromVariable, FromTypeAfter,
         FromType, FromArgumentsRest, FromAfterValue, FromValue, FromObjectField, ParseArguments, SerDirectives,
         SerArguments;
    hide Name;
    var s, n := c.src, Name(c.src, Skip(c.src, h.i + 1));
    DirectiveWritten(c, h, Directive(n.v, []), ParseDirectives(s, Skip(s, n.next), h.r.dir.DirVarDef?, c.limit));
  }

  /** One directive more is written before the others. */
  lemma DirectiveWritten(c: Context, h: Here, d: Directive, ds: R<seq<Directive>>)
    ensures var g := c.ignore;
            var m := h.r.dir.DirVarDef? && g.Variables?;
            ds.Ok? ==> h.out + Unless(m, SerDirectives(g, [d] + ds.v))
                       == h.out + Unless(m, [PREF_DIRECTIVE] + d.name) + Unless(m, SerArguments(g, d.arguments)) + Unless(m, SerDirectives(g, ds.v))
    ensures var head := h.out + Unless(h.r.dir.DirVarDef? && c.ignore.Variables?, [PREF_DIRECTIVE] + d.name);
            d.arguments == [] ==> head + Unless(h.r.dir.DirVarDef? && c.ignore.Variables?, SerArguments(c.ignore, d.arguments)) == head
  {
    if ds.Ok? {
      CatDirective(h.out, h.r.dir.DirVarDef? && c.ignore.Variables?, c.ignore, d, ds.v);
    }
    SerArgumentsNil(c.ignore);
    NoBytesAfter(h.out + Unless(h.r.dir.DirVarDef? && c.ignore.Variables?, [PREF_DIRECTIVE] + d.name));
  }

  lemma CatDirective(out: bytes, m: bool, g: Ignore, d: Directive, ds: seq<Directive>)
    ensures out + Unless(m, SerDirectives(g, [d] + ds))
              == out + Unless(m, [PREF_DIRECTIVE] + d.name) + Unless(m, SerArguments(g, d.arguments)) + Unless(m, SerDirectives(g, ds))
  {
    if m {
      NoBytesAfter(out);
    } else {
      SerDirectivesCons(g, d, ds);
      Assoc(out, SerDirective(g, d), SerDirectives(g, ds));
      Assoc(out, [PREF_DIRECTIVE] + d.name, SerArguments(g, d.arguments));
    }
  }

  // ----- Arguments

  /** The name of an argument and its colon, then its value. */
  function AtArgument(c: Context, h: Here): Outcome
    requires Shape(c, h) && h.at.ArgsNextL?
  {
    var s := c.src;
    match Name(s, h.i)
    case Err(e, p) => Reject(e, p)
    case Ok(n, j) =>
      match Expect(s, Skip(s, j), COLON)
      case Err(e, p) => Reject(e, p)
      case Ok(_, k) =>
        Meaning(c, h.(at := ValueL, i := Skip(s, k), r := h.r.(val := ValArgument),
                      out := h.out + Unless(ArgInVariables(h.r) && c.ignore.Variables?, [PREF_ARGUMENT] + n)))
  }

  lemma ArgumentStep(c: Context, h: Here)
    requires Shape(c, h) && h.at.ArgsNextL?
    ensures Meaning(c, h) == AtArgument(c, h)
  {
    hide IsKeywordAt, Skip, NameEnd, FromDefinition, FromDefinitionEnd, FromFragment, FromAfterSelection,
         FromSelectionSet, FromSelection, FromFieldAfterDirectives, FromDirectives, FromVariableEnd, FromVariable,
         FromTypeAfter, FromType, FromObjectField, ParseValue, ParseItems, ParseFields, ArgumentsRest,
         ParseDefinition, SerArguments, SerDefinition, EncValue, EncItems, EncFields;
    var s, g, v := c.src, c.ignore, ArgInVariables(h.r);
    var m := v && g.Variables?;
    var n := Name(s, h.i);
    if n.Ok? {
      var k := Expect(s, Skip(s, n.next), COLON);
      if k.Ok? {
        var x := ParseValue(s, Skip(s, k.next), v, c.limit);
        if x.Ok? {
          var out := h.out + Unless(m, [PREF_ARGUMENT] + n.v);
          NoBytesAfter(out + SerValue(g, x.v));
          var xs := ArgumentsRest(s, x.next, v, c.limit);
          if xs.Ok? {
            CatArgument(h.out, m, g, Argument(n.v, x.v), xs.v);
          }
        }
      }
    }
  }

  lemma CatArgument(out: bytes, m: bool, g: Ignore, a: Argument, xs: seq<Argument>)
    requires m ==> g.Variables?
    ensures out + Unless(m, SerArguments(g, [a] + xs))
              == out + Unless(m, [PREF_ARGUMENT] + a.name) + SerValue(g, a.value) + Unless(m, SerArguments(g, xs))
  {
    if m {
      NoBytesAfter(out);
    } else {
      SerArgumentsCons(g, a, xs);
      Assoc(out, SerArgument(g, a), SerArguments(g, xs));
      Assoc(out, [PREF_ARGUMENT] + a.name, SerValue(g, a.value));
    }
  }

  lemma ArgsStep(c: Context, h: Here)
    requires Shape(c, h) && h.at.ArgsL?
    ensures Meaning(c, h) == Meaning(c, h.(at := ArgsNextL, i := Skip(c.src, h.i + 1)))
  {
    hide IsKeywordAt, Skip, FromDefinition, FromDefinitionEnd, FromFragment, FromAfterSelection, FromSelectionSet,
         FromSelection, FromFieldAfterDirectives, FromDirectives, FromVariableEnd, FromVariable, FromTypeAfter,
         FromType, FromArguments, FromArgumentsRest, FromAfterValue, FromValue, FromObjectField;
  }

  lemma ArgsAfterValueStep(c: Context, h: Here)
    requires Shape(c, h) && h.at.ArgsAfterValueL?
    ensures var s, j := c.src, Skip(c.src, h.i);
            Meaning(c, h) ==
            if j == |s| then Reject(UnexpectedEOF, j)
            else if s[j] != RPAREN then Meaning(c, h.(at := ArgsNextL, i := j))
            else if h.r.arg.ArgField? then Meaning(c, h.(at := FieldAfterArgsL, i := j + 1))
            else Meaning(c, h.(at := DirectivesL, i := Skip(s, j + 1)))
  {
    hide IsKeywordAt, Skip, FromDefinition, FromDefinitionEnd, FromFragment, FromAfterSelection, FromSelectionSet,
         FromSelection, FromFieldAfterDirectives, FromDirectives, FromVariableEnd, FromVariable, FromTypeAfter,
         FromType, FromAfterValue, FromValue, FromObjectField, ParseArguments, ParseDefinition, SerArguments,
         SerDefinition;
    SerArgumentsNil(c.ignore);
    NoBytesAfter(h.out);
  }

  // ----- Types and variable definitions

  lemma TypeStep(c: Context, h: Here)
    requires Shape(c, h) && h.at.TypeL?
    ensures var s, m := c.src, c.ignore.Variables?;
            Meaning(c, h) ==
            if h.i < |s| && s[h.i] == LBRACKET then
              Meaning(c, h.(i := Skip(s, h.i + 1), typeDepth := h.typeDepth + 1, out := h.out + Unless(m, [LBRACKET])))
            else
              match Name(s, h.i)
              case Err(e, p) => Reject(e, p)
              case Ok(n, j) => Meaning(c, h.(at := TypeAfterL, i := j, out := h.out + Unless(m, n)))
  {
    hide HasPrefixAt, IsKeywordAt, Skip, NameEnd, FromDefinition, FromDefinitionEnd, FromFragment, FromAfterSelection,
         FromSelectionSet, FromSelection, FromFieldAfterDirectives, FromDirectives, FromVariableEnd, FromVariable,
         FromDefault, FromArguments, FromArgumentsRest, FromAfterValue, FromValue, FromObjectField, ParseDefinition,
         SerDefinition;
    var s, m, d := c.src, c.ignore.Variables?, h.typeDepth;
    if h.i < |s| && s[h.i] == LBRACKET {
      var t := ParseType(s, Skip(s, h.i + 1));
      if t.Ok? {
        var k := Expect(s, Skip(s, t.next), RBRACKET);
        if k.Ok? {
          CatListType(h.out, m, s, k.next, t.v);
        }
      }
    } else {
      var n := Name(s, h.i);
      if n.Ok? {
        CatNamedType(h.out, m, s, n.next, n.v);
      }
    }
  }

  lemma CatListType(out: bytes, m: bool, s: bytes, k: nat, t: Type)
    requires k <= |s|
    ensures out + Unless(m, [LBRACKET]) + Unless(m, TypeText(t)) + Unless(m, [RBRACKET] + Bang(s, k))
              == out + Unless(m, TypeText(Banged(s, k, ListType(t))))
  {
    hide Skip;
    NoBytesAfter(out);
    NoBytesAfter([RBRACKET]);
    if !m {
      var a, b, e := [LBRACKET], TypeText(t), [RBRACKET];
      Assoc(out, a + b, e + Bang(s, k));
      Assoc(out, a, b);
      Assoc(a + b, e, Bang(s, k));
    }
  }

  lemma CatNamedType(out: bytes, m: bool, s: bytes, k: nat, n: bytes)
    requires k <= |s|
    ensures out + Unless(m, n) + Unless(m, Bang(s, k)) == out + Unless(m, TypeText(Banged(s, k, Named(n))))
  {
    hide Skip;
    NoBytesAfter(out);
    NoBytesAfter(out + n);
    Assoc(out, n, [BANG]);
  }

  /** A '!' if there is one, then the closing bracket of the list around the type. */
  lemma TypeAfterStep(c: Context, h: Here)
    requires Shape(c, h) && h.at.TypeAfterL? && h.typeDepth > 0
    ensures var s, m := c.src, c.ignore.Variables?;
            var out := h.out + Unless(m, Bang(s, h.i));
            Meaning(c, h) ==
            match Expect(s, Skip(s, BangEnd(s, h.i)), RBRACKET)
            case Err(e, p) => Reject(e, p)
            case Ok(_, k) =>
              Meaning(c, h.(i := k, typeDepth := h.typeDepth - 1, out := out + Unless(m, [RBRACKET])))
  {
    hide IsKeywordAt, Skip, FromDefinition, FromDefinitionEnd, FromFragment, FromAfterSelection, FromSelectionSet,
         FromSelection, FromFieldAfterDirectives, FromDirectives, FromVariableEnd, FromVariable, FromDefault,
         FromType, FromArguments, FromArgumentsRest, FromAfterValue, FromValue, FromObjectField;
    var s, m := c.src, c.ignore.Variables?;
    var out := h.out + Unless(m, Bang(s, h.i));
    var k := Expect(s, Skip(s, BangEnd(s, h.i)), RBRACKET);
    if k.Ok? {
      Assoc(out, [RBRACKET], Bang(s, k.next));
      NoBytesAfter(out);
      assert FromTypeClose(c, BangEnd(s, h.i), h.typeDepth, out)
          == FromTypeClose(c, BangEnd(s, k.next), h.typeDepth - 1, out + Unless(m, [RBRACKET] + Bang(s, k.next)));
    }
  }

  /** A '!' if there is one, then a default value or the directives. */
  lemma TypeEndStep(c: Context, h: Here)
    requires Shape(c, h) && h.at.TypeAfterL? && h.typeDepth == 0
    ensures var s, j := c.src, Skip(c.src, BangEnd(c.src, h.i));
            var out := h.out + Unless(c.ignore.Variables?, Bang(s, h.i));
            Meaning(c, h) ==
            if j == |s| then Reject(UnexpectedEOF, j)
            else if s[j] == EQUALS then
              Meaning(c, h.(at := ValueL, i := Skip(s, j + 1), r := h.r.(val := ValDefault), out := out))
            else Meaning(c, h.(at := VarDefDirectivesL, i := j, out := out))
  {
    hide IsKeywordAt, Skip, FromDefinition, FromDefinitionEnd, FromFragment, FromAfterSelection, FromSelectionSet,
         FromSelection, FromFieldAfterDirectives, FromDirectives, FromVariableEnd, FromVariable, FromType,
         FromArguments, FromArgumentsRest, FromObjectField, ParseValue, ParseItems, ParseFields, EncValue, EncItems,
         EncFields;
    var s, j := c.src, Skip(c.src, BangEnd(c.src, h.i));
    var out := h.out + Unless(c.ignore.Variables?, Bang(s, h.i));
    NoBytesAfter(out);
    if j < |s| && s[j] == EQUALS {
      var v := ParseValue(s, Skip(s, j + 1), true, c.limit);
      if v.Ok? {
        NoBytesAfter(out + SerValue(c.ignore, v.v));
      }
    }
  }

  lemma DefaultEndStep(c: Context, h: Here)
    requires Shape(c, h) && h.at.VarDefAfterDefaultL?
    ensures Meaning(c, h) == Meaning(c, h.(at := VarDefDirectivesL, i := Skip(c.src, h.i)))
  {
    hide IsKeywordAt, Skip, FromDefinition, FromDefinitionEnd, FromFragment, FromAfterSelection, FromSelectionSet,
         FromSelection, FromFieldAfterDirectives, FromDirectives, FromVariableEnd, FromVariable, FromTypeAfter,
         FromType, FromArguments, FromArgumentsRest, FromAfterValue, FromValue, FromObjectField;
  }

  lemma VarDefDirectivesStep(c: Context, h: Here)
    requires Shape(c, h) && h.at.VarDefDirectivesL?
    ensures Meaning(c, h) == Meaning(c, h.(at := DirectivesL, r := h.r.(dir := DirVarDef)))
  {
    hide IsKeywordAt, Skip, FromDefinition, FromDefinitionEnd, FromFragment, FromAfterSelection, FromSelectionSet,
         FromSelection, FromFieldAfterDirectives, FromDirectives, FromVariableEnd, FromVariable, FromTypeAfter,
         FromType, FromArguments, FromArgumentsRest, FromAfterValue, FromValue, FromObjectField;
  }

  lemma VarDefEndStep(c: Context, h: Here)
    requires Shape(c, h) && h.at.VarDefEndL?
    ensures var s, j := c.src, Skip(c.src, h.i);
            Meaning(c, h) ==
            if j == |s| then Reject(UnexpectedEOF, j)
            else if s[j] != RPAREN then Meaning(c, h.(at := VarDefL, i := j))
            else Meaning(c, h.(at := DirectivesL, i := Skip(s, j + 1), r := h.r.(dir := DirSelectionSet)))
  {
    hide IsKeywordAt, Skip, FromDefinition, FromDefinitionEnd, FromFragment, FromAfterSelection, FromSelectionSet,
         FromSelection, FromFieldAfterDirectives, FromDirectives, FromTypeAfter, FromType, FromArguments,
         FromArgumentsRest, FromAfterValue, FromValue, FromObjectField, ParseVariables, SerVariables;
    SerVariablesNil(c.ignore);
    NoBytesAfter(h.out);
  }

  lemma SerVariablesNil(g: Ignore)
    ensures SerVariables(g, []) == []
  {
  }

  /** The description of a variable definition and the dollar sign, then its name. */
  function AtVariable(c: Context, h: Here): Outcome
    requires Shape(c, h) && h.at.VarDefL?
  {
    match Description(c.src, h.i)
    case Err(e, p) => Reject(e, p)
    case Ok(_, j) =>
      match Expect(c.src, j, DOLLAR)
      case Err(e, p) => Reject(e, p)
      case Ok(_, k) => AtVariableName(c, h, Skip(c.src, k))
  }

  /** The name and the colon, then the type. */
  function AtVariableName(c: Context, h: Here, i: nat): Outcome
    requires Shape(c, h) && h.at.VarDefL? && i <= |c.src|
  {
    match Name(c.src, i)
    case Err(e, p) => Reject(e, p)
    case Ok(n, j) =>
      match Expect(c.src, Skip(c.src, j), COLON)
      case Err(e, p) => Reject(e, p)
      case Ok(_, k) =>
        Meaning(c, h.(at := TypeL, i := Skip(c.src, k),
                      out := h.out + Unless(c.ignore.Variables?, [PREF_VARIABLE_DEFINITION] + n + [PREF_TYPE])))
  }

  lemma VarDefStep(c: Context, h: Here)
    requires Shape(c, h) && h.at.VarDefL?
    ensures Meaning(c, h) == AtVariable(c, h)
  {
    hide IsKeywordAt, Skip, NameEnd, FromDefinition, FromDefinitionEnd, FromFragment, FromAfterSelection,
         FromSelectionSet, FromSelection, FromFieldAfterDirectives, FromDirectives, FromVariableEnd, FromTypeAfter,
         FromType, FromArguments, FromArgumentsRest, FromAfterValue, FromValue, FromObjectField, ParseDirectives,
         ParseType, ParseDefault, VariablesRest, Description, SerVariables;
    var s, g := c.src, c.ignore;
    var d := Description(s, h.i);
    if d.Ok? {
      var i2 := Expect(s, d.next, DOLLAR);
      if i2.Ok? {
        var n := Name(s, Skip(s, i2.next));
        if n.Ok? {
          var i4 := Expect(s, Skip(s, n.next), COLON);
          if i4.Ok? {
            VariableTailStep(c, Skip(s, i4.next), d.v, n.v, h.out);
          }
        }
      }
    }
  }

  /** The type, the default value and the directives of a variable definition. */
  function ParseVariableTail(s: bytes, i: nat, limit: nat, d: Option<bytes>, n: bytes): (r: R<VariableDefinition>)
    requires i <= |s|
    ensures r.Ok? ==> i < r.next <= |s|
  {
    var (t, i5) :- ParseType(s, i);
    var (v, i6) :- ParseDefault(s, i5, limit);
    var (ds, i7) :- ParseDirectives(s, i6, true, limit);
    Ok(VariableDefinition(d, n, t, v, ds), i7)
  }

  /** After a variable definition, which is not written yet. */
  function FromVariableRead(c: Context, x: R<VariableDefinition>, out: bytes): Outcome
    requires x.Ok? ==> x.next <= |c.src|
  {
    match x
    case Err(e, p) => Reject(e, p)
    case Ok(v, j) =>
      match VariablesRest(c.src, j, c.limit)
      case Err(e, p) => Reject(e, p)
      case Ok(vs, k) =>
        FromDirectives(c, Skip(c.src, k), DirSelectionSet, 0,
                       out + Unless(c.ignore.Variables?, SerVariables(c.ignore, [v] + vs)))
  }

  lemma VariableTailStep(c: Context, i: nat, d: Option<bytes>, n: bytes, out: bytes)
    requires i <= |c.src|
    ensures FromType(c, i, 0, out + Unless(c.ignore.Variables?, [PREF_VARIABLE_DEFINITION] + n + [PREF_TYPE]))
              == FromVariableRead(c, ParseVariableTail(c.src, i, c.limit, d, n), out)
  {
    hide IsKeywordAt, Skip, FromDefinition, FromDefinitionEnd, FromFragment, FromAfterSelection, FromSelectionSet,
         FromSelection, FromFieldAfterDirectives, FromVariable, FromTypeAfter, FromArguments, FromArgumentsRest,
         FromAfterValue, FromValue, FromObjectField, ParseDirectives, ParseType, ParseDefault, VariablesRest,
         SerDirectives, SerVariables, EncValue, TypeText;
    var s, g := c.src, c.ignore;
    var m, head := g.Variables?, out + Unless(g.Variables?, [PREF_VARIABLE_DEFINITION] + n + [PREF_TYPE]);
    var t := ParseType(s, i);
    if t.Ok? {
      var head1 := head + Unless(m, TypeText(t.v));
      assert FromType(c, i, 0, head) == FromDefault(c, t.next, head1);
      var v := ParseDefault(s, t.next, c.limit);
      if v.Ok? {
        var head2 := head1 + SerDefault(g, v.v);
        var ds := ParseDirectives(s, v.next, true, c.limit);
        if ds.Ok? {
          assert FromDirectives(c, v.next, DirVarDef, 0, head2)
              == FromDirectivesEnd(c, ds.next, DirVarDef, 0, head2 + Unless(m, SerDirectives(g, ds.v)));
          assert FromDirectivesEnd(c, ds.next, DirVarDef, 0, head2 + Unless(m, SerDirectives(g, ds.v)))
              == FromVariableEnd(c, ds.next, head2 + Unless(m, SerDirectives(g, ds.v)));
          var vs := VariablesRest(s, ds.next, c.limit);
          if vs.Ok? {
            CatVariable(out, g, VariableDefinition(d, n, t.v, v.v, ds.v), vs.v);
          }
        }
      }
    }
  }

  lemma CatVariable(out: bytes, g: Ignore, v: VariableDefinition, vs: seq<VariableDefinition>)
    ensures var m := g.Variables?;
            out + Unless(m, [PREF_VARIABLE_DEFINITION] + v.name + [PREF_TYPE]) + Unless(m, TypeText(v.ty))
            + SerDefault(g, v.default) + Unless(m, SerDirectives(g, v.directives)) + Unless(m, SerVariables(g, vs))
              == out + Unless(m, SerVariables(g, [v] + vs))
  {
    NoBytesAfter(out);
    if !g.Variables? {
      var a, b, e, f := [PREF_VARIABLE_DEFINITION] + v.name + [PREF_TYPE], TypeText(v.ty), SerDefault(g, v.default), SerDirectives(g, v.directives);
      SerVariablesCons(g, v, vs);
      Assoc(out, SerVariable(g, v), SerVariables(g, vs));
      Assoc(out, a + b + e, f);
      Assoc(out, a + b, e);
      Assoc(out, a, b);
    }
  }

  // ----- Values

  /** The state that a value goes on with, or the error it ends in. */
  function AtValueStart(c: Context, h: Here): Outcome
    requires Shape(c, h) && h.at.ValueL?
  {
    var s, i, j, m := c.src, h.i, if h.i < |c.src| then Skip(c.src, h.i + 1) else 0, !c.ignore.Nothing?;
    if i < |s| && s[i] == LBRACKET && (j == |s| || s[j] != RBRACKET) then
      if |h.stack| >= c.limit then Reject(TooDeep, j)
      else Meaning(c, h.(i := j, stack := h.stack + [ListFrame], out := h.out + Unless(m, [PREF_LIST])))
    else if i < |s| && s[i] == LBRACE && (j == |s| || s[j] != RBRACE) then
      if |h.stack| >= c.limit then Reject(TooDeep, j)
      else Meaning(c, h.(at := ObjectFieldL, i := j, stack := h.stack + [ObjectFrame], out := h.out + Unless(m, [PREF_OBJECT])))
    else
      match ParseLeaf(s, i, ValInVariables(h.r))
      case Err(e, p) => Reject(e, p)
      case Ok(v, k) => Meaning(c, h.(at := AfterValueL, i := k, out := h.out + SerValue(c.ignore, v)))
  }

  /** A value that holds no other: a scalar, or an empty list or input object. */
  function ParseLeaf(s: bytes, i: nat, constant: bool): (r: R<Value>)
    requires i <= |s|
    ensures r.Ok? ==> i < r.next <= |s|
  {
    if i == |s| then Err(UnexpectedEOF, i)
    else if s[i] == DOLLAR then
      if constant then Err(UnexpectedVariable, i)
      else
        var (n, j) :- Name(s, Skip(s, i + 1));
        Ok(Variable(n), j)
    else if s[i] == QUOTE then
      var (t, j) :- StringToken(s, i);
      Ok(StringValue(t), j)
    else if s[i] == LBRACKET && Skip(s, i + 1) < |s| then Ok(ListValue([]), Skip(s, i + 1) + 1)
    else if s[i] == LBRACE && Skip(s, i + 1) < |s| then Ok(ObjectValue([]), Skip(s, i + 1) + 1)
    else if s[i] == MINUS || IsDigit(s[i]) then
      var (isFloat, j) :- Number(s, i);
      Ok(if isFloat then FloatValue(s[i..j]) else IntValue(s[i..j]), j)
    else if IsKeywordAt(s, i, KW_NULL) then Ok(NullValue, i + |KW_NULL|)
    else if IsKeywordAt(s, i, KW_TRUE) then Ok(BooleanValue(true), i + |KW_TRUE|)
    else if IsKeywordAt(s, i, KW_FALSE) then Ok(BooleanValue(false), i + |KW_FALSE|)
    else
      var (n, j) :- Name(s, i);
      Ok(EnumValue(n), j)
  }

  lemma LeafEmpty(s: bytes, i: nat, constant: bool)
    requires i < |s|
    ensures s[i] == LBRACKET && Skip(s, i + 1) < |s| ==>
              ParseLeaf(s, i, constant) == Ok(ListValue([]), Skip(s, i + 1) + 1) && EncValue(ListValue([])) == [PREF_LIST]
    ensures s[i] == LBRACE && Skip(s, i + 1) < |s| ==>
              ParseLeaf(s, i, constant) == Ok(ObjectValue([]), Skip(s, i + 1) + 1) && EncValue(ObjectValue([])) == [PREF_OBJECT]
  {
    hide StringToken, Skip, Number, IsKeywordAt;
    NoBytesAfter([PREF_LIST]);
    NoBytesAfter([PREF_OBJECT]);
  }

  lemma EscapeNil()
    ensures Escape([]) == []
  {
  }

  lemma ValueStep(c: Context, h: Here)
    requires Shape(c, h) && h.at.ValueL?
    ensures Meaning(c, h) == AtValueStart(c, h)
  {
    hide IsKeywordAt, Skip, NameEnd, FromDefinition, FromDefinitionEnd, FromFragment, FromAfterSelection,
         FromSelectionSet, FromSelection, FromFieldAfterDirectives, FromDirectives, FromVariableEnd, FromVariable,
         FromTypeAfter, FromType, FromArguments, FromArgumentsRest, FromAfterValue, FromObjectField, ParseItems,
         ParseField, ParseFields, StringToken, EncValue;
    hide Number;
    var s, i := c.src, h.i;
    if i < |s| && s[i] == LBRACKET && (Skip(s, i + 1) == |s| || s[Skip(s, i + 1)] != RBRACKET) {
      if |h.stack| < c.limit {
        OpenList(c, h, Skip(s, i + 1));
      }
    } else if i < |s| && s[i] == LBRACE && (Skip(s, i + 1) == |s| || s[Skip(s, i + 1)] != RBRACE) {
      if |h.stack| < c.limit {
        OpenObject(c, h, Skip(s, i + 1));
      }
    }
  }

  /** A list that is not empty: what its value comes to, and its first item under one frame more. */
  lemma OpenList(c: Context, h: Here, j: nat)
    requires Shape(c, h) && h.at.ValueL? && j <= |c.src| && |h.stack| < c.limit
    ensures var k, room := ValInVariables(h.r), c.limit - |h.stack|;
            Meaning(c, h.(i := j, stack := h.stack + [ListFrame], out := h.out + Unless(!c.ignore.Nothing?, [PREF_LIST])))
              == FromValueRead(c, ListOf(c.src, j, k, room - 1), h)
  {
    hide IsKeywordAt, Skip, FromDefinition, FromDefinitionEnd, FromFragment, FromAfterSelection, FromSelectionSet,
         FromSelection, FromFieldAfterDirectives, FromDirectives, FromVariableEnd, FromVariable, FromTypeAfter,
         FromType, FromArguments, FromArgumentsRest, FromValueEnd, FromObjectField, ParseValue, ParseItems,
         ParseFields, EncValue, EncItems, EncFields;
    var s, k, room, m := c.src, ValInVariables(h.r), c.limit - |h.stack|, !c.ignore.Nothing?;
    var stack := h.stack + [ListFrame];
    assert stack[..|stack| - 1] == h.stack;
    var v := ParseValue(s, j, k, room - 1);
    if v.Ok? {
      var vs := ParseItems(s, v.next, k, room - 1);
      if vs.Ok? {
        var u := Unwind(s, vs.next, h.stack, k, c.limit);
        if u.Ok? {
          CatList(h.out, m, v.v, vs.v, u.v);
        }
      }
    }
  }

  function ListOf(s: bytes, j: nat, constant: bool, room: nat): (r: R<Value>)
    requires j <= |s|
    ensures r.Ok? ==> r.next <= |s|
  {
    var (v, k) :- ParseValue(s, j, constant, room);
    var (vs, m) :- ParseItems(s, k, constant, room);
    Ok(ListValue([v] + vs), m)
  }

  function ObjectOf(s: bytes, j: nat, constant: bool, room: nat): (r: R<Value>)
    requires j <= |s|
    ensures r.Ok? ==> r.next <= |s|
  {
    var (f, k) :- ParseField(s, j, constant, room);
    var (fs, m) :- ParseFields(s, k, constant, room);
    Ok(ObjectValue([f] + fs), m)
  }

  /** After a value, which is not written yet. */
  function FromValueRead(c: Context, x: R<Value>, h: Here): Outcome
    requires Shape(c, h) && h.at.ValueL? && (x.Ok? ==> x.next <= |c.src|)
  {
    match x
    case Err(e, p) => Reject(e, p)
    case Ok(v, j) => FromAfterValue(c, j, h.stack, h.r, h.out + SerValue(c.ignore, v))
  }

  lemma CatList(out: bytes, m: bool, v: Value, vs: seq<Value>, u: bytes)
    ensures out + Unless(m, EncValue(ListValue([v] + vs))) + Unless(m, u)
              == out + Unless(m, [PREF_LIST]) + Unless(m, EncValue(v)) + Unless(m, EncItems(vs) + [PREF_LIST_END] + u)
  {
    NoBytesAfter(out);
    if !m {
      EncItemsCons(v, vs);
      var a, b, e, z := [PREF_LIST], EncValue(v), EncItems(vs), [PREF_LIST_END];
      assert EncValue(ListValue([v] + vs)) == a + (b + e + z);
      Assoc(out, a, b + e + z);
      Assoc(out + a, b + e, z);
      Assoc(out + a, b, e);
      Assoc(out + a + b, e + z, u);
      Assoc(out + a + b, e, z);
    }
  }

  lemma OpenObject(c: Context, h: Here, j: nat)
    requires Shape(c, h) && h.at.ValueL? && j <= |c.src| && |h.stack| < c.limit
    ensures var k, room := ValInVariables(h.r), c.limit - |h.stack|;
            Meaning(c, h.(at := ObjectFieldL, i := j, stack := h.stack + [ObjectFrame],
                          out := h.out + Unless(!c.ignore.Nothing?, [PREF_OBJECT])))
              == FromValueRead(c, ObjectOf(c.src, j, k, room - 1), h)
  {
    hide IsKeywordAt, Skip, FromDefinition, FromDefinitionEnd, FromFragment, FromAfterSelection, FromSelectionSet,
         FromSelection, FromFieldAfterDirectives, FromDirectives, FromVariableEnd, FromVariable, FromTypeAfter,
         FromType, FromArguments, FromArgumentsRest, FromValueEnd, FromValue, ParseItems, ParseField, ParseFields,
         EncValue, EncItems, EncFields, EncField;
    var s, k, room, m := c.src, ValInVariables(h.r), c.limit - |h.stack|, !c.ignore.Nothing?;
    var stack := h.stack + [ObjectFrame];
    assert stack[..|stack| - 1] == h.stack;
    var v := ParseField(s, j, k, room - 1);
    if v.Ok? {
      var vs := ParseFields(s, v.next, k, room - 1);
      if vs.Ok? {
        var u := Unwind(s, vs.next, h.stack, k, c.limit);
        if u.Ok? {
          CatObject(h.out, m, v.v, vs.v, u.v);
        }
      }
    }
  }

  lemma CatObject(out: bytes, m: bool, v: ObjectField, vs: seq<ObjectField>, u: bytes)
    ensures out + Unless(m, EncValue(ObjectValue([v] + vs))) + Unless(m, u)
              == out + Unless(m, [PREF_OBJECT]) + Unless(m, EncField(v)) + Unless(m, EncFields(vs) + [PREF_OBJECT_END] + u)
  {
    NoBytesAfter(out);
    if !m {
      EncFieldsCons(v, vs);
      var a, b, e, z := [PREF_OBJECT], EncField(v), EncFields(vs), [PREF_OBJECT_END];
      assert EncValue(ObjectValue([v] + vs)) == a + (b + e + z);
      Assoc(out, a, b + e + z);
      Assoc(out + a, b + e, z);
      Assoc(out + a, b, e);
      Assoc(out + a + b, e + z, u);
      Assoc(out + a + b, e, z);
    }
  }

  lemma ValueEndStep(c: Context, h: Here)
    requires Shape(c, h) && h.at.AfterValueL? && h.stack == []
    ensures Meaning(c, h) == Meaning(c, h.(at := if h.r.val.ValArgument? then ArgsAfterValueL else VarDefAfterDefaultL))
  {
    hide IsKeywordAt, Skip, FromDefinition, FromDefinitionEnd, FromFragment, FromAfterSelection, FromSelectionSet,
         FromSelection, FromFieldAfterDirectives, FromDirectives, FromVariableEnd, FromVariable, FromTypeAfter,
         FromType, FromArguments, FromArgumentsRest, FromValue, FromObjectField, ParseItems, ParseFields, EncItems,
         EncFields;
    NoBytesAfter(h.out);
  }

  /** A frame is open: the next item or field, or the end of the frame. */
  function AtFrame(c: Context, h: Here): Outcome
    requires Shape(c, h) && h.at.AfterValueL? && h.stack != []
  {
    var s, j, n, m := c.src, Skip(c.src, h.i), |h.stack| - 1, !c.ignore.Nothing?;
    if j == |s| then Reject(UnexpectedEOF, j)
    else if h.stack[n] == ListFrame then
      if s[j] != RBRACKET then Meaning(c, h.(at := ValueL, i := j))
      else Meaning(c, h.(i := j + 1, stack := h.stack[..n], out := h.out + Unless(m, [PREF_LIST_END])))
    else
      if s[j] != RBRACE then Meaning(c, h.(at := ObjectFieldL, i := j))
      else Meaning(c, h.(i := j + 1, stack := h.stack[..n], out := h.out + Unless(m, [PREF_OBJECT_END])))
  }

  function Prefixed(b: bytes, r: R<bytes>): R<bytes> {
    if r.Err? then r else Ok(b + r.v, r.next)
  }

  lemma UnwindList(s: bytes, i: nat, stack: seq<Frame>, k: bool, limit: nat)
    requires i <= |s| && 0 < |stack| <= limit && stack[|stack| - 1] == ListFrame
    ensures var j := Skip(s, i);
            Unwind(s, i, stack, k, limit) ==
            if j == |s| then Err(UnexpectedEOF, j)
            else if s[j] == RBRACKET then Prefixed([PREF_LIST_END], Unwind(s, j + 1, stack[..|stack| - 1], k, limit))
            else UnwindListRest(s, ParseValue(s, j, k, limit - |stack|), stack, k, limit)
  {
    hide IsKeywordAt, Skip, FromDefinition, FromDefinitionEnd, FromFragment, FromAfterSelection, FromSelectionSet,
         FromSelection, FromFieldAfterDirectives, FromDirectives, FromVariableEnd, FromVariable, FromTypeAfter,
         FromType, FromArguments, FromArgumentsRest, FromAfterValue, FromValue, FromObjectField, ParseValue,
         ParseFields, EncValue, EncItems, EncFields;
    var j, n := Skip(s, i), |stack| - 1;
    if j < |s| && s[j] == RBRACKET {
      EncNil();
      var u := Unwind(s, j + 1, stack[..n], k, limit);
      if u.Ok? {
        CatEnd([PREF_LIST_END], u.v);
      }
    } else if j < |s| {
      var v := ParseValue(s, j, k, limit - |stack|);
      if v.Ok? {
        var vs := ParseItems(s, v.next, k, limit - |stack|);
        if vs.Ok? {
          var u := Unwind(s, vs.next, stack[..n], k, limit);
          if u.Ok? {
            EncItemsCons(v.v, vs.v);
            CatMore(EncValue(v.v), EncItems(vs.v), [PREF_LIST_END], u.v);
          }
        }
      }
    }
  }

  /** What follows one element more of the innermost frame, that element written first. */
  function UnwindListRest(s: bytes, x: R<Value>, stack: seq<Frame>, k: bool, limit: nat): (r: R<bytes>)
    requires (x.Ok? ==> x.next <= |s|) && |stack| <= limit
  {
    if x.Err? then Err(x.e, x.pos) else Prefixed(EncValue(x.v), Unwind(s, x.next, stack, k, limit))
  }

  lemma ListFrameStep(c: Context, h: Here)
    requires Shape(c, h) && h.at.AfterValueL? && h.stack != [] && h.stack[|h.stack| - 1] == ListFrame
    ensures Meaning(c, h) == AtFrame(c, h)
  {
    hide IsKeywordAt, Skip, FromDefinition, FromDefinitionEnd, FromFragment, FromAfterSelection, FromSelectionSet,
         FromSelection, FromFieldAfterDirectives, FromDirectives, FromVariableEnd, FromVariable, FromTypeAfter,
         FromType, FromArguments, FromArgumentsRest, FromValueEnd, Unwind, FromObjectField, ParseValue, EncValue;
    var s, j, n, m := c.src, Skip(c.src, h.i), |h.stack| - 1, !c.ignore.Nothing?;
    var k := ValInVariables(h.r);
    UnwindList(s, h.i, h.stack, k, c.limit);
    NoBytesAfter(h.out);
    if j < |s| && s[j] == RBRACKET {
      var u := Unwind(s, j + 1, h.stack[..n], k, c.limit);
      if u.Ok? {
        Assoc(h.out, [PREF_LIST_END], u.v);
      }
    } else if j < |s| {
      var v := ParseValue(s, j, k, c.limit - |h.stack|);
      if v.Ok? {
        var u := Unwind(s, v.next, h.stack, k, c.limit);
        if u.Ok? {
          Assoc(h.out, EncValue(v.v), u.v);
        }
      }
    }
  }

  lemma UnwindObject(s: bytes, i: nat, stack: seq<Frame>, k: bool, limit: nat)
    requires i <= |s| && 0 < |stack| <= limit && stack[|stack| - 1] == ObjectFrame
    ensures var j := Skip(s, i);
            Unwind(s, i, stack, k, limit) ==
            if j == |s| then Err(UnexpectedEOF, j)
            else if s[j] == RBRACE then Prefixed([PREF_OBJECT_END], Unwind(s, j + 1, stack[..|stack| - 1], k, limit))
            else UnwindObjectRest(s, ParseField(s, j, k, limit - |stack|), stack, k, limit)
  {
    hide IsKeywordAt, Skip, FromDefinition, FromDefinitionEnd, FromFragment, FromAfterSelection, FromSelectionSet,
         FromSelection, FromFieldAfterDirectives, FromDirectives, FromVariableEnd, FromVariable, FromTypeAfter,
         FromType, FromArguments, FromArgumentsRest, FromAfterValue, FromValue, FromObjectField, ParseItems,
         ParseField, EncItems, EncFields, EncField;
    var j, n := Skip(s, i), |stack| - 1;
    if j < |s| && s[j] == RBRACE {
      EncNil();
      var u := Unwind(s, j + 1, stack[..n], k, limit);
      if u.Ok? {
        CatEnd([PREF_OBJECT_END], u.v);
      }
    } else if j < |s| {
      var v := ParseField(s, j, k, limit - |stack|);
      if v.Ok? {
        var vs := ParseFields(s, v.next, k, limit - |stack|);
        if vs.Ok? {
          var u := Unwind(s, vs.next, stack[..n], k, limit);
          if u.Ok? {
            EncFieldsCons(v.v, vs.v);
            CatMore(EncField(v.v), EncFields(vs.v), [PREF_OBJECT_END], u.v);
          }
        }
      }
    }
  }

  /** What follows one element more of the innermost frame, that element written first. */
  function UnwindObjectRest(s: bytes, x: R<ObjectField>, stack: seq<Frame>, k: bool, limit: nat): (r: R<bytes>)
    requires (x.Ok? ==> x.next <= |s|) && |stack| <= limit
  {
    if x.Err? then Err(x.e, x.pos) else Prefixed(EncField(x.v), Unwind(s, x.next, stack, k, limit))
  }

  lemma ObjectFrameStep(c: Context, h: Here)
    requires Shape(c, h) && h.at.AfterValueL? && h.stack != [] && h.stack[|h.stack| - 1] == ObjectFrame
    ensures Meaning(c, h) == AtFrame(c, h)
  {
    hide IsKeywordAt, Skip, FromDefinition, FromDefinitionEnd, FromFragment, FromAfterSelection, FromSelectionSet,
         FromSelection, FromFieldAfterDirectives, FromDirectives, FromVariableEnd, FromVariable, FromTypeAfter,
         FromType, FromArguments, FromArgumentsRest, FromValueEnd, Unwind, FromValue, ParseField, EncField;
    var s, j, n, m := c.src, Skip(c.src, h.i), |h.stack| - 1, !c.ignore.Nothing?;
    var k := ValInVariables(h.r);
    UnwindObject(s, h.i, h.stack, k, c.limit);
    NoBytesAfter(h.out);
    if j < |s| && s[j] == RBRACE {
      var u := Unwind(s, j + 1, h.stack[..n], k, c.limit);
      if u.Ok? {
        Assoc(h.out, [PREF_OBJECT_END], u.v);
      }
    } else if j < |s| {
      var v := ParseField(s, j, k, c.limit - |h.stack|);
      if v.Ok? {
        var u := Unwind(s, v.next, h.stack, k, c.limit);
        if u.Ok? {
          Assoc(h.out, EncField(v.v), u.v);
        }
      }
    }
  }

  lemma CatEnd(z: bytes, u: bytes)
    ensures [] + z + u == z + u
  {
    assert [] + z == z;
  }

  lemma EncNil()
    ensures EncItems([]) == [] && EncFields([]) == []
  {
  }

  lemma CatMore(b: bytes, e: bytes, z: bytes, u: bytes)
    ensures b + e + z + u == b + (e + z + u)
  {
    Assoc(b, e, z);
    Assoc(b, e + z, u);
  }

  lemma FrameStep(c: Context, h: Here)
    requires Shape(c, h) && h.at.AfterValueL? && h.stack != []
    ensures Meaning(c, h) == AtFrame(c, h)
  {
    hide Meaning, AtFrame;
    if h.stack[|h.stack| - 1] == ListFrame {
      ListFrameStep(c, h);
    } else {
      ObjectFrameStep(c, h);
    }
  }

  /** The name of an object field and its colon, then its value. */
  function AtObjectField(c: Context, h: Here): Outcome
    requires Shape(c, h) && h.at.ObjectFieldL?
  {
    var s := c.src;
    match Name(s, h.i)
    case Err(e, p) => Reject(e, p)
    case Ok(n, j) =>
      match Expect(s, Skip(s, j), COLON)
      case Err(e, p) => Reject(e, p)
      case Ok(_, k) =>
        Meaning(c, h.(at := ValueL, i := Skip(s, k),
                      out := h.out + Unless(!c.ignore.Nothing?, [PREF_OBJECT_FIELD] + n)))
  }

  lemma ObjectFieldStep(c: Context, h: Here)
    requires Shape(c, h) && h.at.ObjectFieldL?
    ensures Meaning(c, h) == AtObjectField(c, h)
  {
    hide IsKeywordAt, Skip, NameEnd, FromDefinition, FromDefinitionEnd, FromFragment, FromAfterSelection,
         FromSelectionSet, FromSelection, FromFieldAfterDirectives, FromDirectives, FromVariableEnd, FromVariable,
         FromTypeAfter, FromType, FromArguments, FromArgumentsRest, FromAfterValue, ParseValue, EncValue;
    var s, m := c.src, !c.ignore.Nothing?;
    var k, room := ValInVariables(h.r), c.limit - |h.stack|;
    var n := Name(s, h.i);
    if n.Ok? {
      var j := Expect(s, Skip(s, n.next), COLON);
      if j.Ok? {
        var v := ParseValue(s, Skip(s, j.next), k, room);
        if v.Ok? {
          NoBytesAfter(h.out);
          Assoc(h.out, [PREF_OBJECT_FIELD] + n.v, EncValue(v.v));
        }
      }
    }
  }

  // ----- Definitions

  /** Reading the definitions one after the other comes to reading all of them. */
  lemma {:induction false} RunFrom(c: Context, i: nat, out: bytes)
    requires i < |c.src|
    ensures FromDefinition(c, i, out) == AcceptAfter(c.ignore, out, ParseDefinitions(c.src, i, c.limit))
    decreases |c.src| - i
  {
    var g := c.ignore;
    var d := ParseDefinition(c.src, i, c.limit);
    if d.Ok? {
      var j := Skip(c.src, d.next);
      if j == |c.src| {
        SerDocumentCons(g, d.v, []);
        assert [d.v] + [] == [d.v];
        NoBytesAfter(SerDefinition(g, d.v));
      } else {
        RunFrom(c, j, out + SerDefinition(g, d.v));
        var ds := ParseDefinitions(c.src, j, c.limit);
        if ds.Ok? {
          SerDocumentCons(g, d.v, ds.v);
          Assoc(out, SerDefinition(g, d.v), SerDocument(g, ds.v));
        }
      }
    }
  }

  function AcceptAfter(g: Ignore, out: bytes, ds: R<Document>): Outcome {
    if ds.Err? then Reject(ds.e, ds.pos) else Accept(out + SerDocument(g, ds.v))
  }

  lemma SerDocumentCons(g: Ignore, d: Definition, ds: Document)
    ensures SerDocument(g, [d] + ds) == SerDefinition(g, d) + SerDocument(g, ds)
  {
  }

  lemma RunStart(c: Context, h: Here)
    requires h.at.DefinitionL? && h.i == Skip(c.src, 0) && h.out == [] && h.stack == [] && h.typeDepth == 0 && h.r.depth == 0
    ensures h.i == |c.src| ==> Run(c) == Reject(UnexpectedEOF, h.i)
    ensures h.i < |c.src| ==> Meaning(c, h) == Run(c)
  {
    hide SerDocument;
    if h.i < |c.src| {
      RunFrom(c, h.i, []);
      var ds := ParseDefinitions(c.src, h.i, c.limit);
      if ds.Ok? {
        assert [] + SerDocument(c.ignore, ds.v) == SerDocument(c.ignore, ds.v);
      }
    }
  }

  lemma DefinitionEndStep(c: Context, h: Here)
    requires Shape(c, h) && h.at.DefinitionEndL?
    ensures var j := Skip(c.src, h.i);
            Meaning(c, h) == if j == |c.src| then Accept(h.out) else Meaning(c, h.(at := DefinitionL, i := j))
  {
  }

  /** A definition, its description read: an anonymous query, a fragment or an operation. */
  function AtDefinition(c: Context, h: Here): Outcome
    requires Shape(c, h) && h.at.DefinitionL?
  {
    var s := c.src;
    match Description(s, h.i)
    case Err(e, p) => Reject(e, p)
    case Ok(d, j) =>
      if s[j] == LBRACE then
        if d.Some? then Reject(UnexpectedToken, j)
        else Meaning(c, h.(at := SelSetL, i := j, out := h.out + [PREF_QUERY]))
      else if IsKeywordAt(s, j, KW_FRAGMENT) then Meaning(c, h.(at := FragmentL, i := j))
      else if KindAt(s, j).Some? then
        AtOperation(c, h, Skip(s, j + |KindKeyword(KindAt(s, j).value)|), KindAt(s, j).value)
      else Reject(UnexpectedToken, j)
  }

  /** After the keyword of an operation: its name, then its variables or its directives. */
  function AtOperation(c: Context, h: Here, i: nat, kind: Kind): Outcome
    requires Shape(c, h) && h.at.DefinitionL? && i <= |c.src|
  {
    var s := c.src;
    match OperationName(s, i)
    case Err(e, p) => Reject(e, p)
    case Ok(n, j) =>
      var out := h.out + [KindPrefix(kind)] + (if n.Some? then n.value else []);
      if s[j] == LPAREN then
        var k := Skip(s, j + 1);
        if k == |s| then Reject(UnexpectedEOF, k) else Meaning(c, h.(at := VarDefL, i := k, out := out))
      else Meaning(c, DirectivesAt(h, j, DirSelectionSet, out))
  }

  lemma DefinitionStep(c: Context, h: Here)
    requires Shape(c, h) && h.at.DefinitionL?
    ensures Meaning(c, h) == AtDefinition(c, h)
  {
    hide IsKeywordAt, Skip, FromDefinitionEnd, FromAfterSelection, FromSelectionSet, FromSelection,
         FromFieldAfterDirectives, FromDirectives, FromVariableEnd, FromVariable, FromTypeAfter, FromType,
         FromArguments, FromArgumentsRest, FromAfterValue, FromValue, FromObjectField, ParseSelectionSet,
         ParseOperation, ParseFragment, Description, SerDefinition;
    hide OperationName;
    var s, d := c.src, Description(c.src, h.i);
    if d.Ok? {
      var j := d.next;
      if s[j] == LBRACE {
        if d.v.None? {
          ShorthandStep(c, j, h.out);
        }
      } else if IsKeywordAt(s, j, KW_FRAGMENT) {
        FragmentDescription(c, Skip(s, j + |KW_FRAGMENT|), d.v);
      } else if KindAt(s, j).Some? {
        var kind := KindAt(s, j).value;
        OperationStep(c, h, Skip(s, j + |KindKeyword(kind)|), d.v, kind);
      }
    }
  }

  /** After a definition, which is not written yet. */
  function FromDefinitionRead(c: Context, x: R<Definition>, out: bytes): Outcome
    requires x.Ok? ==> x.next <= |c.src|
  {
    match x
    case Err(e, p) => Reject(e, p)
    case Ok(d, j) => FromDefinitionEnd(c, j, out + SerDefinition(c.ignore, d))
  }

  function ShorthandOf(ss: R<seq<Selection>>): R<Definition> {
    if ss.Err? then Err(ss.e, ss.pos) else Ok(Operation(None, true, Query, None, [], [], ss.v), ss.next)
  }

  lemma ShorthandStep(c: Context, j: nat, out: bytes)
    requires j <= |c.src|
    ensures FromSelectionSet(c, j, 0, out + [PREF_QUERY])
              == FromDefinitionRead(c, ShorthandOf(ParseSelectionSet(c.src, j, 0, c.limit)), out)
  {
    var ss := ParseSelectionSet(c.src, j, 0, c.limit);
    if ss.Ok? {
      var g := c.ignore;
      SerVariablesNil(g);
      SerDirectivesNil(g);
      NoBytesAfter([PREF_QUERY]);
      Assoc(out, [PREF_QUERY], SerSelectionSet(g, ss.v));
    }
  }

  /** The description of a fragment changes nothing of what it comes to. */
  lemma FragmentDescription(c: Context, i: nat, d: Option<bytes>)
    requires i <= |c.src|
    ensures var x, y := ParseFragment(c.src, i, d, c.limit), ParseFragment(c.src, i, None, c.limit);
            (if x.Err? then y == Err(x.e, x.pos) else y.Ok? && x.next == y.next)
            && (x.Ok? ==> SerDefinition(c.ignore, x.v) == SerDefinition(c.ignore, y.v))
  {
  }

  lemma OperationStep(c: Context, h: Here, i: nat, d: Option<bytes>, kind: Kind)
    requires Shape(c, h) && h.at.DefinitionL? && i <= |c.src|
    ensures AtOperation(c, h, i, kind)
              == FromDefinitionRead(c, ParseOperation(c.src, i, d, kind, c.limit), h.out)
  {
    hide IsKeywordAt, Skip, FromDefinition, FromDefinitionEnd, FromFragment, FromAfterSelection, FromSelectionSet,
         FromSelection, FromFieldAfterDirectives, FromDirectives, FromVariableEnd, FromTypeAfter, FromType,
         FromArguments, FromArgumentsRest, FromAfterValue, FromValue, FromObjectField, ParseDirectives,
         ParseVariables, ParseSelectionSet, SerVariables, SerDefinition;
    hide OperationName;
    var s, n := c.src, OperationName(c.src, i);
    if n.Ok? {
      var out := h.out + [KindPrefix(kind)] + (if n.v.Some? then n.v.value else []);
      if s[n.next] == LPAREN {
        var k := Skip(s, n.next + 1);
        if k < |s| {
          var vs := ParseVariables(s, k, c.limit);
          if vs.Ok? {
            DefinitionTail(c, Skip(s, vs.next), d, kind, n.v, vs.v, h.out);
          }
        }
      } else {
        SerVariablesNil(c.ignore);
        NoBytesAfter(out);
        DefinitionTail(c, n.next, d, kind, n.v, [], h.out);
      }
    }
  }

  /** The directives and the selection set of an operation whose variables are written. */
  lemma DefinitionTail(c: Context, i: nat, d: Option<bytes>, kind: Kind, n: Option<bytes>, vs: seq<VariableDefinition>, out: bytes)
    requires i <= |c.src|
    ensures var head := out + [KindPrefix(kind)] + (if n.Some? then n.value else []);
            FromDirectives(c, i, DirSelectionSet, 0, head + Unless(c.ignore.Variables?, SerVariables(c.ignore, vs)))
              == FromDefinitionRead(c, OperationOf(c.src, i, d, kind, n, vs, c.limit), out)
  {
    hide IsKeywordAt, Skip, FromDefinition, FromDefinitionEnd, FromFragment, FromAfterSelection, FromSelection,
         FromFieldAfterDirectives, FromVariableEnd, FromVariable, FromTypeAfter, FromType, FromArguments,
         FromArgumentsRest, FromAfterValue, FromValue, FromObjectField, ParseDirectives, ParseSelectionSet,
         SerSelectionSet, SerDirectives, SerVariables;
    var s, g := c.src, c.ignore;
    var p, q, v := [KindPrefix(kind)], if n.Some? then n.value else [], Unless(g.Variables?, SerVariables(g, vs));
    var head := out + p + q + v;
    var ds := ParseDirectives(s, i, false, c.limit);
    if ds.Ok? {
      var b := SerDirectives(g, ds.v);
      assert FromDirectives(c, i, DirSelectionSet, 0, head) == FromDirectivesEnd(c, ds.next, DirSelectionSet, 0, head + b);
      assert FromDirectivesEnd(c, ds.next, DirSelectionSet, 0, head + b) == FromSelectionSet(c, Skip(s, ds.next), 0, head + b);
      var ss := ParseSelectionSet(s, Skip(s, ds.next), 0, c.limit);
      if ss.Ok? {
        var z := SerSelectionSet(g, ss.v);
        Assoc(out, p + q + v + b, z);
        Assoc(out, p + q + v, b);
        Assoc(out, p + q, v);
        Assoc(out, p, q);
      }
    }
  }

  function OperationOf(s: bytes, i: nat, d: Option<bytes>, kind: Kind, n: Option<bytes>, vs: seq<VariableDefinition>, limit: nat): (r: R<Definition>)
    requires i <= |s|
    ensures r.Ok? ==> r.next <= |s|
  {
    var (ds, m) :- ParseDirectives(s, i, false, limit);
    var (ss, e) :- ParseSelectionSet(s, Skip(s, m), 0, limit);
    Ok(Operation(d, false, kind, n, vs, ds, ss), e)
  }

  /** The name and the type condition of a fragment, then its directives. */
  function AtFragment(c: Context, h: Here): Outcome
    requires Shape(c, h) && h.at.FragmentL?
  {
    var s, i := c.src, Skip(c.src, h.i + |KW_FRAGMENT|);
    match Name(s, i)
    case Err(e, p) => Reject(e, p)
    case Ok(n, j) =>
      var k := Skip(s, j);
      if n == KW_ON then Reject(UnexpectedToken, i)
      else if k == |s| then Reject(UnexpectedEOF, k)
      else if !IsKeywordAt(s, k, KW_ON) then Reject(UnexpectedToken, k)
      else
        match Name(s, Skip(s, k + 2))
        case Err(e, p) => Reject(e, p)
        case Ok(t, m) =>
          Meaning(c, DirectivesAt(h, Skip(s, m), DirSelectionSet, h.out + ([PREF_FRAGMENT] + n) + ([PREF_TYPE] + t)))
  }

  lemma FragmentStep(c: Context, h: Here)
    requires Shape(c, h) && h.at.FragmentL?
    ensures Meaning(c, h) == AtFragment(c, h)
  {
    FragmentRead(c, h);
  }

  lemma FragmentRead(c: Context, h: Here)
    requires Shape(c, h) && h.at.FragmentL?
    ensures FromFragment(c, h.i, h.out) == AtFragment(c, h)
  {
    hide IsKeywordAt, Skip, FromDefinitionEnd, FromDirectives, ParseDirectives, ParseSelectionSet, SerDefinition;
    hide Meaning, Name, DirectivesAt;
    var s, i := c.src, Skip(c.src, h.i + |KW_FRAGMENT|);
    var n := Name(s, i);
    if n.Ok? && n.v != KW_ON && Skip(s, n.next) < |s| && IsKeywordAt(s, Skip(s, n.next), KW_ON) {
      var t := Name(s, Skip(s, Skip(s, n.next) + 2));
      if t.Ok? {
        FragmentTail(c, Skip(s, t.next), n.v, t.v, h.out);
        FragmentDirectives(c, h, Skip(s, t.next), h.out + ([PREF_FRAGMENT] + n.v) + ([PREF_TYPE] + t.v));
      }
    }
  }

  lemma FragmentDirectives(c: Context, h: Here, i: nat, out: bytes)
    requires Shape(c, h) && h.at.FragmentL? && i <= |c.src|
    ensures Meaning(c, DirectivesAt(h, i, DirSelectionSet, out))
              == FromDirectives(c, i, DirSelectionSet, 0, out)
  {
    hide IsKeywordAt, Skip, FromDefinition, FromDefinitionEnd, FromFragment, FromAfterSelection, FromSelectionSet,
         FromSelection, FromFieldAfterDirectives, FromDirectives, FromVariableEnd, FromVariable, FromTypeAfter,
         FromType, FromArguments, FromArgumentsRest, FromAfterValue, FromValue, FromObjectField;
  }

  function FragmentOf(s: bytes, i: nat, n: bytes, t: bytes, limit: nat): (r: R<Definition>)
    requires i <= |s|
    ensures r.Ok? ==> r.next <= |s|
  {
    var (ds, e) :- ParseDirectives(s, i, false, limit);
    var (ss, f) :- ParseSelectionSet(s, Skip(s, e), 0, limit);
    Ok(Fragment(None, n, t, ds, ss), f)
  }

  lemma FragmentTail(c: Context, i: nat, n: bytes, t: bytes, out: bytes)
    requires i <= |c.src|
    ensures FromDirectives(c, i, DirSelectionSet, 0, out + ([PREF_FRAGMENT] + n) + ([PREF_TYPE] + t))
              == FromDefinitionRead(c, FragmentOf(c.src, i, n, t, c.limit), out)
  {
    var s, g := c.src, c.ignore;
    var head := out + ([PREF_FRAGMENT] + n) + ([PREF_TYPE] + t);
    var ds := ParseDirectives(s, i, false, c.limit);
    if ds.Ok? {
      var b := SerDirectives(g, ds.v);
      assert FromDirectives(c, i, DirSelectionSet, 0, head) == FromDirectivesEnd(c, ds.next, DirSelectionSet, 0, head + b);
      assert FromDirectivesEnd(c, ds.next, DirSelectionSet, 0, head + b) == FromSelectionSet(c, Skip(s, ds.next), 0, head + b);
      var ss := ParseSelectionSet(s, Skip(s, ds.next), 0, c.limit);
      if ss.Ok? {
        var a, q, z := [PREF_FRAGMENT] + n, [PREF_TYPE] + t, SerSelectionSet(g, ss.v);
        Assoc([PREF_FRAGMENT] + n, [PREF_TYPE], t);
        Assoc(out, a + q + b, z);
        Assoc(out, a + q, b);
        Assoc(out, a, q);
      }
    }
  }
}
