/**
 The canonical form of a document: the bytes that are hashed, for each Ignore level.
 */
module Canonical {
  import opened Bytes
  import opened Ast

  const PREF_QUERY: byte := 0x01
  const PREF_MUTATION: byte := 0x02
  const PREF_SUBSCRIPTION: byte := 0x03
  const PREF_FRAGMENT: byte := 0x04
  const PREF_VARIABLE_DEFINITION: byte := 0x05
  const PREF_DIRECTIVE: byte := 0x06
  const PREF_FIELD: byte := 0x07
  const PREF_TYPE: byte := 0x08
  const PREF_ALIASED_NAME: byte := 0x0b
  const PREF_SPREAD: byte := 0x0c
  const PREF_INLINE_FRAGMENT: byte := 0x0e
  const PREF_ARGUMENT: byte := 0x0f
  const PREF_SELECTION_SET: byte := 0x11
  const PREF_SELECTION_SET_END: byte := 0x12
  const PREF_OBJECT: byte := 0x13
  const PREF_OBJECT_FIELD: byte := 0x14
  const PREF_OBJECT_END: byte := 0x15
  const PREF_NULL: byte := 0x16
  const PREF_TRUE: byte := 0x17
  const PREF_FALSE: byte := 0x18
  const PREF_INTEGER: byte := 0x19
  const PREF_FLOAT: byte := 0x1a
  const PREF_ENUM: byte := 0x1b
  const PREF_STRING: byte := 0x1c
  const PREF_LIST: byte := 0x1d
  const PREF_LIST_END: byte := 0x1e
  const PREF_VARIABLE: byte := 0x1f

  /** How much of the input is left out; each level leaves out what the one before does. */
  datatype Ignore = Nothing | Inputs | Variables

  /** lutStringEscape: the control bytes but TAB, LF and CR, and the backslash. */
  predicate NeedsEscape(b: byte) {
    (b < 0x20 && b != TAB && b != LF && b != CR) || b == BACKSLASH
  }

  /** lutStringEscapeSeq: a backslash and a byte that names what was escaped. */
  function EscapeByte(b: byte): (s: bytes)
    ensures |s| == 1 || |s| == 2
  {
    if b == BACKSLASH then [BACKSLASH, 0x7c]
    else if NeedsEscape(b) then [BACKSLASH, b + 0x40]
    else [b]
  }

  function Escape(s: bytes): bytes {
    if s == [] then [] else EscapeByte(s[0]) + Escape(s[1..])
  }

  // ----- Values

  function EncValue(v: Value): (s: bytes)
    ensures s != []
    decreases v, 0
  {
    match v
    case Variable(n) => [PREF_VARIABLE] + n
    case IntValue(t) => [PREF_INTEGER] + t
    case FloatValue(t) => [PREF_FLOAT] + t
    case StringValue(t) => [PREF_STRING] + Escape(t)
    case BooleanValue(b) => [if b then PREF_TRUE else PREF_FALSE]
    case NullValue => [PREF_NULL]
    case EnumValue(n) => [PREF_ENUM] + n
    case ListValue(vs) => [PREF_LIST] + (if vs == [] then [] else EncItems(vs) + [PREF_LIST_END])
    case ObjectValue(fs) => [PREF_OBJECT] + (if fs == [] then [] else EncFields(fs) + [PREF_OBJECT_END])
  }

  function EncItems(vs: seq<Value>): bytes
    decreases vs, 1
  {
    if vs == [] then [] else EncValue(vs[0]) + EncItems(vs[1..])
  }

  function EncField(f: ObjectField): bytes
    decreases f, 1
  {
    [PREF_OBJECT_FIELD] + f.name + EncValue(f.value)
  }

  function EncFields(fs: seq<ObjectField>): bytes
    decreases fs, 1
  {
    if fs == [] then [] else EncField(fs[0]) + EncFields(fs[1..])
  }

  /** An input value of any kind is left out from Inputs on. */
  function SerValue(g: Ignore, v: Value): bytes {
    if g.Nothing? then EncValue(v) else []
  }

  // ----- Arguments, directives, types and variables

  function SerArgument(g: Ignore, a: Argument): bytes {
    [PREF_ARGUMENT] + a.name + SerValue(g, a.value)
  }

  function SerArguments(g: Ignore, xs: seq<Argument>): bytes {
    if xs == [] then [] else SerArgument(g, xs[0]) + SerArguments(g, xs[1..])
  }

  function SerDirective(g: Ignore, d: Directive): bytes {
    [PREF_DIRECTIVE] + d.name + SerArguments(g, d.arguments)
  }

  function SerDirectives(g: Ignore, ds: seq<Directive>): bytes {
    if ds == [] then [] else SerDirective(g, ds[0]) + SerDirectives(g, ds[1..])
  }

  function TypeText(t: Type): (s: bytes)
  {
    match t
    case Named(n) => n
    case ListType(u) => [LBRACKET] + TypeText(u) + [RBRACKET]
    case NonNull(u) => TypeText(u) + [BANG]
  }

  function SerDefault(g: Ignore, v: Option<Value>): bytes {
    if v.Some? then SerValue(g, v.value) else []
  }

  function SerVariable(g: Ignore, v: VariableDefinition): bytes {
    [PREF_VARIABLE_DEFINITION] + v.name + [PREF_TYPE] + TypeText(v.ty) + SerDefault(g, v.default)
    + SerDirectives(g, v.directives)
  }

  function SerVariables(g: Ignore, vs: seq<VariableDefinition>): bytes {
    if vs == [] then [] else SerVariable(g, vs[0]) + SerVariables(g, vs[1..])
  }

  // ----- Selections

  function SerSelection(g: Ignore, s: Selection): bytes
    decreases s, 0
  {
    match s
    case Field(alias, name, args, dirs, sels) =>
      [PREF_FIELD] + (if alias.Some? then alias.value + [PREF_ALIASED_NAME] else []) + name
      + SerArguments(g, args) + SerDirectives(g, dirs)
      + (if sels == [] then [] else [PREF_SELECTION_SET] + SerSelections(g, sels) + [PREF_SELECTION_SET_END])
    case FragmentSpread(name, dirs) =>
      [PREF_SPREAD] + name + SerDirectives(g, dirs)
    case InlineFragment(cond, dirs, sels) =>
      [PREF_INLINE_FRAGMENT] + (if cond.Some? then [PREF_TYPE] + cond.value else [])
      + SerDirectives(g, dirs) + ([PREF_SELECTION_SET] + SerSelections(g, sels) + [PREF_SELECTION_SET_END])
  }

  function SerSelections(g: Ignore, ss: seq<Selection>): bytes
    decreases ss, 1
  {
    if ss == [] then [] else SerSelection(g, ss[0]) + SerSelections(g, ss[1..])
  }

  function SerSelectionSet(g: Ignore, ss: seq<Selection>): bytes {
    [PREF_SELECTION_SET] + SerSelections(g, ss) + [PREF_SELECTION_SET_END]
  }

  // ----- Definitions

  function KindPrefix(k: Kind): byte {
    match k
    case Query => PREF_QUERY
    case Mutation => PREF_MUTATION
    case Subscription => PREF_SUBSCRIPTION
  }

  function SerDefinition(g: Ignore, d: Definition): (s: bytes)
    ensures s != []
  {
    match d
    case Operation(_, _, kind, name, vars, dirs, sels) =>
      [KindPrefix(kind)] + (if name.Some? then name.value else [])
      + (if g.Variables? then [] else SerVariables(g, vars))
      + SerDirectives(g, dirs) + SerSelectionSet(g, sels)
    case Fragment(_, name, cond, dirs, sels) =>
      [PREF_FRAGMENT] + name + [PREF_TYPE] + cond + SerDirectives(g, dirs) + SerSelectionSet(g, sels)
  }

  function SerDocument(g: Ignore, d: Document): bytes {
    if d == [] then [] else SerDefinition(g, d[0]) + SerDocument(g, d[1..])
  }
}
