/**
 The grammar the parser accepts, stated on tokens: which tokens a document is written with,
 which documents there are, and how deeply one nests. Nothing here mentions an index.
 */
module Grammar {
  import opened Bytes
  import opened Lexical
  import opened Utf8
  import opened Ast
  import opened Numbers
  import Descent

  /** A lexical token by value: strings are evaluated, numbers are kept as written. */
  datatype Token =
    | Punct(b: byte)
    | Ellipsis
    | NameToken(name: bytes)
    | IntToken(text: bytes)
    | FloatToken(text: bytes)
    | StringToken(value: bytes)

  const AMP: byte := 0x26
  const PIPE: byte := 0x7c

  predicate IsPunctuator(b: byte) {
    || b == BANG || b == DOLLAR || b == AMP || b == LPAREN || b == RPAREN || b == COLON || b == EQUALS
    || b == AT || b == LBRACKET || b == RBRACKET || b == LBRACE || b == PIPE || b == RBRACE
  }

  /** The token that begins at s[i]. */
  function Lex(s: bytes, i: nat): (r: R<Token>)
    requires i < |s|
    ensures r.Ok? ==> i < r.next <= |s|
  {
    if IsPunctuator(s[i]) then Ok(Punct(s[i]), i + 1)
    else if HasPrefixAt(s, i, Descent.ELLIPSIS) then Ok(Ellipsis, i + 3)
    else if IsNameStart(s[i]) then Ok(NameToken(s[i..NameEnd(s, i + 1)]), NameEnd(s, i + 1))
    else if s[i] == MINUS || IsDigit(s[i]) then
      var (isFloat, j) :- Number(s, i);
      Ok(if isFloat then FloatToken(s[i..j]) else IntToken(s[i..j]), j)
    else if s[i] == QUOTE then
      var (v, j) :- Descent.StringToken(s, i);
      Ok(StringToken(v), j)
    else Err(UnexpectedToken, i)
  }

  /** The tokens from i to the end, Ignored tokens left out; None if some text is no token. */
  function Tokens(s: bytes, i: nat): Option<seq<Token>>
    requires i <= |s|
    decreases |s| - i
  {
    var j := Skip(s, i);
    if j == |s| then Some([])
    else if Lex(s, j).Err? then None
    else
      var rest := Tokens(s, Lex(s, j).next);
      if rest.None? then None else Some([Lex(s, j).v] + rest.value)
  }

  // ----- What a document is written with

  function ValueTokens(v: Value): (ts: seq<Token>)
    ensures ts != [] && ts[0] != Punct(RBRACKET) && ts[0] != Punct(RBRACE)
    decreases v, 0
  {
    match v
    case Variable(n) => [Punct(DOLLAR), NameToken(n)]
    case IntValue(t) => [IntToken(t)]
    case FloatValue(t) => [FloatToken(t)]
    case StringValue(t) => [StringToken(t)]
    case BooleanValue(b) => [NameToken(if b then KW_TRUE else KW_FALSE)]
    case NullValue => [NameToken(KW_NULL)]
    case EnumValue(n) => [NameToken(n)]
    case ListValue(vs) => [Punct(LBRACKET)] + (ItemsTokens(vs) + [Punct(RBRACKET)])
    case ObjectValue(fs) => [Punct(LBRACE)] + (FieldsTokens(fs) + [Punct(RBRACE)])
  }

  function ItemsTokens(vs: seq<Value>): seq<Token>
    decreases vs, 1
  {
    if vs == [] then [] else ValueTokens(vs[0]) + ItemsTokens(vs[1..])
  }

  function FieldTokens(f: ObjectField): (ts: seq<Token>)
    ensures ts != [] && ts[0].NameToken?
    decreases f, 1
  {
    [NameToken(f.name), Punct(COLON)] + ValueTokens(f.value)
  }

  function FieldsTokens(fs: seq<ObjectField>): seq<Token>
    decreases fs, 1
  {
    if fs == [] then [] else FieldTokens(fs[0]) + FieldsTokens(fs[1..])
  }

  function ArgumentTokens(a: Argument): (ts: seq<Token>)
    ensures ts != [] && ts[0].NameToken?
  {
    [NameToken(a.name), Punct(COLON)] + ValueTokens(a.value)
  }

  function ArgumentListTokens(xs: seq<Argument>): seq<Token> {
    if xs == [] then [] else ArgumentTokens(xs[0]) + ArgumentListTokens(xs[1..])
  }

  function ArgumentsTokens(xs: seq<Argument>): seq<Token> {
    if xs == [] then [] else [Punct(LPAREN)] + (ArgumentListTokens(xs) + [Punct(RPAREN)])
  }

  function DirectiveTokens(d: Directive): (ts: seq<Token>)
    ensures ts != [] && ts[0] == Punct(AT)
  {
    [Punct(AT), NameToken(d.name)] + ArgumentsTokens(d.arguments)
  }

  function DirectivesTokens(ds: seq<Directive>): seq<Token> {
    if ds == [] then [] else DirectiveTokens(ds[0]) + DirectivesTokens(ds[1..])
  }

  function TypeTokens(t: Type): seq<Token> {
    match t
    case Named(n) => [NameToken(n)]
    case ListType(u) => [Punct(LBRACKET)] + (TypeTokens(u) + [Punct(RBRACKET)])
    case NonNull(u) => TypeTokens(u) + [Punct(BANG)]
  }

  function DescriptionTokens(d: Option<bytes>): seq<Token> {
    if d.Some? then [StringToken(d.value)] else []
  }

  function DefaultTokens(v: Option<Value>): seq<Token> {
    if v.Some? then [Punct(EQUALS)] + ValueTokens(v.value) else []
  }

  function VariableTokens(v: VariableDefinition): (ts: seq<Token>)
    ensures ts != [] && (ts[0] == Punct(DOLLAR) || ts[0].StringToken?)
  {
    DescriptionTokens(v.description)
    + ([Punct(DOLLAR), NameToken(v.name), Punct(COLON)]
       + (TypeTokens(v.ty) + (DefaultTokens(v.default) + DirectivesTokens(v.directives))))
  }

  function VariableListTokens(vs: seq<VariableDefinition>): seq<Token> {
    if vs == [] then [] else VariableTokens(vs[0]) + VariableListTokens(vs[1..])
  }

  function VariablesTokens(vs: seq<VariableDefinition>): seq<Token> {
    if vs == [] then [] else [Punct(LPAREN)] + (VariableListTokens(vs) + [Punct(RPAREN)])
  }

  function NameTokens(n: Option<bytes>): seq<Token> {
    if n.Some? then [NameToken(n.value)] else []
  }

  function SelectionTokens(x: Selection): (ts: seq<Token>)
    ensures ts != [] && (ts[0].NameToken? || ts[0] == Ellipsis)
    decreases x, 0
  {
    match x
    case Field(alias, name, args, dirs, sels) =>
      (if alias.Some? then [NameToken(alias.value), Punct(COLON)] else [])
      + ([NameToken(name)] + (ArgumentsTokens(args) + (DirectivesTokens(dirs)
         + (if sels == [] then [] else [Punct(LBRACE)] + (SelectionsTokens(sels) + [Punct(RBRACE)])))))
    case FragmentSpread(name, dirs) => [Ellipsis, NameToken(name)] + DirectivesTokens(dirs)
    case InlineFragment(cond, dirs, sels) =>
      [Ellipsis] + ((if cond.Some? then [NameToken(KW_ON), NameToken(cond.value)] else [])
        + (DirectivesTokens(dirs) + ([Punct(LBRACE)] + (SelectionsTokens(sels) + [Punct(RBRACE)]))))
  }

  function SelectionsTokens(xs: seq<Selection>): seq<Token>
    decreases xs, 1
  {
    if xs == [] then [] else SelectionTokens(xs[0]) + SelectionsTokens(xs[1..])
  }

  function SelectionSetTokens(xs: seq<Selection>): seq<Token> {
    [Punct(LBRACE)] + (SelectionsTokens(xs) + [Punct(RBRACE)])
  }

  function DefinitionTokens(d: Definition): (ts: seq<Token>)
    ensures ts != []
  {
    match d
    case Operation(desc, shorthand, kind, name, vars, dirs, sels) =>
      if shorthand then SelectionSetTokens(sels)
      else
        DescriptionTokens(desc) + ([NameToken(Descent.KindKeyword(kind))]
          + (NameTokens(name) + (VariablesTokens(vars) + (DirectivesTokens(dirs) + SelectionSetTokens(sels)))))
    case Fragment(desc, name, cond, dirs, sels) =>
      DescriptionTokens(desc)
      + ([NameToken(KW_FRAGMENT), NameToken(name), NameToken(KW_ON), NameToken(cond)]
         + (DirectivesTokens(dirs) + SelectionSetTokens(sels)))
  }

  function DocumentTokens(ds: Document): seq<Token> {
    if ds == [] then [] else DefinitionTokens(ds[0]) + DocumentTokens(ds[1..])
  }

  // ----- Which documents there are

  /** A Value, or a Value[Const], which holds no variable. */
  predicate WfValue(v: Value, constant: bool)
    decreases v, 0
  {
    match v
    case Variable(n) => !constant && IsName(n)
    case IntValue(t) => IsNumberText(t, false)
    case FloatValue(t) => IsNumberText(t, true)
    case StringValue(t) => IsUtf8(t)
    case EnumValue(n) => IsName(n) && n != KW_NULL && n != KW_TRUE && n != KW_FALSE
    case ListValue(vs) => WfItems(vs, constant)
    case ObjectValue(fs) => WfFields(fs, constant)
    case _ => true
  }

  predicate WfItems(vs: seq<Value>, constant: bool)
    decreases vs, 1
  {
    vs == [] || (WfValue(vs[0], constant) && WfItems(vs[1..], constant))
  }

  predicate WfFields(fs: seq<ObjectField>, constant: bool)
    decreases fs, 1
  {
    fs == [] || (WfField(fs[0], constant) && WfFields(fs[1..], constant))
  }

  predicate WfField(f: ObjectField, constant: bool)
    decreases f, 1
  {
    IsName(f.name) && WfValue(f.value, constant)
  }

  predicate WfArgument(a: Argument, constant: bool) { IsName(a.name) && WfValue(a.value, constant) }

  predicate WfArguments(xs: seq<Argument>, constant: bool) {
    xs == [] || (WfArgument(xs[0], constant) && WfArguments(xs[1..], constant))
  }

  predicate WfDirective(d: Directive, constant: bool) { IsName(d.name) && WfArguments(d.arguments, constant) }

  predicate WfDirectives(ds: seq<Directive>, constant: bool) {
    ds == [] || (WfDirective(ds[0], constant) && WfDirectives(ds[1..], constant))
  }

  predicate WfType(t: Type) {
    match t
    case Named(n) => IsName(n)
    case ListType(u) => WfType(u)
    case NonNull(u) => !u.NonNull? && WfType(u)
  }

  /** Default values and directives of variable definitions are constant. */
  predicate WfVariable(v: VariableDefinition) {
    && IsTextIf(v.description)
    && IsName(v.name) && WfType(v.ty) && (v.default.Some? ==> WfValue(v.default.value, true)) && WfDirectives(v.directives, true)
  }

  predicate WfVariables(vs: seq<VariableDefinition>) {
    vs == [] || (WfVariable(vs[0]) && WfVariables(vs[1..]))
  }

  /** A Description is a StringValue. */
  predicate IsTextIf(d: Option<bytes>) { d.Some? ==> IsUtf8(d.value) }

  predicate IsNameIf(n: Option<bytes>) { n.Some? ==> IsName(n.value) }

  predicate WfSelection(x: Selection)
    decreases x, 0
  {
    match x
    case Field(alias, name, args, dirs, sels) =>
      IsNameIf(alias) && IsName(name) && WfArguments(args, false) && WfDirectives(dirs, false) && WfSelections(sels)
    case FragmentSpread(name, dirs) => IsName(name) && name != KW_ON && WfDirectives(dirs, false)
    case InlineFragment(condition, dirs, sels) =>
      IsNameIf(condition) && WfDirectives(dirs, false) && sels != [] && WfSelections(sels)
  }

  predicate WfSelections(xs: seq<Selection>)
    decreases xs, 1
  {
    xs == [] || (WfSelection(xs[0]) && WfSelections(xs[1..]))
  }

  predicate WfDefinition(d: Definition) {
    match d
    case Operation(desc, shorthand, kind, name, vars, dirs, sels) =>
      && IsTextIf(desc) && (shorthand ==> desc.None? && kind.Query? && name.None? && vars == [] && dirs == [])
      && IsNameIf(name) && WfVariables(vars) && WfDirectives(dirs, false) && sels != [] && WfSelections(sels)
    case Fragment(desc, name, condition, dirs, sels) =>
      IsTextIf(desc) && IsName(name) && name != KW_ON && IsName(condition) && WfDirectives(dirs, false) && sels != [] && WfSelections(sels)
  }

  predicate WfDefinitions(ds: Document) {
    ds == [] || (WfDefinition(ds[0]) && WfDefinitions(ds[1..]))
  }

  /** A Document holds at least one definition. */
  predicate WfDocument(ds: Document) { ds != [] && WfDefinitions(ds) }

  // ----- How deeply a document nests

  function Max(a: nat, b: nat): nat { if a <= b then b else a }

  /** How many non-empty lists and input objects are open at once, at most. */
  function ValueDepth(v: Value): nat
    decreases v, 0
  {
    match v
    case ListValue(vs) => if vs == [] then 0 else 1 + ItemsDepth(vs)
    case ObjectValue(fs) => if fs == [] then 0 else 1 + FieldsDepth(fs)
    case _ => 0
  }

  function ItemsDepth(vs: seq<Value>): nat
    decreases vs, 1
  {
    if vs == [] then 0 else Max(ValueDepth(vs[0]), ItemsDepth(vs[1..]))
  }

  function FieldDepth(f: ObjectField): nat
    decreases f, 1
  {
    ValueDepth(f.value)
  }

  function FieldsDepth(fs: seq<ObjectField>): nat
    decreases fs, 1
  {
    if fs == [] then 0 else Max(FieldDepth(fs[0]), FieldsDepth(fs[1..]))
  }

  function ArgumentsDepth(xs: seq<Argument>): nat {
    if xs == [] then 0 else Max(ValueDepth(xs[0].value), ArgumentsDepth(xs[1..]))
  }

  function DirectivesDepth(ds: seq<Directive>): nat {
    if ds == [] then 0 else Max(ArgumentsDepth(ds[0].arguments), DirectivesDepth(ds[1..]))
  }

  function VariableDepth(v: VariableDefinition): nat {
    Max(if v.default.Some? then ValueDepth(v.default.value) else 0, DirectivesDepth(v.directives))
  }

  function VariablesDepth(vs: seq<VariableDefinition>): nat {
    if vs == [] then 0 else Max(VariableDepth(vs[0]), VariablesDepth(vs[1..]))
  }

  /** The depth of the values in a selection. */
  function SelectionDepth(x: Selection): nat
    decreases x, 0
  {
    match x
    case Field(_, _, args, dirs, sels) => Max(Max(ArgumentsDepth(args), DirectivesDepth(dirs)), SelectionsDepth(sels))
    case FragmentSpread(_, dirs) => DirectivesDepth(dirs)
    case InlineFragment(_, dirs, sels) => Max(DirectivesDepth(dirs), SelectionsDepth(sels))
  }

  function SelectionsDepth(xs: seq<Selection>): nat
    decreases xs, 1
  {
    if xs == [] then 0 else Max(SelectionDepth(xs[0]), SelectionsDepth(xs[1..]))
  }

  /** How many selection sets are open at once, at most. */
  function Nesting(x: Selection): nat
    decreases x, 0
  {
    match x
    case Field(_, _, _, _, sels) => if sels == [] then 0 else 1 + NestingAll(sels)
    case FragmentSpread(_, _) => 0
    case InlineFragment(_, _, sels) => 1 + NestingAll(sels)
  }

  function NestingAll(xs: seq<Selection>): nat
    decreases xs, 1
  {
    if xs == [] then 0 else Max(Nesting(xs[0]), NestingAll(xs[1..]))
  }

  /** The values and the selection sets of a definition stay within the limit. */
  predicate DefinitionFits(d: Definition, limit: nat) {
    match d
    case Operation(_, _, _, _, vars, dirs, sels) =>
      && VariablesDepth(vars) <= limit && DirectivesDepth(dirs) <= limit
      && SelectionsDepth(sels) <= limit && 1 + NestingAll(sels) <= limit
    case Fragment(_, _, _, dirs, sels) =>
      DirectivesDepth(dirs) <= limit && SelectionsDepth(sels) <= limit && 1 + NestingAll(sels) <= limit
  }

  predicate Fits(ds: Document, limit: nat) {
    ds == [] || (DefinitionFits(ds[0], limit) && Fits(ds[1..], limit))
  }
}
