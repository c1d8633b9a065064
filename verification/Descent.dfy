/**
 The grammar as recursive functions over the source text, with the errors and the
 positions the state machine reports. Each production takes the index of its first byte and
 yields what it read and the index right after it.

 Nothing here is flat: a production calls the productions it is made of, and each call
 returns to its own caller. Module StateMachine proves that the one loop of labels, with one
 return slot per kind and one stack of frames, computes the same.
 */
module Descent {
  import opened Bytes
  import opened Lexical
  import opened StringLine
  import opened BlockString
  import opened Ast

  /** A single byte that must come next. */
  function Expect(s: bytes, i: nat, b: byte): (r: R<()>)
    requires i <= |s|
    ensures r.Ok? ==> i < r.next <= |s|
    ensures r.Err? ==> i <= r.pos <= |s|
  {
    if i == |s| then Err(UnexpectedEOF, i)
    else if s[i] != b then Err(UnexpectedToken, i)
    else Ok((), i + 1)
  }

  /** Anything must come next. */
  function Peek(s: bytes, i: nat): (r: R<byte>)
    requires i <= |s|
    ensures r.Ok? ==> i < |s| && r.next == i && r.v == s[i]
    ensures r.Err? ==> i <= r.pos <= |s|
  {
    if i == |s| then Err(UnexpectedEOF, i) else Ok(s[i], i)
  }

  function Name(s: bytes, i: nat): (r: R<bytes>)
    requires i <= |s|
    ensures r.Ok? ==> i < r.next <= |s|
    ensures r.Err? ==> i <= r.pos <= |s|
  {
    if i == |s| then Err(UnexpectedEOF, i)
    else if !IsNameStart(s[i]) then Err(UnexpectedToken, i)
    else Ok(s[i..NameEnd(s, i + 1)], NameEnd(s, i + 1))
  }

  /** The value of the StringValue that begins at s[i]. */
  function StringToken(s: bytes, i: nat): (r: R<bytes>)
    requires i < |s| && s[i] == QUOTE
    ensures r.Ok? ==> i < r.next <= |s|
    ensures r.Err? ==> i <= r.pos <= |s|
  {
    if HasPrefixAt(s, i, TRIPLE) then BlockText(s, i + 3) else LineString(s, i + 1)
  }

  /** An optional Description, and something after it. */
  function Description(s: bytes, i: nat): (r: R<Option<bytes>>)
    requires i < |s|
    ensures r.Ok? ==> i <= r.next < |s|
    ensures r.Err? ==> i <= r.pos <= |s|
  {
    if s[i] != QUOTE then Ok(None, i)
    else
      var (d, j) :- StringToken(s, i);
      var (_, k) :- Peek(s, Skip(s, j));
      Ok(Some(d), k)
  }

  // ----- Values. constant is Value[Const]; room is how many more values may be nested.

  function ParseValue(s: bytes, i: nat, constant: bool, room: nat): (r: R<Value>)
    requires i <= |s|
    ensures r.Ok? ==> i < r.next <= |s|
    ensures r.Err? ==> i <= r.pos <= |s|
    decreases |s| - i, 1
  {
    if i == |s| then Err(UnexpectedEOF, i)
    else if s[i] == DOLLAR then
      if constant then Err(UnexpectedVariable, i)
      else
        var (n, j) :- Name(s, Skip(s, i + 1));
        Ok(Variable(n), j)
    else if s[i] == QUOTE then
      var (t, j) :- StringToken(s, i);
      Ok(StringValue(t), j)
    else if s[i] == LBRACKET then
      var j := Skip(s, i + 1);
      if j < |s| && s[j] == RBRACKET then Ok(ListValue([]), j + 1)
      else if room == 0 then Err(TooDeep, j)
      else
        var (v, k) :- ParseValue(s, j, constant, room - 1);
        var (vs, m) :- ParseItems(s, k, constant, room - 1);
        Ok(ListValue([v] + vs), m)
    else if s[i] == LBRACE then
      var j := Skip(s, i + 1);
      if j < |s| && s[j] == RBRACE then Ok(ObjectValue([]), j + 1)
      else if room == 0 then Err(TooDeep, j)
      else
        var (f, k) :- ParseField(s, j, constant, room - 1);
        var (fs, m) :- ParseFields(s, k, constant, room - 1);
        Ok(ObjectValue([f] + fs), m)
    else if s[i] == MINUS || IsDigit(s[i]) then
      var (isFloat, j) :- Number(s, i);
      Ok(if isFloat then FloatValue(s[i..j]) else IntValue(s[i..j]), j)
    else if IsKeywordAt(s, i, KW_NULL) then Ok(NullValue, i + |KW_NULL|)
    else if IsKeywordAt(s, i, KW_TRUE) then Ok(BooleanValue(true), i + |KW_TRUE|)
    else if IsKeywordAt(s, i, KW_FALSE) then Ok(BooleanValue(false), i + |KW_FALSE|)
    else
      var (n, j) :- Name(s, i);
      Ok(EnumValue(n), j)
  }

  /** What follows an item of a list: more items, then the closing bracket. */
  function ParseItems(s: bytes, i: nat, constant: bool, room: nat): (r: R<seq<Value>>)
    requires i <= |s|
    ensures r.Ok? ==> i < r.next <= |s|
    ensures r.Err? ==> i <= r.pos <= |s|
    decreases |s| - i, 2
  {
    var (b, j) :- Peek(s, Skip(s, i));
    if b == RBRACKET then Ok([], j + 1)
    else
      var (v, k) :- ParseValue(s, j, constant, room);
      var (vs, m) :- ParseItems(s, k, constant, room);
      Ok([v] + vs, m)
  }

  function ParseField(s: bytes, i: nat, constant: bool, room: nat): (r: R<ObjectField>)
    requires i <= |s|
    ensures r.Ok? ==> i < r.next <= |s|
    ensures r.Err? ==> i <= r.pos <= |s|
    decreases |s| - i, 1
  {
    var (n, j) :- Name(s, i);
    var (_, k) :- Expect(s, Skip(s, j), COLON);
    var (v, m) :- ParseValue(s, Skip(s, k), constant, room);
    Ok(ObjectField(n, v), m)
  }

  /** What follows a field of an input object: more fields, then the closing brace. */
  function ParseFields(s: bytes, i: nat, constant: bool, room: nat): (r: R<seq<ObjectField>>)
    requires i <= |s|
    ensures r.Ok? ==> i < r.next <= |s|
    ensures r.Err? ==> i <= r.pos <= |s|
    decreases |s| - i, 2
  {
    var (b, j) :- Peek(s, Skip(s, i));
    if b == RBRACE then Ok([], j + 1)
    else
      var (f, k) :- ParseField(s, j, constant, room);
      var (fs, m) :- ParseFields(s, k, constant, room);
      Ok([f] + fs, m)
  }

  // ----- Arguments and directives. limit is the depth limit.

  function ParseArgument(s: bytes, i: nat, constant: bool, limit: nat): (r: R<Argument>)
    requires i <= |s|
    ensures r.Ok? ==> i < r.next <= |s|
    ensures r.Err? ==> i <= r.pos <= |s|
  {
    var (n, j) :- Name(s, i);
    var (_, k) :- Expect(s, Skip(s, j), COLON);
    var (v, m) :- ParseValue(s, Skip(s, k), constant, limit);
    Ok(Argument(n, v), m)
  }

  /** One or more arguments, then the closing parenthesis. */
  function ParseArguments(s: bytes, i: nat, constant: bool, limit: nat): (r: R<seq<Argument>>)
    requires i <= |s|
    ensures r.Ok? ==> i < r.next <= |s| && r.v != []
    ensures r.Err? ==> i <= r.pos <= |s|
    decreases |s| - i, 1
  {
    var (a, j) :- ParseArgument(s, i, constant, limit);
    var (xs, k) :- ArgumentsRest(s, j, constant, limit);
    Ok([a] + xs, k)
  }

  function ArgumentsRest(s: bytes, i: nat, constant: bool, limit: nat): (r: R<seq<Argument>>)
    requires i <= |s|
    ensures r.Ok? ==> i < r.next <= |s|
    ensures r.Err? ==> i <= r.pos <= |s|
    decreases |s| - i, 2
  {
    var (b, j) :- Peek(s, Skip(s, i));
    if b == RPAREN then Ok([], j + 1) else ParseArguments(s, j, constant, limit)
  }

  /** The directives at s[i], none included. */
  function ParseDirectives(s: bytes, i: nat, constant: bool, limit: nat): (r: R<seq<Directive>>)
    requires i <= |s|
    ensures r.Ok? ==> i <= r.next <= |s|
    ensures r.Err? ==> i <= r.pos <= |s|
    decreases |s| - i
  {
    if i == |s| || s[i] != AT then Ok([], i)
    else
      var (n, j) :- Name(s, Skip(s, i + 1));
      var (b, k) :- Peek(s, Skip(s, j));
      if b == LPAREN then
        var (xs, m) :- ParseArguments(s, Skip(s, k + 1), constant, limit);
        var (ds, e) :- ParseDirectives(s, Skip(s, m), constant, limit);
        Ok([Directive(n, xs)] + ds, e)
      else
        var (ds, e) :- ParseDirectives(s, k, constant, limit);
        Ok([Directive(n, [])] + ds, e)
  }

  // ----- Types and variable definitions

  function ParseType(s: bytes, i: nat): (r: R<Type>)
    requires i <= |s|
    ensures r.Ok? ==> i < r.next <= |s|
    ensures r.Err? ==> i <= r.pos <= |s|
    decreases |s| - i
  {
    if i < |s| && s[i] == LBRACKET then
      var (t, j) :- ParseType(s, Skip(s, i + 1));
      var (_, k) :- Expect(s, Skip(s, j), RBRACKET);
      Ok(Banged(s, k, ListType(t)), BangEnd(s, k))
    else
      var (n, j) :- Name(s, i);
      Ok(Banged(s, j, Named(n)), BangEnd(s, j))
  }

  predicate BangAt(s: bytes, i: nat)
    requires i <= |s|
  {
    Skip(s, i) < |s| && s[Skip(s, i)] == BANG
  }

  /** The type t made NonNull by a '!' that Ignored tokens may precede. */
  function Banged(s: bytes, i: nat, t: Type): Type
    requires i <= |s|
  {
    if BangAt(s, i) then NonNull(t) else t
  }

  function BangEnd(s: bytes, i: nat): (j: nat)
    requires i <= |s|
    ensures i <= j <= |s|
  {
    if BangAt(s, i) then Skip(s, i) + 1 else i
  }

  function ParseDefault(s: bytes, i: nat, limit: nat): (r: R<Option<Value>>)
    requires i <= |s|
    ensures r.Ok? ==> i <= r.next <= |s|
    ensures r.Err? ==> i <= r.pos <= |s|
  {
    var (b, j) :- Peek(s, Skip(s, i));
    if b != EQUALS then Ok(None, j)
    else
      var (v, k) :- ParseValue(s, Skip(s, j + 1), true, limit);
      Ok(Some(v), Skip(s, k))
  }

  function ParseVariable(s: bytes, i: nat, limit: nat): (r: R<VariableDefinition>)
    requires i < |s|
    ensures r.Ok? ==> i < r.next <= |s|
    ensures r.Err? ==> i <= r.pos <= |s|
  {
    var (d, i1) :- Description(s, i);
    var (_, i2) :- Expect(s, i1, DOLLAR);
    var (n, i3) :- Name(s, Skip(s, i2));
    var (_, i4) :- Expect(s, Skip(s, i3), COLON);
    var (t, i5) :- ParseType(s, Skip(s, i4));
    var (v, i6) :- ParseDefault(s, i5, limit);
    var (ds, i7) :- ParseDirectives(s, i6, true, limit);
    Ok(VariableDefinition(d, n, t, v, ds), i7)
  }

  /** One or more variable definitions, then the closing parenthesis. */
  function ParseVariables(s: bytes, i: nat, limit: nat): (r: R<seq<VariableDefinition>>)
    requires i < |s|
    ensures r.Ok? ==> i < r.next <= |s| && r.v != []
    ensures r.Err? ==> i <= r.pos <= |s|
    decreases |s| - i, 1
  {
    var (v, j) :- ParseVariable(s, i, limit);
    var (vs, k) :- VariablesRest(s, j, limit);
    Ok([v] + vs, k)
  }

  function VariablesRest(s: bytes, i: nat, limit: nat): (r: R<seq<VariableDefinition>>)
    requires i <= |s|
    ensures r.Ok? ==> i < r.next <= |s|
    ensures r.Err? ==> i <= r.pos <= |s|
    decreases |s| - i, 2
  {
    var (b, j) :- Peek(s, Skip(s, i));
    if b == RPAREN then Ok([], j + 1) else ParseVariables(s, j, limit)
  }

  // ----- Selections. depth is how many selection sets are open.

  /** A selection set, from its opening to its closing brace. */
  function ParseSelectionSet(s: bytes, i: nat, depth: nat, limit: nat): (r: R<seq<Selection>>)
    requires i <= |s|
    ensures r.Ok? ==> i < r.next <= |s| && r.v != []
    ensures r.Err? ==> i <= r.pos <= |s|
    decreases |s| - i, 1
  {
    var (_, j) :- Expect(s, i, LBRACE);
    if depth + 1 > limit then Err(TooDeep, Skip(s, j))
    else
      var (x, k) :- ParseSelection(s, Skip(s, j), depth + 1, limit);
      var (xs, m) :- SelectionsRest(s, k, depth + 1, limit);
      Ok([x] + xs, m)
  }

  /** What follows a selection: more selections, then the closing brace. */
  function SelectionsRest(s: bytes, i: nat, depth: nat, limit: nat): (r: R<seq<Selection>>)
    requires i <= |s|
    ensures r.Ok? ==> i < r.next <= |s|
    ensures r.Err? ==> i <= r.pos <= |s|
    decreases |s| - i, 3
  {
    var (b, j) :- Peek(s, i);
    if b == RBRACE then Ok([], i + 1)
    else
      var (x, k) :- ParseSelection(s, i, depth, limit);
      var (xs, m) :- SelectionsRest(s, k, depth, limit);
      Ok([x] + xs, m)
  }

  const ELLIPSIS: bytes := [0x2e, 0x2e, 0x2e]

  /** A selection and the Ignored tokens after it. */
  function ParseSelection(s: bytes, i: nat, depth: nat, limit: nat): (r: R<Selection>)
    requires i <= |s|
    ensures r.Ok? ==> i < r.next <= |s|
    ensures r.Err? ==> i <= r.pos <= |s|
    decreases |s| - i, 2
  {
    if HasPrefixAt(s, i, ELLIPSIS) then
      var j := Skip(s, i + 3);
      if IsKeywordAt(s, j, KW_ON) then
        var (t, k) :- Name(s, Skip(s, j + 2));
        ParseInline(s, Skip(s, k), Some(t), depth, limit)
      else if Name(s, j).Ok? then
        var Ok(n, k) := Name(s, j);
        var (ds, m) :- ParseDirectives(s, Skip(s, k), false, limit);
        Ok(FragmentSpread(n, ds), Skip(s, m))
      else
        ParseInline(s, j, None, depth, limit)
    else
      var (n, j) :- Name(s, i);
      var (b, k) :- Peek(s, Skip(s, j));
      if b == COLON then
        var (m, e) :- Name(s, Skip(s, k + 1));
        var (_, f) :- Peek(s, Skip(s, e));
        ParseFieldRest(s, f, Some(n), m, depth, limit)
      else
        ParseFieldRest(s, k, None, n, depth, limit)
  }

  /** The directives and the selection set of an inline fragment. */
  function ParseInline(s: bytes, i: nat, condition: Option<bytes>, depth: nat, limit: nat): (r: R<Selection>)
    requires i <= |s|
    ensures r.Ok? ==> i < r.next <= |s|
    ensures r.Err? ==> i <= r.pos <= |s|
    decreases |s| - i, 2
  {
    var (ds, j) :- ParseDirectives(s, i, false, limit);
    var (xs, k) :- ParseSelectionSet(s, Skip(s, j), depth, limit);
    Ok(InlineFragment(condition, ds, xs), Skip(s, k))
  }

  /** The optional arguments of a field. */
  function FieldArguments(s: bytes, i: nat, limit: nat): (r: R<seq<Argument>>)
    requires i < |s|
    ensures r.Ok? ==> i <= r.next <= |s|
    ensures r.Err? ==> i <= r.pos <= |s|
  {
    if s[i] == LPAREN then
      var (xs, j) :- ParseArguments(s, Skip(s, i + 1), false, limit);
      Ok(xs, Skip(s, j))
    else Ok([], i)
  }

  /** The arguments, directives and selection set of a field. */
  function ParseFieldRest(s: bytes, i: nat, alias: Option<bytes>, name: bytes, depth: nat, limit: nat): (r: R<Selection>)
    requires i < |s|
    ensures r.Ok? ==> i <= r.next <= |s|
    ensures r.Err? ==> i <= r.pos <= |s|
    decreases |s| - i, 2
  {
    var (xs, j) :- FieldArguments(s, i, limit);
    var (ds, k) :- ParseDirectives(s, j, false, limit);
    var (b, m) :- Peek(s, Skip(s, k));
    if b == LBRACE then
      var (ss, e) :- ParseSelectionSet(s, m, depth, limit);
      Ok(Field(alias, name, xs, ds, ss), Skip(s, e))
    else
      Ok(Field(alias, name, xs, ds, []), m)
  }

  // ----- Definitions

  function KindAt(s: bytes, i: nat): Option<Kind>
    requires i <= |s|
  {
    if IsKeywordAt(s, i, KW_QUERY) then Some(Query)
    else if IsKeywordAt(s, i, KW_MUTATION) then Some(Mutation)
    else if IsKeywordAt(s, i, KW_SUBSCRIPTION) then Some(Subscription)
    else None
  }

  function KindKeyword(k: Kind): bytes {
    match k
    case Query => KW_QUERY
    case Mutation => KW_MUTATION
    case Subscription => KW_SUBSCRIPTION
  }

  function ParseDefinition(s: bytes, i: nat, limit: nat): (r: R<Definition>)
    requires i < |s|
    ensures r.Ok? ==> i < r.next <= |s|
    ensures r.Err? ==> i <= r.pos <= |s|
  {
    var (d, j) :- Description(s, i);
    if s[j] == LBRACE then
      if d.Some? then Err(UnexpectedToken, j)
      else
        var (ss, k) :- ParseSelectionSet(s, j, 0, limit);
        Ok(Operation(None, true, Query, None, [], [], ss), k)
    else if IsKeywordAt(s, j, KW_FRAGMENT) then
      ParseFragment(s, Skip(s, j + |KW_FRAGMENT|), d, limit)
    else if KindAt(s, j).Some? then
      var kind := KindAt(s, j).value;
      ParseOperation(s, Skip(s, j + |KindKeyword(kind)|), d, kind, limit)
    else Err(UnexpectedToken, j)
  }

  /** An optional operation name, and something after it. */
  function OperationName(s: bytes, i: nat): (r: R<Option<bytes>>)
    requires i <= |s|
    ensures r.Ok? ==> i <= r.next < |s|
    ensures r.Err? ==> i <= r.pos <= |s|
  {
    var (b, _) :- Peek(s, i);
    if Name(s, i).Ok? then
      var Ok(n, j) := Name(s, i);
      var (_, k) :- Peek(s, Skip(s, j));
      Ok(Some(n), k)
    else Ok(None, i)
  }

  /** The optional variable definitions of an operation. */
  function OperationVariables(s: bytes, i: nat, limit: nat): (r: R<seq<VariableDefinition>>)
    requires i < |s|
    ensures r.Ok? ==> i <= r.next <= |s|
    ensures r.Err? ==> i <= r.pos <= |s|
  {
    if s[i] == LPAREN then
      var (_, j) :- Peek(s, Skip(s, i + 1));
      var (vs, k) :- ParseVariables(s, j, limit);
      Ok(vs, Skip(s, k))
    else Ok([], i)
  }

  function ParseOperation(s: bytes, i: nat, d: Option<bytes>, kind: Kind, limit: nat): (r: R<Definition>)
    requires i <= |s|
    ensures r.Ok? ==> i < r.next <= |s|
    ensures r.Err? ==> i <= r.pos <= |s|
  {
    var (n, j) :- OperationName(s, i);
    var (vs, k) :- OperationVariables(s, j, limit);
    var (ds, m) :- ParseDirectives(s, k, false, limit);
    var (ss, e) :- ParseSelectionSet(s, Skip(s, m), 0, limit);
    Ok(Operation(d, false, kind, n, vs, ds, ss), e)
  }

  function ParseFragment(s: bytes, i: nat, d: Option<bytes>, limit: nat): (r: R<Definition>)
    requires i <= |s|
    ensures r.Ok? ==> i < r.next <= |s|
    ensures r.Err? ==> i <= r.pos <= |s|
  {
    var (n, j) :- Name(s, i);
    if n == KW_ON then Err(UnexpectedToken, i)
    else
      var (_, k) :- Peek(s, Skip(s, j));
      if !IsKeywordAt(s, k, KW_ON) then Err(UnexpectedToken, k)
      else
        var (t, m) :- Name(s, Skip(s, k + 2));
        var (ds, e) :- ParseDirectives(s, Skip(s, m), false, limit);
        var (ss, f) :- ParseSelectionSet(s, Skip(s, e), 0, limit);
        Ok(Fragment(d, n, t, ds, ss), f)
  }

  /** One or more definitions, up to the end of the source. */
  function ParseDefinitions(s: bytes, i: nat, limit: nat): (r: R<Document>)
    requires i < |s|
    ensures r.Ok? ==> r.next == |s| && r.v != []
    ensures r.Err? ==> i <= r.pos <= |s|
    decreases |s| - i
  {
    var (d, j) :- ParseDefinition(s, i, limit);
    if Skip(s, j) == |s| then Ok([d], |s|)
    else
      var (ds, k) :- ParseDefinitions(s, Skip(s, j), limit);
      Ok([d] + ds, k)
  }

  /** A Document: one or more definitions, Ignored tokens around them. */
  function ParseDocument(s: bytes, limit: nat): (r: R<Document>)
    ensures r.Ok? ==> r.next == |s| && r.v != []
    ensures r.Err? ==> r.pos <= |s|
  {
    var (_, i) :- Peek(s, Skip(s, 0));
    ParseDefinitions(s, i, limit)
  }
}
