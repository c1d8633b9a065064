/**
 What is left of a run: for each label of the state machine, what the recursive grammar of
 module Descent makes of the source from there on, given the bytes already written.

 The state machine has no call stack. Its return slots, its stack of frames and its depth
 counter stand for one, and these functions say which.
 */
module Continuation {
  import opened Bytes
  import opened Lexical
  import opened Ast
  import opened Canonical
  import opened Descent

  /** What stays the same for a whole run. */
  datatype Context = Context(src: bytes, limit: nat, ignore: Ignore)

  /** How a run ends: with the canonical form, or with an error at an index. */
  datatype Outcome = Accept(out: bytes) | Reject(e: Error, pos: nat)

  /** frameList and frameObject. */
  datatype Frame = ListFrame | ObjectFrame

  /** Where directives continue once they are read. */
  datatype DirRet = DirSelectionSet | DirVarDef | DirField | DirSpread

  /** Where arguments continue. */
  datatype ArgRet = ArgField | ArgDirective

  /** Where the outermost value continues. */
  datatype ValRet = ValArgument | ValDefault

  /** Bytes that Options may leave out. */
  function Unless(muted: bool, s: bytes): bytes {
    if muted then [] else s
  }

  /** What reading a document comes to. */
  function Run(c: Context): Outcome {
    match ParseDocument(c.src, c.limit)
    case Err(e, p) => Reject(e, p)
    case Ok(d, _) => Accept(SerDocument(c.ignore, d))
  }

  // ----- Definitions and selection sets

  function FromDefinitionEnd(c: Context, i: nat, out: bytes): Outcome
    requires i <= |c.src|
    decreases |c.src| - i, 1
  {
    var j := Skip(c.src, i);
    if j == |c.src| then Accept(out) else FromDefinition(c, j, out)
  }

  function FromDefinition(c: Context, i: nat, out: bytes): Outcome
    requires i < |c.src|
    decreases |c.src| - i, 0
  {
    match ParseDefinition(c.src, i, c.limit)
    case Err(e, p) => Reject(e, p)
    case Ok(d, j) => FromDefinitionEnd(c, j, out + SerDefinition(c.ignore, d))
  }

  /** At the keyword `fragment`; its description does not matter. */
  function FromFragment(c: Context, i: nat, out: bytes): Outcome
    requires i <= |c.src| && IsKeywordAt(c.src, i, KW_FRAGMENT)
  {
    match ParseFragment(c.src, Skip(c.src, i + |KW_FRAGMENT|), None, c.limit)
    case Err(e, p) => Reject(e, p)
    case Ok(d, j) => FromDefinitionEnd(c, j, out + SerDefinition(c.ignore, d))
  }

  /** Right after a '}' that leaves depth selection sets open. */
  function FromSelectionSetEnd(c: Context, i: nat, depth: nat, out: bytes): Outcome
    requires i <= |c.src|
    decreases depth, 1
  {
    if depth == 0 then FromDefinitionEnd(c, i, out)
    else FromAfterSelection(c, Skip(c.src, i), depth, out)
  }

  function FromAfterSelection(c: Context, i: nat, depth: nat, out: bytes): Outcome
    requires i <= |c.src| && depth > 0
    decreases depth, 0
  {
    match SelectionsRest(c.src, i, depth, c.limit)
    case Err(e, p) => Reject(e, p)
    case Ok(xs, j) =>
      FromSelectionSetEnd(c, j, depth - 1, out + SerSelections(c.ignore, xs) + [PREF_SELECTION_SET_END])
  }

  function FromSelectionSet(c: Context, i: nat, depth: nat, out: bytes): Outcome
    requires i <= |c.src|
  {
    match ParseSelectionSet(c.src, i, depth, c.limit)
    case Err(e, p) => Reject(e, p)
    case Ok(xs, j) => FromSelectionSetEnd(c, j, depth, out + SerSelectionSet(c.ignore, xs))
  }

  function FromSelection(c: Context, i: nat, depth: nat, out: bytes): Outcome
    requires i <= |c.src| && depth > 0
  {
    match ParseSelection(c.src, i, depth, c.limit)
    case Err(e, p) => Reject(e, p)
    case Ok(x, j) => FromAfterSelection(c, j, depth, out + SerSelection(c.ignore, x))
  }

  function FromFieldAfterDirectives(c: Context, i: nat, depth: nat, out: bytes): Outcome
    requires i <= |c.src| && depth > 0
  {
    match Peek(c.src, Skip(c.src, i))
    case Err(e, p) => Reject(e, p)
    case Ok(b, j) =>
      if b == LBRACE then FromSelectionSet(c, j, depth, out) else FromAfterSelection(c, j, depth, out)
  }

  // ----- Directives and variable definitions

  /** The slot agrees with how many selection sets are open. */
  predicate DirOk(d: DirRet, depth: nat) {
    && (d.DirField? || d.DirSpread? ==> depth > 0)
    && (d.DirVarDef? ==> depth == 0)
  }

  function FromDirectives(c: Context, i: nat, ret: DirRet, depth: nat, out: bytes): Outcome
    requires i <= |c.src| && DirOk(ret, depth)
    decreases |c.src| - i, 2
  {
    match ParseDirectives(c.src, i, ret.DirVarDef?, c.limit)
    case Err(e, p) => Reject(e, p)
    case Ok(ds, j) =>
      FromDirectivesEnd(c, j, ret, depth,
                        out + Unless(ret.DirVarDef? && c.ignore.Variables?, SerDirectives(c.ignore, ds)))
  }

  function FromDirectivesEnd(c: Context, i: nat, ret: DirRet, depth: nat, out: bytes): Outcome
    requires i <= |c.src| && DirOk(ret, depth)
    decreases |c.src| - i, 1
  {
    match ret
    case DirVarDef => FromVariableEnd(c, i, out)
    case DirField => FromFieldAfterDirectives(c, i, depth, out)
    case DirSpread => FromAfterSelection(c, Skip(c.src, i), depth, out)
    case DirSelectionSet => FromSelectionSet(c, Skip(c.src, i), depth, out)
  }

  function FromVariableEnd(c: Context, i: nat, out: bytes): Outcome
    requires i <= |c.src|
    decreases |c.src| - i, 0
  {
    match VariablesRest(c.src, i, c.limit)
    case Err(e, p) => Reject(e, p)
    case Ok(vs, j) =>
      FromDirectives(c, Skip(c.src, j), DirSelectionSet, 0,
                     out + Unless(c.ignore.Variables?, SerVariables(c.ignore, vs)))
  }

  function FromVariable(c: Context, i: nat, out: bytes): Outcome
    requires i < |c.src|
  {
    match ParseVariables(c.src, i, c.limit)
    case Err(e, p) => Reject(e, p)
    case Ok(vs, j) =>
      FromDirectives(c, Skip(c.src, j), DirSelectionSet, 0,
                     out + Unless(c.ignore.Variables?, SerVariables(c.ignore, vs)))
  }

  function FromDefault(c: Context, i: nat, out: bytes): Outcome
    requires i <= |c.src|
  {
    match ParseDefault(c.src, i, c.limit)
    case Err(e, p) => Reject(e, p)
    case Ok(v, j) => FromDirectives(c, j, DirVarDef, 0, out + SerDefault(c.ignore, v))
  }

  function Bang(s: bytes, i: nat): bytes
    requires i <= |s|
  {
    if BangAt(s, i) then [BANG] else []
  }

  /** depth brackets of a type are still to be closed. */
  function FromTypeClose(c: Context, i: nat, depth: nat, out: bytes): Outcome
    requires i <= |c.src|
    decreases depth
  {
    if depth == 0 then FromDefault(c, i, out)
    else
      match Expect(c.src, Skip(c.src, i), RBRACKET)
      case Err(e, p) => Reject(e, p)
      case Ok(_, j) =>
        FromTypeClose(c, BangEnd(c.src, j), depth - 1,
                      out + Unless(c.ignore.Variables?, [RBRACKET] + Bang(c.src, j)))
  }

  function FromTypeAfter(c: Context, i: nat, depth: nat, out: bytes): Outcome
    requires i <= |c.src|
  {
    FromTypeClose(c, BangEnd(c.src, i), depth, out + Unless(c.ignore.Variables?, Bang(c.src, i)))
  }

  function FromType(c: Context, i: nat, depth: nat, out: bytes): Outcome
    requires i <= |c.src|
  {
    match ParseType(c.src, i)
    case Err(e, p) => Reject(e, p)
    case Ok(t, j) => FromTypeClose(c, j, depth, out + Unless(c.ignore.Variables?, TypeText(t)))
  }

  // ----- Arguments

  /** The return slots and the number of open selection sets. */
  datatype Slots = Slots(dir: DirRet, arg: ArgRet, val: ValRet, depth: nat)

  predicate ArgOk(r: Slots) {
    if r.arg.ArgField? then r.depth > 0 else DirOk(r.dir, r.depth)
  }

  /** Whether the arguments belong to a directive of a variable definition. */
  predicate ArgInVariables(r: Slots) {
    r.arg.ArgDirective? && r.dir.DirVarDef?
  }

  function FromArgumentsEnd(c: Context, i: nat, r: Slots, out: bytes): Outcome
    requires i <= |c.src| && ArgOk(r)
  {
    FromDirectives(c, Skip(c.src, i), if r.arg.ArgField? then DirField else r.dir, r.depth, out)
  }

  function FromArguments(c: Context, i: nat, r: Slots, out: bytes): Outcome
    requires i <= |c.src| && ArgOk(r)
  {
    match ParseArguments(c.src, i, ArgInVariables(r), c.limit)
    case Err(e, p) => Reject(e, p)
    case Ok(xs, j) =>
      FromArgumentsEnd(c, j, r, out + Unless(ArgInVariables(r) && c.ignore.Variables?, SerArguments(c.ignore, xs)))
  }

  function FromArgumentsRest(c: Context, i: nat, r: Slots, out: bytes): Outcome
    requires i <= |c.src| && ArgOk(r)
  {
    match ArgumentsRest(c.src, i, ArgInVariables(r), c.limit)
    case Err(e, p) => Reject(e, p)
    case Ok(xs, j) =>
      FromArgumentsEnd(c, j, r, out + Unless(ArgInVariables(r) && c.ignore.Variables?, SerArguments(c.ignore, xs)))
  }

  // ----- Values

  predicate ValOk(r: Slots) {
    if r.val.ValDefault? then r.depth == 0 else ArgOk(r)
  }

  /** Whether a value belongs to a variable definition, which makes it a Value[Const]. */
  predicate ValInVariables(r: Slots) {
    r.val.ValDefault? || ArgInVariables(r)
  }

  function FromValueEnd(c: Context, i: nat, r: Slots, out: bytes): Outcome
    requires i <= |c.src| && ValOk(r)
  {
    if r.val.ValArgument? then FromArgumentsRest(c, i, r, out)
    else FromDirectives(c, Skip(c.src, i), DirVarDef, 0, out)
  }

  /** What the open frames still have to read, innermost last. */
  function Unwind(s: bytes, i: nat, stack: seq<Frame>, constant: bool, limit: nat): (r: R<bytes>)
    requires i <= |s| && |stack| <= limit
    ensures r.Ok? ==> i <= r.next <= |s|
    decreases |stack|
  {
    if stack == [] then Ok([], i)
    else
      var n := |stack| - 1;
      match stack[n]
      case ListFrame =>
        var (vs, j) :- ParseItems(s, i, constant, limit - |stack|);
        var (out, k) :- Unwind(s, j, stack[..n], constant, limit);
        Ok(EncItems(vs) + [PREF_LIST_END] + out, k)
      case ObjectFrame =>
        var (fs, j) :- ParseFields(s, i, constant, limit - |stack|);
        var (out, k) :- Unwind(s, j, stack[..n], constant, limit);
        Ok(EncFields(fs) + [PREF_OBJECT_END] + out, k)
  }

  function FromAfterValue(c: Context, i: nat, stack: seq<Frame>, r: Slots, out: bytes): Outcome
    requires i <= |c.src| && |stack| <= c.limit && ValOk(r)
  {
    match Unwind(c.src, i, stack, ValInVariables(r), c.limit)
    case Err(e, p) => Reject(e, p)
    case Ok(bs, j) => FromValueEnd(c, j, r, out + Unless(!c.ignore.Nothing?, bs))
  }

  function FromValue(c: Context, i: nat, stack: seq<Frame>, r: Slots, out: bytes): Outcome
    requires i <= |c.src| && |stack| <= c.limit && ValOk(r)
  {
    match ParseValue(c.src, i, ValInVariables(r), c.limit - |stack|)
    case Err(e, p) => Reject(e, p)
    case Ok(v, j) => FromAfterValue(c, j, stack, r, out + SerValue(c.ignore, v))
  }

  function FromObjectField(c: Context, i: nat, stack: seq<Frame>, r: Slots, out: bytes): Outcome
    requires i <= |c.src| && |stack| <= c.limit && ValOk(r)
  {
    match ParseField(c.src, i, ValInVariables(r), c.limit - |stack|)
    case Err(e, p) => Reject(e, p)
    case Ok(f, j) => FromAfterValue(c, j, stack, r, out + Unless(!c.ignore.Nothing?, EncField(f)))
  }
}
