/**
 The state machine of parse: one flat loop over labels, no calls between productions. Each
 label is one method that takes the locals and leaves them with the label to go to next; the
 writer is updated in place. Every method keeps Valid(): what the run will come to from here
 is what the recursive grammar makes of the whole source.
 */
module StateMachine {
  import opened Bytes
  import opened Lexical
  import opened Ast
  import opened Canonical
  import opened Descent
  import opened Continuation
  import opened Steps
  import opened StringLine
  import opened BlockString
  import opened BlockLines
  import opened Scanner
  import opened Output
  import opened Utf8

  /** The locals of parse, and the label it is at. */
  datatype Locals = Locals(
    at: Label,
    /** The index of the byte to read next. */
    i: nat,
    /** One frame per list or input object that is open. */
    stack: seq<Frame>,
    selDepth: nat, typeDepth: nat,
    dirRet: DirRet, argRet: ArgRet, valRet: ValRet,
    /** Whether the values being read admit no variable. */
    constant: bool,
    e: Error, errPos: nat)

  function Now(m: Locals, out: bytes): Here {
    Here(m.at, m.i, m.stack, m.typeDepth, Slots(m.dirRet, m.argRet, m.valRet, m.selDepth), out)
  }

  /** The locals agree with each other and with the writer's mute counter, and the run comes
      to goal. */
  ghost predicate Valid(c: Context, m: Locals, out: bytes, mute: nat, goal: Outcome) {
    m.i <= |c.src| && |m.stack| <= c.limit &&
    if m.at.ErrorL? then goal == Reject(m.e, m.errPos)
    else
      var h := Now(m, out);
      && Shape(c, h)
      && (m.at.DirectivesL? || InArguments(m.at) || AtValue(m.at) ==> m.constant == InVariables(m.at, h.r))
      && mute == MuteAt(m.at, h.r, c.ignore)
      && Meaning(c, h) == goal
  }

  /** The run has got further: bytes were read, or the label's rank fell. */
  predicate Advanced(m0: Locals, m: Locals) {
    m.i > m0.i || (m.i == m0.i && Rank(m.at) < Rank(m0.at))
  }

  /** The run is over: err is reported at pos. */
  function Fail(m: Locals, err: Error, pos: nat): Locals {
    m.(at := ErrorL, e := err, errPos := pos)
  }

  /** The machine stops: what was true where it was is all that is needed. */
  lemma Stops(c: Context, m0: Locals, was: bytes, out: bytes, mute: nat, err: Error, pos: nat)
    requires Shape(c, Now(m0, was)) && !m0.at.ErrorL? && !m0.at.DoneL?
    ensures Valid(c, Fail(m0, err, pos), out, mute, Reject(err, pos)) && Advanced(m0, Fail(m0, err, pos))
  {
    hide Meaning;
  }

  lemma CountIs(b: bool)
    ensures Count(b) == 0 <==> !b
  {
  }

  /** What is wrong where a Name must begin. */
  method NameError(s: bytes, j: nat) returns (err: Option<Error>)
    requires j <= |s|
    ensures err.Some? ==> Name(s, j) == Err(err.value, j)
    ensures err.None? ==> j < |s| && Name(s, j) == Ok(s[j..NameEnd(s, j + 1)], NameEnd(s, j + 1))
  {
    if j == |s| {
      return Some(UnexpectedEOF);
    }
    return if IsNameStart(s[j]) then None else Some(UnexpectedToken);
  }

  /** What is wrong where the byte b must come. */
  method ByteError(s: bytes, j: nat, b: byte) returns (err: Option<Error>)
    requires j <= |s|
    ensures Expect(s, j, b) == if err.Some? then Err(err.value, j) else Ok((), j + 1)
    ensures err.None? ==> j < |s|
  {
    if j == |s| {
      return Some(UnexpectedEOF);
    }
    return if s[j] == b then None else Some(UnexpectedToken);
  }

  /** Directives are optional wherever they appear. */
  method ToDirectives(c: Context, w: Writer, m0: Locals, ghost goal: Outcome, ret: DirRet) returns (m: Locals)
    requires !m0.at.ErrorL? && DirOk(ret, m0.selDepth) && m0.i <= |c.src| && m0.stack == [] && m0.typeDepth == 0
    requires w.mute == Count(ret.DirVarDef? && c.ignore.Variables?)
    requires goal == Meaning(c, DirectivesAt(Now(m0, w.buf), m0.i, ret, w.buf))
    ensures Valid(c, m, w.buf, w.mute, goal) && m.at == DirectivesL && m.i == m0.i
  {
    hide Meaning;
    m := m0.(at := DirectivesL, dirRet := ret, constant := ret.DirVarDef?);
  }

  /** At the opening parenthesis of arguments. */
  method ToArgs(c: Context, w: Writer, m0: Locals, ghost goal: Outcome, ret: ArgRet) returns (m: Locals)
    requires !m0.at.ErrorL? && m0.i < |c.src| && m0.stack == [] && m0.typeDepth == 0
    requires ArgOk(Now(m0, w.buf).r.(arg := ret))
    requires w.mute == Count(ArgInVariables(Now(m0, w.buf).r.(arg := ret)) && c.ignore.Variables?)
    requires ret.ArgDirective? ==> m0.constant == m0.dirRet.DirVarDef?
    requires goal == Meaning(c, Now(m0, w.buf).(at := ArgsL, r := Now(m0, w.buf).r.(arg := ret)))
    ensures Valid(c, m, w.buf, w.mute, goal) && m.at == ArgsL && m.i == m0.i
  {
    hide Meaning;
    m := m0.(at := ArgsL, argRet := ret, constant := if ret == ArgField then false else m0.constant);
  }

  // ----- Definitions

  /** A Description is read and discarded: it must not affect execution. */
  method ReadDescription(c: Context, start: nat) returns (described: bool, end: nat, errPos: nat, err: Option<Error>)
    requires start < |c.src|
    ensures err.Some? ==> Description(c.src, start) == Err(err.value, errPos)
    ensures err.None? ==> Description(c.src, start).Ok? && Description(c.src, start).next == end
                          && Description(c.src, start).v.Some? == described
  {
    hide BlockStringValue, BlockEnd, Contents, Unquote, Skip;
    described, end, errPos, err := false, start, 0, None;
    if c.src[start] == QUOTE {
      described := true;
      if HasPrefixAt(c.src, start, TRIPLE) {
        var prefixLen, hasContent;
        end, prefixLen, hasContent, errPos, err := ScanStringBlock(c.src, start + 3);
      } else {
        var esc;
        end, esc, errPos, err := ScanStringLine(c.src, start + 1);
      }
      if err.Some? {
        return;
      }
      end := SkipIgnorables(c.src, end);
      if end == |c.src| {
        errPos, err := end, Some(UnexpectedEOF);
      }
    }
  }

  method DefinitionEnd(c: Context, w: Writer, m0: Locals, ghost goal: Outcome) returns (m: Locals)
    requires Valid(c, m0, w.buf, w.mute, goal) && m0.at == DefinitionEndL
    ensures Valid(c, m, w.buf, w.mute, goal) && Advanced(m0, m)
  {
    m := m0;
    var i := m0.i;
    hide Meaning;
    DefinitionEndStep(c, Now(m, w.buf));
    i := SkipIgnorables(c.src, i);
    if i == |c.src| {
      m := Done(c, w, m, goal);
      return;
    }
    m := m.(at := DefinitionL, i := i);
  }

  method Done(c: Context, w: Writer, m0: Locals, ghost goal: Outcome) returns (m: Locals)
    requires m0.i <= |c.src| && m0.selDepth == 0 && m0.typeDepth == 0 && m0.stack == []
    requires goal == Accept(w.buf) && w.mute == 0
    ensures Valid(c, m, w.buf, w.mute, goal) && m == m0.(at := DoneL)
  {
    m := m0.(at := DoneL);
  }

  method Definition(c: Context, w: Writer, m0: Locals, ghost goal: Outcome) returns (m: Locals)
    requires Valid(c, m0, w.buf, w.mute, goal) && m0.at == DefinitionL
    modifies w
    ensures Valid(c, m, w.buf, w.mute, goal) && Advanced(m0, m)
  {
    m := m0;
    var i := m0.i;
    hide Meaning, Description, AtOperation, IsKeywordAt, HasPrefixAt, Skip, KindAt;
    DefinitionStep(c, Now(m, w.buf));
    var described, j, pos, err := ReadDescription(c, i);
    if err.Some? {
      return Fail(m, err.value, pos);
    }
    m := DefinitionBody(c, w, m, goal, described, j);
  }

  /** What a definition comes to after its description. */
  function AtBody(c: Context, h: Here, described: bool, j: nat): Outcome
    requires Shape(c, h) && h.at.DefinitionL? && j < |c.src|
  {
    var s := c.src;
    if s[j] == LBRACE then
      if described then Reject(UnexpectedToken, j)
      else Meaning(c, h.(at := SelSetL, i := j, out := h.out + [PREF_QUERY]))
    else if IsKeywordAt(s, j, KW_FRAGMENT) then Meaning(c, h.(at := FragmentL, i := j))
    else if KindAt(s, j).Some? then
      AtOperation(c, h, Skip(s, j + |KindKeyword(KindAt(s, j).value)|), KindAt(s, j).value)
    else Reject(UnexpectedToken, j)
  }

  /** After the description, at i: a selection set, a fragment or an operation. */
  method DefinitionBody(c: Context, w: Writer, m0: Locals, ghost goal: Outcome, described: bool, i: nat) returns (m: Locals)
    requires m0.at == DefinitionL && Shape(c, Now(m0, w.buf)) && w.mute == 0 && m0.i <= i < |c.src|
    requires goal == AtBody(c, Now(m0, w.buf), described, i)
    modifies w
    ensures Valid(c, m, w.buf, w.mute, goal) && Advanced(m0, m)
  {
    hide Meaning, AtOperation, IsKeywordAt, Skip;
    m := m0;
    var j;
    if c.src[i] == LBRACE {
      if described {
        return Fail(m, UnexpectedToken, i);
      }
      w.WriteByte(PREF_QUERY);
      m := m.(at := SelSetL, i := i);
      return;
    }
    if IsKeywordAt(c.src, i, KW_FRAGMENT) {
      m := m.(at := FragmentL, i := i);
      return;
    }
    if IsKeywordAt(c.src, i, KW_QUERY) {
      w.WriteByte(PREF_QUERY);
      j := i + |KW_QUERY|;
    } else if IsKeywordAt(c.src, i, KW_MUTATION) {
      w.WriteByte(PREF_MUTATION);
      j := i + |KW_MUTATION|;
    } else if IsKeywordAt(c.src, i, KW_SUBSCRIPTION) {
      w.WriteByte(PREF_SUBSCRIPTION);
      j := i + |KW_SUBSCRIPTION|;
    } else {
      return Fail(m, UnexpectedToken, i);
    }
    m := OperationHead(c, w, m, goal, j, KindAt(c.src, i).value, old(w.buf));
  }

  /** What an operation comes to after its keyword, whether it has a name or not. */
  lemma OperationCases(c: Context, h: Here, j: nat, kind: Kind)
    requires Shape(c, h) && h.at.DefinitionL? && j <= |c.src|
    ensures var s, i, out := c.src, Skip(c.src, j), h.out + [KindPrefix(kind)];
            AtOperation(c, h, i, kind) ==
            if i == |s| then Reject(UnexpectedEOF, i)
            else if !IsNameStart(s[i]) then AtOperationTail(c, h, i, out + [])
            else
              var e := NameEnd(s, i + 1);
              var k := Skip(s, e);
              if k == |s| then Reject(UnexpectedEOF, k) else AtOperationTail(c, h, k, out + s[i..e])
  {
    hide Meaning, Skip, NameEnd, Shape;
  }

  /** After the keyword of an operation: an optional name, then variables or directives. */
  method OperationHead(c: Context, w: Writer, m0: Locals, ghost goal: Outcome, j: nat, ghost kind: Kind, ghost out: bytes) returns (m: Locals)
    requires m0.at == DefinitionL && m0.i < j <= |c.src| && w.mute == 0
    requires Shape(c, Now(m0, w.buf).(out := out)) && w.buf == out + [KindPrefix(kind)]
    requires goal == AtOperation(c, Now(m0, w.buf).(out := out), Skip(c.src, j), kind)
    modifies w
    ensures Valid(c, m, w.buf, w.mute, goal) && Advanced(m0, m)
  {
    m := m0;
    var i := m0.i;
    hide Meaning, Skip, NameEnd, Shape, Valid, AtOperationTail, AtOperation, MuteAt, InVariables;
    ghost var h := Now(m, out);
    OperationCases(c, h, j, kind);
    i := SkipIgnorables(c.src, j);
    if i == |c.src| {
      Stops(c, m0, out, w.buf, w.mute, UnexpectedEOF, i);
      return Fail(m0, UnexpectedEOF, i);
    }
    NoBytesAfter(w.buf);
    if IsNameStart(c.src[i]) {
      i := w.NameStr(c.src, i);
      i := SkipIgnorables(c.src, i);
      if i == |c.src| {
        Stops(c, m0, out, w.buf, w.mute, UnexpectedEOF, i);
        return Fail(m0, UnexpectedEOF, i);
      }
    }
    m := OperationTail(c, w, m, goal, i, out);
  }

  /** What an operation comes to after its name, at j. */
  function AtOperationTail(c: Context, h: Here, j: nat, out: bytes): Outcome
    requires Shape(c, h) && h.at.DefinitionL? && j < |c.src|
  {
    var s := c.src;
    if s[j] == LPAREN then
      var k := Skip(s, j + 1);
      if k == |s| then Reject(UnexpectedEOF, k) else Meaning(c, h.(at := VarDefL, i := k, out := out))
    else Meaning(c, DirectivesAt(h, j, DirSelectionSet, out))
  }

  /** After the name of an operation: its variables or its directives. */
  method OperationTail(c: Context, w: Writer, m0: Locals, ghost goal: Outcome, j: nat, ghost out: bytes) returns (m: Locals)
    requires m0.at == DefinitionL && m0.i < j < |c.src| && w.mute == 0 && Shape(c, Now(m0, out))
    requires goal == AtOperationTail(c, Now(m0, out), j, w.buf)
    modifies w`mute
    ensures Valid(c, m, w.buf, w.mute, goal) && Advanced(m0, m)
  {
    hide Meaning, Skip;
    if c.src[j] == LPAREN {
      var i := SkipIgnorables(c.src, j + 1);
      if i == |c.src| {
        return Fail(m0, UnexpectedEOF, i);
      }
      if c.ignore.Variables? {
        w.mute := w.mute + 1;
      }
      m := m0.(at := VarDefL, i := i);
      return;
    }
    m := ToDirectives(c, w, m0.(i := j), goal, DirSelectionSet);
  }

  /** What a fragment comes to after its keyword. */
  function AtFragmentName(c: Context, h: Here, n: R<bytes>): Outcome
    requires Shape(c, h) && h.at.FragmentL? && (n.Ok? ==> n.next <= |c.src|)
  {
    match n
    case Err(e, p) => Reject(e, p)
    case Ok(name, j) =>
      var k := Skip(c.src, j);
      if name == KW_ON then Reject(UnexpectedToken, Skip(c.src, h.i + |KW_FRAGMENT|))
      else if k == |c.src| then Reject(UnexpectedEOF, k)
      else AtCondition(c, h, k, h.out + ([PREF_FRAGMENT] + name))
  }

  lemma FragmentStarts(c: Context, m0: Locals, out: bytes, mute: nat, goal: Outcome)
    requires Valid(c, m0, out, mute, goal) && m0.at == FragmentL
    ensures Shape(c, Now(m0, out)) && mute == 0 && m0.i + |KW_FRAGMENT| <= |c.src|
    ensures goal == AtFragmentName(c, Now(m0, out), Name(c.src, Skip(c.src, m0.i + |KW_FRAGMENT|)))
  {
    hide Meaning, Skip, Name, IsKeywordAt, DirectivesAt;
    FragmentStep(c, Now(m0, out));
  }

  lemma FragmentNamed(c: Context, m0: Locals, out: bytes, name: bytes, j: nat)
    requires Shape(c, Now(m0, out)) && m0.at == FragmentL && j <= |c.src|
    ensures var k := Skip(c.src, j);
            AtFragmentName(c, Now(m0, out), Ok(name, j)) ==
            if name == KW_ON then Reject(UnexpectedToken, Skip(c.src, m0.i + |KW_FRAGMENT|))
            else if k == |c.src| then Reject(UnexpectedEOF, k)
            else AtCondition(c, Now(m0, out), k, out + ([PREF_FRAGMENT] + name))
  {
    hide Shape, Skip, AtCondition;
  }

  lemma FragmentUnnamed(c: Context, m0: Locals, out: bytes, e: Error, p: nat)
    requires Shape(c, Now(m0, out)) && m0.at == FragmentL
    ensures AtFragmentName(c, Now(m0, out), Err(e, p)) == Reject(e, p)
  {
    hide Shape;
  }

  method Fragment(c: Context, w: Writer, m0: Locals, ghost goal: Outcome) returns (m: Locals)
    requires Valid(c, m0, w.buf, w.mute, goal) && m0.at == FragmentL
    modifies w`buf
    ensures Valid(c, m, w.buf, w.mute, goal) && Advanced(m0, m)
  {
    hide *;
    ghost var out := w.buf;
    FragmentStarts(c, m0, out, w.mute, goal);
    var start := SkipIgnorables(c.src, m0.i + |KW_FRAGMENT|);
    var err := NameError(c.src, start);
    if err.Some? {
      FragmentUnnamed(c, m0, out, err.value, start);
      Stops(c, m0, out, out, w.mute, err.value, start);
      return Fail(m0, err.value, start);
    }
    var i := ScanNameEnd(c.src, start + 1);
    FragmentNamed(c, m0, out, c.src[start..i], i);
    if c.src[start..i] == KW_ON {
      Stops(c, m0, out, out, w.mute, UnexpectedToken, start);
      return Fail(m0, UnexpectedToken, start);
    }
    w.Tok(PREF_FRAGMENT, c.src[start..i]);
    i := SkipIgnorables(c.src, i);
    if i == |c.src| {
      Stops(c, m0, out, w.buf, w.mute, UnexpectedEOF, i);
      return Fail(m0, UnexpectedEOF, i);
    }
    m := FragmentCondition(c, w, m0, goal, i, out);
  }

  /** What a fragment comes to after its name, at k. */
  function AtCondition(c: Context, h: Here, k: nat, out: bytes): Outcome
    requires Shape(c, h) && h.at.FragmentL? && k < |c.src|
  {
    if !IsKeywordAt(c.src, k, KW_ON) then Reject(UnexpectedToken, k)
    else
      match Name(c.src, Skip(c.src, k + 2))
      case Err(e, p) => Reject(e, p)
      case Ok(t, m) => Meaning(c, DirectivesAt(h, Skip(c.src, m), DirSelectionSet, out + ([PREF_TYPE] + t)))
  }

  /** The type condition of a fragment. */
  method FragmentCondition(c: Context, w: Writer, m0: Locals, ghost goal: Outcome, k: nat, ghost out: bytes) returns (m: Locals)
    requires m0.at == FragmentL && m0.i < k < |c.src| && w.mute == 0 && Shape(c, Now(m0, out))
    requires goal == AtCondition(c, Now(m0, out), k, w.buf)
    modifies w`buf
    ensures Valid(c, m, w.buf, w.mute, goal) && Advanced(m0, m)
  {
    hide Meaning, Skip, NameEnd, IsKeywordAt;
    if !IsKeywordAt(c.src, k, KW_ON) {
      return Fail(m0, UnexpectedToken, k);
    }
    var i := SkipIgnorables(c.src, k + |KW_ON|);
    var err := NameError(c.src, i);
    if err.Some? {
      return Fail(m0, err.value, i);
    }
    i := w.NameTok(PREF_TYPE, c.src, i);
    i := SkipIgnorables(c.src, i);
    m := ToDirectives(c, w, m0.(i := i), goal, DirSelectionSet);
  }

  // ----- Variable definitions and types

  method VarDef(c: Context, w: Writer, m0: Locals, ghost goal: Outcome) returns (m: Locals)
    requires Valid(c, m0, w.buf, w.mute, goal) && m0.at == VarDefL
    modifies w`buf
    ensures Valid(c, m, w.buf, w.mute, goal) && Advanced(m0, m)
  {
    m := m0;
    var i := m0.i;
    hide Meaning, Description, Skip, AtVariableName;
    VarDefStep(c, Now(m, w.buf));
    var described, j, pos, err := ReadDescription(c, i);
    if err.Some? {
      return Fail(m, err.value, pos);
    }
    err := ByteError(c.src, j, DOLLAR);
    if err.Some? {
      return Fail(m, err.value, j);
    }
    j := SkipIgnorables(c.src, j + 1);
    m := VariableName(c, w, m, goal, j);
  }

  /** What a variable definition comes to after its name, at j. */
  function AtVariableColon(c: Context, h: Here, j: nat, name: bytes): Outcome
    requires Shape(c, h) && h.at.VarDefL? && j <= |c.src|
  {
    match Expect(c.src, Skip(c.src, j), COLON)
    case Err(e, p) => Reject(e, p)
    case Ok(_, k) =>
      Meaning(c, h.(at := TypeL, i := Skip(c.src, k),
                    out := h.out + Unless(c.ignore.Variables?, [PREF_VARIABLE_DEFINITION] + name + [PREF_TYPE])))
  }

  lemma VariableCases(c: Context, m0: Locals, out: bytes, start: nat)
    requires Shape(c, Now(m0, out)) && m0.at == VarDefL && start <= |c.src|
    ensures var h := Now(m0, out);
            AtVariableName(c, h, start) ==
            match Name(c.src, start)
            case Err(e, p) => Reject(e, p)
            case Ok(n, j) => AtVariableColon(c, h, j, n)
  {
    hide Meaning, Skip, Name, Shape, Expect;
  }

  lemma VariableColon(c: Context, m0: Locals, out: bytes, j: nat, name: bytes)
    requires Shape(c, Now(m0, out)) && m0.at == VarDefL && j <= |c.src|
    ensures var h := Now(m0, out);
            AtVariableColon(c, h, j, name) ==
            match Expect(c.src, Skip(c.src, j), COLON)
            case Err(e, p) => Reject(e, p)
            case Ok(_, k) =>
              Meaning(c, h.(at := TypeL, i := Skip(c.src, k),
                            out := if c.ignore.Variables? then out else out + ([PREF_VARIABLE_DEFINITION] + name) + [PREF_TYPE]))
  {
    hide Meaning, Skip, Shape, Expect;
    NoBytesAfter(out);
    Assoc(out, [PREF_VARIABLE_DEFINITION] + name, [PREF_TYPE]);
  }

  /** The type of a variable begins after the colon. */
  lemma TypeBegins(c: Context, m0: Locals, was: bytes, i: nat, out: bytes, mute: nat)
    requires Shape(c, Now(m0, was)) && m0.at == VarDefL && m0.i < i <= |c.src| && mute == Count(c.ignore.Variables?)
    ensures var m := m0.(at := TypeL, i := i, typeDepth := 0);
            Valid(c, m, out, mute, Meaning(c, Now(m0, was).(at := TypeL, i := i, out := out))) && Advanced(m0, m)
    ensures Now(m0, was).out == was
  {
    hide Meaning;
  }

  /** After the dollar sign of a variable definition. */
  method VariableName(c: Context, w: Writer, m0: Locals, ghost goal: Outcome, start: nat) returns (m: Locals)
    requires m0.at == VarDefL && Shape(c, Now(m0, w.buf)) && w.mute == Count(c.ignore.Variables?)
    requires m0.i < start <= |c.src| && goal == AtVariableName(c, Now(m0, w.buf), start)
    modifies w`buf
    ensures Valid(c, m, w.buf, w.mute, goal) && Advanced(m0, m)
  {
    hide *;
    ghost var out := w.buf;
    VariableCases(c, m0, out, start);
    var err := NameError(c.src, start);
    if err.Some? {
      Stops(c, m0, out, out, w.mute, err.value, start);
      return Fail(m0, err.value, start);
    }
    var j := w.NameTok(PREF_VARIABLE_DEFINITION, c.src, start);
    VariableColon(c, m0, out, j, c.src[start..j]);
    j := SkipIgnorables(c.src, j);
    err := ByteError(c.src, j, COLON);
    if err.Some? {
      Stops(c, m0, out, w.buf, w.mute, err.value, j);
      return Fail(m0, err.value, j);
    }
    var i := SkipIgnorables(c.src, j + 1);
    w.WriteByte(PREF_TYPE);
    CountIs(c.ignore.Variables?);
    TypeBegins(c, m0, out, i, w.buf, w.mute);
    m := m0.(at := TypeL, i := i, typeDepth := 0);
  }

  lemma TypeStarts(c: Context, m0: Locals, out: bytes, mute: nat, goal: Outcome)
    requires Valid(c, m0, out, mute, goal) && m0.at == TypeL
    ensures Shape(c, Now(m0, out)) && m0.i <= |c.src|
    ensures goal ==
            if m0.i < |c.src| && c.src[m0.i] == LBRACKET then
              Meaning(c, Now(m0.(i := Skip(c.src, m0.i + 1), typeDepth := m0.typeDepth + 1), if mute == 0 then out + [LBRACKET] else out))
            else
              match Name(c.src, m0.i)
              case Err(e, p) => Reject(e, p)
              case Ok(n, j) => Meaning(c, Now(m0.(at := TypeAfterL, i := j), if mute == 0 then out + n else out))
  {
    hide Meaning, Skip, Name;
    TypeStep(c, Now(m0, out));
    NoBytesAfter(out);
  }

  lemma TypeMoves(c: Context, m0: Locals, was: bytes, mute: nat, goal: Outcome, m: Locals, out: bytes)
    requires Valid(c, m0, was, mute, goal) && m0.at == TypeL && m0.i < m.i <= |c.src|
    requires m == m0.(at := m.at, i := m.i, typeDepth := m.typeDepth) && (m.at.TypeL? || m.at.TypeAfterL?)
    ensures Shape(c, Now(m, out)) && Valid(c, m, out, mute, Meaning(c, Now(m, out))) && Advanced(m0, m)
  {
    hide Meaning;
  }

  method Type(c: Context, w: Writer, m0: Locals, ghost goal: Outcome) returns (m: Locals)
    requires Valid(c, m0, w.buf, w.mute, goal) && m0.at == TypeL
    modifies w`buf
    ensures Valid(c, m, w.buf, w.mute, goal) && Advanced(m0, m)
  {
    hide *;
    ghost var out := w.buf;
    TypeStarts(c, m0, out, w.mute, goal);
    NameIs(c.src, m0.i);
    var i := m0.i;
    if i == |c.src| {
      Stops(c, m0, out, out, w.mute, UnexpectedEOF, i);
      return Fail(m0, UnexpectedEOF, i);
    }
    if IsNameStart(c.src[i]) {
      i := w.NameStr(c.src, i);
      m := m0.(at := TypeAfterL, i := i);
      TypeMoves(c, m0, out, w.mute, goal, m, w.buf);
    } else if c.src[i] == LBRACKET {
      w.WriteByte(LBRACKET);
      i := SkipIgnorables(c.src, i + 1);
      m := m0.(i := i, typeDepth := m0.typeDepth + 1);
      TypeMoves(c, m0, out, w.mute, goal, m, w.buf);
    } else {
      Stops(c, m0, out, out, w.mute, UnexpectedToken, i);
      return Fail(m0, UnexpectedToken, i);
    }
  }

  lemma NameIs(s: bytes, i: nat)
    requires i <= |s|
    ensures i < |s| && IsNameStart(s[i]) ==> Name(s, i) == Ok(s[i..NameEnd(s, i + 1)], NameEnd(s, i + 1)) && s[i] != LBRACKET
    ensures i < |s| && !IsNameStart(s[i]) ==> Name(s, i) == Err(UnexpectedToken, i)
    ensures i == |s| ==> Name(s, i) == Err(UnexpectedEOF, i)
  {
    hide NameEnd;
  }

  method TypeAfter(c: Context, w: Writer, m0: Locals, ghost goal: Outcome) returns (m: Locals)
    requires Valid(c, m0, w.buf, w.mute, goal) && m0.at == TypeAfterL
    modifies w
    ensures Valid(c, m, w.buf, w.mute, goal) && Advanced(m0, m)
  {
    m := m0;
    var i := m0.i;
    if m.typeDepth > 0 {
      m := TypeClose(c, w, m, goal);
    } else {
      m := TypeEnd(c, w, m, goal);
    }
  }

  /** A '!' that Ignored tokens may precede. */
  method ReadBang(c: Context, w: Writer, start: nat) returns (i: nat)
    requires start <= |c.src|
    modifies w`buf
    ensures i == BangEnd(c.src, start)
    ensures w.buf == if w.mute == 0 then old(w.buf) + Bang(c.src, start) else old(w.buf)
  {
    hide Skip;
    i := start;
    NoBytesAfter(w.buf);
    var j := SkipIgnorables(c.src, i);
    if j < |c.src| && c.src[j] == BANG {
      w.WriteByte(BANG);
      i := j + 1;
    }
  }

  method TypeClose(c: Context, w: Writer, m0: Locals, ghost goal: Outcome) returns (m: Locals)
    requires Valid(c, m0, w.buf, w.mute, goal) && m0.at == TypeAfterL && m0.typeDepth > 0
    modifies w`buf
    ensures Valid(c, m, w.buf, w.mute, goal) && Advanced(m0, m)
  {
    m := m0;
    var i := m0.i;
    hide Meaning, Skip, BangEnd, Bang;
    TypeAfterStep(c, Now(m, w.buf));
    NoBytesAfter(w.buf);
    i := ReadBang(c, w, i);
    var j := SkipIgnorables(c.src, i);
    var err := ByteError(c.src, j, RBRACKET);
    if err.Some? {
      return Fail(m, err.value, j);
    }
    NoBytesAfter(w.buf);
    w.WriteByte(RBRACKET);
    i := j + 1;
    m := m.(i := i, typeDepth := m.typeDepth - 1);
  }

  lemma TypeEndStarts(c: Context, m0: Locals, out: bytes, mute: nat, goal: Outcome)
    requires Valid(c, m0, out, mute, goal) && m0.at == TypeAfterL && m0.typeDepth == 0
    ensures Shape(c, Now(m0, out)) && m0.i <= |c.src|
    ensures var s, j := c.src, Skip(c.src, BangEnd(c.src, m0.i));
            var now := if mute == 0 then out + Bang(s, m0.i) else out;
            goal ==
            if j == |s| then Reject(UnexpectedEOF, j)
            else if s[j] == EQUALS then Meaning(c, Now(m0.(at := ValueL, i := Skip(s, j + 1), valRet := ValDefault, constant := true), now))
            else Meaning(c, Now(m0.(at := VarDefDirectivesL, i := j), now))
  {
    hide Meaning, Skip, BangEnd, Bang;
    TypeEndStep(c, Now(m0, out));
    NoBytesAfter(out);
  }

  /** A default value is constant, and a reason of its own not to write. */
  lemma DefaultBegins(c: Context, m0: Locals, was: bytes, mute: nat, goal: Outcome, i: nat, out: bytes)
    requires Valid(c, m0, was, mute, goal) && m0.at == TypeAfterL && m0.typeDepth == 0 && m0.i < i <= |c.src|
    ensures var m := m0.(at := ValueL, i := i, valRet := ValDefault, constant := true);
            && Shape(c, Now(m, out)) && Advanced(m0, m)
            && Valid(c, m, out, if c.ignore.Nothing? then mute else mute + 1, Meaning(c, Now(m, out)))
  {
    hide Meaning;
  }

  lemma NoDefault(c: Context, m0: Locals, was: bytes, mute: nat, goal: Outcome, i: nat, out: bytes)
    requires Valid(c, m0, was, mute, goal) && m0.at == TypeAfterL && m0.typeDepth == 0 && m0.i <= i <= |c.src|
    ensures var m := m0.(at := VarDefDirectivesL, i := i);
            Shape(c, Now(m, out)) && Advanced(m0, m) && Valid(c, m, out, mute, Meaning(c, Now(m, out)))
  {
    hide Meaning;
  }

  method TypeEnd(c: Context, w: Writer, m0: Locals, ghost goal: Outcome) returns (m: Locals)
    requires Valid(c, m0, w.buf, w.mute, goal) && m0.at == TypeAfterL && m0.typeDepth == 0
    modifies w
    ensures Valid(c, m, w.buf, w.mute, goal) && Advanced(m0, m)
  {
    hide *;
    ghost var out, mute := w.buf, w.mute;
    TypeEndStarts(c, m0, out, mute, goal);
    var i := ReadBang(c, w, m0.i);
    i := SkipIgnorables(c.src, i);
    if i == |c.src| {
      Stops(c, m0, out, w.buf, mute, UnexpectedEOF, i);
      return Fail(m0, UnexpectedEOF, i);
    }
    if c.src[i] == EQUALS {
      i := SkipIgnorables(c.src, i + 1);
      if !c.ignore.Nothing? {
        w.mute := w.mute + 1;
      }
      DefaultBegins(c, m0, out, mute, goal, i, w.buf);
      m := m0.(at := ValueL, i := i, valRet := ValDefault, constant := true);
      return;
    }
    NoDefault(c, m0, out, mute, goal, i, w.buf);
    m := m0.(at := VarDefDirectivesL, i := i);
  }

  method VarDefAfterDefault(c: Context, w: Writer, m0: Locals, ghost goal: Outcome) returns (m: Locals)
    requires Valid(c, m0, w.buf, w.mute, goal) && m0.at == VarDefAfterDefaultL
    modifies w`mute
    ensures Valid(c, m, w.buf, w.mute, goal) && Advanced(m0, m)
  {
    m := m0;
    var i := m0.i;
    DefaultEndStep(c, Now(m, w.buf));
    hide Meaning;
    if !c.ignore.Nothing? {
      w.mute := w.mute - 1;
    }
    i := SkipIgnorables(c.src, i);
    m := m.(at := VarDefDirectivesL, i := i);
  }

  /** Nothing changes for the mute counter where the directives of a variable begin. */
  lemma MuteKept(c: Context, h: Here, g: Here)
    requires h.at.VarDefDirectivesL? && g.at.DirectivesL? && g.r == h.r.(dir := DirVarDef)
    ensures MuteAt(g.at, g.r, c.ignore) == MuteAt(h.at, h.r, c.ignore) && InVariables(g.at, g.r)
  {
  }

  method VarDefDirectives(c: Context, w: Writer, m0: Locals, ghost goal: Outcome) returns (m: Locals)
    requires Valid(c, m0, w.buf, w.mute, goal) && m0.at == VarDefDirectivesL
    ensures Valid(c, m, w.buf, w.mute, goal) && Advanced(m0, m)
  {
    hide Meaning, MuteAt, InVariables;
    VarDefDirectivesStep(c, Now(m0, w.buf));
    m := m0.(at := DirectivesL, dirRet := DirVarDef, constant := true);
    MuteKept(c, Now(m0, w.buf), Now(m, w.buf));
  }

  method VarDefEnd(c: Context, w: Writer, m0: Locals, ghost goal: Outcome) returns (m: Locals)
    requires Valid(c, m0, w.buf, w.mute, goal) && m0.at == VarDefEndL
    modifies w`mute
    ensures Valid(c, m, w.buf, w.mute, goal) && Advanced(m0, m)
  {
    m := m0;
    var i := m0.i;
    hide Meaning, Skip, Name, NameEnd, IsKeywordAt, HasPrefixAt;
    VarDefEndStep(c, Now(m, w.buf));
    i := SkipIgnorables(c.src, i);
    if i == |c.src| {
      return Fail(m, UnexpectedEOF, i);
    }
    if c.src[i] != RPAREN {
      m := m.(at := VarDefL, i := i);
      return;
    }
    if c.ignore.Variables? {
      w.mute := w.mute - 1;
    }
    i := SkipIgnorables(c.src, i + 1);
    m := ToDirectives(c, w, m.(i := i), goal, DirSelectionSet);
  }

  // ----- Directives and arguments

  /** Each round of the loop reads one directive; arguments leave it. */
  method Directives(c: Context, w: Writer, m0: Locals, ghost goal: Outcome) returns (m: Locals)
    requires Valid(c, m0, w.buf, w.mute, goal) && m0.at == DirectivesL
    modifies w`buf
    ensures Valid(c, m, w.buf, w.mute, goal) && Advanced(m0, m)
  {
    hide Shape, MuteAt, InVariables, Meaning;
    m := m0;
    while m.i < |c.src| && c.src[m.i] == AT
      invariant m.i >= m0.i && m.at == DirectivesL && Valid(c, m, w.buf, w.mute, goal)
      decreases |c.src| - m.i
    {
      m := Directive(c, w, m, goal);
      if m.at != DirectivesL {
        return;
      }
    }
    ghost var last := m;
    m := DirectivesEnd(c, w, m, goal);
  }

  method Directive(c: Context, w: Writer, m0: Locals, ghost goal: Outcome) returns (m: Locals)
    requires Valid(c, m0, w.buf, w.mute, goal) && m0.at == DirectivesL && m0.i < |c.src| && c.src[m0.i] == AT
    modifies w`buf
    ensures Valid(c, m, w.buf, w.mute, goal) && (m.i > m0.i || (m.at.ErrorL? && m.i == m0.i))
  {
    hide Meaning, Skip, NameEnd;
    m := m0;
    DirectiveStep(c, Now(m, w.buf));
    var i := SkipIgnorables(c.src, m.i + 1);
    var err := NameError(c.src, i);
    if err.Some? {
      return Fail(m, err.value, i);
    }
    NoBytesAfter(w.buf);
    i := w.NameTok(PREF_DIRECTIVE, c.src, i);
    i := SkipIgnorables(c.src, i);
    if i == |c.src| {
      return Fail(m, UnexpectedEOF, i);
    }
    m := m.(i := i);
    if c.src[i] == LPAREN {
      m := ToArgs(c, w, m, goal, ArgDirective);
    }
  }

  /** The directives are read; dirRet says where they continue. */
  /** Where the directives return to, the slot, the depth and the mute counter are in order. */
  lemma DirectivesReturn(c: Context, h: Here)
    requires Shape(c, h) && h.at.DirectivesL?
    ensures var g := match h.r.dir
                     case DirVarDef => h.(at := VarDefEndL)
                     case DirField => h.(at := FieldAfterDirectivesL)
                     case DirSpread => h.(at := AfterSelectionL, i := Skip(c.src, h.i))
                     case DirSelectionSet => h.(at := SelSetL, i := Skip(c.src, h.i));
            && Shape(c, g) && MuteAt(g.at, g.r, c.ignore) == MuteAt(h.at, h.r, c.ignore)
            && !InArguments(g.at) && !AtValue(g.at)
  {
    hide Skip;
  }

  method DirectivesEnd(c: Context, w: Writer, m0: Locals, ghost goal: Outcome) returns (m: Locals)
    requires Valid(c, m0, w.buf, w.mute, goal) && m0.at == DirectivesL
    requires m0.i == |c.src| || c.src[m0.i] != AT
    ensures Valid(c, m, w.buf, w.mute, goal) && Advanced(m0, m)
  {
    hide Meaning, Skip;
    m := m0;
    ghost var h := Now(m, w.buf);
    DirectivesEndStep(c, h);
    DirectivesReturn(c, h);
    hide Shape, MuteAt, InVariables;
    match m.dirRet {
      case DirVarDef =>
        m := m.(at := VarDefEndL);
      case DirField =>
        m := m.(at := FieldAfterDirectivesL);
      case DirSpread =>
        var i := SkipIgnorables(c.src, m.i);
        m := m.(at := AfterSelectionL, i := i);
      case DirSelectionSet =>
        var i := SkipIgnorables(c.src, m.i);
        m := m.(at := SelSetL, i := i);
    }
  }

  method Args(c: Context, w: Writer, m0: Locals, ghost goal: Outcome) returns (m: Locals)
    requires Valid(c, m0, w.buf, w.mute, goal) && m0.at == ArgsL
    ensures Valid(c, m, w.buf, w.mute, goal) && Advanced(m0, m)
  {
    m := m0;
    var i := m0.i;
    hide Meaning, Skip;
    ArgsStep(c, Now(m, w.buf));
    i := SkipIgnorables(c.src, i + 1);
    m := m.(at := ArgsNextL, i := i);
  }

  /** What an argument comes to after its colon. */
  function AtArgumentValue(c: Context, m0: Locals, i: nat, out: bytes): Outcome
    requires Shape(c, Now(m0, out)) && m0.at == ArgsNextL && i <= |c.src|
  {
    Meaning(c, Now(m0.(at := ValueL, i := i, valRet := ValArgument), out))
  }

  lemma ArgumentStarts(c: Context, m0: Locals, out: bytes, mute: nat, goal: Outcome)
    requires Valid(c, m0, out, mute, goal) && m0.at == ArgsNextL
    ensures Shape(c, Now(m0, out)) && m0.i <= |c.src|
    ensures goal ==
            match Name(c.src, m0.i)
            case Err(e, p) => Reject(e, p)
            case Ok(n, j) =>
              match Expect(c.src, Skip(c.src, j), COLON)
              case Err(e, p) => Reject(e, p)
              case Ok(_, k) =>
                AtArgumentValue(c, m0, Skip(c.src, k), if mute == 0 then out + ([PREF_ARGUMENT] + n) else out)
  {
    hide Meaning, Skip, Name, Expect;
    ArgumentStep(c, Now(m0, out));
    NoBytesAfter(out);
  }

  /** An argument's value is read in the same place, muted once more from Inputs on. */
  lemma ArgumentValueBegins(c: Context, m0: Locals, was: bytes, mute: nat, goal: Outcome, i: nat, out: bytes)
    requires Valid(c, m0, was, mute, goal) && m0.at == ArgsNextL && m0.i < i <= |c.src|
    ensures var m := m0.(at := ValueL, i := i, valRet := ValArgument);
            && Shape(c, Now(m0, out)) && Advanced(m0, m)
            && Valid(c, m, out, if c.ignore.Nothing? then mute else mute + 1, AtArgumentValue(c, m0, i, out))
  {
    hide Meaning;
  }

  method ArgsNext(c: Context, w: Writer, m0: Locals, ghost goal: Outcome) returns (m: Locals)
    requires Valid(c, m0, w.buf, w.mute, goal) && m0.at == ArgsNextL
    modifies w
    ensures Valid(c, m, w.buf, w.mute, goal) && Advanced(m0, m)
  {
    hide *;
    ghost var out, mute := w.buf, w.mute;
    ArgumentStarts(c, m0, out, mute, goal);
    var err := NameError(c.src, m0.i);
    if err.Some? {
      Stops(c, m0, out, out, mute, err.value, m0.i);
      return Fail(m0, err.value, m0.i);
    }
    var i := w.NameTok(PREF_ARGUMENT, c.src, m0.i);
    i := SkipIgnorables(c.src, i);
    err := ByteError(c.src, i, COLON);
    if err.Some? {
      Stops(c, m0, out, w.buf, mute, err.value, i);
      return Fail(m0, err.value, i);
    }
    i := SkipIgnorables(c.src, i + 1);
    if !c.ignore.Nothing? {
      w.mute := w.mute + 1;
    }
    ArgumentValueBegins(c, m0, out, mute, goal, i, w.buf);
    m := m0.(at := ValueL, i := i, valRet := ValArgument);
  }

  /** Once the value of an argument is read, the writer is muted once less. */
  lemma AfterArgumentValue(c: Context, h: Here, g: Here)
    requires Shape(c, h) && h.at.ArgsAfterValueL? && g.i <= |c.src| && g.r == h.r && g.stack == h.stack && g.typeDepth == h.typeDepth
    requires g.at == ArgsNextL || g.at == if h.r.arg == ArgField then FieldAfterArgsL else DirectivesL
    ensures Shape(c, g) && MuteAt(h.at, h.r, c.ignore) == MuteAt(g.at, g.r, c.ignore) + Count(!c.ignore.Nothing?)
    ensures g.at.ArgsNextL? || g.at.DirectivesL? ==> InVariables(g.at, g.r) == InVariables(h.at, h.r)
  {
  }

  method ArgsAfterValue(c: Context, w: Writer, m0: Locals, ghost goal: Outcome) returns (m: Locals)
    requires Valid(c, m0, w.buf, w.mute, goal) && m0.at == ArgsAfterValueL
    modifies w`mute
    ensures Valid(c, m, w.buf, w.mute, goal) && Advanced(m0, m)
  {
    hide Shape, MuteAt, InVariables, Meaning, Skip;
    ghost var h := Now(m0, w.buf);
    ArgsAfterValueStep(c, h);
    AfterArgumentValue(c, h, h.(at := ArgsNextL));
    if !c.ignore.Nothing? {
      w.mute := w.mute - 1;
    }
    var i := SkipIgnorables(c.src, m0.i);
    if i == |c.src| {
      return Fail(m0, UnexpectedEOF, i);
    }
    if c.src[i] != RPAREN {
      m := m0.(at := ArgsNextL, i := i);
    } else if m0.argRet == ArgField {
      m := m0.(at := FieldAfterArgsL, i := i + 1);
    } else {
      i := SkipIgnorables(c.src, i + 1);
      m := m0.(at := DirectivesL, i := i);
    }
    AfterArgumentValue(c, h, Now(m, w.buf));
  }

  // ----- Values

  /** From label to label within a value, nothing the labels rely on changes. */
  lemma WithinValue(c: Context, h: Here, g: Here)
    requires Shape(c, h) && AtValue(h.at) && AtValue(g.at) && g.r == h.r && g.typeDepth == h.typeDepth
    requires g == h || (g.i <= |c.src| && |g.stack| <= c.limit && (g.at.ObjectFieldL? ==> g.stack != []))
    ensures Shape(c, g) && MuteAt(g.at, g.r, c.ignore) == MuteAt(h.at, h.r, c.ignore)
    ensures InVariables(g.at, g.r) == InVariables(h.at, h.r) == ValInVariables(h.r)
    ensures MuteAt(h.at, h.r, c.ignore) == Count(ValInVariables(h.r) && c.ignore.Variables?) + Count(!c.ignore.Nothing?)
    ensures h.i <= |c.src| && |h.stack| <= c.limit
  {
  }

  method AfterValue(c: Context, w: Writer, m0: Locals, ghost goal: Outcome) returns (m: Locals)
    requires Valid(c, m0, w.buf, w.mute, goal) && m0.at == AfterValueL
    modifies w`buf
    ensures Valid(c, m, w.buf, w.mute, goal) && Advanced(m0, m)
  {
    hide Meaning;
    m := m0;
    if m.stack == [] {
      ValueEndStep(c, Now(m, w.buf));
      return m.(at := if m.valRet == ValArgument then ArgsAfterValueL else VarDefAfterDefaultL);
    }
    m := InFrame(c, w, m, goal);
  }

  /** Inside a list or an input object: the next value or field, or the end of the frame. */
  method InFrame(c: Context, w: Writer, m0: Locals, ghost goal: Outcome) returns (m: Locals)
    requires Valid(c, m0, w.buf, w.mute, goal) && m0.at == AfterValueL && m0.stack != []
    modifies w`buf
    ensures Valid(c, m, w.buf, w.mute, goal) && Advanced(m0, m)
  {
    hide Shape, MuteAt, InVariables, Meaning, Skip;
    ghost var h := Now(m0, w.buf);
    WithinValue(c, h, h);
    FrameStep(c, Now(m0, w.buf));
    NoBytesAfter(w.buf);
    var i := SkipIgnorables(c.src, m0.i);
    m := m0.(i := i);
    if i == |c.src| {
      return Fail(m, UnexpectedEOF, i);
    }
    var frame := m.stack[|m.stack| - 1];
    if frame == ListFrame && c.src[i] != RBRACKET {
      m := m.(at := ValueL);
      WithinValue(c, h, Now(m, w.buf));
      return;
    }
    if frame == ObjectFrame && c.src[i] != RBRACE {
      m := m.(at := ObjectFieldL);
      WithinValue(c, h, Now(m, w.buf));
      return;
    }
    w.WriteByte(if frame == ListFrame then PREF_LIST_END else PREF_OBJECT_END);
    m := m.(i := i + 1, stack := m.stack[..|m.stack| - 1]);
    WithinValue(c, h, Now(m, w.buf));
  }

  lemma FieldStarts(c: Context, m0: Locals, out: bytes, mute: nat, goal: Outcome)
    requires Valid(c, m0, out, mute, goal) && m0.at == ObjectFieldL
    ensures Shape(c, Now(m0, out)) && m0.i <= |c.src|
    ensures goal ==
            match Name(c.src, m0.i)
            case Err(e, p) => Reject(e, p)
            case Ok(n, j) =>
              match Expect(c.src, Skip(c.src, j), COLON)
              case Err(e, p) => Reject(e, p)
              case Ok(_, k) =>
                Meaning(c, Now(m0.(at := ValueL, i := Skip(c.src, k)), if mute == 0 then out + ([PREF_OBJECT_FIELD] + n) else out))
  {
    hide Meaning, Skip, Name, Expect;
    ObjectFieldStep(c, Now(m0, out));
    NoBytesAfter(out);
  }

  /** The value of a field is read in the same place. */
  lemma FieldValueBegins(c: Context, m0: Locals, was: bytes, mute: nat, goal: Outcome, i: nat, out: bytes)
    requires Valid(c, m0, was, mute, goal) && m0.at == ObjectFieldL && m0.i < i <= |c.src|
    ensures var m := m0.(at := ValueL, i := i);
            Shape(c, Now(m, out)) && Valid(c, m, out, mute, Meaning(c, Now(m, out))) && Advanced(m0, m)
  {
    hide Meaning;
  }

  method ObjectField(c: Context, w: Writer, m0: Locals, ghost goal: Outcome) returns (m: Locals)
    requires Valid(c, m0, w.buf, w.mute, goal) && m0.at == ObjectFieldL
    modifies w`buf
    ensures Valid(c, m, w.buf, w.mute, goal) && Advanced(m0, m)
  {
    hide *;
    ghost var out := w.buf;
    FieldStarts(c, m0, out, w.mute, goal);
    var err := NameError(c.src, m0.i);
    if err.Some? {
      Stops(c, m0, out, out, w.mute, err.value, m0.i);
      return Fail(m0, err.value, m0.i);
    }
    var i := w.NameTok(PREF_OBJECT_FIELD, c.src, m0.i);
    i := SkipIgnorables(c.src, i);
    err := ByteError(c.src, i, COLON);
    if err.Some? {
      Stops(c, m0, out, w.buf, w.mute, err.value, i);
      return Fail(m0, err.value, i);
    }
    i := SkipIgnorables(c.src, i + 1);
    FieldValueBegins(c, m0, out, w.mute, goal, i, w.buf);
    m := m0.(at := ValueL, i := i);
  }

  /** A value begins at i, and what the run comes to is known by its first byte. */
  ghost predicate BeforeValue(c: Context, m: Locals, out: bytes, mute: nat, goal: Outcome) {
    var h := Now(m, out);
    && m.at == ValueL && m.i < |c.src|
    && Shape(c, h)
    && m.constant == ValInVariables(h.r)
    && mute == MuteAt(m.at, h.r, c.ignore)
    && goal == AtValueStart(c, h)
  }

  /** A value is written exactly if nothing is left out. */
  lemma LeafMuted(c: Context, h: Here)
    requires h.at.ValueL?
    ensures MuteAt(h.at, h.r, c.ignore) == 0 <==> c.ignore.Nothing?
  {
  }

  /** What is written makes no difference to what a label may rely on. */
  lemma ShapeKept(c: Context, h: Here, out: bytes)
    requires Shape(c, h)
    ensures Shape(c, h.(out := out))
  {
  }

  /** A value without a frame of its own is read and written. */
  method AfterLeaf(c: Context, w: Writer, m0: Locals, ghost goal: Outcome, end: nat) returns (m: Locals)
    requires m0.at == ValueL && m0.i < end <= |c.src|
    requires Shape(c, Now(m0, w.buf)) && w.mute == MuteAt(m0.at, Now(m0, w.buf).r, c.ignore) && m0.constant == ValInVariables(Now(m0, w.buf).r)
    requires goal == Meaning(c, Now(m0, w.buf).(at := AfterValueL, i := end))
    ensures Valid(c, m, w.buf, w.mute, goal) && m.i == end
  {
    hide Meaning;
    m := m0.(at := AfterValueL, i := end);
  }

  method VariableValue(c: Context, w: Writer, m0: Locals, ghost goal: Outcome) returns (m: Locals)
    requires BeforeValue(c, m0, w.buf, w.mute, goal) && c.src[m0.i] == DOLLAR
    modifies w`buf
    ensures Valid(c, m, w.buf, w.mute, goal) && Advanced(m0, m)
  {
    m := m0;
    var i := m0.i;
    hide Meaning, Skip, Name, NameEnd, IsKeywordAt, HasPrefixAt;
    if m.constant {
      return Fail(m, UnexpectedVariable, i);
    }
    var j := SkipIgnorables(c.src, i + 1);
    var err := NameError(c.src, j);
    if err.Some? {
      return Fail(m, err.value, j);
    }
    NoBytesAfter(w.buf);
    j := w.NameTok(PREF_VARIABLE, c.src, j);
    m := AfterLeaf(c, w, m, goal, j);
  }

  /** What a string value comes to once it is read. */
  function AfterString(c: Context, h: Here, r: R<bytes>): Outcome
    requires Shape(c, h) && h.at.ValueL? && (r.Ok? ==> r.next <= |c.src|)
  {
    match r
    case Err(e, p) => Reject(e, p)
    case Ok(t, k) => Meaning(c, h.(at := AfterValueL, i := k, out := h.out + Unless(!c.ignore.Nothing?, [PREF_STRING] + Escape(t))))
  }

  lemma StringStarts(c: Context, h: Here)
    requires Shape(c, h) && h.at.ValueL? && h.i < |c.src| && c.src[h.i] == QUOTE
    ensures AtValueStart(c, h)
              == AfterString(c, h, if HasPrefixAt(c.src, h.i, TRIPLE) then BlockText(c.src, h.i + 3) else LineString(c.src, h.i + 1))
  {
    hide Meaning, BlockText, LineString, HasPrefixAt, Escape, Skip;
  }

  /** An empty list is a value, any other opens a frame. */
  lemma ListStarts(c: Context, h: Here)
    requires Shape(c, h) && h.at.ValueL? && h.i < |c.src| && c.src[h.i] == LBRACKET
    ensures var s, j, m := c.src, Skip(c.src, h.i + 1), !c.ignore.Nothing?;
            AtValueStart(c, h) ==
            if j < |s| && s[j] == RBRACKET then Meaning(c, h.(at := AfterValueL, i := j + 1, out := h.out + Unless(m, [PREF_LIST])))
            else if |h.stack| >= c.limit then Reject(TooDeep, j)
            else Meaning(c, h.(i := j, stack := h.stack + [ListFrame], out := h.out + Unless(m, [PREF_LIST])))
  {
    hide Meaning, ParseLeaf, Skip;
    LeafEmpty(c.src, h.i, ValInVariables(h.r));
  }

  lemma ObjectStarts(c: Context, h: Here)
    requires Shape(c, h) && h.at.ValueL? && h.i < |c.src| && c.src[h.i] == LBRACE
    ensures var s, j, m := c.src, Skip(c.src, h.i + 1), !c.ignore.Nothing?;
            AtValueStart(c, h) ==
            if j < |s| && s[j] == RBRACE then Meaning(c, h.(at := AfterValueL, i := j + 1, out := h.out + Unless(m, [PREF_OBJECT])))
            else if |h.stack| >= c.limit then Reject(TooDeep, j)
            else Meaning(c, h.(at := ObjectFieldL, i := j, stack := h.stack + [ObjectFrame], out := h.out + Unless(m, [PREF_OBJECT])))
  {
    hide Meaning, ParseLeaf, Skip;
    LeafEmpty(c.src, h.i, ValInVariables(h.r));
  }

  method StringLiteral(c: Context, w: Writer, m0: Locals, ghost goal: Outcome) returns (m: Locals)
    requires BeforeValue(c, m0, w.buf, w.mute, goal) && c.src[m0.i] == QUOTE
    modifies w`buf
    ensures Valid(c, m, w.buf, w.mute, goal) && Advanced(m0, m)
  {
    hide AtValueStart, AfterString, BlockText, LineString;
    StringStarts(c, Now(m0, w.buf));
    if HasPrefixAt(c.src, m0.i, TRIPLE) {
      m := BlockLiteral(c, w, m0, goal);
    } else {
      m := LineLiteral(c, w, m0, goal);
    }
  }

  /** A value is to be read here, a string of which r is what comes. */
  ghost predicate BeforeString(c: Context, m: Locals, out: bytes, mute: nat, goal: Outcome, r: R<bytes>) {
    var h := Now(m, out);
    && m.at == ValueL
    && Shape(c, h)
    && m.constant == ValInVariables(h.r)
    && mute == MuteAt(m.at, h.r, c.ignore)
    && (r.Ok? ==> r.next <= |c.src|)
    && goal == AfterString(c, h, r)
  }

  /** Before a string of which r is what comes, the value is written exactly if nothing is left out. */
  lemma StringComes(c: Context, m: Locals, out: bytes, mute: nat, goal: Outcome, r: R<bytes>)
    requires BeforeString(c, m, out, mute, goal, r)
    ensures var h := Now(m, out);
            && m.at == ValueL && Shape(c, h) && h.out == out
            && m.constant == ValInVariables(h.r) && mute == MuteAt(m.at, h.r, c.ignore)
            && (r.Err? ==> goal == Reject(r.e, r.pos))
            && (r.Ok? ==>
                  goal == Meaning(c, h.(at := AfterValueL, i := r.next,
                                        out := if mute == 0 then out + [PREF_STRING] + Escape(r.v) else out)))
  {
    hide Meaning, Shape, Escape;
    LeafMuted(c, Now(m, out));
    if r.Ok? {
      NoBytesAfter(out);
      Assoc(out, [PREF_STRING], Escape(r.v));
    }
  }

  /** What is written leaves everything else as it was. */
  lemma LeafIs(c: Context, m0: Locals, was: bytes, out: bytes, end: nat)
    requires m0.at == ValueL && Shape(c, Now(m0, was)) && m0.i < end <= |c.src|
    ensures Shape(c, Now(m0, out)) && Now(m0, out).r == Now(m0, was).r
    ensures Now(m0, out).(at := AfterValueL, i := end) == Now(m0, was).(at := AfterValueL, i := end, out := out)
    ensures forall m: Locals :: m.i == end ==> Advanced(m0, m)
  {
  }

  lemma BlockTextIs(s: bytes, start: nat)
    requires start <= |s|
    ensures BlockText(s, start) ==
            match BlockEnd(s, start)
            case Err(e, p) => Err(e, p)
            case Ok(_, k) => Ok(BlockString.BlockStringValue(Unquote(s[start..k - 3])), k)
  {
    hide BlockString.BlockStringValue, Unquote, BlockEnd;
  }

  lemma LineStringIs(s: bytes, start: nat)
    requires start <= |s|
    ensures LineString(s, start) ==
            match Contents(s, start)
            case Err(e, p) => Err(e, p)
            case Ok(cs, k) => Ok(EncodeAll(cs), k)
  {
    hide Contents, EncodeAll;
  }

  /** A block string without content is empty. */
  lemma NoContent(text: bytes, out: bytes)
    requires !HasContent(text)
    ensures out + Escape(BlockString.BlockStringValue(Unquote(text))) == out
  {
    BlankText(text);
    EscapeNil();
  }

  method BlockLiteral(c: Context, w: Writer, m0: Locals, ghost goal: Outcome) returns (m: Locals)
    requires m0.i + 3 <= |c.src| && BeforeString(c, m0, w.buf, w.mute, goal, BlockText(c.src, m0.i + 3))
    modifies w`buf
    ensures Valid(c, m, w.buf, w.mute, goal) && Advanced(m0, m)
  {
    hide *;
    ghost var out := w.buf;
    var start := m0.i + 3;
    StringComes(c, m0, out, w.mute, goal, BlockText(c.src, start));
    BlockTextIs(c.src, start);
    var end, prefixLen, hasContent, pos, err := ScanStringBlock(c.src, start);
    if err.Some? {
      Stops(c, m0, out, out, w.mute, err.value, pos);
      return Fail(m0, err.value, pos);
    }
    var text := c.src[start..end - 3];
    w.WriteByte(PREF_STRING);
    if hasContent {
      w.BlockStringValue(text, prefixLen);
    } else {
      NoContent(text, w.buf);
    }
    LeafIs(c, m0, out, w.buf, end);
    m := AfterLeaf(c, w, m0, goal, end);
  }

  method LineLiteral(c: Context, w: Writer, m0: Locals, ghost goal: Outcome) returns (m: Locals)
    requires m0.i + 1 <= |c.src| && BeforeString(c, m0, w.buf, w.mute, goal, LineString(c.src, m0.i + 1))
    modifies w`buf
    ensures Valid(c, m, w.buf, w.mute, goal) && Advanced(m0, m)
  {
    hide *;
    ghost var out := w.buf;
    var start := m0.i + 1;
    StringComes(c, m0, out, w.mute, goal, LineString(c.src, start));
    LineStringIs(c.src, start);
    var end, esc, pos, err := ScanStringLine(c.src, start);
    if err.Some? {
      Stops(c, m0, out, out, w.mute, err.value, pos);
      return Fail(m0, err.value, pos);
    }
    w.WriteByte(PREF_STRING);
    w.StringValue(c.src, start, end - 1, esc);
    LeafIs(c, m0, out, w.buf, end);
    m := AfterLeaf(c, w, m0, goal, end);
  }

  method OpenListValue(c: Context, w: Writer, m0: Locals, ghost goal: Outcome) returns (m: Locals)
    requires BeforeValue(c, m0, w.buf, w.mute, goal) && c.src[m0.i] == LBRACKET
    modifies w`buf
    ensures Valid(c, m, w.buf, w.mute, goal) && Advanced(m0, m)
  {
    hide Shape, MuteAt, InVariables, Meaning, Skip, AtValueStart;
    ListStarts(c, Now(m0, w.buf));
    NoBytesAfter(w.buf);
    ghost var h := Now(m0, w.buf);
    WithinValue(c, h, h);
    w.WriteByte(PREF_LIST);
    var i := SkipIgnorables(c.src, m0.i + 1);
    if i < |c.src| && c.src[i] == RBRACKET {
      m := m0.(at := AfterValueL, i := i + 1);
      WithinValue(c, h, Now(m, w.buf));
      return;
    }
    if |m0.stack| >= c.limit {
      return Fail(m0, TooDeep, i);
    }
    m := m0.(at := ValueL, i := i, stack := m0.stack + [ListFrame]);
    WithinValue(c, h, Now(m, w.buf));
  }

  method OpenObjectValue(c: Context, w: Writer, m0: Locals, ghost goal: Outcome) returns (m: Locals)
    requires BeforeValue(c, m0, w.buf, w.mute, goal) && c.src[m0.i] == LBRACE
    modifies w`buf
    ensures Valid(c, m, w.buf, w.mute, goal) && Advanced(m0, m)
  {
    hide Shape, MuteAt, InVariables, Meaning, Skip, AtValueStart;
    ObjectStarts(c, Now(m0, w.buf));
    NoBytesAfter(w.buf);
    ghost var h := Now(m0, w.buf);
    WithinValue(c, h, h);
    w.WriteByte(PREF_OBJECT);
    var i := SkipIgnorables(c.src, m0.i + 1);
    if i < |c.src| && c.src[i] == RBRACE {
      m := m0.(at := AfterValueL, i := i + 1);
      WithinValue(c, h, Now(m, w.buf));
      return;
    }
    if |m0.stack| >= c.limit {
      return Fail(m0, TooDeep, i);
    }
    m := m0.(at := ObjectFieldL, i := i, stack := m0.stack + [ObjectFrame]);
    WithinValue(c, h, Now(m, w.buf));
  }

  method NumberValue(c: Context, w: Writer, m0: Locals, ghost goal: Outcome) returns (m: Locals)
    requires BeforeValue(c, m0, w.buf, w.mute, goal) && (c.src[m0.i] == MINUS || IsDigit(c.src[m0.i]))
    modifies w`buf
    ensures Valid(c, m, w.buf, w.mute, goal) && Advanced(m0, m)
  {
    m := m0;
    var i := m0.i;
    hide Meaning, Skip, Number;
    NoBytesAfter(w.buf);
    var end, isFloat, pos, err := ScanNumber(c.src, i);
    if err.Some? {
      return Fail(m, err.value, pos);
    }
    if isFloat {
      w.Tok(PREF_FLOAT, c.src[i..end]);
    } else {
      w.Tok(PREF_INTEGER, c.src[i..end]);
    }
    m := AfterLeaf(c, w, m, goal, end);
  }

  /** null, true, false or an enum value. */
  method WordValue(c: Context, w: Writer, m0: Locals, ghost goal: Outcome) returns (m: Locals)
    requires BeforeValue(c, m0, w.buf, w.mute, goal)
    requires c.src[m0.i] != DOLLAR && c.src[m0.i] != QUOTE && c.src[m0.i] != LBRACKET && c.src[m0.i] != LBRACE
    requires c.src[m0.i] != MINUS && !IsDigit(c.src[m0.i])
    modifies w`buf
    ensures Valid(c, m, w.buf, w.mute, goal) && Advanced(m0, m)
  {
    m := m0;
    var i := m0.i;
    hide Meaning, Skip, NameEnd, IsKeywordAt, HasPrefixAt, Shape, MuteAt, InVariables, Valid;
    ghost var h := Now(m, w.buf);
    LeafMuted(c, h);
    NoBytesAfter(w.buf);
    if IsKeywordAt(c.src, i, KW_NULL) {
      w.WriteByte(PREF_NULL);
      ShapeKept(c, h, w.buf);
      m := AfterLeaf(c, w, m, goal, i + |KW_NULL|);
      return;
    }
    if IsKeywordAt(c.src, i, KW_TRUE) {
      w.WriteByte(PREF_TRUE);
      ShapeKept(c, h, w.buf);
      m := AfterLeaf(c, w, m, goal, i + |KW_TRUE|);
      return;
    }
    if IsKeywordAt(c.src, i, KW_FALSE) {
      w.WriteByte(PREF_FALSE);
      ShapeKept(c, h, w.buf);
      m := AfterLeaf(c, w, m, goal, i + |KW_FALSE|);
      return;
    }
    if !IsNameStart(c.src[i]) {
      Stops(c, m0, old(w.buf), w.buf, w.mute, UnexpectedToken, i);
      return Fail(m0, UnexpectedToken, i);
    }
    var end := w.NameTok(PREF_ENUM, c.src, i);
    ShapeKept(c, h, w.buf);
    m := AfterLeaf(c, w, m, goal, end);
  }

  method Value(c: Context, w: Writer, m0: Locals, ghost goal: Outcome) returns (m: Locals)
    requires Valid(c, m0, w.buf, w.mute, goal) && m0.at == ValueL
    modifies w`buf
    ensures Valid(c, m, w.buf, w.mute, goal) && Advanced(m0, m)
  {
    m := m0;
    var i := m0.i;
    hide Meaning, Skip, Name, NameEnd, IsKeywordAt, HasPrefixAt;
    ValueStep(c, Now(m, w.buf));
    if i == |c.src| {
      return Fail(m, UnexpectedEOF, i);
    }
    hide AtValueStart;
    var b := c.src[i];
    if b == DOLLAR {
      m := VariableValue(c, w, m, goal);
    } else if b == QUOTE {
      m := StringLiteral(c, w, m, goal);
    } else if b == LBRACKET {
      m := OpenListValue(c, w, m, goal);
    } else if b == LBRACE {
      m := OpenObjectValue(c, w, m, goal);
    } else if b == MINUS || IsDigit(b) {
      m := NumberValue(c, w, m, goal);
    } else {
      m := WordValue(c, w, m, goal);
    }
  }

  // ----- Selection sets

  method SelSet(c: Context, w: Writer, m0: Locals, ghost goal: Outcome) returns (m: Locals)
    requires Valid(c, m0, w.buf, w.mute, goal) && m0.at == SelSetL
    modifies w`buf
    ensures Valid(c, m, w.buf, w.mute, goal) && Advanced(m0, m)
  {
    m := m0;
    var i := m0.i;
    hide Meaning, Skip, Name, NameEnd, IsKeywordAt, HasPrefixAt;
    SelSetStep(c, Now(m, w.buf));
    var err := ByteError(c.src, i, LBRACE);
    if err.Some? {
      return Fail(m, err.value, i);
    }
    i := SkipIgnorables(c.src, i + 1);
    w.WriteByte(PREF_SELECTION_SET);
    m := m.(at := SelectionL, i := i, selDepth := m.selDepth + 1);
    if m.selDepth > c.limit {
      return Fail(m, TooDeep, i);
    }
  }

  method Selection(c: Context, w: Writer, m0: Locals, ghost goal: Outcome) returns (m: Locals)
    requires Valid(c, m0, w.buf, w.mute, goal) && m0.at == SelectionL
    modifies w`buf
    ensures Valid(c, m, w.buf, w.mute, goal) && Advanced(m0, m)
  {
    m := m0;
    var i := m0.i;
    hide Meaning, Skip, AfterEllipsis, AtField, IsKeywordAt, HasPrefixAt;
    SelectionStep(c, Now(m, w.buf));
    if i == |c.src| {
      EndIsNoSelection(c, Now(m, w.buf));
      return Fail(m, UnexpectedEOF, i);
    }
    if c.src[i] == DOT && HasPrefixAt(c.src, i, ELLIPSIS) {
      m := Ellipsis(c, w, m, goal);
      return;
    }
    EllipsisDot(c.src, i);
    m := FieldName(c, w, m, goal);
  }

  /** What follows an ellipsis, at j: the type condition, a name or neither. */
  lemma EllipsisCases(c: Context, h: Here, j: nat)
    requires Shape(c, h) && h.at.SelectionL? && j <= |c.src|
    ensures AfterEllipsis(c, h, j) ==
            if IsKeywordAt(c.src, j, KW_ON) then AfterEllipsis(c, h.(i := j), j)
            else if j < |c.src| && IsNameStart(c.src[j]) then
              var k := NameEnd(c.src, j + 1);
              Meaning(c, DirectivesAt(h, Skip(c.src, k), DirSpread, h.out + ([PREF_SPREAD] + c.src[j..k])))
            else Meaning(c, DirectivesAt(h, j, DirSelectionSet, h.out + [PREF_INLINE_FRAGMENT]))
  {
    hide Meaning, Skip, NameEnd, IsKeywordAt;
  }

  /** A fragment spread or an inline fragment, up to its directives. */
  method Ellipsis(c: Context, w: Writer, m0: Locals, ghost goal: Outcome) returns (m: Locals)
    requires m0.at == SelectionL && m0.i <= |c.src| && HasPrefixAt(c.src, m0.i, ELLIPSIS)
    requires Shape(c, Now(m0, w.buf)) && w.mute == 0
    requires goal == AfterEllipsis(c, Now(m0, w.buf), Skip(c.src, m0.i + 3))
    modifies w`buf
    ensures Valid(c, m, w.buf, w.mute, goal) && Advanced(m0, m)
  {
    m := m0;
    var i := m0.i;
    hide Meaning, Skip, NameEnd, IsKeywordAt, HasPrefixAt, Valid, MuteAt, InVariables, AfterEllipsis;
    ghost var h := Now(m, w.buf);
    i := SkipIgnorables(c.src, i + |ELLIPSIS|);
    EllipsisCases(c, h, i);
    if IsKeywordAt(c.src, i, KW_ON) {
      m := TypeCondition(c, w, m.(i := i), goal);
      return;
    }
    if i < |c.src| && IsNameStart(c.src[i]) {
      i := w.NameTok(PREF_SPREAD, c.src, i);
      i := SkipIgnorables(c.src, i);
      m := ToDirectives(c, w, m.(i := i), goal, DirSpread);
      return;
    }
    w.WriteByte(PREF_INLINE_FRAGMENT);
    m := ToDirectives(c, w, m.(i := i), goal, DirSelectionSet);
  }

  /** The type condition of an inline fragment, after the keyword `on` at i. */
  method TypeCondition(c: Context, w: Writer, m0: Locals, ghost goal: Outcome) returns (m: Locals)
    requires m0.at == SelectionL && m0.i <= |c.src| && IsKeywordAt(c.src, m0.i, KW_ON)
    requires Shape(c, Now(m0, w.buf)) && w.mute == 0
    requires goal == AfterEllipsis(c, Now(m0, w.buf), m0.i)
    modifies w`buf
    ensures Valid(c, m, w.buf, w.mute, goal) && Advanced(m0, m)
  {
    m := m0;
    var i := m0.i;
    hide Meaning, Skip, Name, NameEnd, IsKeywordAt;
    i := SkipIgnorables(c.src, i + |KW_ON|);
    var err := NameError(c.src, i);
    if err.Some? {
      return Fail(m, err.value, i);
    }
    w.WriteByte(PREF_INLINE_FRAGMENT);
    i := w.NameTok(PREF_TYPE, c.src, i);
    i := SkipIgnorables(c.src, i);
    m := ToDirectives(c, w, m.(i := i), goal, DirSelectionSet);
  }

  /** What a field comes to after its first name, at k. */
  function AtColon(c: Context, h: Here, k: nat, out: bytes): Outcome
    requires Shape(c, h) && h.at.SelectionL? && k <= |c.src|
  {
    if k == |c.src| then Reject(UnexpectedEOF, k)
    else if c.src[k] == COLON then AtAliased(c, h, k, out)
    else Meaning(c, AfterFieldName(c, h, k, out))
  }

  lemma FieldNamed(c: Context, m0: Locals, out: bytes)
    requires Shape(c, Now(m0, out)) && m0.at == SelectionL && m0.i < |c.src|
    ensures !IsNameStart(c.src[m0.i]) ==> AtField(c, Now(m0, out)) == Reject(UnexpectedToken, m0.i)
    ensures IsNameStart(c.src[m0.i]) ==>
              var j := NameEnd(c.src, m0.i + 1);
              AtField(c, Now(m0, out)) == AtColon(c, Now(m0, out), Skip(c.src, j), out + ([PREF_FIELD] + c.src[m0.i..j]))
  {
    hide Meaning, AfterFieldName, Skip, NameEnd, Shape;
  }

  lemma ColonIs(c: Context, m0: Locals, was: bytes, k: nat, out: bytes)
    requires Shape(c, Now(m0, was)) && m0.at == SelectionL && k <= |c.src|
    ensures AtColon(c, Now(m0, was), k, out) ==
            if k == |c.src| then Reject(UnexpectedEOF, k)
            else if c.src[k] == COLON then AtAliased(c, Now(m0, was), k, out)
            else Meaning(c, AfterFieldName(c, Now(m0, was), k, out))
  {
    hide Meaning, AfterFieldName, Shape, AtAliased;
  }

  /** The name of a field, after its alias if it has one. */
  method FieldName(c: Context, w: Writer, m0: Locals, ghost goal: Outcome) returns (m: Locals)
    requires m0.at == SelectionL && m0.i < |c.src|
    requires Shape(c, Now(m0, w.buf)) && w.mute == 0
    requires goal == AtField(c, Now(m0, w.buf))
    modifies w`buf
    ensures Valid(c, m, w.buf, w.mute, goal) && Advanced(m0, m)
  {
    hide *;
    ghost var out := w.buf;
    FieldNamed(c, m0, out);
    if !IsNameStart(c.src[m0.i]) {
      Stops(c, m0, out, out, w.mute, UnexpectedToken, m0.i);
      return Fail(m0, UnexpectedToken, m0.i);
    }
    var i := w.NameTok(PREF_FIELD, c.src, m0.i);
    i := SkipIgnorables(c.src, i);
    ColonIs(c, m0, out, i, w.buf);
    if i == |c.src| {
      Stops(c, m0, out, w.buf, w.mute, UnexpectedEOF, i);
      return Fail(m0, UnexpectedEOF, i);
    }
    if c.src[i] == COLON {
      m := AliasedName(c, w, m0, goal, i, out);
      return;
    }
    m := FieldTail(c, w, m0, goal, i, out);
  }

  /** What a field comes to after the colon of its alias at k. */
  function AtAliased(c: Context, h: Here, k: nat, out: bytes): Outcome
    requires Shape(c, h) && h.at.SelectionL? && k < |c.src|
  {
    match Name(c.src, Skip(c.src, k + 1))
    case Err(e, p) => Reject(e, p)
    case Ok(m, e) =>
      var f := Skip(c.src, e);
      if f == |c.src| then Reject(UnexpectedEOF, f)
      else Meaning(c, AfterFieldName(c, h, f, out + ([PREF_ALIASED_NAME] + m)))
  }

  /** The name of an aliased field, after the colon at k. */
  method AliasedName(c: Context, w: Writer, m0: Locals, ghost goal: Outcome, k: nat, ghost out: bytes) returns (m: Locals)
    requires m0.at == SelectionL && m0.i < k < |c.src| && Shape(c, Now(m0, out)) && w.mute == 0
    requires goal == AtAliased(c, Now(m0, out), k, w.buf)
    modifies w`buf
    ensures Valid(c, m, w.buf, w.mute, goal) && Advanced(m0, m)
  {
    hide Meaning, AfterFieldName, Skip, NameEnd;
    var i := SkipIgnorables(c.src, k + 1);
    var err := NameError(c.src, i);
    if err.Some? {
      return Fail(m0, err.value, i);
    }
    i := w.NameTok(PREF_ALIASED_NAME, c.src, i);
    i := SkipIgnorables(c.src, i);
    if i == |c.src| {
      return Fail(m0, UnexpectedEOF, i);
    }
    m := FieldTail(c, w, m0, goal, i, out);
  }

  /** After the names of a field: its arguments or its directives. */
  method FieldTail(c: Context, w: Writer, m0: Locals, ghost goal: Outcome, i: nat, ghost out: bytes) returns (m: Locals)
    requires m0.at == SelectionL && m0.i < i < |c.src|
    requires Shape(c, Now(m0, out)) && w.mute == 0
    requires goal == Meaning(c, AfterFieldName(c, Now(m0, out), i, w.buf))
    ensures Valid(c, m, w.buf, w.mute, goal) && Advanced(m0, m)
  {
    hide Meaning;
    m := m0.(i := i);
    if c.src[i] == LPAREN {
      m := ToArgs(c, w, m, goal, ArgField);
    } else {
      m := m.(at := FieldDirectivesL);
    }
  }

  method FieldAfterArgs(c: Context, w: Writer, m0: Locals, ghost goal: Outcome) returns (m: Locals)
    requires Valid(c, m0, w.buf, w.mute, goal) && m0.at == FieldAfterArgsL
    ensures Valid(c, m, w.buf, w.mute, goal) && Advanced(m0, m)
  {
    m := m0;
    var i := m0.i;
    hide Meaning, Skip, Name, NameEnd, IsKeywordAt, HasPrefixAt;
    FieldAfterArgsStep(c, Now(m, w.buf));
    i := SkipIgnorables(c.src, i);
    m := m.(at := FieldDirectivesL, i := i);
  }

  method FieldDirectives(c: Context, w: Writer, m0: Locals, ghost goal: Outcome) returns (m: Locals)
    requires Valid(c, m0, w.buf, w.mute, goal) && m0.at == FieldDirectivesL
    ensures Valid(c, m, w.buf, w.mute, goal) && Advanced(m0, m)
  {
    hide Meaning;
    FieldDirectivesStep(c, Now(m0, w.buf));
    m := m0.(at := DirectivesL, dirRet := DirField, constant := false);
  }

  method FieldAfterDirectives(c: Context, w: Writer, m0: Locals, ghost goal: Outcome) returns (m: Locals)
    requires Valid(c, m0, w.buf, w.mute, goal) && m0.at == FieldAfterDirectivesL
    ensures Valid(c, m, w.buf, w.mute, goal) && Advanced(m0, m)
  {
    m := m0;
    var i := m0.i;
    hide Meaning, Skip, Name, NameEnd, IsKeywordAt, HasPrefixAt;
    FieldAfterDirectivesStep(c, Now(m, w.buf));
    i := SkipIgnorables(c.src, i);
    if i == |c.src| {
      return Fail(m, UnexpectedEOF, i);
    }
    m := m.(at := if c.src[i] == LBRACE then SelSetL else AfterSelectionL, i := i);
  }

  lemma AfterSelectionStarts(c: Context, m0: Locals, out: bytes, mute: nat, goal: Outcome)
    requires Valid(c, m0, out, mute, goal) && m0.at == AfterSelectionL
    ensures Shape(c, Now(m0, out)) && mute == 0 && m0.i <= |c.src| && m0.selDepth > 0
    ensures var now := out + [PREF_SELECTION_SET_END];
            goal ==
            if m0.i == |c.src| then Reject(UnexpectedEOF, m0.i)
            else if c.src[m0.i] != RBRACE then Meaning(c, Now(m0.(at := SelectionL), out))
            else if m0.selDepth == 1 then Meaning(c, Now(m0.(at := DefinitionEndL, i := m0.i + 1, selDepth := 0), now))
            else Meaning(c, Now(m0.(i := Skip(c.src, m0.i + 1), selDepth := m0.selDepth - 1), now))
  {
    hide Meaning, Skip;
    AfterSelectionStep(c, Now(m0, out));
  }

  lemma AfterSelectionMoves(c: Context, m0: Locals, was: bytes, mute: nat, goal: Outcome, m: Locals, out: bytes)
    requires Valid(c, m0, was, mute, goal) && m0.at == AfterSelectionL && m0.i <= m.i <= |c.src|
    requires m == m0.(at := m.at, i := m.i, selDepth := m.selDepth)
    requires (m.at.SelectionL? && m.selDepth > 0) || (m.at.DefinitionEndL? && m.selDepth == 0 && m.i > m0.i)
             || (m.at.AfterSelectionL? && m.selDepth > 0 && m.i > m0.i)
    ensures Shape(c, Now(m, out)) && Valid(c, m, out, mute, Meaning(c, Now(m, out))) && Advanced(m0, m)
  {
    hide Meaning;
  }

  method AfterSelection(c: Context, w: Writer, m0: Locals, ghost goal: Outcome) returns (m: Locals)
    requires Valid(c, m0, w.buf, w.mute, goal) && m0.at == AfterSelectionL
    modifies w`buf
    ensures Valid(c, m, w.buf, w.mute, goal) && Advanced(m0, m)
  {
    hide *;
    ghost var out := w.buf;
    AfterSelectionStarts(c, m0, out, w.mute, goal);
    var i := m0.i;
    if i == |c.src| {
      Stops(c, m0, out, out, w.mute, UnexpectedEOF, i);
      return Fail(m0, UnexpectedEOF, i);
    }
    if c.src[i] != RBRACE {
      m := m0.(at := SelectionL);
      AfterSelectionMoves(c, m0, out, w.mute, goal, m, out);
      return;
    }
    w.WriteByte(PREF_SELECTION_SET_END);
    i := i + 1;
    m := m0.(selDepth := m0.selDepth - 1);
    if m.selDepth == 0 {
      m := m.(at := DefinitionEndL, i := i);
      AfterSelectionMoves(c, m0, out, w.mute, goal, m, w.buf);
      return;
    }
    i := SkipIgnorables(c.src, i);
    m := m.(i := i);
    AfterSelectionMoves(c, m0, out, w.mute, goal, m, w.buf);
  }

  // ----- The loop

  /** The run is over: what is written is the outcome, and nothing is muted. */
  lemma RunOver(c: Context, m: Locals, out: bytes, mute: nat, goal: Outcome)
    requires Valid(c, m, out, mute, goal) && m.at.DoneL?
    ensures goal == Accept(out) && mute == 0
  {
  }

  /** Goes from label to label until the run is over. */
  method Go(c: Context, w: Writer, m0: Locals, ghost goal: Outcome) returns (m: Locals)
    requires Valid(c, m0, w.buf, w.mute, goal)
    modifies w
    ensures goal == if m.at.DoneL? then Accept(w.buf) else Reject(m.e, m.errPos)
    ensures m.at.DoneL? || m.at.ErrorL?
    ensures m.at.DoneL? ==> w.mute == 0
    ensures |m.stack| <= c.limit
  {
    hide Shape, MuteAt, InVariables, Meaning;
    m := m0;
    while !m.at.DoneL? && !m.at.ErrorL?
      invariant Valid(c, m, w.buf, w.mute, goal)
      decreases |c.src| - m.i, Rank(m.at)
    {
      match m.at {
        case DefinitionL => m := Definition(c, w, m, goal);
        case DefinitionEndL => m := DefinitionEnd(c, w, m, goal);
        case FragmentL => m := Fragment(c, w, m, goal);
        case VarDefL => m := VarDef(c, w, m, goal);
        case TypeL => m := Type(c, w, m, goal);
        case TypeAfterL => m := TypeAfter(c, w, m, goal);
        case VarDefAfterDefaultL => m := VarDefAfterDefault(c, w, m, goal);
        case VarDefDirectivesL => m := VarDefDirectives(c, w, m, goal);
        case VarDefEndL => m := VarDefEnd(c, w, m, goal);
        case DirectivesL => m := Directives(c, w, m, goal);
        case ArgsL => m := Args(c, w, m, goal);
        case ArgsNextL => m := ArgsNext(c, w, m, goal);
        case ArgsAfterValueL => m := ArgsAfterValue(c, w, m, goal);
        case ValueL => m := Value(c, w, m, goal);
        case AfterValueL => m := AfterValue(c, w, m, goal);
        case ObjectFieldL => m := ObjectField(c, w, m, goal);
        case SelSetL => m := SelSet(c, w, m, goal);
        case SelectionL => m := Selection(c, w, m, goal);
        case FieldAfterArgsL => m := FieldAfterArgs(c, w, m, goal);
        case FieldDirectivesL => m := FieldDirectives(c, w, m, goal);
        case FieldAfterDirectivesL => m := FieldAfterDirectives(c, w, m, goal);
        case AfterSelectionL => m := AfterSelection(c, w, m, goal);
      }
    }
    if m.at.DoneL? {
      RunOver(c, m, w.buf, w.mute, goal);
    }
  }

  /** An accepted document writes at least the prefix of its first definition. */
  lemma RunWrites(c: Context)
    ensures Run(c).Accept? ==> Run(c).out != []
  {
    var r := ParseDocument(c.src, c.limit);
    if r.Ok? {
      assert SerDocument(c.ignore, r.v) == SerDefinition(c.ignore, r.v[0]) + SerDocument(c.ignore, r.v[1..]);
    }
  }

  /** The whole run: what it writes, or the error it stops at, is what the recursive grammar
      and the serializer make of the source. The stack is a reused one, cut to nothing. */
  method ReadDocument(c: Context, w: Writer, retained: seq<Frame>) returns (m: Locals)
    requires w.buf == [] && w.mute == 0
    modifies w
    ensures Run(c) == if m.at.DoneL? then Accept(w.buf) else Reject(m.e, m.errPos)
    ensures m.at.DoneL? ==> w.mute == 0 && w.buf != []
    ensures |m.stack| <= c.limit
  {
    hide Run, Meaning, Skip;
    m := Locals(DefinitionL, 0, retained[..0], 0, 0, DirSelectionSet, ArgField, ValArgument, false, UnexpectedEOF, 0);
    var i := SkipIgnorables(c.src, 0);
    m := m.(i := i);
    RunStart(c, Now(m, []));
    if i == |c.src| {
      m := Fail(m, UnexpectedEOF, i);
      return;
    }
    m := Go(c, w, m, Run(c));
    RunWrites(c);
  }
}
