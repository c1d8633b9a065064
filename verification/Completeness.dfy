/**
 Every document of the grammar is accepted however it is laid out, unless it nests more
 deeply than the limit, and that is then the error.
 */
module Completeness {
  import opened Bytes
  import opened Lexical
  import opened Utf8
  import opened Ast
  import opened Grammar
  import opened Numbers
  import D = Descent
  import S = Soundness

  /** From i on the source holds exactly the tokens ts. */
  predicate At(s: bytes, i: nat, ts: seq<Token>) {
    i <= |s| && Tokens(s, i) == Some(ts)
  }

  /** The read yields v and leaves the tokens of rest; or, if v nests too deeply, it says so. */
  ghost predicate Yields<T>(r: R<T>, v: T, s: bytes, rest: seq<Token>, fits: bool) {
    if fits then r.Ok? && r.v == v && At(s, r.next, rest) else r.Err? && r.e == TooDeep
  }

  // ----- One token

  lemma AtSkip(s: bytes, i: nat, ts: seq<Token>)
    requires At(s, i, ts)
    ensures At(s, Skip(s, i), ts) && Skip(s, Skip(s, i)) == Skip(s, i)
  {
    SkipIdempotent(s, i);
  }

  /** What the first byte tells about the first token. */
  lemma First(s: bytes, i: nat, ts: seq<Token>)
    requires At(s, i, ts)
    ensures ts == [] <==> Skip(s, i) == |s|
    ensures ts != [] ==> FirstByteTells(s, Skip(s, i), ts[0])
    ensures ts != [] ==> Lex(s, Skip(s, i)).Ok? && Lex(s, Skip(s, i)).v == ts[0] && At(s, Lex(s, Skip(s, i)).next, ts[1..])
    ensures At(s, Skip(s, i), ts) && Skip(s, Skip(s, i)) == Skip(s, i)
  {
    hide Lex;
    AtSkip(s, i, ts);
    if ts != [] {
      var k := Skip(s, i);
      TokenTells(s, k);
      assert ts[1..] == Tokens(s, Lex(s, k).next).value;
    }
  }

  predicate FirstByteTells(s: bytes, k: nat, t: Token) {
    && k < |s|
    && (IsPunctuator(s[k]) <==> t.Punct?) && (t.Punct? ==> s[k] == t.b)
    && (HasPrefixAt(s, k, D.ELLIPSIS) <==> t == Ellipsis)
    && (IsNameStart(s[k]) <==> t.NameToken?)
    && (s[k] == MINUS || IsDigit(s[k]) <==> t.IntToken? || t.FloatToken?)
    && (s[k] == QUOTE <==> t.StringToken?)
  }

  lemma TokenTells(s: bytes, k: nat)
    requires k < |s| && Lex(s, k).Ok?
    ensures FirstByteTells(s, k, Lex(s, k).v)
  {
    hide Number, D.StringToken, NameEnd;
    S.FirstByte(s, k, D.ELLIPSIS);
  }

  lemma TakeByte(s: bytes, i: nat, b: byte, rest: seq<Token>)
    requires At(s, i, [Punct(b)] + rest)
    ensures var k := Skip(s, i);
            k < |s| && s[k] == b && At(s, k + 1, rest)
  {
    hide Tokens, Skip, Number, D.StringToken, NameEnd;
    First(s, i, [Punct(b)] + rest);
    assert ([Punct(b)] + rest)[1..] == rest;
  }

  lemma TakeName(s: bytes, i: nat, n: bytes, rest: seq<Token>)
    requires At(s, i, [NameToken(n)] + rest)
    ensures var k := Skip(s, i);
            k < |s| && IsNameStart(s[k]) && D.Name(s, k).Ok? && D.Name(s, k).v == n && At(s, D.Name(s, k).next, rest)
  {
    hide Tokens, Skip, Number, D.StringToken, NameEnd;
    First(s, i, [NameToken(n)] + rest);
    assert ([NameToken(n)] + rest)[1..] == rest;
  }

  lemma TakeString(s: bytes, i: nat, v: bytes, rest: seq<Token>)
    requires At(s, i, [StringToken(v)] + rest)
    ensures var k := Skip(s, i);
            k < |s| && s[k] == QUOTE && D.StringToken(s, k).Ok? && D.StringToken(s, k).v == v
            && At(s, D.StringToken(s, k).next, rest)
  {
    hide Tokens, Skip, Number, D.StringToken, NameEnd;
    First(s, i, [StringToken(v)] + rest);
    assert ([StringToken(v)] + rest)[1..] == rest;
  }

  lemma TakeEllipsis(s: bytes, i: nat, rest: seq<Token>)
    requires At(s, i, [Ellipsis] + rest)
    ensures var k := Skip(s, i);
            HasPrefixAt(s, k, D.ELLIPSIS) && At(s, k + 3, rest)
  {
    hide Tokens, Skip, Number, D.StringToken, NameEnd;
    First(s, i, [Ellipsis] + rest);
    assert ([Ellipsis] + rest)[1..] == rest;
  }

  lemma TakeNumber(s: bytes, i: nat, isFloat: bool, t: bytes, rest: seq<Token>)
    requires At(s, i, [if isFloat then FloatToken(t) else IntToken(t)] + rest)
    ensures var k := Skip(s, i);
            && k < |s| && (s[k] == MINUS || IsDigit(s[k])) && Number(s, k).Ok? && Number(s, k).v == isFloat
            && s[k..Number(s, k).next] == t && At(s, Number(s, k).next, rest)
  {
    hide Tokens, Skip, Number, D.StringToken, NameEnd;
    var ts := [if isFloat then FloatToken(t) else IntToken(t)] + rest;
    First(s, i, ts);
    assert ts[1..] == rest;
  }

  lemma Cat(a: seq<Token>, b: seq<Token>, c: seq<Token>)
    ensures a + b + c == a + (b + c)
  {
  }

  lemma Cat4(a: seq<Token>, b: seq<Token>, c: seq<Token>, d: seq<Token>)
    ensures a + (b + c) + d == a + (b + (c + d))
  {
  }

  // ----- Values

  lemma {:induction false} ValueComplete(s: bytes, i: nat, v: Value, rest: seq<Token>, constant: bool, room: nat)
    requires At(s, i, ValueTokens(v) + rest) && Skip(s, i) == i && WfValue(v, constant)
    ensures Yields(D.ParseValue(s, i, constant, room), v, s, rest, ValueDepth(v) <= room)
    decreases v, 1
  {
    hide Tokens, Lex, Skip, IsName, IsNumberText, IsUtf8, D.Name, D.StringToken, Number, IsKeywordAt, HasPrefixAt;
    match v {
      case ListValue(vs) => ListComplete(s, i, vs, rest, constant, room);
      case ObjectValue(fs) => ObjectComplete(s, i, fs, rest, constant, room);
      case Variable(n) =>
        assert ValueTokens(v) + rest == [Punct(DOLLAR)] + ([NameToken(n)] + rest);
        TakeByte(s, i, DOLLAR, [NameToken(n)] + rest);
        TakeName(s, i + 1, n, rest);
      case IntValue(t) =>
        First(s, i, ValueTokens(v) + rest);
        TakeNumber(s, i, false, t, rest);
      case FloatValue(t) =>
        First(s, i, ValueTokens(v) + rest);
        TakeNumber(s, i, true, t, rest);
      case StringValue(t) => TakeString(s, i, t, rest);
      case BooleanValue(b) => WordComplete(s, i, if b then KW_TRUE else KW_FALSE, rest, constant, room);
      case NullValue => WordComplete(s, i, KW_NULL, rest, constant, room);
      case EnumValue(n) => WordComplete(s, i, n, rest, constant, room);
    }
  }

  /** The value that a Name is. */
  function WordValue(n: bytes): Value {
    if n == KW_NULL then NullValue
    else if n == KW_TRUE then BooleanValue(true)
    else if n == KW_FALSE then BooleanValue(false)
    else EnumValue(n)
  }

  lemma WordComplete(s: bytes, i: nat, n: bytes, rest: seq<Token>, constant: bool, room: nat)
    requires At(s, i, [NameToken(n)] + rest) && Skip(s, i) == i
    ensures Yields(D.ParseValue(s, i, constant, room), WordValue(n), s, rest, true)
  {
    hide Tokens, Lex, Skip, IsName, IsNumberText, IsUtf8, D.Name, D.StringToken, Number, IsKeywordAt, HasPrefixAt;
    First(s, i, [NameToken(n)] + rest);
    TakeName(s, i, n, rest);
    S.WordIs(s, i);
  }

  lemma {:induction false} ListComplete(s: bytes, i: nat, vs: seq<Value>, rest: seq<Token>, constant: bool, room: nat)
    requires At(s, i, ValueTokens(ListValue(vs)) + rest) && Skip(s, i) == i && WfItems(vs, constant)
    ensures Yields(D.ParseValue(s, i, constant, room), ListValue(vs), s, rest, ValueDepth(ListValue(vs)) <= room)
    decreases vs, 2
  {
    hide Tokens, Lex, Skip, IsName, IsNumberText, IsUtf8, D.Name, D.StringToken, Number, IsKeywordAt, HasPrefixAt,
         FieldTokens, FieldsTokens, FieldsDepth, D.ParseField, D.ParseItems, D.ParseFields;
    var close := [Punct(RBRACKET)] + rest;
    Cat4([Punct(LBRACKET)], ItemsTokens(vs), [Punct(RBRACKET)], rest);
    TakeByte(s, i, LBRACKET, ItemsTokens(vs) + close);
    First(s, i + 1, ItemsTokens(vs) + close);
    var j := Skip(s, i + 1);
    if vs == [] {
      S.Unit(close);
      TakeByte(s, i + 1, RBRACKET, rest);
    } else {
      Cat(ValueTokens(vs[0]), ItemsTokens(vs[1..]), close);
      if room > 0 {
        ValueComplete(s, j, vs[0], ItemsTokens(vs[1..]) + close, constant, room - 1);
        var v := D.ParseValue(s, j, constant, room - 1);
        if v.Ok? {
          ItemsComplete(s, v.next, vs[1..], rest, constant, room - 1);
          assert [vs[0]] + vs[1..] == vs;
        }
      }
    }
  }

  lemma {:induction false} ItemsComplete(s: bytes, i: nat, vs: seq<Value>, rest: seq<Token>, constant: bool, room: nat)
    requires At(s, i, ItemsTokens(vs) + ([Punct(RBRACKET)] + rest)) && WfItems(vs, constant)
    ensures Yields(D.ParseItems(s, i, constant, room), vs, s, rest, ItemsDepth(vs) <= room)
    decreases vs, 3
  {
    hide Tokens, Lex, Skip, IsName, IsNumberText, IsUtf8, D.Name, D.StringToken, Number, IsKeywordAt, HasPrefixAt;
    var close := [Punct(RBRACKET)] + rest;
    First(s, i, ItemsTokens(vs) + close);
    var j := Skip(s, i);
    if vs == [] {
      S.Unit(close);
      TakeByte(s, i, RBRACKET, rest);
    } else {
      Cat(ValueTokens(vs[0]), ItemsTokens(vs[1..]), close);
      ValueComplete(s, j, vs[0], ItemsTokens(vs[1..]) + close, constant, room);
      var v := D.ParseValue(s, j, constant, room);
      if v.Ok? {
        ItemsComplete(s, v.next, vs[1..], rest, constant, room);
        assert [vs[0]] + vs[1..] == vs;
      }
    }
  }

  lemma {:induction false} ObjectComplete(s: bytes, i: nat, fs: seq<ObjectField>, rest: seq<Token>, constant: bool, room: nat)
    requires At(s, i, ValueTokens(ObjectValue(fs)) + rest) && Skip(s, i) == i && WfFields(fs, constant)
    ensures Yields(D.ParseValue(s, i, constant, room), ObjectValue(fs), s, rest, ValueDepth(ObjectValue(fs)) <= room)
    decreases fs, 2
  {
    hide Tokens, Lex, Skip, IsName, IsNumberText, IsUtf8, D.Name, D.StringToken, Number, IsKeywordAt, HasPrefixAt,
         WfField, FieldTokens, FieldDepth, D.ParseField, D.ParseItems, D.ParseFields, ItemsTokens, ItemsDepth;
    var close := [Punct(RBRACE)] + rest;
    Cat4([Punct(LBRACE)], FieldsTokens(fs), [Punct(RBRACE)], rest);
    TakeByte(s, i, LBRACE, FieldsTokens(fs) + close);
    First(s, i + 1, FieldsTokens(fs) + close);
    var j := Skip(s, i + 1);
    if fs == [] {
      S.Unit(close);
      TakeByte(s, i + 1, RBRACE, rest);
    } else {
      Cat(FieldTokens(fs[0]), FieldsTokens(fs[1..]), close);
      if room > 0 {
        FieldComplete(s, j, fs[0], FieldsTokens(fs[1..]) + close, constant, room - 1);
        var f := D.ParseField(s, j, constant, room - 1);
        if f.Ok? {
          FieldsComplete(s, f.next, fs[1..], rest, constant, room - 1);
          assert [fs[0]] + fs[1..] == fs;
        }
      }
    }
  }

  lemma {:induction false} FieldComplete(s: bytes, i: nat, f: ObjectField, rest: seq<Token>, constant: bool, room: nat)
    requires At(s, i, FieldTokens(f) + rest) && Skip(s, i) == i && WfField(f, constant)
    ensures Yields(D.ParseField(s, i, constant, room), f, s, rest, FieldDepth(f) <= room)
    decreases f, 2
  {
    hide Tokens, Lex, Skip, IsName, IsNumberText, IsUtf8, D.Name, D.StringToken, Number, IsKeywordAt, HasPrefixAt;
    NamedTokens(f.name, f.value, rest);
    TakeName(s, i, f.name, [Punct(COLON)] + (ValueTokens(f.value) + rest));
    var j := D.Name(s, i).next;
    TakeByte(s, j, COLON, ValueTokens(f.value) + rest);
    AtSkip(s, Skip(s, j) + 1, ValueTokens(f.value) + rest);
    ValueComplete(s, Skip(s, Skip(s, j) + 1), f.value, rest, constant, room);
  }

  lemma NamedTokens(n: bytes, v: Value, rest: seq<Token>)
    ensures [NameToken(n), Punct(COLON)] + ValueTokens(v) + rest == [NameToken(n)] + ([Punct(COLON)] + (ValueTokens(v) + rest))
  {
  }

  lemma {:induction false} FieldsComplete(s: bytes, i: nat, fs: seq<ObjectField>, rest: seq<Token>, constant: bool, room: nat)
    requires At(s, i, FieldsTokens(fs) + ([Punct(RBRACE)] + rest)) && WfFields(fs, constant)
    ensures Yields(D.ParseFields(s, i, constant, room), fs, s, rest, FieldsDepth(fs) <= room)
    decreases fs, 3
  {
    hide Tokens, Lex, Skip, IsName, IsNumberText, IsUtf8, D.Name, D.StringToken, Number, IsKeywordAt, HasPrefixAt;
    var close := [Punct(RBRACE)] + rest;
    First(s, i, FieldsTokens(fs) + close);
    var j := Skip(s, i);
    if fs == [] {
      S.Unit(close);
      TakeByte(s, i, RBRACE, rest);
    } else {
      Cat(FieldTokens(fs[0]), FieldsTokens(fs[1..]), close);
      FieldComplete(s, j, fs[0], FieldsTokens(fs[1..]) + close, constant, room);
      var f := D.ParseField(s, j, constant, room);
      if f.Ok? {
        FieldsComplete(s, f.next, fs[1..], rest, constant, room);
        assert [fs[0]] + fs[1..] == fs;
      }
    }
  }

  // ----- Arguments and directives

  lemma ArgumentComplete(s: bytes, i: nat, a: Argument, rest: seq<Token>, constant: bool, limit: nat)
    requires At(s, i, ArgumentTokens(a) + rest) && Skip(s, i) == i && WfArgument(a, constant)
    ensures Yields(D.ParseArgument(s, i, constant, limit), a, s, rest, ValueDepth(a.value) <= limit)
  {
    hide Tokens, Lex, Skip, IsName, IsNumberText, IsUtf8, D.Name, D.StringToken, Number, IsKeywordAt, HasPrefixAt;
    NamedTokens(a.name, a.value, rest);
    TakeName(s, i, a.name, [Punct(COLON)] + (ValueTokens(a.value) + rest));
    var j := D.Name(s, i).next;
    TakeByte(s, j, COLON, ValueTokens(a.value) + rest);
    AtSkip(s, Skip(s, j) + 1, ValueTokens(a.value) + rest);
    ValueComplete(s, Skip(s, Skip(s, j) + 1), a.value, rest, constant, limit);
  }

  lemma {:induction false} ArgumentsComplete(s: bytes, i: nat, xs: seq<Argument>, rest: seq<Token>, constant: bool, limit: nat)
    requires xs != [] && At(s, i, ArgumentListTokens(xs) + ([Punct(RPAREN)] + rest)) && Skip(s, i) == i
    requires WfArguments(xs, constant)
    ensures Yields(D.ParseArguments(s, i, constant, limit), xs, s, rest, ArgumentsDepth(xs) <= limit)
    decreases |xs|
  {
    hide Tokens, Lex, Skip, IsName, IsNumberText, IsUtf8, D.Name, D.StringToken, Number, IsKeywordAt, HasPrefixAt;
    hide D.ParseArgument, D.ParseValue;
    var close := [Punct(RPAREN)] + rest;
    Cat(ArgumentTokens(xs[0]), ArgumentListTokens(xs[1..]), close);
    ArgumentComplete(s, i, xs[0], ArgumentListTokens(xs[1..]) + close, constant, limit);
    var a := D.ParseArgument(s, i, constant, limit);
    assert [xs[0]] + xs[1..] == xs;
    if a.Ok? {
      First(s, a.next, ArgumentListTokens(xs[1..]) + close);
      if xs[1..] == [] {
        S.Unit(close);
        TakeByte(s, a.next, RPAREN, rest);
      } else {
        ArgumentsComplete(s, Skip(s, a.next), xs[1..], rest, constant, limit);
      }
    }
  }

  /** What cannot be taken for one more directive, or for the arguments of the last one. */
  predicate EndsDirectives(rest: seq<Token>) {
    rest != [] && rest[0] != Punct(AT) && rest[0] != Punct(LPAREN)
  }

  lemma {:induction false} DirectivesComplete(s: bytes, i: nat, ds: seq<Directive>, rest: seq<Token>, constant: bool, limit: nat)
    requires At(s, i, DirectivesTokens(ds) + rest) && Skip(s, i) == i && EndsDirectives(rest) && WfDirectives(ds, constant)
    ensures Yields(D.ParseDirectives(s, i, constant, limit), ds, s, rest, DirectivesDepth(ds) <= limit)
    decreases |ds|
  {
    hide Tokens, Lex, Skip, IsName, IsNumberText, IsUtf8, D.Name, D.StringToken, Number, IsKeywordAt, HasPrefixAt;
    hide D.ParseArguments, ArgumentListTokens, ArgumentsDepth, WfArguments, DirectiveTokens, DirectivesTokens;
    NoDirectives();
    if ds == [] {
      S.Unit(rest);
      First(s, i, rest);
      return;
    }
    var d, more := ds[0], DirectivesTokens(ds[1..]) + rest;
    DirectiveFirst(ds, rest);
    TakeByte(s, i, AT, [NameToken(d.name)] + (ArgumentsTokens(d.arguments) + more));
    TakeName(s, i + 1, d.name, ArgumentsTokens(d.arguments) + more);
    var j := D.Name(s, Skip(s, i + 1)).next;
    assert [d] + ds[1..] == ds;
    First(s, j, ArgumentsTokens(d.arguments) + more);
    if d.arguments == [] {
      S.Unit(more);
      MoreDirectives(ds[1..], rest);
      DirectivesComplete(s, Skip(s, j), ds[1..], rest, constant, limit);
    } else {
      var inner := ArgumentListTokens(d.arguments) + ([Punct(RPAREN)] + more);
      Cat4([Punct(LPAREN)], ArgumentListTokens(d.arguments), [Punct(RPAREN)], more);
      TakeByte(s, j, LPAREN, inner);
      var k := Skip(s, j) + 1;
      AtSkip(s, k, inner);
      ArgumentsComplete(s, Skip(s, k), d.arguments, more, constant, limit);
      var xs := D.ParseArguments(s, Skip(s, k), constant, limit);
      if xs.Ok? {
        AtSkip(s, xs.next, more);
        DirectivesComplete(s, Skip(s, xs.next), ds[1..], rest, constant, limit);
      }
    }
  }

  lemma NoDirectives()
    ensures DirectivesTokens([]) == [] && ArgumentsTokens([]) == [] && ArgumentsDepth([]) == 0
  {
  }

  lemma DirectiveFirst(ds: seq<Directive>, rest: seq<Token>)
    requires ds != []
    ensures DirectivesTokens(ds) + rest
              == [Punct(AT)] + ([NameToken(ds[0].name)] + (ArgumentsTokens(ds[0].arguments) + (DirectivesTokens(ds[1..]) + rest)))
  {
    hide ArgumentsTokens;
  }

  lemma MoreDirectives(ds: seq<Directive>, rest: seq<Token>)
    requires EndsDirectives(rest)
    ensures DirectivesTokens(ds) + rest != [] && (DirectivesTokens(ds) + rest)[0] != Punct(LPAREN)
  {
    hide DirectiveTokens;
  }

  // ----- Types and variable definitions

  /** A type without its '!', and the '!'. */
  function Core(t: Type): Type { if t.NonNull? then t.inner else t }

  function BangTokens(t: Type): seq<Token> { if t.NonNull? then [Punct(BANG)] else [] }

  lemma TypeIs(t: Type, rest: seq<Token>)
    ensures TypeTokens(t) + rest == TypeTokens(Core(t)) + (BangTokens(t) + rest)
  {
  }

  lemma BangComplete(s: bytes, j: nat, t: Type, rest: seq<Token>)
    requires At(s, j, BangTokens(t) + rest) && (rest != [] ==> rest[0] != Punct(BANG))
    ensures D.Banged(s, j, Core(t)) == t && At(s, D.BangEnd(s, j), rest)
  {
    hide Tokens, Lex, Skip;
    First(s, j, BangTokens(t) + rest);
    if t.NonNull? {
      TakeByte(s, j, BANG, rest);
    } else {
      S.Unit(rest);
    }
  }

  lemma {:induction false} TypeComplete(s: bytes, i: nat, t: Type, rest: seq<Token>)
    requires At(s, i, TypeTokens(t) + rest) && Skip(s, i) == i && WfType(t) && (rest != [] ==> rest[0] != Punct(BANG))
    ensures Yields(D.ParseType(s, i), t, s, rest, true)
    decreases t
  {
    hide Tokens, Lex, Skip, IsName, IsNumberText, IsUtf8, D.Name, D.StringToken, Number, IsKeywordAt, HasPrefixAt;
    hide D.Banged, D.BangEnd;
    TypeIs(t, rest);
    var core, more := Core(t), BangTokens(t) + rest;
    First(s, i, TypeTokens(core) + more);
    if core.Named? {
      TakeName(s, i, core.name, more);
      BangComplete(s, D.Name(s, i).next, t, rest);
    } else {
      var u, close := core.inner, [Punct(RBRACKET)] + more;
      Cat4([Punct(LBRACKET)], TypeTokens(u), [Punct(RBRACKET)], more);
      TakeByte(s, i, LBRACKET, TypeTokens(u) + close);
      AtSkip(s, i + 1, TypeTokens(u) + close);
      TypeComplete(s, Skip(s, i + 1), u, close);
      var j := D.ParseType(s, Skip(s, i + 1)).next;
      TakeByte(s, j, RBRACKET, more);
      BangComplete(s, Skip(s, j) + 1, t, rest);
    }
  }

  lemma DescriptionComplete(s: bytes, i: nat, d: Option<bytes>, rest: seq<Token>)
    requires i < |s| && At(s, i, DescriptionTokens(d) + rest) && Skip(s, i) == i && rest != [] && !rest[0].StringToken?
    ensures Yields(D.Description(s, i), d, s, rest, true)
    ensures D.Description(s, i).Ok? ==> Skip(s, D.Description(s, i).next) == D.Description(s, i).next
  {
    hide Tokens, Lex, Skip, IsName, IsNumberText, IsUtf8, D.Name, D.StringToken, Number, IsKeywordAt, HasPrefixAt;
    if d.Some? {
      TakeString(s, i, d.value, rest);
      First(s, D.StringToken(s, i).next, rest);
    } else {
      S.Unit(rest);
      First(s, i, rest);
    }
  }

  lemma DefaultComplete(s: bytes, i: nat, v: Option<Value>, rest: seq<Token>, limit: nat)
    requires At(s, i, DefaultTokens(v) + rest) && rest != [] && rest[0] != Punct(EQUALS)
    requires v.Some? ==> WfValue(v.value, true)
    ensures Yields(D.ParseDefault(s, i, limit), v, s, rest, v.Some? ==> ValueDepth(v.value) <= limit)
    ensures D.ParseDefault(s, i, limit).Ok? ==> Skip(s, D.ParseDefault(s, i, limit).next) == D.ParseDefault(s, i, limit).next
  {
    hide Tokens, Lex, Skip, IsName, IsNumberText, IsUtf8, D.Name, D.StringToken, Number, IsKeywordAt, HasPrefixAt;
    hide D.ParseValue;
    First(s, i, DefaultTokens(v) + rest);
    if v.Some? {
      Cat([Punct(EQUALS)], ValueTokens(v.value), rest);
      TakeByte(s, i, EQUALS, ValueTokens(v.value) + rest);
      var j := Skip(s, i) + 1;
      AtSkip(s, j, ValueTokens(v.value) + rest);
      ValueComplete(s, Skip(s, j), v.value, rest, true, limit);
      var r := D.ParseValue(s, Skip(s, j), true, limit);
      if r.Ok? {
        AtSkip(s, r.next, rest);
      }
    } else {
      S.Unit(rest);
    }
  }

  /** What may follow a variable definition. */
  predicate EndsVariable(rest: seq<Token>) {
    rest != [] && (rest[0] == Punct(DOLLAR) || rest[0].StringToken? || rest[0] == Punct(RPAREN))
  }

  lemma VariableIs(v: VariableDefinition, rest: seq<Token>)
    ensures VariableTokens(v) + rest == DescriptionTokens(v.description) + ([Punct(DOLLAR)] + ([NameToken(v.name)] + ([Punct(COLON)]
              + (TypeTokens(v.ty) + (DefaultTokens(v.default) + (DirectivesTokens(v.directives) + rest))))))
  {
    hide TypeTokens, DefaultTokens, DirectivesTokens, DescriptionTokens;
    var t, d, ds := TypeTokens(v.ty), DefaultTokens(v.default), DirectivesTokens(v.directives);
    Cat4(t, d, ds, rest);
    var head := [Punct(DOLLAR), NameToken(v.name), Punct(COLON)];
    assert head + (t + (d + (ds + rest))) == [Punct(DOLLAR)] + ([NameToken(v.name)] + ([Punct(COLON)] + (t + (d + (ds + rest)))));
    Cat4(DescriptionTokens(v.description), head, t + (d + ds), rest);
  }

  lemma NotBang(v: Option<Value>, ds: seq<Directive>, rest: seq<Token>)
    requires EndsVariable(rest)
    ensures var more := DirectivesTokens(ds) + rest;
            more != [] && more[0] != Punct(EQUALS) && (DefaultTokens(v) + more)[0] != Punct(BANG)
  {
    hide ValueTokens;
    if ds == [] {
      S.Unit(rest);
    }
  }

  lemma VariableComplete(s: bytes, i: nat, v: VariableDefinition, rest: seq<Token>, limit: nat)
    requires i < |s| && At(s, i, VariableTokens(v) + rest) && Skip(s, i) == i && WfVariable(v) && EndsVariable(rest)
    ensures Yields(D.ParseVariable(s, i, limit), v, s, rest, VariableDepth(v) <= limit)
  {
    hide Tokens, Lex, Skip, IsName, IsNumberText, IsUtf8, D.Name, D.StringToken, Number, IsKeywordAt, HasPrefixAt;
    hide D.Description, D.ParseType, D.ParseDefault, D.ParseDirectives, TypeTokens, DefaultTokens, DirectivesTokens,
         DescriptionTokens, WfType, WfValue, WfDirectives;
    VariableIs(v, rest);
    NotBang(v.default, v.directives, rest);
    var r4 := DirectivesTokens(v.directives) + rest;
    var r3 := DefaultTokens(v.default) + r4;
    var r2 := TypeTokens(v.ty) + r3;
    var r1 := [Punct(COLON)] + r2;
    DescriptionComplete(s, i, v.description, [Punct(DOLLAR)] + ([NameToken(v.name)] + r1));
    var d := D.Description(s, i);
    TakeByte(s, d.next, DOLLAR, [NameToken(v.name)] + r1);
    TakeName(s, d.next + 1, v.name, r1);
    var n := D.Name(s, Skip(s, d.next + 1));
    TakeByte(s, n.next, COLON, r2);
    var k := Skip(s, n.next) + 1;
    AtSkip(s, k, r2);
    TypeComplete(s, Skip(s, k), v.ty, r3);
    var t := D.ParseType(s, Skip(s, k));
    DefaultComplete(s, t.next, v.default, r4, limit);
    var e := D.ParseDefault(s, t.next, limit);
    if e.Ok? {
      DirectivesComplete(s, e.next, v.directives, rest, true, limit);
    }
  }

  lemma {:induction false} VariablesComplete(s: bytes, i: nat, vs: seq<VariableDefinition>, rest: seq<Token>, limit: nat)
    requires vs != [] && i < |s| && At(s, i, VariableListTokens(vs) + ([Punct(RPAREN)] + rest)) && Skip(s, i) == i
    requires WfVariables(vs)
    ensures Yields(D.ParseVariables(s, i, limit), vs, s, rest, VariablesDepth(vs) <= limit)
    decreases |vs|
  {
    hide Tokens, Lex, Skip, IsName, IsNumberText, IsUtf8, D.Name, D.StringToken, Number, IsKeywordAt, HasPrefixAt;
    hide D.ParseVariable, VariableTokens, WfVariable, VariableDepth;
    var close := [Punct(RPAREN)] + rest;
    var more := VariableListTokens(vs[1..]) + close;
    Cat(VariableTokens(vs[0]), VariableListTokens(vs[1..]), close);
    assert vs[1..] == [] ==> more == close by {
      S.Unit(close);
    }
    VariableComplete(s, i, vs[0], more, limit);
    var v := D.ParseVariable(s, i, limit);
    assert [vs[0]] + vs[1..] == vs;
    if v.Ok? {
      First(s, v.next, more);
      if vs[1..] == [] {
        TakeByte(s, v.next, RPAREN, rest);
      } else {
        VariablesComplete(s, Skip(s, v.next), vs[1..], rest, limit);
      }
    }
  }

  // ----- Selections

  /** What may follow a selection. */
  predicate EndsSelection(rest: seq<Token>) {
    rest != [] && (rest[0].NameToken? || rest[0] == Ellipsis || rest[0] == Punct(RBRACE))
  }

  predicate SelectionFits(x: Selection, depth: nat, limit: nat) {
    depth + Nesting(x) <= limit && SelectionDepth(x) <= limit
  }

  predicate SelectionsFit(xs: seq<Selection>, depth: nat, limit: nat) {
    depth + NestingAll(xs) <= limit && SelectionsDepth(xs) <= limit
  }

  lemma SelectionsFitPush(xs: seq<Selection>, depth: nat, limit: nat)
    requires xs != []
    ensures SelectionsFit(xs, depth, limit) <==> SelectionFits(xs[0], depth, limit) && SelectionsFit(xs[1..], depth, limit)
  {
    hide Nesting, SelectionDepth;
  }

  lemma {:induction false} SelectionSetComplete(s: bytes, i: nat, xs: seq<Selection>, rest: seq<Token>, depth: nat, limit: nat)
    requires At(s, i, SelectionSetTokens(xs) + rest) && Skip(s, i) == i && xs != [] && WfSelections(xs)
    ensures Yields(D.ParseSelectionSet(s, i, depth, limit), xs, s, rest, SelectionsFit(xs, depth + 1, limit))
    decreases xs, 2
  {
    hide Tokens, Lex, Skip, IsName, IsNumberText, IsUtf8, D.Name, D.StringToken, Number, IsKeywordAt, HasPrefixAt;
    hide D.ParseSelection, SelectionTokens, WfSelection, SelectionsDepth, NestingAll;
    var close := [Punct(RBRACE)] + rest;
    Cat4([Punct(LBRACE)], SelectionsTokens(xs), [Punct(RBRACE)], rest);
    TakeByte(s, i, LBRACE, SelectionsTokens(xs) + close);
    AtSkip(s, i + 1, SelectionsTokens(xs) + close);
    var j := Skip(s, i + 1);
    var more := SelectionsTokens(xs[1..]) + close;
    Cat(SelectionTokens(xs[0]), SelectionsTokens(xs[1..]), close);
    MoreSelections(xs[1..], rest);
    SelectionsFitPush(xs, depth + 1, limit);
    assert [xs[0]] + xs[1..] == xs;
    if depth + 1 <= limit {
      SelectionComplete(s, j, xs[0], more, depth + 1, limit);
      var x := D.ParseSelection(s, j, depth + 1, limit);
      if x.Ok? {
        SelectionsComplete(s, x.next, xs[1..], rest, depth + 1, limit);
      }
    }
  }

  lemma MoreSelections(xs: seq<Selection>, rest: seq<Token>)
    ensures EndsSelection(SelectionsTokens(xs) + ([Punct(RBRACE)] + rest))
  {
    hide SelectionTokens;
    if xs == [] {
      S.Unit([Punct(RBRACE)] + rest);
    }
  }

  lemma {:induction false} SelectionsComplete(s: bytes, i: nat, xs: seq<Selection>, rest: seq<Token>, depth: nat, limit: nat)
    requires At(s, i, SelectionsTokens(xs) + ([Punct(RBRACE)] + rest)) && Skip(s, i) == i && WfSelections(xs) && depth <= limit
    ensures Yields(D.SelectionsRest(s, i, depth, limit), xs, s, rest, SelectionsFit(xs, depth, limit))
    decreases xs, 3
  {
    hide Tokens, Lex, Skip, IsName, IsNumberText, IsUtf8, D.Name, D.StringToken, Number, IsKeywordAt, HasPrefixAt;
    hide D.ParseSelection, SelectionTokens, WfSelection, Nesting, SelectionDepth;
    var close := [Punct(RBRACE)] + rest;
    First(s, i, SelectionsTokens(xs) + close);
    if xs == [] {
      S.Unit(close);
      TakeByte(s, i, RBRACE, rest);
      return;
    }
    var more := SelectionsTokens(xs[1..]) + close;
    Cat(SelectionTokens(xs[0]), SelectionsTokens(xs[1..]), close);
    MoreSelections(xs[1..], rest);
    SelectionsFitPush(xs, depth, limit);
    assert [xs[0]] + xs[1..] == xs;
    SelectionComplete(s, i, xs[0], more, depth, limit);
    var x := D.ParseSelection(s, i, depth, limit);
    if x.Ok? {
      SelectionsComplete(s, x.next, xs[1..], rest, depth, limit);
    }
  }

  lemma {:induction false} SelectionComplete(s: bytes, i: nat, x: Selection, rest: seq<Token>, depth: nat, limit: nat)
    requires At(s, i, SelectionTokens(x) + rest) && Skip(s, i) == i && WfSelection(x) && EndsSelection(rest) && depth <= limit
    ensures Yields(D.ParseSelection(s, i, depth, limit), x, s, rest, SelectionFits(x, depth, limit))
    ensures var r := D.ParseSelection(s, i, depth, limit);
            r.Ok? ==> Skip(s, r.next) == r.next
    decreases x, 4
  {
    match x {
      case Field(alias, name, args, dirs, sels) => FieldSelectionComplete(s, i, x, rest, depth, limit);
      case FragmentSpread(name, dirs) => SpreadComplete(s, i, name, dirs, rest, depth, limit);
      case InlineFragment(cond, dirs, sels) => InlineComplete(s, i, x, rest, depth, limit);
    }
  }

  lemma SpreadComplete(s: bytes, i: nat, name: bytes, dirs: seq<Directive>, rest: seq<Token>, depth: nat, limit: nat)
    requires At(s, i, SelectionTokens(FragmentSpread(name, dirs)) + rest) && Skip(s, i) == i
    requires WfSelection(FragmentSpread(name, dirs)) && EndsSelection(rest) && depth <= limit
    ensures Yields(D.ParseSelection(s, i, depth, limit), FragmentSpread(name, dirs), s, rest, SelectionFits(FragmentSpread(name, dirs), depth, limit))
    ensures var r := D.ParseSelection(s, i, depth, limit);
            r.Ok? ==> Skip(s, r.next) == r.next
  {
    hide Tokens, Lex, Skip, IsName, IsNumberText, IsUtf8, D.Name, D.StringToken, Number, IsKeywordAt, HasPrefixAt;
    hide D.ParseInline, D.ParseFieldRest, D.ParseDirectives, SelectionTokens, DirectivesTokens, WfDirectives, DirectivesDepth;
    var more := DirectivesTokens(dirs) + rest;
    S.SpreadIs(name, dirs);
    Cat4([Ellipsis], [NameToken(name)], DirectivesTokens(dirs), rest);
    TakeEllipsis(s, i, [NameToken(name)] + more);
    TakeName(s, i + 3, name, more);
    var j := Skip(s, i + 3);
    S.Keywords();
    S.KeywordIs(s, j, KW_ON);
    var k := D.Name(s, j).next;
    AtSkip(s, k, more);
    DirectivesComplete(s, Skip(s, k), dirs, rest, false, limit);
    var ds := D.ParseDirectives(s, Skip(s, k), false, limit);
    if ds.Ok? {
      AtSkip(s, ds.next, rest);
    }
  }

  /** The directives and the selection set of an inline fragment. */
  lemma {:induction false} InlineRestComplete(s: bytes, i: nat, condition: Option<bytes>, dirs: seq<Directive>, sels: seq<Selection>,
                                              rest: seq<Token>, depth: nat, limit: nat)
    requires At(s, i, DirectivesTokens(dirs) + (SelectionSetTokens(sels) + rest)) && Skip(s, i) == i
    requires WfDirectives(dirs, false) && sels != [] && WfSelections(sels)
    ensures Yields(D.ParseInline(s, i, condition, depth, limit), InlineFragment(condition, dirs, sels), s, rest,
                   DirectivesDepth(dirs) <= limit && SelectionsFit(sels, depth + 1, limit))
    ensures var r := D.ParseInline(s, i, condition, depth, limit);
            r.Ok? ==> Skip(s, r.next) == r.next
    decreases sels, 3
  {
    hide Tokens, Lex, Skip, IsName, IsNumberText, IsUtf8, D.Name, D.StringToken, Number, IsKeywordAt, HasPrefixAt;
    hide D.ParseDirectives, D.ParseSelectionSet, WfSelections, DirectivesTokens, WfDirectives, DirectivesDepth, SelectionsFit;
    DirectivesComplete(s, i, dirs, SelectionSetTokens(sels) + rest, false, limit);
    var ds := D.ParseDirectives(s, i, false, limit);
    if ds.Ok? {
      AtSkip(s, ds.next, SelectionSetTokens(sels) + rest);
      SelectionSetComplete(s, Skip(s, ds.next), sels, rest, depth, limit);
      var ss := D.ParseSelectionSet(s, Skip(s, ds.next), depth, limit);
      if ss.Ok? {
        AtSkip(s, ss.next, rest);
      }
    }
  }

  lemma InlineIs(condition: Option<bytes>, dirs: seq<Directive>, sels: seq<Selection>, rest: seq<Token>)
    ensures SelectionTokens(InlineFragment(condition, dirs, sels)) + rest
              == [Ellipsis] + (S.ConditionTokens(condition) + (DirectivesTokens(dirs) + (SelectionSetTokens(sels) + rest)))
  {
    hide SelectionTokens, DirectivesTokens, SelectionSetTokens, S.ConditionTokens;
    S.InlineIs(condition, dirs, sels);
    Cat4(S.ConditionTokens(condition), DirectivesTokens(dirs), SelectionSetTokens(sels), rest);
    Cat([Ellipsis], S.ConditionTokens(condition) + (DirectivesTokens(dirs) + SelectionSetTokens(sels)), rest);
  }

  lemma {:induction false} InlineComplete(s: bytes, i: nat, x: Selection, rest: seq<Token>, depth: nat, limit: nat)
    requires x.InlineFragment? && At(s, i, SelectionTokens(x) + rest) && Skip(s, i) == i && WfSelection(x) && depth <= limit
    ensures Yields(D.ParseSelection(s, i, depth, limit), x, s, rest, SelectionFits(x, depth, limit))
    ensures var r := D.ParseSelection(s, i, depth, limit);
            r.Ok? ==> Skip(s, r.next) == r.next
    decreases x, 3
  {
    hide Tokens, Lex, Skip, IsName, IsNumberText, IsUtf8, D.Name, D.StringToken, Number, IsKeywordAt, HasPrefixAt;
    hide D.ParseInline, D.ParseFieldRest, D.ParseDirectives, SelectionTokens, DirectivesTokens, WfDirectives,
         DirectivesDepth, SelectionSetTokens, SelectionsDepth, NestingAll, WfSelections;
    var InlineFragment(condition, dirs, sels) := x;
    var more := DirectivesTokens(dirs) + (SelectionSetTokens(sels) + rest);
    InlineIs(condition, dirs, sels, rest);
    TakeEllipsis(s, i, S.ConditionTokens(condition) + more);
    var j := Skip(s, i + 3);
    S.Keywords();
    S.KeywordIs(s, j, KW_ON);
    if condition.Some? {
      Cat([NameToken(KW_ON)], [NameToken(condition.value)], more);
      TakeName(s, i + 3, KW_ON, [NameToken(condition.value)] + more);
      TakeName(s, j + 2, condition.value, more);
      var k := D.Name(s, Skip(s, j + 2)).next;
      AtSkip(s, k, more);
      InlineRestComplete(s, Skip(s, k), condition, dirs, sels, rest, depth, limit);
    } else {
      S.Unit(more);
      SetFirst(sels, rest);
      NoName(s, i + 3, dirs, SelectionSetTokens(sels) + rest);
      InlineRestComplete(s, j, condition, dirs, sels, rest, depth, limit);
    }
  }

  lemma SetFirst(sels: seq<Selection>, rest: seq<Token>)
    ensures var ts := SelectionSetTokens(sels) + rest;
            ts != [] && ts[0] == Punct(LBRACE)
  {
  }

  /** Directives and a brace begin with no Name. */
  lemma NoName(s: bytes, i: nat, dirs: seq<Directive>, rest: seq<Token>)
    requires rest != [] && rest[0].Punct? && At(s, i, DirectivesTokens(dirs) + rest)
    ensures D.Name(s, Skip(s, i)).Err? && At(s, Skip(s, i), DirectivesTokens(dirs) + rest) && Skip(s, Skip(s, i)) == Skip(s, i)
  {
    hide Tokens, Lex, Skip, Number, D.StringToken, HasPrefixAt;
    First(s, i, DirectivesTokens(dirs) + rest);
    if dirs == [] {
      S.Unit(rest);
    }
  }

  // ----- Fields

  function SetTokens(sels: seq<Selection>): seq<Token> { if sels == [] then [] else SelectionSetTokens(sels) }

  lemma FieldIs(x: Selection, rest: seq<Token>)
    requires x.Field?
    ensures SelectionTokens(x) + rest == S.FieldNames(x.alias, x.name)
              + (ArgumentsTokens(x.arguments) + (DirectivesTokens(x.directives) + (SetTokens(x.selections) + rest)))
  {
    hide SelectionTokens, ArgumentsTokens, DirectivesTokens, SelectionSetTokens, S.FieldNames;
    S.FieldIs(x.alias, x.name, x.arguments, x.directives, x.selections);
    Cat4(ArgumentsTokens(x.arguments), DirectivesTokens(x.directives), SetTokens(x.selections), rest);
    Cat(S.FieldNames(x.alias, x.name), S.FieldRestTokens(x.arguments, x.directives, x.selections), rest);
  }

  lemma SetEndsDirectives(sels: seq<Selection>, rest: seq<Token>)
    requires EndsSelection(rest)
    ensures EndsDirectives(SetTokens(sels) + rest) && (SetTokens(sels) + rest)[0] != Punct(COLON)
    ensures (SetTokens(sels) + rest)[0] == Punct(LBRACE) <==> sels != []
  {
    if sels == [] {
      S.Unit(rest);
    }
  }

  lemma FieldArgumentsComplete(s: bytes, i: nat, xs: seq<Argument>, rest: seq<Token>, limit: nat)
    requires i < |s| && At(s, i, ArgumentsTokens(xs) + rest) && Skip(s, i) == i && WfArguments(xs, false)
    requires rest != [] && rest[0] != Punct(LPAREN)
    ensures Yields(D.FieldArguments(s, i, limit), xs, s, rest, ArgumentsDepth(xs) <= limit)
    ensures var r := D.FieldArguments(s, i, limit);
            r.Ok? ==> Skip(s, r.next) == r.next
  {
    hide Tokens, Lex, Skip, IsName, IsNumberText, IsUtf8, D.Name, D.StringToken, Number, IsKeywordAt, HasPrefixAt;
    hide D.ParseArguments, ArgumentListTokens;
    if xs == [] {
      S.Unit(rest);
      First(s, i, rest);
    } else {
      var inner := ArgumentListTokens(xs) + ([Punct(RPAREN)] + rest);
      Cat4([Punct(LPAREN)], ArgumentListTokens(xs), [Punct(RPAREN)], rest);
      TakeByte(s, i, LPAREN, inner);
      AtSkip(s, i + 1, inner);
      ArgumentsComplete(s, Skip(s, i + 1), xs, rest, false, limit);
      var r := D.ParseArguments(s, Skip(s, i + 1), false, limit);
      if r.Ok? {
        AtSkip(s, r.next, rest);
      }
    }
  }

  lemma {:induction false} FieldRestComplete(s: bytes, i: nat, x: Selection, rest: seq<Token>, depth: nat, limit: nat)
    requires x.Field? && WfSelection(x) && EndsSelection(rest) && depth <= limit && i < |s| && Skip(s, i) == i
    requires At(s, i, ArgumentsTokens(x.arguments) + (DirectivesTokens(x.directives) + (SetTokens(x.selections) + rest)))
    ensures Yields(D.ParseFieldRest(s, i, x.alias, x.name, depth, limit), x, s, rest, SelectionFits(x, depth, limit))
    ensures var r := D.ParseFieldRest(s, i, x.alias, x.name, depth, limit);
            r.Ok? ==> Skip(s, r.next) == r.next
    decreases x, 2
  {
    hide Tokens, Lex, Skip, IsName, IsNumberText, IsUtf8, D.Name, D.StringToken, Number, IsKeywordAt, HasPrefixAt;
    hide D.FieldArguments, D.ParseDirectives, D.ParseSelectionSet, ArgumentsTokens, DirectivesTokens, WfArguments,
         WfDirectives, WfSelections, SelectionsDepth, NestingAll, ArgumentsDepth, DirectivesDepth, SelectionSetTokens;
    var after := SetTokens(x.selections) + rest;
    var more := DirectivesTokens(x.directives) + after;
    SetEndsDirectives(x.selections, rest);
    MoreDirectives(x.directives, after);
    FieldArgumentsComplete(s, i, x.arguments, more, limit);
    var xs := D.FieldArguments(s, i, limit);
    if xs.Err? {
      return;
    }
    DirectivesComplete(s, xs.next, x.directives, after, false, limit);
    var ds := D.ParseDirectives(s, xs.next, false, limit);
    if ds.Err? {
      return;
    }
    First(s, ds.next, after);
    if x.selections != [] {
      SelectionSetComplete(s, Skip(s, ds.next), x.selections, rest, depth, limit);
      var ss := D.ParseSelectionSet(s, Skip(s, ds.next), depth, limit);
      if ss.Ok? {
        AtSkip(s, ss.next, rest);
      }
    } else {
      S.Unit(rest);
      NoDepth();
    }
  }

  lemma NoDepth()
    ensures SelectionsDepth([]) == 0
  {
  }

  lemma {:induction false} FieldSelectionComplete(s: bytes, i: nat, x: Selection, rest: seq<Token>, depth: nat, limit: nat)
    requires x.Field? && At(s, i, SelectionTokens(x) + rest) && Skip(s, i) == i
    requires WfSelection(x) && EndsSelection(rest) && depth <= limit
    ensures Yields(D.ParseSelection(s, i, depth, limit), x, s, rest, SelectionFits(x, depth, limit))
    ensures var r := D.ParseSelection(s, i, depth, limit);
            r.Ok? ==> Skip(s, r.next) == r.next
    decreases x, 3
  {
    hide Tokens, Lex, Skip, IsName, IsNumberText, IsUtf8, D.Name, D.StringToken, Number, IsKeywordAt, HasPrefixAt;
    hide D.ParseFieldRest, D.ParseInline, D.ParseDirectives, SelectionTokens, ArgumentsTokens, DirectivesTokens, WfSelection,
         SelectionFits, SetTokens;
    var more := ArgumentsTokens(x.arguments) + (DirectivesTokens(x.directives) + (SetTokens(x.selections) + rest));
    FieldIs(x, rest);
    FieldFollows(x, rest);
    First(s, i, SelectionTokens(x) + rest);
    if x.alias.Some? {
      var tail := [NameToken(x.name)] + more;
      Cat4([NameToken(x.alias.value)], [Punct(COLON)], [NameToken(x.name)], more);
      TakeName(s, i, x.alias.value, [Punct(COLON)] + tail);
      var j := D.Name(s, i).next;
      TakeByte(s, j, COLON, tail);
      TakeName(s, Skip(s, j) + 1, x.name, more);
      var k := D.Name(s, Skip(s, Skip(s, j) + 1)).next;
      First(s, k, more);
      FieldRestComplete(s, Skip(s, k), x, rest, depth, limit);
    } else {
      TakeName(s, i, x.name, more);
      var k := D.Name(s, i).next;
      First(s, k, more);
      FieldRestComplete(s, Skip(s, k), x, rest, depth, limit);
    }
  }

  lemma FieldFollows(x: Selection, rest: seq<Token>)
    requires x.Field? && EndsSelection(rest)
    ensures var more := ArgumentsTokens(x.arguments) + (DirectivesTokens(x.directives) + (SetTokens(x.selections) + rest));
            more != [] && more[0] != Punct(COLON)
    ensures (SelectionTokens(x) + rest)[0].NameToken?
  {
    SetEndsDirectives(x.selections, rest);
    S.Unit(SetTokens(x.selections) + rest);
    S.Unit(DirectivesTokens(x.directives) + (SetTokens(x.selections) + rest));
  }

  // ----- Definitions

  lemma OperationVariablesComplete(s: bytes, i: nat, vs: seq<VariableDefinition>, rest: seq<Token>, limit: nat)
    requires i < |s| && At(s, i, VariablesTokens(vs) + rest) && Skip(s, i) == i && WfVariables(vs)
    requires rest != [] && rest[0] != Punct(LPAREN)
    ensures Yields(D.OperationVariables(s, i, limit), vs, s, rest, VariablesDepth(vs) <= limit)
    ensures var r := D.OperationVariables(s, i, limit);
            r.Ok? ==> Skip(s, r.next) == r.next
  {
    hide Tokens, Lex, Skip, IsName, IsNumberText, IsUtf8, D.Name, D.StringToken, Number, IsKeywordAt, HasPrefixAt;
    hide D.ParseVariables, VariableListTokens, WfVariable;
    if vs == [] {
      S.Unit(rest);
      First(s, i, rest);
    } else {
      var inner := VariableListTokens(vs) + ([Punct(RPAREN)] + rest);
      Cat4([Punct(LPAREN)], VariableListTokens(vs), [Punct(RPAREN)], rest);
      TakeByte(s, i, LPAREN, inner);
      First(s, i + 1, inner);
      VariablesComplete(s, Skip(s, i + 1), vs, rest, limit);
      var r := D.ParseVariables(s, Skip(s, i + 1), limit);
      if r.Ok? {
        AtSkip(s, r.next, rest);
      }
    }
  }

  lemma OperationNameComplete(s: bytes, i: nat, n: Option<bytes>, rest: seq<Token>)
    requires At(s, i, NameTokens(n) + rest) && Skip(s, i) == i && rest != [] && !rest[0].NameToken?
    ensures Yields(D.OperationName(s, i), n, s, rest, true)
    ensures var r := D.OperationName(s, i);
            r.Ok? ==> Skip(s, r.next) == r.next
  {
    hide Tokens, Lex, Skip, D.StringToken, Number, IsKeywordAt, HasPrefixAt;
    First(s, i, NameTokens(n) + rest);
    if n.Some? {
      TakeName(s, i, n.value, rest);
      First(s, D.Name(s, i).next, rest);
    } else {
      S.Unit(rest);
    }
  }

  /** What may follow the name of an operation. */
  lemma OperationFollows(vs: seq<VariableDefinition>, ds: seq<Directive>, rest: seq<Token>)
    requires rest != [] && rest[0] == Punct(LBRACE)
    ensures EndsDirectives(rest)
    ensures var more := DirectivesTokens(ds) + rest;
            more != [] && more[0] != Punct(LPAREN) && (VariablesTokens(vs) + more)[0].Punct?
  {
    if ds == [] {
      S.Unit(rest);
    }
    if vs == [] {
      S.Unit(DirectivesTokens(ds) + rest);
    }
  }

  lemma OperationComplete(s: bytes, i: nat, d: Definition, rest: seq<Token>, limit: nat)
    requires d.Operation? && !d.shorthand && WfDefinition(d) && i <= |s| && Skip(s, i) == i
    requires At(s, i, NameTokens(d.opName) + (VariablesTokens(d.variables) + (DirectivesTokens(d.directives)
                        + (SelectionSetTokens(d.selections) + rest))))
    ensures Yields(D.ParseOperation(s, i, d.description, d.kind, limit), d, s, rest, DefinitionFits(d, limit))
  {
    hide Tokens, Lex, Skip, IsName, IsNumberText, IsUtf8, D.Name, D.StringToken, Number, IsKeywordAt, HasPrefixAt;
    hide D.OperationName, D.OperationVariables, D.ParseDirectives, D.ParseSelectionSet, NameTokens, VariablesTokens,
         DirectivesTokens, WfVariables, WfDirectives, WfSelections, VariablesDepth, DirectivesDepth, SelectionsDepth,
         NestingAll;
    var r3 := SelectionSetTokens(d.selections) + rest;
    var r2 := DirectivesTokens(d.directives) + r3;
    OperationFollows(d.variables, d.directives, r3);
    OperationNameComplete(s, i, d.opName, VariablesTokens(d.variables) + r2);
    var n := D.OperationName(s, i);
    OperationVariablesComplete(s, n.next, d.variables, r2, limit);
    var vs := D.OperationVariables(s, n.next, limit);
    if vs.Err? {
      return;
    }
    DirectivesComplete(s, vs.next, d.directives, r3, false, limit);
    var ds := D.ParseDirectives(s, vs.next, false, limit);
    if ds.Ok? {
      AtSkip(s, ds.next, r3);
      SelectionSetComplete(s, Skip(s, ds.next), d.selections, rest, 0, limit);
    }
  }

  lemma FragmentComplete(s: bytes, i: nat, d: Definition, rest: seq<Token>, limit: nat)
    requires d.Fragment? && WfDefinition(d) && i <= |s| && Skip(s, i) == i
    requires At(s, i, [NameToken(d.name)] + ([NameToken(KW_ON)] + ([NameToken(d.condition)] + (DirectivesTokens(d.directives)
                        + (SelectionSetTokens(d.selections) + rest)))))
    ensures Yields(D.ParseFragment(s, i, d.description, limit), d, s, rest, DefinitionFits(d, limit))
  {
    hide Tokens, Lex, Skip, IsName, IsNumberText, IsUtf8, D.Name, D.StringToken, Number, IsKeywordAt, HasPrefixAt;
    hide D.ParseDirectives, D.ParseSelectionSet, DirectivesTokens, WfDirectives, WfSelections, DirectivesDepth,
         SelectionsDepth, NestingAll;
    var r2 := SelectionSetTokens(d.selections) + rest;
    var r1 := DirectivesTokens(d.directives) + r2;
    TakeName(s, i, d.name, [NameToken(KW_ON)] + ([NameToken(d.condition)] + r1));
    var j := D.Name(s, i).next;
    TakeName(s, j, KW_ON, [NameToken(d.condition)] + r1);
    S.Keywords();
    S.KeywordIs(s, Skip(s, j), KW_ON);
    TakeName(s, Skip(s, j) + 2, d.condition, r1);
    var k := D.Name(s, Skip(s, Skip(s, j) + 2)).next;
    AtSkip(s, k, r1);
    DirectivesComplete(s, Skip(s, k), d.directives, r2, false, limit);
    var ds := D.ParseDirectives(s, Skip(s, k), false, limit);
    if ds.Ok? {
      AtSkip(s, ds.next, r2);
      SelectionSetComplete(s, Skip(s, ds.next), d.selections, rest, 0, limit);
    }
  }

  lemma OperationIs(d: Definition, rest: seq<Token>)
    requires d.Operation? && !d.shorthand
    ensures DefinitionTokens(d) + rest == DescriptionTokens(d.description) + ([NameToken(D.KindKeyword(d.kind))]
              + (NameTokens(d.opName) + (VariablesTokens(d.variables) + (DirectivesTokens(d.directives)
                 + (SelectionSetTokens(d.selections) + rest)))))
  {
    hide DescriptionTokens, NameTokens, VariablesTokens, DirectivesTokens, SelectionSetTokens;
    var n, vs, ds, ss := NameTokens(d.opName), VariablesTokens(d.variables), DirectivesTokens(d.directives), SelectionSetTokens(d.selections);
    Cat4(vs, ds, ss, rest);
    Cat(n, vs + (ds + ss), rest);
    Cat4(DescriptionTokens(d.description), [NameToken(D.KindKeyword(d.kind))], n + (vs + (ds + ss)), rest);
  }

  lemma FragmentIs(d: Definition, rest: seq<Token>)
    requires d.Fragment?
    ensures DefinitionTokens(d) + rest == DescriptionTokens(d.description) + ([NameToken(KW_FRAGMENT)]
              + ([NameToken(d.name)] + ([NameToken(KW_ON)] + ([NameToken(d.condition)] + (DirectivesTokens(d.directives)
                 + (SelectionSetTokens(d.selections) + rest))))))
  {
    hide DescriptionTokens, DirectivesTokens, SelectionSetTokens;
    var names := [NameToken(KW_FRAGMENT), NameToken(d.name), NameToken(KW_ON), NameToken(d.condition)];
    var ds, ss := DirectivesTokens(d.directives), SelectionSetTokens(d.selections);
    Cat4(DescriptionTokens(d.description), names, ds + ss, rest);
    Cat(ds, ss, rest);
    var more := ds + (ss + rest);
    assert names + more == [NameToken(KW_FRAGMENT)] + ([NameToken(d.name)] + ([NameToken(KW_ON)] + ([NameToken(d.condition)] + more)));
  }

  /** The keywords that begin a definition are told apart by the Name. */
  lemma KindIs(s: bytes, j: nat, kind: Kind)
    requires j <= |s| && D.Name(s, j).Ok? && D.Name(s, j).v == D.KindKeyword(kind)
    ensures D.KindAt(s, j) == Some(kind) && !IsKeywordAt(s, j, KW_FRAGMENT) && j + |D.KindKeyword(kind)| == D.Name(s, j).next
  {
    hide IsKeywordAt, D.Name;
    S.Keywords();
    S.KeywordIs(s, j, KW_QUERY);
    S.KeywordIs(s, j, KW_MUTATION);
    S.KeywordIs(s, j, KW_SUBSCRIPTION);
    S.KeywordIs(s, j, KW_FRAGMENT);
  }

  lemma DefinitionComplete(s: bytes, i: nat, d: Definition, rest: seq<Token>, limit: nat)
    requires i < |s| && At(s, i, DefinitionTokens(d) + rest) && Skip(s, i) == i && WfDefinition(d)
    ensures Yields(D.ParseDefinition(s, i, limit), d, s, rest, DefinitionFits(d, limit))
  {
    hide Tokens, Lex, Skip, IsName, IsNumberText, IsUtf8, D.Name, D.StringToken, Number, IsKeywordAt, HasPrefixAt;
    hide D.Description, D.ParseFragment, D.ParseOperation, D.ParseSelectionSet, DescriptionTokens, DefinitionTokens,
         NameTokens, VariablesTokens, DirectivesTokens, SelectionSetTokens, WfSelections, SelectionsDepth, NestingAll;
    if d.Operation? && d.shorthand {
      ShorthandComplete(s, i, d, rest, limit);
    } else if d.Operation? {
      OperationIs(d, rest);
      var kw := D.KindKeyword(d.kind);
      var more := NameTokens(d.opName) + (VariablesTokens(d.variables) + (DirectivesTokens(d.directives)
                    + (SelectionSetTokens(d.selections) + rest)));
      DescriptionComplete(s, i, d.description, [NameToken(kw)] + more);
      var j := D.Description(s, i).next;
      First(s, j, [NameToken(kw)] + more);
      TakeName(s, j, kw, more);
      KindIs(s, j, d.kind);
      AtSkip(s, j + |kw|, more);
      OperationComplete(s, Skip(s, j + |kw|), d, rest, limit);
    } else {
      FragmentIs(d, rest);
      var more := [NameToken(d.name)] + ([NameToken(KW_ON)] + ([NameToken(d.condition)] + (DirectivesTokens(d.directives)
                    + (SelectionSetTokens(d.selections) + rest))));
      DescriptionComplete(s, i, d.description, [NameToken(KW_FRAGMENT)] + more);
      var j := D.Description(s, i).next;
      First(s, j, [NameToken(KW_FRAGMENT)] + more);
      TakeName(s, j, KW_FRAGMENT, more);
      S.Keywords();
      S.KeywordIs(s, j, KW_FRAGMENT);
      AtSkip(s, j + 8, more);
      FragmentComplete(s, Skip(s, j + 8), d, rest, limit);
    }
  }

  lemma ShorthandComplete(s: bytes, i: nat, d: Definition, rest: seq<Token>, limit: nat)
    requires d.Operation? && d.shorthand && WfDefinition(d) && i < |s| && Skip(s, i) == i
    requires At(s, i, DefinitionTokens(d) + rest)
    ensures Yields(D.ParseDefinition(s, i, limit), d, s, rest, DefinitionFits(d, limit))
  {
    hide Tokens, Lex, Skip, IsName, IsNumberText, IsUtf8, D.Name, D.StringToken, Number, IsKeywordAt, HasPrefixAt;
    hide D.ParseFragment, D.ParseOperation, D.ParseSelectionSet, WfSelections, SelectionsDepth, NestingAll;
    Cat([Punct(LBRACE)], SelectionsTokens(d.selections) + [Punct(RBRACE)], rest);
    First(s, i, DefinitionTokens(d) + rest);
    SelectionSetComplete(s, i, d.selections, rest, 0, limit);
    NoVariables();
  }

  lemma NoVariables()
    ensures VariablesDepth([]) == 0 && DirectivesDepth([]) == 0
  {
  }

  lemma {:induction false} DefinitionsComplete(s: bytes, i: nat, ds: Document, limit: nat)
    requires ds != [] && i < |s| && At(s, i, DocumentTokens(ds)) && Skip(s, i) == i && WfDefinitions(ds)
    ensures var r := D.ParseDefinitions(s, i, limit);
            if Fits(ds, limit) then r == Ok(ds, |s|) else r.Err? && r.e == TooDeep
    decreases |ds|
  {
    hide Tokens, Lex, Skip, D.ParseDefinition, DefinitionTokens, WfDefinition, DefinitionFits;
    var rest := DocumentTokens(ds[1..]);
    DefinitionComplete(s, i, ds[0], rest, limit);
    var d := D.ParseDefinition(s, i, limit);
    assert [ds[0]] + ds[1..] == ds;
    assert rest == [] <==> ds[1..] == [];
    assert ds[1..] == [] ==> Fits(ds[1..], limit);
    if d.Ok? {
      First(s, d.next, rest);
      if ds[1..] != [] {
        DefinitionsComplete(s, Skip(s, d.next), ds[1..], limit);
      } else {
        assert ds == [ds[0]];
      }
    }
  }

  // ----- Documents

  /** A document of the grammar, however it is laid out, is accepted if it nests within the
      limit, and too deep otherwise. */
  lemma DocumentComplete(s: bytes, ds: Document, limit: nat)
    requires WfDocument(ds) && Tokens(s, 0) == Some(DocumentTokens(ds))
    ensures var r := D.ParseDocument(s, limit);
            if Fits(ds, limit) then r == Ok(ds, |s|) else r.Err? && r.e == TooDeep
  {
    hide Tokens, Lex, Skip, D.ParseDefinitions, DefinitionTokens, Fits, WfDefinitions;
    First(s, 0, DocumentTokens(ds));
    DefinitionsComplete(s, Skip(s, 0), ds, limit);
  }
}
