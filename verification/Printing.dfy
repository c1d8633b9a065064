/** Every document of the grammar has a source: its tokens, written one after another. */
module Printing {
  import opened Bytes
  import opened Lexical
  import opened Utf8
  import opened UnicodeEsc
  import opened StringLine
  import opened Numbers
  import opened Ast
  import opened Grammar
  import opened Documents
  import D = Descent
  import BlockString

  // ----- Strings

  /** A code point as `\u{...}`. */
  function Escaped(c: scalar): bytes {
    [BACKSLASH, LOWER_U, LBRACE] + Hex(c) + [RBRACE]
  }

  function EscapedAll(cs: seq<scalar>): bytes {
    if cs == [] then [] else Escaped(cs[0]) + EscapedAll(cs[1..])
  }

  lemma HexReach(s: bytes, i: nat, j: nat)
    requires i <= j <= |s| && (forall k | i <= k < j :: IsHexDigit(s[k])) && (j < |s| ==> !IsHexDigit(s[j]))
    ensures HexEnd(s, i) == j
    decreases j - i
  {
    if i < j {
      HexReach(s, i + 1, j);
    }
  }

  lemma EscapedRead(s: bytes, i: nat, c: scalar)
    requires i <= |s| && Escaped(c) <= s[i..]
    ensures i < |s| && s[i] == BACKSLASH && Character(s, i) == Ok(c, i + |Escaped(c)|)
  {
    hide HexValue, HexEnd, Hex;
    var e, h := Escaped(c), Hex(c);
    var j := i + 3 + |h|;
    assert forall k | 0 <= k < |e| :: e[k] == s[i..][k] == s[i + k];
    assert e[3 + |h|] == RBRACE;
    assert forall k | 0 <= k < |h| :: h[k] == e[3 + k];
    assert s[i + 3..j] == h;
    assert forall k | i + 3 <= k < j :: s[k] == h[k - (i + 3)];
    HexReach(s, i + 3, j);
    HexIs(c);
  }

  lemma PrefixParts(s: bytes, i: nat, a: bytes, b: bytes)
    requires i <= |s| && a + b <= s[i..]
    ensures a <= s[i..] && i + |a| <= |s| && b <= s[i + |a|..]
  {
    assert s[i + |a|..] == s[i..][|a|..];
  }

  /** One character is read, and then the rest. */
  lemma FirstRead(s: bytes, i: nat, cs: seq<scalar>, k: nat)
    requires i < |s| && s[i] != QUOTE && cs != [] && Character(s, i).Ok? && Character(s, i).v == cs[0]
    requires Contents(s, Character(s, i).next) == Ok(cs[1..], k)
    ensures Contents(s, i) == Ok(cs, k)
  {
    hide Character;
    assert cs == [cs[0]] + cs[1..];
  }

  lemma FirstOf(s: bytes, i: nat, b: byte, rest: bytes)
    requires i <= |s| && [b] + rest <= s[i..]
    ensures i < |s| && s[i] == b
  {
    assert s[i..][0] == s[i];
  }

  lemma NothingRead(s: bytes, i: nat)
    requires i <= |s| && [QUOTE] <= s[i..]
    ensures Contents(s, i) == Ok([], i + 1)
  {
    assert s[i..][0] == s[i];
  }

  lemma EscapedCons(cs: seq<scalar>)
    ensures cs == [] ==> EscapedAll(cs) + [QUOTE] == [QUOTE]
    ensures cs != [] ==> EscapedAll(cs) + [QUOTE] == Escaped(cs[0]) + (EscapedAll(cs[1..]) + [QUOTE])
    ensures cs != [] ==> |EscapedAll(cs)| == |Escaped(cs[0])| + |EscapedAll(cs[1..])|
  {
    hide Escaped;
    if cs != [] {
      Assoc(Escaped(cs[0]), EscapedAll(cs[1..]), [QUOTE]);
    }
  }

  lemma {:induction false} ContentsRead(s: bytes, i: nat, cs: seq<scalar>)
    requires i <= |s| && EscapedAll(cs) + [QUOTE] <= s[i..]
    ensures Contents(s, i) == Ok(cs, i + |EscapedAll(cs)| + 1)
    decreases |cs|
  {
    hide Character, Escaped, Contents, EscapedAll;
    EscapedCons(cs);
    if cs == [] {
      NothingRead(s, i);
    } else {
      var e, more := Escaped(cs[0]), EscapedAll(cs[1..]);
      PrefixParts(s, i, e, more + [QUOTE]);
      EscapedRead(s, i, cs[0]);
      ContentsRead(s, i + |e|, cs[1..]);
      FirstRead(s, i, cs, i + |e| + |more| + 1);
    }
  }

  // ----- Tokens

  /** The token can be written. */
  predicate IsToken(t: Token) {
    match t
    case Punct(b) => IsPunctuator(b)
    case Ellipsis => true
    case NameToken(n) => IsName(n)
    case IntToken(n) => IsNumberText(n, false)
    case FloatToken(n) => IsNumberText(n, true)
    case StringToken(v) => IsUtf8(v)
  }

  function Spelling(t: Token): (s: bytes)
    requires IsToken(t)
    ensures s != []
  {
    match t
    case Punct(b) => [b]
    case Ellipsis => D.ELLIPSIS
    case NameToken(n) => n
    case IntToken(n) => n
    case FloatToken(n) => n
    case StringToken(v) => [QUOTE] + EscapedAll(Scalars(v)) + [QUOTE]
  }

  /** The token may end before s[j]. */
  predicate EndsAt(t: Token, s: bytes, j: nat) {
    j >= |s| ||
    match t
    case NameToken(_) => !IsNameCont(s[j])
    case IntToken(_) => Ends(s, j)
    case FloatToken(_) => Ends(s, j)
    case StringToken(_) => s[j] != QUOTE
    case _ => true
  }

  /** The token stands at s[i]. */
  predicate Stands(s: bytes, i: nat, t: Token) {
    i <= |s| && IsToken(t) && Spelling(t) <= s[i..] && EndsAt(t, s, i + |Spelling(t)|)
  }

  lemma NameLexed(s: bytes, i: nat, n: bytes)
    requires Stands(s, i, NameToken(n))
    ensures i < |s| && IsNameStart(s[i]) && Lex(s, i) == Ok(NameToken(n), i + |n|)
  {
    hide NameEnd, HasPrefixAt;
    assert forall k | 0 <= k < |n| :: n[k] == s[i..][k] == s[i + k];
    assert forall k | i <= k < i + |n| :: s[k] == n[k - i];
    assert s[i..i + |n|] == n;
    NameReach(s, i + 1, i + |n|);
    NoEllipsis(s, i);
  }

  lemma NoEllipsis(s: bytes, i: nat)
    requires i < |s| && s[i] != DOT
    ensures !HasPrefixAt(s, i, D.ELLIPSIS)
  {
    if i + 3 <= |s| {
      assert s[i..i + 3][0] == s[i];
    }
  }

  lemma NumberLexed(s: bytes, i: nat, t: Token)
    requires Stands(s, i, t) && (t.IntToken? || t.FloatToken?)
    ensures i < |s| && (s[i] == MINUS || IsDigit(s[i])) && Lex(s, i) == Ok(t, i + |t.text|)
  {
    hide Number, HasPrefixAt, IsNumberText;
    var j := i + |t.text|;
    assert s[i..j] == t.text;
    NumberPlaced(s, i, j, t.FloatToken?);
    NoEllipsis(s, i);
  }

  /** A string that stands at s[i]: the quotes, and what is between them. */
  lemma QuotesStand(s: bytes, i: nat, v: bytes)
    requires Stands(s, i, StringToken(v))
    ensures i <= |s| && IsUtf8(v)
    ensures var e := EscapedAll(Scalars(v));
            && [QUOTE] + (e + [QUOTE]) <= s[i..] && |Spelling(StringToken(v))| == |e| + 2
            && (i + |e| + 2 < |s| ==> s[i + |e| + 2] != QUOTE)
  {
    hide EscapedAll, Scalars, IsUtf8;
    Assoc([QUOTE], EscapedAll(Scalars(v)), [QUOTE]);
  }

  lemma StringLexed(s: bytes, i: nat, v: bytes)
    requires Stands(s, i, StringToken(v))
    ensures i < |s| && s[i] == QUOTE && Lex(s, i) == Ok(StringToken(v), i + |Spelling(StringToken(v))|)
  {
    hide *;
    QuotesStand(s, i, v);
    var cs := Scalars(v);
    var e := EscapedAll(cs);
    PrefixParts(s, i, [QUOTE], e + [QUOTE]);
    FirstOf(s, i, QUOTE, e + [QUOTE]);
    ContentsRead(s, i + 1, cs);
    ScalarsEncoded(v);
    NoTriple(s, i, cs);
    QuotedLexed(s, i, cs, i + |e| + 2);
  }

  lemma QuotedLexed(s: bytes, i: nat, cs: seq<scalar>, j: nat)
    requires i < |s| && s[i] == QUOTE && !HasPrefixAt(s, i, BlockString.TRIPLE) && Contents(s, i + 1) == Ok(cs, j)
    ensures Lex(s, i) == Ok(StringToken(EncodeAll(cs)), j)
  {
    hide Contents, EncodeAll, Number, BlockString.BlockText;
    NoEllipsis(s, i);
  }

  lemma NoTriple(s: bytes, i: nat, cs: seq<scalar>)
    requires i <= |s| && [QUOTE] + (EscapedAll(cs) + [QUOTE]) <= s[i..]
    requires i + |EscapedAll(cs)| + 2 < |s| ==> s[i + |EscapedAll(cs)| + 2] != QUOTE
    ensures !HasPrefixAt(s, i, BlockString.TRIPLE)
  {
    hide Hex;
    var all := [QUOTE] + (EscapedAll(cs) + [QUOTE]);
    assert all[1] == s[i..][1] == s[i + 1];
    assert cs != [] ==> all[1] == Escaped(cs[0])[0];
    if i + 3 <= |s| {
      var t := s[i..i + 3];
      assert t[1] == s[i + 1] && t[2] == s[i + 2];
    }
  }

  /** A token that stands at s[i] is read there, and no Ignored token. */
  lemma TokenLexed(s: bytes, i: nat, t: Token)
    requires Stands(s, i, t)
    ensures i < |s| && Skip(s, i) == i && Lex(s, i) == Ok(t, i + |Spelling(t)|)
  {
    hide Number, Contents, BlockString.BlockEnd, IsUtf8, Skip, NameEnd;
    assert Spelling(t)[0] == s[i..][0] == s[i];
    match t {
      case Punct(b) =>
      case Ellipsis => assert s[i..i + 3] == s[i..][..3];
      case NameToken(n) => NameLexed(s, i, n);
      case IntToken(n) => NumberLexed(s, i, t);
      case FloatToken(n) => NumberLexed(s, i, t);
      case StringToken(v) => StringLexed(s, i, v);
    }
    NothingToSkip(s, i);
  }

  /** Every token begins with a visible ASCII character, but no comma or hash. */
  lemma NothingToSkip(s: bytes, i: nat)
    requires i < |s| && 0x20 < s[i] < 0x80 && s[i] != COMMA && s[i] != HASH
    ensures Skip(s, i) == i
  {
    if i + 3 <= |s| {
      assert s[i..i + 3][0] == s[i];
    }
  }

  /** The tokens from a token on. */
  lemma TokenThen(s: bytes, i: nat, t: Token, ts: seq<Token>)
    requires Stands(s, i, t) && Tokens(s, i + |Spelling(t)|) == Some(ts)
    ensures Tokens(s, i) == Some([t] + ts)
  {
    hide Lex, Skip, Spelling, EndsAt, IsToken;
    TokenLexed(s, i, t);
  }

  /** WhiteSpace, LineTerminators and commas between tokens make no difference. */
  lemma GapThen(s: bytes, i: nat)
    requires i < |s| && IsIgnorableByte(s[i])
    ensures Tokens(s, i) == Tokens(s, i + 1)
  {
    hide Lex;
  }

  // ----- Documents

  predicate AllTokens(ts: seq<Token>) {
    ts == [] || (IsToken(ts[0]) && AllTokens(ts[1..]))
  }

  /** The tokens one after another, a space after each. */
  function Print(ts: seq<Token>): bytes
    requires AllTokens(ts)
  {
    if ts == [] then [] else Spelling(ts[0]) + ([SPACE] + Print(ts[1..]))
  }

  lemma {:induction false} PrintRead(s: bytes, i: nat, ts: seq<Token>)
    requires i <= |s| && AllTokens(ts) && s[i..] == Print(ts)
    ensures Tokens(s, i) == Some(ts)
    decreases |ts|
  {
    hide Tokens, Spelling, IsToken;
    if ts == [] {
      TokensEnd(s);
    } else {
      var t, rest := Spelling(ts[0]), [SPACE] + Print(ts[1..]);
      var j := i + |t|;
      assert s[i..] == t + rest;
      assert s[j..] == s[i..][|t|..] == rest;
      assert s[j] == rest[0] && s[j + 1..] == rest[1..];
      PrintRead(s, j + 1, ts[1..]);
      GapThen(s, j);
      assert EndsAt(ts[0], s, j);
      TokenThen(s, i, ts[0], ts[1..]);
      assert ts == [ts[0]] + ts[1..];
    }
  }

  lemma TokensEnd(s: bytes)
    ensures Tokens(s, |s|) == Some([])
  {
  }

  lemma {:induction false} AllCat(a: seq<Token>, b: seq<Token>)
    ensures AllTokens(a + b) <==> AllTokens(a) && AllTokens(b)
  {
    hide IsToken;
    if a == [] {
      assert a + b == b;
    } else {
      AllCat(a[1..], b);
      assert (a + b)[1..] == a[1..] + b;
    }
  }

  lemma OneToken(t: Token)
    ensures AllTokens([t]) <==> IsToken(t)
    ensures AllTokens([])
  {
    hide IsToken;
    assert [t][1..] == [];
  }

  /** Two in a row. */
  lemma TwoTokens(a: Token, b: Token)
    ensures AllTokens([a, b]) <==> IsToken(a) && IsToken(b)
  {
    OneToken(b);
    assert [a, b][1..] == [b];
  }

  lemma Bracketed(open: byte, ts: seq<Token>, close: byte)
    requires IsPunctuator(open) && IsPunctuator(close) && AllTokens(ts)
    ensures AllTokens([Punct(open)] + (ts + [Punct(close)]))
  {
    OneToken(Punct(open));
    OneToken(Punct(close));
    AllCat(ts, [Punct(close)]);
    AllCat([Punct(open)], ts + [Punct(close)]);
  }

  lemma KeywordsAreNames()
    ensures IsName(KW_TRUE) && IsName(KW_FALSE) && IsName(KW_NULL) && IsName(KW_ON) && IsName(KW_FRAGMENT)
    ensures IsName(KW_QUERY) && IsName(KW_MUTATION) && IsName(KW_SUBSCRIPTION)
  {
  }

  lemma {:induction false} ValuePrints(v: Value, constant: bool)
    requires WfValue(v, constant)
    ensures AllTokens(ValueTokens(v))
    decreases v, 0
  {
    hide AllTokens, IsName, IsNumberText, IsUtf8;
    KeywordsAreNames();
    match v {
      case Variable(n) => TwoTokens(Punct(DOLLAR), NameToken(n));
      case ListValue(vs) =>
        ItemsPrint(vs, constant);
        Bracketed(LBRACKET, ItemsTokens(vs), RBRACKET);
      case ObjectValue(fs) =>
        FieldsPrint(fs, constant);
        Bracketed(LBRACE, FieldsTokens(fs), RBRACE);
      case _ => OneToken(ValueTokens(v)[0]);
    }
  }

  lemma {:induction false} ItemsPrint(vs: seq<Value>, constant: bool)
    requires WfItems(vs, constant)
    ensures AllTokens(ItemsTokens(vs))
    decreases vs, 1
  {
    hide AllTokens, WfValue, ValueTokens;
    if vs == [] {
      OneToken(Ellipsis);
    } else {
      ValuePrints(vs[0], constant);
      ItemsPrint(vs[1..], constant);
      AllCat(ValueTokens(vs[0]), ItemsTokens(vs[1..]));
    }
  }

  lemma {:induction false} FieldsPrint(fs: seq<ObjectField>, constant: bool)
    requires WfFields(fs, constant)
    ensures AllTokens(FieldsTokens(fs))
    decreases fs, 1
  {
    hide AllTokens, WfField, FieldTokens;
    if fs == [] {
      OneToken(Ellipsis);
    } else {
      FieldPrints(fs[0], constant);
      FieldsPrint(fs[1..], constant);
      AllCat(FieldTokens(fs[0]), FieldsTokens(fs[1..]));
    }
  }

  lemma {:induction false} FieldPrints(f: ObjectField, constant: bool)
    requires WfField(f, constant)
    ensures AllTokens(FieldTokens(f))
    decreases f, 1
  {
    hide AllTokens, WfValue, ValueTokens, IsName;
    ValuePrints(f.value, constant);
    TwoTokens(NameToken(f.name), Punct(COLON));
    AllCat([NameToken(f.name), Punct(COLON)], ValueTokens(f.value));
  }

  lemma ArgumentPrints(a: Argument, constant: bool)
    requires WfArgument(a, constant)
    ensures AllTokens(ArgumentTokens(a))
  {
    hide AllTokens, WfValue, ValueTokens, IsName;
    ValuePrints(a.value, constant);
    TwoTokens(NameToken(a.name), Punct(COLON));
    AllCat([NameToken(a.name), Punct(COLON)], ValueTokens(a.value));
  }

  lemma {:induction false} ArgumentListPrints(xs: seq<Argument>, constant: bool)
    requires WfArguments(xs, constant)
    ensures AllTokens(ArgumentListTokens(xs))
  {
    hide AllTokens, WfArgument, ArgumentTokens;
    if xs == [] {
      OneToken(Ellipsis);
    } else {
      ArgumentPrints(xs[0], constant);
      ArgumentListPrints(xs[1..], constant);
      AllCat(ArgumentTokens(xs[0]), ArgumentListTokens(xs[1..]));
    }
  }

  lemma ArgumentsPrint(xs: seq<Argument>, constant: bool)
    requires WfArguments(xs, constant)
    ensures AllTokens(ArgumentsTokens(xs))
  {
    hide AllTokens, WfArguments, ArgumentListTokens;
    ArgumentListPrints(xs, constant);
    if xs == [] {
      OneToken(Ellipsis);
    } else {
      Bracketed(LPAREN, ArgumentListTokens(xs), RPAREN);
    }
  }

  lemma {:induction false} DirectivesPrint(ds: seq<Directive>, constant: bool)
    requires WfDirectives(ds, constant)
    ensures AllTokens(DirectivesTokens(ds))
  {
    hide AllTokens, WfArguments, ArgumentsTokens, IsName;
    if ds == [] {
      OneToken(Ellipsis);
    } else {
      var d := ds[0];
      ArgumentsPrint(d.arguments, constant);
      TwoTokens(Punct(AT), NameToken(d.name));
      AllCat([Punct(AT), NameToken(d.name)], ArgumentsTokens(d.arguments));
      DirectivesPrint(ds[1..], constant);
      AllCat(DirectiveTokens(d), DirectivesTokens(ds[1..]));
    }
  }

  lemma {:induction false} TypePrints(t: Type)
    requires WfType(t)
    ensures AllTokens(TypeTokens(t))
  {
    hide AllTokens, IsName;
    match t {
      case Named(n) => OneToken(NameToken(n));
      case ListType(u) =>
        TypePrints(u);
        Bracketed(LBRACKET, TypeTokens(u), RBRACKET);
      case NonNull(u) =>
        TypePrints(u);
        OneToken(Punct(BANG));
        AllCat(TypeTokens(u), [Punct(BANG)]);
    }
  }

  lemma DescriptionPrints(d: Option<bytes>)
    requires IsTextIf(d)
    ensures AllTokens(DescriptionTokens(d))
  {
    hide AllTokens;
    OneToken(if d.Some? then StringToken(d.value) else Ellipsis);
  }

  lemma NamePrints(n: Option<bytes>)
    requires IsNameIf(n)
    ensures AllTokens(NameTokens(n))
  {
    hide AllTokens;
    OneToken(if n.Some? then NameToken(n.value) else Ellipsis);
  }

  lemma DefaultPrints(v: Option<Value>)
    requires v.Some? ==> WfValue(v.value, true)
    ensures AllTokens(DefaultTokens(v))
  {
    hide AllTokens, WfValue, ValueTokens;
    OneToken(Punct(EQUALS));
    if v.Some? {
      ValuePrints(v.value, true);
      AllCat([Punct(EQUALS)], ValueTokens(v.value));
    }
  }

  lemma VariablePrints(v: VariableDefinition)
    requires WfVariable(v)
    ensures AllTokens(VariableTokens(v))
  {
    hide AllTokens, WfValue, WfType, WfDirectives, TypeTokens, DefaultTokens, DirectivesTokens, DescriptionTokens, IsName;
    DescriptionPrints(v.description);
    TypePrints(v.ty);
    DefaultPrints(v.default);
    DirectivesPrint(v.directives, true);
    TwoTokens(Punct(DOLLAR), NameToken(v.name));
    OneToken(Punct(COLON));
    AllCat([Punct(DOLLAR), NameToken(v.name)], [Punct(COLON)]);
    var tail := DefaultTokens(v.default) + DirectivesTokens(v.directives);
    AllCat(DefaultTokens(v.default), DirectivesTokens(v.directives));
    AllCat(TypeTokens(v.ty), tail);
    var head := [Punct(DOLLAR), NameToken(v.name), Punct(COLON)];
    assert head == [Punct(DOLLAR), NameToken(v.name)] + [Punct(COLON)];
    AllCat(head, TypeTokens(v.ty) + tail);
    AllCat(DescriptionTokens(v.description), head + (TypeTokens(v.ty) + tail));
  }

  lemma {:induction false} VariableListPrints(vs: seq<VariableDefinition>)
    requires WfVariables(vs)
    ensures AllTokens(VariableListTokens(vs))
  {
    hide AllTokens, WfVariable, VariableTokens;
    if vs == [] {
      OneToken(Ellipsis);
    } else {
      VariablePrints(vs[0]);
      VariableListPrints(vs[1..]);
      AllCat(VariableTokens(vs[0]), VariableListTokens(vs[1..]));
    }
  }

  lemma VariablesPrint(vs: seq<VariableDefinition>)
    requires WfVariables(vs)
    ensures AllTokens(VariablesTokens(vs))
  {
    hide AllTokens, WfVariables, VariableListTokens;
    VariableListPrints(vs);
    if vs == [] {
      OneToken(Ellipsis);
    } else {
      Bracketed(LPAREN, VariableListTokens(vs), RPAREN);
    }
  }

  lemma {:induction false} SelectionPrints(x: Selection)
    requires WfSelection(x)
    ensures AllTokens(SelectionTokens(x))
    decreases x, 0
  {
    hide AllTokens, WfArguments, WfDirectives, WfSelections, ArgumentsTokens, DirectivesTokens, SelectionsTokens, IsName;
    KeywordsAreNames();
    DirectivesPrint(x.directives, false);
    OneToken(Ellipsis);
    match x {
      case Field(alias, name, args, dirs, sels) =>
        ArgumentsPrint(args, false);
        SetPrints(sels);
        FieldPrintsAs(x);
      case FragmentSpread(name, dirs) =>
        TwoTokens(Ellipsis, NameToken(name));
        AllCat([Ellipsis, NameToken(name)], DirectivesTokens(dirs));
      case InlineFragment(cond, dirs, sels) =>
        SetPrints(sels);
        var body := SelectionSetTokens(sels);
        var on := if cond.Some? then [NameToken(KW_ON), NameToken(cond.value)] else [];
        if cond.Some? {
          TwoTokens(NameToken(KW_ON), NameToken(cond.value));
        }
        AllCat(DirectivesTokens(dirs), body);
        AllCat(on, DirectivesTokens(dirs) + body);
        AllCat([Ellipsis], on + (DirectivesTokens(dirs) + body));
    }
  }

  lemma FieldPrintsAs(x: Selection)
    requires x.Field? && IsNameIf(x.alias) && IsName(x.name)
    requires AllTokens(ArgumentsTokens(x.arguments)) && AllTokens(DirectivesTokens(x.directives))
    requires AllTokens(SelectionSetTokens(x.selections))
    ensures AllTokens(SelectionTokens(x))
  {
    hide AllTokens, ArgumentsTokens, DirectivesTokens, SelectionsTokens, IsName;
    var head := if x.alias.Some? then [NameToken(x.alias.value), Punct(COLON)] else [];
    var body := if x.selections == [] then [] else SelectionSetTokens(x.selections);
    var args, dirs := ArgumentsTokens(x.arguments), DirectivesTokens(x.directives);
    OneToken(NameToken(x.name));
    if x.alias.Some? {
      TwoTokens(NameToken(x.alias.value), Punct(COLON));
    }
    AllCat(dirs, body);
    AllCat(args, dirs + body);
    AllCat([NameToken(x.name)], args + (dirs + body));
    AllCat(head, [NameToken(x.name)] + (args + (dirs + body)));
  }

  lemma {:induction false} SetPrints(xs: seq<Selection>)
    requires WfSelections(xs)
    ensures AllTokens(SelectionSetTokens(xs))
    decreases xs, 2
  {
    hide AllTokens, WfSelections, SelectionsTokens;
    SelectionsPrint(xs);
    Bracketed(LBRACE, SelectionsTokens(xs), RBRACE);
  }

  lemma {:induction false} SelectionsPrint(xs: seq<Selection>)
    requires WfSelections(xs)
    ensures AllTokens(SelectionsTokens(xs))
    decreases xs, 1
  {
    hide AllTokens, WfSelection, SelectionTokens;
    if xs == [] {
      OneToken(Ellipsis);
    } else {
      SelectionPrints(xs[0]);
      SelectionsPrint(xs[1..]);
      AllCat(SelectionTokens(xs[0]), SelectionsTokens(xs[1..]));
    }
  }

  lemma DefinitionPrints(d: Definition)
    requires WfDefinition(d)
    ensures AllTokens(DefinitionTokens(d))
  {
    hide AllTokens, WfDirectives, WfSelections, WfVariables, DirectivesTokens, SelectionSetTokens, VariablesTokens,
         NameTokens, DescriptionTokens, IsName;
    KeywordsAreNames();
    DescriptionPrints(d.description);
    DirectivesPrint(d.directives, false);
    SetPrints(d.selections);
    var desc, tail := DescriptionTokens(d.description), DirectivesTokens(d.directives) + SelectionSetTokens(d.selections);
    AllCat(DirectivesTokens(d.directives), SelectionSetTokens(d.selections));
    match d {
      case Operation(_, _, kind, name, vars, _, _) =>
        NamePrints(name);
        VariablesPrint(vars);
        var word := [NameToken(D.KindKeyword(kind))];
        OneToken(word[0]);
        AllCat(VariablesTokens(vars), tail);
        AllCat(NameTokens(name), VariablesTokens(vars) + tail);
        AllCat(word, NameTokens(name) + (VariablesTokens(vars) + tail));
        AllCat(desc, word + (NameTokens(name) + (VariablesTokens(vars) + tail)));
      case Fragment(_, name, cond, _, _) =>
        var words := [NameToken(KW_FRAGMENT), NameToken(name), NameToken(KW_ON), NameToken(cond)];
        TwoTokens(words[0], words[1]);
        TwoTokens(words[2], words[3]);
        assert words == words[..2] + words[2..] && words[..2] == [words[0], words[1]] && words[2..] == [words[2], words[3]];
        AllCat(words[..2], words[2..]);
        AllCat(words, tail);
        AllCat(desc, words + tail);
    }
  }

  lemma {:induction false} DocumentPrints(ds: Document)
    requires WfDefinitions(ds)
    ensures AllTokens(DocumentTokens(ds))
  {
    hide AllTokens, WfDefinition, DefinitionTokens;
    if ds == [] {
      OneToken(Ellipsis);
    } else {
      DefinitionPrints(ds[0]);
      DocumentPrints(ds[1..]);
      AllCat(DefinitionTokens(ds[0]), DocumentTokens(ds[1..]));
    }
  }

  /** A source of the document. */
  function Source(d: Document): bytes
    requires WfDocument(d)
  {
    DocumentPrints(d);
    Print(DocumentTokens(d))
  }

  /** Every well-formed document is spelled by some source. */
  lemma EveryDocumentSpelled(d: Document)
    requires WfDocument(d)
    ensures Spells(Source(d), d)
  {
    hide DocumentTokens, WfDefinitions, Tokens, Print;
    DocumentPrints(d);
    var s := Source(d);
    assert s[0..] == s;
    PrintRead(s, 0, DocumentTokens(d));
  }
}
