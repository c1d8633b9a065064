/**
 Whatever the recursive functions accept is a document of the grammar, written with exactly
 the tokens of the source.
 */
module Soundness {
  import opened Bytes
  import opened Lexical
  import opened Utf8
  import opened Ast
  import opened BlockString
  import opened Grammar
  import opened Numbers
  import opened TextForm
  import D = Descent

  /** Between i and j the source holds the tokens ts, and Ignored tokens. */
  predicate Reads(s: bytes, i: nat, ts: seq<Token>, j: nat)
    decreases |ts|
  {
    && i <= j <= |s|
    && if ts == [] then Skip(s, i) == Skip(s, j)
       else
         var k := Skip(s, i);
         && k < j && Lex(s, k).Ok? && Lex(s, k).v == ts[0] && Lex(s, k).next <= j
         && Reads(s, Lex(s, k).next, ts[1..], j)
  }

  /** What is read up to the end is all there is. */
  lemma {:induction false} ReadsToEnd(s: bytes, i: nat, ts: seq<Token>, j: nat)
    requires Reads(s, i, ts, j) && Skip(s, j) == |s|
    ensures Tokens(s, i) == Some(ts)
    decreases |ts|
  {
    hide Lex, Skip;
    if ts != [] {
      ReadsToEnd(s, Lex(s, Skip(s, i)).next, ts[1..], j);
      assert [ts[0]] + ts[1..] == ts;
    }
  }

  lemma Unit(ts: seq<Token>)
    ensures [] + ts == ts && ts + [] == ts
  {
  }

  lemma ReadsSkip(s: bytes, i: nat)
    requires i <= |s|
    ensures Reads(s, i, [], Skip(s, i)) && Reads(s, i, [], i)
  {
    SkipIdempotent(s, i);
  }

  /** Ignored tokens may come in between. */
  lemma {:induction false} ReadsBoth(s: bytes, i: nat, a: seq<Token>, j: nat, b: seq<Token>, k: nat)
    requires Reads(s, i, a, j)
    requires Reads(s, j, b, k) || Reads(s, Skip(s, j), b, k)
    ensures Reads(s, i, a + b, k)
    decreases |a|
  {
    hide Lex, Skip;
    SkipIdempotent(s, j);
    if a == [] {
      assert a + b == b;
    } else {
      assert (a + b)[0] == a[0] && (a + b)[1..] == a[1..] + b;
      ReadsBoth(s, Lex(s, Skip(s, i)).next, a[1..], j, b, k);
    }
  }

  lemma ReadsFrom(s: bytes, i: nat, ts: seq<Token>, j: nat)
    requires i <= |s| && Reads(s, Skip(s, i), ts, j)
    ensures Reads(s, i, ts, j)
  {
    hide Lex, Skip;
    SkipIdempotent(s, i);
  }

  lemma ReadsThree(s: bytes, i: nat, a: seq<Token>, j: nat, b: seq<Token>, k: nat, c: seq<Token>, m: nat)
    requires Reads(s, i, a, j)
    requires Reads(s, j, b, k) || Reads(s, Skip(s, j), b, k)
    requires Reads(s, k, c, m) || Reads(s, Skip(s, k), c, m)
    ensures Reads(s, i, a + (b + c), m)
  {
    hide Reads;
    if Reads(s, j, b, k) {
      ReadsBoth(s, j, b, k, c, m);
    } else {
      ReadsBoth(s, Skip(s, j), b, k, c, m);
    }
    ReadsBoth(s, i, a, j, b + c, m);
  }

  lemma FirstByte(s: bytes, i: nat, prefix: bytes)
    requires i <= |s| && prefix != []
    ensures HasPrefixAt(s, i, prefix) ==> s[i] == prefix[0]
  {
    assert |s| - i >= |prefix| ==> s[i..i + |prefix|][0] == s[i];
  }

  /** No token begins with an Ignored one. */
  lemma TokenStarts(s: bytes, i: nat)
    requires i < |s| && Lex(s, i).Ok?
    ensures Skip(s, i) == i
  {
    hide Number, D.StringToken;
    FirstByte(s, i, BOM);
    FirstByte(s, i, D.ELLIPSIS);
  }

  lemma ReadsOne(s: bytes, i: nat)
    requires i < |s| && Lex(s, i).Ok?
    ensures Reads(s, i, [Lex(s, i).v], Lex(s, i).next)
  {
    hide Lex;
    TokenStarts(s, i);
  }

  lemma ReadsByte(s: bytes, i: nat)
    requires i < |s| && IsPunctuator(s[i])
    ensures Reads(s, i, [Punct(s[i])], i + 1)
  {
    hide Number, D.StringToken, Tokens;
    ReadsOne(s, i);
  }

  lemma ReadsName(s: bytes, i: nat)
    requires i <= |s| && D.Name(s, i).Ok?
    ensures Reads(s, i, [NameToken(D.Name(s, i).v)], D.Name(s, i).next) && IsName(D.Name(s, i).v)
  {
    hide Number, D.StringToken, Tokens, Reads;
    FirstByte(s, i, D.ELLIPSIS);
    ReadsOne(s, i);
    NameEndIs(s, i + 1);
  }

  /** A keyword is the whole of a Name. */
  lemma KeywordIsName(s: bytes, i: nat, kw: bytes)
    requires i <= |s| && IsKeywordAt(s, i, kw) && IsName(kw)
    ensures D.Name(s, i) == Ok(kw, i + |kw|)
  {
    hide NameEnd;
    forall k | i <= k < i + |kw| ensures IsNameCont(s[k]) {
      assert s[k] == s[i..i + |kw|][k - i];
    }
    assert s[i] == s[i..i + |kw|][0];
    var e := NameEnd(s, i + 1);
    NameEndIs(s, i + 1);
    var found := (if e < |s| then IsNameCont(s[e]) else false, if i + |kw| < |s| then IsNameCont(s[i + |kw|]) else false);
  }

  lemma Keywords()
    ensures IsName(KW_ON) && IsName(KW_FRAGMENT) && IsName(KW_QUERY) && IsName(KW_MUTATION) && IsName(KW_SUBSCRIPTION)
  {
  }

  lemma ReadsKeyword(s: bytes, i: nat, kw: bytes)
    requires i <= |s| && IsKeywordAt(s, i, kw) && IsName(kw)
    ensures Reads(s, i, [NameToken(kw)], i + |kw|)
  {
    hide Reads, D.Name, IsKeywordAt;
    KeywordIsName(s, i, kw);
    ReadsName(s, i);
  }

  lemma ReadsString(s: bytes, i: nat)
    requires i < |s| && s[i] == QUOTE && D.StringToken(s, i).Ok?
    ensures Reads(s, i, [StringToken(D.StringToken(s, i).v)], D.StringToken(s, i).next)
  {
    hide Number, D.StringToken, Tokens, Reads;
    FirstByte(s, i, D.ELLIPSIS);
    ReadsOne(s, i);
  }

  lemma ReadsNumber(s: bytes, i: nat)
    requires i < |s| && (s[i] == MINUS || IsDigit(s[i])) && Number(s, i).Ok?
    ensures var t := s[i..Number(s, i).next];
            Reads(s, i, [if Number(s, i).v then FloatToken(t) else IntToken(t)], Number(s, i).next)
            && IsNumberText(t, Number(s, i).v)
  {
    hide Number, D.StringToken, Tokens, Reads;
    FirstByte(s, i, D.ELLIPSIS);
    NumberAlone(s, i);
    ReadsOne(s, i);
  }

  lemma ReadsEllipsis(s: bytes, i: nat)
    requires i <= |s| && HasPrefixAt(s, i, D.ELLIPSIS)
    ensures Reads(s, i, [Ellipsis], i + 3)
  {
    hide Number, D.StringToken, Tokens, Reads;
    FirstByte(s, i, D.ELLIPSIS);
    ReadsOne(s, i);
  }

  // ----- Values

  lemma {:induction false} ValueSound(s: bytes, i: nat, constant: bool, room: nat)
    requires i <= |s| && D.ParseValue(s, i, constant, room).Ok?
    ensures var r := D.ParseValue(s, i, constant, room);
            Reads(s, i, ValueTokens(r.v), r.next) && WfValue(r.v, constant)
    decreases |s| - i, 1
  {
    hide Tokens, Reads, Lex, Skip, IsName, IsNumberText, IsUtf8, D.Name, D.StringToken, Number, IsKeywordAt;
    if s[i] == DOLLAR {
      ReadsByte(s, i);
      ReadsName(s, Skip(s, i + 1));
      var r := D.Name(s, Skip(s, i + 1));
      ReadsBoth(s, i, [Punct(DOLLAR)], i + 1, [NameToken(r.v)], r.next);
      assert [Punct(DOLLAR)] + [NameToken(r.v)] == [Punct(DOLLAR), NameToken(r.v)];
    } else if s[i] == QUOTE {
      ReadsString(s, i);
      StringIsUtf8(s, i);
    } else if s[i] == LBRACKET {
      ListSound(s, i, constant, room);
    } else if s[i] == LBRACE {
      ObjectSound(s, i, constant, room);
    } else if s[i] == MINUS || IsDigit(s[i]) {
      ReadsNumber(s, i);
    } else {
      WordSound(s, i, constant, room);
    }
  }

  lemma WordSound(s: bytes, i: nat, constant: bool, room: nat)
    requires i < |s| && s[i] != DOLLAR && s[i] != QUOTE && s[i] != LBRACKET && s[i] != LBRACE
    requires s[i] != MINUS && !IsDigit(s[i]) && D.ParseValue(s, i, constant, room).Ok?
    ensures var r := D.ParseValue(s, i, constant, room);
            Reads(s, i, ValueTokens(r.v), r.next) && WfValue(r.v, constant)
  {
    hide Tokens, Reads, Lex, Skip, IsName, IsNumberText, IsUtf8, D.Name, D.StringToken, Number, IsKeywordAt;
    WordIs(s, i);
    ReadsName(s, i);
  }

  /** Which word it is can be told from the Name. */
  lemma WordIs(s: bytes, i: nat)
    requires i < |s|
    ensures forall kw | kw == KW_NULL || kw == KW_TRUE || kw == KW_FALSE ::
              IsKeywordAt(s, i, kw) <==> D.Name(s, i).Ok? && D.Name(s, i).v == kw
    ensures forall kw | kw == KW_NULL || kw == KW_TRUE || kw == KW_FALSE ::
              IsKeywordAt(s, i, kw) ==> D.Name(s, i).next == i + |kw|
  {
    KeywordIs(s, i, KW_NULL);
    KeywordIs(s, i, KW_TRUE);
    KeywordIs(s, i, KW_FALSE);
  }

  lemma KeywordIs(s: bytes, i: nat, kw: bytes)
    requires i <= |s| && IsName(kw)
    ensures IsKeywordAt(s, i, kw) <==> D.Name(s, i).Ok? && D.Name(s, i).v == kw
    ensures IsKeywordAt(s, i, kw) ==> D.Name(s, i).next == i + |kw|
  {
    if IsKeywordAt(s, i, kw) {
      KeywordIsName(s, i, kw);
    } else if D.Name(s, i).Ok? && D.Name(s, i).v == kw {
      NameEndIs(s, i + 1);
    }
  }

  lemma {:induction false} ListSound(s: bytes, i: nat, constant: bool, room: nat)
    requires i < |s| && s[i] == LBRACKET && D.ParseValue(s, i, constant, room).Ok?
    ensures var r := D.ParseValue(s, i, constant, room);
            Reads(s, i, ValueTokens(r.v), r.next) && WfValue(r.v, constant)
    decreases |s| - i, 0
  {
    hide Tokens, Reads, Lex, Skip, IsName, IsNumberText, IsUtf8, D.Name, D.StringToken, Number, IsKeywordAt;
    hide D.ParseItems, D.ParseField, D.ParseFields;
    var j := Skip(s, i + 1);
    ReadsByte(s, i);
    if j < |s| && s[j] == RBRACKET {
      ReadsByte(s, j);
      ReadsSkip(s, i + 1);
      ReadsThree(s, i, [Punct(LBRACKET)], i + 1, [], i + 1, [Punct(RBRACKET)], j + 1);
    } else {
      var v := D.ParseValue(s, j, constant, room - 1);
      ValueSound(s, j, constant, room - 1);
      var vs := D.ParseItems(s, v.next, constant, room - 1);
      ItemsSound(s, v.next, constant, room - 1);
      ItemsPush(v.v, vs.v, [Punct(RBRACKET)], constant);
      ReadsThree(s, i, [Punct(LBRACKET)], i + 1, ValueTokens(v.v), v.next, ItemsTokens(vs.v) + [Punct(RBRACKET)], vs.next);
    }
  }

  lemma ItemsPush(v: Value, vs: seq<Value>, close: seq<Token>, constant: bool)
    ensures ValueTokens(v) + (ItemsTokens(vs) + close) == ItemsTokens([v] + vs) + close
    ensures WfItems([v] + vs, constant) <==> WfValue(v, constant) && WfItems(vs, constant)
  {
    assert ([v] + vs)[1..] == vs;
  }

  lemma {:induction false} ItemsSound(s: bytes, i: nat, constant: bool, room: nat)
    requires i <= |s| && D.ParseItems(s, i, constant, room).Ok?
    ensures var r := D.ParseItems(s, i, constant, room);
            Reads(s, i, ItemsTokens(r.v) + [Punct(RBRACKET)], r.next) && WfItems(r.v, constant)
    decreases |s| - i, 2
  {
    hide Tokens, Reads, Lex, Skip, IsName, IsNumberText, IsUtf8, D.Name, D.StringToken, Number, IsKeywordAt;
    var j := Skip(s, i);
    if s[j] == RBRACKET {
      ReadsByte(s, j);
      ReadsFrom(s, i, [Punct(RBRACKET)], j + 1);
      Unit([Punct(RBRACKET)]);
    } else {
      var v := D.ParseValue(s, j, constant, room);
      ValueSound(s, j, constant, room);
      var vs := D.ParseItems(s, v.next, constant, room);
      ItemsSound(s, v.next, constant, room);
      ItemsPush(v.v, vs.v, [Punct(RBRACKET)], constant);
      ReadsFrom(s, i, ValueTokens(v.v), v.next);
      ReadsBoth(s, i, ValueTokens(v.v), v.next, ItemsTokens(vs.v) + [Punct(RBRACKET)], vs.next);
    }
  }

  lemma {:induction false} ObjectSound(s: bytes, i: nat, constant: bool, room: nat)
    requires i < |s| && s[i] == LBRACE && D.ParseValue(s, i, constant, room).Ok?
    ensures var r := D.ParseValue(s, i, constant, room);
            Reads(s, i, ValueTokens(r.v), r.next) && WfValue(r.v, constant)
    decreases |s| - i, 0
  {
    hide Tokens, Reads, Lex, Skip, IsName, IsNumberText, IsUtf8, D.Name, D.StringToken, Number, IsKeywordAt;
    hide D.ParseItems, D.ParseField, D.ParseFields;
    var j := Skip(s, i + 1);
    ReadsByte(s, i);
    if j < |s| && s[j] == RBRACE {
      ReadsByte(s, j);
      ReadsSkip(s, i + 1);
      ReadsThree(s, i, [Punct(LBRACE)], i + 1, [], i + 1, [Punct(RBRACE)], j + 1);
    } else {
      var f := D.ParseField(s, j, constant, room - 1);
      FieldSound(s, j, constant, room - 1);
      var fs := D.ParseFields(s, f.next, constant, room - 1);
      FieldsSound(s, f.next, constant, room - 1);
      FieldsPush(f.v, fs.v, [Punct(RBRACE)], constant);
      ReadsThree(s, i, [Punct(LBRACE)], i + 1, FieldTokens(f.v), f.next, FieldsTokens(fs.v) + [Punct(RBRACE)], fs.next);
    }
  }

  lemma FieldsPush(f: ObjectField, fs: seq<ObjectField>, close: seq<Token>, constant: bool)
    ensures FieldTokens(f) + (FieldsTokens(fs) + close) == FieldsTokens([f] + fs) + close
    ensures WfFields([f] + fs, constant) <==> WfField(f, constant) && WfFields(fs, constant)
  {
    assert ([f] + fs)[1..] == fs;
  }

  lemma {:induction false} FieldSound(s: bytes, i: nat, constant: bool, room: nat)
    requires i <= |s| && D.ParseField(s, i, constant, room).Ok?
    ensures var r := D.ParseField(s, i, constant, room);
            Reads(s, i, FieldTokens(r.v), r.next) && WfField(r.v, constant)
    decreases |s| - i, 1
  {
    hide Tokens, Reads, Lex, Skip, IsName, IsNumberText, IsUtf8, D.Name, D.StringToken, Number, IsKeywordAt;
    hide D.ParseValue, ValueTokens, WfValue;
    var n := D.Name(s, i);
    var k := Skip(s, n.next);
    var v := D.ParseValue(s, Skip(s, k + 1), constant, room);
    ReadsName(s, i);
    ReadsByte(s, k);
    ValueSound(s, Skip(s, k + 1), constant, room);
    ReadsThree(s, i, [NameToken(n.v)], n.next, [Punct(COLON)], k + 1, ValueTokens(v.v), v.next);
    assert [NameToken(n.v)] + ([Punct(COLON)] + ValueTokens(v.v)) == [NameToken(n.v), Punct(COLON)] + ValueTokens(v.v);
  }

  lemma {:induction false} FieldsSound(s: bytes, i: nat, constant: bool, room: nat)
    requires i <= |s| && D.ParseFields(s, i, constant, room).Ok?
    ensures var r := D.ParseFields(s, i, constant, room);
            Reads(s, i, FieldsTokens(r.v) + [Punct(RBRACE)], r.next) && WfFields(r.v, constant)
    decreases |s| - i, 2
  {
    hide Tokens, Reads, Lex, Skip, IsName, IsNumberText, IsUtf8, D.Name, D.StringToken, Number, IsKeywordAt;
    var j := Skip(s, i);
    if s[j] == RBRACE {
      ReadsByte(s, j);
      ReadsFrom(s, i, [Punct(RBRACE)], j + 1);
      Unit([Punct(RBRACE)]);
    } else {
      var f := D.ParseField(s, j, constant, room);
      FieldSound(s, j, constant, room);
      var fs := D.ParseFields(s, f.next, constant, room);
      FieldsSound(s, f.next, constant, room);
      FieldsPush(f.v, fs.v, [Punct(RBRACE)], constant);
      ReadsFrom(s, i, FieldTokens(f.v), f.next);
      ReadsBoth(s, i, FieldTokens(f.v), f.next, FieldsTokens(fs.v) + [Punct(RBRACE)], fs.next);
    }
  }

  // ----- Arguments and directives

  lemma ArgumentSound(s: bytes, i: nat, constant: bool, limit: nat)
    requires i <= |s| && D.ParseArgument(s, i, constant, limit).Ok?
    ensures var r := D.ParseArgument(s, i, constant, limit);
            Reads(s, i, ArgumentTokens(r.v), r.next) && WfArgument(r.v, constant)
  {
    hide Tokens, Reads, Lex, Skip, IsName, IsNumberText, IsUtf8, D.Name, D.StringToken, Number, IsKeywordAt;
    var n := D.Name(s, i);
    var k := Skip(s, n.next);
    var v := D.ParseValue(s, Skip(s, k + 1), constant, limit);
    ReadsName(s, i);
    ReadsByte(s, k);
    ValueSound(s, Skip(s, k + 1), constant, limit);
    ReadsThree(s, i, [NameToken(n.v)], n.next, [Punct(COLON)], k + 1, ValueTokens(v.v), v.next);
    assert [NameToken(n.v)] + ([Punct(COLON)] + ValueTokens(v.v)) == [NameToken(n.v), Punct(COLON)] + ValueTokens(v.v);
  }

  lemma ArgumentsPush(a: Argument, xs: seq<Argument>, close: seq<Token>, constant: bool)
    ensures ArgumentTokens(a) + (ArgumentListTokens(xs) + close) == ArgumentListTokens([a] + xs) + close
    ensures WfArguments([a] + xs, constant) <==> WfArgument(a, constant) && WfArguments(xs, constant)
  {
    assert ([a] + xs)[1..] == xs;
  }

  lemma {:induction false} ArgumentsSound(s: bytes, i: nat, constant: bool, limit: nat)
    requires i <= |s| && D.ParseArguments(s, i, constant, limit).Ok?
    ensures var r := D.ParseArguments(s, i, constant, limit);
            Reads(s, i, ArgumentListTokens(r.v) + [Punct(RPAREN)], r.next) && WfArguments(r.v, constant)
    decreases |s| - i
  {
    hide Tokens, Reads, Lex, Skip, IsName, IsNumberText, IsUtf8, D.Name, D.StringToken, Number, IsKeywordAt;
    var a := D.ParseArgument(s, i, constant, limit);
    ArgumentSound(s, i, constant, limit);
    var j := Skip(s, a.next);
    var xs := D.ArgumentsRest(s, a.next, constant, limit);
    if s[j] == RPAREN {
      ReadsByte(s, j);
      Unit([Punct(RPAREN)]);
    } else {
      ArgumentsSound(s, j, constant, limit);
    }
    ArgumentsPush(a.v, xs.v, [Punct(RPAREN)], constant);
    ReadsBoth(s, i, ArgumentTokens(a.v), a.next, ArgumentListTokens(xs.v) + [Punct(RPAREN)], xs.next);
  }

  /** The arguments after the opening parenthesis at i. */
  lemma ArgumentsInParentheses(s: bytes, i: nat, constant: bool, limit: nat)
    requires i < |s| && s[i] == LPAREN && D.ParseArguments(s, Skip(s, i + 1), constant, limit).Ok?
    ensures var r := D.ParseArguments(s, Skip(s, i + 1), constant, limit);
            Reads(s, i, ArgumentsTokens(r.v), r.next) && WfArguments(r.v, constant)
  {
    hide Tokens, Reads, Lex, Skip, IsName, IsNumberText, IsUtf8, D.Name, D.StringToken, Number, IsKeywordAt;
    hide ArgumentListTokens;
    var r := D.ParseArguments(s, Skip(s, i + 1), constant, limit);
    ReadsByte(s, i);
    ArgumentsSound(s, Skip(s, i + 1), constant, limit);
    ReadsBoth(s, i, [Punct(LPAREN)], i + 1, ArgumentListTokens(r.v) + [Punct(RPAREN)], r.next);
  }

  lemma DirectivesPush(d: Directive, ds: seq<Directive>, constant: bool)
    ensures DirectivesTokens([d] + ds) == [Punct(AT)] + ([NameToken(d.name)] + (ArgumentsTokens(d.arguments) + DirectivesTokens(ds)))
    ensures WfDirectives([d] + ds, constant) <==> WfDirective(d, constant) && WfDirectives(ds, constant)
  {
    hide ArgumentsTokens, WfArguments;
    assert ([d] + ds)[1..] == ds;
  }

  lemma {:induction false} DirectivesSound(s: bytes, i: nat, constant: bool, limit: nat)
    requires i <= |s| && D.ParseDirectives(s, i, constant, limit).Ok?
    ensures var r := D.ParseDirectives(s, i, constant, limit);
            Reads(s, i, DirectivesTokens(r.v), r.next) && WfDirectives(r.v, constant)
    decreases |s| - i
  {
    hide Tokens, Reads, Lex, Skip, IsName, IsNumberText, IsUtf8, D.Name, D.StringToken, Number, IsKeywordAt;
    hide D.ParseArguments, ArgumentsTokens, WfArguments;
    if i == |s| || s[i] != AT {
      ReadsSkip(s, i);
      return;
    }
    var n := D.Name(s, Skip(s, i + 1));
    var k := Skip(s, n.next);
    ReadsByte(s, i);
    ReadsName(s, Skip(s, i + 1));
    if s[k] == LPAREN {
      var xs := D.ParseArguments(s, Skip(s, k + 1), constant, limit);
      ArgumentsInParentheses(s, k, constant, limit);
      var ds := D.ParseDirectives(s, Skip(s, xs.next), constant, limit);
      DirectivesSound(s, Skip(s, xs.next), constant, limit);
      DirectivesPush(Directive(n.v, xs.v), ds.v, constant);
      ReadsThree(s, Skip(s, i + 1), [NameToken(n.v)], n.next, ArgumentsTokens(xs.v), xs.next, DirectivesTokens(ds.v), ds.next);
      ReadsBoth(s, i, [Punct(AT)], i + 1, [NameToken(n.v)] + (ArgumentsTokens(xs.v) + DirectivesTokens(ds.v)), ds.next);
    } else {
      var ds := D.ParseDirectives(s, k, constant, limit);
      DirectivesSound(s, k, constant, limit);
      NoArguments(constant);
      DirectivesPush(Directive(n.v, []), ds.v, constant);
      ReadsSkip(s, n.next);
      ReadsThree(s, Skip(s, i + 1), [NameToken(n.v)], n.next, [], n.next, DirectivesTokens(ds.v), ds.next);
      ReadsBoth(s, i, [Punct(AT)], i + 1, [NameToken(n.v)] + ([] + DirectivesTokens(ds.v)), ds.next);
    }
  }

  lemma NoArguments(constant: bool)
    ensures ArgumentsTokens([]) == [] && WfArguments([], constant)
  {
  }

  // ----- Types and variable definitions

  lemma BangSound(s: bytes, i: nat, ts: seq<Token>, t: Type, j: nat)
    requires j <= |s| && Reads(s, i, ts, j) && ts == TypeTokens(t) && WfType(t) && !t.NonNull?
    ensures Reads(s, i, TypeTokens(D.Banged(s, j, t)), D.BangEnd(s, j)) && WfType(D.Banged(s, j, t))
  {
    hide Tokens, Reads, Lex, Skip;
    if D.BangAt(s, j) {
      ReadsByte(s, Skip(s, j));
      ReadsBoth(s, i, ts, j, [Punct(BANG)], Skip(s, j) + 1);
    }
  }

  lemma {:induction false} TypeSound(s: bytes, i: nat)
    requires i <= |s| && D.ParseType(s, i).Ok?
    ensures var r := D.ParseType(s, i);
            Reads(s, i, TypeTokens(r.v), r.next) && WfType(r.v)
    decreases |s| - i
  {
    hide Tokens, Reads, Lex, Skip, IsName, IsNumberText, IsUtf8, D.Name, D.StringToken, Number, IsKeywordAt;
    hide D.Banged, D.BangEnd;
    if i < |s| && s[i] == LBRACKET {
      var t := D.ParseType(s, Skip(s, i + 1));
      ReadsByte(s, i);
      TypeSound(s, Skip(s, i + 1));
      var k := Skip(s, t.next);
      ReadsByte(s, k);
      ReadsThree(s, i, [Punct(LBRACKET)], i + 1, TypeTokens(t.v), t.next, [Punct(RBRACKET)], k + 1);
      BangSound(s, i, TypeTokens(ListType(t.v)), ListType(t.v), k + 1);
    } else {
      ReadsName(s, i);
      var n := D.Name(s, i);
      BangSound(s, i, [NameToken(n.v)], Named(n.v), n.next);
    }
  }

  lemma DescriptionSound(s: bytes, i: nat)
    requires i < |s| && D.Description(s, i).Ok?
    ensures var r := D.Description(s, i);
            Reads(s, i, DescriptionTokens(r.v), r.next) && IsTextIf(r.v)
  {
    hide Tokens, Reads, Lex, Skip, IsName, IsNumberText, IsUtf8, D.Name, D.StringToken, Number, IsKeywordAt;
    ReadsSkip(s, i);
    if s[i] == QUOTE {
      var d := D.StringToken(s, i);
      ReadsString(s, i);
      StringIsUtf8(s, i);
      ReadsSkip(s, d.next);
      ReadsBoth(s, i, [StringToken(d.v)], d.next, [], Skip(s, d.next));
      Unit([StringToken(d.v)]);
    }
  }

  lemma DefaultSound(s: bytes, i: nat, limit: nat)
    requires i <= |s| && D.ParseDefault(s, i, limit).Ok?
    ensures var r := D.ParseDefault(s, i, limit);
            Reads(s, i, DefaultTokens(r.v), r.next) && (r.v.Some? ==> WfValue(r.v.value, true))
  {
    hide Tokens, Reads, Lex, Skip, IsName, IsNumberText, IsUtf8, D.Name, D.StringToken, Number, IsKeywordAt;
    hide D.ParseValue, ValueTokens;
    ReadsSkip(s, i);
    var j := Skip(s, i);
    if s[j] == EQUALS {
      var v := D.ParseValue(s, Skip(s, j + 1), true, limit);
      ReadsByte(s, j);
      ReadsFrom(s, i, [Punct(EQUALS)], j + 1);
      ValueSound(s, Skip(s, j + 1), true, limit);
      ReadsSkip(s, v.next);
      ReadsThree(s, i, [Punct(EQUALS)], j + 1, ValueTokens(v.v), v.next, [], Skip(s, v.next));
      Unit(ValueTokens(v.v));
    }
  }

  lemma VariableSound(s: bytes, i: nat, limit: nat)
    requires i < |s| && D.ParseVariable(s, i, limit).Ok?
    ensures var r := D.ParseVariable(s, i, limit);
            Reads(s, i, VariableTokens(r.v), r.next) && WfVariable(r.v)
  {
    hide Tokens, Reads, Lex, Skip, IsName, IsNumberText, IsUtf8, D.Name, D.StringToken, Number, IsKeywordAt;
    hide D.Description, D.ParseType, D.ParseDefault, D.ParseDirectives, TypeTokens, DefaultTokens, DirectivesTokens,
         DescriptionTokens, WfType, WfValue, WfDirectives;
    var d := D.Description(s, i);
    var n := D.Name(s, Skip(s, d.next + 1));
    var k := Skip(s, n.next);
    var t := D.ParseType(s, Skip(s, k + 1));
    var v := D.ParseDefault(s, t.next, limit);
    var ds := D.ParseDirectives(s, v.next, true, limit);
    DescriptionSound(s, i);
    ReadsByte(s, d.next);
    ReadsName(s, Skip(s, d.next + 1));
    ReadsByte(s, k);
    TypeSound(s, Skip(s, k + 1));
    DefaultSound(s, t.next, limit);
    DirectivesSound(s, v.next, true, limit);
    ReadsThree(s, d.next, [Punct(DOLLAR)], d.next + 1, [NameToken(n.v)], n.next, [Punct(COLON)], k + 1);
    assert [Punct(DOLLAR)] + ([NameToken(n.v)] + [Punct(COLON)]) == [Punct(DOLLAR), NameToken(n.v), Punct(COLON)];
    ReadsThree(s, Skip(s, k + 1), TypeTokens(t.v), t.next, DefaultTokens(v.v), v.next, DirectivesTokens(ds.v), ds.next);
    ReadsThree(s, i, DescriptionTokens(d.v), d.next, [Punct(DOLLAR), NameToken(n.v), Punct(COLON)], k + 1,
               TypeTokens(t.v) + (DefaultTokens(v.v) + DirectivesTokens(ds.v)), ds.next);
  }

  lemma VariablesPush(v: VariableDefinition, vs: seq<VariableDefinition>, close: seq<Token>)
    ensures VariableTokens(v) + (VariableListTokens(vs) + close) == VariableListTokens([v] + vs) + close
    ensures WfVariables([v] + vs) <==> WfVariable(v) && WfVariables(vs)
  {
    hide VariableTokens, WfVariable;
    assert ([v] + vs)[1..] == vs;
  }

  lemma {:induction false} VariablesSound(s: bytes, i: nat, limit: nat)
    requires i < |s| && D.ParseVariables(s, i, limit).Ok?
    ensures var r := D.ParseVariables(s, i, limit);
            Reads(s, i, VariableListTokens(r.v) + [Punct(RPAREN)], r.next) && WfVariables(r.v)
    decreases |s| - i
  {
    hide Tokens, Reads, Lex, Skip, IsName, IsNumberText, IsUtf8, D.Name, D.StringToken, Number, IsKeywordAt;
    hide D.ParseVariable, VariableTokens, WfVariable;
    var v := D.ParseVariable(s, i, limit);
    VariableSound(s, i, limit);
    var j := Skip(s, v.next);
    var vs := D.VariablesRest(s, v.next, limit);
    if s[j] == RPAREN {
      ReadsByte(s, j);
      Unit([Punct(RPAREN)]);
    } else {
      VariablesSound(s, j, limit);
    }
    VariablesPush(v.v, vs.v, [Punct(RPAREN)]);
    ReadsBoth(s, i, VariableTokens(v.v), v.next, VariableListTokens(vs.v) + [Punct(RPAREN)], vs.next);
  }

  // ----- Selections

  lemma SelectionsPush(x: Selection, xs: seq<Selection>, close: seq<Token>)
    ensures SelectionTokens(x) + (SelectionsTokens(xs) + close) == SelectionsTokens([x] + xs) + close
    ensures WfSelections([x] + xs) <==> WfSelection(x) && WfSelections(xs)
  {
    hide SelectionTokens, WfSelection;
    assert ([x] + xs)[1..] == xs;
  }

  lemma {:induction false} SelectionSetSound(s: bytes, i: nat, depth: nat, limit: nat)
    requires i <= |s| && D.ParseSelectionSet(s, i, depth, limit).Ok?
    ensures var r := D.ParseSelectionSet(s, i, depth, limit);
            Reads(s, i, SelectionSetTokens(r.v), r.next) && WfSelections(r.v)
    decreases |s| - i, 1
  {
    hide Tokens, Reads, Lex, Skip, IsName, IsNumberText, IsUtf8, D.Name, D.StringToken, Number, IsKeywordAt;
    hide D.ParseSelection, SelectionTokens, WfSelection;
    var j := Skip(s, i + 1);
    var x := D.ParseSelection(s, j, depth + 1, limit);
    var xs := D.SelectionsRest(s, x.next, depth + 1, limit);
    ReadsByte(s, i);
    SelectionSound(s, j, depth + 1, limit);
    SelectionsSound(s, x.next, depth + 1, limit);
    SelectionsPush(x.v, xs.v, [Punct(RBRACE)]);
    ReadsThree(s, i, [Punct(LBRACE)], i + 1, SelectionTokens(x.v), x.next, SelectionsTokens(xs.v) + [Punct(RBRACE)], xs.next);
  }

  lemma {:induction false} SelectionsSound(s: bytes, i: nat, depth: nat, limit: nat)
    requires i <= |s| && D.SelectionsRest(s, i, depth, limit).Ok?
    ensures var r := D.SelectionsRest(s, i, depth, limit);
            Reads(s, i, SelectionsTokens(r.v) + [Punct(RBRACE)], r.next) && WfSelections(r.v)
    decreases |s| - i, 3
  {
    hide Tokens, Reads, Lex, Skip, IsName, IsNumberText, IsUtf8, D.Name, D.StringToken, Number, IsKeywordAt;
    hide D.ParseSelection, SelectionTokens, WfSelection;
    if s[i] == RBRACE {
      ReadsByte(s, i);
      Unit([Punct(RBRACE)]);
    } else {
      var x := D.ParseSelection(s, i, depth, limit);
      var xs := D.SelectionsRest(s, x.next, depth, limit);
      SelectionSound(s, i, depth, limit);
      SelectionsSound(s, x.next, depth, limit);
      SelectionsPush(x.v, xs.v, [Punct(RBRACE)]);
      ReadsBoth(s, i, SelectionTokens(x.v), x.next, SelectionsTokens(xs.v) + [Punct(RBRACE)], xs.next);
    }
  }

  lemma {:induction false} SelectionSound(s: bytes, i: nat, depth: nat, limit: nat)
    requires i <= |s| && D.ParseSelection(s, i, depth, limit).Ok?
    ensures var r := D.ParseSelection(s, i, depth, limit);
            Reads(s, i, SelectionTokens(r.v), r.next) && WfSelection(r.v)
    decreases |s| - i, 2
  {
    hide Tokens, Reads, Lex, Skip, IsName, IsNumberText, IsUtf8, D.Name, D.StringToken, Number, IsKeywordAt;
    hide D.ParseInline, D.ParseFieldRest, D.ParseDirectives, D.ParseSelectionSet, SelectionTokens, WfSelection;
    if HasPrefixAt(s, i, D.ELLIPSIS) {
      EllipsisSound(s, i, depth, limit);
    } else {
      var n := D.Name(s, i);
      ReadsName(s, i);
      var k := Skip(s, n.next);
      if s[k] == COLON {
        var m := D.Name(s, Skip(s, k + 1));
        ReadsByte(s, k);
        ReadsName(s, Skip(s, k + 1));
        ReadsThree(s, i, [NameToken(n.v)], n.next, [Punct(COLON)], k + 1, [NameToken(m.v)], m.next);
        FieldSoundAfter(s, i, Some(n.v), m.v, m.next, depth, limit);
      } else {
        FieldSoundAfter(s, i, None, n.v, n.next, depth, limit);
      }
    }
  }

  /** The names of a field. */
  function FieldNames(alias: Option<bytes>, name: bytes): seq<Token> {
    if alias.Some? then [NameToken(alias.value)] + ([Punct(COLON)] + [NameToken(name)]) else [NameToken(name)]
  }

  /** What follows the names of a field. */
  function FieldRestTokens(args: seq<Argument>, dirs: seq<Directive>, sels: seq<Selection>): seq<Token> {
    ArgumentsTokens(args) + (DirectivesTokens(dirs) + (if sels == [] then [] else SelectionSetTokens(sels)))
  }

  lemma FieldIs(alias: Option<bytes>, name: bytes, args: seq<Argument>, dirs: seq<Directive>, sels: seq<Selection>)
    ensures SelectionTokens(Field(alias, name, args, dirs, sels)) == FieldNames(alias, name) + FieldRestTokens(args, dirs, sels)
    ensures WfSelection(Field(alias, name, args, dirs, sels)) <==>
              IsNameIf(alias) && IsName(name) && WfArguments(args, false) && WfDirectives(dirs, false) && WfSelections(sels)
  {
    FieldTokensAre(alias, name, args, dirs, sels);
    FieldWfIs(alias, name, args, dirs, sels);
  }

  lemma AliasFirst(a: Token, b: Token, c: Token, ts: seq<Token>)
    ensures [a] + ([b] + [c]) + ts == [a, b] + ([c] + ts)
  {
  }

  lemma FieldTokensAre(alias: Option<bytes>, name: bytes, args: seq<Argument>, dirs: seq<Directive>, sels: seq<Selection>)
    ensures SelectionTokens(Field(alias, name, args, dirs, sels)) == FieldNames(alias, name) + FieldRestTokens(args, dirs, sels)
  {
    hide ArgumentsTokens, DirectivesTokens, SelectionsTokens, WfSelection;
    var ts := FieldRestTokens(args, dirs, sels);
    assert ts == ArgumentsTokens(args) + (DirectivesTokens(dirs)
                 + (if sels == [] then [] else [Punct(LBRACE)] + (SelectionsTokens(sels) + [Punct(RBRACE)])));
    hide FieldRestTokens;
    if alias.Some? {
      AliasFirst(NameToken(alias.value), Punct(COLON), NameToken(name), ts);
    } else {
      Unit([NameToken(name)] + ts);
    }
  }

  lemma FieldWfIs(alias: Option<bytes>, name: bytes, args: seq<Argument>, dirs: seq<Directive>, sels: seq<Selection>)
    ensures WfSelection(Field(alias, name, args, dirs, sels)) <==>
              IsNameIf(alias) && IsName(name) && WfArguments(args, false) && WfDirectives(dirs, false) && WfSelections(sels)
  {
    hide WfSelections, WfArguments, WfDirectives, IsName, SelectionTokens;
  }

  /** Once the names of a field are read. */
  lemma {:induction false} FieldSoundAfter(s: bytes, i: nat, alias: Option<bytes>, name: bytes, j: nat, depth: nat, limit: nat)
    requires j <= |s| && Skip(s, j) < |s| && Reads(s, i, FieldNames(alias, name), j) && i < j && IsNameIf(alias) && IsName(name)
    requires D.ParseFieldRest(s, Skip(s, j), alias, name, depth, limit).Ok?
    ensures var r := D.ParseFieldRest(s, Skip(s, j), alias, name, depth, limit);
            Reads(s, i, SelectionTokens(r.v), r.next) && WfSelection(r.v)
    decreases |s| - i, 1
  {
    hide Tokens, Reads, Lex, Skip, IsName, IsNumberText, IsUtf8, D.Name, D.StringToken, Number, IsKeywordAt;
    hide D.FieldArguments, D.ParseDirectives, D.ParseSelectionSet, SelectionTokens, WfSelection, WfSelections,
         ArgumentsTokens, DirectivesTokens, SelectionSetTokens, FieldNames, WfArguments, WfDirectives;
    var k := Skip(s, j);
    var xs := D.FieldArguments(s, k, limit);
    var ds := D.ParseDirectives(s, xs.next, false, limit);
    FieldArgumentsSound(s, k, limit);
    DirectivesSound(s, xs.next, false, limit);
    var m := Skip(s, ds.next);
    var r := D.ParseFieldRest(s, k, alias, name, depth, limit);
    FieldIs(alias, name, xs.v, ds.v, r.v.selections);
    if s[m] == LBRACE {
      SelectionSetSound(s, m, depth, limit);
      var ss := D.ParseSelectionSet(s, m, depth, limit);
      ReadsSkip(s, ss.next);
      ReadsBoth(s, m, SelectionSetTokens(ss.v), ss.next, [], Skip(s, ss.next));
      Unit(SelectionSetTokens(ss.v));
      ReadsThree(s, k, ArgumentsTokens(xs.v), xs.next, DirectivesTokens(ds.v), ds.next, SelectionSetTokens(ss.v), r.next);
    } else {
      NoSelections();
      ReadsSkip(s, m);
      ReadsThree(s, k, ArgumentsTokens(xs.v), xs.next, DirectivesTokens(ds.v), ds.next, [], m);
    }
    ReadsBoth(s, i, FieldNames(alias, name), j, FieldRestTokens(xs.v, ds.v, r.v.selections), r.next);
  }

  lemma NoSelections()
    ensures SelectionsTokens([]) == [] && WfSelections([])
  {
  }

  lemma FieldArgumentsSound(s: bytes, i: nat, limit: nat)
    requires i < |s| && D.FieldArguments(s, i, limit).Ok?
    ensures var r := D.FieldArguments(s, i, limit);
            Reads(s, i, ArgumentsTokens(r.v), r.next) && WfArguments(r.v, false)
  {
    hide Tokens, Reads, Lex, Skip, IsName, IsNumberText, IsUtf8, D.Name, D.StringToken, Number, IsKeywordAt;
    hide D.ParseArguments, ArgumentsTokens, WfArguments;
    if s[i] == LPAREN {
      ArgumentsInParentheses(s, i, false, limit);
      var r := D.ParseArguments(s, Skip(s, i + 1), false, limit);
      ReadsSkip(s, r.next);
      ReadsBoth(s, i, ArgumentsTokens(r.v), r.next, [], Skip(s, r.next));
      Unit(ArgumentsTokens(r.v));
    } else {
      NoArguments(false);
      ReadsSkip(s, i);
    }
  }

  lemma {:induction false} InlineSound(s: bytes, i: nat, condition: Option<bytes>, depth: nat, limit: nat)
    requires i <= |s| && D.ParseInline(s, i, condition, depth, limit).Ok? && IsNameIf(condition)
    ensures var r := D.ParseInline(s, i, condition, depth, limit);
            && r.v.InlineFragment? && r.v.condition == condition && WfSelection(r.v)
            && Reads(s, i, DirectivesTokens(r.v.directives) + SelectionSetTokens(r.v.selections), r.next)
    decreases |s| - i, 2
  {
    hide Tokens, Reads, Lex, Skip, IsName, IsNumberText, IsUtf8, D.Name, D.StringToken, Number, IsKeywordAt;
    hide D.ParseDirectives, D.ParseSelectionSet, WfSelections, DirectivesTokens, SelectionSetTokens, WfDirectives;
    var ds := D.ParseDirectives(s, i, false, limit);
    var ss := D.ParseSelectionSet(s, Skip(s, ds.next), depth, limit);
    DirectivesSound(s, i, false, limit);
    SelectionSetSound(s, Skip(s, ds.next), depth, limit);
    ReadsSkip(s, ss.next);
    ReadsBoth(s, Skip(s, ds.next), SelectionSetTokens(ss.v), ss.next, [], Skip(s, ss.next));
    Unit(SelectionSetTokens(ss.v));
    ReadsBoth(s, i, DirectivesTokens(ds.v), ds.next, SelectionSetTokens(ss.v), Skip(s, ss.next));
  }

  function ConditionTokens(condition: Option<bytes>): seq<Token> {
    if condition.Some? then [NameToken(KW_ON)] + [NameToken(condition.value)] else []
  }

  lemma InlineIs(condition: Option<bytes>, dirs: seq<Directive>, sels: seq<Selection>)
    ensures SelectionTokens(InlineFragment(condition, dirs, sels))
              == [Ellipsis] + (ConditionTokens(condition) + (DirectivesTokens(dirs) + SelectionSetTokens(sels)))
  {
    hide DirectivesTokens, SelectionsTokens;
    if condition.Some? {
      assert ConditionTokens(condition) == [NameToken(KW_ON), NameToken(condition.value)];
    }
  }

  lemma SpreadIs(name: bytes, dirs: seq<Directive>)
    ensures SelectionTokens(FragmentSpread(name, dirs)) == [Ellipsis] + ([NameToken(name)] + DirectivesTokens(dirs))
    ensures WfSelection(FragmentSpread(name, dirs)) <==> IsName(name) && name != KW_ON && WfDirectives(dirs, false)
  {
    hide DirectivesTokens, WfDirectives;
  }

  lemma {:induction false} EllipsisSound(s: bytes, i: nat, depth: nat, limit: nat)
    requires i <= |s| && HasPrefixAt(s, i, D.ELLIPSIS) && D.ParseSelection(s, i, depth, limit).Ok?
    ensures var r := D.ParseSelection(s, i, depth, limit);
            Reads(s, i, SelectionTokens(r.v), r.next) && WfSelection(r.v)
    decreases |s| - i, 1
  {
    hide Tokens, Reads, Lex, Skip, IsName, IsNumberText, IsUtf8, D.Name, D.StringToken, Number, IsKeywordAt;
    hide D.ParseInline, D.ParseFieldRest, D.ParseDirectives, SelectionTokens, WfSelection, DirectivesTokens,
         SelectionSetTokens, WfDirectives, HasPrefixAt;
    Keywords();
    var j := Skip(s, i + 3);
    ReadsEllipsis(s, i);
    KeywordIs(s, j, KW_ON);
    var r := D.ParseSelection(s, i, depth, limit);
    if IsKeywordAt(s, j, KW_ON) {
      var t := D.Name(s, Skip(s, j + 2));
      ReadsKeyword(s, j, KW_ON);
      ReadsName(s, Skip(s, j + 2));
      ReadsBoth(s, j, [NameToken(KW_ON)], j + 2, [NameToken(t.v)], t.next);
      InlineSound(s, Skip(s, t.next), Some(t.v), depth, limit);
      InlineIs(Some(t.v), r.v.directives, r.v.selections);
      ReadsThree(s, i, [Ellipsis], i + 3, ConditionTokens(Some(t.v)), t.next,
                 DirectivesTokens(r.v.directives) + SelectionSetTokens(r.v.selections), r.next);
    } else if D.Name(s, j).Ok? {
      SpreadSound(s, i, depth, limit);
    } else {
      InlineSound(s, j, None, depth, limit);
      InlineIs(None, r.v.directives, r.v.selections);
      ReadsSkip(s, i + 3);
      ReadsThree(s, i, [Ellipsis], i + 3, [], i + 3, DirectivesTokens(r.v.directives) + SelectionSetTokens(r.v.selections), r.next);
    }
  }

  lemma SpreadSound(s: bytes, i: nat, depth: nat, limit: nat)
    requires i <= |s| && HasPrefixAt(s, i, D.ELLIPSIS) && D.ParseSelection(s, i, depth, limit).Ok?
    requires !IsKeywordAt(s, Skip(s, i + 3), KW_ON) && D.Name(s, Skip(s, i + 3)).Ok?
    ensures var r := D.ParseSelection(s, i, depth, limit);
            Reads(s, i, SelectionTokens(r.v), r.next) && WfSelection(r.v)
  {
    hide Tokens, Reads, Lex, Skip, IsName, IsNumberText, IsUtf8, D.Name, D.StringToken, Number, IsKeywordAt;
    hide D.ParseInline, D.ParseFieldRest, D.ParseDirectives, SelectionTokens, WfSelection, DirectivesTokens,
         WfDirectives, HasPrefixAt;
    Keywords();
    var j := Skip(s, i + 3);
    ReadsEllipsis(s, i);
    KeywordIs(s, j, KW_ON);
    var n := D.Name(s, j);
    ReadsName(s, j);
    var ds := D.ParseDirectives(s, Skip(s, n.next), false, limit);
    DirectivesSound(s, Skip(s, n.next), false, limit);
    SpreadIs(n.v, ds.v);
    ReadsSkip(s, ds.next);
    ReadsBoth(s, Skip(s, n.next), DirectivesTokens(ds.v), ds.next, [], Skip(s, ds.next));
    Unit(DirectivesTokens(ds.v));
    ReadsThree(s, i, [Ellipsis], i + 3, [NameToken(n.v)], n.next, DirectivesTokens(ds.v), Skip(s, ds.next));
  }

  // ----- Definitions

  lemma KindIs(s: bytes, i: nat)
    requires i <= |s| && D.KindAt(s, i).Some?
    ensures var kw := D.KindKeyword(D.KindAt(s, i).value);
            IsKeywordAt(s, i, kw) && IsName(kw)
  {
    hide IsKeywordAt;
  }

  lemma OperationNameSound(s: bytes, i: nat)
    requires i <= |s| && D.OperationName(s, i).Ok?
    ensures var r := D.OperationName(s, i);
            Reads(s, i, NameTokens(r.v), r.next) && IsNameIf(r.v)
  {
    hide Tokens, Reads, Lex, Skip, IsName, IsNumberText, IsUtf8, D.Name, D.StringToken, Number, IsKeywordAt;
    ReadsSkip(s, i);
    if D.Name(s, i).Ok? {
      var n := D.Name(s, i);
      ReadsName(s, i);
      ReadsSkip(s, n.next);
      ReadsBoth(s, i, [NameToken(n.v)], n.next, [], Skip(s, n.next));
      Unit([NameToken(n.v)]);
    }
  }

  lemma OperationVariablesSound(s: bytes, i: nat, limit: nat)
    requires i < |s| && D.OperationVariables(s, i, limit).Ok?
    ensures var r := D.OperationVariables(s, i, limit);
            Reads(s, i, VariablesTokens(r.v), r.next) && WfVariables(r.v)
  {
    hide Tokens, Reads, Lex, Skip, IsName, IsNumberText, IsUtf8, D.Name, D.StringToken, Number, IsKeywordAt;
    hide D.ParseVariables, VariableListTokens, WfVariable;
    ReadsSkip(s, i);
    if s[i] == LPAREN {
      var j := Skip(s, i + 1);
      var vs := D.ParseVariables(s, j, limit);
      ReadsByte(s, i);
      VariablesSound(s, j, limit);
      ReadsSkip(s, vs.next);
      ReadsBoth(s, i, [Punct(LPAREN)], i + 1, VariableListTokens(vs.v) + [Punct(RPAREN)], vs.next);
      ReadsBoth(s, i, VariablesTokens(vs.v), vs.next, [], Skip(s, vs.next));
      Unit(VariablesTokens(vs.v));
    }
  }

  lemma OperationSound(s: bytes, i: nat, d: Option<bytes>, kind: Kind, limit: nat)
    requires i <= |s| && D.ParseOperation(s, i, d, kind, limit).Ok? && IsTextIf(d)
    ensures var r := D.ParseOperation(s, i, d, kind, limit);
            && r.v.Operation? && !r.v.shorthand && r.v.description == d && r.v.kind == kind && WfDefinition(r.v)
            && Reads(s, i, NameTokens(r.v.opName) + (VariablesTokens(r.v.variables)
                 + (DirectivesTokens(r.v.directives) + SelectionSetTokens(r.v.selections))), r.next)
  {
    hide Tokens, Reads, Lex, Skip, IsName, IsNumberText, IsUtf8, D.Name, D.StringToken, Number, IsKeywordAt;
    hide D.OperationName, D.OperationVariables, D.ParseDirectives, D.ParseSelectionSet, NameTokens, VariablesTokens,
         DirectivesTokens, SelectionSetTokens, WfVariables, WfDirectives, WfSelections;
    var n := D.OperationName(s, i);
    var vs := D.OperationVariables(s, n.next, limit);
    var ds := D.ParseDirectives(s, vs.next, false, limit);
    var ss := D.ParseSelectionSet(s, Skip(s, ds.next), 0, limit);
    OperationNameSound(s, i);
    OperationVariablesSound(s, n.next, limit);
    DirectivesSound(s, vs.next, false, limit);
    SelectionSetSound(s, Skip(s, ds.next), 0, limit);
    ReadsThree(s, n.next, VariablesTokens(vs.v), vs.next, DirectivesTokens(ds.v), ds.next, SelectionSetTokens(ss.v), ss.next);
    ReadsBoth(s, i, NameTokens(n.v), n.next, VariablesTokens(vs.v) + (DirectivesTokens(ds.v) + SelectionSetTokens(ss.v)), ss.next);
  }

  lemma FragmentSound(s: bytes, i: nat, d: Option<bytes>, limit: nat)
    requires i <= |s| && D.ParseFragment(s, i, d, limit).Ok? && IsTextIf(d)
    ensures var r := D.ParseFragment(s, i, d, limit);
            && r.v.Fragment? && r.v.description == d && WfDefinition(r.v)
            && Reads(s, i, [NameToken(r.v.name), NameToken(KW_ON), NameToken(r.v.condition)]
                 + (DirectivesTokens(r.v.directives) + SelectionSetTokens(r.v.selections)), r.next)
  {
    hide Tokens, Reads, Lex, Skip, IsName, IsNumberText, IsUtf8, D.Name, D.StringToken, Number, IsKeywordAt;
    hide D.ParseDirectives, D.ParseSelectionSet, DirectivesTokens, SelectionSetTokens, WfDirectives, WfSelections;
    Keywords();
    var n := D.Name(s, i);
    var k := Skip(s, n.next);
    var t := D.Name(s, Skip(s, k + 2));
    var ds := D.ParseDirectives(s, Skip(s, t.next), false, limit);
    var ss := D.ParseSelectionSet(s, Skip(s, ds.next), 0, limit);
    ReadsName(s, i);
    ReadsKeyword(s, k, KW_ON);
    ReadsName(s, Skip(s, k + 2));
    DirectivesSound(s, Skip(s, t.next), false, limit);
    SelectionSetSound(s, Skip(s, ds.next), 0, limit);
    ReadsThree(s, i, [NameToken(n.v)], n.next, [NameToken(KW_ON)], k + 2, [NameToken(t.v)], t.next);
    assert [NameToken(n.v)] + ([NameToken(KW_ON)] + [NameToken(t.v)]) == [NameToken(n.v), NameToken(KW_ON), NameToken(t.v)];
    ReadsThree(s, i, [NameToken(n.v), NameToken(KW_ON), NameToken(t.v)], t.next, DirectivesTokens(ds.v), ds.next,
               SelectionSetTokens(ss.v), ss.next);
  }

  lemma DefinitionSound(s: bytes, i: nat, limit: nat)
    requires i < |s| && D.ParseDefinition(s, i, limit).Ok?
    ensures var r := D.ParseDefinition(s, i, limit);
            Reads(s, i, DefinitionTokens(r.v), r.next) && WfDefinition(r.v)
  {
    hide Tokens, Reads, Lex, Skip, IsName, IsNumberText, IsUtf8, D.Name, D.StringToken, Number, IsKeywordAt;
    hide D.Description, D.ParseFragment, D.ParseOperation, D.ParseSelectionSet, D.KindAt, DescriptionTokens,
         NameTokens, VariablesTokens, DirectivesTokens, SelectionSetTokens, WfSelections;
    Keywords();
    var d := D.Description(s, i);
    var j := d.next;
    var r := D.ParseDefinition(s, i, limit);
    DescriptionSound(s, i);
    if s[j] == LBRACE {
      SelectionSetSound(s, j, 0, limit);
      NoDescription();
      ReadsBoth(s, i, [], j, SelectionSetTokens(r.v.selections), r.next);
      Unit(SelectionSetTokens(r.v.selections));
      NothingElse();
    } else if IsKeywordAt(s, j, KW_FRAGMENT) {
      var f := Skip(s, j + 8);
      ReadsKeyword(s, j, KW_FRAGMENT);
      FragmentSound(s, f, d.v, limit);
      var names, rest := [NameToken(r.v.name), NameToken(KW_ON), NameToken(r.v.condition)],
                         DirectivesTokens(r.v.directives) + SelectionSetTokens(r.v.selections);
      ReadsThree(s, i, DescriptionTokens(d.v), j, [NameToken(KW_FRAGMENT)], j + 8, names + rest, r.next);
      assert [NameToken(KW_FRAGMENT)] + (names + rest) ==
             [NameToken(KW_FRAGMENT), NameToken(r.v.name), NameToken(KW_ON), NameToken(r.v.condition)] + rest;
    } else {
      var kw := D.KindKeyword(D.KindAt(s, j).value);
      KindIs(s, j);
      ReadsKeyword(s, j, kw);
      OperationSound(s, Skip(s, j + |kw|), d.v, D.KindAt(s, j).value, limit);
      ReadsThree(s, i, DescriptionTokens(d.v), j, [NameToken(kw)], j + |kw|,
                 NameTokens(r.v.opName) + (VariablesTokens(r.v.variables)
                   + (DirectivesTokens(r.v.directives) + SelectionSetTokens(r.v.selections))), r.next);
    }
  }

  lemma NoDescription()
    ensures DescriptionTokens(None) == []
  {
  }

  lemma NothingElse()
    ensures WfVariables([]) && WfDirectives([], false)
  {
  }

  lemma {:induction false} DefinitionsSound(s: bytes, i: nat, limit: nat)
    requires i < |s| && D.ParseDefinitions(s, i, limit).Ok?
    ensures var r := D.ParseDefinitions(s, i, limit);
            Reads(s, i, DocumentTokens(r.v), |s|) && WfDocument(r.v)
    decreases |s| - i
  {
    hide D.ParseDefinition, DefinitionTokens, WfDefinition, Reads, Skip, Lex;
    var d := D.ParseDefinition(s, i, limit);
    DefinitionSound(s, i, limit);
    var j := Skip(s, d.next);
    var ds := D.ParseDefinitions(s, i, limit).v;
    assert ds[0] == d.v;
    ReadsSkip(s, d.next);
    if j < |s| {
      DefinitionsSound(s, j, limit);
      assert ds[1..] == D.ParseDefinitions(s, j, limit).v;
      ReadsBoth(s, i, DefinitionTokens(d.v), d.next, DocumentTokens(ds[1..]), |s|);
    } else {
      assert ds[1..] == [];
      ReadsBoth(s, i, DefinitionTokens(d.v), d.next, [], |s|);
    }
    assert WfDefinitions(ds[1..]);
  }

  /** Whatever is accepted is a document of the grammar, written with the tokens of the source. */
  lemma DocumentSound(s: bytes, limit: nat)
    requires D.ParseDocument(s, limit).Ok?
    ensures var d := D.ParseDocument(s, limit).v;
            Tokens(s, 0) == Some(DocumentTokens(d)) && WfDocument(d)
  {
    hide D.ParseDefinitions, Tokens, Reads, Skip;
    var i := Skip(s, 0);
    DefinitionsSound(s, i, limit);
    ReadsFrom(s, 0, DocumentTokens(D.ParseDocument(s, limit).v), |s|);
    SkipEnd(s);
    ReadsToEnd(s, 0, DocumentTokens(D.ParseDocument(s, limit).v), |s|);
  }

  lemma SkipEnd(s: bytes)
    ensures Skip(s, |s|) == |s|
  {
  }
}
