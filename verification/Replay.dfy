/**
 The parser reads from left to right: of two sources that hold the same tokens up to q, and
 the same kind of token at q, it reads the same up to q, and if it rejects the one at q it
 rejects the other there.
 */
module Replay {
  import opened Bytes
  import opened Lexical
  import opened Numbers
  import opened Ast
  import opened Grammar
  import opened Soundness
  import opened Locality
  import D = Descent
  import L = Limits
  import F = Faults

  // ----- Where the tokens lead

  /** From i the tokens of s lead to one at q. */
  predicate On(s: bytes, i: nat, q: nat)
    requires q < |s|
    decreases |s| - i
  {
    i <= q && Skip(s, i) <= q
    && (Skip(s, i) == q
        || (Lex(s, Skip(s, i)).Ok? && Lex(s, Skip(s, i)).next <= q && On(s, Lex(s, Skip(s, i)).next, q)))
  }

  lemma {:induction false} ReadsOn(s: bytes, i: nat, ts: seq<Token>, q: nat)
    requires q < |s| && Reads(s, i, ts, q) && Skip(s, q) == q
    ensures On(s, i, q)
    decreases |ts|
  {
    hide Skip, Lex;
    if ts != [] {
      ReadsOn(s, Lex(s, Skip(s, i)).next, ts[1..], q);
    }
  }

  /** What is read on the way leads further on. */
  lemma {:induction false} OnAfter(s: bytes, i: nat, ts: seq<Token>, j: nat, q: nat)
    requires q < |s| && On(s, i, q) && Reads(s, i, ts, j) && j <= q
    ensures On(s, j, q)
    decreases |ts|
  {
    hide Skip, Lex;
    if ts != [] {
      OnAfter(s, Lex(s, Skip(s, i)).next, ts[1..], j, q);
    }
  }

  // ----- One token

  /** t holds the same up to q, and there the same kind of token; or a number in place of a
      variable, or in place of what only begins like one. */
  predicate Alike(s: bytes, t: bytes, q: nat, e: Error) {
    && q < |s| && q < |t| && Agree(s, t, q) && Skip(s, q) == q && Skip(t, q) == q
    && if s[q] == t[q] then
         && (e == UnexpectedToken || e == UnexpectedVariable || e == TooDeep)
         && HasPrefixAt(s, q, D.ELLIPSIS) == HasPrefixAt(t, q, D.ELLIPSIS)
         && D.Name(s, q) == D.Name(t, q)
       else
         (e == UnexpectedToken || e == TooDeep) && t[q] == MINUS && (s[q] == DOLLAR || IsDigit(s[q]))
  }

  /** What is read up to q is read the same, and the error at q is an error there. */
  predicate Same<T(==)>(a: R<T>, b: R<T>, q: nat, e: Error) {
    (a.Ok? && a.next <= q ==> b == a) && (a == Err(e, q) ==> b == a)
  }

  lemma Bounds(s: bytes, t: bytes, q: nat, e: Error, i: nat)
    requires Alike(s, t, q, e) && On(s, i, q)
    ensures i <= q < |s| && q < |t| && (i < q ==> s[i] == t[i])
  {
  }

  lemma Skips(s: bytes, t: bytes, q: nat, e: Error, i: nat)
    requires Alike(s, t, q, e) && On(s, i, q)
    ensures i <= q < |s| && q < |t| && Skip(t, i) == Skip(s, i) <= q && On(s, Skip(s, i), q)
    ensures Skip(s, Skip(s, i)) == Skip(s, i) && Skip(t, Skip(s, i)) == Skip(s, i)
  {
    hide Skip, Lex, D.Name;
    SkipIdempotent(s, i);
    SkipIdempotent(t, i);
    SkipSame(s, t, q, i);
  }

  /** A token before q. */
  lemma Lexes(s: bytes, t: bytes, q: nat, e: Error, i: nat)
    requires Alike(s, t, q, e) && On(s, i, q) && Skip(s, i) == i && i < q
    ensures i < |s| && i < |t| && s[i] == t[i]
    ensures Lex(s, i).Ok? && Lex(s, i).next <= q && Lex(t, i) == Lex(s, i) && On(s, Lex(s, i).next, q)
  {
    hide Skip, Lex, D.Name;
    LexSame(s, t, q, i);
  }

  lemma LexIs(s: bytes, i: nat)
    requires i < |s|
    ensures IsPunctuator(s[i]) ==> Lex(s, i) == Ok(Punct(s[i]), i + 1)
    ensures HasPrefixAt(s, i, D.ELLIPSIS) ==> Lex(s, i) == Ok(Ellipsis, i + 3)
    ensures IsNameStart(s[i]) ==> D.Name(s, i).Ok? && Lex(s, i) == Ok(NameToken(D.Name(s, i).v), D.Name(s, i).next)
    ensures (s[i] == MINUS || IsDigit(s[i])) ==>
              Lex(s, i) == if Number(s, i).Err? then Err(Number(s, i).e, Number(s, i).pos)
                           else var t := s[i..Number(s, i).next];
                                Ok(if Number(s, i).v then FloatToken(t) else IntToken(t), Number(s, i).next)
    ensures s[i] == QUOTE ==>
              Lex(s, i) == if D.StringToken(s, i).Err? then Err(D.StringToken(s, i).e, D.StringToken(s, i).pos)
                           else Ok(StringToken(D.StringToken(s, i).v), D.StringToken(s, i).next)
    ensures (!IsPunctuator(s[i]) && !IsNameStart(s[i]) && s[i] != MINUS && !IsDigit(s[i]) && s[i] != QUOTE
             && !HasPrefixAt(s, i, D.ELLIPSIS)) ==> Lex(s, i) == Err(UnexpectedToken, i)
  {
    hide Number, D.StringToken, NameEnd;
    FirstByte(s, i, D.ELLIPSIS);
  }

  lemma Names(s: bytes, t: bytes, q: nat, e: Error, i: nat)
    requires Alike(s, t, q, e) && On(s, i, q) && Skip(s, i) == i
    ensures i <= |t| && D.Name(t, i) == D.Name(s, i)
    ensures D.Name(s, i).Ok? && D.Name(s, i).next <= q ==> On(s, D.Name(s, i).next, q)
  {
    hide Skip, Lex, NameEnd, On;
    Bounds(s, t, q, e, i);
    if i < q {
      Lexes(s, t, q, e, i);
      LexIs(s, i);
      LexIs(t, i);
    }
  }

  lemma Words(s: bytes, t: bytes, q: nat, e: Error, i: nat, kw: bytes)
    requires Alike(s, t, q, e) && On(s, i, q) && Skip(s, i) == i && IsName(kw)
    ensures i <= |t| && IsKeywordAt(t, i, kw) == IsKeywordAt(s, i, kw)
    ensures IsKeywordAt(s, i, kw) && i + |kw| <= q ==> On(s, i + |kw|, q)
  {
    hide *;
    Names(s, t, q, e, i);
    KeywordIs(s, i, kw);
    KeywordIs(t, i, kw);
  }

  /** Whether a punctuator other than the dollar sign comes next. */
  lemma Puncts(s: bytes, t: bytes, q: nat, e: Error, i: nat, b: byte)
    requires Alike(s, t, q, e) && On(s, i, q) && Skip(s, i) == i && IsPunctuator(b)
    ensures i < |s| && i < |t| && (b != DOLLAR ==> (s[i] == b <==> t[i] == b))
    ensures s[i] == b && i < q ==> t[i] == b && On(s, i + 1, q)
    ensures s[i] != b ==> t[i] != b
    ensures i + 1 <= |t|
  {
    hide Skip, Lex, D.Name, On, HasPrefixAt;
    Bounds(s, t, q, e, i);
    if i < q {
      Lexes(s, t, q, e, i);
      LexIs(s, i);
    }
  }

  lemma Expects(s: bytes, t: bytes, q: nat, e: Error, i: nat, b: byte)
    requires Alike(s, t, q, e) && On(s, i, q) && Skip(s, i) == i && IsPunctuator(b)
    ensures i <= |t| && Same(D.Expect(s, i, b), D.Expect(t, i, b), q, e)
    ensures D.Expect(s, i, b).Ok? && D.Expect(s, i, b).next <= q ==> On(s, D.Expect(s, i, b).next, q)
  {
    hide Skip, On, Alike, IsPunctuator;
    Bounds(s, t, q, e, i);
    Puncts(s, t, q, e, i, b);
  }

  lemma Ellipses(s: bytes, t: bytes, q: nat, e: Error, i: nat)
    requires Alike(s, t, q, e) && On(s, i, q) && Skip(s, i) == i
    ensures i <= |t| && HasPrefixAt(t, i, D.ELLIPSIS) == HasPrefixAt(s, i, D.ELLIPSIS)
    ensures HasPrefixAt(s, i, D.ELLIPSIS) ==> i + 3 <= |s| && i + 3 <= |t|
    ensures HasPrefixAt(s, i, D.ELLIPSIS) && i < q ==> i + 3 <= q && On(s, i + 3, q)
  {
    hide Skip, Lex, D.Name, On;
    Bounds(s, t, q, e, i);
    FirstByte(s, i, D.ELLIPSIS);
    FirstByte(t, i, D.ELLIPSIS);
    if i < q {
      Lexes(s, t, q, e, i);
      LexIs(s, i);
      LexIs(t, i);
      EllipsisOnly(s, i);
      EllipsisOnly(t, i);
    }
  }

  lemma EllipsisOnly(s: bytes, i: nat)
    requires i < |s| && Lex(s, i).Ok?
    ensures HasPrefixAt(s, i, D.ELLIPSIS) <==> Lex(s, i).v == Ellipsis
  {
    hide Number, D.StringToken, NameEnd;
    FirstByte(s, i, D.ELLIPSIS);
  }

  /** A string or a number before q. */
  lemma Literals(s: bytes, t: bytes, q: nat, e: Error, i: nat)
    requires Alike(s, t, q, e) && On(s, i, q) && Skip(s, i) == i && i < q
    ensures i < |s| && i < |t| && t[i] == s[i]
    ensures s[i] == QUOTE ==>
              D.StringToken(s, i).Ok? && D.StringToken(t, i) == D.StringToken(s, i)
              && D.StringToken(s, i).next <= q && On(s, D.StringToken(s, i).next, q)
    ensures (s[i] == MINUS || IsDigit(s[i])) ==>
              Number(s, i).Ok? && Number(t, i) == Number(s, i)
              && Number(s, i).next <= q && s[i..Number(s, i).next] == t[i..Number(s, i).next]
  {
    hide Skip, Lex, D.Name, On, Number, D.StringToken, HasPrefixAt;
    Lexes(s, t, q, e, i);
    LexIs(s, i);
    if s[i] == QUOTE {
      StringSame(s, t, q, i);
    } else if s[i] == MINUS || IsDigit(s[i]) {
      NumberSame(s, t, q, i);
      SameSlice(s, t, q, i, Number(s, i).next);
    }
  }

  // ----- Values

  /** Neither a string nor a number is rejected at its first byte with the error of a misplaced token. */
  lemma LiteralErrors(s: bytes, i: nat)
    requires i < |s|
    ensures s[i] == QUOTE && D.StringToken(s, i).Err? ==> D.StringToken(s, i).pos > i
    ensures (s[i] == MINUS || IsDigit(s[i])) && Number(s, i).Err? ==> Number(s, i).e == MalformedNumber
  {
    hide Number;
  }

  /** A value that is neither a list nor an input object, at q itself. */
  lemma LeafHere(s: bytes, t: bytes, q: nat, e: Error, constant: bool, room: nat)
    requires Alike(s, t, q, e) && s[q] != LBRACKET && s[q] != LBRACE
    ensures Same(D.ParseValue(s, q, constant, room), D.ParseValue(t, q, constant, room), q, e)
  {
    hide D.StringToken, Number, Skip, IsKeywordAt, NameEnd, HasPrefixAt, Agree, D.ParseItems, D.ParseField, D.ParseFields;
    LiteralErrors(s, q);
    ValueWords();
    KeywordIs(s, q, KW_NULL);
    KeywordIs(s, q, KW_TRUE);
    KeywordIs(s, q, KW_FALSE);
    KeywordIs(t, q, KW_NULL);
    KeywordIs(t, q, KW_TRUE);
    KeywordIs(t, q, KW_FALSE);
  }

  lemma ValueWords()
    ensures IsName(KW_NULL) && IsName(KW_TRUE) && IsName(KW_FALSE)
    ensures |KW_NULL| > 0 && |KW_TRUE| > 0 && |KW_FALSE| > 0
  {
  }

  lemma VariableValueIs(s: bytes, i: nat, constant: bool, room: nat)
    requires i < |s| && s[i] == DOLLAR
    ensures var r, n := D.ParseValue(s, i, constant, room), D.Name(s, Skip(s, i + 1));
            r == if constant then Err(UnexpectedVariable, i) else if n.Err? then Err(n.e, n.pos) else Ok(Variable(n.v), n.next)
  {
    hide D.Name, Skip;
  }

  lemma LiteralValueIs(s: bytes, i: nat, constant: bool, room: nat)
    requires i < |s|
    ensures s[i] == QUOTE ==>
              var r, d := D.ParseValue(s, i, constant, room), D.StringToken(s, i);
              r == if d.Err? then Err(d.e, d.pos) else Ok(StringValue(d.v), d.next)
    ensures (s[i] == MINUS || IsDigit(s[i])) ==>
              var r, n := D.ParseValue(s, i, constant, room), Number(s, i);
              r == if n.Err? then Err(n.e, n.pos)
                   else Ok(if n.v then FloatValue(s[i..n.next]) else IntValue(s[i..n.next]), n.next)
  {
    hide D.StringToken, Number;
  }

  lemma WordValueIs(s: bytes, i: nat, constant: bool, room: nat)
    requires i < |s| && s[i] != LBRACKET && s[i] != LBRACE && s[i] != DOLLAR && s[i] != QUOTE && s[i] != MINUS && !IsDigit(s[i])
    ensures var r, n := D.ParseValue(s, i, constant, room), D.Name(s, i);
            r == if IsKeywordAt(s, i, KW_NULL) then Ok(NullValue, i + |KW_NULL|)
                 else if IsKeywordAt(s, i, KW_TRUE) then Ok(BooleanValue(true), i + |KW_TRUE|)
                 else if IsKeywordAt(s, i, KW_FALSE) then Ok(BooleanValue(false), i + |KW_FALSE|)
                 else if n.Err? then Err(n.e, n.pos) else Ok(EnumValue(n.v), n.next)
  {
    hide D.Name, IsKeywordAt;
  }

  lemma LeafSame(s: bytes, t: bytes, q: nat, e: Error, i: nat, constant: bool, room: nat)
    requires Alike(s, t, q, e) && On(s, i, q) && Skip(s, i) == i
    requires i < |s| && s[i] != LBRACKET && s[i] != LBRACE
    ensures i <= |t| && Same(D.ParseValue(s, i, constant, room), D.ParseValue(t, i, constant, room), q, e)
  {
    ValueWords();
    hide D.ParseValue, D.StringToken, Number, Skip, IsKeywordAt, D.Name, On, Alike, Same, IsName;
    Bounds(s, t, q, e, i);
    var x, y := D.ParseValue(s, i, constant, room), D.ParseValue(t, i, constant, room);
    if i == q {
      LeafHere(s, t, q, e, constant, room);
    } else if s[i] == DOLLAR {
      Punctuated(s, t, q, e, i);
      VariableValueIs(s, i, constant, room);
      VariableValueIs(t, i, constant, room);
      if constant {
        SameIs(x, y, q, e);
      } else {
        var j := Skip(s, i + 1);
        Names(s, t, q, e, j);
        SameIs(D.Name(s, j), D.Name(t, j), q, e);
        Last(D.Name(s, j), D.Name(t, j), x, y, q, e);
      }
    } else if s[i] == QUOTE || s[i] == MINUS || IsDigit(s[i]) {
      Literals(s, t, q, e, i);
      LiteralValueIs(s, i, constant, room);
      LiteralValueIs(t, i, constant, room);
      SameIs(x, y, q, e);
    } else {
      Words(s, t, q, e, i, KW_NULL);
      Words(s, t, q, e, i, KW_TRUE);
      Words(s, t, q, e, i, KW_FALSE);
      Names(s, t, q, e, i);
      WordValueIs(s, i, constant, room);
      WordValueIs(t, i, constant, room);
      SameIs(x, y, q, e);
    }
  }

  lemma Punctuated(s: bytes, t: bytes, q: nat, e: Error, i: nat)
    requires Alike(s, t, q, e) && On(s, i, q) && Skip(s, i) == i && i < q && i < |s| && s[i] == DOLLAR
    ensures i < |t| && i + 1 <= |t| && Skip(t, i + 1) == Skip(s, i + 1) <= q && On(s, Skip(s, i + 1), q)
    ensures Skip(s, Skip(s, i + 1)) == Skip(s, i + 1)
  {
    hide Skip, On, Alike;
    Puncts(s, t, q, e, i, DOLLAR);
    Skips(s, t, q, e, i + 1);
  }

  lemma {:induction false} ValueSame(s: bytes, t: bytes, q: nat, e: Error, i: nat, constant: bool, room: nat)
    requires Alike(s, t, q, e) && On(s, i, q) && Skip(s, i) == i
    ensures i <= |t| && Same(D.ParseValue(s, i, constant, room), D.ParseValue(t, i, constant, room), q, e)
    decreases |s| - i, 1
  {
    hide *;
    Bounds(s, t, q, e, i);
    if s[i] == LBRACKET {
      ListSame(s, t, q, e, i, constant, room);
    } else if s[i] == LBRACE {
      ObjectSame(s, t, q, e, i, constant, room);
    } else {
      LeafSame(s, t, q, e, i, constant, room);
    }
  }

  /** One bracket deeper. */
  lemma WithinSame(room: nat, j: nat, a: R<Value>, b: R<Value>, q: nat, e: Error)
    requires room > 0 ==> Same(a, b, q, e)
    ensures Same(L.Within(room, j, a), L.Within(room, j, b), q, e)
  {
  }

  /** What is only read past q cannot fail at q. */
  lemma Beyond<T>(a: R<T>, b: R<T>, q: nat, e: Error)
    requires (a.Ok? ==> a.next > q) && (a.Err? ==> a.pos > q)
    ensures Same(a, b, q, e)
  {
  }

  lemma SameIs<T>(a: R<T>, b: R<T>, q: nat, e: Error)
    ensures a == b ==> Same(a, b, q, e)
    ensures Same(a, b, q, e) ==> (a.Ok? && a.next <= q ==> b == a) && (a == Err(e, q) ==> b == a)
  {
  }

  /** A part a of x is read the same, or fails at q. */
  lemma Step<A, B>(a: R<A>, b: R<A>, x: R<B>, y: R<B>, q: nat, e: Error)
    requires Same(a, b, q, e)
    requires a.Err? ==> x == Err(a.e, a.pos)
    requires b.Err? ==> y == Err(b.e, b.pos)
    requires a.Ok? ==> (x.Ok? ==> x.next >= a.next) && (x.Err? ==> x.pos >= a.next)
    ensures a.Ok? && a.next <= q ==> b == a
    ensures a.Err? || a.next > q ==> Same(x, y, q, e)
  {
  }

  /** The last part of x ends where x does. */
  lemma Last<A, B>(a: R<A>, b: R<A>, x: R<B>, y: R<B>, q: nat, e: Error)
    requires Same(a, b, q, e)
    requires a.Err? ==> x == Err(a.e, a.pos)
    requires b.Err? ==> y == Err(b.e, b.pos)
    requires a.Ok? ==> x.Ok? && x.next == a.next
    requires a.Ok? && a == b ==> x == y
    ensures Same(x, y, q, e)
  {
  }

  lemma Brackets()
    ensures IsPunctuator(LBRACKET) && IsPunctuator(RBRACKET) && IsPunctuator(LBRACE) && IsPunctuator(RBRACE)
    ensures IsPunctuator(LPAREN) && IsPunctuator(RPAREN) && IsPunctuator(COLON) && IsPunctuator(EQUALS)
    ensures IsPunctuator(AT) && IsPunctuator(BANG) && IsPunctuator(DOLLAR)
    ensures RBRACKET != DOLLAR && RBRACE != DOLLAR && RPAREN != DOLLAR && LBRACKET != DOLLAR && LBRACE != DOLLAR
    ensures LPAREN != DOLLAR && COLON != DOLLAR && EQUALS != DOLLAR && AT != DOLLAR && BANG != DOLLAR
  {
  }

  lemma ListBeyond(s: bytes, i: nat, constant: bool, room: nat)
    requires i < |s| && (s[i] == LBRACKET || s[i] == LBRACE)
    ensures var r := D.ParseValue(s, i, constant, room);
            (r.Ok? ==> r.next > i) && (r.Err? ==> r.pos > i)
  {
    hide D.ParseItems, D.ParseField, D.ParseFields, Skip;
  }

  lemma {:induction false} ListSame(s: bytes, t: bytes, q: nat, e: Error, i: nat, constant: bool, room: nat)
    requires Alike(s, t, q, e) && On(s, i, q) && Skip(s, i) == i && i < |s| && s[i] == LBRACKET
    ensures i <= |t| && Same(D.ParseValue(s, i, constant, room), D.ParseValue(t, i, constant, room), q, e)
    decreases |s| - i, 0
  {
    hide *;
    Brackets();
    Bounds(s, t, q, e, i);
    if i == q {
      ListBeyond(s, i, constant, room);
      Beyond(D.ParseValue(s, i, constant, room), D.ParseValue(t, i, constant, room), q, e);
    } else {
      Puncts(s, t, q, e, i, LBRACKET);
      Skips(s, t, q, e, i + 1);
      var j := Skip(s, i + 1);
      Puncts(s, t, q, e, j, RBRACKET);
      L.ListIs(s, i, constant, room);
      L.ListIs(t, i, constant, room);
      if s[j] == RBRACKET {
        SameIs(D.ParseValue(s, i, constant, room), D.ParseValue(t, i, constant, room), q, e);
      } else {
        var less := if room == 0 then 0 else room - 1;
        ListRestSame(s, t, q, e, j, constant, less);
        WithinSame(room, j, L.ListRest(s, j, constant, less), L.ListRest(t, j, constant, less), q, e);
      }
    }
  }

  lemma ValueOn(s: bytes, i: nat, constant: bool, room: nat, q: nat)
    requires q < |s| && On(s, i, q) && i <= |s| && D.ParseValue(s, i, constant, room).Ok? && D.ParseValue(s, i, constant, room).next <= q
    ensures On(s, D.ParseValue(s, i, constant, room).next, q)
  {
    hide *;
    ValueSound(s, i, constant, room);
    OnAfter(s, i, ValueTokens(D.ParseValue(s, i, constant, room).v), D.ParseValue(s, i, constant, room).next, q);
  }

  lemma ListRestIs(s: bytes, i: nat, constant: bool, room: nat)
    requires i <= |s|
    ensures var r, v := L.ListRest(s, i, constant, room), D.ParseValue(s, i, constant, room);
            if v.Err? then r == Err(v.e, v.pos)
            else
              var vs := D.ParseItems(s, v.next, constant, room);
              r == if vs.Err? then Err(vs.e, vs.pos) else Ok(ListValue([v.v] + vs.v), vs.next)
  {
    hide D.ParseValue, D.ParseItems;
  }

  lemma {:induction false} ListRestSame(s: bytes, t: bytes, q: nat, e: Error, i: nat, constant: bool, room: nat)
    requires Alike(s, t, q, e) && On(s, i, q) && Skip(s, i) == i
    ensures i <= |t| && Same(L.ListRest(s, i, constant, room), L.ListRest(t, i, constant, room), q, e)
    decreases |s| - i, 3
  {
    hide *;
    hide Same;
    Bounds(s, t, q, e, i);
    ListRestIs(s, i, constant, room);
    ListRestIs(t, i, constant, room);
    ValueSame(s, t, q, e, i, constant, room);
    var x, y := L.ListRest(s, i, constant, room), L.ListRest(t, i, constant, room);
    var v := D.ParseValue(s, i, constant, room);
    Step(v, D.ParseValue(t, i, constant, room), x, y, q, e);
    if v.Ok? && v.next <= q {
      ValueOn(s, i, constant, room, q);
      ItemsSame(s, t, q, e, v.next, constant, room);
      Last(D.ParseItems(s, v.next, constant, room), D.ParseItems(t, v.next, constant, room), x, y, q, e);
    }
  }

  lemma ItemsAre(s: bytes, i: nat, constant: bool, room: nat)
    requires i <= |s|
    ensures var r, j := D.ParseItems(s, i, constant, room), Skip(s, i);
            if j == |s| then r == Err(UnexpectedEOF, j)
            else if s[j] == RBRACKET then r == Ok([], j + 1)
            else
              var v := D.ParseValue(s, j, constant, room);
              if v.Err? then r == Err(v.e, v.pos)
              else
                var vs := D.ParseItems(s, v.next, constant, room);
                r == if vs.Err? then Err(vs.e, vs.pos) else Ok([v.v] + vs.v, vs.next)
  {
    hide D.ParseValue, Skip;
  }

  lemma {:induction false} ItemsSame(s: bytes, t: bytes, q: nat, e: Error, i: nat, constant: bool, room: nat)
    requires Alike(s, t, q, e) && On(s, i, q)
    ensures i <= |t| && Same(D.ParseItems(s, i, constant, room), D.ParseItems(t, i, constant, room), q, e)
    decreases |s| - i, 4
  {
    hide *;
    hide Same;
    Brackets();
    Skips(s, t, q, e, i);
    var j := Skip(s, i);
    Puncts(s, t, q, e, j, RBRACKET);
    ItemsAre(s, i, constant, room);
    ItemsAre(t, i, constant, room);
    var x, y := D.ParseItems(s, i, constant, room), D.ParseItems(t, i, constant, room);
    if s[j] == RBRACKET {
      SameIs(x, y, q, e);
    } else {
      ValueSame(s, t, q, e, j, constant, room);
      var v := D.ParseValue(s, j, constant, room);
      Step(v, D.ParseValue(t, j, constant, room), x, y, q, e);
      if v.Ok? && v.next <= q {
        ValueOn(s, j, constant, room, q);
        ItemsSame(s, t, q, e, v.next, constant, room);
        Last(D.ParseItems(s, v.next, constant, room), D.ParseItems(t, v.next, constant, room), x, y, q, e);
      }
    }
  }

  lemma {:induction false} ObjectSame(s: bytes, t: bytes, q: nat, e: Error, i: nat, constant: bool, room: nat)
    requires Alike(s, t, q, e) && On(s, i, q) && Skip(s, i) == i && i < |s| && s[i] == LBRACE
    ensures i <= |t| && Same(D.ParseValue(s, i, constant, room), D.ParseValue(t, i, constant, room), q, e)
    decreases |s| - i, 0
  {
    hide *;
    Brackets();
    Bounds(s, t, q, e, i);
    if i == q {
      ListBeyond(s, i, constant, room);
      Beyond(D.ParseValue(s, i, constant, room), D.ParseValue(t, i, constant, room), q, e);
    } else {
      Puncts(s, t, q, e, i, LBRACE);
      Skips(s, t, q, e, i + 1);
      var j := Skip(s, i + 1);
      Puncts(s, t, q, e, j, RBRACE);
      L.ObjectIs(s, i, constant, room);
      L.ObjectIs(t, i, constant, room);
      if s[j] == RBRACE {
        SameIs(D.ParseValue(s, i, constant, room), D.ParseValue(t, i, constant, room), q, e);
      } else {
        var less := if room == 0 then 0 else room - 1;
        ObjectRestSame(s, t, q, e, j, constant, less);
        WithinSame(room, j, L.ObjectRest(s, j, constant, less), L.ObjectRest(t, j, constant, less), q, e);
      }
    }
  }

  lemma FieldOn(s: bytes, i: nat, constant: bool, room: nat, q: nat)
    requires q < |s| && On(s, i, q) && i <= |s| && D.ParseField(s, i, constant, room).Ok? && D.ParseField(s, i, constant, room).next <= q
    ensures On(s, D.ParseField(s, i, constant, room).next, q)
  {
    hide *;
    FieldSound(s, i, constant, room);
    OnAfter(s, i, FieldTokens(D.ParseField(s, i, constant, room).v), D.ParseField(s, i, constant, room).next, q);
  }

  lemma ObjectRestIs(s: bytes, i: nat, constant: bool, room: nat)
    requires i <= |s|
    ensures var r, v := L.ObjectRest(s, i, constant, room), D.ParseField(s, i, constant, room);
            if v.Err? then r == Err(v.e, v.pos)
            else
              var vs := D.ParseFields(s, v.next, constant, room);
              r == if vs.Err? then Err(vs.e, vs.pos) else Ok(ObjectValue([v.v] + vs.v), vs.next)
  {
    hide D.ParseField, D.ParseFields;
  }

  lemma {:induction false} ObjectRestSame(s: bytes, t: bytes, q: nat, e: Error, i: nat, constant: bool, room: nat)
    requires Alike(s, t, q, e) && On(s, i, q) && Skip(s, i) == i
    ensures i <= |t| && Same(L.ObjectRest(s, i, constant, room), L.ObjectRest(t, i, constant, room), q, e)
    decreases |s| - i, 3
  {
    hide *;
    hide Same;
    Bounds(s, t, q, e, i);
    ObjectRestIs(s, i, constant, room);
    ObjectRestIs(t, i, constant, room);
    FieldSame(s, t, q, e, i, constant, room);
    var x, y := L.ObjectRest(s, i, constant, room), L.ObjectRest(t, i, constant, room);
    var v := D.ParseField(s, i, constant, room);
    Step(v, D.ParseField(t, i, constant, room), x, y, q, e);
    if v.Ok? && v.next <= q {
      FieldOn(s, i, constant, room, q);
      FieldsSame(s, t, q, e, v.next, constant, room);
      Last(D.ParseFields(s, v.next, constant, room), D.ParseFields(t, v.next, constant, room), x, y, q, e);
    }
  }

  lemma FieldsAre(s: bytes, i: nat, constant: bool, room: nat)
    requires i <= |s|
    ensures var r, j := D.ParseFields(s, i, constant, room), Skip(s, i);
            if j == |s| then r == Err(UnexpectedEOF, j)
            else if s[j] == RBRACE then r == Ok([], j + 1)
            else
              var v := D.ParseField(s, j, constant, room);
              if v.Err? then r == Err(v.e, v.pos)
              else
                var vs := D.ParseFields(s, v.next, constant, room);
                r == if vs.Err? then Err(vs.e, vs.pos) else Ok([v.v] + vs.v, vs.next)
  {
    hide D.ParseField, Skip;
  }

  lemma {:induction false} FieldsSame(s: bytes, t: bytes, q: nat, e: Error, i: nat, constant: bool, room: nat)
    requires Alike(s, t, q, e) && On(s, i, q)
    ensures i <= |t| && Same(D.ParseFields(s, i, constant, room), D.ParseFields(t, i, constant, room), q, e)
    decreases |s| - i, 4
  {
    hide *;
    hide Same;
    Brackets();
    Skips(s, t, q, e, i);
    var j := Skip(s, i);
    Puncts(s, t, q, e, j, RBRACE);
    FieldsAre(s, i, constant, room);
    FieldsAre(t, i, constant, room);
    var x, y := D.ParseFields(s, i, constant, room), D.ParseFields(t, i, constant, room);
    if s[j] == RBRACE {
      SameIs(x, y, q, e);
    } else {
      FieldSame(s, t, q, e, j, constant, room);
      var v := D.ParseField(s, j, constant, room);
      Step(v, D.ParseField(t, j, constant, room), x, y, q, e);
      if v.Ok? && v.next <= q {
        FieldOn(s, j, constant, room, q);
        FieldsSame(s, t, q, e, v.next, constant, room);
        Last(D.ParseFields(s, v.next, constant, room), D.ParseFields(t, v.next, constant, room), x, y, q, e);
      }
    }
  }

  lemma FieldIs(s: bytes, i: nat, constant: bool, room: nat)
    requires i <= |s|
    ensures var r, n := D.ParseField(s, i, constant, room), D.Name(s, i);
            if n.Err? then r == Err(n.e, n.pos)
            else
              var c := D.Expect(s, Skip(s, n.next), COLON);
              if c.Err? then r == Err(c.e, c.pos)
              else
                var v := D.ParseValue(s, Skip(s, c.next), constant, room);
                r == if v.Err? then Err(v.e, v.pos) else Ok(ObjectField(n.v, v.v), v.next)
  {
    hide D.ParseValue, D.Name, D.Expect, Skip;
  }

  /** A name, a colon and a value. */
  lemma {:induction false} FieldSame(s: bytes, t: bytes, q: nat, e: Error, i: nat, constant: bool, room: nat)
    requires Alike(s, t, q, e) && On(s, i, q) && Skip(s, i) == i
    ensures i <= |t| && Same(D.ParseField(s, i, constant, room), D.ParseField(t, i, constant, room), q, e)
    decreases |s| - i, 2
  {
    hide *;
    hide Same;
    Brackets();
    Bounds(s, t, q, e, i);
    FieldIs(s, i, constant, room);
    FieldIs(t, i, constant, room);
    var x, y := D.ParseField(s, i, constant, room), D.ParseField(t, i, constant, room);
    Names(s, t, q, e, i);
    var n := D.Name(s, i);
    SameIs(n, D.Name(t, i), q, e);
    Step(n, D.Name(t, i), x, y, q, e);
    if n.Ok? && n.next <= q {
      Skips(s, t, q, e, n.next);
      var j := Skip(s, n.next);
      Expects(s, t, q, e, j, COLON);
      var c := D.Expect(s, j, COLON);
      Step(c, D.Expect(t, j, COLON), x, y, q, e);
      if c.Ok? && c.next <= q {
        Skips(s, t, q, e, c.next);
        var k := Skip(s, c.next);
        ValueSame(s, t, q, e, k, constant, room);
        Last(D.ParseValue(s, k, constant, room), D.ParseValue(t, k, constant, room), x, y, q, e);
      }
    }
  }

  // ----- Arguments and directives

  lemma ArgumentOn(s: bytes, i: nat, constant: bool, limit: nat, q: nat)
    requires q < |s| && On(s, i, q) && i <= |s| && D.ParseArgument(s, i, constant, limit).Ok? && D.ParseArgument(s, i, constant, limit).next <= q
    ensures On(s, D.ParseArgument(s, i, constant, limit).next, q)
  {
    hide *;
    ArgumentSound(s, i, constant, limit);
    OnAfter(s, i, ArgumentTokens(D.ParseArgument(s, i, constant, limit).v), D.ParseArgument(s, i, constant, limit).next, q);
  }

  lemma ArgumentSame(s: bytes, t: bytes, q: nat, e: Error, i: nat, constant: bool, limit: nat)
    requires Alike(s, t, q, e) && On(s, i, q) && Skip(s, i) == i
    ensures i <= |t| && Same(D.ParseArgument(s, i, constant, limit), D.ParseArgument(t, i, constant, limit), q, e)
  {
    hide *;
    hide Same;
    Bounds(s, t, q, e, i);
    FieldSame(s, t, q, e, i, constant, limit);
    F.ArgumentIs(s, i, constant, limit);
    F.ArgumentIs(t, i, constant, limit);
    Last(D.ParseField(s, i, constant, limit), D.ParseField(t, i, constant, limit),
         D.ParseArgument(s, i, constant, limit), D.ParseArgument(t, i, constant, limit), q, e);
  }

  lemma ArgumentsAre(s: bytes, i: nat, constant: bool, limit: nat)
    requires i <= |s|
    ensures var r, v := D.ParseArguments(s, i, constant, limit), D.ParseArgument(s, i, constant, limit);
            if v.Err? then r == Err(v.e, v.pos)
            else
              var vs := D.ArgumentsRest(s, v.next, constant, limit);
              r == if vs.Err? then Err(vs.e, vs.pos) else Ok([v.v] + vs.v, vs.next)
  {
    hide D.ParseArgument, D.ArgumentsRest;
  }

  lemma {:induction false} ArgumentsSame(s: bytes, t: bytes, q: nat, e: Error, i: nat, constant: bool, limit: nat)
    requires Alike(s, t, q, e) && On(s, i, q) && Skip(s, i) == i
    ensures i <= |t| && Same(D.ParseArguments(s, i, constant, limit), D.ParseArguments(t, i, constant, limit), q, e)
    decreases |s| - i, 1
  {
    hide *;
    hide Same;
    Bounds(s, t, q, e, i);
    ArgumentsAre(s, i, constant, limit);
    ArgumentsAre(t, i, constant, limit);
    ArgumentSame(s, t, q, e, i, constant, limit);
    var x, y := D.ParseArguments(s, i, constant, limit), D.ParseArguments(t, i, constant, limit);
    var v := D.ParseArgument(s, i, constant, limit);
    Step(v, D.ParseArgument(t, i, constant, limit), x, y, q, e);
    if v.Ok? && v.next <= q {
      ArgumentOn(s, i, constant, limit, q);
      ArgumentsRestSame(s, t, q, e, v.next, constant, limit);
      Last(D.ArgumentsRest(s, v.next, constant, limit), D.ArgumentsRest(t, v.next, constant, limit), x, y, q, e);
    }
  }

  lemma ArgumentsRestIs(s: bytes, i: nat, constant: bool, limit: nat)
    requires i <= |s|
    ensures var r, j := D.ArgumentsRest(s, i, constant, limit), Skip(s, i);
            r == if j == |s| then Err(UnexpectedEOF, j) else if s[j] == RPAREN then Ok([], j + 1) else D.ParseArguments(s, j, constant, limit)
  {
    hide D.ParseArguments, Skip;
  }

  lemma {:induction false} ArgumentsRestSame(s: bytes, t: bytes, q: nat, e: Error, i: nat, constant: bool, limit: nat)
    requires Alike(s, t, q, e) && On(s, i, q)
    ensures i <= |t| && Same(D.ArgumentsRest(s, i, constant, limit), D.ArgumentsRest(t, i, constant, limit), q, e)
    decreases |s| - i, 2
  {
    hide *;
    hide Same;
    Brackets();
    Skips(s, t, q, e, i);
    var j := Skip(s, i);
    Puncts(s, t, q, e, j, RPAREN);
    ArgumentsRestIs(s, i, constant, limit);
    ArgumentsRestIs(t, i, constant, limit);
    if s[j] == RPAREN {
      SameIs(D.ArgumentsRest(s, i, constant, limit), D.ArgumentsRest(t, i, constant, limit), q, e);
    } else {
      ArgumentsSame(s, t, q, e, j, constant, limit);
    }
  }

  lemma {:induction false} DirectivesSame(s: bytes, t: bytes, q: nat, e: Error, i: nat, constant: bool, limit: nat)
    requires Alike(s, t, q, e) && On(s, i, q) && Skip(s, i) == i
    ensures i <= |t| && Same(D.ParseDirectives(s, i, constant, limit), D.ParseDirectives(t, i, constant, limit), q, e)
    decreases |s| - i, 1
  {
    hide *;
    hide Same;
    Brackets();
    Bounds(s, t, q, e, i);
    Puncts(s, t, q, e, i, AT);
    var x, y := D.ParseDirectives(s, i, constant, limit), D.ParseDirectives(t, i, constant, limit);
    if s[i] != AT {
      NoDirectives(s, i, constant, limit);
      NoDirectives(t, i, constant, limit);
      SameIs(x, y, q, e);
    } else if i == q {
      DirectiveBeyond(s, i, constant, limit);
      Beyond(x, y, q, e);
    } else {
      L.DirectivesAre(s, i, constant, limit);
      L.DirectivesAre(t, i, constant, limit);
      Skips(s, t, q, e, i + 1);
      var j := Skip(s, i + 1);
      Names(s, t, q, e, j);
      var n := D.Name(s, j);
      SameIs(n, D.Name(t, j), q, e);
      Step(n, D.Name(t, j), x, y, q, e);
      if n.Ok? && n.next <= q {
        Skips(s, t, q, e, n.next);
        DirectiveRestSame(s, t, q, e, Skip(s, n.next), n.v, constant, limit);
      }
    }
  }

  lemma NoDirectives(s: bytes, i: nat, constant: bool, limit: nat)
    requires i < |s| && s[i] != AT
    ensures D.ParseDirectives(s, i, constant, limit) == Ok([], i)
  {
  }

  lemma DirectiveBeyond(s: bytes, i: nat, constant: bool, limit: nat)
    requires i < |s| && s[i] == AT
    ensures var r := D.ParseDirectives(s, i, constant, limit);
            (r.Ok? ==> r.next > i) && (r.Err? ==> r.pos > i)
  {
    hide D.ParseArguments, D.Name, Skip;
  }

  /** After arguments in parentheses. */
  lemma ParenthesesOn(s: bytes, k: nat, constant: bool, limit: nat, q: nat)
    requires q < |s| && On(s, k, q) && k < |s| && s[k] == LPAREN
    requires var r := D.ParseArguments(s, Skip(s, k + 1), constant, limit); r.Ok? && r.next <= q
    ensures On(s, D.ParseArguments(s, Skip(s, k + 1), constant, limit).next, q)
  {
    hide *;
    var r := D.ParseArguments(s, Skip(s, k + 1), constant, limit);
    ArgumentsInParentheses(s, k, constant, limit);
    OnAfter(s, k, ArgumentsTokens(r.v), r.next, q);
  }

  lemma DirectivesOn(s: bytes, i: nat, constant: bool, limit: nat, q: nat)
    requires q < |s| && On(s, i, q) && i <= |s|
    requires var r := D.ParseDirectives(s, i, constant, limit); r.Ok? && r.next <= q
    ensures On(s, D.ParseDirectives(s, i, constant, limit).next, q)
  {
    hide *;
    DirectivesSound(s, i, constant, limit);
    OnAfter(s, i, DirectivesTokens(D.ParseDirectives(s, i, constant, limit).v), D.ParseDirectives(s, i, constant, limit).next, q);
  }

  lemma DirectiveRestIs(s: bytes, k: nat, n: bytes, constant: bool, limit: nat)
    requires k < |s|
    ensures var r := L.DirectiveRest(s, k, n, constant, limit);
            if s[k] != LPAREN then
              var ds := D.ParseDirectives(s, k, constant, limit);
              r == if ds.Err? then Err(ds.e, ds.pos) else Ok([Directive(n, [])] + ds.v, ds.next)
            else
              var xs := D.ParseArguments(s, Skip(s, k + 1), constant, limit);
              if xs.Err? then r == Err(xs.e, xs.pos)
              else
                var ds := D.ParseDirectives(s, Skip(s, xs.next), constant, limit);
                r == if ds.Err? then Err(ds.e, ds.pos) else Ok([Directive(n, xs.v)] + ds.v, ds.next)
  {
    hide D.ParseArguments, D.ParseDirectives, Skip;
  }

  lemma {:induction false} DirectiveRestSame(s: bytes, t: bytes, q: nat, e: Error, k: nat, n: bytes, constant: bool, limit: nat)
    requires Alike(s, t, q, e) && On(s, k, q) && Skip(s, k) == k && k < |s|
    ensures k < |t| && Same(L.DirectiveRest(s, k, n, constant, limit), L.DirectiveRest(t, k, n, constant, limit), q, e)
    decreases |s| - k, 2
  {
    hide *;
    hide Same;
    Brackets();
    Bounds(s, t, q, e, k);
    Puncts(s, t, q, e, k, LPAREN);
    DirectiveRestIs(s, k, n, constant, limit);
    DirectiveRestIs(t, k, n, constant, limit);
    var x, y := L.DirectiveRest(s, k, n, constant, limit), L.DirectiveRest(t, k, n, constant, limit);
    if s[k] != LPAREN {
      DirectivesSame(s, t, q, e, k, constant, limit);
      Last(D.ParseDirectives(s, k, constant, limit), D.ParseDirectives(t, k, constant, limit), x, y, q, e);
    } else if k < q {
      Skips(s, t, q, e, k + 1);
      ArgumentsSame(s, t, q, e, Skip(s, k + 1), constant, limit);
      var xs := D.ParseArguments(s, Skip(s, k + 1), constant, limit);
      var ys := D.ParseArguments(t, Skip(s, k + 1), constant, limit);
      Step(xs, ys, x, y, q, e);
      if xs.Ok? && xs.next <= q {
        ParenthesesOn(s, k, constant, limit, q);
        Skips(s, t, q, e, xs.next);
        DirectivesSame(s, t, q, e, Skip(s, xs.next), constant, limit);
        Last(D.ParseDirectives(s, Skip(s, xs.next), constant, limit), D.ParseDirectives(t, Skip(s, xs.next), constant, limit), x, y, q, e);
      }
    } else {
      Beyond(x, y, q, e);
    }
  }

  // ----- Types and variable definitions

  lemma TypeOn(s: bytes, i: nat, q: nat)
    requires q < |s| && On(s, i, q) && i <= |s| && D.ParseType(s, i).Ok? && D.ParseType(s, i).next <= q
    ensures On(s, D.ParseType(s, i).next, q)
  {
    hide *;
    TypeSound(s, i);
    OnAfter(s, i, TypeTokens(D.ParseType(s, i).v), D.ParseType(s, i).next, q);
  }

  /** A list type up to its closing bracket, or a named type. */
  function BareType(s: bytes, i: nat): (r: R<Type>)
    requires i <= |s|
    ensures r.Ok? ==> i < r.next <= |s|
    ensures r.Err? ==> i <= r.pos <= |s|
  {
    if i < |s| && s[i] == LBRACKET then
      var (t, j) :- D.ParseType(s, Skip(s, i + 1));
      var (_, k) :- D.Expect(s, Skip(s, j), RBRACKET);
      Ok(ListType(t), k)
    else
      var (n, j) :- D.Name(s, i);
      Ok(Named(n), j)
  }

  lemma BareTypeIs(s: bytes, i: nat)
    requires i <= |s|
    ensures var r := BareType(s, i);
            if i < |s| && s[i] == LBRACKET then
              var u := D.ParseType(s, Skip(s, i + 1));
              if u.Err? then r == Err(u.e, u.pos)
              else
                var c := D.Expect(s, Skip(s, u.next), RBRACKET);
                r == if c.Err? then Err(c.e, c.pos) else Ok(ListType(u.v), c.next)
            else
              var n := D.Name(s, i);
              r == if n.Err? then Err(n.e, n.pos) else Ok(Named(n.v), n.next)
  {
    hide D.ParseType, D.Expect, D.Name, Skip;
  }

  lemma TypeIs(s: bytes, i: nat)
    requires i <= |s|
    ensures var r, b := D.ParseType(s, i), BareType(s, i);
            r == if b.Err? then Err(b.e, b.pos) else Ok(D.Banged(s, b.next, b.v), D.BangEnd(s, b.next))
  {
    hide D.Expect, D.Name, Skip, D.Banged, D.BangEnd;
  }

  lemma BangIs(s: bytes, i: nat, t: Type)
    requires i <= |s|
    ensures var j := Skip(s, i);
            if j < |s| && s[j] == BANG then D.Banged(s, i, t) == NonNull(t) && D.BangEnd(s, i) == j + 1
            else D.Banged(s, i, t) == t && D.BangEnd(s, i) == i
  {
    hide Skip;
  }

  lemma {:induction false} BareTypeSame(s: bytes, t: bytes, q: nat, e: Error, i: nat)
    requires Alike(s, t, q, e) && On(s, i, q) && Skip(s, i) == i
    ensures i <= |t| && Same(BareType(s, i), BareType(t, i), q, e)
    ensures BareType(s, i).Ok? && BareType(s, i).next <= q ==> On(s, BareType(s, i).next, q)
    decreases |s| - i, 0
  {
    hide *;
    hide Same;
    Brackets();
    Bounds(s, t, q, e, i);
    Puncts(s, t, q, e, i, LBRACKET);
    BareTypeIs(s, i);
    BareTypeIs(t, i);
    var x, y := BareType(s, i), BareType(t, i);
    if s[i] != LBRACKET {
      Names(s, t, q, e, i);
      SameIs(D.Name(s, i), D.Name(t, i), q, e);
      Last(D.Name(s, i), D.Name(t, i), x, y, q, e);
    } else if i == q {
      Beyond(x, y, q, e);
    } else {
      Skips(s, t, q, e, i + 1);
      var j := Skip(s, i + 1);
      TypeSame(s, t, q, e, j);
      var u := D.ParseType(s, j);
      Step(u, D.ParseType(t, j), x, y, q, e);
      if u.Ok? && u.next <= q {
        TypeOn(s, j, q);
        Skips(s, t, q, e, u.next);
        var k := Skip(s, u.next);
        Expects(s, t, q, e, k, RBRACKET);
        Last(D.Expect(s, k, RBRACKET), D.Expect(t, k, RBRACKET), x, y, q, e);
      }
    }
  }

  lemma {:induction false} TypeSame(s: bytes, t: bytes, q: nat, e: Error, i: nat)
    requires Alike(s, t, q, e) && On(s, i, q) && Skip(s, i) == i
    ensures i <= |t| && Same(D.ParseType(s, i), D.ParseType(t, i), q, e)
    decreases |s| - i, 1
  {
    hide *;
    hide Same;
    Brackets();
    BareTypeSame(s, t, q, e, i);
    Bounds(s, t, q, e, i);
    TypeIs(s, i);
    TypeIs(t, i);
    var x, y := D.ParseType(s, i), D.ParseType(t, i);
    var b := BareType(s, i);
    Step(b, BareType(t, i), x, y, q, e);
    if b.Ok? && b.next <= q {
      Skips(s, t, q, e, b.next);
      var j := Skip(s, b.next);
      Puncts(s, t, q, e, j, BANG);
      BangIs(s, b.next, b.v);
      BangIs(t, b.next, b.v);
      if s[j] == BANG && j == q {
        Beyond(x, y, q, e);
      } else {
        SameIs(x, y, q, e);
      }
    }
  }

  lemma DescriptionIs(s: bytes, i: nat)
    requires i < |s|
    ensures var r := D.Description(s, i);
            if s[i] != QUOTE then r == Ok(None, i)
            else
              var d := D.StringToken(s, i);
              if d.Err? then r == Err(d.e, d.pos)
              else
                var k := Skip(s, d.next);
                r == if k == |s| then Err(UnexpectedEOF, k) else Ok(Some(d.v), k)
  {
    hide D.StringToken, Skip;
  }

  lemma DescriptionSame(s: bytes, t: bytes, q: nat, e: Error, i: nat)
    requires Alike(s, t, q, e) && On(s, i, q) && Skip(s, i) == i && i < |s|
    ensures i < |t| && Same(D.Description(s, i), D.Description(t, i), q, e)
    ensures var r := D.Description(s, i);
            r.Ok? && r.next <= q ==> On(s, r.next, q) && Skip(s, r.next) == r.next
  {
    hide *;
    hide Same;
    Bounds(s, t, q, e, i);
    DescriptionIs(s, i);
    DescriptionIs(t, i);
    QuoteSame(s, t, q, e, i);
    var x, y := D.Description(s, i), D.Description(t, i);
    if s[i] != QUOTE {
      SameIs(x, y, q, e);
    } else if i == q {
      LiteralErrors(s, i);
      Beyond(x, y, q, e);
    } else {
      Literals(s, t, q, e, i);
      Skips(s, t, q, e, D.StringToken(s, i).next);
      SameIs(x, y, q, e);
    }
  }

  lemma QuoteSame(s: bytes, t: bytes, q: nat, e: Error, i: nat)
    requires Alike(s, t, q, e) && On(s, i, q)
    ensures i < |s| && i < |t| && (s[i] == QUOTE <==> t[i] == QUOTE)
  {
    hide D.Name, HasPrefixAt, Skip;
  }

  lemma DefaultIs(s: bytes, i: nat, limit: nat)
    requires i <= |s|
    ensures var r, j := D.ParseDefault(s, i, limit), Skip(s, i);
            if j == |s| then r == Err(UnexpectedEOF, j)
            else if s[j] != EQUALS then r == Ok(None, j)
            else
              var v := D.ParseValue(s, Skip(s, j + 1), true, limit);
              r == if v.Err? then Err(v.e, v.pos) else Ok(Some(v.v), Skip(s, v.next))
  {
    hide D.ParseValue, Skip;
  }

  lemma DefaultSame(s: bytes, t: bytes, q: nat, e: Error, i: nat, limit: nat)
    requires Alike(s, t, q, e) && On(s, i, q)
    ensures i <= |t| && Same(D.ParseDefault(s, i, limit), D.ParseDefault(t, i, limit), q, e)
    ensures var r := D.ParseDefault(s, i, limit);
            r.Ok? && r.next <= q ==> On(s, r.next, q) && Skip(s, r.next) == r.next
  {
    hide *;
    hide Same;
    Brackets();
    Skips(s, t, q, e, i);
    var j := Skip(s, i);
    Puncts(s, t, q, e, j, EQUALS);
    DefaultIs(s, i, limit);
    DefaultIs(t, i, limit);
    var x, y := D.ParseDefault(s, i, limit), D.ParseDefault(t, i, limit);
    if s[j] != EQUALS {
      SameIs(x, y, q, e);
    } else if j == q {
      Beyond(x, y, q, e);
    } else {
      Skips(s, t, q, e, j + 1);
      var k := Skip(s, j + 1);
      ValueSame(s, t, q, e, k, true, limit);
      var v := D.ParseValue(s, k, true, limit);
      Step(v, D.ParseValue(t, k, true, limit), x, y, q, e);
      if v.Ok? && v.next <= q {
        ValueOn(s, k, true, limit, q);
        Skips(s, t, q, e, v.next);
        SameIs(x, y, q, e);
      }
    }
  }

  /** From the type of a variable definition on. */
  function Typed(s: bytes, i: nat, limit: nat): (r: R<(Type, Option<Value>, seq<Directive>)>)
    requires i <= |s|
    ensures r.Ok? ==> i < r.next <= |s|
    ensures r.Err? ==> i <= r.pos <= |s|
  {
    var (t, j) :- D.ParseType(s, i);
    var (v, k) :- D.ParseDefault(s, j, limit);
    var (ds, m) :- D.ParseDirectives(s, k, true, limit);
    Ok((t, v, ds), m)
  }

  lemma TypedIs(s: bytes, i: nat, limit: nat)
    requires i <= |s|
    ensures var r, t := Typed(s, i, limit), D.ParseType(s, i);
            if t.Err? then r == Err(t.e, t.pos)
            else
              var v := D.ParseDefault(s, t.next, limit);
              if v.Err? then r == Err(v.e, v.pos)
              else
                var ds := D.ParseDirectives(s, v.next, true, limit);
                r == if ds.Err? then Err(ds.e, ds.pos) else Ok((t.v, v.v, ds.v), ds.next)
  {
    hide D.ParseType, D.ParseDefault, D.ParseDirectives;
  }

  lemma TypedSame(s: bytes, t: bytes, q: nat, e: Error, i: nat, limit: nat)
    requires Alike(s, t, q, e) && On(s, i, q) && Skip(s, i) == i
    ensures i <= |t| && Same(Typed(s, i, limit), Typed(t, i, limit), q, e)
  {
    hide *;
    hide Same;
    TypedIs(s, i, limit);
    TypeSame(s, t, q, e, i);
    Bounds(s, t, q, e, i);
    TypedIs(t, i, limit);
    var x, y := Typed(s, i, limit), Typed(t, i, limit);
    var u := D.ParseType(s, i);
    Step(u, D.ParseType(t, i), x, y, q, e);
    if u.Ok? && u.next <= q {
      TypeOn(s, i, q);
      DefaultSame(s, t, q, e, u.next, limit);
      var v := D.ParseDefault(s, u.next, limit);
      Step(v, D.ParseDefault(t, u.next, limit), x, y, q, e);
      if v.Ok? && v.next <= q {
        DirectivesSame(s, t, q, e, v.next, true, limit);
        Last(D.ParseDirectives(s, v.next, true, limit), D.ParseDirectives(t, v.next, true, limit), x, y, q, e);
      }
    }
  }

  lemma VariableIs(s: bytes, i: nat, limit: nat)
    requires i < |s|
    ensures var r, d := D.ParseVariable(s, i, limit), D.Description(s, i);
            if d.Err? then r == Err(d.e, d.pos)
            else
              var a := D.Expect(s, d.next, DOLLAR);
              if a.Err? then r == Err(a.e, a.pos)
              else
                var n := D.Name(s, Skip(s, a.next));
                if n.Err? then r == Err(n.e, n.pos)
                else
                  var c := D.Expect(s, Skip(s, n.next), COLON);
                  if c.Err? then r == Err(c.e, c.pos)
                  else
                    var b := Typed(s, Skip(s, c.next), limit);
                    r == if b.Err? then Err(b.e, b.pos) else Ok(VariableDefinition(d.v, n.v, b.v.0, b.v.1, b.v.2), b.next)
  {
    hide D.Description, Skip, D.Name, D.Expect, D.ParseType, D.ParseDefault, D.ParseDirectives;
  }

  lemma VariableSame(s: bytes, t: bytes, q: nat, e: Error, i: nat, limit: nat)
    requires Alike(s, t, q, e) && On(s, i, q) && Skip(s, i) == i && i < |s|
    ensures i < |t| && Same(D.ParseVariable(s, i, limit), D.ParseVariable(t, i, limit), q, e)
  {
    hide *;
    hide Same;
    Brackets();
    DescriptionSame(s, t, q, e, i);
    VariableIs(s, i, limit);
    VariableIs(t, i, limit);
    var x, y := D.ParseVariable(s, i, limit), D.ParseVariable(t, i, limit);
    var d := D.Description(s, i);
    Step(d, D.Description(t, i), x, y, q, e);
    if d.Ok? && d.next <= q {
      Expects(s, t, q, e, d.next, DOLLAR);
      var a := D.Expect(s, d.next, DOLLAR);
      Step(a, D.Expect(t, d.next, DOLLAR), x, y, q, e);
      if a.Ok? && a.next <= q {
        Skips(s, t, q, e, a.next);
        var j := Skip(s, a.next);
        Names(s, t, q, e, j);
        var n := D.Name(s, j);
        SameIs(n, D.Name(t, j), q, e);
        Step(n, D.Name(t, j), x, y, q, e);
        if n.Ok? && n.next <= q {
          Skips(s, t, q, e, n.next);
          var k := Skip(s, n.next);
          Expects(s, t, q, e, k, COLON);
          var c := D.Expect(s, k, COLON);
          Step(c, D.Expect(t, k, COLON), x, y, q, e);
          if c.Ok? && c.next <= q {
            Skips(s, t, q, e, c.next);
            var m := Skip(s, c.next);
            TypedSame(s, t, q, e, m, limit);
            Last(Typed(s, m, limit), Typed(t, m, limit), x, y, q, e);
          }
        }
      }
    }
  }

  lemma VariableOn(s: bytes, i: nat, limit: nat, q: nat)
    requires q < |s| && On(s, i, q) && i < |s| && D.ParseVariable(s, i, limit).Ok? && D.ParseVariable(s, i, limit).next <= q
    ensures On(s, D.ParseVariable(s, i, limit).next, q)
  {
    hide *;
    VariableSound(s, i, limit);
    OnAfter(s, i, VariableTokens(D.ParseVariable(s, i, limit).v), D.ParseVariable(s, i, limit).next, q);
  }

  lemma VariablesAre(s: bytes, i: nat, limit: nat)
    requires i < |s|
    ensures var r, v := D.ParseVariables(s, i, limit), D.ParseVariable(s, i, limit);
            if v.Err? then r == Err(v.e, v.pos)
            else
              var vs := D.VariablesRest(s, v.next, limit);
              r == if vs.Err? then Err(vs.e, vs.pos) else Ok([v.v] + vs.v, vs.next)
  {
    hide D.ParseVariable, D.VariablesRest;
  }

  lemma {:induction false} VariablesSame(s: bytes, t: bytes, q: nat, e: Error, i: nat, limit: nat)
    requires Alike(s, t, q, e) && On(s, i, q) && Skip(s, i) == i && i < |s|
    ensures i < |t| && Same(D.ParseVariables(s, i, limit), D.ParseVariables(t, i, limit), q, e)
    decreases |s| - i, 1
  {
    hide *;
    hide Same;
    Bounds(s, t, q, e, i);
    VariablesAre(s, i, limit);
    VariablesAre(t, i, limit);
    VariableSame(s, t, q, e, i, limit);
    var x, y := D.ParseVariables(s, i, limit), D.ParseVariables(t, i, limit);
    var v := D.ParseVariable(s, i, limit);
    Step(v, D.ParseVariable(t, i, limit), x, y, q, e);
    if v.Ok? && v.next <= q {
      VariableOn(s, i, limit, q);
      VariablesRestSame(s, t, q, e, v.next, limit);
      Last(D.VariablesRest(s, v.next, limit), D.VariablesRest(t, v.next, limit), x, y, q, e);
    }
  }

  lemma VariablesRestIs(s: bytes, i: nat, limit: nat)
    requires i <= |s|
    ensures var r, j := D.VariablesRest(s, i, limit), Skip(s, i);
            r == if j == |s| then Err(UnexpectedEOF, j) else if s[j] == RPAREN then Ok([], j + 1) else D.ParseVariables(s, j, limit)
  {
    hide D.ParseVariables, Skip;
  }

  lemma {:induction false} VariablesRestSame(s: bytes, t: bytes, q: nat, e: Error, i: nat, limit: nat)
    requires Alike(s, t, q, e) && On(s, i, q)
    ensures i <= |t| && Same(D.VariablesRest(s, i, limit), D.VariablesRest(t, i, limit), q, e)
    decreases |s| - i, 2
  {
    hide *;
    hide Same;
    Brackets();
    Skips(s, t, q, e, i);
    var j := Skip(s, i);
    Puncts(s, t, q, e, j, RPAREN);
    VariablesRestIs(s, i, limit);
    VariablesRestIs(t, i, limit);
    if s[j] == RPAREN {
      SameIs(D.VariablesRest(s, i, limit), D.VariablesRest(t, i, limit), q, e);
    } else {
      VariablesSame(s, t, q, e, j, limit);
    }
  }

  // ----- Selections

  lemma SelectionOn(s: bytes, i: nat, depth: nat, limit: nat, q: nat)
    requires q < |s| && On(s, i, q) && i <= |s| && D.ParseSelection(s, i, depth, limit).Ok? && D.ParseSelection(s, i, depth, limit).next <= q
    ensures On(s, D.ParseSelection(s, i, depth, limit).next, q)
  {
    hide *;
    SelectionSound(s, i, depth, limit);
    OnAfter(s, i, SelectionTokens(D.ParseSelection(s, i, depth, limit).v), D.ParseSelection(s, i, depth, limit).next, q);
  }

  lemma SelectionSetOn(s: bytes, i: nat, depth: nat, limit: nat, q: nat)
    requires q < |s| && On(s, i, q) && i <= |s| && D.ParseSelectionSet(s, i, depth, limit).Ok? && D.ParseSelectionSet(s, i, depth, limit).next <= q
    ensures On(s, D.ParseSelectionSet(s, i, depth, limit).next, q)
  {
    hide *;
    SelectionSetSound(s, i, depth, limit);
    OnAfter(s, i, SelectionSetTokens(D.ParseSelectionSet(s, i, depth, limit).v), D.ParseSelectionSet(s, i, depth, limit).next, q);
  }

  lemma {:induction false} SelectionSetSame(s: bytes, t: bytes, q: nat, e: Error, i: nat, depth: nat, limit: nat)
    requires Alike(s, t, q, e) && On(s, i, q) && Skip(s, i) == i
    ensures i <= |t| && Same(D.ParseSelectionSet(s, i, depth, limit), D.ParseSelectionSet(t, i, depth, limit), q, e)
    decreases |s| - i, 1
  {
    hide *;
    hide Same;
    Brackets();
    Bounds(s, t, q, e, i);
    Puncts(s, t, q, e, i, LBRACE);
    F.SelectionSetIs(s, i, depth, limit);
    F.SelectionSetIs(t, i, depth, limit);
    var x, y := D.ParseSelectionSet(s, i, depth, limit), D.ParseSelectionSet(t, i, depth, limit);
    if s[i] != LBRACE {
      SameIs(x, y, q, e);
    } else if i == q {
      Beyond(x, y, q, e);
    } else {
      Skips(s, t, q, e, i + 1);
      var j := Skip(s, i + 1);
      if depth + 1 > limit {
        SameIs(x, y, q, e);
      } else {
        SelectionSame(s, t, q, e, j, depth + 1, limit);
        var v := D.ParseSelection(s, j, depth + 1, limit);
        Step(v, D.ParseSelection(t, j, depth + 1, limit), x, y, q, e);
        if v.Ok? && v.next <= q {
          SelectionOn(s, j, depth + 1, limit, q);
          F.SelectionEnds(s, j, depth + 1, limit);
          SelectionsSame(s, t, q, e, v.next, depth + 1, limit);
          Last(D.SelectionsRest(s, v.next, depth + 1, limit), D.SelectionsRest(t, v.next, depth + 1, limit), x, y, q, e);
        }
      }
    }
  }

  lemma SelectionsAre(s: bytes, i: nat, depth: nat, limit: nat)
    requires i <= |s|
    ensures var r := D.SelectionsRest(s, i, depth, limit);
            if i == |s| then r == Err(UnexpectedEOF, i)
            else if s[i] == RBRACE then r == Ok([], i + 1)
            else
              var v := D.ParseSelection(s, i, depth, limit);
              if v.Err? then r == Err(v.e, v.pos)
              else
                var vs := D.SelectionsRest(s, v.next, depth, limit);
                r == if vs.Err? then Err(vs.e, vs.pos) else Ok([v.v] + vs.v, vs.next)
  {
    hide D.ParseSelection;
  }

  lemma {:induction false} SelectionsSame(s: bytes, t: bytes, q: nat, e: Error, i: nat, depth: nat, limit: nat)
    requires Alike(s, t, q, e) && On(s, i, q) && Skip(s, i) == i
    ensures i <= |t| && Same(D.SelectionsRest(s, i, depth, limit), D.SelectionsRest(t, i, depth, limit), q, e)
    decreases |s| - i, 5
  {
    hide *;
    hide Same;
    Brackets();
    Bounds(s, t, q, e, i);
    Puncts(s, t, q, e, i, RBRACE);
    SelectionsAre(s, i, depth, limit);
    SelectionsAre(t, i, depth, limit);
    var x, y := D.SelectionsRest(s, i, depth, limit), D.SelectionsRest(t, i, depth, limit);
    if s[i] == RBRACE {
      SameIs(x, y, q, e);
    } else {
      SelectionSame(s, t, q, e, i, depth, limit);
      var v := D.ParseSelection(s, i, depth, limit);
      Step(v, D.ParseSelection(t, i, depth, limit), x, y, q, e);
      if v.Ok? && v.next <= q {
        SelectionOn(s, i, depth, limit, q);
        F.SelectionEnds(s, i, depth, limit);
        SelectionsSame(s, t, q, e, v.next, depth, limit);
        Last(D.SelectionsRest(s, v.next, depth, limit), D.SelectionsRest(t, v.next, depth, limit), x, y, q, e);
      }
    }
  }

  lemma {:induction false} SelectionSame(s: bytes, t: bytes, q: nat, e: Error, i: nat, depth: nat, limit: nat)
    requires Alike(s, t, q, e) && On(s, i, q) && Skip(s, i) == i
    ensures i <= |t| && Same(D.ParseSelection(s, i, depth, limit), D.ParseSelection(t, i, depth, limit), q, e)
    decreases |s| - i, 4
  {
    hide *;
    Ellipses(s, t, q, e, i);
    Bounds(s, t, q, e, i);
    if HasPrefixAt(s, i, D.ELLIPSIS) {
      FragmentSame(s, t, q, e, i, depth, limit);
    } else {
      NamedSame(s, t, q, e, i, depth, limit);
    }
  }

  lemma FragmentIs(s: bytes, i: nat, depth: nat, limit: nat)
    requires i <= |s| && HasPrefixAt(s, i, D.ELLIPSIS)
    ensures i + 3 <= |s|
    ensures var r, j := D.ParseSelection(s, i, depth, limit), Skip(s, i + 3);
            if IsKeywordAt(s, j, KW_ON) then
              var n := D.Name(s, Skip(s, j + |KW_ON|));
              r == if n.Err? then Err(n.e, n.pos) else D.ParseInline(s, Skip(s, n.next), Some(n.v), depth, limit)
            else
              var n := D.Name(s, j);
              if n.Err? then r == D.ParseInline(s, j, None, depth, limit)
              else
                var ds := D.ParseDirectives(s, Skip(s, n.next), false, limit);
                r == if ds.Err? then Err(ds.e, ds.pos) else Ok(FragmentSpread(n.v, ds.v), Skip(s, ds.next))
  {
    hide D.ParseDirectives, D.ParseInline, Skip, D.Name, IsKeywordAt;
  }

  lemma {:induction false} FragmentSame(s: bytes, t: bytes, q: nat, e: Error, i: nat, depth: nat, limit: nat)
    requires Alike(s, t, q, e) && On(s, i, q) && Skip(s, i) == i && HasPrefixAt(s, i, D.ELLIPSIS)
    ensures i <= |t| && Same(D.ParseSelection(s, i, depth, limit), D.ParseSelection(t, i, depth, limit), q, e)
    decreases |s| - i, 3
  {
    Keywords();
    hide *;
    hide Same;
    Bounds(s, t, q, e, i);
    Ellipses(s, t, q, e, i);
    FragmentIs(s, i, depth, limit);
    FragmentIs(t, i, depth, limit);
    var x, y := D.ParseSelection(s, i, depth, limit), D.ParseSelection(t, i, depth, limit);
    if i == q {
      Beyond(x, y, q, e);
    } else {
      Skips(s, t, q, e, i + 3);
      var j := Skip(s, i + 3);
      Words(s, t, q, e, j, KW_ON);
      Names(s, t, q, e, j);
      if IsKeywordAt(s, j, KW_ON) {
        if j + |KW_ON| <= q {
          Skips(s, t, q, e, j + |KW_ON|);
          ConditionSame(s, t, q, e, Skip(s, j + |KW_ON|), depth, limit, x, y);
        } else {
          Beyond(x, y, q, e);
        }
      } else if D.Name(s, j).Err? {
        InlineSame(s, t, q, e, j, None, depth, limit);
      } else if D.Name(s, j).next <= q {
        var n := D.Name(s, j);
        Skips(s, t, q, e, n.next);
        var k := Skip(s, n.next);
        DirectivesSame(s, t, q, e, k, false, limit);
        var ds := D.ParseDirectives(s, k, false, limit);
        Step(ds, D.ParseDirectives(t, k, false, limit), x, y, q, e);
        if ds.Ok? && ds.next <= q {
          DirectivesOn(s, k, false, limit, q);
          Skips(s, t, q, e, ds.next);
          SameIs(x, y, q, e);
        }
      } else {
        Beyond(x, y, q, e);
      }
    }
  }

  /** A type condition and what follows it. */
  lemma {:induction false} ConditionSame(s: bytes, t: bytes, q: nat, e: Error, i: nat, depth: nat, limit: nat,
                                         x: R<Selection>, y: R<Selection>)
    requires Alike(s, t, q, e) && On(s, i, q) && Skip(s, i) == i && i <= |t|
    requires var n := D.Name(s, i);
             x == if n.Err? then Err(n.e, n.pos) else D.ParseInline(s, Skip(s, n.next), Some(n.v), depth, limit)
    requires var n := D.Name(t, i);
             y == if n.Err? then Err(n.e, n.pos) else D.ParseInline(t, Skip(t, n.next), Some(n.v), depth, limit)
    ensures Same(x, y, q, e)
    decreases |s| - i, 3
  {
    hide *;
    hide Same;
    Bounds(s, t, q, e, i);
    Names(s, t, q, e, i);
    var n := D.Name(s, i);
    SameIs(n, D.Name(t, i), q, e);
    Step(n, D.Name(t, i), x, y, q, e);
    if n.Ok? && n.next <= q {
      Skips(s, t, q, e, n.next);
      InlineSame(s, t, q, e, Skip(s, n.next), Some(n.v), depth, limit);
    }
  }

  lemma InlineIs(s: bytes, i: nat, condition: Option<bytes>, depth: nat, limit: nat)
    requires i <= |s|
    ensures var r, ds := D.ParseInline(s, i, condition, depth, limit), D.ParseDirectives(s, i, false, limit);
            if ds.Err? then r == Err(ds.e, ds.pos)
            else
              var xs := D.ParseSelectionSet(s, Skip(s, ds.next), depth, limit);
              r == if xs.Err? then Err(xs.e, xs.pos) else Ok(InlineFragment(condition, ds.v, xs.v), Skip(s, xs.next))
  {
    hide D.ParseDirectives, D.ParseSelectionSet, Skip;
  }

  lemma {:induction false} InlineSame(s: bytes, t: bytes, q: nat, e: Error, i: nat, condition: Option<bytes>, depth: nat, limit: nat)
    requires Alike(s, t, q, e) && On(s, i, q) && Skip(s, i) == i
    ensures i <= |t| && Same(D.ParseInline(s, i, condition, depth, limit), D.ParseInline(t, i, condition, depth, limit), q, e)
    decreases |s| - i, 2
  {
    hide *;
    hide Same;
    Bounds(s, t, q, e, i);
    InlineIs(s, i, condition, depth, limit);
    InlineIs(t, i, condition, depth, limit);
    var x, y := D.ParseInline(s, i, condition, depth, limit), D.ParseInline(t, i, condition, depth, limit);
    DirectivesSame(s, t, q, e, i, false, limit);
    var ds := D.ParseDirectives(s, i, false, limit);
    Step(ds, D.ParseDirectives(t, i, false, limit), x, y, q, e);
    if ds.Ok? && ds.next <= q {
      DirectivesOn(s, i, false, limit, q);
      Skips(s, t, q, e, ds.next);
      var k := Skip(s, ds.next);
      SelectionSetSame(s, t, q, e, k, depth, limit);
      var xs := D.ParseSelectionSet(s, k, depth, limit);
      Step(xs, D.ParseSelectionSet(t, k, depth, limit), x, y, q, e);
      if xs.Ok? && xs.next <= q {
        SelectionSetOn(s, k, depth, limit, q);
        Skips(s, t, q, e, xs.next);
        SameIs(x, y, q, e);
      }
    }
  }

  lemma {:induction false} NamedSame(s: bytes, t: bytes, q: nat, e: Error, i: nat, depth: nat, limit: nat)
    requires Alike(s, t, q, e) && On(s, i, q) && Skip(s, i) == i && !HasPrefixAt(s, i, D.ELLIPSIS)
    ensures i <= |t| && Same(D.ParseSelection(s, i, depth, limit), D.ParseSelection(t, i, depth, limit), q, e)
    decreases |s| - i, 3
  {
    hide *;
    hide Same;
    Brackets();
    Bounds(s, t, q, e, i);
    Ellipses(s, t, q, e, i);
    F.NameIs(s, i, depth, limit);
    F.NameIs(t, i, depth, limit);
    var x, y := D.ParseSelection(s, i, depth, limit), D.ParseSelection(t, i, depth, limit);
    Names(s, t, q, e, i);
    var n := D.Name(s, i);
    SameIs(n, D.Name(t, i), q, e);
    if n.Ok? {
      NamedEnds(s, i, depth, limit);
    }
    Step(n, D.Name(t, i), x, y, q, e);
    if n.Ok? && n.next <= q {
      Skips(s, t, q, e, n.next);
      var k := Skip(s, n.next);
      Puncts(s, t, q, e, k, COLON);
      if s[k] != COLON {
        FieldRestSame(s, t, q, e, k, None, n.v, depth, limit);
      } else {
        F.AliasedMeans(s, k, n.v, depth, limit, x);
        F.AliasedMeans(t, k, n.v, depth, limit, y);
        if k == q {
          Beyond(x, y, q, e);
        } else {
          Skips(s, t, q, e, k + 1);
          var j := Skip(s, k + 1);
          Names(s, t, q, e, j);
          var m := D.Name(s, j);
          SameIs(m, D.Name(t, j), q, e);
          Step(m, D.Name(t, j), x, y, q, e);
          if m.Ok? && m.next <= q {
            Skips(s, t, q, e, m.next);
            FieldRestSame(s, t, q, e, Skip(s, m.next), Some(n.v), m.v, depth, limit);
          }
        }
      }
    }
  }

  lemma NamedEnds(s: bytes, i: nat, depth: nat, limit: nat)
    requires i <= |s| && !HasPrefixAt(s, i, D.ELLIPSIS) && D.Name(s, i).Ok?
    ensures var r := D.ParseSelection(s, i, depth, limit);
            (r.Ok? ==> r.next >= D.Name(s, i).next) && (r.Err? ==> r.pos >= D.Name(s, i).next)
  {
    hide D.ParseFieldRest, Skip, D.Name, HasPrefixAt;
  }

  lemma ArgumentsOfIs(s: bytes, i: nat, limit: nat)
    requires i < |s|
    ensures var r := D.FieldArguments(s, i, limit);
            if s[i] != LPAREN then r == Ok([], i)
            else
              var xs := D.ParseArguments(s, Skip(s, i + 1), false, limit);
              r == if xs.Err? then Err(xs.e, xs.pos) else Ok(xs.v, Skip(s, xs.next))
  {
    hide D.ParseArguments, Skip;
  }

  lemma ArgumentsOfSame(s: bytes, t: bytes, q: nat, e: Error, i: nat, limit: nat)
    requires Alike(s, t, q, e) && On(s, i, q) && Skip(s, i) == i && i < |s|
    ensures i < |t| && Same(D.FieldArguments(s, i, limit), D.FieldArguments(t, i, limit), q, e)
    ensures var r := D.FieldArguments(s, i, limit);
            r.Ok? && r.next <= q ==> On(s, r.next, q) && Skip(s, r.next) == r.next
  {
    hide *;
    hide Same;
    Brackets();
    Bounds(s, t, q, e, i);
    Puncts(s, t, q, e, i, LPAREN);
    ArgumentsOfIs(s, i, limit);
    ArgumentsOfIs(t, i, limit);
    var x, y := D.FieldArguments(s, i, limit), D.FieldArguments(t, i, limit);
    if s[i] != LPAREN {
      SameIs(x, y, q, e);
    } else if i == q {
      Beyond(x, y, q, e);
    } else {
      Skips(s, t, q, e, i + 1);
      var j := Skip(s, i + 1);
      ArgumentsSame(s, t, q, e, j, false, limit);
      var xs := D.ParseArguments(s, j, false, limit);
      Step(xs, D.ParseArguments(t, j, false, limit), x, y, q, e);
      if xs.Ok? && xs.next <= q {
        ParenthesesOn(s, i, false, limit, q);
        Skips(s, t, q, e, xs.next);
        SameIs(x, y, q, e);
      }
    }
  }

  lemma FieldEndIs(s: bytes, i: nat, depth: nat, limit: nat)
    requires i <= |s|
    ensures var r, ds := L.FieldEnd(s, i, depth, limit), D.ParseDirectives(s, i, false, limit);
            if ds.Err? then r == Err(ds.e, ds.pos)
            else
              var k := Skip(s, ds.next);
              if k == |s| then r == Err(UnexpectedEOF, k)
              else if s[k] != LBRACE then r == Ok((ds.v, []), k)
              else
                var ss := D.ParseSelectionSet(s, k, depth, limit);
                r == if ss.Err? then Err(ss.e, ss.pos) else Ok((ds.v, ss.v), Skip(s, ss.next))
  {
    hide D.ParseDirectives, D.ParseSelectionSet, Skip;
  }

  /** The directives and the optional selection set of a field. */
  lemma {:induction false} FieldEndSame(s: bytes, t: bytes, q: nat, e: Error, i: nat, depth: nat, limit: nat)
    requires Alike(s, t, q, e) && On(s, i, q) && Skip(s, i) == i
    ensures i <= |t| && Same(L.FieldEnd(s, i, depth, limit), L.FieldEnd(t, i, depth, limit), q, e)
    decreases |s| - i, 2
  {
    hide *;
    hide Same;
    Brackets();
    Bounds(s, t, q, e, i);
    FieldEndIs(s, i, depth, limit);
    FieldEndIs(t, i, depth, limit);
    var x, y := L.FieldEnd(s, i, depth, limit), L.FieldEnd(t, i, depth, limit);
    DirectivesSame(s, t, q, e, i, false, limit);
    var ds := D.ParseDirectives(s, i, false, limit);
    Step(ds, D.ParseDirectives(t, i, false, limit), x, y, q, e);
    if ds.Ok? && ds.next <= q {
      DirectivesOn(s, i, false, limit, q);
      Skips(s, t, q, e, ds.next);
      var k := Skip(s, ds.next);
      Puncts(s, t, q, e, k, LBRACE);
      if s[k] != LBRACE {
        SameIs(x, y, q, e);
      } else {
        SelectionSetSame(s, t, q, e, k, depth, limit);
        var ss := D.ParseSelectionSet(s, k, depth, limit);
        Step(ss, D.ParseSelectionSet(t, k, depth, limit), x, y, q, e);
        if ss.Ok? && ss.next <= q {
          SelectionSetOn(s, k, depth, limit, q);
          Skips(s, t, q, e, ss.next);
          SameIs(x, y, q, e);
        }
      }
    }
  }

  lemma FieldRestIs(s: bytes, i: nat, alias: Option<bytes>, name: bytes, depth: nat, limit: nat)
    requires i < |s|
    ensures var r, xs := D.ParseFieldRest(s, i, alias, name, depth, limit), D.FieldArguments(s, i, limit);
            if xs.Err? then r == Err(xs.e, xs.pos)
            else
              var b := L.FieldEnd(s, xs.next, depth, limit);
              r == if b.Err? then Err(b.e, b.pos) else Ok(Field(alias, name, xs.v, b.v.0, b.v.1), b.next)
  {
    hide D.FieldArguments, D.ParseDirectives, D.ParseSelectionSet, Skip;
  }

  lemma {:induction false} FieldRestSame(s: bytes, t: bytes, q: nat, e: Error, i: nat, alias: Option<bytes>, name: bytes, depth: nat, limit: nat)
    requires Alike(s, t, q, e) && On(s, i, q) && Skip(s, i) == i && i < |s|
    ensures i < |t| && Same(D.ParseFieldRest(s, i, alias, name, depth, limit), D.ParseFieldRest(t, i, alias, name, depth, limit), q, e)
    decreases |s| - i, 3
  {
    hide *;
    hide Same;
    ArgumentsOfSame(s, t, q, e, i, limit);
    FieldRestIs(s, i, alias, name, depth, limit);
    FieldRestIs(t, i, alias, name, depth, limit);
    var x, y := D.ParseFieldRest(s, i, alias, name, depth, limit), D.ParseFieldRest(t, i, alias, name, depth, limit);
    var xs := D.FieldArguments(s, i, limit);
    Step(xs, D.FieldArguments(t, i, limit), x, y, q, e);
    if xs.Ok? && xs.next <= q {
      FieldEndSame(s, t, q, e, xs.next, depth, limit);
      Last(L.FieldEnd(s, xs.next, depth, limit), L.FieldEnd(t, xs.next, depth, limit), x, y, q, e);
    }
  }

  // ----- Definitions

  lemma OperationNameIs(s: bytes, i: nat)
    requires i <= |s|
    ensures var r, n := D.OperationName(s, i), D.Name(s, i);
            if i == |s| then r == Err(UnexpectedEOF, i)
            else if n.Err? then r == Ok(None, i)
            else
              var k := Skip(s, n.next);
              r == if k == |s| then Err(UnexpectedEOF, k) else Ok(Some(n.v), k)
  {
    hide D.Name, Skip;
  }

  lemma OperationNameSame(s: bytes, t: bytes, q: nat, e: Error, i: nat)
    requires Alike(s, t, q, e) && On(s, i, q) && Skip(s, i) == i
    ensures i <= |t| && Same(D.OperationName(s, i), D.OperationName(t, i), q, e)
    ensures var r := D.OperationName(s, i);
            r.Ok? && r.next <= q ==> On(s, r.next, q) && Skip(s, r.next) == r.next
  {
    hide *;
    hide Same;
    Bounds(s, t, q, e, i);
    Names(s, t, q, e, i);
    OperationNameIs(s, i);
    OperationNameIs(t, i);
    var x, y, n := D.OperationName(s, i), D.OperationName(t, i), D.Name(s, i);
    if n.Ok? {
      if n.next <= q {
        Skips(s, t, q, e, n.next);
        SameIs(x, y, q, e);
      } else {
        Beyond(x, y, q, e);
      }
    } else {
      SameIs(x, y, q, e);
    }
  }

  lemma OperationVariablesAre(s: bytes, i: nat, limit: nat)
    requires i < |s|
    ensures var r, j := D.OperationVariables(s, i, limit), Skip(s, i + 1);
            if s[i] != LPAREN then r == Ok([], i)
            else if j == |s| then r == Err(UnexpectedEOF, j)
            else
              var vs := D.ParseVariables(s, j, limit);
              r == if vs.Err? then Err(vs.e, vs.pos) else Ok(vs.v, Skip(s, vs.next))
  {
    hide D.ParseVariables, Skip;
  }

  lemma OperationVariablesSame(s: bytes, t: bytes, q: nat, e: Error, i: nat, limit: nat)
    requires Alike(s, t, q, e) && On(s, i, q) && Skip(s, i) == i && i < |s|
    ensures i < |t| && Same(D.OperationVariables(s, i, limit), D.OperationVariables(t, i, limit), q, e)
    ensures var r := D.OperationVariables(s, i, limit);
            r.Ok? && r.next <= q ==> On(s, r.next, q) && Skip(s, r.next) == r.next
  {
    hide *;
    hide Same;
    Brackets();
    Bounds(s, t, q, e, i);
    Puncts(s, t, q, e, i, LPAREN);
    OperationVariablesAre(s, i, limit);
    OperationVariablesAre(t, i, limit);
    var x, y := D.OperationVariables(s, i, limit), D.OperationVariables(t, i, limit);
    if s[i] != LPAREN {
      SameIs(x, y, q, e);
    } else if i == q {
      Beyond(x, y, q, e);
    } else {
      Skips(s, t, q, e, i + 1);
      var j := Skip(s, i + 1);
      VariablesSame(s, t, q, e, j, limit);
      var vs := D.ParseVariables(s, j, limit);
      Step(vs, D.ParseVariables(t, j, limit), x, y, q, e);
      if vs.Ok? && vs.next <= q {
        VariablesOn(s, i, j, limit, q);
        Skips(s, t, q, e, vs.next);
        SameIs(x, y, q, e);
      }
    }
  }

  lemma VariablesOn(s: bytes, i: nat, j: nat, limit: nat, q: nat)
    requires q < |s| && On(s, i, q) && i < |s| && s[i] == LPAREN && j == Skip(s, i + 1) < |s|
    requires D.ParseVariables(s, j, limit).Ok? && D.ParseVariables(s, j, limit).next <= q
    ensures On(s, D.ParseVariables(s, j, limit).next, q)
  {
    hide *;
    Brackets();
    var r := D.ParseVariables(s, j, limit);
    F.ReadsOpen(s, i, LPAREN);
    VariablesSound(s, j, limit);
    var ts := VariableListTokens(r.v) + [Punct(RPAREN)];
    ReadsBoth(s, i, [Punct(LPAREN)], i + 1, ts, r.next);
    OnAfter(s, i, [Punct(LPAREN)] + ts, r.next, q);
  }

  lemma DirectedSetIs(s: bytes, i: nat, depth: nat, limit: nat)
    requires i <= |s|
    ensures var r, ds := L.DirectedSet(s, i, depth, limit), D.ParseDirectives(s, i, false, limit);
            if ds.Err? then r == Err(ds.e, ds.pos)
            else
              var xs := D.ParseSelectionSet(s, Skip(s, ds.next), depth, limit);
              r == if xs.Err? then Err(xs.e, xs.pos) else Ok((ds.v, xs.v), xs.next)
  {
    hide D.ParseDirectives, D.ParseSelectionSet, Skip;
  }

  lemma DirectedSetSame(s: bytes, t: bytes, q: nat, e: Error, i: nat, depth: nat, limit: nat)
    requires Alike(s, t, q, e) && On(s, i, q) && Skip(s, i) == i
    ensures i <= |t| && Same(L.DirectedSet(s, i, depth, limit), L.DirectedSet(t, i, depth, limit), q, e)
  {
    hide *;
    hide Same;
    Bounds(s, t, q, e, i);
    DirectedSetIs(s, i, depth, limit);
    DirectedSetIs(t, i, depth, limit);
    var x, y := L.DirectedSet(s, i, depth, limit), L.DirectedSet(t, i, depth, limit);
    DirectivesSame(s, t, q, e, i, false, limit);
    var ds := D.ParseDirectives(s, i, false, limit);
    Step(ds, D.ParseDirectives(t, i, false, limit), x, y, q, e);
    if ds.Ok? && ds.next <= q {
      DirectivesOn(s, i, false, limit, q);
      Skips(s, t, q, e, ds.next);
      var k := Skip(s, ds.next);
      SelectionSetSame(s, t, q, e, k, depth, limit);
      Last(D.ParseSelectionSet(s, k, depth, limit), D.ParseSelectionSet(t, k, depth, limit), x, y, q, e);
    }
  }

  lemma OperationIs(s: bytes, i: nat, d: Option<bytes>, kind: Kind, limit: nat)
    requires i <= |s|
    ensures var r, n := D.ParseOperation(s, i, d, kind, limit), D.OperationName(s, i);
            if n.Err? then r == Err(n.e, n.pos)
            else
              var vs := D.OperationVariables(s, n.next, limit);
              if vs.Err? then r == Err(vs.e, vs.pos)
              else
                var b := L.DirectedSet(s, vs.next, 0, limit);
                r == if b.Err? then Err(b.e, b.pos) else Ok(Operation(d, false, kind, n.v, vs.v, b.v.0, b.v.1), b.next)
  {
    hide D.OperationName, D.OperationVariables, D.ParseDirectives, D.ParseSelectionSet, Skip;
  }

  lemma OperationSame(s: bytes, t: bytes, q: nat, e: Error, i: nat, d: Option<bytes>, kind: Kind, limit: nat)
    requires Alike(s, t, q, e) && On(s, i, q) && Skip(s, i) == i
    ensures i <= |t| && Same(D.ParseOperation(s, i, d, kind, limit), D.ParseOperation(t, i, d, kind, limit), q, e)
  {
    hide *;
    hide Same;
    OperationNameSame(s, t, q, e, i);
    OperationIs(s, i, d, kind, limit);
    OperationIs(t, i, d, kind, limit);
    var x, y := D.ParseOperation(s, i, d, kind, limit), D.ParseOperation(t, i, d, kind, limit);
    var n := D.OperationName(s, i);
    Step(n, D.OperationName(t, i), x, y, q, e);
    if n.Ok? && n.next <= q {
      OperationVariablesSame(s, t, q, e, n.next, limit);
      var vs := D.OperationVariables(s, n.next, limit);
      Step(vs, D.OperationVariables(t, n.next, limit), x, y, q, e);
      if vs.Ok? && vs.next <= q {
        DirectedSetSame(s, t, q, e, vs.next, 0, limit);
        Last(L.DirectedSet(s, vs.next, 0, limit), L.DirectedSet(t, vs.next, 0, limit), x, y, q, e);
      }
    }
  }

  lemma FragmentDefinitionIs(s: bytes, i: nat, d: Option<bytes>, limit: nat)
    requires i <= |s|
    ensures var r, n := D.ParseFragment(s, i, d, limit), D.Name(s, i);
            if n.Err? then r == Err(n.e, n.pos)
            else if n.v == KW_ON then r == Err(UnexpectedToken, i)
            else
              var k := Skip(s, n.next);
              if k == |s| then r == Err(UnexpectedEOF, k)
              else if !IsKeywordAt(s, k, KW_ON) then r == Err(UnexpectedToken, k)
              else
                var c := D.Name(s, Skip(s, k + |KW_ON|));
                if c.Err? then r == Err(c.e, c.pos)
                else
                  var b := L.DirectedSet(s, Skip(s, c.next), 0, limit);
                  r == if b.Err? then Err(b.e, b.pos) else Ok(Fragment(d, n.v, c.v, b.v.0, b.v.1), b.next)
  {
    hide D.Name, D.ParseDirectives, D.ParseSelectionSet, Skip, IsKeywordAt;
  }

  lemma FragmentDefinitionSame(s: bytes, t: bytes, q: nat, e: Error, i: nat, d: Option<bytes>, limit: nat)
    requires Alike(s, t, q, e) && On(s, i, q) && Skip(s, i) == i
    ensures i <= |t| && Same(D.ParseFragment(s, i, d, limit), D.ParseFragment(t, i, d, limit), q, e)
  {
    Keywords();
    hide *;
    hide Same;
    Bounds(s, t, q, e, i);
    Names(s, t, q, e, i);
    FragmentDefinitionIs(s, i, d, limit);
    FragmentDefinitionIs(t, i, d, limit);
    var x, y := D.ParseFragment(s, i, d, limit), D.ParseFragment(t, i, d, limit);
    var n := D.Name(s, i);
    if n.Err? || n.v == KW_ON {
      SameIs(x, y, q, e);
      return;
    }
    if n.next > q {
      Beyond(x, y, q, e);
      return;
    }
    Skips(s, t, q, e, n.next);
    var k := Skip(s, n.next);
    Words(s, t, q, e, k, KW_ON);
    Bounds(s, t, q, e, k);
    if !IsKeywordAt(s, k, KW_ON) {
      SameIs(x, y, q, e);
    } else if k + |KW_ON| > q {
      Beyond(x, y, q, e);
    } else {
      Skips(s, t, q, e, k + |KW_ON|);
      var j := Skip(s, k + |KW_ON|);
      Names(s, t, q, e, j);
      var c := D.Name(s, j);
      SameIs(c, D.Name(t, j), q, e);
      Step(c, D.Name(t, j), x, y, q, e);
      if c.Ok? && c.next <= q {
        Skips(s, t, q, e, c.next);
        var m := Skip(s, c.next);
        DirectedSetSame(s, t, q, e, m, 0, limit);
        Last(L.DirectedSet(s, m, 0, limit), L.DirectedSet(t, m, 0, limit), x, y, q, e);
      }
    }
  }

  lemma DefinitionIs(s: bytes, i: nat, limit: nat)
    requires i < |s|
    ensures var r, d := D.ParseDefinition(s, i, limit), D.Description(s, i);
            if d.Err? then r == Err(d.e, d.pos)
            else if s[d.next] == LBRACE then
              if d.v.Some? then r == Err(UnexpectedToken, d.next)
              else
                var xs := D.ParseSelectionSet(s, d.next, 0, limit);
                r == if xs.Err? then Err(xs.e, xs.pos) else Ok(Operation(None, true, Query, None, [], [], xs.v), xs.next)
            else if IsKeywordAt(s, d.next, KW_FRAGMENT) then
              r == D.ParseFragment(s, Skip(s, d.next + |KW_FRAGMENT|), d.v, limit)
            else if D.KindAt(s, d.next).Some? then
              var kind := D.KindAt(s, d.next).value;
              r == D.ParseOperation(s, Skip(s, d.next + |D.KindKeyword(kind)|), d.v, kind, limit)
            else r == Err(UnexpectedToken, d.next)
  {
    hide D.Description, D.ParseSelectionSet, D.ParseFragment, D.ParseOperation, Skip, IsKeywordAt;
  }

  lemma KindSame(s: bytes, t: bytes, q: nat, e: Error, i: nat)
    requires Alike(s, t, q, e) && On(s, i, q) && Skip(s, i) == i
    ensures i <= |s| && i <= |t| && D.KindAt(t, i) == D.KindAt(s, i)
    ensures D.KindAt(s, i).Some? ==>
              var kw := D.KindKeyword(D.KindAt(s, i).value);
              i + |kw| <= |s| && i + |kw| <= |t| && (i + |kw| <= q ==> On(s, i + |kw|, q))
  {
    Keywords();
    hide Skip, On, Alike, IsKeywordAt, IsName;
    Bounds(s, t, q, e, i);
    Words(s, t, q, e, i, KW_QUERY);
    Words(s, t, q, e, i, KW_MUTATION);
    Words(s, t, q, e, i, KW_SUBSCRIPTION);
  }

  lemma DefinitionSame(s: bytes, t: bytes, q: nat, e: Error, i: nat, limit: nat)
    requires Alike(s, t, q, e) && On(s, i, q) && Skip(s, i) == i && i < |s|
    ensures i < |t| && Same(D.ParseDefinition(s, i, limit), D.ParseDefinition(t, i, limit), q, e)
  {
    Keywords();
    hide *;
    hide Same;
    Brackets();
    Bounds(s, t, q, e, i);
    DescriptionSame(s, t, q, e, i);
    DefinitionIs(s, i, limit);
    DefinitionIs(t, i, limit);
    var x, y := D.ParseDefinition(s, i, limit), D.ParseDefinition(t, i, limit);
    var d := D.Description(s, i);
    Step(d, D.Description(t, i), x, y, q, e);
    if d.Ok? && d.next <= q {
      var j := d.next;
      Puncts(s, t, q, e, j, LBRACE);
      Words(s, t, q, e, j, KW_FRAGMENT);
      KindSame(s, t, q, e, j);
      if s[j] == LBRACE && d.v.None? {
        SelectionSetSame(s, t, q, e, j, 0, limit);
        Last(D.ParseSelectionSet(s, j, 0, limit), D.ParseSelectionSet(t, j, 0, limit), x, y, q, e);
      } else if s[j] != LBRACE && IsKeywordAt(s, j, KW_FRAGMENT) {
        if j + |KW_FRAGMENT| <= q {
          Skips(s, t, q, e, j + |KW_FRAGMENT|);
          FragmentDefinitionSame(s, t, q, e, Skip(s, j + |KW_FRAGMENT|), d.v, limit);
        } else {
          Beyond(x, y, q, e);
        }
      } else if s[j] != LBRACE && D.KindAt(s, j).Some? {
        var kind := D.KindAt(s, j).value;
        var k := j + |D.KindKeyword(kind)|;
        if k <= q {
          Skips(s, t, q, e, k);
          OperationSame(s, t, q, e, Skip(s, k), d.v, kind, limit);
        } else {
          Beyond(x, y, q, e);
        }
      } else {
        SameIs(x, y, q, e);
      }
    }
  }

  lemma DefinitionsAre(s: bytes, i: nat, limit: nat)
    requires i < |s|
    ensures var r, d := D.ParseDefinitions(s, i, limit), D.ParseDefinition(s, i, limit);
            if d.Err? then r == Err(d.e, d.pos)
            else if Skip(s, d.next) == |s| then r == Ok([d.v], |s|)
            else
              var ds := D.ParseDefinitions(s, Skip(s, d.next), limit);
              r == if ds.Err? then Err(ds.e, ds.pos) else Ok([d.v] + ds.v, ds.next)
  {
    hide D.ParseDefinition, Skip;
  }

  lemma {:induction false} DefinitionsSame(s: bytes, t: bytes, q: nat, e: Error, i: nat, limit: nat)
    requires Alike(s, t, q, e) && On(s, i, q) && Skip(s, i) == i && i < |s|
    ensures i < |t| && Same(D.ParseDefinitions(s, i, limit), D.ParseDefinitions(t, i, limit), q, e)
    decreases |s| - i
  {
    hide *;
    hide Same;
    DefinitionSame(s, t, q, e, i, limit);
    Bounds(s, t, q, e, i);
    DefinitionsAre(s, i, limit);
    DefinitionsAre(t, i, limit);
    var x, y := D.ParseDefinitions(s, i, limit), D.ParseDefinitions(t, i, limit);
    var d := D.ParseDefinition(s, i, limit);
    Step(d, D.ParseDefinition(t, i, limit), x, y, q, e);
    if d.Ok? && d.next <= q {
      DefinitionSound(s, i, limit);
      OnAfter(s, i, DefinitionTokens(d.v), d.next, q);
      Skips(s, t, q, e, d.next);
      var j := Skip(s, d.next);
      DefinitionsSame(s, t, q, e, j, limit);
      Last(D.ParseDefinitions(s, j, limit), D.ParseDefinitions(t, j, limit), x, y, q, e);
    }
  }

  /** If the token at q is what one source is rejected for, the other is rejected there as well. */
  lemma DocumentSame(s: bytes, t: bytes, q: nat, e: Error, limit: nat)
    requires Alike(s, t, q, e) && On(s, 0, q) && D.ParseDocument(s, limit) == Err(e, q)
    ensures D.ParseDocument(t, limit) == Err(e, q)
  {
    hide D.ParseDefinitions, Skip, On, Alike;
    Skips(s, t, q, e, 0);
    var i := Skip(s, 0);
    Bounds(s, t, q, e, i);
    DefinitionsSame(s, t, q, e, i, limit);
  }
}
