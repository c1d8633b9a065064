/**
 The encoding, said of source texts: which sources share the bytes they are hashed by with a
 source of another document, and the smallest that do.
 */
module Sources {
  import opened Bytes
  import opened Lexical
  import opened Ast
  import opened Canonical
  import opened Continuation
  import opened Numbers
  import opened Grammar
  import opened Parsing
  import opened Documents
  import opened ValueCode
  import opened DocumentCode
  import opened Ambiguity
  import opened Printing

  /** Both sources are accepted, with the same bytes. */
  predicate WrittenAlike(a: bytes, b: bytes, o: Options) {
    Reading(a, o).Accept? && Reading(b, o) == Reading(a, o)
  }

  lemma AlikeIs(a: bytes, da: Document, b: bytes, db: Document, o: Options)
    requires Spells(a, da) && Spells(b, db) && o.ignore == Nothing && Fits(da, LimitOf(o)) && Fits(db, LimitOf(o))
    ensures WrittenAlike(a, b, o) <==> SerDocument(Nothing, da) == SerDocument(Nothing, db)
  {
    hide Spells, Fits, SerDocument, Reading;
    DepthLimitExact(a, o, da);
    DepthLimitExact(b, o, db);
  }

  /** A source is the only one of its bytes, layout and descriptions aside, exactly if its
      document is clear. */
  lemma SourceUniquelyDecodable(a: bytes, da: Document)
    requires Spells(a, da)
    ensures ClearDocument(da) <==>
              forall b, db | Spells(b, db) && SerDocument(Nothing, db) == SerDocument(Nothing, da) ::
                PlainDocument(db) == PlainDocument(da)
  {
    hide SerDocument, ClearDocument, PlainDocument, Tokens, DocumentTokens, WfDefinitions;
    if ClearDocument(da) {
      forall b, db | Spells(b, db) && SerDocument(Nothing, db) == SerDocument(Nothing, da) ensures PlainDocument(db) == PlainDocument(da) {
        ClearDocumentCode(da, db);
      }
    } else {
      var e := OtherDocument(da);
      EveryDocumentSpelled(e);
    }
  }

  /** A source of a document that is not clear has a partner: another document, accepted with
      the same bytes whenever both nest within the limit. */
  lemma Partner(a: bytes, da: Document) returns (b: bytes, db: Document)
    requires Spells(a, da) && !ClearDocument(da)
    ensures Spells(b, db) && PlainDocument(db) != PlainDocument(da)
    ensures forall o: Options | o.ignore == Nothing && o.depthLimit > |a| && o.depthLimit > |b| :: WrittenAlike(a, b, o)
  {
    hide SerDocument, ClearDocument, PlainDocument, Tokens, DocumentTokens, WfDefinitions, WrittenAlike, Fits;
    db := OtherDocument(da);
    EveryDocumentSpelled(db);
    b := Source(db);
    forall o: Options | o.ignore == Nothing && o.depthLimit > |a| && o.depthLimit > |b| ensures WrittenAlike(a, b, o) {
      SpelledFits(a, da, LimitOf(o));
      SpelledFits(b, db, LimitOf(o));
      AlikeIs(a, da, b, db, o);
    }
  }

  // ----- `{f(a: ...)}`

  const NAME_A: bytes := [0x61]
  const NAME_F: bytes := [0x66]

  function FieldOf(v: Value): Selection { Field(None, NAME_F, [Argument(NAME_A, v)], [], []) }

  /** `{f(a: v)}` */
  function QueryOf(v: Value): Document { [Operation(None, true, Query, None, [], [], [FieldOf(v)])] }

  lemma OneDefinition(d: Definition, limit: nat)
    ensures WfDocument([d]) <==> WfDefinition(d)
    ensures SerDocument(Nothing, [d]) == SerDefinition(Nothing, d)
    ensures DocumentTokens([d]) == DefinitionTokens(d)
    ensures Fits([d], limit) <==> DefinitionFits(d, limit)
    ensures PlainDocument([d]) == [Plain(d)]
  {
    hide WfDefinition, SerDefinition, DefinitionTokens, DefinitionFits, Plain;
    assert [d][1..] == [];
    NoBytes(SerDefinition(Nothing, d));
    assert DefinitionTokens(d) + [] == DefinitionTokens(d);
    assert WfDefinitions([d]) <==> WfDefinition(d) && WfDefinitions([]);
    assert SerDocument(Nothing, []) == [];
    assert SerDocument(Nothing, [d]) == SerDefinition(Nothing, d) + SerDocument(Nothing, []);
    assert DocumentTokens([d]) == DefinitionTokens(d) + DocumentTokens([]);
    assert PlainDocument([d]) == [Plain(d)] + PlainDocument([]);
  }

  lemma OneArgument(v: Value)
    ensures var xs := [Argument(NAME_A, v)];
            && (WfArguments(xs, false) <==> WfValue(v, false)) && ArgumentsDepth(xs) == ValueDepth(v)
            && ArgumentsTokens(xs) == [Punct(LPAREN), NameToken(NAME_A), Punct(COLON)] + (ValueTokens(v) + [Punct(RPAREN)])
  {
    hide WfValue, ValueTokens, ValueDepth;
    var x := Argument(NAME_A, v);
    assert [x][1..] == [];
    assert ArgumentListTokens([x]) == ArgumentTokens(x) + ArgumentListTokens([]);
    assert ArgumentsDepth([x]) == Grammar.Max(ValueDepth(v), ArgumentsDepth([]));
    assert WfArguments([x], false) <==> WfArgument(x, false) && WfArguments([], false);
  }

  lemma OneSelection(x: Selection)
    ensures WfSelections([x]) <==> WfSelection(x)
    ensures SelectionsTokens([x]) == SelectionTokens(x)
    ensures SelectionsDepth([x]) == SelectionDepth(x) && NestingAll([x]) == Nesting(x)
  {
    hide WfSelection, SelectionTokens, SelectionDepth, Nesting;
    assert [x][1..] == [];
    assert SelectionsTokens([x]) == SelectionTokens(x) + SelectionsTokens([]);
    assert SelectionTokens(x) + [] == SelectionTokens(x);
    assert SelectionsDepth([x]) == Grammar.Max(SelectionDepth(x), SelectionsDepth([]));
    assert NestingAll([x]) == Grammar.Max(Nesting(x), NestingAll([]));
  }

  lemma FieldIs(v: Value)
    requires WfValue(v, false)
    ensures WfSelections([FieldOf(v)])
    ensures SelectionsTokens([FieldOf(v)]) == [NameToken(NAME_F), Punct(LPAREN), NameToken(NAME_A), Punct(COLON)]
                                              + (ValueTokens(v) + [Punct(RPAREN)])
    ensures SelectionsDepth([FieldOf(v)]) == ValueDepth(v) && NestingAll([FieldOf(v)]) == 0
  {
    hide WfValue, ValueTokens, ValueDepth, WfArguments, ArgumentsTokens, ArgumentsDepth, WfSelections, SelectionsTokens,
         SelectionsDepth, NestingAll;
    OneSelection(FieldOf(v));
    OneArgument(v);
    NothingInside();
  }

  lemma NothingInside()
    ensures WfSelections([]) && WfDirectives([], false) && DirectivesTokens([]) == [] && DirectivesDepth([]) == 0
    ensures SelectionsDepth([]) == 0 && NestingAll([]) == 0
  {
  }

  lemma HeadAndTail(head: seq<Token>, ts: seq<Token>)
    requires |head| == 4
    ensures [Punct(LBRACE)] + (head + (ts + [Punct(RPAREN)]) + [Punct(RBRACE)])
            == [Punct(LBRACE), head[0], head[1], head[2], head[3]] + (ts + [Punct(RPAREN), Punct(RBRACE)])
  {
  }

  lemma QueryIs(v: Value)
    requires WfValue(v, false)
    ensures WfDocument(QueryOf(v))
    ensures DocumentTokens(QueryOf(v)) == [Punct(LBRACE), NameToken(NAME_F), Punct(LPAREN), NameToken(NAME_A), Punct(COLON)]
                                          + (ValueTokens(v) + [Punct(RPAREN), Punct(RBRACE)])
  {
    hide WfValue, ValueTokens, WfSelections, SelectionsTokens, FieldOf, DocumentTokens, WfDefinitions, Fits;
    FieldIs(v);
    OneDefinition(QueryOf(v)[0], 0);
    HeadAndTail([NameToken(NAME_F), Punct(LPAREN), NameToken(NAME_A), Punct(COLON)], ValueTokens(v));
    NothingInside();
    NoVariables();
  }

  lemma NoVariables()
    ensures WfVariables([])
  {
  }

  lemma QueryFits(v: Value, limit: nat)
    requires WfValue(v, false)
    ensures Fits(QueryOf(v), limit) <==> ValueDepth(v) <= limit && 1 <= limit
  {
    hide ValueDepth, WfValue, SelectionsDepth, NestingAll, FieldOf;
    FieldIs(v);
    OneDefinition(QueryOf(v)[0], limit);
    assert VariablesDepth([]) == 0 && DirectivesDepth([]) == 0;
  }

  /** Values written alike make queries written alike; other values make other queries. */
  lemma QueriesAlike(v: Value, w: Value)
    requires v != w && EncValue(v) == EncValue(w)
    ensures SerDocument(Nothing, QueryOf(v)) == SerDocument(Nothing, QueryOf(w))
    ensures PlainDocument(QueryOf(v)) != PlainDocument(QueryOf(w))
  {
    hide EncValue;
    var d, e := QueryOf(v)[0], QueryOf(w)[0];
    OneDefinition(d, 0);
    OneDefinition(e, 0);
    assert d.selections[0].arguments[0].value == v && e.selections[0].arguments[0].value == w;
    assert Plain(d).selections != Plain(e).selections;
    SelectionsAlike(v, w);
    hide SerSelections;
  }

  lemma SelectionsAlike(v: Value, w: Value)
    requires EncValue(v) == EncValue(w)
    ensures SerSelections(Nothing, [FieldOf(v)]) == SerSelections(Nothing, [FieldOf(w)])
  {
    hide EncValue;
    assert [FieldOf(v)][1..] == [] && [FieldOf(w)][1..] == [];
    var a, b := Argument(NAME_A, v), Argument(NAME_A, w);
    assert [a][1..] == [] && [b][1..] == [];
    assert SerArgument(Nothing, a) == SerArgument(Nothing, b);
    assert SerArguments(Nothing, [a]) == SerArgument(Nothing, a) + SerArguments(Nothing, []);
    assert SerArguments(Nothing, [b]) == SerArgument(Nothing, b) + SerArguments(Nothing, []);
    hide SerArguments;
    assert SerSelection(Nothing, FieldOf(v)) == SerSelection(Nothing, FieldOf(w));
  }

  /** Two documents written alike have sources that are accepted with the same bytes. */
  lemma SourcesAlike(da: Document, db: Document, o: Options)
    requires WfDocument(da) && WfDocument(db) && SerDocument(Nothing, da) == SerDocument(Nothing, db) && o.ignore == Nothing
    requires Fits(da, LimitOf(o)) && Fits(db, LimitOf(o))
    ensures WrittenAlike(Source(da), Source(db), o) && Spells(Source(da), da) && Spells(Source(db), db)
  {
    hide SerDocument, WfDefinitions, Fits, WrittenAlike, Spells, Source;
    EveryDocumentSpelled(da);
    EveryDocumentSpelled(db);
    AlikeIs(Source(da), da, Source(db), db, o);
  }

  /** Sources of `{f(a: [[], [x]])}` and `{f(a: [[[], x]])}`. */
  lemma EmptyListSources(x: Value, o: Options)
    requires WfValue(x, false) && o.ignore == Nothing && ValueDepth(x) + 2 <= LimitOf(o)
    ensures var da, db := QueryOf(ListValue([ListValue([]), ListValue([x])])), QueryOf(ListValue([ListValue([ListValue([]), x])]));
            && WfDocument(da) && WfDocument(db) && PlainDocument(da) != PlainDocument(db)
            && WrittenAlike(Source(da), Source(db), o)
  {
    var e, l, m := ListValue([]), ListValue([x]), ListValue([ListValue([]), x]);
    var v, w := ListValue([e, l]), ListValue([m]);
    ListsAre(x);
    hide WfValue, ValueDepth, SerDocument, PlainDocument, WrittenAlike, Source, EncValue, Clear, Fits, WfDefinitions;
    EmptyListWitness(x);
    QueryIs(v);
    QueryFits(v, LimitOf(o));
    QueryIs(w);
    QueryFits(w, LimitOf(o));
    QueriesAlike(v, w);
    SourcesAlike(QueryOf(v), QueryOf(w), o);
  }

  lemma OneItem(v: Value)
    ensures ItemsDepth([v]) == ValueDepth(v) && (WfItems([v], false) <==> WfValue(v, false))
    ensures ItemsTokens([v]) == ValueTokens(v)
  {
    hide ValueDepth, WfValue, ValueTokens;
    assert [v][1..] == [];
    assert ItemsDepth([v]) == Grammar.Max(ValueDepth(v), ItemsDepth([]));
    assert ItemsTokens([v]) == ValueTokens(v) + ItemsTokens([]);
  }

  lemma TwoItems(v: Value, w: Value)
    ensures ItemsDepth([v, w]) == Grammar.Max(ValueDepth(v), ValueDepth(w))
    ensures WfItems([v, w], false) <==> WfValue(v, false) && WfValue(w, false)
    ensures ItemsTokens([v, w]) == ValueTokens(v) + ValueTokens(w)
  {
    hide ValueDepth, WfValue, ValueTokens;
    OneItem(w);
    assert [v, w][1..] == [w];
  }

  lemma ListIs(vs: seq<Value>)
    ensures WfValue(ListValue(vs), false) <==> WfItems(vs, false)
    ensures ValueDepth(ListValue(vs)) == if vs == [] then 0 else 1 + ItemsDepth(vs)
    ensures ValueTokens(ListValue(vs)) == [Punct(LBRACKET)] + (ItemsTokens(vs) + [Punct(RBRACKET)])
  {
    hide WfItems, ItemsDepth, ItemsTokens;
  }

  lemma ListsAre(x: Value)
    ensures var v, w := ListValue([ListValue([]), ListValue([x])]), ListValue([ListValue([ListValue([]), x])]);
            && (WfValue(x, false) ==> WfValue(v, false) && WfValue(w, false))
            && ValueDepth(v) == ValueDepth(x) + 2 && ValueDepth(w) == ValueDepth(x) + 2
  {
    var e, l, m := ListValue([]), ListValue([x]), ListValue([ListValue([]), x]);
    assert WfItems([], false);
    hide WfItems, ItemsDepth, ValueDepth, WfValue;
    ListIs([]);
    ListIs([x]);
    ListIs([e, x]);
    ListIs([e, l]);
    ListIs([m]);
    OneItem(x);
    TwoItems(e, x);
    TwoItems(e, l);
    OneItem(m);
  }

  /** Sources of `{f(a: {a: {}, b: {c: x}})}` and `{f(a: {a: {b: {}, c: x}})}`, whatever the names. */
  lemma EmptyObjectSources(a: bytes, b: bytes, c: bytes, x: Value, o: Options)
    requires IsName(a) && IsName(b) && IsName(c) && WfValue(x, false) && o.ignore == Nothing && ValueDepth(x) + 2 <= LimitOf(o)
    ensures var v := ObjectValue([ObjectField(a, ObjectValue([])), ObjectField(b, ObjectValue([ObjectField(c, x)]))]);
            var w := ObjectValue([ObjectField(a, ObjectValue([ObjectField(b, ObjectValue([])), ObjectField(c, x)]))]);
            && WfDocument(QueryOf(v)) && WfDocument(QueryOf(w)) && PlainDocument(QueryOf(v)) != PlainDocument(QueryOf(w))
            && WrittenAlike(Source(QueryOf(v)), Source(QueryOf(w)), o)
  {
    var v := ObjectValue([ObjectField(a, ObjectValue([])), ObjectField(b, ObjectValue([ObjectField(c, x)]))]);
    var w := ObjectValue([ObjectField(a, ObjectValue([ObjectField(b, ObjectValue([])), ObjectField(c, x)]))]);
    ObjectsAre(a, b, c, x);
    hide WfValue, ValueDepth, SerDocument, PlainDocument, WrittenAlike, Source, EncValue, Fits, WfDefinitions, IsName;
    EmptyObjectWitness(a, b, c, x);
    QueryIs(v);
    QueryFits(v, LimitOf(o));
    QueryIs(w);
    QueryFits(w, LimitOf(o));
    QueriesAlike(v, w);
    SourcesAlike(QueryOf(v), QueryOf(w), o);
  }

  lemma OneField(n: bytes, v: Value)
    ensures FieldsDepth([ObjectField(n, v)]) == ValueDepth(v)
    ensures WfFields([ObjectField(n, v)], false) <==> IsName(n) && WfValue(v, false)
  {
    hide ValueDepth, WfValue, IsName;
    var f := ObjectField(n, v);
    assert [f][1..] == [];
    assert FieldsDepth([f]) == Grammar.Max(FieldDepth(f), FieldsDepth([]));
    assert WfFields([f], false) <==> WfField(f, false) && WfFields([], false);
  }

  lemma TwoFields(a: bytes, v: Value, b: bytes, w: Value)
    ensures var fs := [ObjectField(a, v), ObjectField(b, w)];
            && FieldsDepth(fs) == Grammar.Max(ValueDepth(v), ValueDepth(w))
            && (WfFields(fs, false) <==> IsName(a) && WfValue(v, false) && IsName(b) && WfValue(w, false))
  {
    hide ValueDepth, WfValue, IsName;
    var f, g := ObjectField(a, v), ObjectField(b, w);
    OneField(b, w);
    assert [f, g][1..] == [g];
    assert FieldsDepth([f, g]) == Grammar.Max(FieldDepth(f), FieldsDepth([g]));
    assert WfFields([f, g], false) <==> WfField(f, false) && WfFields([g], false);
  }

  lemma ObjectIs(fs: seq<ObjectField>)
    ensures WfValue(ObjectValue(fs), false) <==> WfFields(fs, false)
    ensures ValueDepth(ObjectValue(fs)) == if fs == [] then 0 else 1 + FieldsDepth(fs)
  {
    hide WfFields, FieldsDepth;
  }

  lemma ObjectsAre(a: bytes, b: bytes, c: bytes, x: Value)
    requires IsName(a) && IsName(b) && IsName(c)
    ensures var v := ObjectValue([ObjectField(a, ObjectValue([])), ObjectField(b, ObjectValue([ObjectField(c, x)]))]);
            var w := ObjectValue([ObjectField(a, ObjectValue([ObjectField(b, ObjectValue([])), ObjectField(c, x)]))]);
            && (WfValue(x, false) ==> WfValue(v, false) && WfValue(w, false))
            && ValueDepth(v) == ValueDepth(x) + 2 && ValueDepth(w) == ValueDepth(x) + 2
  {
    assert WfFields([], false);
    hide IsName, WfFields, FieldsDepth, ValueDepth, WfValue;
    var none := ObjectValue([]);
    var e, f, g := ObjectField(a, none), ObjectField(b, none), ObjectField(c, x);
    var full, nested := ObjectValue([g]), ObjectValue([f, g]);
    ObjectIs([]);
    ObjectIs([g]);
    ObjectIs([f, g]);
    ObjectIs([e, ObjectField(b, full)]);
    ObjectIs([ObjectField(a, nested)]);
    OneField(c, x);
    TwoFields(b, none, c, x);
    TwoFields(a, none, b, full);
    OneField(a, nested);
  }

  /** Sources of `query Q($v: T @d) {...}` and `query Q($v: T) @d {...}`. */
  lemma DirectiveSources(d: Definition, v: VariableDefinition, ds: seq<Directive>, o: Options)
    requires d.Operation? && !d.shorthand && WfDefinition(d) && WfVariable(v) && v.directives == []
    requires ds != [] && WfDirectives(ds, true) && o.ignore == Nothing
    ensures var inside, outside := d.(variables := [v.(directives := ds)], directives := []),
                                   d.(variables := [v], directives := ds);
            && WfDocument([inside]) && WfDocument([outside]) && PlainDocument([inside]) != PlainDocument([outside])
            && (Fits([inside], LimitOf(o)) && Fits([outside], LimitOf(o)) ==> WrittenAlike(Source([inside]), Source([outside]), o))
  {
    var inside, outside := d.(variables := [v.(directives := ds)], directives := []), d.(variables := [v], directives := ds);
    hide SerDocument, PlainDocument, WrittenAlike, Source, Fits, WfDirectives, WfSelections, WfType, IsName, WfValue, IsTextIf;
    RelaxDirectives(ds);
    assert WfDirectives([], false) && WfDirectives([], true) by { NothingWf(); }
    assert WfVariable(v.(directives := ds));
    hide WfVariable;
    VariableAlone(v);
    VariableAlone(v.(directives := ds));
    assert WfDefinition(inside) && WfDefinition(outside);
    hide WfDefinition;
    OneDefinition(inside, 0);
    OneDefinition(outside, 0);
    assert Plain(inside).directives != Plain(outside).directives;
    DirectiveWitness(d, v, ds);
    if Fits([inside], LimitOf(o)) && Fits([outside], LimitOf(o)) {
      SourcesAlike([inside], [outside], o);
    }
  }

  lemma NothingWf()
    ensures WfDirectives([], false) && WfDirectives([], true)
  {
  }

  lemma VariableAlone(v: VariableDefinition)
    ensures WfVariables([v]) <==> WfVariable(v)
  {
    hide WfVariable;
    assert [v][1..] == [];
  }

  // ----- The smallest sources

  lemma PunctThen(s: bytes, i: nat, b: byte, ts: seq<Token>) returns (us: seq<Token>)
    requires i < |s| && s[i] == b && IsPunctuator(b) && Tokens(s, i + 1) == Some(ts)
    ensures us == [Punct(b)] + ts && Tokens(s, i) == Some(us)
  {
    hide Tokens;
    TokenThen(s, i, Punct(b), ts);
    us := [Punct(b)] + ts;
  }

  lemma LetterThen(s: bytes, i: nat, c: byte, ts: seq<Token>) returns (us: seq<Token>)
    requires i + 1 < |s| && s[i] == c && IsNameStart(c) && !IsNameCont(s[i + 1]) && Tokens(s, i + 1) == Some(ts)
    ensures us == [NameToken([c])] + ts && Tokens(s, i) == Some(us)
  {
    hide Tokens;
    TokenThen(s, i, NameToken([c]), ts);
    us := [NameToken([c])] + ts;
  }

  lemma OneIsANumber()
    ensures IsNumberText([0x31], false)
  {
    assert DigitsEnd([0x31], 1) == 1;
  }

  lemma OneThen(s: bytes, i: nat, ts: seq<Token>) returns (us: seq<Token>)
    requires i < |s| && s[i] == 0x31 && Ends(s, i + 1) && Tokens(s, i + 1) == Some(ts)
    ensures us == [IntToken([0x31])] + ts && Tokens(s, i) == Some(us)
  {
    hide Tokens, IsNumberText, Ends;
    OneIsANumber();
    TokenThen(s, i, IntToken([0x31]), ts);
    us := [IntToken([0x31])] + ts;
  }

  /** The tokens of `{f(a:`, and whatever comes after. */
  lemma HeadThen(s: bytes, ts: seq<Token>)
    requires |s| > 5 && s[0] == LBRACE && s[1] == 0x66 && s[2] == LPAREN && s[3] == 0x61 && s[4] == COLON && Tokens(s, 5) == Some(ts)
    ensures Tokens(s, 0) == Some([Punct(LBRACE), NameToken(NAME_F), Punct(LPAREN), NameToken(NAME_A), Punct(COLON)] + ts)
  {
    hide Tokens;
    var us := PunctThen(s, 4, COLON, ts);
    us := LetterThen(s, 3, 0x61, us);
    us := PunctThen(s, 2, LPAREN, us);
    us := LetterThen(s, 1, 0x66, us);
    us := PunctThen(s, 0, LBRACE, us);
    assert us == [Punct(LBRACE), NameToken(NAME_F), Punct(LPAREN), NameToken(NAME_A), Punct(COLON)] + ts;
  }

  /** The tokens of `]])}` at the end. */
  lemma TailThen(s: bytes, i: nat) returns (us: seq<Token>)
    requires i + 4 == |s| && s[i] == RBRACKET && s[i + 1] == RBRACKET && s[i + 2] == RPAREN && s[i + 3] == RBRACE
    ensures us == [Punct(RBRACKET), Punct(RBRACKET), Punct(RPAREN), Punct(RBRACE)] && Tokens(s, i) == Some(us)
  {
    hide Tokens;
    TokensEnd(s);
    us := PunctThen(s, i + 3, RBRACE, []);
    us := PunctThen(s, i + 2, RPAREN, us);
    us := PunctThen(s, i + 1, RBRACKET, us);
    us := PunctThen(s, i, RBRACKET, us);
  }

  const ONE: Value := IntValue([0x31])

  /** `{f(a:[[],[1]])}` */
  const LIST_SOURCE: bytes :=
    [LBRACE, 0x66, LPAREN, 0x61, COLON, LBRACKET, LBRACKET, RBRACKET, COMMA, LBRACKET, 0x31, RBRACKET, RBRACKET, RPAREN, RBRACE]

  lemma OneIsWf()
    ensures WfValue(ONE, false) && ValueDepth(ONE) == 0
  {
    OneIsANumber();
  }

  lemma ListTokens()
    ensures ValueTokens(ListValue([ListValue([]), ListValue([ONE])]))
              == [Punct(LBRACKET), Punct(LBRACKET), Punct(RBRACKET), Punct(LBRACKET), IntToken([0x31]), Punct(RBRACKET), Punct(RBRACKET)]
    ensures ValueTokens(ListValue([ListValue([ListValue([]), ONE])]))
              == [Punct(LBRACKET), Punct(LBRACKET), Punct(LBRACKET), Punct(RBRACKET), IntToken([0x31]), Punct(RBRACKET), Punct(RBRACKET)]
  {
    assert ItemsTokens([]) == [] && ValueTokens(ONE) == [IntToken([0x31])];
    hide ValueTokens, ItemsTokens;
    var e, l, m := ListValue([]), ListValue([ONE]), ListValue([ListValue([]), ONE]);
    ListIs([]);
    ListIs([ONE]);
    ListIs([e, l]);
    ListIs([e, ONE]);
    ListIs([m]);
    OneItem(ONE);
    TwoItems(e, l);
    TwoItems(e, ONE);
    OneItem(m);
  }

  lemma ListSpelled()
    ensures Spells(LIST_SOURCE, QueryOf(ListValue([ListValue([]), ListValue([ONE])])))
  {
    hide Tokens, ValueTokens, DocumentTokens, WfDefinitions, ItemsTokens, Fits, WfValue, ValueDepth;
    var s, e, l := LIST_SOURCE, ListValue([]), ListValue([ONE]);
    var us := TailThen(s, 11);
    us := OneThen(s, 10, us);
    us := PunctThen(s, 9, LBRACKET, us);
    GapThen(s, 8);
    us := PunctThen(s, 7, RBRACKET, us);
    us := PunctThen(s, 6, LBRACKET, us);
    us := PunctThen(s, 5, LBRACKET, us);
    HeadThen(s, us);
    OneIsWf();
    ListsAre(ONE);
    ListTokens();
    assert us == ValueTokens(ListValue([e, l])) + [Punct(RPAREN), Punct(RBRACE)];
    QueryIs(ListValue([e, l]));
  }

  /** `{f(a:[[[],1]])}` */
  const NESTED_SOURCE: bytes :=
    [LBRACE, 0x66, LPAREN, 0x61, COLON, LBRACKET, LBRACKET, LBRACKET, RBRACKET, COMMA, 0x31, RBRACKET, RBRACKET, RPAREN, RBRACE]

  lemma NestedSpelled()
    ensures Spells(NESTED_SOURCE, QueryOf(ListValue([ListValue([ListValue([]), ONE])])))
  {
    hide Tokens, ValueTokens, DocumentTokens, WfDefinitions, ItemsTokens, Fits, WfValue, ValueDepth;
    var s, e, m := NESTED_SOURCE, ListValue([]), ListValue([ListValue([]), ONE]);
    var us := TailThen(s, 11);
    us := OneThen(s, 10, us);
    GapThen(s, 9);
    us := PunctThen(s, 8, RBRACKET, us);
    us := PunctThen(s, 7, LBRACKET, us);
    us := PunctThen(s, 6, LBRACKET, us);
    us := PunctThen(s, 5, LBRACKET, us);
    HeadThen(s, us);
    OneIsWf();
    ListsAre(ONE);
    ListTokens();
    assert us == ValueTokens(ListValue([m])) + [Punct(RPAREN), Punct(RBRACE)];
    QueryIs(ListValue([m]));
  }

  /** `{f(a:[[],[1]])}` and `{f(a:[[[],1]])}` are both accepted, with the same bytes. */
  lemma SmallestSources(o: Options)
    requires o.ignore == Nothing && LimitOf(o) >= 2
    ensures WrittenAlike(LIST_SOURCE, NESTED_SOURCE, o)
  {
    var e, l, m := ListValue([]), ListValue([ONE]), ListValue([ListValue([]), ONE]);
    var v, w := ListValue([e, l]), ListValue([m]);
    OneIsWf();
    ListsAre(ONE);
    hide SerDocument, Spells, WrittenAlike, EncValue, Clear, Fits, WfDefinitions, PlainDocument, IsNumberText;
    EmptyListWitness(ONE);
    QueryIs(v);
    QueryFits(v, LimitOf(o));
    QueryIs(w);
    QueryFits(w, LimitOf(o));
    QueriesAlike(v, w);
    ListSpelled();
    NestedSpelled();
    AlikeIs(LIST_SOURCE, QueryOf(v), NESTED_SOURCE, QueryOf(w), o);
  }
}
