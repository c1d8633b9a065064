/**
 Which error a rejected source gets, stated on tokens and documents alone: the parser reports
 the first token that no document of the grammar has there, and says that it is a variable if
 a constant could have stood in its place.
 */
module Blame {
  import opened Bytes
  import opened Lexical
  import opened Ast
  import opened Grammar
  import opened Soundness
  import opened Faults
  import opened Locality
  import opened Replay
  import opened Printing
  import D = Descent
  import Completeness
  import F = Faults
  import Limits

  /** Some document is written with these tokens first. */
  ghost predicate Begins(ts: seq<Token>) {
    exists d: Document :: WfDocument(d) && ts <= DocumentTokens(d)
  }

  /** The token that begins at s[j]. A malformed string counts as a string, and a malformed
      number as a number. */
  function Head(s: bytes, j: nat): Option<Token>
    requires j < |s|
  {
    if Lex(s, j).Ok? then Some(Lex(s, j).v)
    else if s[j] == QUOTE then Some(ANY_STRING)
    else if s[j] == MINUS || IsDigit(s[j]) then Some(ANY_NUMBER)
    else None
  }

  /** The error of a source of which the tokens us were read up to i, if it is no document. */
  ghost function Blamed(s: bytes, i: nat, us: seq<Token>): (r: R<()>)
    requires i <= |s|
    ensures r.Err?
    decreases |s| - i
  {
    var j := Skip(s, i);
    if j == |s| then Err(UnexpectedEOF, j)
    else if Head(s, j).None? || !Begins(us + [Head(s, j).value]) then
      Err(if s[j] == DOLLAR && Begins(us + [ANY_NUMBER]) then UnexpectedVariable else UnexpectedToken, j)
    else if Lex(s, j).Err? then Err(Lex(s, j).e, Lex(s, j).pos)
    else Blamed(s, Lex(s, j).next, us + [Lex(s, j).v])
  }

  // ----- Up to the site

  lemma BeginsLess(ts: seq<Token>, us: seq<Token>)
    requires Begins(us) && ts <= us
    ensures Begins(ts)
  {
    var d :| WfDocument(d) && us <= DocumentTokens(d);
    assert ts <= DocumentTokens(d);
  }

  lemma BlamedSkip(s: bytes, i: nat, j: nat, us: seq<Token>)
    requires i <= |s| && j <= |s| && Skip(s, i) == Skip(s, j)
    ensures Blamed(s, i, us) == Blamed(s, j, us)
  {
    hide Skip, Lex, Head, Begins;
  }

  lemma BlamedStep(s: bytes, i: nat, us: seq<Token>)
    requires i <= |s| && Skip(s, i) < |s| && Lex(s, Skip(s, i)).Ok? && Begins(us + [Lex(s, Skip(s, i)).v])
    ensures Blamed(s, i, us) == Blamed(s, Lex(s, Skip(s, i)).next, us + [Lex(s, Skip(s, i)).v])
  {
    hide Skip, Lex, Begins;
  }

  /** What begins a document is read. */
  lemma {:induction false} BlamedWalk(s: bytes, i: nat, us: seq<Token>, ts: seq<Token>, q: nat)
    requires Reads(s, i, ts, q) && Begins(us + ts)
    ensures Blamed(s, i, us) == Blamed(s, q, us + ts)
    decreases |ts|
  {
    hide Skip, Lex, Begins, Blamed;
    if ts == [] {
      Unit(us);
      BlamedSkip(s, i, q, us);
    } else {
      var h := ts[0];
      assert us + [h] + ts[1..] == us + ts;
      BeginsLess(us + [h], us + ts);
      BlamedStep(s, i, us);
      BlamedWalk(s, Lex(s, Skip(s, i)).next, us + [h], ts[1..], q);
    }
  }

  // ----- At the site

  lemma {:induction false} ReadsRuns(s: bytes, i: nat, ts: seq<Token>, q: nat)
    requires Reads(s, i, ts, q) && q < |s| && Skip(s, q) == q
    ensures i <= q && Runs(s, i, ts, q)
    decreases |ts|
  {
    hide Skip, Lex;
    if ts != [] {
      ReadsRuns(s, Lex(s, Skip(s, i)).next, ts[1..], q);
    }
  }

  /** h is the token at s[q], or a number where a variable stands. */
  predicate MayStand(s: bytes, q: nat, e: Error, h: Token)
    requires q < |s|
  {
    (Head(s, q) == Some(h) && (e == UnexpectedVariable ==> s[q] == DOLLAR))
    || (e == UnexpectedToken && s[q] == DOLLAR && h == ANY_NUMBER)
  }

  /** The source with the tokens rest from q on. */
  function Instead(s: bytes, q: nat, rest: seq<Token>): bytes
    requires q <= |s| && AllTokens(rest)
  {
    s[..q] + Print(rest)
  }

  lemma InsteadRead(s: bytes, q: nat, rest: seq<Token>)
    requires q <= |s| && AllTokens(rest) && rest != []
    ensures var t := Instead(s, q, rest);
            && q < |t| && SameTo(s, t, q) && Tokens(t, q) == Some(rest)
            && Skip(t, q) == q && Lex(t, q).Ok? && Lex(t, q).v == rest[0]
  {
    hide Tokens, Spelling, IsToken, Skip, Lex;
    var t := Instead(s, q, rest);
    assert t[q..] == Print(rest);
    PrintRead(t, q, rest);
    var w := Spelling(rest[0]);
    assert Print(rest) == w + ([SPACE] + Print(rest[1..]));
    assert w <= t[q..];
    assert t[q + |w|] == t[q..][|w|] == SPACE;
    assert EndsAt(rest[0], t, q + |w|);
    TokenLexed(t, q, rest[0]);
  }

  lemma NameShape(s: bytes, q: nat)
    requires q < |s|
    ensures var n := D.Name(s, q);
            if n.Ok? then IsNameStart(s[q]) && n.next == q + |n.v| && n.v != [] && n.v[0] == s[q]
            else n == Err(UnexpectedToken, q) && !IsNameStart(s[q])
  {
    hide NameEnd;
  }

  lemma NumberShape(s: bytes, q: nat)
    requires q < |s| && (s[q] == MINUS || IsDigit(s[q])) && Number(s, q).Ok?
    ensures s[q..Number(s, q).next] != [] && s[q..Number(s, q).next][0] == s[q]
  {
    hide Number;
  }

  /** A token looks the same wherever it stands. */
  lemma LooksSame(s: bytes, t: bytes, q: nat)
    requires q < |s| && q < |t| && Lex(s, q).Ok? && Lex(t, q).Ok? && Lex(s, q).v == Lex(t, q).v
    ensures s[q] == t[q] && HasPrefixAt(s, q, D.ELLIPSIS) == HasPrefixAt(t, q, D.ELLIPSIS) && D.Name(s, q) == D.Name(t, q)
  {
    hide NameEnd, D.StringToken, Number, D.Name, Lex, HasPrefixAt;
    LexIs(s, q);
    LexIs(t, q);
    Completeness.TokenTells(s, q);
    Completeness.TokenTells(t, q);
    FirstByte(s, q, D.ELLIPSIS);
    FirstByte(t, q, D.ELLIPSIS);
    NameShape(s, q);
    NameShape(t, q);
    if s[q] == MINUS || IsDigit(s[q]) {
      NumberShape(s, q);
      NumberShape(t, q);
    }
  }

  lemma Visible(s: bytes, q: nat)
    requires q < |s| && Head(s, q).Some?
    ensures IsVisible(s[q])
  {
    hide NameEnd, D.StringToken, Number;
    FirstByte(s, q, D.ELLIPSIS);
  }

  /** The first byte of t[q] is that of s[q], or a minus sign. */
  lemma FirstBytes(s: bytes, t: bytes, q: nat, e: Error, h: Token)
    requires q < |s| && q < |t| && MayStand(s, q, e, h) && Lex(t, q).Ok? && Lex(t, q).v == h
    requires e == UnexpectedToken || e == UnexpectedVariable || e == TooDeep
    ensures if s[q] == t[q] then
              HasPrefixAt(s, q, D.ELLIPSIS) == HasPrefixAt(t, q, D.ELLIPSIS) && D.Name(s, q) == D.Name(t, q)
            else (e == UnexpectedToken || e == TooDeep) && t[q] == MINUS && (s[q] == DOLLAR || IsDigit(s[q]))
    ensures IsVisible(s[q]) && IsVisible(t[q]) && (s[q] == t[q] || IsApart(t[q]))
  {
    hide NameEnd, D.StringToken, Number, Lex, D.Name, HasPrefixAt;
    Visible(t, q);
    if Lex(s, q).Ok? && Lex(s, q).v == h {
      Visible(s, q);
      LooksSame(s, t, q);
    } else {
      Malformed(s, q, e, h);
      Representative(t, q);
      NotNames(s, t, q);
    }
  }

  lemma NotNames(s: bytes, t: bytes, q: nat)
    requires q < |s| && q < |t| && s[q] != DOT && t[q] != DOT && !IsNameStart(s[q]) && !IsNameStart(t[q])
    ensures !HasPrefixAt(s, q, D.ELLIPSIS) && !HasPrefixAt(t, q, D.ELLIPSIS)
    ensures D.Name(s, q) == Err(UnexpectedToken, q) == D.Name(t, q)
  {
    FirstByte(s, q, D.ELLIPSIS);
    FirstByte(t, q, D.ELLIPSIS);
  }

  lemma Malformed(s: bytes, q: nat, e: Error, h: Token)
    requires q < |s| && MayStand(s, q, e, h) && !(Lex(s, q).Ok? && Lex(s, q).v == h)
    requires e == UnexpectedToken || e == UnexpectedVariable || e == TooDeep
    ensures (h == ANY_STRING && s[q] == QUOTE)
            || (h == ANY_NUMBER && (s[q] == MINUS || (e == UnexpectedToken && s[q] == DOLLAR)
                                    || ((e == UnexpectedToken || e == TooDeep) && IsDigit(s[q]))))
  {
    hide NameEnd, D.StringToken, Number;
  }

  lemma Representative(t: bytes, q: nat)
    requires q < |t| && Lex(t, q).Ok?
    ensures Lex(t, q).v == ANY_STRING ==> t[q] == QUOTE
    ensures Lex(t, q).v == ANY_NUMBER ==> t[q] == MINUS
  {
    hide NameEnd, D.StringToken, Number, HasPrefixAt;
    if t[q] == MINUS || IsDigit(t[q]) {
      var v := Number(t, q);
      if v.Ok? {
        assert t[q..v.next][0] == t[q];
      }
    }
  }

  lemma StandsAlike(s: bytes, t: bytes, q: nat, e: Error, h: Token)
    requires q < |s| && q < |t| && SameTo(s, t, q) && Skip(s, q) == q && Skip(t, q) == q
    requires e == UnexpectedToken || e == UnexpectedVariable || e == TooDeep
    requires MayStand(s, q, e, h) && Lex(t, q).Ok? && Lex(t, q).v == h
    ensures Alike(s, t, q, e)
  {
    hide NameEnd, D.StringToken, Number, Lex, D.Name, HasPrefixAt, Skip, SameTo, MayStand, IsNameCont;
    FirstBytes(s, t, q, e, h);
  }

  /** Only too deep a document goes on from what is refused, and only if that is the error. */
  lemma Refuted(s: bytes, limit: nat, us: seq<Token>, q: nat, e: Error, h: Token, d: Document)
    requires D.ParseDocument(s, limit) == Err(e, q) && (e == UnexpectedToken || e == UnexpectedVariable || e == TooDeep)
    requires q < |s| && Reads(s, 0, us, q) && Skip(s, q) == q && MayStand(s, q, e, h)
    requires WfDocument(d) && us + [h] <= DocumentTokens(d)
    ensures e == TooDeep && !Fits(d, limit)
  {
    hide *;
    var rest := Continued(us, h, d);
    var t := Instead(s, q, rest);
    InsteadRead(s, q, rest);
    StandsAlike(s, t, q, e, h);
    ReadsOn(s, 0, us, q);
    DocumentSame(s, t, q, e, limit);
    AlikeAgree(s, t, q, e);
    ReadsRuns(s, 0, us, q);
    RunsSame(s, t, q, 0, us);
    Completeness.DocumentComplete(t, d, limit);
  }

  /** What is refused, but not for its depth, does not go on to any document. */
  lemma NotBegun(s: bytes, limit: nat, us: seq<Token>, q: nat, e: Error, h: Token)
    requires D.ParseDocument(s, limit) == Err(e, q) && (e == UnexpectedToken || e == UnexpectedVariable)
    requires q < |s| && Reads(s, 0, us, q) && Skip(s, q) == q && MayStand(s, q, e, h)
    ensures !Begins(us + [h])
  {
    hide DocumentTokens, WfDocument, Reads, Skip, MayStand, D.ParseDocument, Fits;
    if Begins(us + [h]) {
      var d :| WfDocument(d) && us + [h] <= DocumentTokens(d);
      Refuted(s, limit, us, q, e, h, d);
    }
  }

  lemma AlikeAgree(s: bytes, t: bytes, q: nat, e: Error)
    requires Alike(s, t, q, e)
    ensures Agree(s, t, q)
  {
  }

  lemma Continued(us: seq<Token>, h: Token, d: Document) returns (rest: seq<Token>)
    requires WfDocument(d) && us + [h] <= DocumentTokens(d)
    ensures DocumentTokens(d) == us + rest && rest != [] && rest[0] == h && AllTokens(rest)
  {
    hide AllTokens, DocumentTokens;
    var ts := DocumentTokens(d);
    rest := ts[|us|..];
    assert ts[..|us| + 1] == us + [h];
    assert ts[..|us|] == us;
    DocumentPrints(d);
    assert ts == us + rest;
    AllCat(us, rest);
  }

  // ----- The error

  lemma BlamedAtEnd(s: bytes, us: seq<Token>)
    ensures Blamed(s, |s|, us) == Err(UnexpectedEOF, |s|)
  {
  }

  lemma BlamedHere(s: bytes, q: nat, us: seq<Token>)
    requires q < |s| && Skip(s, q) == q
    ensures Blamed(s, q, us) ==
            if Head(s, q).None? || !Begins(us + [Head(s, q).value]) then
              Err(if s[q] == DOLLAR && Begins(us + [ANY_NUMBER]) then UnexpectedVariable else UnexpectedToken, q)
            else if Lex(s, q).Err? then Err(Lex(s, q).e, Lex(s, q).pos)
            else Blamed(s, Lex(s, q).next, us + [Lex(s, q).v])
  {
    hide Skip, Lex, Head, Begins;
  }

  /** A token that is refused. */
  lemma RefusedHere(s: bytes, limit: nat, us: seq<Token>, q: nat, e: Error)
    requires D.ParseDocument(s, limit) == Err(e, q) && q < |s| && Reads(s, 0, us, q) && Skip(s, q) == q
    requires e == UnexpectedToken || (e == UnexpectedVariable && s[q] == DOLLAR && Begins(us + [ANY_NUMBER]))
    ensures Head(s, q).None? || !Begins(us + [Head(s, q).value])
    ensures e == UnexpectedVariable <==> s[q] == DOLLAR && Begins(us + [ANY_NUMBER])
  {
    hide Skip, Lex, Begins, Head, Reads, D.ParseDocument;
    if Head(s, q).Some? {
      NotBegun(s, limit, us, q, e, Head(s, q).value);
    }
    if e == UnexpectedToken && s[q] == DOLLAR {
      NotBegun(s, limit, us, q, e, ANY_NUMBER);
    }
  }

  /** Where a source that is not too deep goes wrong. The tokens us before q begin a document.
      At q there is nothing more; or a token that goes on to one and is malformed, and then the
      error is the token's own; or one that goes on to none. */
  lemma ErrorSite(s: bytes, limit: nat) returns (us: seq<Token>, q: nat)
    requires D.ParseDocument(s, limit).Err? && D.ParseDocument(s, limit).e != TooDeep
    ensures Reads(s, 0, us, q) && Skip(s, q) == q && Begins(us)
    ensures var r := D.ParseDocument(s, limit);
            if q == |s| then r == Err(UnexpectedEOF, q)
            else if Head(s, q).Some? && Begins(us + [Head(s, q).value]) then Lex(s, q) == Err(r.e, r.pos)
            else r == Err(if s[q] == DOLLAR && Begins(us + [ANY_NUMBER]) then UnexpectedVariable else UnexpectedToken, q)
  {
    hide Skip, Lex, Head, Reads, D.ParseDocument, Begun, DocumentTokens, WfDocument;
    var r := D.ParseDocument(s, limit);
    var f, d := DocumentFault(s, limit);
    us, q := f.us, f.q;
    BeginsIs(f, d);
    if q < |s| {
      SiteIs(s, q, r.e, r.pos, f.more);
      if f.more == [ANY_STRING] || (f.more == [ANY_NUMBER] && s[q] != DOLLAR) {
        HeadIs(s, q, r.e, r.pos, f.more);
      } else {
        RefusedHere(s, limit, us, q, r.e);
      }
    }
  }

  lemma BeginsIs(f: Fault, d: Document)
    requires WfDocument(d) && Begun(f, DocumentTokens(d))
    ensures Begins(f.us) && Begins(f.us + f.more)
  {
    hide DocumentTokens, WfDocument;
    assert f.us <= f.us + f.more;
  }

  lemma SiteIs(s: bytes, q: nat, e: Error, p: nat, more: seq<Token>)
    requires q < |s| && Site(s, q, e, p, more) && e != TooDeep
    ensures
      || (e == UnexpectedToken && p == q && more == [])
      || (e == UnexpectedVariable && p == q && s[q] == DOLLAR && more == [ANY_NUMBER])
      || (Lex(s, q) == Err(e, p) && s[q] == QUOTE && more == [ANY_STRING])
      || (Lex(s, q) == Err(e, p) && (s[q] == MINUS || IsDigit(s[q])) && more == [ANY_NUMBER])
  {
  }

  lemma HeadIs(s: bytes, q: nat, e: Error, p: nat, more: seq<Token>)
    requires q < |s| && Lex(s, q) == Err(e, p)
    requires (s[q] == QUOTE && more == [ANY_STRING]) || ((s[q] == MINUS || IsDigit(s[q])) && more == [ANY_NUMBER])
    ensures Head(s, q).Some? && [Head(s, q).value] == more
  {
    hide Lex;
  }

  /** The error of a source that is not too deep, under any limit, is the one that its tokens
      tell: the first that no document has there is to blame. */
  lemma ErrorExactly(s: bytes, limit: nat)
    requires D.ParseDocument(s, limit).Err? && D.ParseDocument(s, limit).e != TooDeep
    ensures var r := D.ParseDocument(s, limit);
            Blamed(s, 0, []) == Err(r.e, r.pos)
  {
    hide Skip, Lex, Head, Begins, Reads, D.ParseDocument, Blamed;
    var us, q := ErrorSite(s, limit);
    Unit(us);
    BlamedWalk(s, 0, [], us, q);
    if q == |s| {
      BlamedAtEnd(s, us);
    } else {
      BlamedHere(s, q, us);
    }
  }

  // ----- Why a number tells

  /** `{f($x:1)}` */
  const NAMELESS: bytes := [0x7b, 0x66, 0x28, 0x24, 0x78, 0x3a, 0x31, 0x29, 0x7d]

  /** A variable where the name of an argument belongs is an UnexpectedToken, although `null`
      could stand there: it is a name as well as a constant. */
  lemma NullDoesNotTell(limit: nat)
    requires limit >= 1
    ensures D.ParseDocument(NAMELESS, limit) == Err(UnexpectedToken, 3) && NAMELESS[3] == DOLLAR
    ensures Begins([Punct(LBRACE), NameToken([0x66]), Punct(LPAREN), NameToken(KW_NULL)])
    ensures !Begins([Punct(LBRACE), NameToken([0x66]), Punct(LPAREN), ANY_NUMBER])
  {
    hide *;
    NamelessName();
    NamelessRead();
    NamelessRejected(limit);
    NullArgument();
    var us := [Punct(LBRACE), NameToken([0x66]), Punct(LPAREN)];
    NotBegun(NAMELESS, limit, us, 3, UnexpectedToken, ANY_NUMBER);
    assert us + [ANY_NUMBER] == [Punct(LBRACE), NameToken([0x66]), Punct(LPAREN), ANY_NUMBER];
  }

  lemma NamelessSkips(k: nat)
    requires k <= 3
    ensures Skip(NAMELESS, k) == k
  {
    NothingToSkip(NAMELESS, k);
  }

  lemma NamelessRead()
    ensures Reads(NAMELESS, 0, [Punct(LBRACE), NameToken([0x66]), Punct(LPAREN)], 3) && Skip(NAMELESS, 3) == 3
    ensures MayStand(NAMELESS, 3, UnexpectedToken, ANY_NUMBER) && 3 < |NAMELESS|
  {
    var s := NAMELESS;
    NamelessName();
    hide Skip, Lex, Reads, Head;
    NamelessSkips(0);
    NamelessSkips(1);
    NamelessSkips(2);
    NamelessSkips(3);
    ReadsOpen(s, 0, LBRACE);
    ReadsName(s, 1);
    ReadsOpen(s, 2, LPAREN);
    ReadsBoth(s, 1, [NameToken([0x66])], 2, [Punct(LPAREN)], 3);
    ReadsBoth(s, 0, [Punct(LBRACE)], 1, [NameToken([0x66])] + [Punct(LPAREN)], 3);
    assert [Punct(LBRACE)] + ([NameToken([0x66])] + [Punct(LPAREN)]) == [Punct(LBRACE), NameToken([0x66]), Punct(LPAREN)];
  }

  lemma NamelessName()
    ensures D.Name(NAMELESS, 1) == Ok([0x66], 2) && D.Name(NAMELESS, 3) == Err(UnexpectedToken, 3)
    ensures !HasPrefixAt(NAMELESS, 1, D.ELLIPSIS)
    ensures |NAMELESS| == 9 && NAMELESS[0] == LBRACE && NAMELESS[2] == LPAREN && NAMELESS[3] == DOLLAR && IsPunctuator(LBRACE) && IsPunctuator(LPAREN)
  {
    var s := NAMELESS;
    assert NameEnd(s, 2) == 2;
    assert s[1..2] == [0x66];
    NoEllipsis(s, 1);
  }

  lemma NamelessRejected(limit: nat)
    requires limit >= 1
    ensures D.ParseDocument(NAMELESS, limit) == Err(UnexpectedToken, 3)
  {
    var s := NAMELESS;
    assert |s| == 9 && s[0] != QUOTE && s[2] != COLON;
    NamelessName();
    NamelessSkips(0);
    NamelessSkips(1);
    NamelessSkips(2);
    NamelessSkips(3);
    hide Skip, D.ParseArgument, D.ParseArguments, D.FieldArguments, D.ParseFieldRest, D.ParseSelection, D.ParseSelectionSet,
         D.ParseDefinition, D.ParseDefinitions, D.Description, D.ParseField, D.Name, NAMELESS;
    F.ArgumentIs(s, 3, false, limit);
    Replay.FieldIs(s, 3, false, limit);
    Replay.ArgumentsAre(s, 3, false, limit);
    Replay.ArgumentsOfIs(s, 2, limit);
    Replay.FieldRestIs(s, 2, None, [0x66], 1, limit);
    F.NameIs(s, 1, 1, limit);
    F.SelectionSetIs(s, 0, 0, limit);
    Replay.DescriptionIs(s, 0);
    Replay.DefinitionIs(s, 0, limit);
    Replay.DefinitionsAre(s, 0, limit);
  }

  const NULL_ARGUMENT: Argument := Argument(KW_NULL, IntValue([MINUS, ZERO]))

  /** `{f(null:-0)}` */
  const NULL_NAMED: Definition := Operation(None, true, Query, None, [], [], [Field(None, [0x66], [NULL_ARGUMENT], [], [])])

  lemma NullNamedWf()
    ensures WfDocument([NULL_NAMED])
  {
    Smallest();
    var x := NULL_NAMED.selections[0];
    assert [NULL_ARGUMENT][1..] == [] && [x][1..] == [] && [NULL_NAMED][1..] == [];
    assert WfArguments([NULL_ARGUMENT], false);
    assert WfSelection(x) && WfSelections([x]);
  }

  lemma NullNamedTokens()
    ensures [Punct(LBRACE), NameToken([0x66]), Punct(LPAREN), NameToken(KW_NULL)] <= DocumentTokens([NULL_NAMED])
  {
    var a, x := NULL_ARGUMENT, NULL_NAMED.selections[0];
    var args := ArgumentsTokens([a]);
    assert [a][1..] == [] && [x][1..] == [] && [NULL_NAMED][1..] == [];
    assert ArgumentListTokens([a])[0] == ArgumentTokens(a)[0] == NameToken(KW_NULL);
    assert args[0] == Punct(LPAREN) && args[1] == NameToken(KW_NULL);
    hide ArgumentsTokens;
    assert SelectionTokens(x)[0] == NameToken([0x66]) && SelectionTokens(x)[1..3] == args[..2];
    hide SelectionTokens;
    assert SelectionsTokens([x]) == SelectionTokens(x) + [];
    assert DocumentTokens([NULL_NAMED]) == SelectionSetTokens([x]) + [];
  }

  lemma NullArgument()
    ensures Begins([Punct(LBRACE), NameToken([0x66]), Punct(LPAREN), NameToken(KW_NULL)])
  {
    hide WfDocument, DocumentTokens, NULL_NAMED;
    NullNamedWf();
    NullNamedTokens();
  }

  // ----- Depth

  /** Some document within the limit is written with these tokens first. */
  ghost predicate BeginsWithin(ts: seq<Token>, limit: nat) {
    exists d: Document :: WfDocument(d) && Fits(d, limit) && ts <= DocumentTokens(d)
  }

  /** A source is too deep right after a bracket or a brace. What was read up to there begins a
      document; with the token that follows none that is within the limit. */
  lemma TooDeepSite(s: bytes, limit: nat) returns (us: seq<Token>)
    requires D.ParseDocument(s, limit).Err? && D.ParseDocument(s, limit).e == TooDeep
    ensures var q := D.ParseDocument(s, limit).pos;
            && Reads(s, 0, us, q) && Skip(s, q) == q && Begins(us) && JustOpened(us)
            && (q < |s| && Head(s, q).Some? ==> !BeginsWithin(us + [Head(s, q).value], limit))
  {
    hide Skip, Lex, Head, Reads, D.ParseDocument, Begun, DocumentTokens, WfDocument, Fits;
    var r := D.ParseDocument(s, limit);
    var f, d := DocumentFault(s, limit);
    us := f.us;
    BeginsIs(f, d);
    if r.pos < |s| && Head(s, r.pos).Some? {
      var h := Head(s, r.pos).value;
      if BeginsWithin(us + [h], limit) {
        var deep :| WfDocument(deep) && Fits(deep, limit) && us + [h] <= DocumentTokens(deep);
        Refuted(s, limit, us, r.pos, TooDeep, h, deep);
      }
    }
  }
}
