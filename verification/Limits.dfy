/**
 The depth limit and the errors: a larger limit changes nothing but a TooDeep, which goes away
 or moves on, and a limit as large as the source is never reached.
 */
module Limits {
  import opened Bytes
  import opened Lexical
  import opened StringLine
  import opened BlockString
  import opened Ast
  import opened Descent

  // ----- No token is too deep

  lemma {:induction false} ContentsNotDeep(s: bytes, i: nat)
    requires i <= |s| && Contents(s, i).Err?
    ensures Contents(s, i).e != TooDeep
    decreases |s| - i
  {
    if i < |s| && Character(s, i).Ok? {
      hide Character;
      ContentsNotDeep(s, Character(s, i).next);
    }
  }

  lemma {:induction false} BlockNotDeep(s: bytes, i: nat)
    requires i <= |s| && BlockEnd(s, i).Err?
    ensures BlockEnd(s, i).e != TooDeep
    decreases |s| - i
  {
    if i < |s| && !HasPrefixAt(s, i, TRIPLE) {
      if HasPrefixAt(s, i, ESCAPED_TRIPLE) {
        BlockNotDeep(s, i + 4);
      } else if Utf8.SourceCharacterLen(s, i) > 0 {
        BlockNotDeep(s, i + Utf8.SourceCharacterLen(s, i));
      }
    }
  }

  lemma StringNotDeep(s: bytes, i: nat)
    requires i < |s| && s[i] == QUOTE && StringToken(s, i).Err?
    ensures StringToken(s, i).e != TooDeep
  {
    hide Contents, BlockEnd, BlockStringValue;
    if HasPrefixAt(s, i, TRIPLE) {
      BlockNotDeep(s, i + 3);
    } else {
      ContentsNotDeep(s, i + 1);
    }
  }

  lemma DescriptionNotDeep(s: bytes, i: nat)
    requires i < |s| && Description(s, i).Err?
    ensures Description(s, i).e != TooDeep
  {
    hide StringToken, Skip;
    if s[i] == QUOTE && StringToken(s, i).Err? {
      StringNotDeep(s, i);
    }
  }

  // ----- A larger limit

  /** q is what becomes of r under a larger limit. */
  ghost predicate Later<T>(r: R<T>, q: R<T>) {
    if r.Err? && r.e == TooDeep then
      && (q.Ok? ==> q.next > r.pos)
      && (q.Err? ==> q.pos >= r.pos && (q.e == TooDeep ==> q.pos > r.pos))
    else q == r
  }

  /** One bracket deeper: the value at j is read if room is left. */
  function Within(room: nat, j: nat, inner: R<Value>): R<Value> {
    if room == 0 then Err(TooDeep, j) else inner
  }

  lemma WithinIs(room: nat, j: nat, inner: R<Value>)
    ensures Within(room, j, inner) == if room == 0 then Err(TooDeep, j) else inner
  {
  }

  lemma WithinLater(room: nat, more: nat, j: nat, x: R<Value>, y: R<Value>)
    requires room < more && (room > 0 ==> Later(x, y))
    requires y.Ok? ==> y.next > j
    requires y.Err? ==> y.pos >= j && (y.e == TooDeep ==> y.pos > j)
    ensures Later(Within(room, j, x), Within(more, j, y))
  {
  }

  lemma LaterSame<T>(r: R<T>)
    requires r.Ok? || r.e != TooDeep
    ensures Later(r, r)
  {
  }

  /** A value is too deep only after its first byte. */
  lemma DeepAfter(s: bytes, i: nat, constant: bool, room: nat)
    requires i <= |s|
    ensures var r := ParseValue(s, i, constant, room);
            r.Err? && r.e == TooDeep ==> r.pos > i
  {
    hide ParseItems, ParseField, ParseFields, StringToken, Number, Skip, IsKeywordAt, NameEnd;
    if i < |s| && s[i] == QUOTE && StringToken(s, i).Err? {
      StringNotDeep(s, i);
    }
  }

  lemma FieldDeepAfter(s: bytes, i: nat, constant: bool, room: nat)
    requires i <= |s|
    ensures var r := ParseField(s, i, constant, room);
            r.Err? && r.e == TooDeep ==> r.pos > i
  {
    hide ParseValue, Skip, NameEnd;
  }

  lemma {:induction false} ValueLater(s: bytes, i: nat, constant: bool, room: nat, more: nat)
    requires i <= |s| && room < more
    ensures Later(ParseValue(s, i, constant, room), ParseValue(s, i, constant, more))
    decreases |s| - i, 1
  {
    hide StringToken, Number, Skip, IsKeywordAt, Name;
    if i < |s| && s[i] == LBRACKET {
      ListLater(s, i, constant, room, more);
    } else if i < |s| && s[i] == LBRACE {
      ObjectLater(s, i, constant, room, more);
    } else if i < |s| && s[i] == QUOTE && StringToken(s, i).Err? {
      StringNotDeep(s, i);
    } else {
      NameNotDeep(s, i);
    }
  }

  lemma NameNotDeep(s: bytes, i: nat)
    requires i <= |s|
    ensures Name(s, i).Err? ==> Name(s, i).e != TooDeep
    ensures i < |s| ==> (Name(s, Skip(s, i + 1)).Err? ==> Name(s, Skip(s, i + 1)).e != TooDeep)
  {
  }

  /** What follows the opening bracket of a list with items. */
  function ListRest(s: bytes, j: nat, constant: bool, room: nat): (r: R<Value>)
    requires j <= |s|
    ensures r.Ok? ==> j < r.next <= |s|
    ensures r.Err? ==> j <= r.pos <= |s|
  {
    var (v, k) :- ParseValue(s, j, constant, room);
    var (vs, m) :- ParseItems(s, k, constant, room);
    Ok(ListValue([v] + vs), m)
  }

  lemma ListIs(s: bytes, i: nat, constant: bool, room: nat)
    requires i < |s| && s[i] == LBRACKET
    ensures var j := Skip(s, i + 1);
            ParseValue(s, i, constant, room) ==
            if j < |s| && s[j] == RBRACKET then Ok(ListValue([]), j + 1)
            else Within(room, j, ListRest(s, j, constant, if room == 0 then 0 else room - 1))
  {
    hide ParseItems, Skip;
  }

  lemma {:induction false} ListLater(s: bytes, i: nat, constant: bool, room: nat, more: nat)
    requires i < |s| && s[i] == LBRACKET && room < more
    ensures Later(ParseValue(s, i, constant, room), ParseValue(s, i, constant, more))
    decreases |s| - i, 0
  {
    hide *;
    ListIs(s, i, constant, room);
    ListIs(s, i, constant, more);
    var j := Skip(s, i + 1);
    if j < |s| && s[j] == RBRACKET {
      LaterSame(ParseValue(s, i, constant, room));
    } else {
      if room > 0 {
        ListRestLater(s, j, constant, room - 1, more - 1);
      }
      ListRestAfter(s, j, constant, more - 1);
      WithinLater(room, more, j, ListRest(s, j, constant, if room == 0 then 0 else room - 1), ListRest(s, j, constant, more - 1));
    }
  }

  lemma ListRestAfter(s: bytes, j: nat, constant: bool, room: nat)
    requires j <= |s|
    ensures var r := ListRest(s, j, constant, room);
            r.Err? && r.e == TooDeep ==> r.pos > j
  {
    hide ParseValue, ParseItems;
    DeepAfter(s, j, constant, room);
  }

  lemma {:induction false} ListRestLater(s: bytes, j: nat, constant: bool, room: nat, more: nat)
    requires j <= |s| && room < more
    ensures Later(ListRest(s, j, constant, room), ListRest(s, j, constant, more))
    decreases |s| - j, 3
  {
    hide ParseValue, ParseItems;
    ValueLater(s, j, constant, room, more);
    var v := ParseValue(s, j, constant, room);
    if v.Ok? {
      ItemsLater(s, v.next, constant, room, more);
    }
  }

  lemma {:induction false} ItemsLater(s: bytes, i: nat, constant: bool, room: nat, more: nat)
    requires i <= |s| && room < more
    ensures Later(ParseItems(s, i, constant, room), ParseItems(s, i, constant, more))
    decreases |s| - i, 2
  {
    hide ParseValue, Skip;
    var j := Skip(s, i);
    if j < |s| && s[j] != RBRACKET {
      ValueLater(s, j, constant, room, more);
      var v := ParseValue(s, j, constant, room);
      if v.Ok? {
        ItemsLater(s, v.next, constant, room, more);
      }
    }
  }

  /** What follows the opening brace of an input object with fields. */
  function ObjectRest(s: bytes, j: nat, constant: bool, room: nat): (r: R<Value>)
    requires j <= |s|
    ensures r.Ok? ==> j < r.next <= |s|
    ensures r.Err? ==> j <= r.pos <= |s|
  {
    var (f, k) :- ParseField(s, j, constant, room);
    var (fs, m) :- ParseFields(s, k, constant, room);
    Ok(ObjectValue([f] + fs), m)
  }

  lemma ObjectIs(s: bytes, i: nat, constant: bool, room: nat)
    requires i < |s| && s[i] == LBRACE
    ensures var j := Skip(s, i + 1);
            ParseValue(s, i, constant, room) ==
            if j < |s| && s[j] == RBRACE then Ok(ObjectValue([]), j + 1)
            else Within(room, j, ObjectRest(s, j, constant, if room == 0 then 0 else room - 1))
  {
    hide ParseField, ParseFields, Skip;
  }

  lemma {:induction false} ObjectLater(s: bytes, i: nat, constant: bool, room: nat, more: nat)
    requires i < |s| && s[i] == LBRACE && room < more
    ensures Later(ParseValue(s, i, constant, room), ParseValue(s, i, constant, more))
    decreases |s| - i, 0
  {
    hide *;
    ObjectIs(s, i, constant, room);
    ObjectIs(s, i, constant, more);
    var j := Skip(s, i + 1);
    if j < |s| && s[j] == RBRACE {
      LaterSame(ParseValue(s, i, constant, room));
    } else {
      if room > 0 {
        ObjectRestLater(s, j, constant, room - 1, more - 1);
      }
      ObjectRestAfter(s, j, constant, more - 1);
      WithinLater(room, more, j, ObjectRest(s, j, constant, if room == 0 then 0 else room - 1), ObjectRest(s, j, constant, more - 1));
    }
  }

  lemma ObjectRestAfter(s: bytes, j: nat, constant: bool, room: nat)
    requires j <= |s|
    ensures var r := ObjectRest(s, j, constant, room);
            r.Err? && r.e == TooDeep ==> r.pos > j
  {
    hide ParseField, ParseFields;
    FieldDeepAfter(s, j, constant, room);
  }

  lemma {:induction false} ObjectRestLater(s: bytes, j: nat, constant: bool, room: nat, more: nat)
    requires j <= |s| && room < more
    ensures Later(ObjectRest(s, j, constant, room), ObjectRest(s, j, constant, more))
    decreases |s| - j, 3
  {
    hide ParseField, ParseFields;
    FieldLater(s, j, constant, room, more);
    var f := ParseField(s, j, constant, room);
    if f.Ok? {
      FieldsLater(s, f.next, constant, room, more);
    }
  }

  lemma {:induction false} FieldLater(s: bytes, i: nat, constant: bool, room: nat, more: nat)
    requires i <= |s| && room < more
    ensures Later(ParseField(s, i, constant, room), ParseField(s, i, constant, more))
    decreases |s| - i, 1
  {
    hide ParseValue, Skip, NameEnd;
    var n := Name(s, i);
    if n.Ok? {
      var k := Expect(s, Skip(s, n.next), COLON);
      if k.Ok? {
        ValueLater(s, Skip(s, k.next), constant, room, more);
      }
    }
  }

  lemma {:induction false} FieldsLater(s: bytes, i: nat, constant: bool, room: nat, more: nat)
    requires i <= |s| && room < more
    ensures Later(ParseFields(s, i, constant, room), ParseFields(s, i, constant, more))
    decreases |s| - i, 2
  {
    hide ParseField, Skip;
    var j := Skip(s, i);
    if j < |s| && s[j] != RBRACE {
      FieldLater(s, j, constant, room, more);
      var f := ParseField(s, j, constant, room);
      if f.Ok? {
        FieldsLater(s, f.next, constant, room, more);
      }
    }
  }

  lemma {:induction false} ArgumentsLater(s: bytes, i: nat, constant: bool, limit: nat, more: nat)
    requires i <= |s| && limit < more
    ensures Later(ParseArguments(s, i, constant, limit), ParseArguments(s, i, constant, more))
    decreases |s| - i, 1
  {
    hide ParseArgument;
    ArgumentLater(s, i, constant, limit, more);
    var a := ParseArgument(s, i, constant, limit);
    if a.Ok? {
      ArgumentsRestLater(s, a.next, constant, limit, more);
    }
  }

  lemma ArgumentLater(s: bytes, i: nat, constant: bool, limit: nat, more: nat)
    requires i <= |s| && limit < more
    ensures Later(ParseArgument(s, i, constant, limit), ParseArgument(s, i, constant, more))
  {
    hide ParseValue, Skip, NameEnd;
    var n := Name(s, i);
    if n.Ok? {
      var k := Expect(s, Skip(s, n.next), COLON);
      if k.Ok? {
        ValueLater(s, Skip(s, k.next), constant, limit, more);
      }
    }
  }

  lemma {:induction false} ArgumentsRestLater(s: bytes, i: nat, constant: bool, limit: nat, more: nat)
    requires i <= |s| && limit < more
    ensures Later(ArgumentsRest(s, i, constant, limit), ArgumentsRest(s, i, constant, more))
    decreases |s| - i, 2
  {
    hide ParseArguments, Skip;
    var j := Skip(s, i);
    if j < |s| && s[j] != RPAREN {
      ArgumentsLater(s, j, constant, limit, more);
    }
  }

  /** The directives after the name of one, at k. */
  function DirectiveRest(s: bytes, k: nat, n: bytes, constant: bool, limit: nat): (r: R<seq<Directive>>)
    requires k < |s|
    ensures r.Ok? ==> k <= r.next <= |s|
    ensures r.Err? ==> k <= r.pos <= |s|
  {
    if s[k] == LPAREN then
      var (xs, m) :- ParseArguments(s, Skip(s, k + 1), constant, limit);
      var (ds, e) :- ParseDirectives(s, Skip(s, m), constant, limit);
      Ok([Directive(n, xs)] + ds, e)
    else
      var (ds, e) :- ParseDirectives(s, k, constant, limit);
      Ok([Directive(n, [])] + ds, e)
  }

  lemma DirectivesAre(s: bytes, i: nat, constant: bool, limit: nat)
    requires i < |s| && s[i] == AT
    ensures ParseDirectives(s, i, constant, limit) ==
            match Name(s, Skip(s, i + 1))
            case Err(e, p) => Err(e, p)
            case Ok(n, j) =>
              if Skip(s, j) == |s| then Err(UnexpectedEOF, |s|) else DirectiveRest(s, Skip(s, j), n, constant, limit)
  {
    hide ParseArguments, Skip, Name;
  }

  lemma {:induction false} DirectivesLater(s: bytes, i: nat, constant: bool, limit: nat, more: nat)
    requires i <= |s| && limit < more
    ensures Later(ParseDirectives(s, i, constant, limit), ParseDirectives(s, i, constant, more))
    decreases |s| - i, 1
  {
    if i < |s| && s[i] == AT {
      DirectivesAre(s, i, constant, limit);
      DirectivesAre(s, i, constant, more);
      hide ParseDirectives, DirectiveRest, Skip, NameEnd;
      var n := Name(s, Skip(s, i + 1));
      if n.Ok? && Skip(s, n.next) < |s| {
        DirectiveRestLater(s, Skip(s, n.next), n.v, constant, limit, more);
      }
    }
  }

  lemma {:induction false} DirectiveRestLater(s: bytes, k: nat, n: bytes, constant: bool, limit: nat, more: nat)
    requires k < |s| && limit < more
    ensures Later(DirectiveRest(s, k, n, constant, limit), DirectiveRest(s, k, n, constant, more))
    decreases |s| - k, 2
  {
    hide ParseArguments, ParseDirectives, Skip;
    if s[k] == LPAREN {
      ArgumentsLater(s, Skip(s, k + 1), constant, limit, more);
      var xs := ParseArguments(s, Skip(s, k + 1), constant, limit);
      if xs.Ok? {
        DirectivesLater(s, Skip(s, xs.next), constant, limit, more);
      }
    } else {
      DirectivesLater(s, k, constant, limit, more);
    }
  }

  lemma {:induction false} TypeNotDeep(s: bytes, i: nat)
    requires i <= |s| && ParseType(s, i).Err?
    ensures ParseType(s, i).e != TooDeep
    decreases |s| - i
  {
    hide Skip, NameEnd;
    if i < |s| && s[i] == LBRACKET && ParseType(s, Skip(s, i + 1)).Err? {
      TypeNotDeep(s, Skip(s, i + 1));
    }
  }

  lemma DefaultLater(s: bytes, i: nat, limit: nat, more: nat)
    requires i <= |s| && limit < more
    ensures Later(ParseDefault(s, i, limit), ParseDefault(s, i, more))
  {
    hide ParseValue, Skip;
    var j := Skip(s, i);
    if j < |s| && s[j] == EQUALS {
      ValueLater(s, Skip(s, j + 1), true, limit, more);
    }
  }

  lemma VariableLater(s: bytes, i: nat, limit: nat, more: nat)
    requires i < |s| && limit < more
    ensures Later(ParseVariable(s, i, limit), ParseVariable(s, i, more))
  {
    hide Description, Skip, NameEnd, ParseType, ParseDefault, ParseDirectives;
    var d := Description(s, i);
    if d.Err? {
      DescriptionNotDeep(s, i);
      return;
    }
    var dollar := Expect(s, d.next, DOLLAR);
    if dollar.Ok? {
      var n := Name(s, Skip(s, dollar.next));
      if n.Ok? {
        var colon := Expect(s, Skip(s, n.next), COLON);
        if colon.Ok? {
          var t := ParseType(s, Skip(s, colon.next));
          if t.Err? {
            TypeNotDeep(s, Skip(s, colon.next));
          } else {
            DefaultLater(s, t.next, limit, more);
            var v := ParseDefault(s, t.next, limit);
            if v.Ok? {
              DirectivesLater(s, v.next, true, limit, more);
            }
          }
        }
      }
    }
  }

  lemma {:induction false} VariablesLater(s: bytes, i: nat, limit: nat, more: nat)
    requires i < |s| && limit < more
    ensures Later(ParseVariables(s, i, limit), ParseVariables(s, i, more))
    decreases |s| - i, 1
  {
    hide ParseVariable;
    VariableLater(s, i, limit, more);
    var v := ParseVariable(s, i, limit);
    if v.Ok? {
      VariablesRestLater(s, v.next, limit, more);
    }
  }

  lemma {:induction false} VariablesRestLater(s: bytes, i: nat, limit: nat, more: nat)
    requires i <= |s| && limit < more
    ensures Later(VariablesRest(s, i, limit), VariablesRest(s, i, more))
    decreases |s| - i, 2
  {
    hide ParseVariables, Skip;
    var j := Skip(s, i);
    if j < |s| && s[j] != RPAREN {
      VariablesLater(s, j, limit, more);
    }
  }

  /** A selection is too deep only after its first byte. */
  lemma {:induction false} SelectionDeepAfter(s: bytes, i: nat, depth: nat, limit: nat)
    requires i <= |s|
    ensures var r := ParseSelection(s, i, depth, limit);
            r.Err? && r.e == TooDeep ==> r.pos > i
  {
    hide ParseInline, ParseFieldRest, ParseDirectives, Skip, NameEnd, HasPrefixAt, IsKeywordAt;
    if HasPrefixAt(s, i, ELLIPSIS) {
      EllipsisWithin(s, i);
    }
  }

  lemma EllipsisWithin(s: bytes, i: nat)
    requires i <= |s| && HasPrefixAt(s, i, ELLIPSIS)
    ensures i + 3 <= |s|
  {
  }

  lemma {:induction false} SelectionSetLater(s: bytes, i: nat, depth: nat, limit: nat, more: nat)
    requires i <= |s| && depth <= limit < more
    ensures Later(ParseSelectionSet(s, i, depth, limit), ParseSelectionSet(s, i, depth, more))
    decreases |s| - i, 1
  {
    hide ParseSelection, SelectionsRest, Skip;
    if i < |s| && s[i] == LBRACE {
      var j := Skip(s, i + 1);
      SelectionDeepAfter(s, j, depth + 1, more);
      if depth + 1 <= limit {
        SelectionLater(s, j, depth + 1, limit, more);
        var x := ParseSelection(s, j, depth + 1, limit);
        if x.Ok? {
          SelectionsRestLater(s, x.next, depth + 1, limit, more);
        }
      }
    }
  }

  lemma {:induction false} SelectionsRestLater(s: bytes, i: nat, depth: nat, limit: nat, more: nat)
    requires i <= |s| && depth <= limit < more
    ensures Later(SelectionsRest(s, i, depth, limit), SelectionsRest(s, i, depth, more))
    decreases |s| - i, 3
  {
    hide ParseSelection;
    if i < |s| && s[i] != RBRACE {
      SelectionLater(s, i, depth, limit, more);
      var x := ParseSelection(s, i, depth, limit);
      if x.Ok? {
        SelectionsRestLater(s, x.next, depth, limit, more);
      }
    }
  }

  lemma {:induction false} SelectionLater(s: bytes, i: nat, depth: nat, limit: nat, more: nat)
    requires i <= |s| && depth <= limit < more
    ensures Later(ParseSelection(s, i, depth, limit), ParseSelection(s, i, depth, more))
    decreases |s| - i, 2, 1
  {
    if HasPrefixAt(s, i, ELLIPSIS) {
      EllipsisLater(s, i, depth, limit, more);
    } else {
      NamedLater(s, i, depth, limit, more);
    }
  }

  lemma {:induction false} EllipsisLater(s: bytes, i: nat, depth: nat, limit: nat, more: nat)
    requires i <= |s| && HasPrefixAt(s, i, ELLIPSIS) && depth <= limit < more
    ensures Later(ParseSelection(s, i, depth, limit), ParseSelection(s, i, depth, more))
    decreases |s| - i, 2, 0
  {
    hide ParseInline, ParseFieldRest, ParseDirectives, Skip, NameEnd, HasPrefixAt, IsKeywordAt;
    EllipsisWithin(s, i);
    var j := Skip(s, i + 3);
    if IsKeywordAt(s, j, KW_ON) {
      var t := Name(s, Skip(s, j + 2));
      if t.Ok? {
        InlineLater(s, Skip(s, t.next), Some(t.v), depth, limit, more);
      }
    } else if Name(s, j).Ok? {
      DirectivesLater(s, Skip(s, Name(s, j).next), false, limit, more);
    } else {
      InlineLater(s, j, None, depth, limit, more);
    }
  }

  lemma {:induction false} NamedLater(s: bytes, i: nat, depth: nat, limit: nat, more: nat)
    requires i <= |s| && !HasPrefixAt(s, i, ELLIPSIS) && depth <= limit < more
    ensures Later(ParseSelection(s, i, depth, limit), ParseSelection(s, i, depth, more))
    decreases |s| - i, 2, 0
  {
    hide ParseInline, ParseFieldRest, ParseDirectives, Skip, NameEnd, HasPrefixAt, IsKeywordAt;
    var n := Name(s, i);
    if n.Ok? {
      var k := Skip(s, n.next);
      if k < |s| && s[k] == COLON {
        var m := Name(s, Skip(s, k + 1));
        if m.Ok? && Skip(s, m.next) < |s| {
          FieldRestLater(s, Skip(s, m.next), Some(n.v), m.v, depth, limit, more);
        }
      } else if k < |s| {
        FieldRestLater(s, k, None, n.v, depth, limit, more);
      }
    }
  }

  /** Directives, and the selection set after them. */
  function DirectedSet(s: bytes, i: nat, depth: nat, limit: nat): (r: R<(seq<Directive>, seq<Selection>)>)
    requires i <= |s|
    ensures r.Ok? ==> i < r.next <= |s|
    ensures r.Err? ==> i <= r.pos <= |s|
  {
    var (ds, j) :- ParseDirectives(s, i, false, limit);
    var (ss, k) :- ParseSelectionSet(s, Skip(s, j), depth, limit);
    Ok((ds, ss), k)
  }

  lemma {:induction false} DirectedSetLater(s: bytes, i: nat, depth: nat, limit: nat, more: nat)
    requires i <= |s| && depth <= limit < more
    ensures Later(DirectedSet(s, i, depth, limit), DirectedSet(s, i, depth, more))
    decreases |s| - i, 2
  {
    hide ParseDirectives, ParseSelectionSet, Skip;
    DirectivesLater(s, i, false, limit, more);
    var ds := ParseDirectives(s, i, false, limit);
    if ds.Ok? {
      SelectionSetLater(s, Skip(s, ds.next), depth, limit, more);
    }
  }

  lemma {:induction false} InlineLater(s: bytes, i: nat, condition: Option<bytes>, depth: nat, limit: nat, more: nat)
    requires i <= |s| && depth <= limit < more
    ensures Later(ParseInline(s, i, condition, depth, limit), ParseInline(s, i, condition, depth, more))
    decreases |s| - i, 2
  {
    hide ParseDirectives, ParseSelectionSet, Skip;
    DirectivesLater(s, i, false, limit, more);
    var ds := ParseDirectives(s, i, false, limit);
    if ds.Ok? {
      SelectionSetLater(s, Skip(s, ds.next), depth, limit, more);
    }
  }

  lemma FieldArgumentsLater(s: bytes, i: nat, limit: nat, more: nat)
    requires i < |s| && limit < more
    ensures Later(FieldArguments(s, i, limit), FieldArguments(s, i, more))
  {
    hide ParseArguments, Skip;
    if s[i] == LPAREN {
      ArgumentsLater(s, Skip(s, i + 1), false, limit, more);
    }
  }

  /** Directives, and the selection set after them if there is one. */
  function FieldEnd(s: bytes, i: nat, depth: nat, limit: nat): (r: R<(seq<Directive>, seq<Selection>)>)
    requires i <= |s|
    ensures r.Ok? ==> i <= r.next <= |s|
    ensures r.Err? ==> i <= r.pos <= |s|
  {
    var (ds, j) :- ParseDirectives(s, i, false, limit);
    var (b, m) :- Peek(s, Skip(s, j));
    if b == LBRACE then
      var (ss, e) :- ParseSelectionSet(s, m, depth, limit);
      Ok((ds, ss), Skip(s, e))
    else Ok((ds, []), m)
  }

  lemma {:induction false} FieldEndLater(s: bytes, i: nat, depth: nat, limit: nat, more: nat)
    requires i <= |s| && depth <= limit < more
    ensures Later(FieldEnd(s, i, depth, limit), FieldEnd(s, i, depth, more))
    decreases |s| - i, 2
  {
    hide ParseDirectives, ParseSelectionSet, Skip;
    DirectivesLater(s, i, false, limit, more);
    var ds := ParseDirectives(s, i, false, limit);
    if ds.Ok? {
      var m := Skip(s, ds.next);
      if m < |s| && s[m] == LBRACE {
        SelectionSetLater(s, m, depth, limit, more);
      }
    }
  }

  function FieldOf(alias: Option<bytes>, name: bytes, xs: seq<Argument>, r: R<(seq<Directive>, seq<Selection>)>): R<Selection> {
    match r
    case Err(e, p) => Err(e, p)
    case Ok(v, k) => Ok(Field(alias, name, xs, v.0, v.1), k)
  }

  lemma FieldRestIs(s: bytes, i: nat, alias: Option<bytes>, name: bytes, depth: nat, limit: nat)
    requires i < |s|
    ensures var xs := FieldArguments(s, i, limit);
            ParseFieldRest(s, i, alias, name, depth, limit) ==
            if xs.Err? then Err(xs.e, xs.pos) else FieldOf(alias, name, xs.v, FieldEnd(s, xs.next, depth, limit))
  {
    hide FieldArguments, ParseDirectives, ParseSelectionSet, Skip;
  }

  lemma {:induction false} FieldRestLater(s: bytes, i: nat, alias: Option<bytes>, name: bytes, depth: nat, limit: nat, more: nat)
    requires i < |s| && depth <= limit < more
    ensures Later(ParseFieldRest(s, i, alias, name, depth, limit), ParseFieldRest(s, i, alias, name, depth, more))
    decreases |s| - i, 3
  {
    FieldRestIs(s, i, alias, name, depth, limit);
    FieldRestIs(s, i, alias, name, depth, more);
    hide ParseFieldRest, FieldArguments, FieldEnd;
    FieldArgumentsLater(s, i, limit, more);
    var xs := FieldArguments(s, i, limit);
    if xs.Ok? {
      FieldEndLater(s, xs.next, depth, limit, more);
    }
  }

  lemma OperationVariablesLater(s: bytes, i: nat, limit: nat, more: nat)
    requires i < |s| && limit < more
    ensures Later(OperationVariables(s, i, limit), OperationVariables(s, i, more))
  {
    hide ParseVariables, Skip;
    if s[i] == LPAREN && Skip(s, i + 1) < |s| {
      VariablesLater(s, Skip(s, i + 1), limit, more);
    }
  }

  function OperationOf(d: Option<bytes>, kind: Kind, n: Option<bytes>, vs: seq<VariableDefinition>,
                       r: R<(seq<Directive>, seq<Selection>)>): R<Definition> {
    match r
    case Err(e, p) => Err(e, p)
    case Ok(v, k) => Ok(Operation(d, false, kind, n, vs, v.0, v.1), k)
  }

  lemma OperationIs(s: bytes, i: nat, d: Option<bytes>, kind: Kind, limit: nat)
    requires i <= |s|
    ensures ParseOperation(s, i, d, kind, limit) ==
            match OperationName(s, i)
            case Err(e, p) => Err(e, p)
            case Ok(n, j) =>
              match OperationVariables(s, j, limit)
              case Err(e, p) => Err(e, p)
              case Ok(vs, k) => OperationOf(d, kind, n, vs, DirectedSet(s, k, 0, limit))
  {
    hide OperationName, OperationVariables, ParseDirectives, ParseSelectionSet, Skip;
  }

  lemma NameIsNotDeep(s: bytes, i: nat)
    requires i <= |s|
    ensures OperationName(s, i).Err? ==> OperationName(s, i).e != TooDeep
  {
    hide Skip, NameEnd;
  }

  lemma OperationLater(s: bytes, i: nat, d: Option<bytes>, kind: Kind, limit: nat, more: nat)
    requires i <= |s| && limit < more
    ensures Later(ParseOperation(s, i, d, kind, limit), ParseOperation(s, i, d, kind, more))
  {
    OperationIs(s, i, d, kind, limit);
    OperationIs(s, i, d, kind, more);
    hide ParseOperation, OperationName, OperationVariables, DirectedSet;
    NameIsNotDeep(s, i);
    var n := OperationName(s, i);
    if n.Ok? {
      OperationVariablesLater(s, n.next, limit, more);
      var vs := OperationVariables(s, n.next, limit);
      if vs.Ok? {
        DirectedSetLater(s, vs.next, 0, limit, more);
      }
    }
  }

  function FragmentOf(d: Option<bytes>, n: bytes, t: bytes, r: R<(seq<Directive>, seq<Selection>)>): R<Definition> {
    match r
    case Err(e, p) => Err(e, p)
    case Ok(v, k) => Ok(Fragment(d, n, t, v.0, v.1), k)
  }

  lemma FragmentIs(s: bytes, i: nat, d: Option<bytes>, limit: nat)
    requires i <= |s|
    ensures var n := Name(s, i);
            var k := if n.Ok? then Skip(s, n.next) else 0;
            ParseFragment(s, i, d, limit) ==
            if n.Err? then Err(n.e, n.pos)
            else if n.v == KW_ON then Err(UnexpectedToken, i)
            else if k == |s| then Err(UnexpectedEOF, k)
            else if !IsKeywordAt(s, k, KW_ON) then Err(UnexpectedToken, k)
            else
              var t := Name(s, Skip(s, k + 2));
              if t.Err? then Err(t.e, t.pos) else FragmentOf(d, n.v, t.v, DirectedSet(s, Skip(s, t.next), 0, limit))
  {
    hide Name, ParseDirectives, ParseSelectionSet, Skip, IsKeywordAt;
  }

  lemma FragmentOfLater(d: Option<bytes>, n: bytes, t: bytes, x: R<(seq<Directive>, seq<Selection>)>,
                        y: R<(seq<Directive>, seq<Selection>)>)
    requires Later(x, y)
    ensures Later(FragmentOf(d, n, t, x), FragmentOf(d, n, t, y))
  {
  }

  lemma NotDeepName(s: bytes, i: nat)
    requires i <= |s|
    ensures Name(s, i).Err? ==> Name(s, i).e != TooDeep
  {
  }

  lemma FragmentLater(s: bytes, i: nat, d: Option<bytes>, limit: nat, more: nat)
    requires i <= |s| && limit < more
    ensures Later(ParseFragment(s, i, d, limit), ParseFragment(s, i, d, more))
  {
    hide *;
    FragmentIs(s, i, d, limit);
    FragmentIs(s, i, d, more);
    var n := Name(s, i);
    NotDeepName(s, i);
    if n.Ok? && n.v != KW_ON && Skip(s, n.next) < |s| && IsKeywordAt(s, Skip(s, n.next), KW_ON) {
      var t := Name(s, Skip(s, Skip(s, n.next) + 2));
      NotDeepName(s, Skip(s, Skip(s, n.next) + 2));
      if t.Ok? {
        var k := Skip(s, t.next);
        DirectedSetLater(s, k, 0, limit, more);
        FragmentOfLater(d, n.v, t.v, DirectedSet(s, k, 0, limit), DirectedSet(s, k, 0, more));
      } else {
        LaterSame(ParseFragment(s, i, d, limit));
      }
    } else {
      LaterSame(ParseFragment(s, i, d, limit));
    }
  }

  lemma DefinitionLater(s: bytes, i: nat, limit: nat, more: nat)
    requires i < |s| && limit < more
    ensures Later(ParseDefinition(s, i, limit), ParseDefinition(s, i, more))
  {
    hide Description, ParseSelectionSet, ParseFragment, ParseOperation, Skip, IsKeywordAt;
    var d := Description(s, i);
    if d.Err? {
      DescriptionNotDeep(s, i);
    } else if s[d.next] == LBRACE {
      SelectionSetLater(s, d.next, 0, limit, more);
    } else if IsKeywordAt(s, d.next, KW_FRAGMENT) {
      FragmentLater(s, Skip(s, d.next + 8), d.v, limit, more);
    } else if KindAt(s, d.next).Some? {
      var kind := KindAt(s, d.next).value;
      OperationLater(s, Skip(s, d.next + |KindKeyword(kind)|), d.v, kind, limit, more);
    }
  }

  lemma {:induction false} DefinitionsLater(s: bytes, i: nat, limit: nat, more: nat)
    requires i < |s| && limit < more
    ensures Later(ParseDefinitions(s, i, limit), ParseDefinitions(s, i, more))
    decreases |s| - i
  {
    hide ParseDefinition, Skip;
    DefinitionLater(s, i, limit, more);
    var d := ParseDefinition(s, i, limit);
    if d.Ok? && Skip(s, d.next) < |s| {
      DefinitionsLater(s, Skip(s, d.next), limit, more);
    }
  }

  /** Under a larger limit everything but TooDeep stays as it is; a TooDeep goes away or moves on. */
  lemma LargerLimit(s: bytes, limit: nat, more: nat)
    requires limit < more
    ensures var r, q := ParseDocument(s, limit), ParseDocument(s, more);
            && (!(r.Err? && r.e == TooDeep) ==> q == r)
            && (r.Err? && r.e == TooDeep && q.Err? ==> q.pos >= r.pos && (q.e == TooDeep ==> q.pos > r.pos))
  {
    hide ParseDefinitions, Skip;
    if Skip(s, 0) < |s| {
      DefinitionsLater(s, Skip(s, 0), limit, more);
    }
  }

  // ----- A limit as large as the source

  ghost predicate NotDeep<T>(r: R<T>) {
    r.Err? ==> r.e != TooDeep
  }

  lemma NotDeepIs<T>(r: R<T>)
    ensures NotDeep(r) <==> (r.Err? ==> r.e != TooDeep)
  {
  }

  lemma WithinFits(room: nat, j: nat, inner: R<Value>)
    requires room > 0 && NotDeep(inner)
    ensures NotDeep(Within(room, j, inner))
  {
  }

  lemma LeafFits(s: bytes, i: nat, constant: bool, room: nat)
    requires i <= |s| && (i < |s| ==> s[i] != LBRACKET && s[i] != LBRACE)
    ensures NotDeep(ParseValue(s, i, constant, room))
  {
    hide StringToken, Number, Skip, IsKeywordAt, Name, ParseItems, ParseField, ParseFields;
    NameNotDeep(s, i);
    if i < |s| && s[i] == QUOTE && StringToken(s, i).Err? {
      StringNotDeep(s, i);
    }
  }

  lemma {:induction false} ValueFits(s: bytes, i: nat, constant: bool, room: nat)
    requires i <= |s| && room >= |s| - i
    ensures NotDeep(ParseValue(s, i, constant, room))
    decreases |s| - i, 1
  {
    if i < |s| && s[i] == LBRACKET {
      ListFits(s, i, constant, room);
    } else if i < |s| && s[i] == LBRACE {
      ObjectFits(s, i, constant, room);
    } else {
      LeafFits(s, i, constant, room);
    }
  }

  lemma {:induction false} ListFits(s: bytes, i: nat, constant: bool, room: nat)
    requires i < |s| && s[i] == LBRACKET && room >= |s| - i
    ensures NotDeep(ParseValue(s, i, constant, room))
    decreases |s| - i, 0
  {
    hide *;
    ListIs(s, i, constant, room);
    var j := Skip(s, i + 1);
    ListRestFits(s, j, constant, room - 1);
    WithinFits(room, j, ListRest(s, j, constant, room - 1));
    NotDeepIs(ParseValue(s, i, constant, room));
  }

  lemma {:induction false} ObjectFits(s: bytes, i: nat, constant: bool, room: nat)
    requires i < |s| && s[i] == LBRACE && room >= |s| - i
    ensures NotDeep(ParseValue(s, i, constant, room))
    decreases |s| - i, 0
  {
    hide *;
    ObjectIs(s, i, constant, room);
    var j := Skip(s, i + 1);
    ObjectRestFits(s, j, constant, room - 1);
    WithinFits(room, j, ObjectRest(s, j, constant, room - 1));
    NotDeepIs(ParseValue(s, i, constant, room));
  }

  lemma {:induction false} ListRestFits(s: bytes, j: nat, constant: bool, room: nat)
    requires j <= |s| && room >= |s| - j
    ensures NotDeep(ListRest(s, j, constant, room))
    decreases |s| - j, 3
  {
    hide ParseValue, ParseItems;
    ValueFits(s, j, constant, room);
    var v := ParseValue(s, j, constant, room);
    if v.Ok? {
      ItemsFit(s, v.next, constant, room);
    }
  }

  lemma {:induction false} ObjectRestFits(s: bytes, j: nat, constant: bool, room: nat)
    requires j <= |s| && room >= |s| - j
    ensures NotDeep(ObjectRest(s, j, constant, room))
    decreases |s| - j, 3
  {
    hide ParseField, ParseFields;
    FieldFits(s, j, constant, room);
    var f := ParseField(s, j, constant, room);
    if f.Ok? {
      FieldsFit(s, f.next, constant, room);
    }
  }

  lemma {:induction false} ItemsFit(s: bytes, i: nat, constant: bool, room: nat)
    requires i <= |s| && room >= |s| - i
    ensures NotDeep(ParseItems(s, i, constant, room))
    decreases |s| - i, 2
  {
    hide ParseValue, Skip;
    var j := Skip(s, i);
    if j < |s| && s[j] != RBRACKET {
      ValueFits(s, j, constant, room);
      var v := ParseValue(s, j, constant, room);
      if v.Ok? {
        ItemsFit(s, v.next, constant, room);
      }
    }
  }

  lemma {:induction false} FieldFits(s: bytes, i: nat, constant: bool, room: nat)
    requires i <= |s| && room >= |s| - i
    ensures NotDeep(ParseField(s, i, constant, room))
    decreases |s| - i, 1
  {
    hide ParseValue, Skip, NameEnd;
    var n := Name(s, i);
    if n.Ok? {
      var k := Expect(s, Skip(s, n.next), COLON);
      if k.Ok? {
        ValueFits(s, Skip(s, k.next), constant, room);
      }
    }
  }

  lemma {:induction false} FieldsFit(s: bytes, i: nat, constant: bool, room: nat)
    requires i <= |s| && room >= |s| - i
    ensures NotDeep(ParseFields(s, i, constant, room))
    decreases |s| - i, 2
  {
    hide ParseField, Skip;
    var j := Skip(s, i);
    if j < |s| && s[j] != RBRACE {
      FieldFits(s, j, constant, room);
      var f := ParseField(s, j, constant, room);
      if f.Ok? {
        FieldsFit(s, f.next, constant, room);
      }
    }
  }

  lemma ArgumentFits(s: bytes, i: nat, constant: bool, limit: nat)
    requires i <= |s| && limit >= |s|
    ensures NotDeep(ParseArgument(s, i, constant, limit))
  {
    hide ParseValue, Skip, NameEnd;
    var n := Name(s, i);
    if n.Ok? {
      var k := Expect(s, Skip(s, n.next), COLON);
      if k.Ok? {
        ValueFits(s, Skip(s, k.next), constant, limit);
      }
    }
  }

  lemma {:induction false} ArgumentsFit(s: bytes, i: nat, constant: bool, limit: nat)
    requires i <= |s| && limit >= |s|
    ensures NotDeep(ParseArguments(s, i, constant, limit))
    decreases |s| - i
  {
    hide ParseArgument, Skip;
    ArgumentFits(s, i, constant, limit);
    var a := ParseArgument(s, i, constant, limit);
    if a.Ok? {
      var j := Skip(s, a.next);
      if j < |s| && s[j] != RPAREN {
        ArgumentsFit(s, j, constant, limit);
      }
    }
  }

  lemma {:induction false} DirectivesFit(s: bytes, i: nat, constant: bool, limit: nat)
    requires i <= |s| && limit >= |s|
    ensures NotDeep(ParseDirectives(s, i, constant, limit))
    decreases |s| - i, 1
  {
    if i < |s| && s[i] == AT {
      hide *;
      DirectivesAre(s, i, constant, limit);
      NotDeepIs(ParseDirectives(s, i, constant, limit));
      var n := Name(s, Skip(s, i + 1));
      NotDeepName(s, Skip(s, i + 1));
      if n.Ok? && Skip(s, n.next) < |s| {
        DirectiveRestFits(s, Skip(s, n.next), n.v, constant, limit);
      }
    }
  }

  lemma {:induction false} DirectiveRestFits(s: bytes, k: nat, n: bytes, constant: bool, limit: nat)
    requires k < |s| && limit >= |s|
    ensures NotDeep(DirectiveRest(s, k, n, constant, limit))
    decreases |s| - k, 2
  {
    hide ParseArguments, ParseDirectives, Skip;
    if s[k] == LPAREN {
      ArgumentsFit(s, Skip(s, k + 1), constant, limit);
      var xs := ParseArguments(s, Skip(s, k + 1), constant, limit);
      if xs.Ok? {
        DirectivesFit(s, Skip(s, xs.next), constant, limit);
      }
    } else {
      DirectivesFit(s, k, constant, limit);
    }
  }

  lemma VariableFits(s: bytes, i: nat, limit: nat)
    requires i < |s| && limit >= |s|
    ensures NotDeep(ParseVariable(s, i, limit))
  {
    hide Description, Skip, NameEnd, ParseType, ParseDirectives, ParseValue;
    var d := Description(s, i);
    if d.Err? {
      DescriptionNotDeep(s, i);
      return;
    }
    var dollar := Expect(s, d.next, DOLLAR);
    if dollar.Ok? {
      var n := Name(s, Skip(s, dollar.next));
      if n.Ok? {
        var colon := Expect(s, Skip(s, n.next), COLON);
        if colon.Ok? {
          var t := ParseType(s, Skip(s, colon.next));
          if t.Err? {
            TypeNotDeep(s, Skip(s, colon.next));
          } else {
            DefaultFits(s, t.next, limit);
            hide ParseDefault;
            var v := ParseDefault(s, t.next, limit);
            if v.Ok? {
              DirectivesFit(s, v.next, true, limit);
            }
          }
        }
      }
    }
  }

  lemma DefaultFits(s: bytes, i: nat, limit: nat)
    requires i <= |s| && limit >= |s|
    ensures NotDeep(ParseDefault(s, i, limit))
  {
    hide ParseValue, Skip;
    var j := Skip(s, i);
    if j < |s| && s[j] == EQUALS {
      ValueFits(s, Skip(s, j + 1), true, limit);
    }
  }

  lemma {:induction false} VariablesFit(s: bytes, i: nat, limit: nat)
    requires i < |s| && limit >= |s|
    ensures NotDeep(ParseVariables(s, i, limit))
    decreases |s| - i
  {
    hide ParseVariable, Skip;
    VariableFits(s, i, limit);
    var v := ParseVariable(s, i, limit);
    if v.Ok? {
      var j := Skip(s, v.next);
      if j < |s| && s[j] != RPAREN {
        VariablesFit(s, j, limit);
      }
    }
  }

  lemma {:induction false} SelectionSetFits(s: bytes, i: nat, depth: nat, limit: nat)
    requires depth <= i <= |s| <= limit
    ensures NotDeep(ParseSelectionSet(s, i, depth, limit))
    decreases |s| - i, 1
  {
    hide ParseSelection, SelectionsRest, Skip;
    if i < |s| && s[i] == LBRACE {
      var j := Skip(s, i + 1);
      SelectionFits(s, j, depth + 1, limit);
      var x := ParseSelection(s, j, depth + 1, limit);
      if x.Ok? {
        SelectionsFit(s, x.next, depth + 1, limit);
      }
    }
  }

  lemma {:induction false} SelectionsFit(s: bytes, i: nat, depth: nat, limit: nat)
    requires depth <= i <= |s| <= limit
    ensures NotDeep(SelectionsRest(s, i, depth, limit))
    decreases |s| - i, 3
  {
    hide ParseSelection;
    if i < |s| && s[i] != RBRACE {
      SelectionFits(s, i, depth, limit);
      var x := ParseSelection(s, i, depth, limit);
      if x.Ok? {
        SelectionsFit(s, x.next, depth, limit);
      }
    }
  }

  lemma {:induction false} SelectionFits(s: bytes, i: nat, depth: nat, limit: nat)
    requires depth <= i <= |s| <= limit
    ensures NotDeep(ParseSelection(s, i, depth, limit))
    decreases |s| - i, 2
  {
    hide ParseInline, ParseFieldRest, ParseDirectives, Skip, NameEnd, HasPrefixAt, IsKeywordAt;
    if HasPrefixAt(s, i, ELLIPSIS) {
      EllipsisWithin(s, i);
      var j := Skip(s, i + 3);
      if IsKeywordAt(s, j, KW_ON) {
        var t := Name(s, Skip(s, j + 2));
        if t.Ok? {
          InlineFits(s, Skip(s, t.next), Some(t.v), depth, limit);
        }
      } else if Name(s, j).Ok? {
        DirectivesFit(s, Skip(s, Name(s, j).next), false, limit);
      } else {
        InlineFits(s, j, None, depth, limit);
      }
    } else if Name(s, i).Ok? {
      var n := Name(s, i);
      var k := Skip(s, n.next);
      if k < |s| && s[k] == COLON {
        var m := Name(s, Skip(s, k + 1));
        if m.Ok? && Skip(s, m.next) < |s| {
          FieldRestFits(s, Skip(s, m.next), Some(n.v), m.v, depth, limit);
        }
      } else if k < |s| {
        FieldRestFits(s, k, None, n.v, depth, limit);
      }
    }
  }

  lemma {:induction false} InlineFits(s: bytes, i: nat, condition: Option<bytes>, depth: nat, limit: nat)
    requires depth <= i <= |s| <= limit
    ensures NotDeep(ParseInline(s, i, condition, depth, limit))
    decreases |s| - i, 2
  {
    hide ParseDirectives, ParseSelectionSet, Skip;
    DirectivesFit(s, i, false, limit);
    var ds := ParseDirectives(s, i, false, limit);
    if ds.Ok? {
      SelectionSetFits(s, Skip(s, ds.next), depth, limit);
    }
  }

  lemma {:induction false} FieldRestFits(s: bytes, i: nat, alias: Option<bytes>, name: bytes, depth: nat, limit: nat)
    requires depth <= i < |s| <= limit
    ensures NotDeep(ParseFieldRest(s, i, alias, name, depth, limit))
    decreases |s| - i, 2
  {
    hide ParseArguments, ParseDirectives, ParseSelectionSet, Skip;
    if s[i] == LPAREN {
      ArgumentsFit(s, Skip(s, i + 1), false, limit);
    }
    var xs := FieldArguments(s, i, limit);
    if xs.Ok? {
      DirectivesFit(s, xs.next, false, limit);
      var ds := ParseDirectives(s, xs.next, false, limit);
      if ds.Ok? {
        var m := Skip(s, ds.next);
        if m < |s| && s[m] == LBRACE {
          SelectionSetFits(s, m, depth, limit);
        }
      }
    }
  }

  lemma DirectedSetFits(s: bytes, i: nat, limit: nat)
    requires i <= |s| <= limit
    ensures NotDeep(DirectedSet(s, i, 0, limit))
  {
    hide ParseDirectives, ParseSelectionSet, Skip;
    DirectivesFit(s, i, false, limit);
    var ds := ParseDirectives(s, i, false, limit);
    if ds.Ok? {
      SelectionSetFits(s, Skip(s, ds.next), 0, limit);
    }
  }

  lemma OperationVariablesFit(s: bytes, i: nat, limit: nat)
    requires i < |s| <= limit
    ensures NotDeep(OperationVariables(s, i, limit))
  {
    hide ParseVariables, Skip;
    if s[i] == LPAREN && Skip(s, i + 1) < |s| {
      VariablesFit(s, Skip(s, i + 1), limit);
    }
  }

  lemma OperationOfFits(d: Option<bytes>, kind: Kind, n: Option<bytes>, vs: seq<VariableDefinition>, r: R<(seq<Directive>, seq<Selection>)>)
    requires NotDeep(r)
    ensures NotDeep(OperationOf(d, kind, n, vs, r))
  {
  }

  lemma OperationFits(s: bytes, i: nat, d: Option<bytes>, kind: Kind, limit: nat)
    requires i <= |s| <= limit
    ensures NotDeep(ParseOperation(s, i, d, kind, limit))
  {
    hide *;
    OperationIs(s, i, d, kind, limit);
    NotDeepIs(ParseOperation(s, i, d, kind, limit));
    NameIsNotDeep(s, i);
    var n := OperationName(s, i);
    if n.Ok? {
      OperationVariablesFit(s, n.next, limit);
      var vs := OperationVariables(s, n.next, limit);
      NotDeepIs(vs);
      if vs.Ok? {
        DirectedSetFits(s, vs.next, limit);
        OperationOfFits(d, kind, n.v, vs.v, DirectedSet(s, vs.next, 0, limit));
      }
    }
  }

  lemma FragmentOfFits(d: Option<bytes>, n: bytes, t: bytes, r: R<(seq<Directive>, seq<Selection>)>)
    requires NotDeep(r)
    ensures NotDeep(FragmentOf(d, n, t, r))
  {
  }

  lemma FragmentFits(s: bytes, i: nat, d: Option<bytes>, limit: nat)
    requires i <= |s| <= limit
    ensures NotDeep(ParseFragment(s, i, d, limit))
  {
    hide *;
    FragmentIs(s, i, d, limit);
    NotDeepIs(ParseFragment(s, i, d, limit));
    NotDeepName(s, i);
    var n := Name(s, i);
    if n.Ok? && n.v != KW_ON && Skip(s, n.next) < |s| && IsKeywordAt(s, Skip(s, n.next), KW_ON) {
      NotDeepName(s, Skip(s, Skip(s, n.next) + 2));
      var t := Name(s, Skip(s, Skip(s, n.next) + 2));
      if t.Ok? {
        DirectedSetFits(s, Skip(s, t.next), limit);
        FragmentOfFits(d, n.v, t.v, DirectedSet(s, Skip(s, t.next), 0, limit));
      }
    }
  }

  lemma {:induction false} DefinitionsFit(s: bytes, i: nat, limit: nat)
    requires i < |s| <= limit
    ensures NotDeep(ParseDefinitions(s, i, limit))
    decreases |s| - i
  {
    hide Description, ParseSelectionSet, ParseFragment, ParseOperation, Skip, IsKeywordAt;
    var d := Description(s, i);
    if d.Err? {
      DescriptionNotDeep(s, i);
    } else if s[d.next] == LBRACE {
      SelectionSetFits(s, d.next, 0, limit);
    } else if IsKeywordAt(s, d.next, KW_FRAGMENT) {
      FragmentFits(s, Skip(s, d.next + 8), d.v, limit);
    } else if KindAt(s, d.next).Some? {
      var kind := KindAt(s, d.next).value;
      OperationFits(s, Skip(s, d.next + |KindKeyword(kind)|), d.v, kind, limit);
    }
    var r := ParseDefinition(s, i, limit);
    if r.Ok? && Skip(s, r.next) < |s| {
      hide ParseDefinition;
      DefinitionsFit(s, Skip(s, r.next), limit);
    }
  }

  /** Under a limit of at least the length of the source nothing is too deep. */
  lemma NeverTooDeep(s: bytes, limit: nat)
    requires limit >= |s|
    ensures ParseDocument(s, limit).Err? ==> ParseDocument(s, limit).e != TooDeep
  {
    hide ParseDefinitions, Skip;
    if Skip(s, 0) < |s| {
      DefinitionsFit(s, Skip(s, 0), limit);
    }
  }

  /** A source is too deep exactly if a limit as large as the source would change what it comes to. */
  lemma TooDeepExactly(s: bytes, limit: nat)
    requires limit < |s|
    ensures var r := ParseDocument(s, limit);
            r.Err? && r.e == TooDeep <==> r != ParseDocument(s, |s|)
  {
    hide ParseDocument;
    NeverTooDeep(s, |s|);
    LargerLimit(s, limit, |s|);
  }
}
