/**
 What the parser does, said of whole documents: which sources it accepts, that layout and
 descriptions do not matter, and that the depth limit is exact.
 */
module Documents {
  import opened Bytes
  import opened Ast
  import opened Canonical
  import opened Continuation
  import opened Grammar
  import opened Parsing
  import D = Descent
  import Soundness
  import Completeness

  /** src is written with the tokens of the document d of the grammar. */
  predicate Spells(src: bytes, d: Document) {
    WfDocument(d) && Tokens(src, 0) == Some(DocumentTokens(d))
  }

  /** A source is accepted as d exactly if it spells d and d nests within the limit. */
  lemma AcceptedExactly(src: bytes, d: Document, limit: nat)
    ensures D.ParseDocument(src, limit) == Ok(d, |src|) <==> Spells(src, d) && Fits(d, limit)
  {
    hide D.ParseDocument, WfDocument, Tokens, DocumentTokens, Fits;
    var r := D.ParseDocument(src, limit);
    if r.Ok? {
      Soundness.DocumentSound(src, limit);
      Completeness.DocumentComplete(src, r.v, limit);
    }
    if Spells(src, d) && Fits(d, limit) {
      Completeness.DocumentComplete(src, d, limit);
    }
  }

  /** Parse writes the canonical form of the one document that src spells, if it nests within
      the limit. */
  lemma ReadingExactly(src: bytes, o: Options, out: bytes)
    ensures Reading(src, o) == Accept(out) <==>
              exists d :: Spells(src, d) && Fits(d, LimitOf(o)) && out == SerDocument(o.ignore, d)
  {
    hide D.ParseDocument, Spells, Fits, SerDocument;
    var r := D.ParseDocument(src, LimitOf(o));
    if r.Ok? {
      AcceptedExactly(src, r.v, LimitOf(o));
    }
    forall d | Spells(src, d) && Fits(d, LimitOf(o)) ensures r == Ok(d, |src|) {
      AcceptedExactly(src, d, LimitOf(o));
    }
  }

  /** A source that spells a document nests too deeply for the limit, or is accepted. */
  lemma DepthLimitExact(src: bytes, o: Options, d: Document)
    requires Spells(src, d)
    ensures Reading(src, o) == Accept(SerDocument(o.ignore, d)) <==> Fits(d, LimitOf(o))
    ensures !Fits(d, LimitOf(o)) ==> Reading(src, o).Reject? && Reading(src, o).e == TooDeep
  {
    hide D.ParseDocument, Fits, SerDocument, WfDocument, Tokens, DocumentTokens;
    Completeness.DocumentComplete(src, d, LimitOf(o));
  }

  /** The limit is the one that is set, and 128 if none of at least 1 is. */
  lemma DepthLimitSet(src: bytes, o: Options, d: Document)
    requires Spells(src, d)
    ensures o.depthLimit >= 1 ==> (Reading(src, o).Accept? <==> Fits(d, o.depthLimit))
    ensures o.depthLimit < 1 ==> (Reading(src, o).Accept? <==> Fits(d, 128))
    ensures Reading(src, o).Reject? ==> Reading(src, o).e == TooDeep
  {
    hide D.ParseDocument, Fits, SerDocument, WfDocument, Tokens, DocumentTokens, Reading;
    DepthLimitExact(src, o, d);
    VerdictIs(src, o);
  }

  lemma VerdictIs(src: bytes, o: Options)
    ensures Reading(src, o).Reject? <==> D.ParseDocument(src, LimitOf(o)).Err?
  {
    hide D.ParseDocument, SerDocument;
  }

  /** A larger limit accepts no less. */
  lemma {:induction false} FitsMonotone(ds: Document, small: nat, large: nat)
    requires Fits(ds, small) && small <= large
    ensures Fits(ds, large)
  {
    if ds != [] {
      FitsMonotone(ds[1..], small, large);
    }
  }

  // ----- Layout and descriptions

  /** Both calls accept and write the same, or both refuse. */
  predicate SameVerdict(a: Outcome, b: Outcome) {
    if a.Accept? then b == a else b.Reject?
  }

  /** Sources of the same tokens, Ignored tokens removed and strings compared by value, get the
      same canonical form or are both rejected. */
  lemma LayoutDoesNotMatter(a: bytes, b: bytes, o: Options)
    requires Tokens(a, 0) == Tokens(b, 0)
    ensures SameVerdict(Reading(a, o), Reading(b, o))
  {
    hide D.ParseDocument, WfDocument, Tokens, DocumentTokens, Fits, SerDocument;
    var ra, rb := D.ParseDocument(a, LimitOf(o)), D.ParseDocument(b, LimitOf(o));
    if ra.Ok? {
      AcceptedExactly(a, ra.v, LimitOf(o));
      AcceptedExactly(b, ra.v, LimitOf(o));
    }
    if rb.Ok? {
      AcceptedExactly(b, rb.v, LimitOf(o));
      AcceptedExactly(a, rb.v, LimitOf(o));
    }
  }

  function PlainVariable(v: VariableDefinition): VariableDefinition { v.(description := None) }

  function PlainVariables(vs: seq<VariableDefinition>): (r: seq<VariableDefinition>)
    ensures |r| == |vs|
  {
    if vs == [] then [] else [PlainVariable(vs[0])] + PlainVariables(vs[1..])
  }

  /** A definition without its descriptions; `{...}` and `query {...}` are the same operation. */
  function Plain(d: Definition): Definition {
    match d
    case Operation(_, _, kind, name, vars, dirs, sels) =>
      Operation(None, false, kind, name, PlainVariables(vars), dirs, sels)
    case Fragment(_, name, cond, dirs, sels) => Fragment(None, name, cond, dirs, sels)
  }

  function PlainDocument(ds: Document): (r: Document)
    ensures |r| == |ds|
  {
    if ds == [] then [] else [Plain(ds[0])] + PlainDocument(ds[1..])
  }

  lemma {:induction false} PlainVariablesSame(vs: seq<VariableDefinition>, g: Ignore)
    ensures SerVariables(g, PlainVariables(vs)) == SerVariables(g, vs)
    ensures VariablesDepth(PlainVariables(vs)) == VariablesDepth(vs)
  {
    if vs != [] {
      PlainVariablesSame(vs[1..], g);
      assert PlainVariables(vs)[1..] == PlainVariables(vs[1..]);
    }
  }

  lemma {:induction false} PlainDocumentSame(ds: Document, g: Ignore, limit: nat)
    ensures SerDocument(g, PlainDocument(ds)) == SerDocument(g, ds)
    ensures Fits(PlainDocument(ds), limit) <==> Fits(ds, limit)
  {
    if ds != [] {
      PlainDocumentSame(ds[1..], g, limit);
      assert PlainDocument(ds)[1..] == PlainDocument(ds[1..]);
      if ds[0].Operation? {
        PlainVariablesSame(ds[0].variables, g);
      }
    }
  }

  /** Documents that differ in their descriptions only, or in how a query is introduced, get the
      same verdict. */
  lemma DescriptionsDoNotMatter(a: bytes, b: bytes, da: Document, db: Document, o: Options)
    requires Spells(a, da) && Spells(b, db) && PlainDocument(da) == PlainDocument(db)
    ensures SameVerdict(Reading(a, o), Reading(b, o))
  {
    hide Reading, Spells, Fits, SerDocument, PlainDocument;
    PlainDocumentSame(da, o.ignore, LimitOf(o));
    PlainDocumentSame(db, o.ignore, LimitOf(o));
    DepthLimitExact(a, o, da);
    DepthLimitExact(b, o, db);
  }

  // ----- The Ignore levels accept the same sources

  /** Leaving out inputs never changes whether a source is accepted, or the error it gets. */
  lemma IgnoreChangesNoVerdict(src: bytes, o: Options, g: Ignore, broken: bool)
    ensures ResultOf(src, o.(ignore := g), broken) == ResultOf(src, o, broken)
  {
    hide D.ParseDocument, SerDocument;
  }

  // ----- A limit as large as the source is no limit

  lemma {:induction false} TokensShort(src: bytes, i: nat)
    requires i <= |src| && Tokens(src, i).Some?
    ensures |Tokens(src, i).value| <= |src| - i
    decreases |src| - i
  {
    hide Lex;
    var j := Lexical.Skip(src, i);
    if j < |src| {
      TokensShort(src, Lex(src, j).next);
    }
  }

  lemma {:induction false} ValueShort(v: Value)
    ensures ValueDepth(v) < |ValueTokens(v)|
    decreases v, 0
  {
    if v.ListValue? {
      ItemsShort(v.items);
    } else if v.ObjectValue? {
      FieldsShort(v.fields);
    }
  }

  lemma {:induction false} ItemsShort(vs: seq<Value>)
    ensures ItemsDepth(vs) <= |ItemsTokens(vs)|
    decreases vs, 1
  {
    if vs != [] {
      ValueShort(vs[0]);
      ItemsShort(vs[1..]);
    }
  }

  lemma {:induction false} FieldsShort(fs: seq<ObjectField>)
    ensures FieldsDepth(fs) <= |FieldsTokens(fs)|
    decreases fs, 1
  {
    if fs != [] {
      FieldShort(fs[0]);
      FieldsShort(fs[1..]);
    }
  }

  lemma {:induction false} FieldShort(f: ObjectField)
    ensures FieldDepth(f) <= |FieldTokens(f)|
    decreases f, 1
  {
    ValueShort(f.value);
  }

  lemma {:induction false} ArgumentsShort(xs: seq<Argument>)
    ensures ArgumentsDepth(xs) <= |ArgumentListTokens(xs)| <= |ArgumentsTokens(xs)|
  {
    if xs != [] {
      ValueShort(xs[0].value);
      ArgumentsShort(xs[1..]);
    }
  }

  lemma {:induction false} DirectivesShort(ds: seq<Directive>)
    ensures DirectivesDepth(ds) <= |DirectivesTokens(ds)|
  {
    if ds != [] {
      ArgumentsShort(ds[0].arguments);
      DirectivesShort(ds[1..]);
    }
  }

  lemma VariableShort(v: VariableDefinition)
    ensures VariableDepth(v) <= |VariableTokens(v)|
  {
    DirectivesShort(v.directives);
    if v.default.Some? {
      ValueShort(v.default.value);
    }
  }

  lemma {:induction false} VariablesShort(vs: seq<VariableDefinition>)
    ensures VariablesDepth(vs) <= |VariableListTokens(vs)| <= |VariablesTokens(vs)|
  {
    hide VariableTokens, VariableDepth;
    if vs != [] {
      VariableShort(vs[0]);
      VariablesShort(vs[1..]);
    }
  }

  lemma {:induction false} SelectionShort(x: Selection)
    ensures SelectionDepth(x) <= |SelectionTokens(x)| && Nesting(x) < |SelectionTokens(x)|
    decreases x, 0
  {
    DirectivesShort(x.directives);
    match x {
      case Field(_, _, args, _, sels) =>
        ArgumentsShort(args);
        SelectionsShort(sels);
      case InlineFragment(_, _, sels) => SelectionsShort(sels);
      case FragmentSpread(_, _) =>
    }
  }

  lemma {:induction false} SelectionsShort(xs: seq<Selection>)
    ensures SelectionsDepth(xs) <= |SelectionsTokens(xs)| && NestingAll(xs) <= |SelectionsTokens(xs)|
    decreases xs, 1
  {
    hide SelectionTokens, SelectionDepth, Nesting;
    if xs != [] {
      SelectionShort(xs[0]);
      SelectionsShort(xs[1..]);
    }
  }

  lemma DefinitionShort(d: Definition, limit: nat)
    requires WfDefinition(d) && |DefinitionTokens(d)| <= limit
    ensures DefinitionFits(d, limit)
  {
    hide DirectivesTokens, VariablesTokens, SelectionsTokens, WfDirectives, WfVariables, WfSelections, SelectionsDepth, NestingAll;
    DirectivesShort(d.directives);
    SelectionsShort(d.selections);
    if d.Operation? {
      VariablesShort(d.variables);
      if d.shorthand {
        Completeness.NoVariables();
      }
    }
  }

  lemma {:induction false} DocumentShort(ds: Document, limit: nat)
    requires WfDefinitions(ds) && |DocumentTokens(ds)| <= limit
    ensures Fits(ds, limit)
  {
    hide DefinitionTokens, DefinitionFits, WfDefinition;
    if ds != [] {
      DefinitionShort(ds[0], limit);
      DocumentShort(ds[1..], limit);
    }
  }

  /** With a limit of at least the length of the source, exactly the sources that spell a
      document are accepted. */
  lemma NoLimit(src: bytes, limit: nat)
    requires limit >= |src|
    ensures D.ParseDocument(src, limit).Ok? <==> exists d :: Spells(src, d)
  {
    hide D.ParseDocument, Spells, Fits;
    var r := D.ParseDocument(src, limit);
    if r.Ok? {
      AcceptedExactly(src, r.v, limit);
    }
    forall d | Spells(src, d) ensures r == Ok(d, |src|) {
      SpelledFits(src, d, limit);
      AcceptedExactly(src, d, limit);
    }
  }

  lemma SpelledFits(src: bytes, d: Document, limit: nat)
    requires Spells(src, d) && limit >= |src|
    ensures Fits(d, limit)
  {
    TokensShort(src, 0);
    DocumentShort(d, limit);
  }
}
