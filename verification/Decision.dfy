/**
 decide and allow: whether a request is let through. A request must name its documents in one
 place and once each, and every one of them must be on the allowlist.
 */
module Decision {
  import opened Bytes
  import opened Canonical
  import opened Continuation
  import opened JsonBody
  import opened JsonText
  import opened Parsing
  import opened QueryString

  datatype RequestMethod = MethodGET | MethodPOST | MethodOther

  /** What the JSON scanner makes of a body: its value, or what it visits before it gives up. */
  datatype JsonScan = WellFormed(root: Json) | Malformed(visited: seq<Event>)
  {
    function Events(): seq<Event> {
      if WellFormed? then Walk(0, [], root) else visited
    }

    /** The scanner reports strings within the body only. */
    predicate Within(n: nat) {
      forall k | 0 <= k < |Events()| :: SpanWithin(Events()[k].value, n)
    }
  }

  predicate SpanWithin(v: Json, n: nat) { v.Text? ==> v.span.start <= v.span.end <= n }

  datatype Request = Request(
    kind: RequestMethod, rawQuery: bytes, hasBody: bool, bodyIsDocument: bool, body: bytes, json: JsonScan)

  datatype Refusal =
    | MethodNotAllowed
    | BodyOnGET
    | QueryBesideBody
    | NoDocument(extraction: Extraction)
    | BadBody(body: BodyError)
    | InvalidEscapeInBody
    | DocumentTooDeep

  predicate SpansWithin(spans: seq<Span>, n: nat) {
    forall k | 0 <= k < |spans| :: spans[k].start <= spans[k].end <= n
  }

  /** What the strings at the spans spell, if all of them are well-formed. */
  function SpelledAt(spans: seq<Span>, body: bytes): Option<seq<bytes>>
    requires SpansWithin(spans, |body|)
  {
    if spans == [] then Some([])
    else
      var first := Spelled(body[spans[0].start..spans[0].end], 0);
      var rest := SpelledAt(spans[1..], body);
      if first.None? || rest.None? then None else Some([first.value] + rest.value)
  }

  lemma {:induction false} ScanWithin(f: Flags, evs: seq<Event>, maxBatch: int, n: nat)
    requires SpansWithin(f.spans, n) && forall k | 0 <= k < |evs| :: SpanWithin(evs[k].value, n)
    ensures var s := Scan(f, evs, maxBatch);
            s.Go? ==> SpansWithin(s.f.spans, n)
    decreases |evs|
  {
    hide SpellsQuery;
    if evs != [] {
      var s := OnValue(f, evs[0], maxBatch);
      assert SpanWithin(evs[0].value, n);
      if s.Go? {
        ScanWithin(s.f, evs[1..], maxBatch, n);
      }
    }
  }

  /** The spans that extractJSON finds in a body of n bytes. */
  function FoundIn(json: JsonScan, maxBatch: int, n: nat): (r: Option<seq<Span>>)
    requires json.Within(n)
    ensures r.Some? ==> SpansWithin(r.value, n)
  {
    if json.Malformed? then None
    else
      ScanWithin(START, json.Events(), maxBatch, n);
      Finish(Scan(START, json.Events(), maxBatch))
  }

  lemma FoundIs(json: JsonScan, maxBatch: int, n: nat)
    requires json.Within(n)
    ensures FoundIn(json, maxBatch, n) == if json.WellFormed? then Documents(json.root, maxBatch) else None
  {
    hide Scan, Finish, Documents, Walk;
    if json.WellFormed? {
      BodyDocuments(json.root, maxBatch);
    }
  }

  /** Why extractJSON finds none. */
  function FaultIn(json: JsonScan, maxBatch: int): (r: Option<BodyError>)
    ensures json.Malformed? ==> r.Some?
  {
    FaultOf(Scan(START, json.Events(), maxBatch), json.Malformed?)
  }

  /** The documents a request names, if it names them in one place and once each. */
  function Named(req: Request, maxBatch: int): Option<seq<bytes>>
    requires req.json.Within(|req.body|)
  {
    match req.kind
    case MethodOther => None
    case MethodGET =>
      if req.hasBody || !Extracted(req.rawQuery).Found? then None else Some([Extracted(req.rawQuery).value])
    case MethodPOST =>
      if QueryValues(req.rawQuery) != [] then None
      else if req.bodyIsDocument then Some([req.body])
      else
        var spans := FoundIn(req.json, maxBatch, |req.body|);
        if spans.None? then None else SpelledAt(spans.value, req.body)
  }

  /** What decides, beside the request. */
  datatype Rules = Policy(allowlist: set<bytes>, digest: bytes -> bytes, broken: bool, options: Options, maxBatch: int)
  {
    /** The document parses, and its hash is on the allowlist. */
    predicate OnList(document: bytes)
    {
      && allowlist != {} && ResultOf(document, options, broken).err.None?
      && DigestOf(digest, document, options).value in allowlist
    }

    /** A document that is too deep is told apart from one that is not on the list. */
    function DepthRefusal(document: bytes): Option<Refusal>
    {
      if allowlist != {} && ResultOf(document, options, broken).err == Some(Syntax(TooDeep))
      then Some(DocumentTooDeep) else None
    }

    /** The first document of a body that is not let through decides what is reported. */
    function BodyRefusal(spans: seq<Span>, body: bytes): Option<Refusal>
      requires SpansWithin(spans, |body|)
    {
      if spans == [] then None
      else
        match Spelled(body[spans[0].start..spans[0].end], 0)
        case None => Some(InvalidEscapeInBody)
        case Some(d) => if OnList(d) then BodyRefusal(spans[1..], body) else DepthRefusal(d)
    }

    /** Why a request is refused with an error; None for one that is allowed or not on the list. */
    function RefusalOf(req: Request): Option<Refusal>
      requires req.json.Within(|req.body|)
    {
      match req.kind
      case MethodOther => Some(MethodNotAllowed)
      case MethodGET =>
        if req.hasBody then Some(BodyOnGET)
        else if !Extracted(req.rawQuery).Found? then Some(NoDocument(Extracted(req.rawQuery)))
        else DepthRefusal(Extracted(req.rawQuery).value)
      case MethodPOST =>
        if QueryValues(req.rawQuery) != [] then Some(QueryBesideBody)
        else if req.bodyIsDocument then DepthRefusal(req.body)
        else if FoundIn(req.json, maxBatch, |req.body|).None? then Some(BadBody(FaultIn(req.json, maxBatch).value))
        else BodyRefusal(FoundIn(req.json, maxBatch, |req.body|).value, req.body)
    }

    /** Every string spells a document on the list. */
    predicate AllOnList(spans: seq<Span>, body: bytes)
      requires SpansWithin(spans, |body|)
    {
      spans == [] || (
        && Spelled(body[spans[0].start..spans[0].end], 0).Some?
        && OnList(Spelled(body[spans[0].start..spans[0].end], 0).value)
        && AllOnList(spans[1..], body))
    }

    lemma {:induction false} AllOnListIs(spans: seq<Span>, body: bytes)
      requires SpansWithin(spans, |body|)
      ensures AllOnList(spans, body) <==>
                SpelledAt(spans, body).Some? && forall d | d in SpelledAt(spans, body).value :: OnList(d)
    {
      hide OnList, Spelled;
      if spans != [] {
        AllOnListIs(spans[1..], body);
      }
    }

    /** The first string decides, or the others do. */
    lemma FirstDecides(spans: seq<Span>, body: bytes)
      requires SpansWithin(spans, |body|)
      ensures spans == [] ==> AllOnList(spans, body) && BodyRefusal(spans, body) == None
      ensures spans != [] ==>
                var d := Spelled(body[spans[0].start..spans[0].end], 0);
                if d.None? then !AllOnList(spans, body) && BodyRefusal(spans, body) == Some(InvalidEscapeInBody)
                else if !OnList(d.value) then !AllOnList(spans, body) && BodyRefusal(spans, body) == DepthRefusal(d.value)
                else (AllOnList(spans, body) <==> AllOnList(spans[1..], body))
                     && BodyRefusal(spans, body) == BodyRefusal(spans[1..], body)
    {
      hide OnList, Spelled, DepthRefusal;
    }

    /** v is a request with exactly one member named query, a string within the body that spells
        a document on the list. */
    predicate Lists(v: Json, body: bytes) {
      && v.Object? && |QueryMembers(v.members)| == 1
      && var q := QueryMembers(v.members)[0];
         && q.Text? && q.span.start <= q.span.end <= |body|
         && var d := Spelled(body[q.span.start..q.span.end], 0);
            d.Some? && OnList(d.value)
    }

    /** Every request of the body does: the lone one, or each of 1 to maxBatch in an array. */
    predicate ListsAll(root: Json, body: bytes) {
      if root.Array? then 1 <= |root.items| <= maxBatch && forall k | 0 <= k < |root.items| :: Lists(root.items[k], body)
      else Lists(root, body)
    }

    lemma {:induction false} ListedOnes(vs: seq<Json>, body: bytes)
      requires DocumentsIn(vs).Some? && SpansWithin(DocumentsIn(vs).value, |body|)
      ensures AllOnList(DocumentsIn(vs).value, body) <==> forall k | 0 <= k < |vs| :: Lists(vs[k], body)
    {
      hide OnList, Spelled, QueryMembers;
      if vs != [] {
        var spans := DocumentsIn(vs).value;
        assert spans[1..] == DocumentsIn(vs[1..]).value;
        assert forall k | 0 <= k < |spans| - 1 :: spans[1..][k] == spans[k + 1];
        ListedOnes(vs[1..], body);
        assert forall k | 0 < k < |vs| :: vs[k] == vs[1..][k - 1];
        assert spans[0] == DocumentIn(vs[0]).value;
      }
    }

    /** What a body names is on the list exactly if every request in it is. */
    lemma ListedBody(root: Json, body: bytes)
      requires Documents(root, maxBatch).Some? ==> SpansWithin(Documents(root, maxBatch).value, |body|)
      ensures ListsAll(root, body) <==>
                Documents(root, maxBatch).Some? && AllOnList(Documents(root, maxBatch).value, body)
    {
      hide OnList, Spelled, QueryMembers, AllOnList, DocumentsIn, Lists;
      var vs := if root.Array? then root.items else [root];
      assert root.Object? ==> vs[0] == root;
      RequestsIn(vs);
      ListsRequests(vs, body);
      if DocumentsIn(vs).Some? && (root.Array? ==> 1 <= |vs| <= maxBatch) {
        ListedOnes(vs, body);
      }
    }

    lemma ListsRequests(vs: seq<Json>, body: bytes)
      ensures (forall k | 0 <= k < |vs| :: Lists(vs[k], body)) ==> forall k | 0 <= k < |vs| :: IsRequest(vs[k])
    {
      hide OnList, Spelled, QueryMembers;
    }

    /** A document that is too deep is not on the list. */
    lemma TooDeepIsNotOn(document: bytes)
      ensures DepthRefusal(document).Some? ==> !OnList(document)
    {
    }
  }

  class Proxy {
    const options: Options
    const maxBatch: int
    const parser: Parser
    const hash: Sink
    /** The hashes of the allowed documents. */
    var allowlist: set<bytes>
    var scratch: bytes
    var spans: seq<Span>
    var sum: bytes

    constructor (o: Options, maxBatch: int, h: Sink, allowlist: set<bytes>)
      ensures parser.Valid() && fresh(parser) && hash == h && options == o && this.maxBatch == maxBatch
      ensures this.allowlist == allowlist
    {
      parser := new Parser(0);
      options, hash, this.maxBatch, this.allowlist := o, h, maxBatch, allowlist;
      scratch, spans, sum := [], [], [];
    }

    function Current(): Rules
      reads this`allowlist, hash`broken
    {
      Policy(allowlist, hash.digest, hash.broken, options, maxBatch)
    }

    method Allow(document: bytes) returns (allowed: bool, err: Option<Refusal>)
      requires parser.Valid()
      modifies this`sum, parser, hash`calls
      ensures parser.Valid()
      ensures allowed <==> Current().OnList(document)
      ensures err == Current().DepthRefusal(document)
    {
      hide Run;
      if |allowlist| == 0 {
        return false, None;
      }
      hash.Reset();
      var e := parser.Parse(hash, options, document);
      if e.err.Some? {
        return false, if e.err == Some(Syntax(TooDeep)) then Some(DocumentTooDeep) else None;
      }
      ConcatOne(Reading(document, options).out);
      sum := hash.Sum([]);
      assert sum == DigestOf(hash.digest, document, options).value;
      return sum in allowlist, None;
    }

    /** The whole decision. */
    method Decide(req: Request) returns (allowed: bool, err: Option<Refusal>)
      requires parser.Valid() && req.json.Within(|req.body|)
      modifies this`scratch, this`spans, this`sum, parser, hash`calls
      ensures parser.Valid()
      ensures req.kind.MethodOther? ==> !allowed && err == Some(MethodNotAllowed)
      ensures req.kind.MethodGET? ==>
                (allowed <==> !req.hasBody && Extracted(req.rawQuery).Found? && Current().OnList(Extracted(req.rawQuery).value))
      ensures req.kind.MethodPOST? && req.bodyIsDocument ==>
                (allowed <==> QueryValues(req.rawQuery) == [] && Current().OnList(req.body))
      ensures req.kind.MethodPOST? && !req.bodyIsDocument ==>
                (allowed <==> QueryValues(req.rawQuery) == [] && req.json.WellFormed? && Current().ListsAll(req.json.root, req.body))
      ensures allowed <==> Named(req, maxBatch).Some? && forall d | d in Named(req, maxBatch).value :: Current().OnList(d)
      ensures err == Current().RefusalOf(req) && (err.Some? ==> !allowed)
      ensures req.kind.MethodGET? ==> (err == Some(BodyOnGET) <==> req.hasBody)
      ensures req.kind.MethodGET? && !req.hasBody ==>
                forall x :: err == Some(NoDocument(x)) <==> Extracted(req.rawQuery) == x && !x.Found?
      ensures req.kind.MethodPOST? && QueryValues(req.rawQuery) != [] ==> err == Some(QueryBesideBody)
    {
      hide Extracted, QueryValues, Scan, Finish, Rules.OnList, Rules.ListsAll;
      if req.kind == MethodOther {
        return false, Some(MethodNotAllowed);
      }
      if req.kind == MethodGET {
        if req.hasBody {
          return false, Some(BodyOnGET);
        }
        var value := ExtractQueryParam(req.rawQuery);
        if !value.Found? {
          return false, Some(NoDocument(value));
        }
        allowed, err := Allow(value.value);
        Current().TooDeepIsNotOn(value.value);
        return;
      }
      var beside := HasQueryParam(req.rawQuery);
      if beside {
        return false, Some(QueryBesideBody);
      }
      if req.bodyIsDocument {
        allowed, err := Allow(req.body);
        Current().TooDeepIsNotOn(req.body);
        return;
      }
      allowed, err := DecideBody(req);
    }

    /** The documents of a JSON body, one after another. */
    method DecideBody(req: Request) returns (allowed: bool, err: Option<Refusal>)
      requires parser.Valid() && req.json.Within(|req.body|)
      modifies this`scratch, this`spans, this`sum, parser, hash`calls
      ensures parser.Valid()
      ensures var found := FoundIn(req.json, maxBatch, |req.body|);
              allowed <==> found.Some? && SpelledAt(found.value, req.body).Some?
                           && forall d | d in SpelledAt(found.value, req.body).value :: Current().OnList(d)
      ensures var found := FoundIn(req.json, maxBatch, |req.body|);
              err == if found.None? then Some(BadBody(FaultIn(req.json, maxBatch).value)) else Current().BodyRefusal(found.value, req.body)
      ensures err.Some? ==> !allowed
      ensures allowed <==> req.json.WellFormed? && Current().ListsAll(req.json.root, req.body)
    {
      hide Scan, Rules.OnList, Rules.ListsAll, Documents, Spelled, Rules.DepthRefusal, SpelledAt, Rules.AllOnList, Rules.BodyRefusal;
      FoundIs(req.json, maxBatch, |req.body|);
      if req.json.WellFormed? {
        Current().ListedBody(req.json.root, req.body);
      }
      var docs, bad := ExtractJSON(req.json.Events(), req.json.Malformed?, maxBatch);
      spans := [];
      if bad.Some? {
        return false, Some(BadBody(bad.value));
      }
      assert FoundIn(req.json, maxBatch, |req.body|) == Some(docs);
      allowed, err := DecideSpans(docs, req.body);
      Current().AllOnListIs(docs, req.body);
    }

    /** The documents at the spans, one after another. */
    method DecideSpans(docs: seq<Span>, body: bytes) returns (allowed: bool, err: Option<Refusal>)
      requires parser.Valid() && SpansWithin(docs, |body|)
      modifies this`scratch, this`sum, parser, hash`calls
      ensures parser.Valid() && Current() == old(Current())
      ensures allowed <==> Current().AllOnList(docs, body)
      ensures err == Current().BodyRefusal(docs, body) && (err.Some? ==> !allowed)
    {
      hide Rules.OnList, Spelled, Rules.DepthRefusal, Rules.AllOnList, Rules.BodyRefusal;
      assert docs[0..] == docs;
      ghost var rules := Current();
      for k := 0 to |docs|
        invariant parser.Valid() && Current() == rules
        invariant rules.BodyRefusal(docs, body) == rules.BodyRefusal(docs[k..], body)
        invariant rules.AllOnList(docs, body) <==> rules.AllOnList(docs[k..], body)
      {
        var s := docs[k];
        assert docs[k..][0] == s && docs[k..][1..] == docs[k + 1..];
        rules.FirstDecides(docs[k..], body);
        var value;
        value, scratch := UnescapeJSON(scratch, body[s.start..s.end]);
        if value.None? {
          return false, Some(InvalidEscapeInBody);
        }
        allowed, err := Allow(value.value);
        if err.Some? || !allowed {
          rules.TooDeepIsNotOn(value.value);
          return false, err;
        }
      }
      assert docs[|docs|..] == [];
      rules.FirstDecides([], body);
      return true, None;
    }
  }

  // ----- What an allowed request looks like

  /** The value is a request object with exactly one member named query, a string. */
  predicate IsRequest(v: Json) {
    v.Object? && |QueryMembers(v.members)| == 1 && QueryMembers(v.members)[0].Text?
  }

  lemma {:induction false} RequestsIn(vs: seq<Json>)
    ensures DocumentsIn(vs).Some? <==> forall k | 0 <= k < |vs| :: IsRequest(vs[k])
  {
    if vs != [] {
      RequestsIn(vs[1..]);
      assert forall k | 0 < k < |vs| :: vs[k] == vs[1..][k - 1];
    }
  }

  /** A request that names its documents names each exactly once, in one place. */
  lemma NamedOnce(req: Request, maxBatch: int)
    requires req.json.Within(|req.body|) && Named(req, maxBatch).Some?
    ensures !req.kind.MethodOther?
    ensures req.kind.MethodGET? ==> !req.hasBody && |QueryValues(req.rawQuery)| == 1
    ensures req.kind.MethodPOST? ==> QueryValues(req.rawQuery) == []
    ensures req.kind.MethodPOST? && !req.bodyIsDocument ==>
              && req.json.WellFormed?
              && (req.json.root.Array? ==>
                    && 1 <= |req.json.root.items| <= maxBatch
                    && forall k | 0 <= k < |req.json.root.items| :: IsRequest(req.json.root.items[k]))
              && (!req.json.root.Array? ==> IsRequest(req.json.root))
  {
    hide QueryValues, Scan, Finish, Walk, QueryMembers, SpelledAt;
    if req.kind.MethodPOST? && !req.bodyIsDocument {
      var root := req.json.root;
      BodyDocuments(root, maxBatch);
      if root.Array? {
        RequestsIn(root.items);
      } else {
        RequestsIn([root]);
        assert [root][0] == root;
      }
    }
  }

  /** Endpoint parameters merged into the query string of a request name no document beside it. */
  lemma MergedNamesTheSame(req: Request, upstream: bytes, maxBatch: int)
    requires req.json.Within(|req.body|) && QueryValues(upstream) == []
    ensures Named(req.(rawQuery := MergeQuery(upstream, req.rawQuery)), maxBatch) == Named(req, maxBatch)
  {
    hide QueryValues, Extracted, Scan, Finish, SpelledAt;
    MergeKeepsDocument(upstream, req.rawQuery);
    MergeAddsUp(upstream, req.rawQuery);
    assert [] + QueryValues(req.rawQuery) == QueryValues(req.rawQuery);
  }
}
