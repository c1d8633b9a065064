/**
 The documents in a JSON request body. The JSON itself is scanned by another library, which
 visits every value before its members; what is modelled here is the callback it calls.
 */
module JsonBody {
  import opened Bytes
  import opened JsonText

  /** The range of a string's contents within the body. */
  datatype Span = Span(start: nat, end: nat)

  datatype Json =
    | Text(span: Span)
    | Atom
    | Array(items: seq<Json>)
    | Object(members: seq<Member>)

  /** A key carries its quotes. */
  datatype Member = Member(key: bytes, value: Json)

  /** One call of the callback; an item of an array has no key. */
  datatype Event = Event(level: nat, key: bytes, value: Json)

  function Walk(level: nat, key: bytes, v: Json): (evs: seq<Event>)
    ensures evs != [] && evs[0] == Event(level, key, v)
    decreases v, 1
  {
    [Event(level, key, v)] + (match v
                              case Array(items) => WalkItems(level + 1, items)
                              case Object(members) => WalkMembers(level + 1, members)
                              case _ => [])
  }

  function WalkItems(level: nat, items: seq<Json>): seq<Event>
    decreases items, 0
  {
    if items == [] then [] else Walk(level, [], items[0]) + WalkItems(level, items[1..])
  }

  function WalkMembers(level: nat, members: seq<Member>): seq<Event>
    decreases members, 0
  {
    if members == [] then [] else WalkMember(level, members[0]) + WalkMembers(level, members[1..])
  }

  function WalkMember(level: nat, m: Member): (evs: seq<Event>)
    ensures evs != [] && evs[0] == Event(level, m.key, m.value)
    decreases m, 0
  {
    Walk(level, m.key, m.value)
  }

  datatype BodyError = BodyNoQuery | MalformedJSON | Batch | BatchTooLarge | BatchElementNoDocument | QueryCollision

  // ----- What extractJSON is for

  /** The values of the members that are named query, in any spelling. */
  function QueryMembers(ms: seq<Member>): seq<Json> {
    if ms == [] then []
    else (if SpellsQuery(ms[0].key) then [ms[0].value] else []) + QueryMembers(ms[1..])
  }

  /** The document of a request object: the one member that is named query, a string. */
  function DocumentIn(v: Json): Option<Span> {
    if v.Object? && |QueryMembers(v.members)| == 1 && QueryMembers(v.members)[0].Text?
    then Some(QueryMembers(v.members)[0].span) else None
  }

  /** Every request carries a document of its own. */
  function DocumentsIn(vs: seq<Json>): Option<seq<Span>> {
    if vs == [] then Some([])
    else if DocumentIn(vs[0]).None? || DocumentsIn(vs[1..]).None? then None
    else Some([DocumentIn(vs[0]).value] + DocumentsIn(vs[1..]).value)
  }

  /** The documents of a body: one request object, or 1 to maxBatch of them in an array. */
  function Documents(root: Json, maxBatch: int): Option<seq<Span>> {
    if root.Array? then
      if 1 <= |root.items| <= maxBatch then DocumentsIn(root.items) else None
    else DocumentsIn([root])
  }

  /** Why an element of a batch has no document to go on with, k documents having been found. */
  function ElementFault(v: Json, k: nat, maxBatch: int): Option<BodyError> {
    var q := if v.Object? then QueryMembers(v.members) else [];
    if q == [] then Some(BatchElementNoDocument)
    else if q[0].Text? && k + 1 > maxBatch then Some(BatchTooLarge)
    else if |q| > 1 then Some(QueryCollision)
    else if !q[0].Text? then Some(BatchElementNoDocument)
    else None
  }

  /** The fault of the first element that has one. */
  function BatchFault(items: seq<Json>, k: nat, maxBatch: int): Option<BodyError> {
    if items == [] then None
    else if ElementFault(items[0], k, maxBatch).Some? then ElementFault(items[0], k, maxBatch)
    else BatchFault(items[1..], k + 1, maxBatch)
  }

  /** Why a well-formed body is refused. */
  function BodyFault(root: Json, maxBatch: int): Option<BodyError> {
    if root.Array? then
      if maxBatch < 1 then Some(Batch)
      else if root.items == [] then Some(BodyNoQuery)
      else BatchFault(root.items, 0, maxBatch)
    else if root.Object? && |QueryMembers(root.members)| > 1 then Some(QueryCollision)
    else if DocumentIn(root).None? then Some(BodyNoQuery)
    else None
  }

  /** A batch is taken exactly if every element carries a document and there are not too many. */
  lemma {:induction false} BatchTaken(items: seq<Json>, k: nat, maxBatch: int)
    requires k <= maxBatch
    ensures BatchFault(items, k, maxBatch).None? <==> DocumentsIn(items).Some? && k + |items| <= maxBatch
  {
    hide QueryMembers;
    if items != [] && ElementFault(items[0], k, maxBatch).None? {
      BatchTaken(items[1..], k + 1, maxBatch);
    }
  }

  // ----- The callback

  /** The flags the callback keeps, the level its requests' members are at, and the spans. */
  datatype Flags = Flags(level: nat, found: bool, seen: bool, inElement: bool, elementFound: bool, spans: seq<Span>)

  /** Whether the scan goes on. */
  datatype Step = Go(f: Flags) | Stop(e: BodyError)

  function OnValue(f: Flags, ev: Event, maxBatch: int): Step {
    if ev.level == 0 then
      if ev.value.Array? then (if maxBatch < 1 then Stop(Batch) else Go(f.(level := 2))) else Go(f)
    else if f.level == 2 && ev.level == 1 then
      if f.inElement && !f.elementFound then Stop(BatchElementNoDocument)
      else Go(f.(seen := false, elementFound := false, inElement := true))
    else if ev.level != f.level || !SpellsQuery(ev.key) then Go(f)
    else if f.seen then Stop(QueryCollision)
    else if !ev.value.Text? then Go(f.(seen := true))
    else if f.level == 2 && |f.spans| + 1 > maxBatch then Stop(BatchTooLarge)
    else Go(f.(seen := true, found := true, elementFound := true, spans := f.spans + [ev.value.span]))
  }

  function Scan(f: Flags, evs: seq<Event>, maxBatch: int): Step
    decreases |evs|
  {
    if evs == [] then Go(f)
    else match OnValue(f, evs[0], maxBatch)
         case Stop(e) => Stop(e)
         case Go(g) => Scan(g, evs[1..], maxBatch)
  }

  /** Why nothing is found, once the scan is over. */
  function FaultOf(s: Step, malformed: bool): Option<BodyError> {
    if s.Stop? then Some(s.e)
    else if malformed then Some(MalformedJSON)
    else if s.f.inElement && !s.f.elementFound then Some(BatchElementNoDocument)
    else if !s.f.found then Some(BodyNoQuery)
    else None
  }

  /** What is found once the scan of a well-formed body is over. */
  function Finish(s: Step): Option<seq<Span>> {
    if FaultOf(s, false).Some? then None else Some(s.f.spans)
  }

  const START: Flags := Flags(1, false, false, false, false, [])

  lemma {:induction false} ScanCat(f: Flags, a: seq<Event>, b: seq<Event>, maxBatch: int)
    ensures var s := Scan(f, a, maxBatch);
            Scan(f, a + b, maxBatch) == if s.Stop? then s else Scan(s.f, b, maxBatch)
    decreases |a|
  {
    hide OnValue;
    if a == [] {
      assert a + b == b;
    } else {
      assert (a + b)[1..] == a[1..] + b;
      var s := OnValue(f, a[0], maxBatch);
      if s.Go? {
        ScanCat(s.f, a[1..], b, maxBatch);
      }
    }
  }

  /** extractJSON: the callback is called value by value until it breaks or the body ends. */
  method ExtractJSON(evs: seq<Event>, malformed: bool, maxBatch: int) returns (dst: seq<Span>, err: Option<BodyError>)
    ensures err == FaultOf(Scan(START, evs, maxBatch), malformed)
    ensures err.None? ==> Finish(Scan(START, evs, maxBatch)) == Some(dst)
  {
    hide SpellsQuery;
    var level: nat := 1;
    dst := [];
    var found, seen, inElement, elementFound := false, false, false, false;
    assert evs[0..] == evs;
    for k := 0 to |evs|
      invariant Scan(START, evs, maxBatch) == Scan(Flags(level, found, seen, inElement, elementFound, dst), evs[k..], maxBatch)
    {
      var i := evs[k];
      assert evs[k..][1..] == evs[k + 1..];
      if i.level == 0 {
        if i.value.Array? {
          if maxBatch < 1 {
            return dst, Some(Batch);
          }
          level := 2;
        }
        continue;
      }
      if level == 2 && i.level == 1 {
        if inElement && !elementFound {
          return dst, Some(BatchElementNoDocument);
        }
        seen, elementFound, inElement := false, false, true;
        continue;
      }
      if i.level != level {
        continue;
      }
      var named := IsQueryKey(i.key);
      if !named {
        continue;
      }
      if seen {
        return dst, Some(QueryCollision);
      }
      seen := true;
      if !i.value.Text? {
        continue;
      }
      dst := dst + [i.value.span];
      found, elementFound := true, true;
      if level == 2 && |dst| > maxBatch {
        return dst, Some(BatchTooLarge);
      }
    }
    if malformed {
      return dst, Some(MalformedJSON);
    }
    if inElement && !elementFound {
      return dst, Some(BatchElementNoDocument);
    }
    if !found {
      return dst, Some(BodyNoQuery);
    }
    return dst, None;
  }

  // ----- What the callback finds in a well-formed body

  /** Values within a member are not looked at. */
  lemma {:induction false} DeepSkipped(f: Flags, level: nat, key: bytes, v: Json, maxBatch: int)
    requires level > f.level >= 1
    ensures Scan(f, Walk(level, key, v), maxBatch) == Go(f)
    decreases v, 1
  {
    var evs := Walk(level, key, v);
    var rest := evs[1..];
    assert OnValue(f, evs[0], maxBatch) == Go(f);
    match v {
      case Array(items) =>
        assert rest == WalkItems(level + 1, items);
        DeepItemsSkipped(f, level + 1, items, maxBatch);
      case Object(members) =>
        assert rest == WalkMembers(level + 1, members);
        DeepMembersSkipped(f, level + 1, members, maxBatch);
      case _ =>
        assert rest == [];
    }
  }

  lemma {:induction false} DeepItemsSkipped(f: Flags, level: nat, items: seq<Json>, maxBatch: int)
    requires level > f.level >= 1
    ensures Scan(f, WalkItems(level, items), maxBatch) == Go(f)
    decreases items, 0
  {
    hide Walk;
    if items != [] {
      DeepSkipped(f, level, [], items[0], maxBatch);
      DeepItemsSkipped(f, level, items[1..], maxBatch);
      ScanCat(f, Walk(level, [], items[0]), WalkItems(level, items[1..]), maxBatch);
    }
  }

  lemma {:induction false} DeepMembersSkipped(f: Flags, level: nat, ms: seq<Member>, maxBatch: int)
    requires level > f.level >= 1
    ensures Scan(f, WalkMembers(level, ms), maxBatch) == Go(f)
    decreases ms, 0
  {
    hide Walk, WalkMember;
    if ms != [] {
      DeepMemberSkipped(f, level, ms[0], maxBatch);
      DeepMembersSkipped(f, level, ms[1..], maxBatch);
      ScanCat(f, WalkMember(level, ms[0]), WalkMembers(level, ms[1..]), maxBatch);
    }
  }

  lemma {:induction false} DeepMemberSkipped(f: Flags, level: nat, m: Member, maxBatch: int)
    requires level > f.level >= 1
    ensures Scan(f, WalkMember(level, m), maxBatch) == Go(f)
    decreases m, 0
  {
    DeepSkipped(f, level, m.key, m.value, maxBatch);
  }

  /** What is below a member is skipped. */
  lemma BelowSkipped(f: Flags, level: nat, key: bytes, v: Json, maxBatch: int)
    requires level == f.level >= 1
    ensures Scan(f, Walk(level, key, v)[1..], maxBatch) == Go(f)
  {
    var rest := Walk(level, key, v)[1..];
    match v {
      case Array(items) =>
        assert rest == WalkItems(level + 1, items);
        DeepItemsSkipped(f, level + 1, items, maxBatch);
      case Object(members) =>
        assert rest == WalkMembers(level + 1, members);
        DeepMembersSkipped(f, level + 1, members, maxBatch);
      case _ =>
        assert rest == [];
    }
  }

  /** The state after the members of a request object, if the scan got past them. */
  function AfterMembers(f: Flags, q: seq<Json>, maxBatch: int): Step {
    if q == [] then Go(f)
    else if f.seen then Stop(QueryCollision)
    else if q[0].Text? && f.level == 2 && |f.spans| + 1 > maxBatch then Stop(BatchTooLarge)
    else if |q| > 1 then Stop(QueryCollision)
    else if !q[0].Text? then Go(f.(seen := true))
    else Go(f.(seen := true, found := true, elementFound := true, spans := f.spans + [q[0].span]))
  }

  lemma {:induction false} MembersScanned(f: Flags, ms: seq<Member>, maxBatch: int)
    requires f.level >= 1
    ensures Scan(f, WalkMembers(f.level, ms), maxBatch) == AfterMembers(f, QueryMembers(ms), maxBatch)
    decreases |ms|
  {
    hide SpellsQuery, Walk, WalkMember;
    if ms != [] {
      var m, rest := ms[0], ms[1..];
      MemberScanned(f, m, maxBatch);
      ScanCat(f, WalkMember(f.level, m), WalkMembers(f.level, rest), maxBatch);
      var s := Scan(f, WalkMember(f.level, m), maxBatch);
      var q := QueryMembers(rest);
      assert QueryMembers(ms) == (if SpellsQuery(m.key) then [m.value] else []) + q;
      assert [] + q == q;
      assert SpellsQuery(m.key) ==> QueryMembers(ms)[0] == m.value;
      if s.Go? {
        MembersScanned(s.f, rest, maxBatch);
      }
    }
  }

  lemma MemberScanned(f: Flags, m: Member, maxBatch: int)
    requires f.level >= 1
    ensures Scan(f, WalkMember(f.level, m), maxBatch)
              == AfterMembers(f, if SpellsQuery(m.key) then [m.value] else [], maxBatch)
  {
    hide SpellsQuery;
    var evs := WalkMember(f.level, m);
    var s := OnValue(f, evs[0], maxBatch);
    if s.Go? {
      BelowSkipped(s.f, f.level, m.key, m.value, maxBatch);
    }
  }

  /** The items of an element that is an array have no key and are no members. */
  lemma {:induction false} ItemsSkipped(f: Flags, items: seq<Json>, maxBatch: int)
    requires f.level >= 2
    ensures Scan(f, WalkItems(f.level, items), maxBatch) == Go(f)
    decreases |items|
  {
    hide Walk;
    if items != [] {
      ItemSkipped(f, items[0], maxBatch);
      ItemsSkipped(f, items[1..], maxBatch);
      ScanCat(f, Walk(f.level, [], items[0]), WalkItems(f.level, items[1..]), maxBatch);
    }
  }

  lemma ItemSkipped(f: Flags, v: Json, maxBatch: int)
    requires f.level >= 2
    ensures Scan(f, Walk(f.level, [], v), maxBatch) == Go(f)
  {
    assert !SpellsQuery([]);
    BelowSkipped(f, f.level, [], v, maxBatch);
    assert OnValue(f, Walk(f.level, [], v)[0], maxBatch) == Go(f);
  }

  /** One element of a batch: it is entered, and its members are read. */
  lemma ElementScanned(f: Flags, v: Json, maxBatch: int)
    requires f.level == 2 && (f.inElement ==> f.elementFound)
    ensures var g := f.(seen := false, elementFound := false, inElement := true);
            Scan(f, Walk(1, [], v), maxBatch) == AfterMembers(g, if v.Object? then QueryMembers(v.members) else [], maxBatch)
  {
    hide AfterMembers;
    var g := f.(seen := false, elementFound := false, inElement := true);
    var evs := Walk(1, [], v);
    assert OnValue(f, evs[0], maxBatch) == Go(g);
    NothingRead(g, maxBatch);
    match v {
      case Array(items) =>
        assert evs[1..] == WalkItems(2, items);
        ItemsSkipped(g, items, maxBatch);
      case Object(members) =>
        assert evs[1..] == WalkMembers(2, members);
        MembersScanned(g, members, maxBatch);
      case _ =>
        assert evs[1..] == [];
    }
  }

  lemma NothingRead(f: Flags, maxBatch: int)
    ensures AfterMembers(f, [], maxBatch) == Go(f)
  {
  }

  /** An element that carries no document ends the scan, at the next element or after the last. */
  lemma {:induction false} EmptyElement(f: Flags, items: seq<Json>, maxBatch: int)
    requires f.level == 2 && f.inElement && !f.elementFound
    ensures FaultOf(Scan(f, WalkItems(1, items), maxBatch), false) == Some(BatchElementNoDocument)
  {
    if items != [] {
      assert WalkItems(1, items)[0] == Walk(1, [], items[0])[0];
    }
  }

  /** The documents of the elements still to come, after those already found. */
  lemma {:induction false} ElementsScanned(f: Flags, items: seq<Json>, maxBatch: int)
    requires f.level == 2 && (f.inElement ==> f.elementFound) && (f.found <==> f.spans != []) && |f.spans| <= maxBatch
    ensures var s := Scan(f, WalkItems(1, items), maxBatch);
            && FaultOf(s, false) == (if f.spans == [] && items == [] then Some(BodyNoQuery)
                                     else BatchFault(items, |f.spans|, maxBatch))
            && (FaultOf(s, false).None? ==> DocumentsIn(items).Some? && s.f.spans == f.spans + DocumentsIn(items).value)
    decreases |items|
  {
    hide Walk, QueryMembers, OnValue;
    if items != [] {
      var v, rest := items[0], items[1..];
      var q := if v.Object? then QueryMembers(v.members) else [];
      var g := f.(seen := false, elementFound := false, inElement := true);
      ElementScanned(f, v, maxBatch);
      ScanCat(f, Walk(1, [], v), WalkItems(1, rest), maxBatch);
      var s := Scan(f, Walk(1, [], v), maxBatch);
      if s.Go? {
        if s.f.elementFound {
          ElementsScanned(s.f, rest, maxBatch);
          if DocumentsIn(rest).Some? {
            assert f.spans + ([q[0].span] + DocumentsIn(rest).value) == f.spans + [q[0].span] + DocumentsIn(rest).value;
          }
        } else {
          EmptyElement(s.f, rest, maxBatch);
        }
      }
    } else {
      assert f.spans + [] == f.spans;
    }
  }

  /** extractJSON finds the documents of a well-formed body if every request in it names the
      query member exactly once, as a string, and there are not too many; else it reports the
      first fault. */
  lemma BodyDocuments(root: Json, maxBatch: int)
    ensures var s := Scan(START, Walk(0, [], root), maxBatch);
            FaultOf(s, false) == BodyFault(root, maxBatch) && Finish(s) == Documents(root, maxBatch)
  {
    hide QueryMembers, BatchFault;
    var evs := Walk(0, [], root);
    if root.Array? {
      assert evs[1..] == WalkItems(1, root.items);
      if maxBatch >= 1 {
        BatchTaken(root.items, 0, maxBatch);
        ElementsScanned(START.(level := 2), root.items, maxBatch);
        if DocumentsIn(root.items).Some? {
          assert [] + DocumentsIn(root.items).value == DocumentsIn(root.items).value;
        }
      }
    } else {
      LoneBody(root, maxBatch);
    }
  }

  lemma LoneBody(root: Json, maxBatch: int)
    requires !root.Array?
    ensures var s := Scan(START, Walk(0, [], root), maxBatch);
            FaultOf(s, false) == BodyFault(root, maxBatch) && Finish(s) == Documents(root, maxBatch)
  {
    hide QueryMembers, BatchFault;
    var evs := Walk(0, [], root);
    assert DocumentsIn([]) == Some([]) && [root][1..] == [];
    assert DocumentIn(root).Some? ==> DocumentsIn([root]) == Some([DocumentIn(root).value] + []);
    assert OnValue(START, evs[0], maxBatch) == Go(START);
    if root.Object? {
      assert evs[1..] == WalkMembers(1, root.members);
      MembersScanned(START, root.members, maxBatch);
      if DocumentIn(root).Some? {
        assert START.spans + [DocumentIn(root).value] == [DocumentIn(root).value] + [];
      }
    } else {
      assert evs[1..] == [];
    }
  }
}
