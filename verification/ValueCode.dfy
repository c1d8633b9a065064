/**
 When the canonical form of a value can be read back. A list or an input object that is
 empty has no end marker, so what follows it may be taken for its contents. Clear says for
 which values that does not happen.
 */
module ValueCode {
  import opened Bytes
  import opened Ast
  import opened Canonical
  import opened Grammar
  import opened Marks

  predicate IsEmptyList(v: Value) { v.ListValue? && v.items == [] }

  predicate IsFullList(v: Value) { v.ListValue? && v.items != [] }

  predicate IsEmptyObject(v: Value) { v.ObjectValue? && v.fields == [] }

  predicate IsFullObject(v: Value) { v.ObjectValue? && v.fields != [] }

  predicate NoFullList(vs: seq<Value>) {
    vs == [] || (!IsFullList(vs[0]) && NoFullList(vs[1..]))
  }

  predicate NoFullObject(fs: seq<ObjectField>) {
    fs == [] || (!IsFullObject(fs[0].value) && NoFullObject(fs[1..]))
  }

  /** The items of a list. An empty list among them must not come before a list with items; if
      the list is an item of a list itself, nothing at all may come after an empty one. */
  predicate ClearItems(vs: seq<Value>, nested: bool)
    decreases vs, 1
  {
    vs == [] || (
      && ClearIn(vs[0], true, false)
      && (IsEmptyList(vs[0]) ==> if nested then |vs| == 1 else NoFullList(vs[1..]))
      && ClearItems(vs[1..], nested))
  }

  /** The fields of an input object, in the same way. */
  predicate ClearFields(fs: seq<ObjectField>, nested: bool)
    decreases fs, 1
  {
    fs == [] || (
      && ClearField(fs[0])
      && (IsEmptyObject(fs[0].value) ==> if nested then |fs| == 1 else NoFullObject(fs[1..]))
      && ClearFields(fs[1..], nested))
  }

  predicate ClearField(f: ObjectField)
    decreases f, 1
  {
    ClearIn(f.value, false, true)
  }

  /** A value that is an item of a list, the value of a field, or neither. */
  predicate ClearIn(v: Value, item: bool, field: bool)
    decreases v, 0
  {
    match v
    case ListValue(vs) => ClearItems(vs, item)
    case ObjectValue(fs) => ClearFields(fs, field)
    case _ => true
  }

  /** A value that is the whole of an argument or a default value. */
  predicate Clear(v: Value) { ClearIn(v, false, false) }

  // ----- What a value begins with

  predicate IsScalar(v: Value) { !v.ListValue? && !v.ObjectValue? }

  predicate IsValueMark(b: byte) { 0x13 <= b <= 0x1f && b != PREF_OBJECT_FIELD && b != PREF_OBJECT_END && b != PREF_LIST_END }

  function ValueMark(v: Value): (b: byte)
    ensures IsValueMark(b) && IsMark(b)
  {
    match v
    case Variable(_) => PREF_VARIABLE
    case IntValue(_) => PREF_INTEGER
    case FloatValue(_) => PREF_FLOAT
    case StringValue(_) => PREF_STRING
    case BooleanValue(b) => if b then PREF_TRUE else PREF_FALSE
    case NullValue => PREF_NULL
    case EnumValue(_) => PREF_ENUM
    case ListValue(_) => PREF_LIST
    case ObjectValue(_) => PREF_OBJECT
  }

  /** The bytes after the mark. */
  function ValueBody(v: Value): bytes {
    match v
    case Variable(n) => n
    case IntValue(t) => t
    case FloatValue(t) => t
    case StringValue(t) => Escape(t)
    case BooleanValue(_) => []
    case NullValue => []
    case EnumValue(n) => n
    case ListValue(vs) => if vs == [] then [] else EncItems(vs) + [PREF_LIST_END]
    case ObjectValue(fs) => if fs == [] then [] else EncFields(fs) + [PREF_OBJECT_END]
  }

  lemma ValueIs(v: Value)
    ensures EncValue(v) == [ValueMark(v)] + ValueBody(v)
  {
    hide Escape, EncItems, EncFields;
    assert forall m: byte :: [m] + [] == [m];
  }

  lemma ScalarBodyIsText(v: Value)
    requires IsScalar(v) && WfValue(v, false)
    ensures IsText(ValueBody(v))
  {
    match v {
      case Variable(n) => NameIsText(n);
      case EnumValue(n) => NameIsText(n);
      case IntValue(t) => NumberIsText(t, false);
      case FloatValue(t) => NumberIsText(t, true);
      case StringValue(t) => EscapeIsText(t);
      case _ =>
    }
  }

  lemma Tail(a: byte, x: bytes, b: byte, y: bytes)
    requires [a] + x == [b] + y
    ensures a == b && x == y
  {
    assert ([a] + x)[0] == a && ([b] + y)[0] == b;
    assert x == ([a] + x)[1..] && y == ([b] + y)[1..];
  }

  /** The mark comes off. */
  lemma SameMark(v: Value, x: bytes, w: Value, y: bytes)
    requires EncValue(v) + x == EncValue(w) + y
    ensures ValueMark(v) == ValueMark(w) && ValueBody(v) + x == ValueBody(w) + y
  {
    hide EncValue, ValueMark, ValueBody;
    ValueIs(v);
    ValueIs(w);
    Assoc([ValueMark(v)], ValueBody(v), x);
    Assoc([ValueMark(w)], ValueBody(w), y);
    Tail(ValueMark(v), ValueBody(v) + x, ValueMark(w), ValueBody(w) + y);
  }

  /** A scalar is read back, whatever follows it. */
  lemma ScalarCode(v: Value, x: bytes, w: Value, y: bytes)
    requires IsScalar(v) && WfValue(v, false) && WfValue(w, false) && Stops(x) && Stops(y)
    requires EncValue(v) + x == EncValue(w) + y
    ensures v == w && x == y
  {
    hide EncValue, Escape;
    SameMark(v, x, w, y);
    ScalarBodyIsText(v);
    ScalarBodyIsText(w);
    Cut(ValueBody(v), x, ValueBody(w), y);
    if v.StringValue? {
      EscapeInjective(v.value, w.value);
    }
  }

  // ----- Lists that are being read

  /** The items still to come at each list that is open, the innermost first. */
  datatype Spine = Top | Level(items: seq<Value>, outer: Spine)

  function Depth(l: Spine): nat { if l.Top? then 0 else 1 + Depth(l.outer) }

  /** The bytes still to come, t being those after the outermost list. */
  function Flat(l: Spine, t: bytes): bytes
    decreases l, if l.Top? then 0 else |l.items|
  {
    match l
    case Top => t
    case Level(vs, outer) => EncItems(vs) + ([PREF_LIST_END] + Flat(outer, t))
  }

  predicate ClearSpine(l: Spine) {
    l.Top? || (ClearItems(l.items, l.outer.Level?) && ClearSpine(l.outer))
  }

  predicate WfSpine(l: Spine) {
    l.Top? || (WfItems(l.items, false) && WfSpine(l.outer))
  }

  /** No item can begin here, and no list can end. */
  predicate EndsList(t: bytes) {
    t == [] || (IsMark(t[0]) && !IsValueMark(t[0]) && t[0] != PREF_LIST_END)
  }

  lemma FlatItem(vs: seq<Value>, outer: Spine, t: bytes)
    requires vs != []
    ensures Flat(Level(vs, outer), t) == EncValue(vs[0]) + Flat(Level(vs[1..], outer), t)
  {
    hide EncValue;
    Assoc(EncValue(vs[0]), EncItems(vs[1..]), [PREF_LIST_END] + Flat(outer, t));
  }

  lemma FlatEnd(outer: Spine, t: bytes)
    ensures Flat(Level([], outer), t) == [PREF_LIST_END] + Flat(outer, t)
  {
  }

  /** A list with items opens a level. */
  lemma FlatOpen(vs: seq<Value>, l: Spine, t: bytes)
    requires vs != []
    ensures ValueBody(ListValue(vs)) + Flat(l, t) == Flat(Level(vs, l), t)
  {
    hide EncItems, Flat;
    assert Flat(Level(vs, l), t) == EncItems(vs) + ([PREF_LIST_END] + Flat(l, t)) by {
      FlatLevel(vs, l, t);
    }
    Assoc(EncItems(vs), [PREF_LIST_END], Flat(l, t));
  }

  lemma FlatLevel(vs: seq<Value>, l: Spine, t: bytes)
    ensures Flat(Level(vs, l), t) == EncItems(vs) + ([PREF_LIST_END] + Flat(l, t))
  {
  }

  /** What comes next tells whether an item or the end of a list does. */
  lemma FlatFirst(l: Spine, t: bytes)
    requires l.Level?
    ensures var s := Flat(l, t);
            s != [] && IsMark(s[0]) && s[0] == if l.items == [] then PREF_LIST_END else ValueMark(l.items[0])
  {
    hide EncValue;
    if l.items != [] {
      FlatItem(l.items, l.outer, t);
      ValueIs(l.items[0]);
    }
  }

  // ----- Input objects that are being read

  /** The fields still to come at each input object that is open, the innermost first. */
  datatype FieldSpine = FieldTop | FieldLevel(fields: seq<ObjectField>, outer: FieldSpine)

  function FieldDepths(l: FieldSpine): nat { if l.FieldTop? then 0 else 1 + FieldDepths(l.outer) }

  function FlatFields(l: FieldSpine, t: bytes): bytes {
    match l
    case FieldTop => t
    case FieldLevel(fs, outer) => EncFields(fs) + ([PREF_OBJECT_END] + FlatFields(outer, t))
  }

  predicate ClearFieldSpine(l: FieldSpine) {
    l.FieldTop? || (ClearFields(l.fields, l.outer.FieldLevel?) && ClearFieldSpine(l.outer))
  }

  predicate WfFieldSpine(l: FieldSpine) {
    l.FieldTop? || (WfFields(l.fields, false) && WfFieldSpine(l.outer))
  }

  /** No field can begin here, and no input object can end. */
  predicate EndsObject(t: bytes) {
    t == [] || (IsMark(t[0]) && t[0] != PREF_OBJECT_FIELD && t[0] != PREF_OBJECT_END)
  }

  lemma FlatField(fs: seq<ObjectField>, outer: FieldSpine, t: bytes)
    requires fs != []
    ensures FlatFields(FieldLevel(fs, outer), t)
              == [PREF_OBJECT_FIELD] + (fs[0].name + (EncValue(fs[0].value) + FlatFields(FieldLevel(fs[1..], outer), t)))
  {
    hide EncValue;
    var rest := [PREF_OBJECT_END] + FlatFields(outer, t);
    Assoc(EncField(fs[0]), EncFields(fs[1..]), rest);
    var more := EncFields(fs[1..]) + rest;
    Assoc([PREF_OBJECT_FIELD], fs[0].name, EncValue(fs[0].value));
    Assoc([PREF_OBJECT_FIELD], fs[0].name + EncValue(fs[0].value), more);
    Assoc(fs[0].name, EncValue(fs[0].value), more);
  }

  lemma FlatFieldsEnd(outer: FieldSpine, t: bytes)
    ensures FlatFields(FieldLevel([], outer), t) == [PREF_OBJECT_END] + FlatFields(outer, t)
  {
  }

  lemma FlatFieldLevel(fs: seq<ObjectField>, l: FieldSpine, t: bytes)
    ensures FlatFields(FieldLevel(fs, l), t) == EncFields(fs) + ([PREF_OBJECT_END] + FlatFields(l, t))
  {
  }

  lemma FlatFieldOpen(fs: seq<ObjectField>, l: FieldSpine, t: bytes)
    requires fs != []
    ensures ValueBody(ObjectValue(fs)) + FlatFields(l, t) == FlatFields(FieldLevel(fs, l), t)
  {
    hide EncFields, FlatFields;
    FlatFieldLevel(fs, l, t);
    Assoc(EncFields(fs), [PREF_OBJECT_END], FlatFields(l, t));
  }

  lemma FlatFieldsFirst(l: FieldSpine, t: bytes)
    requires l.FieldLevel?
    ensures var s := FlatFields(l, t);
            s != [] && s[0] == if l.fields == [] then PREF_OBJECT_END else PREF_OBJECT_FIELD
  {
    hide EncValue;
    if l.fields != [] {
      FlatField(l.fields, l.outer, t);
    }
  }

  // ----- Reading back

  lemma WfParts(v: Value)
    requires WfValue(v, false)
    ensures v.ListValue? ==> WfItems(v.items, false)
    ensures v.ObjectValue? ==> WfFields(v.fields, false)
  {
  }

  lemma FieldIsClear(f: ObjectField)
    requires ClearField(f)
    ensures ClearIn(f.value, false, true)
  {
  }

  lemma ClearParts(v: Value, item: bool, field: bool)
    requires ClearIn(v, item, field)
    ensures v.ListValue? ==> ClearItems(v.items, item)
    ensures v.ObjectValue? ==> ClearFields(v.fields, field)
  {
  }

  /** Once an empty list is behind, and the list it is in is no item of a list, there is no
      room for a list that is still open. */
  lemma {:induction false} NoRoomForList(vs: seq<Value>, t: bytes, m: Spine, u: bytes)
    requires NoFullList(vs) && ClearItems(vs, false) && WfItems(vs, false) && EndsList(t)
    requires m.Level? && m.outer.Level? && WfSpine(m)
    ensures Flat(Level(vs, Top), t) != Flat(m, u)
    decreases |Flat(Level(vs, Top), t)|, 3
  {
    if Flat(Level(vs, Top), t) == Flat(m, u) {
      hide EncValue, Flat, ValueMark;
      FlatFirst(Level(vs, Top), t);
      FlatFirst(m, u);
      if vs == [] {
        FlatEnd(Top, t);
        TopIs(t);
        FlatEnd(m.outer, u);
        FlatFirst(m.outer, u);
        Tail(PREF_LIST_END, t, PREF_LIST_END, Flat(m.outer, u));
      } else {
        var v, w := vs[0], m.items[0];
        var x, more := Level(vs[1..], Top), Level(m.items[1..], m.outer);
        FlatItem(vs, Top, t);
        FlatItem(m.items, m.outer, u);
        FlatFirst(x, t);
        FlatFirst(more, u);
        ValueIs(v);
        WfParts(v);
        WfParts(w);
        ClearParts(v, true, false);
        if IsScalar(v) {
          ScalarCode(v, Flat(x, t), w, Flat(more, u));
          NoRoomForList(vs[1..], t, more, u);
        } else {
          SameMark(v, Flat(x, t), w, Flat(more, u));
          SameKind(v, w);
          EmptyBody();
          if v.ObjectValue? {
            ObjectCode(v.fields, Flat(x, t), w.fields, Flat(more, u));
            NoRoomForList(vs[1..], t, more, u);
          } else if w.items == [] {
            NoRoomForList(vs[1..], t, more, u);
          } else {
            FlatOpen(w.items, more, u);
            NoRoomForList(vs[1..], t, Level(w.items, more), u);
          }
        }
      }
    }
  }

  lemma TopIs(t: bytes)
    ensures Flat(Top, t) == t
  {
  }

  lemma SameKind(v: Value, w: Value)
    requires ValueMark(v) == ValueMark(w)
    ensures v.ListValue? <==> w.ListValue?
    ensures v.ObjectValue? <==> w.ObjectValue?
  {
  }

  /** Two readings of the same bytes are the same, if the first is clear and has at least as
      many lists open. */
  lemma {:induction false} ListSpineCode(l: Spine, t: bytes, m: Spine, u: bytes)
    requires Depth(l) >= Depth(m) && ClearSpine(l) && WfSpine(l) && WfSpine(m) && EndsList(t) && EndsList(u)
    requires Flat(l, t) == Flat(m, u)
    ensures l == m && t == u
    decreases |Flat(l, t)|, 3
  {
    hide EncValue, Flat, ValueMark;
    TopIs(t);
    TopIs(u);
    if l.Top? {
      return;
    }
    FlatFirst(l, t);
    if m.Top? {
      return;
    }
    FlatFirst(m, u);
    if l.items == [] || m.items == [] {
      FlatEnd(l.outer, t);
      FlatEnd(m.outer, u);
      Tail(PREF_LIST_END, Flat(l.outer, t), PREF_LIST_END, Flat(m.outer, u));
      ListSpineCode(l.outer, t, m.outer, u);
      return;
    }
    var v, w := l.items[0], m.items[0];
    var x, y := Level(l.items[1..], l.outer), Level(m.items[1..], m.outer);
    FlatItem(l.items, l.outer, t);
    FlatItem(m.items, m.outer, u);
    FlatFirst(x, t);
    FlatFirst(y, u);
    ValueIs(v);
    WfParts(v);
    WfParts(w);
    ClearParts(v, true, false);
    assert l.items == [v] + l.items[1..] && m.items == [w] + m.items[1..];
    if IsScalar(v) {
      ScalarCode(v, Flat(x, t), w, Flat(y, u));
      ListSpineCode(x, t, y, u);
      return;
    }
    SameMark(v, Flat(x, t), w, Flat(y, u));
    SameKind(v, w);
    if v.ObjectValue? {
      ObjectCode(v.fields, Flat(x, t), w.fields, Flat(y, u));
      ListSpineCode(x, t, y, u);
    } else {
      ListItemCode(v.items, x, t, w.items, y, u);
    }
  }

  /** The next item is a list on both sides, its mark is read. */
  lemma {:induction false} ListItemCode(vs: seq<Value>, x: Spine, t: bytes, ws: seq<Value>, y: Spine, u: bytes)
    requires x.Level? && y.Level? && Depth(x) >= Depth(y) && ClearSpine(x) && WfSpine(x) && WfSpine(y)
    requires ClearItems(vs, true) && WfItems(vs, false) && WfItems(ws, false) && EndsList(t) && EndsList(u)
    requires vs == [] ==> if x.outer.Level? then x.items == [] else NoFullList(x.items)
    requires ValueBody(ListValue(vs)) + Flat(x, t) == ValueBody(ListValue(ws)) + Flat(y, u)
    ensures vs == ws && x == y && t == u
    decreases |ValueBody(ListValue(vs)) + Flat(x, t)|, 4
  {
    hide EncValue, Flat, ValueMark, ValueBody;
    EmptyBody();
    if vs == [] && ws == [] {
      ListSpineCode(x, t, y, u);
    } else if vs == [] {
      FlatOpen(ws, y, u);
      FlatFirst(x, t);
      FlatFirst(Level(ws, y), u);
      if x.outer.Top? {
        NoRoomForList(x.items, t, Level(ws, y), u);
      }
    } else {
      FlatOpen(vs, x, t);
      if ws == [] {
        ListSpineCode(Level(vs, x), t, y, u);
      } else {
        FlatOpen(ws, y, u);
        ListSpineCode(Level(vs, x), t, Level(ws, y), u);
      }
    }
  }

  lemma EmptyBody()
    ensures ValueBody(ListValue([])) == [] && ValueBody(ObjectValue([])) == []
    ensures forall s: bytes :: [] + s == s
  {
  }

  /** A list that is no item of a list. */
  lemma {:induction false} ListCode(vs: seq<Value>, t: bytes, ws: seq<Value>, u: bytes)
    requires ClearItems(vs, false) && WfItems(vs, false) && WfItems(ws, false) && EndsList(t) && EndsList(u)
    requires ValueBody(ListValue(vs)) + t == ValueBody(ListValue(ws)) + u
    ensures vs == ws && t == u
    decreases |ValueBody(ListValue(vs)) + t|, 4
  {
    hide EncValue, Flat, ValueMark, ValueBody;
    EmptyBody();
    TopIs(t);
    TopIs(u);
    if vs != [] {
      FlatOpen(vs, Top, t);
      FlatFirst(Level(vs, Top), t);
    }
    if ws != [] {
      FlatOpen(ws, Top, u);
      FlatFirst(Level(ws, Top), u);
    }
    if vs != [] && ws != [] {
      ListSpineCode(Level(vs, Top), t, Level(ws, Top), u);
    }
  }

  /** An input object that is no field value. */
  lemma {:induction false} ObjectCode(fs: seq<ObjectField>, t: bytes, gs: seq<ObjectField>, u: bytes)
    requires ClearFields(fs, false) && WfFields(fs, false) && WfFields(gs, false) && EndsObject(t) && EndsObject(u)
    requires ValueBody(ObjectValue(fs)) + t == ValueBody(ObjectValue(gs)) + u
    ensures fs == gs && t == u
    decreases |ValueBody(ObjectValue(fs)) + t|, 4
  {
    hide EncValue, FlatFields, ValueMark, ValueBody;
    EmptyBody();
    FieldTopIs(t);
    FieldTopIs(u);
    if fs != [] {
      FlatFieldOpen(fs, FieldTop, t);
      FlatFieldsFirst(FieldLevel(fs, FieldTop), t);
    }
    if gs != [] {
      FlatFieldOpen(gs, FieldTop, u);
      FlatFieldsFirst(FieldLevel(gs, FieldTop), u);
    }
    if fs != [] && gs != [] {
      FieldSpineCode(FieldLevel(fs, FieldTop), t, FieldLevel(gs, FieldTop), u);
    }
  }

  lemma FieldTopIs(t: bytes)
    ensures FlatFields(FieldTop, t) == t
  {
  }

  lemma {:induction false} FieldSpineCode(l: FieldSpine, t: bytes, m: FieldSpine, u: bytes)
    requires FieldDepths(l) >= FieldDepths(m) && ClearFieldSpine(l) && WfFieldSpine(l) && WfFieldSpine(m)
    requires EndsObject(t) && EndsObject(u) && FlatFields(l, t) == FlatFields(m, u)
    ensures l == m && t == u
    decreases |FlatFields(l, t)|, 3
  {
    hide EncValue, FlatFields, ValueMark;
    FieldTopIs(t);
    FieldTopIs(u);
    if l.FieldTop? {
      return;
    }
    FlatFieldsFirst(l, t);
    if m.FieldTop? {
      return;
    }
    FlatFieldsFirst(m, u);
    if l.fields == [] || m.fields == [] {
      FlatFieldsEnd(l.outer, t);
      FlatFieldsEnd(m.outer, u);
      Tail(PREF_OBJECT_END, FlatFields(l.outer, t), PREF_OBJECT_END, FlatFields(m.outer, u));
      FieldSpineCode(l.outer, t, m.outer, u);
      return;
    }
    var f, g := l.fields[0], m.fields[0];
    var x, y := FieldLevel(l.fields[1..], l.outer), FieldLevel(m.fields[1..], m.outer);
    FieldHeads(l, t, m, u);
    FlatFieldsFirst(x, t);
    FlatFieldsFirst(y, u);
    FlatField(l.fields, l.outer, t);
    assert l.fields == [f] + l.fields[1..] && m.fields == [g] + m.fields[1..];
    var v, w := f.value, g.value;
    if IsScalar(v) {
      ScalarCode(v, FlatFields(x, t), w, FlatFields(y, u));
      FieldSpineCode(x, t, y, u);
      return;
    }
    SameMark(v, FlatFields(x, t), w, FlatFields(y, u));
    SameKind(v, w);
    ValueIs(v);
    WfParts(v);
    WfParts(w);
    FieldIsClear(f);
    ClearParts(v, false, true);
    if v.ListValue? {
      ListCode(v.items, FlatFields(x, t), w.items, FlatFields(y, u));
      FieldSpineCode(x, t, y, u);
    } else {
      ObjectItemCode(v.fields, x, t, w.fields, y, u);
    }
  }

  /** The name of the next field. */
  lemma FieldHeads(l: FieldSpine, t: bytes, m: FieldSpine, u: bytes)
    requires l.FieldLevel? && m.FieldLevel? && l.fields != [] && m.fields != []
    requires WfField(l.fields[0], false) && WfField(m.fields[0], false)
    requires FlatFields(l, t) == FlatFields(m, u)
    ensures var f, g := l.fields[0], m.fields[0];
            f.name == g.name && EncValue(f.value) + FlatFields(FieldLevel(l.fields[1..], l.outer), t)
                == EncValue(g.value) + FlatFields(FieldLevel(m.fields[1..], m.outer), u)
  {
    hide EncValue, FlatFields, ValueMark;
    var f, g := l.fields[0], m.fields[0];
    var x, y := FlatFields(FieldLevel(l.fields[1..], l.outer), t), FlatFields(FieldLevel(m.fields[1..], m.outer), u);
    FlatField(l.fields, l.outer, t);
    FlatField(m.fields, m.outer, u);
    Tail(PREF_OBJECT_FIELD, f.name + (EncValue(f.value) + x), PREF_OBJECT_FIELD, g.name + (EncValue(g.value) + y));
    NameIsText(f.name);
    NameIsText(g.name);
    ValueIs(f.value);
    ValueIs(g.value);
    Cut(f.name, EncValue(f.value) + x, g.name, EncValue(g.value) + y);
  }

  /** The next field's value is an input object on both sides, its mark is read. */
  lemma {:induction false} ObjectItemCode(fs: seq<ObjectField>, x: FieldSpine, t: bytes, gs: seq<ObjectField>, y: FieldSpine, u: bytes)
    requires x.FieldLevel? && y.FieldLevel? && FieldDepths(x) >= FieldDepths(y) && ClearFieldSpine(x)
    requires WfFieldSpine(x) && WfFieldSpine(y) && ClearFields(fs, true) && WfFields(fs, false) && WfFields(gs, false)
    requires EndsObject(t) && EndsObject(u)
    requires fs == [] ==> if x.outer.FieldLevel? then x.fields == [] else NoFullObject(x.fields)
    requires ValueBody(ObjectValue(fs)) + FlatFields(x, t) == ValueBody(ObjectValue(gs)) + FlatFields(y, u)
    ensures fs == gs && x == y && t == u
    decreases |ValueBody(ObjectValue(fs)) + FlatFields(x, t)|, 4
  {
    hide EncValue, FlatFields, ValueMark, ValueBody;
    EmptyBody();
    if fs == [] && gs == [] {
      FieldSpineCode(x, t, y, u);
    } else if fs == [] {
      FlatFieldOpen(gs, y, u);
      FlatFieldsFirst(x, t);
      FlatFieldsFirst(FieldLevel(gs, y), u);
      if x.outer.FieldTop? {
        NoRoomForObject(x.fields, t, FieldLevel(gs, y), u);
      }
    } else {
      FlatFieldOpen(fs, x, t);
      if gs == [] {
        FieldSpineCode(FieldLevel(fs, x), t, y, u);
      } else {
        FlatFieldOpen(gs, y, u);
        FieldSpineCode(FieldLevel(fs, x), t, FieldLevel(gs, y), u);
      }
    }
  }

  /** As NoRoomForList, for input objects. */
  lemma {:induction false} NoRoomForObject(fs: seq<ObjectField>, t: bytes, m: FieldSpine, u: bytes)
    requires NoFullObject(fs) && ClearFields(fs, false) && WfFields(fs, false) && EndsObject(t)
    requires m.FieldLevel? && m.outer.FieldLevel? && WfFieldSpine(m)
    ensures FlatFields(FieldLevel(fs, FieldTop), t) != FlatFields(m, u)
    decreases |FlatFields(FieldLevel(fs, FieldTop), t)|, 3
  {
    if FlatFields(FieldLevel(fs, FieldTop), t) == FlatFields(m, u) {
      hide EncValue, FlatFields, ValueMark;
      FlatFieldsFirst(FieldLevel(fs, FieldTop), t);
      FlatFieldsFirst(m, u);
      if fs == [] {
        FlatFieldsEnd(FieldTop, t);
        FieldTopIs(t);
        FlatFieldsEnd(m.outer, u);
        FlatFieldsFirst(m.outer, u);
        Tail(PREF_OBJECT_END, t, PREF_OBJECT_END, FlatFields(m.outer, u));
      } else {
        var v, w := fs[0].value, m.fields[0].value;
        var x, more := FieldLevel(fs[1..], FieldTop), FieldLevel(m.fields[1..], m.outer);
        FieldHeads(FieldLevel(fs, FieldTop), t, m, u);
        FlatField(fs, FieldTop, t);
        FlatFieldsFirst(x, t);
        FlatFieldsFirst(more, u);
        ValueIs(v);
        WfParts(v);
        WfParts(w);
        FieldIsClear(fs[0]);
        ClearParts(v, false, true);
        if IsScalar(v) {
          ScalarCode(v, FlatFields(x, t), w, FlatFields(more, u));
          NoRoomForObject(fs[1..], t, more, u);
        } else {
          SameMark(v, FlatFields(x, t), w, FlatFields(more, u));
          SameKind(v, w);
          EmptyBody();
          if v.ListValue? {
            ListCode(v.items, FlatFields(x, t), w.items, FlatFields(more, u));
            NoRoomForObject(fs[1..], t, more, u);
          } else if w.fields == [] {
            NoRoomForObject(fs[1..], t, more, u);
          } else {
            FlatFieldOpen(w.fields, more, u);
            NoRoomForObject(fs[1..], t, FieldLevel(w.fields, more), u);
          }
        }
      }
    }
  }

  // ----- Values on their own

  /** Neither a value nor the end of one can be here. */
  predicate EndsValue(t: bytes) { t == [] || (IsMark(t[0]) && t[0] < PREF_OBJECT) }

  /** A clear value is read back, whatever follows it, and no other value reads as it does. */
  lemma ClearCode(v: Value, t: bytes, w: Value, u: bytes)
    requires Clear(v) && WfValue(v, false) && WfValue(w, false) && EndsValue(t) && EndsValue(u)
    requires EncValue(v) + t == EncValue(w) + u
    ensures v == w && t == u
  {
    hide EncValue, ValueMark;
    if IsScalar(v) {
      ScalarCode(v, t, w, u);
    } else {
      SameMark(v, t, w, u);
      SameKind(v, w);
      if v.ListValue? {
        ListCode(v.items, t, w.items, u);
      } else {
        ObjectCode(v.fields, t, w.fields, u);
      }
    }
  }
}
