/**
 What a message looks like after it was encoded by one language under one schema
 and decoded by either language under another.
 */
module RoundTrip {
  import opened Bytes
  import opened Wire
  import opened Integers
  import opened Codec

  /** `t` may drop fields of `s` and add fields with new tags; what they share keeps its kind. */
  predicate Evolves(s: Schema, t: Schema) {
    && |s.types| <= |t.types|
    && forall id, k :: 0 <= id < |s.types| && 0 <= k < |t.types[id]| ==> Compatible(s.types[id], t.types[id][k])
  }

  predicate Compatible(fs: seq<Field>, g: Field) {
    var j := FindTag(fs, g.tag);
    j.Some? ==> fs[j.value].kind == g.kind
  }

  predicate Setting(from: Lang, s: Schema, t: Schema) {
    SchemaOk(s) && SchemaOk(t) && Evolves(s, t) && (from == Client ==> PortableSchema(s))
  }

  // ----- the expected message

  function ViewValue(from: Lang, to: Lang, s: Schema, t: Schema, k: Kind, v: Value): (r: Value)
    decreases v, 0, 0
  {
    match v
    case VInt(n) => if k.KInt? then VInt(SeenInt(from, to, k.t, n)) else v
    case VInts(ns) => if k.KInts? then VInts(SeenList(from, to, k.t, ns)) else v
    case VObj(m) => if k.KObj? then VObj(View(from, to, s, t, k.id, m)) else v
    case VObjs(ms) => if k.KObjs? then VObjs(ViewElems(from, to, s, t, k.id, ms)) else v
    case _ => v
  }

  function ViewElem(from: Lang, to: Lang, s: Schema, t: Schema, id: nat, e: Elem): (m: Msg)
    decreases e, 0, 0
  {
    match e
    case Nil => Msg(if id < |t.types| then Defaults(to, t.types[id]) else [])
    case Obj(m) => View(from, to, s, t, id, m)
  }

  function ViewElems(from: Lang, to: Lang, s: Schema, t: Schema, id: nat, ms: seq<Elem>): (r: seq<Elem>)
    ensures |r| == |ms|
    decreases ms, 0, 0
  {
    if ms == [] then [] else [Obj(ViewElem(from, to, s, t, id, ms[0]))] + ViewElems(from, to, s, t, id, ms[1..])
  }

  /** A field of the target: the source's value where the source has and writes it, else the default. */
  function ViewField(from: Lang, to: Lang, s: Schema, t: Schema, fs: seq<Field>, m: Msg, g: Field): (v: Option<Value>)
    decreases m, 1, 0
  {
    var j := FindTag(fs, g.tag);
    if j.Some? && j.value < |m.fields| && Present(from, m.fields[j.value])
    then Some(ViewValue(from, to, s, t, g.kind, m.fields[j.value].value))
    else Default(to, g.kind)
  }

  function ViewFields(from: Lang, to: Lang, s: Schema, t: Schema, fs: seq<Field>, m: Msg,
      gs: seq<Field>): (vs: seq<Option<Value>>)
    ensures |vs| == |gs|
    decreases m, 2, |gs|
  {
    if gs == [] then [] else [ViewField(from, to, s, t, fs, m, gs[0])] + ViewFields(from, to, s, t, fs, m, gs[1..])
  }

  function View(from: Lang, to: Lang, s: Schema, t: Schema, id: nat, m: Msg): (r: Msg)
    decreases m, 3, 0
  {
    Msg(if id < |s.types| && id < |t.types| then ViewFields(from, to, s, t, s.types[id], m, t.types[id]) else [])
  }

  // ----- storing items field by field

  function Merge(from: Lang, to: Lang, s: Schema, t: Schema, fs: seq<Field>, vs: seq<Option<Value>>,
      gs: seq<Field>, acc: seq<Option<Value>>)
    : (r: seq<Option<Value>>)
    requires |fs| == |vs| && |acc| == |gs|
    ensures |r| == |gs|
    decreases |vs|
  {
    if fs == [] then acc
    else
      var k := FindTag(gs, fs[0].tag);
      var acc' := if Present(from, vs[0]) && k.Some?
                  then acc[k.value := Some(ViewValue(from, to, s, t, fs[0].kind, vs[0].value))] else acc;
      Merge(from, to, s, t, fs[1..], vs[1..], gs, acc')
  }

  lemma {:induction false} MergeAt(from: Lang, to: Lang, s: Schema, t: Schema, fs: seq<Field>,
      vs: seq<Option<Value>>, gs: seq<Field>, acc: seq<Option<Value>>, last: int, k: nat)
    requires |fs| == |vs| && |acc| == |gs| && k < |gs| && Ascending(last, fs) && Ascending(-1, gs)
    ensures var j := FindTag(fs, gs[k].tag);
      Merge(from, to, s, t, fs, vs, gs, acc)[k] ==
        if j.Some? && Present(from, vs[j.value])
        then Some(ViewValue(from, to, s, t, fs[j.value].kind, vs[j.value].value)) else acc[k]
    decreases |fs|
  {
    hide ViewValue, Present;
    if fs != [] {
      var i := FindTag(gs, fs[0].tag);
      var acc' := if Present(from, vs[0]) && i.Some?
                  then acc[i.value := Some(ViewValue(from, to, s, t, fs[0].kind, vs[0].value))] else acc;
      MergeAt(from, to, s, t, fs[1..], vs[1..], gs, acc', fs[0].tag, k);
      AscendingAt(-1, gs, k);
      if fs[0].tag == gs[k].tag && |fs| > 1 {
        NoLaterTag(fs[0].tag, fs[1..], gs[k].tag);
      }
    }
  }

  lemma {:induction false} NoLaterTag(last: int, fs: seq<Field>, tag: nat)
    requires Ascending(last, fs) && tag <= last
    ensures FindTag(fs, tag).None?
    decreases |fs|
  {
    if fs != [] {
      NoLaterTag(fs[0].tag, fs[1..], tag);
    }
  }

  lemma {:induction false} ViewFieldsAt(from: Lang, to: Lang, s: Schema, t: Schema, fs: seq<Field>, m: Msg,
      gs: seq<Field>, k: nat)
    requires k < |gs|
    ensures ViewFields(from, to, s, t, fs, m, gs)[k] == ViewField(from, to, s, t, fs, m, gs[k])
    decreases |gs|
  {
    if k > 0 {
      ViewFieldsAt(from, to, s, t, fs, m, gs[1..], k - 1);
    }
  }

  lemma MergeIsView(from: Lang, to: Lang, s: Schema, t: Schema, id: nat, m: Msg)
    requires Setting(from, s, t) && id < |s.types| && |m.fields| == |s.types[id]|
    ensures Merge(from, to, s, t, s.types[id], m.fields, t.types[id], Defaults(to, t.types[id]))
      == View(from, to, s, t, id, m).fields
  {
    hide Merge, ViewValue, ViewFields, Present, Default;
    var fs, gs := s.types[id], t.types[id];
    var r := Merge(from, to, s, t, fs, m.fields, gs, Defaults(to, gs));
    var v := ViewFields(from, to, s, t, fs, m, gs);
    forall k | 0 <= k < |gs|
      ensures r[k] == v[k]
    {
      MergeAt(from, to, s, t, fs, m.fields, gs, Defaults(to, gs), -1, k);
      ViewFieldsAt(from, to, s, t, fs, m, gs, k);
      assert Compatible(fs, gs[k]);
    }
  }

  // ----- every encoded message can be read

  predicate FieldsTyped(s: Schema, fs: seq<Field>, vs: seq<Option<Value>>) {
    && |fs| == |vs|
    && forall k :: 0 <= k < |vs| && vs[k].Some? ==> HasKind(s, fs[k].kind, vs[k].value)
  }

  predicate FieldsOk(from: Lang, s: Schema, fs: seq<Field>) {
    forall k :: 0 <= k < |fs| ==> KindOk(s, fs[k].kind) && (from == Client ==> PortableKind(fs[k].kind))
  }

  lemma PayloadFits(from: Lang, s: Schema, k: Kind, v: Value)
    requires KindOk(s, k) && (from == Client ==> PortableKind(k)) && HasKind(s, k, v)
    requires |ChunkBytes(PayloadOf(from, s, k, v))| < TWO_32
    ensures Fits(PayloadOf(from, s, k, v))
  {
    hide Encode, IntPayload, ListBytes, BoolBytes, StrBytes, ObjBytes, InRange;
    if v.VInt? {
      IntSeen(from, Go, k.t, v.n);
    }
  }

  /** An encoder writes ascending tags and payloads that fit. */
  lemma {:induction false} ItemsEncodable(from: Lang, s: Schema, fs: seq<Field>, vs: seq<Option<Value>>, last: int)
    requires -1 <= last <= MAX_TAG && Ascending(last, fs) && FieldsTyped(s, fs, vs) && FieldsOk(from, s, fs)
    requires |DataBytes(Items(from, s, fs, vs))| < TWO_32
    ensures Encodable(last, Items(from, s, fs, vs))
    decreases |fs|
  {
    hide PayloadOf, HasKind, KindOk, PortableKind, Fits, Present;
    if fs != [] {
      var rest := Items(from, s, fs[1..], vs[1..]);
      var items := Items(from, s, fs, vs);
      if Present(from, vs[0]) {
        assert items[1..] == rest;
        assert items[0].payload == PayloadOf(from, s, fs[0].kind, vs[0].value);
        PayloadFits(from, s, fs[0].kind, vs[0].value);
        ItemsEncodable(from, s, fs[1..], vs[1..], fs[0].tag);
      } else {
        assert items == rest;
        ItemsEncodable(from, s, fs[1..], vs[1..], fs[0].tag);
        EncodableLater(last, fs[0].tag, rest);
      }
    }
  }

  lemma EncodableLater(last: int, later: int, items: seq<Item>)
    requires -1 <= last <= later && Encodable(later, items)
    ensures Encodable(last, items)
  {
  }

  lemma {:induction false} ReadBoolBytes(bs: seq<bool>)
    ensures ReadBools(BoolBytes(bs)) == bs
  {
    if bs != [] {
      assert BoolBytes(bs)[1..] == BoolBytes(bs[1..]);
      ReadBoolBytes(bs[1..]);
    }
  }

  lemma {:induction false} ReadStrBytes(ss: seq<seq<byte>>)
    requires |StrBytes(ss)| < TWO_32
    ensures ReadStrs(StrBytes(ss)) == Ok(ss)
  {
    hide LE, ReadChunk;
    if ss != [] {
      ReadChunkBytes(ss[0], StrBytes(ss[1..]));
      ReadStrBytes(ss[1..]);
      assert [ss[0]] + ss[1..] == ss;
    }
  }

  lemma ReadObjsStep(to: Lang, t: Schema, id: nat, e: seq<byte>, m: Msg, rest: seq<byte>, ms: seq<Elem>)
    requires |e| < TWO_32 && ReadObj(to, t, id, e) == Ok(m) && ReadObjs(to, t, id, rest) == Ok(ms)
    ensures ReadObjs(to, t, id, LE(|e|, 4) + e + rest) == Ok([Obj(m)] + ms)
  {
    hide LE, ReadChunk, ReadObj;
    ReadChunkBytes(e, rest);
  }

  lemma {:induction false} ReadObjBytes(from: Lang, to: Lang, s: Schema, t: Schema, id: nat, ms: seq<Elem>)
    requires Setting(from, s, t) && id < |s.types| && |ObjBytes(from, s, id, ms)| < TWO_32
    requires forall i :: 0 <= i < |ms| && ms[i].Obj? ==> Typed(s, id, ms[i].m)
    ensures ReadObjs(to, t, id, ObjBytes(from, s, id, ms)) == Ok(ViewElems(from, to, s, t, id, ms))
    decreases ms, 1, 0
  {
    hide LE, ReadObj, ReadObjs, ElemBytes, ViewElem, Typed, Setting;
    if ms == [] {
      NoObjs(to, t, id);
    } else {
      ElemRead(from, to, s, t, id, ms[0]);
      ReadObjBytes(from, to, s, t, id, ms[1..]);
      ReadObjsStep(to, t, id, ElemBytes(from, s, id, ms[0]), ViewElem(from, to, s, t, id, ms[0]),
                   ObjBytes(from, s, id, ms[1..]), ViewElems(from, to, s, t, id, ms[1..]));
    }
  }

  lemma NoObjs(to: Lang, t: Schema, id: nat)
    ensures ReadObjs(to, t, id, []) == Ok([])
  {
  }

  /** A nil element comes back as an object with default fields. */
  lemma {:induction false} ElemRead(from: Lang, to: Lang, s: Schema, t: Schema, id: nat, e: Elem)
    requires Setting(from, s, t) && id < |s.types| && |ElemBytes(from, s, id, e)| < TWO_32
    requires e.Obj? ==> Typed(s, id, e.m)
    ensures ReadObj(to, t, id, ElemBytes(from, s, id, e)) == Ok(ViewElem(from, to, s, t, id, e))
    decreases e, 1, 0
  {
    hide ReadObj, View, Encode, Setting, Typed, EncodeItems;
    match e
    case Nil => NilRead(from, to, s, t, id);
    case Obj(m) => ObjRead(from, to, s, t, id, m);
  }

  lemma NilRead(from: Lang, to: Lang, s: Schema, t: Schema, id: nat)
    requires Setting(from, s, t) && id < |s.types|
    ensures id < |t.types| && ReadObj(to, t, id, EncodeItems([])) == Ok(Msg(Defaults(to, t.types[id])))
  {
    hide DecodeItems, EncodeItems;
    var b := EncodeItems([]);
    assert b + [] == b;
    ItemsRoundTrip(to, [], []);
  }

  lemma {:induction false} ObjRead(from: Lang, to: Lang, s: Schema, t: Schema, id: nat, m: Msg)
    requires Setting(from, s, t) && Typed(s, id, m) && |Encode(from, s, id, m)| < TWO_32
    ensures ReadObj(to, t, id, Encode(from, s, id, m)) == Ok(View(from, to, s, t, id, m))
    decreases m, 4, 0
  {
    hide Decode, View, Encode, Setting, Typed;
    assert Encode(from, s, id, m) + [] == Encode(from, s, id, m);
    DecodeEncode(from, to, s, t, id, m, []);
  }

  lemma {:induction false} ReadPayload(from: Lang, to: Lang, s: Schema, t: Schema, k: Kind, v: Value, n: nat)
    requires Setting(from, s, t) && KindOk(s, k) && (from == Client ==> PortableKind(k)) && HasKind(s, k, v)
    requires |ChunkBytes(PayloadOf(from, s, k, v))| < TWO_32
    requires PayloadOf(from, s, k, v).Chunk? ==> |PayloadOf(from, s, k, v).data| < n
    ensures KindOk(t, k)
    ensures ReadValue(to, t, k, PayloadOf(from, s, k, v), n) == Ok(ViewValue(from, to, s, t, k, v))
    decreases v, 1, 0
  {
    hide Encode, IntPayload, ListBytes, BoolBytes, StrBytes, ObjBytes, InRange, ReadInt, ReadList, ReadBools,
      ReadStrs, ReadObj,
      ReadObjs, SeenInt, SeenList, View, ViewElems, SchemaOk, AllInRange, Typed, PortableSchema;
    match v
    case VInt(i) => IntSeen(from, to, k.t, i);
    case VInts(ns) => ListSeen(from, to, k.t, ns);
    case VBools(bs) => ReadBoolBytes(bs);
    case VStrs(ss) => ReadStrBytes(ss);
    case VObj(m) => ObjRead(from, to, s, t, k.id, m);
    case VObjs(ms) => ReadObjBytes(from, to, s, t, k.id, ms);
    case VBool(_) =>
    case VStr(_) =>
    case VBytes(_) =>
  }

  lemma {:induction false} ReadField(from: Lang, to: Lang, s: Schema, t: Schema, f: Field, v: Option<Value>, n: nat)
    requires Setting(from, s, t) && KindOk(s, f.kind) && (from == Client ==> PortableKind(f.kind))
    requires Present(from, v) && HasKind(s, f.kind, v.value)
    requires |ChunkBytes(PayloadOf(from, s, f.kind, v.value))| < TWO_32
    requires PayloadOf(from, s, f.kind, v.value).Chunk? ==> |PayloadOf(from, s, f.kind, v.value).data| < n
    ensures KindOk(t, f.kind)
    ensures ReadValue(to, t, f.kind, PayloadOf(from, s, f.kind, v.value), n)
      == Ok(ViewValue(from, to, s, t, f.kind, v.value))
    decreases v, 1, 0
  {
    hide *;
    ReadPayload(from, to, s, t, f.kind, v.value, n);
  }

  lemma {:induction false} StoreItems(from: Lang, to: Lang, s: Schema, t: Schema, fs: seq<Field>,
      vs: seq<Option<Value>>, gs: seq<Field>, acc: seq<Option<Value>>, n: nat)
    requires Setting(from, s, t) && FieldsTyped(s, fs, vs) && FieldsOk(from, s, fs) && |acc| == |gs|
    requires forall k :: 0 <= k < |gs| ==> KindOk(t, gs[k].kind)
    requires forall j, k :: 0 <= j < |fs| && 0 <= k < |gs| && fs[j].tag == gs[k].tag ==> fs[j].kind == gs[k].kind
    requires |DataBytes(Items(from, s, fs, vs))| < TWO_32 && Within(Items(from, s, fs, vs), n)
    ensures Store(to, t, gs, Items(from, s, fs, vs), acc, n) == Ok(Merge(from, to, s, t, fs, vs, gs, acc))
    decreases vs, 2, 0
  {
    hide PayloadOf, HasKind, KindOk, PortableKind, Present, ReadValue, ViewValue, Setting, Store;
    var items := Items(from, s, fs, vs);
    if fs == [] {
      StoreNone(to, t, gs, acc, n);
    } else {
      var rest := Items(from, s, fs[1..], vs[1..]);
      var k := FindTag(gs, fs[0].tag);
      if Present(from, vs[0]) {
        assert items[0] == Item(fs[0].tag, PayloadOf(from, s, fs[0].kind, vs[0].value)) && items[1..] == rest;
        ReadField(from, to, s, t, fs[0], vs[0], n);
        StoreOne(to, t, gs, items, acc, n);
        var acc' := if k.Some? then acc[k.value := Some(ViewValue(from, to, s, t, fs[0].kind, vs[0].value))] else acc;
        StoreItems(from, to, s, t, fs[1..], vs[1..], gs, acc', n);
      } else {
        assert items == rest;
        StoreItems(from, to, s, t, fs[1..], vs[1..], gs, acc, n);
      }
    }
  }

  lemma StoreNone(to: Lang, t: Schema, gs: seq<Field>, acc: seq<Option<Value>>, n: nat)
    requires |acc| == |gs| && forall k :: 0 <= k < |gs| ==> KindOk(t, gs[k].kind)
    ensures Store(to, t, gs, [], acc, n) == Ok(acc)
  {
  }

  lemma StoreOne(to: Lang, t: Schema, gs: seq<Field>, items: seq<Item>, acc: seq<Option<Value>>, n: nat)
    requires |acc| == |gs| && Within(items, n) && items != [] && forall k :: 0 <= k < |gs| ==> KindOk(t, gs[k].kind)
    ensures Within(items[1..], n)
    ensures FindTag(gs, items[0].tag).None? ==> Store(to, t, gs, items, acc, n) == Store(to, t, gs, items[1..], acc, n)
    ensures FindTag(gs, items[0].tag).Some? ==>
      var k := FindTag(gs, items[0].tag).value;
      var v := ReadValue(to, t, gs[k].kind, items[0].payload, n);
      Store(to, t, gs, items, acc, n)
      == if v.Err? then Err else Store(to, t, gs, items[1..], acc[k := Some(v.value)], n)
  {
    hide ReadValue, FindTag;
  }

  /** The main theorem: whatever follows an encoded message, the decoder consumes
      exactly its bytes and finds exactly the expected fields. */
  lemma {:induction false} DecodeEncode(from: Lang, to: Lang, s: Schema, t: Schema, id: nat, m: Msg, rest: seq<byte>)
    requires Setting(from, s, t) && Typed(s, id, m) && |Encode(from, s, id, m)| < TWO_32
    ensures Decode(to, t, id, Encode(from, s, id, m) + rest)
         == Ok(Decoded(View(from, to, s, t, id, m), |Encode(from, s, id, m)|))
    decreases m, 3, 0
  {
    hide Items, Store, Merge, View, Defaults, HasKind, FindTag, DecodeItems, EncodeItems, KindOk,
      PortableKind, Ascending;
    var fs, gs := s.types[id], t.types[id];
    var items := Items(from, s, fs, m.fields);
    var b := Encode(from, s, id, m) + rest;
    DataInside(items);
    ItemsEncodable(from, s, fs, m.fields, -1);
    ItemsRoundTrip(to, items, rest);
    SharedKinds(s, t, id);
    StoreItems(from, to, s, t, fs, m.fields, gs, Defaults(to, gs), |b|);
    MergeIsView(from, to, s, t, id, m);
  }

  lemma DataInside(items: seq<Item>)
    ensures |DataBytes(items)| <= |EncodeItems(items)|
  {
  }

  lemma SharedKinds(s: Schema, t: Schema, id: nat)
    requires SchemaOk(s) && Evolves(s, t) && id < |s.types|
    ensures forall j, k ::
      0 <= j < |s.types[id]| && 0 <= k < |t.types[id]| && s.types[id][j].tag == t.types[id][k].tag ==>
      s.types[id][j].kind == t.types[id][k].kind
  {
    forall j, k | 0 <= j < |s.types[id]| && 0 <= k < |t.types[id]| && s.types[id][j].tag == t.types[id][k].tag
      ensures s.types[id][j].kind == t.types[id][k].kind
    {
      AscendingAt(-1, s.types[id], j);
      assert Compatible(s.types[id], t.types[id][k]);
    }
  }

  // ----- when a message survives

  /** A message as a server object would hold it: defaults in place of fields the
      sender does not write. */
  function ShownValue(from: Lang, s: Schema, k: Kind, v: Value): (r: Value)
    decreases v, 0
  {
    match v
    case VObj(m) => if k.KObj? then VObj(Shown(from, s, k.id, m)) else v
    case VObjs(ms) =>
      if k.KObjs? then VObjs(seq(|ms|, i requires 0 <= i < |ms| => ShownElem(from, s, k.id, ms[i]))) else v
    case _ => v
  }

  function ShownElem(from: Lang, s: Schema, id: nat, e: Elem): (r: Elem)
    decreases e, 0
  {
    match e
    case Nil => Nil
    case Obj(m) => Obj(Shown(from, s, id, m))
  }

  function ShownField(from: Lang, s: Schema, k: Kind, v: Option<Value>): (r: Option<Value>)
    decreases v, 0
  {
    if Present(from, v) then Some(ShownValue(from, s, k, v.value)) else Default(Go, k)
  }

  function Shown(from: Lang, s: Schema, id: nat, m: Msg): (r: Msg)
    decreases m, 0
  {
    if id < |s.types| && |m.fields| == |s.types[id]|
    then Msg(seq(|m.fields|, k requires 0 <= k < |m.fields| => ShownField(from, s, s.types[id][k].kind, m.fields[k])))
    else m
  }

  /** The same reading of a decoded message: the client leaves unset what the server sets to zero. */
  function FilledValue(to: Lang, s: Schema, k: Kind, v: Value): (r: Value)
    decreases v, 0
  {
    match v
    case VObj(m) => if k.KObj? then VObj(Filled(to, s, k.id, m)) else v
    case VObjs(ms) =>
      if k.KObjs? then VObjs(seq(|ms|, i requires 0 <= i < |ms| => FilledElem(to, s, k.id, ms[i]))) else v
    case _ => v
  }

  function FilledElem(to: Lang, s: Schema, id: nat, e: Elem): (r: Elem)
    decreases e, 0
  {
    match e
    case Nil => Nil
    case Obj(m) => Obj(Filled(to, s, id, m))
  }

  function FilledField(to: Lang, s: Schema, k: Kind, v: Option<Value>): (r: Option<Value>)
    decreases v, 0
  {
    match v
    case None => Default(Go, k)
    case Some(w) => Some(FilledValue(to, s, k, w))
  }

  function Filled(to: Lang, s: Schema, id: nat, m: Msg): (r: Msg)
    decreases m, 0
  {
    if to == Client && id < |s.types| && |m.fields| == |s.types[id]|
    then Msg(seq(|m.fields|, k requires 0 <= k < |m.fields| => FilledField(to, s, s.types[id][k].kind, m.fields[k])))
    else m
  }

  /** Nothing the receiver reads differently: no 64-bit integer that the server
      zero-extends, and no nil in a list of objects. */
  predicate KeptValue(from: Lang, to: Lang, s: Schema, k: Kind, v: Value)
    decreases v, 0
  {
    match v
    case VInt(n) => k.KInt? ==> !(to == Go && Misread(k.t, n) && Width(from, k.t, n) == 4)
    case VInts(ns) =>
      k.KInts? ==> !(to == Go && ListWidth(from, k.t, ns) == 4 && exists i :: 0 <= i < |ns| && Misread(k.t, ns[i]))
    case VObj(m) => k.KObj? ==> Kept(from, to, s, k.id, m)
    case VObjs(ms) => k.KObjs? ==> forall i :: 0 <= i < |ms| ==> KeptElem(from, to, s, k.id, ms[i])
    case _ => true
  }

  predicate KeptElem(from: Lang, to: Lang, s: Schema, id: nat, e: Elem)
    decreases e, 0
  {
    e.Obj? && Kept(from, to, s, id, e.m)
  }

  predicate KeptField(from: Lang, to: Lang, s: Schema, k: Kind, v: Option<Value>)
    decreases v, 0
  {
    Present(from, v) ==> KeptValue(from, to, s, k, v.value)
  }

  predicate Kept(from: Lang, to: Lang, s: Schema, id: nat, m: Msg)
    decreases m, 0
  {
    id < |s.types| && |m.fields| == |s.types[id]| ==>
      forall k :: 0 <= k < |m.fields| ==> KeptField(from, to, s, s.types[id][k].kind, m.fields[k])
  }

  lemma {:induction false} SurvivesValue(from: Lang, to: Lang, s: Schema, k: Kind, v: Value)
    requires SchemaOk(s) && KindOk(s, k) && HasKind(s, k, v)
    ensures FilledValue(to, s, k, ViewValue(from, to, s, s, k, v)) == ShownValue(from, s, k, v) <==>
      KeptValue(from, to, s, k, v)
    decreases v, 0
  {
    hide View, Filled, Shown, Kept, FilledElem, ShownElem, KeptElem, SchemaOk, SeenInt, ListWidth, Width,
      Misread, SeenElems, InRange, Typed, AllInRange;
    match v
    case VInt(n) => IntSurvives(from, to, k.t, n);
    case VInts(ns) => ElemsSurvive(to, k.t, ListWidth(from, k.t, ns), ns);
    case VObj(m) => Survives(from, to, s, k.id, m);
    case VObjs(ms) => SurvivesElems(from, to, s, k.id, ms);
    case _ =>
  }

  lemma {:induction false} ViewElemsAt(from: Lang, to: Lang, s: Schema, t: Schema, id: nat, ms: seq<Elem>, i: nat)
    requires i < |ms|
    ensures ViewElems(from, to, s, t, id, ms)[i] == Obj(ViewElem(from, to, s, t, id, ms[i]))
    decreases |ms|
  {
    if i > 0 {
      ViewElemsAt(from, to, s, t, id, ms[1..], i - 1);
    }
  }

  lemma {:induction false} SurvivesElem(from: Lang, to: Lang, s: Schema, id: nat, e: Elem)
    requires SchemaOk(s) && id < |s.types| && (e.Obj? ==> Typed(s, id, e.m))
    ensures FilledElem(to, s, id, Obj(ViewElem(from, to, s, s, id, e))) == ShownElem(from, s, id, e) <==>
      KeptElem(from, to, s, id, e)
    decreases e, 0
  {
    hide View, Filled, Shown, Kept, SchemaOk, Typed;
    if e.Obj? {
      Survives(from, to, s, id, e.m);
    }
  }

  lemma {:induction false} SurvivesElems(from: Lang, to: Lang, s: Schema, id: nat, ms: seq<Elem>)
    requires SchemaOk(s) && id < |s.types| && forall i :: 0 <= i < |ms| && ms[i].Obj? ==> Typed(s, id, ms[i].m)
    ensures FilledValue(to, s, KObjs(id), VObjs(ViewElems(from, to, s, s, id, ms)))
        == ShownValue(from, s, KObjs(id), VObjs(ms))
      <==> forall i :: 0 <= i < |ms| ==> KeptElem(from, to, s, id, ms[i])
    decreases ms, 0
  {
    hide ViewElem, FilledElem, ShownElem, KeptElem, SchemaOk, ViewElems, Typed;
    var got := FilledValue(to, s, KObjs(id), VObjs(ViewElems(from, to, s, s, id, ms))).ms;
    var want := ShownValue(from, s, KObjs(id), VObjs(ms)).ms;
    forall i | 0 <= i < |ms|
      ensures got[i] == want[i] <==> KeptElem(from, to, s, id, ms[i])
    {
      ViewElemsAt(from, to, s, s, id, ms, i);
      SurvivesElem(from, to, s, id, ms[i]);
    }
    if forall i :: 0 <= i < |ms| ==> KeptElem(from, to, s, id, ms[i]) {
      assert got == want;
    }
  }

  lemma {:induction false} SurvivesField(from: Lang, to: Lang, s: Schema, k: Kind, v: Option<Value>)
    requires SchemaOk(s) && KindOk(s, k) && (v.Some? ==> HasKind(s, k, v.value))
    ensures var got := if Present(from, v) then Some(ViewValue(from, to, s, s, k, v.value)) else Default(to, k);
      (if to == Client then FilledField(to, s, k, got) else got) == ShownField(from, s, k, v) <==>
      KeptField(from, to, s, k, v)
    decreases v, 0
  {
    hide ViewValue, FilledValue, ShownValue, KeptValue, SchemaOk, KindOk, HasKind, Present;
    if Present(from, v) {
      SurvivesValue(from, to, s, k, v.value);
      if to == Go {
        FilledAtServer(s, k, ViewValue(from, to, s, s, k, v.value));
      }
    }
  }

  /** A decoded server message needs no filling in. */
  lemma FilledAtServer(s: Schema, k: Kind, v: Value)
    ensures FilledValue(Go, s, k, v) == v
  {
    if v.VObjs? && k.KObjs? {
      forall i | 0 <= i < |v.ms|
        ensures FilledElem(Go, s, k.id, v.ms[i]) == v.ms[i]
      {
      }
      assert FilledValue(Go, s, k, v).ms == v.ms;
    }
  }

  /** A message survives the trip exactly when nothing in it is read differently. */
  lemma {:induction false} Survives(from: Lang, to: Lang, s: Schema, id: nat, m: Msg)
    requires SchemaOk(s) && Typed(s, id, m)
    ensures Filled(to, s, id, View(from, to, s, s, id, m)) == Shown(from, s, id, m) <==> Kept(from, to, s, id, m)
    decreases m, 0
  {
    hide ViewFields, FilledField, ShownField, KeptField, KindOk, HasKind, Default, Present, FindTag;
    var fs := s.types[id];
    var view := View(from, to, s, s, id, m);
    var got := Filled(to, s, id, view).fields;
    var want := Shown(from, s, id, m).fields;
    forall k | 0 <= k < |fs|
      ensures got[k] == want[k] <==> KeptField(from, to, s, fs[k].kind, m.fields[k])
    {
      ViewFieldsAt(from, to, s, s, fs, m, fs, k);
      AscendingAt(-1, fs, k);
      SurvivesField(from, to, s, fs[k].kind, m.fields[k]);
    }
    if Kept(from, to, s, id, m) {
      assert got == want;
    }
  }

  // ----- server objects

  predicate Scalar(k: Kind) {
    k.KBool? || k.KInt? || k.KStr?
  }

  /** A server object: numbers, booleans and strings are never nil. */
  predicate ServerValue(s: Schema, k: Kind, v: Value)
    decreases v, 0
  {
    match v
    case VObj(m) => k.KObj? ==> ServerMsg(s, k.id, m)
    case VObjs(ms) => k.KObjs? ==> forall i :: 0 <= i < |ms| ==> ServerElem(s, k.id, ms[i])
    case _ => true
  }

  predicate ServerElem(s: Schema, id: nat, e: Elem)
    decreases e, 0
  {
    e.Obj? ==> ServerMsg(s, id, e.m)
  }

  predicate ServerField(s: Schema, k: Kind, v: Option<Value>)
    decreases v, 0
  {
    if v.None? then !Scalar(k) else ServerValue(s, k, v.value)
  }

  predicate ServerMsg(s: Schema, id: nat, m: Msg)
    decreases m, 0
  {
    id < |s.types| && |m.fields| == |s.types[id]| &&
    forall k :: 0 <= k < |m.fields| ==> ServerField(s, s.types[id][k].kind, m.fields[k])
  }

  lemma {:induction false} ShownServerElem(s: Schema, id: nat, e: Elem)
    requires ServerElem(s, id, e) && (e.Obj? ==> Typed(s, id, e.m))
    ensures ShownElem(Go, s, id, e) == e
    decreases e, 0
  {
    if e.Obj? {
      ShownServer(s, id, e.m);
    }
  }

  lemma {:induction false} ShownServerField(s: Schema, k: Kind, v: Option<Value>)
    requires ServerField(s, k, v) && (v.Some? ==> HasKind(s, k, v.value))
    ensures ShownField(Go, s, k, v) == v
    decreases v, 0
  {
    hide Shown, ShownElem, ServerMsg, ServerElem, Typed;
    if v.Some? {
      ShownServerValue(s, k, v.value);
    }
  }

  lemma {:induction false} ShownServerValue(s: Schema, k: Kind, v: Value)
    requires ServerValue(s, k, v) && HasKind(s, k, v)
    ensures ShownValue(Go, s, k, v) == v
    decreases v, 0
  {
    hide Shown, ShownElem, ServerMsg, ServerElem, Typed;
    match v
    case VObj(m) => ShownServer(s, k.id, m);
    case VObjs(ms) =>
      forall i | 0 <= i < |ms|
        ensures ShownElem(Go, s, k.id, ms[i]) == ms[i]
      {
        ShownServerElem(s, k.id, ms[i]);
      }
      assert ShownValue(Go, s, k, v).ms == ms;
    case _ =>
  }

  /** What the server leaves out is exactly what it would read back by default. */
  lemma {:induction false} ShownServer(s: Schema, id: nat, m: Msg)
    requires ServerMsg(s, id, m) && Typed(s, id, m)
    ensures Shown(Go, s, id, m) == m
    decreases m, 0
  {
    hide ShownField, ServerField, HasKind;
    forall k | 0 <= k < |m.fields|
      ensures ShownField(Go, s, s.types[id][k].kind, m.fields[k]) == m.fields[k]
    {
      ShownServerField(s, s.types[id][k].kind, m.fields[k]);
    }
    assert Shown(Go, s, id, m).fields == m.fields;
  }

  lemma EvolvesSelf(s: Schema)
    requires SchemaOk(s)
    ensures Evolves(s, s)
  {
    forall id, k | 0 <= id < |s.types| && 0 <= k < |s.types[id]|
      ensures Compatible(s.types[id], s.types[id][k])
    {
      AscendingAt(-1, s.types[id], k);
    }
  }

  /** The server reads its own encoding back unchanged exactly when no 64-bit
      integer in [-2^31, -1] went out in four bytes and no list holds nil. */
  lemma ServerRoundTrip(s: Schema, id: nat, m: Msg, rest: seq<byte>)
    requires SchemaOk(s) && Typed(s, id, m) && ServerMsg(s, id, m) && |Encode(Go, s, id, m)| < TWO_32
    ensures var r := Decode(Go, s, id, Encode(Go, s, id, m) + rest);
      && r.Ok? && r.value.used == |Encode(Go, s, id, m)|
      && (r.value.m == m <==> Kept(Go, Go, s, id, m))
  {
    hide SchemaOk, Typed, ServerMsg, Encode, Decode, View, Shown, Kept, Evolves;
    EvolvesSelf(s);
    DecodeEncode(Go, Go, s, s, id, m, rest);
    Survives(Go, Go, s, id, m);
    ShownServer(s, id, m);
  }

  /** The client recovers every server message without nil list elements,
      integers of every size included. */
  lemma ClientReadsServer(s: Schema, id: nat, m: Msg, rest: seq<byte>)
    requires SchemaOk(s) && Typed(s, id, m) && ServerMsg(s, id, m) && |Encode(Go, s, id, m)| < TWO_32
    ensures var r := Decode(Client, s, id, Encode(Go, s, id, m) + rest);
      && r.Ok? && r.value.used == |Encode(Go, s, id, m)|
      && (Filled(Client, s, id, r.value.m) == m <==> Kept(Go, Client, s, id, m))
  {
    hide SchemaOk, Typed, ServerMsg, Encode, Decode, View, Shown, Kept, Evolves, Filled;
    EvolvesSelf(s);
    DecodeEncode(Go, Client, s, s, id, m, rest);
    Survives(Go, Client, s, id, m);
    ShownServer(s, id, m);
  }

  /** The server recovers a client message, unset fields as defaults, unless it
      zero-extends one of its integers. */
  lemma ServerReadsClient(s: Schema, id: nat, m: Msg, rest: seq<byte>)
    requires SchemaOk(s) && PortableSchema(s) && Typed(s, id, m) && |Encode(Client, s, id, m)| < TWO_32
    ensures var r := Decode(Go, s, id, Encode(Client, s, id, m) + rest);
      && r.Ok? && r.value.used == |Encode(Client, s, id, m)|
      && (r.value.m == Shown(Client, s, id, m) <==> Kept(Client, Go, s, id, m))
  {
    hide SchemaOk, Typed, PortableSchema, Encode, Decode, View, Shown, Kept, Evolves;
    EvolvesSelf(s);
    DecodeEncode(Client, Go, s, s, id, m, rest);
    Survives(Client, Go, s, id, m);
  }

  // ----- messages that do not survive

  /** One field of type `t`. */
  function IntSchema(t: IntType): (s: Schema) {
    Schema([[Field(0, KInt(t))]])
  }

  function IntMsg(n: int): (m: Msg) {
    Msg([Some(VInt(n))])
  }

  lemma IntSchemaOk(from: Lang, t: IntType, n: int)
    requires Integers.Valid(t) && InRange(t, n) && n != 0 && (from == Client ==> Portable(t))
    ensures Setting(from, IntSchema(t), IntSchema(t)) && Typed(IntSchema(t), 0, IntMsg(n))
    ensures ServerMsg(IntSchema(t), 0, IntMsg(n))
    ensures Present(from, Some(VInt(n))) && FindTag(IntSchema(t).types[0], 0) == Some(0)
  {
    var s := IntSchema(t);
    assert Ascending(0, []) && Ascending(-1, s.types[0]);
    EvolvesSelf(s);
  }

  lemma IntSize(from: Lang, t: IntType, n: int)
    requires Integers.Valid(t) && Present(from, Some(VInt(n)))
    ensures |Encode(from, IntSchema(t), 0, IntMsg(n))| < TWO_32
  {
    hide LE, Raw, Width;
    var s, m := IntSchema(t), IntMsg(n);
    var item := Item(0, IntPayload(from, t, n));
    assert FieldItems(from, s, s.types[0][0], m.fields[0]) == [item];
    assert Items(from, s, s.types[0][1..], m.fields[1..]) == [];
    assert Items(from, s, s.types[0], m.fields) == [item];
    SmallItem(item);
  }

  lemma SmallItem(item: Item)
    requires |ChunkBytes(item.payload)| <= 100
    ensures |EncodeItems([item])| < TWO_32
  {
    hide LE, ChunkBytes;
    assert [item][1..] == [];
    assert DataBytes([item]) == ChunkBytes(item.payload) + [];
    assert |Records(-1, [item])| <= 2;
  }

  /** Every integer of the carve-out, in a message of its own: the server reads its low 32 bits. */
  lemma IntMisread(from: Lang, t: IntType, n: int)
    requires Integers.Valid(t) && InRange(t, n) && (from == Client ==> Portable(t))
    requires Misread(t, n) && Width(from, t, n) == 4
    ensures Typed(IntSchema(t), 0, IntMsg(n))
    ensures var r := Decode(Go, IntSchema(t), 0, Encode(from, IntSchema(t), 0, IntMsg(n)));
      r.Ok? && r.value.m == IntMsg(Word(n) % TWO_32) != IntMsg(n)
  {
    IntSchemaOk(from, t, n);
    IntSize(from, t, n);
    IntView(from, t, n);
    hide *;
    var s, m := IntSchema(t), IntMsg(n);
    var b := Encode(from, s, 0, m);
    assert b + [] == b;
    DecodeEncode(from, Go, s, s, 0, m, []);
  }

  lemma IntView(from: Lang, t: IntType, n: int)
    requires Integers.Valid(t) && InRange(t, n) && (from == Client ==> Portable(t))
    requires Misread(t, n) && Width(from, t, n) == 4
    ensures View(from, Go, IntSchema(t), IntSchema(t), 0, IntMsg(n)) == IntMsg(Word(n) % TWO_32)
    ensures IntMsg(Word(n) % TWO_32) != IntMsg(n)
  {
    var s, m := IntSchema(t), IntMsg(n);
    IntSchemaOk(from, t, n);
    assert IntMsg(n).fields[0].value.n == n;
    hide Width, Misread, Present, Setting, Typed, ServerMsg, Word, Integers.Valid, InRange, ViewFields;
    ViewFieldsAt(from, Go, s, s, s.types[0], m, s.types[0], 0);
    assert View(from, Go, s, s, 0, m).fields[0] == Some(VInt(Word(n) % TWO_32));
  }

  /** -1 in an int64 field, from server to server, comes back as 2^32 - 1. */
  lemma MinusOneMisread()
    ensures var s := IntSchema(IntType(true, 64));
      && SchemaOk(s) && Typed(s, 0, IntMsg(-1)) && ServerMsg(s, 0, IntMsg(-1))
      && var r := Decode(Go, s, 0, Encode(Go, s, 0, IntMsg(-1)));
      r.Ok? && r.value.m == IntMsg(TWO_32 - 1)
  {
    hide Encode, Decode, Typed, ServerMsg, SchemaOk;
    IntSchemaOk(Go, IntType(true, 64), -1);
    IntMisread(Go, IntType(true, 64), -1);
  }

  /** The largest uint64, written by the client, is read by the server as 2^32 - 1. */
  lemma LargestMisread()
    ensures var s := IntSchema(IntType(false, 64));
      && SchemaOk(s) && Typed(s, 0, IntMsg(TWO_64 - 1))
      && var r := Decode(Go, s, 0, Encode(Client, s, 0, IntMsg(TWO_64 - 1)));
      r.Ok? && r.value.m == IntMsg(TWO_32 - 1)
  {
    hide Encode, Decode, Typed, ServerMsg, SchemaOk;
    IntSchemaOk(Client, IntType(false, 64), TWO_64 - 1);
    IntMisread(Client, IntType(false, 64), TWO_64 - 1);
  }

  /** A type that holds a list of its own kind. */
  const TREE := Schema([[Field(0, KObjs(0))]])

  const WITH_NIL := Msg([Some(VObjs([Nil]))])

  /** A list with a nil element comes back, in either language, with an object without fields. */
  lemma NilFilled(to: Lang)
    ensures SchemaOk(TREE) && Typed(TREE, 0, WITH_NIL) && ServerMsg(TREE, 0, WITH_NIL)
    ensures var r := Decode(to, TREE, 0, Encode(Go, TREE, 0, WITH_NIL));
      r.Ok? && r.value.m == Msg([Some(VObjs([Obj(Msg([None]))]))]) != WITH_NIL
  {
    hide *;
    TreeOk();
    NilSize();
    NilSeen(to);
    var b := Encode(Go, TREE, 0, WITH_NIL);
    assert b + [] == b;
    DecodeEncode(Go, to, TREE, TREE, 0, WITH_NIL, []);
  }

  lemma TreeOk()
    ensures Setting(Go, TREE, TREE) && SchemaOk(TREE)
    ensures Typed(TREE, 0, WITH_NIL) && ServerMsg(TREE, 0, WITH_NIL)
    ensures Msg([Some(VObjs([Obj(Msg([None]))]))]) != WITH_NIL
  {
    var s := TREE;
    assert Ascending(0, []) && Ascending(-1, s.types[0]);
    assert WITH_NIL.fields[0].value.ms[0] != Obj(Msg([None]));
    EvolvesSelf(s);
  }

  lemma NilSeen(to: Lang)
    ensures View(Go, to, TREE, TREE, 0, WITH_NIL) == Msg([Some(VObjs([Obj(Msg([None]))]))])
  {
    var s, m := TREE, WITH_NIL;
    assert FindTag(s.types[0], 0) == Some(0);
    assert Defaults(to, s.types[0]) == [None];
    var got := View(Go, to, s, s, 0, m);
    assert ViewElems(Go, to, s, s, 0, [Nil]) == [Obj(Msg([None]))];
    assert got.fields[0] == ViewField(Go, to, s, s, s.types[0], m, s.types[0][0]);
  }

  lemma NilSize()
    ensures |Encode(Go, TREE, 0, WITH_NIL)| < TWO_32
  {
    hide LE;
    var s, m := TREE, WITH_NIL;
    var item := Item(0, Chunk(ObjBytes(Go, s, 0, [Nil])));
    assert |EncodeItems([])| == 2;
    assert ObjBytes(Go, s, 0, [Nil][1..]) == [];
    assert |ObjBytes(Go, s, 0, [Nil])| == 6;
    assert FieldItems(Go, s, s.types[0][0], m.fields[0]) == [item];
    assert Items(Go, s, s.types[0][1..], m.fields[1..]) == [];
    assert Items(Go, s, s.types[0], m.fields) == [item];
    SmallItem(item);
  }
}
