/**
 Schemas, messages, and what the two languages' encoders and decoders compute.
 A message holds one optional value per field of its type.  At the server, `None`
 is a nil pointer or slice; at the client, a field that is not set.
 */
module Codec {
  import opened Bytes
  import opened Wire
  import opened Integers

  datatype Kind =
    | KBool | KInt(t: IntType) | KStr | KBytes | KObj(id: nat)
    | KBools | KInts(t: IntType) | KStrs | KObjs(id: nat)

  datatype Field = Field(tag: nat, kind: Kind)

  /** Types refer to each other by index, so they may be recursive. */
  datatype Schema = Schema(types: seq<seq<Field>>)

  datatype Value =
    | VBool(b: bool) | VInt(n: int) | VStr(s: seq<byte>) | VBytes(bs: seq<byte>) | VObj(m: Msg)
    | VBools(flags: seq<bool>) | VInts(ns: seq<int>) | VStrs(ss: seq<seq<byte>>) | VObjs(ms: seq<Elem>)

  /** An element of a list of objects; the server's may be nil. */
  datatype Elem = Nil | Obj(m: Msg)

  datatype Msg = Msg(fields: seq<Option<Value>>)

  // ----- well-formed schemas and messages

  predicate Ascending(last: int, fs: seq<Field>)
    decreases |fs|
  {
    fs != [] ==> last < fs[0].tag <= MAX_TAG && Ascending(fs[0].tag, fs[1..])
  }

  predicate KindOk(s: Schema, k: Kind) {
    match k
    case KInt(t) => Integers.Valid(t)
    case KInts(t) => Integers.Valid(t)
    case KObj(id) => id < |s.types|
    case KObjs(id) => id < |s.types|
    case _ => true
  }

  predicate SchemaOk(s: Schema) {
    forall id :: 0 <= id < |s.types| ==>
      && Ascending(-1, s.types[id])
      && forall k :: 0 <= k < |s.types[id]| ==> KindOk(s, s.types[id][k].kind)
  }

  predicate PortableKind(k: Kind) {
    match k
    case KInt(t) => Portable(t)
    case KInts(t) => Portable(t)
    case _ => true
  }

  /** The client has readers and writers for every kind. */
  predicate PortableSchema(s: Schema) {
    forall id, k :: 0 <= id < |s.types| && 0 <= k < |s.types[id]| ==> PortableKind(s.types[id][k].kind)
  }

  predicate HasKind(s: Schema, k: Kind, v: Value)
    decreases v, 0
  {
    match (k, v)
    case (KBool, VBool(_)) => true
    case (KInt(t), VInt(n)) => InRange(t, n)
    case (KStr, VStr(_)) => true
    case (KBytes, VBytes(_)) => true
    case (KObj(id), VObj(m)) => Typed(s, id, m)
    case (KBools, VBools(_)) => true
    case (KInts(t), VInts(ns)) => AllInRange(t, ns)
    case (KStrs, VStrs(_)) => true
    case (KObjs(id), VObjs(ms)) => forall i :: 0 <= i < |ms| && ms[i].Obj? ==> Typed(s, id, ms[i].m)
    case _ => false
  }

  predicate Typed(s: Schema, id: nat, m: Msg)
    decreases m, 1
  {
    && id < |s.types|
    && |m.fields| == |s.types[id]|
    && forall k :: 0 <= k < |m.fields| && m.fields[k].Some? ==> HasKind(s, s.types[id][k].kind, m.fields[k].value)
  }

  // ----- encoding

  /** Whether the encoder writes the field: the server leaves out nil and zero
      values, the client unset fields and empty lists. */
  predicate Present(lang: Lang, v: Option<Value>): (r: bool)
    ensures r ==> v.Some?
  {
    match v
    case None => false
    case Some(VBool(b)) => lang == Client || b
    case Some(VInt(n)) => lang == Client || n != 0
    case Some(VStr(s)) => lang == Client || s != []
    case Some(VBools(bs)) => lang == Go || bs != []
    case Some(VInts(ns)) => lang == Go || ns != []
    case Some(VStrs(ss)) => lang == Go || ss != []
    case Some(VObjs(ms)) => lang == Go || ms != []
    case Some(_) => true
  }

  function BoolBytes(bs: seq<bool>): (b: seq<byte>)
    ensures |b| == |bs|
  {
    if bs == [] then [] else [if bs[0] then 1 else 0] + BoolBytes(bs[1..])
  }

  function StrBytes(ss: seq<seq<byte>>): (b: seq<byte>) {
    if ss == [] then [] else LE(|ss[0]|, 4) + ss[0] + StrBytes(ss[1..])
  }

  /** A nil element is written as an object without fields. */
  function ElemBytes(lang: Lang, s: Schema, id: nat, e: Elem): (b: seq<byte>)
    decreases e, 5
  {
    match e
    case Nil => EncodeItems([])
    case Obj(m) => Encode(lang, s, id, m)
  }

  function ObjBytes(lang: Lang, s: Schema, id: nat, ms: seq<Elem>): (b: seq<byte>)
    decreases ms, 6
  {
    if ms == [] then []
    else
      var e := ElemBytes(lang, s, id, ms[0]);
      LE(|e|, 4) + e + ObjBytes(lang, s, id, ms[1..])
  }

  function PayloadOf(lang: Lang, s: Schema, k: Kind, v: Value): (p: Payload)
    decreases v, 1
  {
    match v
    case VBool(b) => Small(if b then 1 else 0)
    case VInt(n) => if k.KInt? then IntPayload(lang, k.t, n) else Small(0)
    case VStr(s) => Chunk(s)
    case VBytes(s) => Chunk(s)
    case VObj(m) => if k.KObj? then Chunk(Encode(lang, s, k.id, m)) else Small(0)
    case VBools(bs) => Chunk(BoolBytes(bs))
    case VInts(ns) => if k.KInts? then Chunk(ListBytes(lang, k.t, ns)) else Small(0)
    case VStrs(ss) => Chunk(StrBytes(ss))
    case VObjs(ms) => if k.KObjs? then Chunk(ObjBytes(lang, s, k.id, ms)) else Small(0)
  }

  function FieldItems(lang: Lang, s: Schema, f: Field, v: Option<Value>): (items: seq<Item>)
    ensures |items| <= 1
    decreases v, 2
  {
    if Present(lang, v) then [Item(f.tag, PayloadOf(lang, s, f.kind, v.value))] else []
  }

  function Items(lang: Lang, s: Schema, fs: seq<Field>, vs: seq<Option<Value>>): (items: seq<Item>)
    decreases vs, 3
  {
    if fs == [] || vs == [] then []
    else FieldItems(lang, s, fs[0], vs[0]) + Items(lang, s, fs[1..], vs[1..])
  }

  function Encode(lang: Lang, s: Schema, id: nat, m: Msg): (b: seq<byte>)
    decreases m, 4
  {
    EncodeItems(if id < |s.types| then Items(lang, s, s.types[id], m.fields) else [])
  }

  // ----- encoding field by field

  /** The records and chunks still to come once the first `i` fields are done. */
  ghost predicate Upto(lang: Lang, s: Schema, fs: seq<Field>, vs: seq<Option<Value>>, i: nat, tag: int,
      rs: seq<nat>, data: seq<byte>) {
    && |fs| == |vs| && i <= |fs|
    && var all, rest := Items(lang, s, fs, vs), Items(lang, s, fs[i..], vs[i..]);
       && rs + Records(tag, rest) == Records(-1, all)
       && data + DataBytes(rest) == DataBytes(all)
  }

  lemma UptoStart(lang: Lang, s: Schema, fs: seq<Field>, vs: seq<Option<Value>>)
    requires |fs| == |vs|
    ensures Upto(lang, s, fs, vs, 0, -1, [], [])
  {
    assert fs[0..] == fs && vs[0..] == vs;
  }

  lemma UptoNext(lang: Lang, s: Schema, fs: seq<Field>, vs: seq<Option<Value>>, i: nat, tag: int,
      rs: seq<nat>, data: seq<byte>)
    requires i < |fs| && Upto(lang, s, fs, vs, i, tag, rs, data)
    ensures !Present(lang, vs[i]) ==> Upto(lang, s, fs, vs, i + 1, tag, rs, data)
    ensures Present(lang, vs[i]) ==>
      var item := Item(fs[i].tag, PayloadOf(lang, s, fs[i].kind, vs[i].value));
      Upto(lang, s, fs, vs, i + 1, fs[i].tag, rs + ItemRecords(tag, item), data + ChunkBytes(item.payload))
  {
    hide PayloadOf, Present, ItemRecords, ChunkBytes;
    var rest, rest' := Items(lang, s, fs[i..], vs[i..]), Items(lang, s, fs[i + 1..], vs[i + 1..]);
    assert fs[i..][1..] == fs[i + 1..] && vs[i..][1..] == vs[i + 1..];
    assert fs[i..] != [] && vs[i..] != [] && fs[i..][0] == fs[i] && vs[i..][0] == vs[i];
    assert rest == FieldItems(lang, s, fs[i], vs[i]) + rest';
    if Present(lang, vs[i]) {
      var item := Item(fs[i].tag, PayloadOf(lang, s, fs[i].kind, vs[i].value));
      assert rest == [item] + rest';
      assert rest[1..] == rest';
    } else {
      assert rest == rest';
    }
  }

  lemma UptoEnd(lang: Lang, s: Schema, fs: seq<Field>, vs: seq<Option<Value>>, tag: int, rs: seq<nat>, data: seq<byte>)
    requires Upto(lang, s, fs, vs, |fs|, tag, rs, data)
    ensures Assemble(rs, data) == EncodeItems(Items(lang, s, fs, vs))
  {
    assert rs + [] == rs && data + [] == data;
  }

  // ----- decoding

  function FindTag(fs: seq<Field>, tag: nat): (r: Option<nat>)
    ensures r.Some? ==> r.value < |fs| && fs[r.value].tag == tag
    ensures r.None? ==> forall k :: 0 <= k < |fs| ==> fs[k].tag != tag
  {
    if fs == [] then None
    else if fs[0].tag == tag then Some(0)
    else
      var r := FindTag(fs[1..], tag);
      if r.Some? then Some(r.value + 1) else None
  }

  lemma {:induction false} AscendingAt(last: int, fs: seq<Field>, k: nat)
    requires Ascending(last, fs) && k < |fs|
    ensures last < fs[k].tag <= MAX_TAG
    ensures FindTag(fs, fs[k].tag) == Some(k)
    decreases |fs|
  {
    if k > 0 {
      AscendingAt(fs[0].tag, fs[1..], k - 1);
    }
  }

  /** Merging sets exactly the target fields whose tag the source writes. */

  function Default(lang: Lang, k: Kind): (v: Option<Value>) {
    if lang == Client then None
    else
      match k
      case KBool => Some(VBool(false))
      case KInt(_) => Some(VInt(0))
      case KStr => Some(VStr([]))
      case _ => None
  }

  function Defaults(lang: Lang, fs: seq<Field>): (vs: seq<Option<Value>>)
    ensures |vs| == |fs|
    ensures forall k :: 0 <= k < |fs| ==> vs[k] == Default(lang, fs[k].kind)
  {
    if fs == [] then [] else [Default(lang, fs[0].kind)] + Defaults(lang, fs[1..])
  }

  function ReadBools(data: seq<byte>): (bs: seq<bool>) {
    if data == [] then [] else [data[0] != 0] + ReadBools(data[1..])
  }

  function ReadStrs(data: seq<byte>): (r: Result<seq<seq<byte>>>)
    decreases |data|
  {
    if data == [] then Ok([])
    else
      var c := ReadChunk(data);
      if c.Err? then Err else
      var r := ReadStrs(data[4 + |c.value|..]);
      if r.Err? then Err else Ok([c.value] + r.value)
  }

  datatype Decoded = Decoded(m: Msg, used: nat)

  function ReadObj(lang: Lang, s: Schema, id: nat, data: seq<byte>): (r: Result<Msg>)
    decreases |data|, 3, 0
  {
    var r := Decode(lang, s, id, data);
    if r.Ok? && (lang == Go ==> r.value.used == |data|) then Ok(r.value.m) else Err
  }

  function ReadObjs(lang: Lang, s: Schema, id: nat, data: seq<byte>): (r: Result<seq<Elem>>)
    decreases |data|, 4, 0
  {
    if data == [] then Ok([])
    else
      var c := ReadChunk(data);
      if c.Err? then Err else
      var m := ReadObj(lang, s, id, c.value);
      if m.Err? then Err else
      var r := ReadObjs(lang, s, id, data[4 + |c.value|..]);
      if r.Err? then Err else Ok([Obj(m.value)] + r.value)
  }

  /** The value of a field from its payload.  The server reads an embedded value
      where a chunk is due as an empty chunk; the client rejects it. */
  function ReadValue(lang: Lang, s: Schema, k: Kind, p: Payload, ghost n: nat): (r: Result<Value>)
    requires KindOk(s, k) && (p.Chunk? ==> |p.data| < n)
    decreases n, 0, 0
  {
    if k.KBool? then (if p.Small? then Ok(VBool(p.n != 0)) else Err)
    else if k.KInt? then
      var r := ReadInt(lang, k.t, p);
      if r.Err? then Err else Ok(VInt(r.value))
    else if p.Small? && (lang == Client || k.KObj? || k.KInts?) then Err
    else
      var data := if p.Small? then [] else p.data;
      match k
      case KStr => Ok(VStr(data))
      case KBytes => Ok(VBytes(data))
      case KBools => Ok(VBools(ReadBools(data)))
      case KInts(t) =>
        var r := ReadList(lang, t, data);
        if r.Err? then Err else Ok(VInts(r.value))
      case KStrs =>
        var r := ReadStrs(data);
        if r.Err? then Err else Ok(VStrs(r.value))
      case KObj(id) =>
        var r := if p.Chunk? then ReadObj(lang, s, id, p.data) else Err;
        if r.Err? then Err else Ok(VObj(r.value))
      case KObjs(id) =>
        var r := if p.Chunk? then ReadObjs(lang, s, id, p.data) else Ok([]);
        if r.Err? then Err else Ok(VObjs(r.value))
  }

  /** Stores the items one after the other; unknown tags are passed over. */
  function Store(lang: Lang, s: Schema, fs: seq<Field>, items: seq<Item>, acc: seq<Option<Value>>, ghost n: nat)
    : (r: Result<seq<Option<Value>>>)
    requires |acc| == |fs| && Within(items, n) && forall k :: 0 <= k < |fs| ==> KindOk(s, fs[k].kind)
    ensures r.Ok? ==> |r.value| == |fs|
    decreases n, 1, |items|
  {
    if items == [] then Ok(acc)
    else
      assert Within(items[1..], n);
      var k := FindTag(fs, items[0].tag);
      if k.None? then Store(lang, s, fs, items[1..], acc, n)
      else
        var v := ReadValue(lang, s, fs[k.value].kind, items[0].payload, n);
        if v.Err? then Err
        else Store(lang, s, fs, items[1..], acc[k.value := Some(v.value)], n)
  }

  function Decode(lang: Lang, s: Schema, id: nat, b: seq<byte>): (r: Result<Decoded>)
    decreases |b|, 2, 0
  {
    if id >= |s.types| || !(forall k :: 0 <= k < |s.types[id]| ==> KindOk(s, s.types[id][k].kind)) then Err
    else
      var p := DecodeItems(lang, b);
      if p.Err? then Err
      else
        var r := Store(lang, s, s.types[id], p.value.items, Defaults(lang, s.types[id]), |b|);
        if r.Err? then Err else Ok(Decoded(Msg(r.value), p.value.used))
  }

  // ----- decoding field by field

  /** What is left to decode: the marks `ms`, with `total` bytes used so far. */
  ghost function Remaining(lang: Lang, s: Schema, id: nat, b: seq<byte>, ms: seq<Mark>,
      acc: seq<Option<Value>>, total: nat, n: nat): (r: Result<Decoded>)
    requires id < |s.types| && |acc| == |s.types[id]| && |b| < n
    requires forall k :: 0 <= k < |s.types[id]| ==> KindOk(s, s.types[id][k].kind)
  {
    var p := TakeChunks(b, ms);
    if p.Err? then Err
    else
      assert Within(p.value.items, n);
      var r := Store(lang, s, s.types[id], p.value.items, acc, n);
      if r.Err? then Err else Ok(Decoded(Msg(r.value), total + p.value.used))
  }

  lemma RemainingStep(lang: Lang, s: Schema, id: nat, b: seq<byte>, ms: seq<Mark>, acc: seq<Option<Value>>,
      total: nat, n: nat)
    requires id < |s.types| && |acc| == |s.types[id]| && |b| < n && ms != []
    requires forall k :: 0 <= k < |s.types[id]| ==> KindOk(s, s.types[id][k].kind)
    ensures ms[0].small.None? && ReadChunk(b).Err? ==> Remaining(lang, s, id, b, ms, acc, total, n) == Err
    ensures ms[0].small.Some? || ReadChunk(b).Ok? ==>
      var p := if ms[0].small.Some? then Small(ms[0].small.value) else Chunk(ReadChunk(b).value);
      var used := if ms[0].small.Some? then 0 else 4 + |ReadChunk(b).value|;
      var k := FindTag(s.types[id], ms[0].tag);
      if k.None? then
        Remaining(lang, s, id, b, ms, acc, total, n) == Remaining(lang, s, id, b[used..], ms[1..], acc, total + used, n)
      else
        var v := ReadValue(lang, s, s.types[id][k.value].kind, p, n);
        && (v.Err? ==> Remaining(lang, s, id, b, ms, acc, total, n) == Err)
        && (v.Ok? ==>
              Remaining(lang, s, id, b, ms, acc, total, n)
              == Remaining(lang, s, id, b[used..], ms[1..], acc[k.value := Some(v.value)], total + used, n))
  {
    hide ReadChunk, ReadValue, FindTag, KindOk;
    if ms[0].small.Some? || ReadChunk(b).Ok? {
      var p := if ms[0].small.Some? then Small(ms[0].small.value) else Chunk(ReadChunk(b).value);
      var used := if ms[0].small.Some? then 0 else 4 + |ReadChunk(b).value|;
      assert b[0..] == b;
      var r := TakeChunks(b[used..], ms[1..]);
      if r.Ok? {
        var items := [Item(ms[0].tag, p)] + r.value.items;
        assert TakeChunks(b, ms) == Ok(Parsed(items, used + r.value.used));
        assert items[1..] == r.value.items;
      }
    }
  }

  lemma RemainingStart(lang: Lang, s: Schema, id: nat, chunk: seq<byte>, tags: seq<Mark>, total: nat)
    requires id < |s.types| && forall k :: 0 <= k < |s.types[id]| ==> KindOk(s, s.types[id][k].kind)
    requires |chunk| >= 2 && total == 2 + 2 * U16(chunk, 0) && |chunk| >= total
    requires tags == Marks(lang, 0, ReadRecords(chunk[2..], U16(chunk, 0)))
    ensures Remaining(lang, s, id, chunk[total..], tags, Defaults(lang, s.types[id]), total, |chunk|)
      == Decode(lang, s, id, chunk)
  {
    hide Marks, ReadRecords, U16, Store, TakeChunks, KindOk, Defaults;
  }

  lemma RemainingEnd(lang: Lang, s: Schema, id: nat, b: seq<byte>, ms: seq<Mark>, acc: seq<Option<Value>>,
      total: nat, n: nat)
    requires id < |s.types| && |acc| == |s.types[id]| && |b| < n && ms == []
    requires forall k :: 0 <= k < |s.types[id]| ==> KindOk(s, s.types[id][k].kind)
    ensures Remaining(lang, s, id, b, ms, acc, total, n) == Ok(Decoded(Msg(acc), total))
  {
  }
}
