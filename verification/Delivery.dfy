/**
 Which fields arrive, said without reference to what the encoder leaves out: field by field,
 and for whole messages between two clients.
 */
module Delivery {
  import opened Bytes
  import opened Wire
  import opened Integers
  import opened Codec
  import opened RoundTrip

  predicate EmptyList(v: Value) {
    v == VBools([]) || v == VInts([]) || v == VStrs([]) || v == VObjs([])
  }

  predicate Zero(v: Value) {
    v == VBool(false) || v == VInt(0) || v == VStr([])
  }

  /** The client writes every field that is set, except empty lists; the server every field that
      is neither nil nor zero. */
  lemma WrittenExactly(v: Value)
    ensures Present(Client, Some(v)) <==> !EmptyList(v)
    ensures Present(Go, Some(v)) <==> !Zero(v)
    ensures !Present(Client, None) && !Present(Go, None)
  {
  }

  /** What a decoder puts into a field that it does not find. */
  lemma MissingField(k: Kind)
    ensures Default(Client, k) == None
    ensures Default(Go, k) == match k
                              case KBool => Some(VBool(false))
                              case KInt(_) => Some(VInt(0))
                              case KStr => Some(VStr([]))
                              case _ => None
  {
  }

  /** The integers that can come back changed. */
  predicate Mangled(t: IntType, n: int) {
    t.bits == 64 && (-0x8000_0000 <= n < 0 || n >= 0x1_0000_0000_0000_0000 - 0x8000_0000)
  }

  /** What both decoders see of values without integers or objects in them, and of integers. */
  lemma LeafSeen(from: Lang, to: Lang, s: Schema, t: Schema, k: Kind, v: Value)
    ensures v.VBool? || v.VStr? || v.VBytes? || v.VBools? || v.VStrs? ==> ViewValue(from, to, s, t, k, v) == v
    ensures to == Client && (v.VInt? || v.VInts?) ==> ViewValue(from, to, s, t, k, v) == v
    ensures v.VInt? && k.KInt? && !Mangled(k.t, v.n) ==> ViewValue(from, to, s, t, k, v) == v
  {
    if v.VInts? && k.KInts? && to == Client {
      SeenSame(k.t, ListWidth(from, k.t, v.ns), v.ns);
    }
  }

  lemma {:induction false} SeenSame(t: IntType, w: nat, ns: seq<int>)
    ensures SeenElems(Client, t, w, ns) == ns
  {
    if ns != [] {
      SeenSame(t, w, ns[1..]);
    }
  }

  /** A field that the sender has set, and that the receiver knows, arrives. */
  lemma FieldArrives(from: Lang, to: Lang, s: Schema, t: Schema, id: nat, m: Msg, rest: seq<byte>, j: nat, k: nat)
    requires Setting(from, s, t) && Typed(s, id, m) && |Encode(from, s, id, m)| < TWO_32
    requires j < |s.types[id]| && k < |t.types[id]| && s.types[id][j].tag == t.types[id][k].tag
    requires m.fields[j].Some? && if from == Client then !EmptyList(m.fields[j].value) else !Zero(m.fields[j].value)
    ensures var r := Decode(to, t, id, Encode(from, s, id, m) + rest);
      && r.Ok? && |r.value.m.fields| == |t.types[id]|
      && r.value.m.fields[k] == Some(ViewValue(from, to, s, t, t.types[id][k].kind, m.fields[j].value))
  {
    WrittenExactly(m.fields[j].value);
    hide Encode, Decode, ViewValue, ViewFields, EmptyList, Zero, Present;
    DecodeEncode(from, to, s, t, id, m, rest);
    AscendingAt(-1, s.types[id], j);
    ViewFieldsAt(from, to, s, t, s.types[id], m, t.types[id], k);
  }

  /** A field that the sender does not know, or has not set, is missing. */
  lemma FieldMissing(from: Lang, to: Lang, s: Schema, t: Schema, id: nat, m: Msg, rest: seq<byte>, k: nat)
    requires Setting(from, s, t) && Typed(s, id, m) && |Encode(from, s, id, m)| < TWO_32 && k < |t.types[id]|
    requires forall j :: 0 <= j < |s.types[id]| && s.types[id][j].tag == t.types[id][k].tag ==>
      m.fields[j].None? || if from == Client then EmptyList(m.fields[j].value) else Zero(m.fields[j].value)
    ensures var r := Decode(to, t, id, Encode(from, s, id, m) + rest);
      && r.Ok? && |r.value.m.fields| == |t.types[id]|
      && r.value.m.fields[k] == Default(to, t.types[id][k].kind)
  {
    hide Encode, Decode, ViewValue, ViewFields, EmptyList, Zero, Present;
    DecodeEncode(from, to, s, t, id, m, rest);
    ViewFieldsAt(from, to, s, t, s.types[id], m, t.types[id], k);
    var j := FindTag(s.types[id], t.types[id][k].tag);
    if j.Some? && m.fields[j.value].Some? {
      WrittenExactly(m.fields[j.value].value);
    } else {
      WrittenExactly(VBool(true));
    }
  }

  /** Schemas that work together: any fields may be dropped, added or kept, as long as a tag that
      both use has one kind. */
  lemma EvolvesExactly(s: Schema, t: Schema)
    requires SchemaOk(s)
    ensures Evolves(s, t) <==>
      && |s.types| <= |t.types|
      && forall id, j, k :: 0 <= id < |s.types| && 0 <= j < |s.types[id]| && 0 <= k < |t.types[id]| ==>
           s.types[id][j].tag == t.types[id][k].tag ==> s.types[id][j].kind == t.types[id][k].kind
  {
    if Evolves(s, t) {
      forall id, j, k | 0 <= id < |s.types| && 0 <= j < |s.types[id]| && 0 <= k < |t.types[id]|
                        && s.types[id][j].tag == t.types[id][k].tag
        ensures s.types[id][j].kind == t.types[id][k].kind
      {
        AscendingAt(-1, s.types[id], j);
        assert Compatible(s.types[id], t.types[id][k]);
      }
    }
  }

  // ----- from client to client

  /** No list is empty and no object of a list is null, at any depth. */
  predicate WholeValue(v: Value)
    decreases v, 0
  {
    && !EmptyList(v)
    && match v
       case VObj(m) => Whole(m)
       case VObjs(ms) => forall i :: 0 <= i < |ms| ==> WholeElem(ms[i])
       case _ => true
  }

  predicate WholeElem(e: Elem)
    decreases e, 0
  {
    e.Obj? && Whole(e.m)
  }

  predicate WholeField(v: Option<Value>)
    decreases v, 0
  {
    v.Some? ==> WholeValue(v.value)
  }

  predicate Whole(m: Msg)
    decreases m, 0
  {
    forall k :: 0 <= k < |m.fields| ==> WholeField(m.fields[k])
  }

  lemma {:induction false} SeenValue(s: Schema, k: Kind, v: Value)
    requires SchemaOk(s) && KindOk(s, k) && HasKind(s, k, v) && !EmptyList(v)
    ensures ViewValue(Client, Client, s, s, k, v) == v <==> WholeValue(v)
    decreases v, 0
  {
    hide Whole, WholeElem, View, SchemaOk, InRange, Typed, EmptyList;
    match v
    case VObj(m) => SeenMsg(s, k.id, m);
    case VObjs(ms) => SeenObjects(s, k.id, ms);
    case _ => LeafSeen(Client, Client, s, s, k, v);
  }

  lemma {:induction false} SeenObjects(s: Schema, id: nat, ms: seq<Elem>)
    requires SchemaOk(s) && id < |s.types| && forall i :: 0 <= i < |ms| && ms[i].Obj? ==> Typed(s, id, ms[i].m)
    ensures ViewElems(Client, Client, s, s, id, ms) == ms <==> forall i :: 0 <= i < |ms| ==> WholeElem(ms[i])
    decreases ms, 0
  {
    hide Whole, View, SchemaOk, Typed, ViewElems;
    var got := ViewElems(Client, Client, s, s, id, ms);
    forall i | 0 <= i < |ms|
      ensures got[i] == ms[i] <==> WholeElem(ms[i])
    {
      ViewElemsAt(Client, Client, s, s, id, ms, i);
      SeenObject(s, id, ms[i]);
    }
    if forall i :: 0 <= i < |ms| ==> WholeElem(ms[i]) {
      assert got == ms;
    }
  }

  lemma {:induction false} SeenObject(s: Schema, id: nat, e: Elem)
    requires SchemaOk(s) && id < |s.types| && (e.Obj? ==> Typed(s, id, e.m))
    ensures Obj(ViewElem(Client, Client, s, s, id, e)) == e <==> WholeElem(e)
    decreases e, 0
  {
    hide Whole, View, SchemaOk, Typed;
    if e.Obj? {
      SeenMsg(s, id, e.m);
    }
  }

  lemma {:induction false} SeenField(s: Schema, k: Kind, v: Option<Value>)
    requires SchemaOk(s) && KindOk(s, k) && (v.Some? ==> HasKind(s, k, v.value))
    ensures var got :=
        if Present(Client, v) then Some(ViewValue(Client, Client, s, s, k, v.value)) else Default(Client, k);
      got == v <==> WholeField(v)
    decreases v, 0
  {
    hide ViewValue, SchemaOk, KindOk, HasKind, Present, EmptyList;
    MissingField(k);
    if v.Some? {
      WrittenExactly(v.value);
      if !EmptyList(v.value) {
        SeenValue(s, k, v.value);
      }
    } else {
      WrittenExactly(VBool(true));
    }
  }

  lemma {:induction false} SeenMsg(s: Schema, id: nat, m: Msg)
    requires SchemaOk(s) && Typed(s, id, m)
    ensures View(Client, Client, s, s, id, m) == m <==> Whole(m)
    decreases m, 0
  {
    hide ViewValue, ViewFields, Present, HasKind, KindOk, Default, WholeField, Ascending;
    var fs, got := s.types[id], View(Client, Client, s, s, id, m).fields;
    forall k | 0 <= k < |fs|
      ensures got[k] == m.fields[k] <==> WholeField(m.fields[k])
    {
      ViewFieldsAt(Client, Client, s, s, fs, m, fs, k);
      AscendingAt(-1, fs, k);
      SeenField(s, fs[k].kind, m.fields[k]);
    }
    if Whole(m) {
      assert got == m.fields;
    }
  }

  /** What one client wrote another reads back, with any bytes behind it, exactly if no list in it
      was empty and no object of a list null. */
  lemma ClientRoundTrip(s: Schema, id: nat, m: Msg, rest: seq<byte>)
    requires SchemaOk(s) && PortableSchema(s) && Typed(s, id, m) && |Encode(Client, s, id, m)| < TWO_32
    ensures var r := Decode(Client, s, id, Encode(Client, s, id, m) + rest);
      && r.Ok? && r.value.used == |Encode(Client, s, id, m)|
      && (r.value.m == m <==> Whole(m))
  {
    hide Encode, Decode, View, Typed;
    EvolvesSelf(s);
    DecodeEncode(Client, Client, s, s, id, m, rest);
    SeenMsg(s, id, m);
  }
}
