/**
 From descriptions to schemas: what the registry builds for a program of struct types is the
 schema that the codec works with.
 */
module Described {
  import opened Bytes
  import Integers
  import Codec
  import R = Registry

  /** What the codec knows of a field: its tag and its kind, unless it is not encoded. */
  function CodecField(d: R.FieldDecl): (f: Option<Codec.Field>) {
    match d.annotation
    case Tagged(w, tag, _) =>
      var k := R.KindOf(d.kind, w);
      if tag >= 0 && k.Some? then Some(Codec.Field(tag, k.value)) else None
    case _ => None
  }

  /** The fields that the encoder meets on its walk along `order`. */
  function Walk(fs: seq<R.FieldDecl>, order: seq<int>): (r: seq<Codec.Field>) {
    if order == [] then []
    else
      var i, rest := order[0], Walk(fs, order[1..]);
      if 0 <= i < |fs| && CodecField(fs[i]).Some? then [CodecField(fs[i]).value] + rest else rest
  }

  /** A complete description holds, for each field, what its declaration says. */
  lemma AsDeclared(reg: R.Registry, t: R.TypeId, i: nat)
    requires t in reg.stMap && t in reg.program && reg.Complete(t) && i < |reg.program[t]|
    ensures var (d, f) := (reg.program[t][i], reg.stMap[t].fields[i]);
      && f.Some?
      && match d.annotation
         case Untagged => f.value == R.SprotoField(-1, R.NoCoder, null)
         case Malformed => false
         case Tagged(w, tag, list) =>
           var k := R.KindOf(d.kind, w);
           && k.Some?
           && (R.Announced(k.value) == (w, list) || k.value == Codec.KStr || k.value == Codec.KStrs)
           && f.value.tag == tag && f.value.coder == R.CoderFor(k.value)
           && match R.TargetOf(k.value)
              case None => f.value.st == null
              case Some(u) => u in reg.stMap && f.value.st == reg.stMap[u]
  {
    var d := reg.program[t][i];
    assert reg.stMap[t].fields[i] == R.Meaning(d, reg.stMap);
    if d.annotation.Tagged? {
      R.AcceptedExactly(d.kind, d.annotation.wire, d.annotation.list);
    }
  }

  /** The tag of a described field is the declared one. */
  lemma TagsAre(reg: R.Registry, t: R.TypeId)
    requires t in reg.stMap && t in reg.program && reg.Complete(t)
    ensures |reg.stMap[t].fields| == |reg.program[t]|
    ensures forall i :: 0 <= i < |reg.program[t]| ==> R.TagAt(reg.stMap[t].fields, i) == R.TagOf(reg.program[t][i])
    ensures forall i :: 0 <= i < |reg.program[t]| ==>
      (R.TagOf(reg.program[t][i]) >= 0 <==> CodecField(reg.program[t][i]).Some?)
  {
    forall i | 0 <= i < |reg.program[t]|
      ensures R.TagAt(reg.stMap[t].fields, i) == R.TagOf(reg.program[t][i])
      ensures R.TagOf(reg.program[t][i]) >= 0 <==> CodecField(reg.program[t][i]).Some?
    {
      AsDeclared(reg, t, i);
    }
  }

  ghost predicate Strict(fs: seq<R.FieldDecl>, order: seq<int>) {
    && (forall k :: 0 <= k < |order| ==> 0 <= order[k] < |fs|)
    && (forall k, l :: 0 <= k < l < |order| && R.TagOf(fs[order[k]]) >= 0 ==>
          R.TagOf(fs[order[k]]) < R.TagOf(fs[order[l]]))
  }

  lemma {:induction false} WalkAscends(fs: seq<R.FieldDecl>, order: seq<int>, last: int)
    requires Strict(fs, order) && last >= -1
    requires forall k :: 0 <= k < |order| && R.TagOf(fs[order[k]]) >= 0 ==> last < R.TagOf(fs[order[k]]) <= 32767
    ensures Codec.Ascending(last, Walk(fs, order))
    decreases |order|
  {
    if order != [] {
      var i, rest := order[0], order[1..];
      assert forall k :: 0 <= k < |rest| ==> rest[k] == order[k + 1];
      var f := CodecField(fs[i]);
      if f.Some? {
        WalkAscends(fs, rest, f.value.tag);
        assert Walk(fs, order)[1..] == Walk(fs, rest);
      } else {
        WalkAscends(fs, rest, last);
      }
    }
  }

  /** The walk meets the encoded fields and no others. */
  lemma {:induction false} WalkMeets(fs: seq<R.FieldDecl>, order: seq<int>, f: Codec.Field)
    ensures f in Walk(fs, order) <==>
      exists k :: 0 <= k < |order| && 0 <= order[k] < |fs| && CodecField(fs[order[k]]) == Some(f)
    decreases |order|
  {
    if order != [] {
      var rest := order[1..];
      WalkMeets(fs, rest, f);
      assert forall k :: 0 <= k < |rest| ==> rest[k] == order[k + 1];
      if exists k :: 0 <= k < |order| && 0 <= order[k] < |fs| && CodecField(fs[order[k]]) == Some(f) {
        var k :| 0 <= k < |order| && 0 <= order[k] < |fs| && CodecField(fs[order[k]]) == Some(f);
        assert k > 0 ==> rest[k - 1] == order[k];
      }
    }
  }

  /**
   A complete description lists exactly the type's encoded fields, tag and kind, in ascending
   order of tags: a type as the codec's schemas have it.
   */
  lemma DescribesType(reg: R.Registry, t: R.TypeId)
    requires t in reg.stMap && t in reg.program && reg.Complete(t)
    requires forall i :: 0 <= i < |reg.program[t]| ==> R.TagOf(reg.program[t][i]) <= 32767
    ensures var walk := Walk(reg.program[t], reg.stMap[t].order);
      && Codec.Ascending(-1, walk)
      && forall f :: f in walk <==>
           exists i :: 0 <= i < |reg.program[t]| && CodecField(reg.program[t][i]) == Some(f)
  {
    var st, fs := reg.stMap[t], reg.program[t];
    hide Walk, CodecField;
    TagsAre(reg, t);
    R.OrderIsStrict(st);
    OrderInside(st);
    assert Strict(fs, st.order);
    WalkAscends(fs, st.order, -1);
    forall f
      ensures f in Walk(fs, st.order) <==> exists i :: 0 <= i < |fs| && CodecField(fs[i]) == Some(f)
    {
      WalkMeets(fs, st.order, f);
      if exists i :: 0 <= i < |fs| && CodecField(fs[i]) == Some(f) {
        var i :| 0 <= i < |fs| && CodecField(fs[i]) == Some(f);
        assert i in st.order;
        var k :| 0 <= k < |st.order| && st.order[k] == i;
      }
    }
  }

  lemma OrderInside(st: R.SprotoType)
    requires st.Indexed()
    ensures forall k :: 0 <= k < |st.order| ==> 0 <= st.order[k] < |st.fields|
  {
    forall k | 0 <= k < |st.order|
      ensures 0 <= st.order[k] < |st.fields|
    {
      R.IndexOnce(|st.fields|, st.order[k]);
      assert st.order[k] in multiset(st.order);
    }
  }

  /** `s` lists the types of the program as the registry describes them. */
  ghost predicate SchemaFor(reg: R.Registry, s: Codec.Schema)
    reads reg, reg.stMap.Values
  {
    && (forall t: nat :: t < |s.types| ==> t in reg.stMap && t in reg.program && reg.Complete(t))
    && (forall t :: t in reg.stMap ==> t < |s.types|)
    && (forall t: nat :: t < |s.types| ==> s.types[t] == Walk(reg.program[t], reg.stMap[t].order))
  }

  /** A tag that the wire has room for, and an integer type that exists. */
  predicate Encodable(d: R.FieldDecl) {
    && R.TagOf(d) <= 32767
    && match CodecField(d)
       case Some(Field(_, KInt(t))) => Integers.Valid(t)
       case Some(Field(_, KInts(t))) => Integers.Valid(t)
       case _ => true
  }

  lemma KindFine(reg: R.Registry, s: Codec.Schema, t: nat, f: Codec.Field)
    requires SchemaFor(reg, s) && t < |s.types| && f in s.types[t]
    requires forall i :: 0 <= i < |reg.program[t]| ==> Encodable(reg.program[t][i])
    ensures Codec.KindOk(s, f.kind)
  {
    var fs := reg.program[t];
    WalkMeets(fs, reg.stMap[t].order, f);
    var i: int :| 0 <= i < |fs| && CodecField(fs[i]) == Some(f);
    hide Walk;
    AsDeclared(reg, t, i);
    assert Encodable(fs[i]);
  }

  /** The codec's theorems apply to every program the registry accepts, given tags up to 32767. */
  lemma SchemaIsOk(reg: R.Registry, s: Codec.Schema)
    requires SchemaFor(reg, s)
    requires forall t: nat, i :: t < |s.types| && 0 <= i < |reg.program[t]| ==> Encodable(reg.program[t][i])
    ensures Codec.SchemaOk(s)
  {
    hide Walk, Codec.KindOk, Codec.Ascending;
    forall id: nat | id < |s.types|
      ensures Codec.Ascending(-1, s.types[id])
      ensures forall k :: 0 <= k < |s.types[id]| ==> Codec.KindOk(s, s.types[id][k].kind)
    {
      TypeFine(reg, s, id);
    }
  }

  lemma TypeFine(reg: R.Registry, s: Codec.Schema, id: nat)
    requires SchemaFor(reg, s) && id < |s.types|
    requires forall i :: 0 <= i < |reg.program[id]| ==> Encodable(reg.program[id][i])
    ensures Codec.Ascending(-1, s.types[id])
    ensures forall k :: 0 <= k < |s.types[id]| ==> Codec.KindOk(s, s.types[id][k].kind)
  {
    DescribesType(reg, id);
    hide Walk, Codec.KindOk, Codec.Ascending, CodecField;
    forall k | 0 <= k < |s.types[id]|
      ensures Codec.KindOk(s, s.types[id][k].kind)
    {
      KindFine(reg, s, id, s.types[id][k]);
    }
  }
}
