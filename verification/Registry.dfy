/**
 How the server builds and remembers the description of a message type.  Types may
 refer to each other in cycles, so a description is entered in the registry before
 its fields are known, and a field may point at a description still under construction.
 */
module Registry {
  import opened Bytes
  import Integers
  import Codec

  type TypeId = nat

  /** The Go type of a field; all integer types but uint8 are `IntKind`. */
  datatype Kind =
    | BoolKind | Uint8Kind | IntKind(t: Integers.IntType) | StringKind | StructKind(id: TypeId)
    | PtrKind(elem: Kind) | SliceKind(elem: Kind) | OtherKind

  datatype Wire = Varint | Boolean | Text | Struct

  /** What the annotation of a struct field parses to. */
  datatype Annotation = Untagged | Malformed | Tagged(wire: Wire, tag: int, list: bool)

  datatype FieldDecl = FieldDecl(kind: Kind, annotation: Annotation)

  /** The fields of every struct type. */
  type Program = map<TypeId, seq<FieldDecl>>

  datatype Coder =
    | NoCoder | BoolCoder | IntCoder | StringCoder | BytesCoder | StructCoder
    | BoolSlice | IntSlice | StringSlice | StructSlice

  /** The coder of a field, and the struct type whose description it needs. */
  datatype Plan = Plan(coder: Coder, target: Option<TypeId>)

  function Want(ok: bool, coder: Coder, target: Option<TypeId>): (r: Result<Plan>) {
    if ok then Ok(Plan(coder, target)) else Err
  }

  /** The choice of coders.  For strings and string slices a wire mismatch goes unreported. */
  function Select(kind: Kind, w: Wire, list: bool): (r: Result<Plan>) {
    match kind
    case BoolKind => Want(w == Boolean && !list, BoolCoder, None)
    case Uint8Kind => Want(w == Varint && !list, IntCoder, None)
    case IntKind(_) => Want(w == Varint && !list, IntCoder, None)
    case StringKind => Ok(Plan(StringCoder, None))
    case PtrKind(StructKind(id)) => Want(w == Struct && !list, StructCoder, Some(id))
    case SliceKind(BoolKind) => Want(w == Boolean && list, BoolSlice, None)
    case SliceKind(Uint8Kind) =>
      if w == Text then Want(!list, BytesCoder, None) else Want(w == Varint && list, IntSlice, None)
    case SliceKind(IntKind(_)) => Want(w == Varint && list, IntSlice, None)
    case SliceKind(StringKind) => Ok(Plan(StringSlice, None))
    case SliceKind(PtrKind(StructKind(id))) => Want(w == Struct && list, StructSlice, Some(id))
    case _ => Err
  }

  const UINT8 := Integers.IntType(false, 8)

  /** What the codec takes a field of a Go type for; an annotation only matters to byte slices. */
  function KindOf(kind: Kind, w: Wire): (k: Option<Codec.Kind>) {
    match kind
    case BoolKind => Some(Codec.KBool)
    case Uint8Kind => Some(Codec.KInt(UINT8))
    case IntKind(t) => Some(Codec.KInt(t))
    case StringKind => Some(Codec.KStr)
    case PtrKind(StructKind(id)) => Some(Codec.KObj(id))
    case SliceKind(BoolKind) => Some(Codec.KBools)
    case SliceKind(Uint8Kind) => Some(if w == Text then Codec.KBytes else Codec.KInts(UINT8))
    case SliceKind(IntKind(t)) => Some(Codec.KInts(t))
    case SliceKind(StringKind) => Some(Codec.KStrs)
    case SliceKind(PtrKind(StructKind(id))) => Some(Codec.KObjs(id))
    case _ => None
  }

  /** The annotation that announces a kind. */
  function Announced(k: Codec.Kind): (r: (Wire, bool)) {
    match k
    case KBool => (Boolean, false)
    case KInt(_) => (Varint, false)
    case KStr | KBytes => (Text, false)
    case KObj(_) => (Struct, false)
    case KBools => (Boolean, true)
    case KInts(_) => (Varint, true)
    case KStrs => (Text, true)
    case KObjs(_) => (Struct, true)
  }

  /** The coder that writes and reads a kind. */
  function CoderFor(k: Codec.Kind): (c: Coder) {
    match k
    case KBool => BoolCoder
    case KInt(_) => IntCoder
    case KStr => StringCoder
    case KBytes => BytesCoder
    case KObj(_) => StructCoder
    case KBools => BoolSlice
    case KInts(_) => IntSlice
    case KStrs => StringSlice
    case KObjs(_) => StructSlice
  }

  function TargetOf(k: Codec.Kind): (t: Option<TypeId>) {
    match k
    case KObj(id) => Some(id)
    case KObjs(id) => Some(id)
    case _ => None
  }

  /**
   Which fields are accepted, and what they get: a field is accepted exactly when its Go type
   has a kind and the annotation announces that kind, or it is a string or a list of strings;
   it gets the coder of its kind, and the description of the type it points at.
   */
  lemma AcceptedExactly(kind: Kind, w: Wire, list: bool)
    ensures var k := KindOf(kind, w);
      Select(kind, w, list)
      == if k.Some? && (Announced(k.value) == (w, list) || k.value == Codec.KStr || k.value == Codec.KStrs)
         then Ok(Plan(CoderFor(k.value), TargetOf(k.value))) else Err
  {
  }

  /** The annotation a coder's encoding stands for. */
  function WireOf(c: Coder): (r: (Wire, bool))
    requires c != NoCoder
  {
    match c
    case BoolCoder => (Boolean, false)
    case BoolSlice => (Boolean, true)
    case IntCoder => (Varint, false)
    case IntSlice => (Varint, true)
    case StringCoder | BytesCoder => (Text, false)
    case StringSlice => (Text, true)
    case StructCoder => (Struct, false)
    case StructSlice => (Struct, true)
  }

  /**
   A field is accepted only with the coder its annotation announces, and asks for another
   type exactly when that coder is one for structs.  Strings are the exception: theirs are
   accepted under every annotation, and then written as strings whatever was announced.
   */
  lemma CoderAsAnnounced(kind: Kind, w: Wire, list: bool)
    ensures var r := Select(kind, w, list);
      r.Ok? ==>
        && r.value.coder != NoCoder
        && (WireOf(r.value.coder) == (w, list) <==> !(kind == StringKind && (w, list) != (Text, false))
                                                    && !(kind == SliceKind(StringKind) && (w, list) != (Text, true)))
        && (r.value.target.Some? <==> w == Struct && kind != StringKind && kind != SliceKind(StringKind))
    ensures Select(StringKind, w, list).Ok? && Select(SliceKind(StringKind), w, list).Ok?
  {
  }

  function PlanOf(d: FieldDecl): (r: Result<Plan>) {
    match d.annotation
    case Untagged => Ok(Plan(NoCoder, None))
    case Malformed => Err
    case Tagged(w, _, list) => Select(d.kind, w, list)
  }

  function TagOf(d: FieldDecl): (tag: int) {
    if d.annotation.Tagged? then d.annotation.tag else -1
  }

  /** A field without annotation is described but not encoded; a malformed one is an error. */
  lemma PlanExactly(d: FieldDecl)
    ensures d.annotation == Untagged ==> PlanOf(d) == Ok(Plan(NoCoder, None)) && TagOf(d) == -1
    ensures d.annotation == Malformed ==> PlanOf(d) == Err
    ensures d.annotation.Tagged? ==>
      && PlanOf(d) == Select(d.kind, d.annotation.wire, d.annotation.list)
      && TagOf(d) == d.annotation.tag
  {
  }

  // ----- what a correct program is

  /** Field `i` of a struct needs the description of type `u`. */
  predicate RefersAt(fs: seq<FieldDecl>, i: int, u: TypeId) {
    0 <= i < |fs| && PlanOf(fs[i]).Ok? && PlanOf(fs[i]).value.target == Some(u)
  }

  ghost predicate Refers(fs: seq<FieldDecl>, u: TypeId) {
    exists i :: RefersAt(fs, i, u)
  }

  ghost predicate Scoped(p: Program) {
    forall t, u :: t in p && Refers(p[t], u) ==> u in p
  }

  /** Every type that a field could need the description of is part of the program. */
  lemma ScopedExactly(p: Program)
    ensures Scoped(p) <==>
      forall t, i :: t in p && 0 <= i < |p[t]| && PlanOf(p[t][i]).Ok? && PlanOf(p[t][i]).value.target.Some? ==>
        PlanOf(p[t][i]).value.target.value in p
  {
    if Scoped(p) {
      forall t, i | t in p && 0 <= i < |p[t]| && PlanOf(p[t][i]).Ok? && PlanOf(p[t][i]).value.target.Some?
        ensures PlanOf(p[t][i]).value.target.value in p
      {
        assert RefersAt(p[t], i, PlanOf(p[t][i]).value.target.value);
      }
    }
  }

  /** A chain of references that meets no type of `known`. */
  ghost predicate Path(p: Program, known: set<TypeId>, path: seq<TypeId>) {
    && path != []
    && (forall k :: 0 <= k < |path| ==> path[k] in p && path[k] !in known)
    && (forall k :: 0 < k < |path| ==> Refers(p[path[k - 1]], path[k]))
  }

  ghost predicate Reach(p: Program, known: set<TypeId>, t: TypeId, u: TypeId) {
    exists path :: Path(p, known, path) && path[0] == t && path[|path| - 1] == u
  }

  predicate SameTag(fs: seq<FieldDecl>, i: int, j: int) {
    0 <= i < j < |fs| && TagOf(fs[i]) == TagOf(fs[j]) >= 0
  }

  /** Every field has a coder and no tag is used twice. */
  ghost predicate Good(fs: seq<FieldDecl>) {
    && (forall i :: 0 <= i < |fs| ==> PlanOf(fs[i]).Ok?)
    && (forall i, j :: !SameTag(fs, i, j))
  }

  /** No type that is reachable from `t` without passing through `known` has a fault. */
  ghost predicate GoodBelow(p: Program, known: set<TypeId>, t: TypeId) {
    forall u :: u in p && Reach(p, known, t, u) ==> Good(p[u])
  }

  /** No type reachable from `t` has a fault. */
  ghost predicate AllGood(p: Program, t: TypeId) {
    GoodBelow(p, {}, t)
  }

  lemma ReachSelf(p: Program, known: set<TypeId>, t: TypeId)
    requires t in p && t !in known
    ensures Reach(p, known, t, t)
  {
    assert Path(p, known, [t]);
  }

  lemma ReachStep(p: Program, known: set<TypeId>, t: TypeId, i: int, u: TypeId, v: TypeId)
    requires t in p && t !in known && RefersAt(p[t], i, u) && Reach(p, known, u, v)
    ensures Reach(p, known, t, v)
  {
    var path :| Path(p, known, path) && path[0] == u && path[|path| - 1] == v;
    var longer := [t] + path;
    assert Refers(p[t], u);
    forall k | 0 < k < |longer|
      ensures Refers(p[longer[k - 1]], longer[k])
    {
      if k > 1 {
        assert longer[k - 1] == path[k - 2] && longer[k] == path[k - 1];
      }
    }
    assert Path(p, known, longer);
  }

  lemma {:induction false} PathInside(p: Program, known: set<TypeId>, path: seq<TypeId>, s: set<TypeId>, k: nat)
    requires Path(p, known, path) && path[0] in s && k < |path|
    requires forall t, u :: t in s && t in p && Refers(p[t], u) ==> u in s || u in known
    ensures path[k] in s
  {
    if k > 0 {
      PathInside(p, known, path, s, k - 1);
    }
  }

  /** A set of types closed under references, but for `known`, holds all that is reachable from it. */
  lemma ReachInside(p: Program, known: set<TypeId>, s: set<TypeId>, t: TypeId, u: TypeId)
    requires t in s && Reach(p, known, t, u)
    requires forall t, u :: t in s && t in p && Refers(p[t], u) ==> u in s || u in known
    ensures u in s
  {
    var path :| Path(p, known, path) && path[0] == t && path[|path| - 1] == u;
    PathInside(p, known, path, s, |path| - 1);
  }

  lemma ReachLess(p: Program, known: set<TypeId>, more: set<TypeId>, t: TypeId, u: TypeId)
    requires known <= more && Reach(p, more, t, u)
    ensures Reach(p, known, t, u)
  {
    var path :| Path(p, more, path) && path[0] == t && path[|path| - 1] == u;
    assert Path(p, known, path);
  }

  /** The more is known, the less can be found at fault. */
  lemma GoodMore(p: Program, known: set<TypeId>, more: set<TypeId>, t: TypeId)
    requires known <= more && GoodBelow(p, known, t)
    ensures GoodBelow(p, more, t)
  {
    forall u | u in p && Reach(p, more, t, u)
      ensures Good(p[u])
    {
      ReachLess(p, known, more, t, u);
    }
  }

  /** What is good stays good below. */
  lemma GoodStep(p: Program, known: set<TypeId>, t: TypeId, i: int, u: TypeId)
    requires t in p && t !in known && RefersAt(p[t], i, u) && GoodBelow(p, known, t)
    ensures GoodBelow(p, known, u)
  {
    forall v | v in p && Reach(p, known, u, v)
      ensures Good(p[v])
    {
      ReachStep(p, known, t, i, u, v);
    }
  }

  /** Field `i` of `t` has no coder, or its target does not come out well. */
  ghost predicate FieldFault(p: Program, known: set<TypeId>, t: TypeId, i: int)
    requires t in p
  {
    && 0 <= i < |p[t]|
    && (PlanOf(p[t][i]).Err? || exists u :: RefersAt(p[t], i, u) && !GoodBelow(p, known, u))
  }

  lemma FaultUp(p: Program, known: set<TypeId>, more: set<TypeId>, t: TypeId, i: int)
    requires t in p && t !in known && known <= more && FieldFault(p, more, t, i)
    ensures !GoodBelow(p, known, t) && !AllGood(p, t)
  {
    FaultLess(p, known, more, t, i);
    ReachSelf(p, known, t);
    if PlanOf(p[t][i]).Ok? {
      var u :| RefersAt(p[t], i, u) && !GoodBelow(p, known, u);
      if GoodBelow(p, known, t) {
        GoodStep(p, known, t, i, u);
      }
    }
    if AllGood(p, t) {
      GoodMore(p, {}, known, t);
    }
  }

  lemma FaultLess(p: Program, known: set<TypeId>, more: set<TypeId>, t: TypeId, i: int)
    requires t in p && known <= more && FieldFault(p, more, t, i)
    ensures FieldFault(p, known, t, i)
  {
    if PlanOf(p[t][i]).Ok? {
      var u :| RefersAt(p[t], i, u) && !GoodBelow(p, more, u);
      if GoodBelow(p, known, u) {
        GoodMore(p, known, more, u);
      }
    }
  }

  lemma FaultHere(p: Program, known: set<TypeId>, t: TypeId)
    requires t in p && t !in known && !Good(p[t])
    ensures !GoodBelow(p, known, t) && !AllGood(p, t)
  {
    ReachSelf(p, known, t);
    ReachSelf(p, {}, t);
  }

  /**
   Describing `t` stopped at field `i`: what earlier fields needed is registered; `t` itself
   stays registered exactly when it was a repeated tag that stopped it.
   */
  ghost predicate StopsAt(p: Program, known: set<TypeId>, now: set<TypeId>, t: TypeId, i: int)
    requires t in p
  {
    && 0 <= i < |p[t]|
    && (forall j, u :: 0 <= j < i && RefersAt(p[t], j, u) && u != t ==> u in now)
    && if t in now then exists j :: SameTag(p[t], j, i) else FieldFault(p, known + {t}, t, i)
  }

  lemma StopsThere(p: Program, known: set<TypeId>, before: set<TypeId>, now: set<TypeId>, t: TypeId, i: int)
    requires t in p && t !in now && t in before && known <= before <= now + {t} && FieldFault(p, before, t, i)
    requires forall j, u :: 0 <= j < i && RefersAt(p[t], j, u) ==> u in before
    ensures StopsAt(p, known, now, t, i)
  {
    FaultLess(p, known + {t}, before, t, i);
  }

  lemma StopsHere(p: Program, known: set<TypeId>, now: set<TypeId>, t: TypeId, i: int)
    requires t in p && t in now && 0 <= i < |p[t]| && exists j :: SameTag(p[t], j, i)
    requires forall j, u :: 0 <= j < i && RefersAt(p[t], j, u) ==> u in now
    ensures StopsAt(p, known, now, t, i)
  {
  }

  // ----- descriptions

  /** The description a field points at is shared and may still be under construction. */
  datatype SprotoField = SprotoField(tag: int, coder: Coder, st: SprotoType?)

  type Slot = Option<SprotoField>

  function TagAt(fields: seq<Slot>, i: int): (tag: int) {
    if 0 <= i < |fields| && fields[i].Some? then fields[i].value.tag else -1
  }

  lemma TagAtSome(fields: seq<Slot>, i: nat)
    requires i < |fields| && fields[i].Some?
    ensures TagAt(fields, i) == fields[i].value.tag
  {
  }

  function Indices(n: nat): (s: seq<int>)
    ensures |s| == n
  {
    seq(n, i => i)
  }

  ghost predicate Sorted(fields: seq<Slot>, order: seq<int>) {
    forall i, j :: 0 <= i < j < |order| ==> TagAt(fields, order[i]) <= TagAt(fields, order[j])
  }

  /** The tag map holds exactly the tags of the first `n` fields. */
  ghost predicate Inverts(fields: seq<Slot>, tagMap: map<int, int>, n: nat) {
    && (forall tag :: tag in tagMap ==> tag >= 0 && 0 <= tagMap[tag] < n && TagAt(fields, tagMap[tag]) == tag)
    && (forall i :: 0 <= i < n && TagAt(fields, i) >= 0 ==>
        TagAt(fields, i) in tagMap && tagMap[TagAt(fields, i)] == i)
  }

  lemma {:induction false} IndexOnce(n: nat, x: int)
    ensures multiset(Indices(n))[x] == if 0 <= x < n then 1 else 0
  {
    if n > 0 {
      IndexOnce(n - 1, x);
      assert Indices(n) == Indices(n - 1) + [n - 1];
    }
  }

  lemma NoneTwice(order: seq<int>, n: nat, k: nat, l: nat)
    requires multiset(order) == multiset(Indices(n)) && k < l < |order|
    ensures order[k] != order[l]
  {
    IndexOnce(n, order[k]);
    assert order == order[..l] + order[l..];
    assert order[k] in order[..l] && order[l] in order[l..];
  }

  /**
   The encoder walks the fields in `order` and leaves out the negative tags: it meets
   every field once, and tags in strictly ascending order.
   */
  lemma OrderIsStrict(st: SprotoType)
    requires st.Indexed()
    ensures forall i :: 0 <= i < |st.fields| ==> i in st.order
    ensures forall k, l :: 0 <= k < l < |st.order| && TagAt(st.fields, st.order[k]) >= 0 ==>
      TagAt(st.fields, st.order[k]) < TagAt(st.fields, st.order[l])
  {
    var n, order := |st.fields|, st.order;
    forall i | 0 <= i < n
      ensures i in order
    {
      IndexOnce(n, i);
      assert i in multiset(order);
    }
    forall k, l | 0 <= k < l < |order| && TagAt(st.fields, order[k]) >= 0
      ensures TagAt(st.fields, order[k]) < TagAt(st.fields, order[l])
    {
      NoneTwice(order, n, k, l);
      IndexOnce(n, order[k]);
      IndexOnce(n, order[l]);
      assert order[k] in multiset(order) && order[l] in multiset(order);
    }
  }

  lemma InvertsMore(fields: seq<Slot>, tagMap: map<int, int>, i: nat, sf: SprotoField)
    requires i < |fields| && Inverts(fields, tagMap, i)
    ensures var more := fields[i := Some(sf)];
      && (sf.tag in tagMap <==> sf.tag >= 0 && exists k :: 0 <= k < i && TagAt(more, k) == sf.tag)
      && (sf.tag < 0 ==> Inverts(more, tagMap, i + 1))
      && (sf.tag >= 0 && sf.tag !in tagMap ==> Inverts(more, tagMap[sf.tag := i], i + 1))
  {
    var more := fields[i := Some(sf)];
    assert forall k :: 0 <= k < i ==> TagAt(fields, k) == TagAt(more, k);
    if sf.tag in tagMap {
      assert TagAt(more, tagMap[sf.tag]) == sf.tag;
    }
    assert TagAt(more, i) == sf.tag;
    forall k | 0 <= k < i && TagAt(more, k) >= 0
      ensures TagAt(more, k) in tagMap && tagMap[TagAt(more, k)] == k
    {
      assert TagAt(fields, k) == TagAt(more, k);
    }
  }

  class SprotoType {
    var fields: seq<Slot>
    var tagMap: map<int, int>
    var order: seq<int>

    constructor (n: nat)
      ensures fields == seq(n, _ => None) && order == seq(n, _ => 0) && tagMap == map[]
    {
      fields, order, tagMap := seq(n, _ => None), seq(n, _ => 0), map[];
    }

    /** The fields are found through their tags and listed in tag order. */
    ghost predicate Indexed()
      reads this
    {
      && Inverts(fields, tagMap, |fields|)
      && Sorted(fields, order)
      && multiset(order) == multiset(Indices(|fields|))
    }

    method FieldByTag(tag: int) returns (f: Slot)
      requires Indexed()
      requires forall i :: 0 <= i < |fields| ==> fields[i].Some?
      ensures f.Some? <==> tag >= 0 && exists i :: 0 <= i < |fields| && TagAt(fields, i) == tag
      ensures f.Some? ==> f.value.tag == tag && f in fields
    {
      if tag in tagMap {
        f := fields[tagMap[tag]];
      } else {
        f := None;
      }
    }

    method AddField(i: nat, sf: SprotoField) returns (repeated: bool)
      requires i < |fields| == |order| && Inverts(fields, tagMap, i)
      modifies this
      ensures fields == old(fields)[i := Some(sf)] && order == old(order)[i := i]
      ensures repeated <==> sf.tag >= 0 && exists k :: 0 <= k < i && TagAt(fields, k) == sf.tag
      ensures !repeated ==> Inverts(fields, tagMap, i + 1)
    {
      InvertsMore(fields, tagMap, i, sf);
      repeated := false;
      fields := fields[i := Some(sf)];
      order := order[i := i];
      if sf.tag >= 0 {
        if sf.tag in tagMap {
          return true;
        }
        tagMap := tagMap[sf.tag := i];
      }
    }

    /** Sorting by tag: only `order` moves. */
    method Sort()
      requires order == Indices(|fields|)
      modifies this`order
      ensures Sorted(fields, order) && multiset(order) == multiset(Indices(|fields|))
    {
      for n := 0 to |order|
        invariant |order| == |fields| && multiset(order) == multiset(Indices(|fields|))
        invariant Sorted(fields, order[..n])
      {
        Sink(n);
      }
      assert order[..|order|] == order;
    }

    method Sink(n: nat)
      requires n < |order| && Sorted(fields, order[..n])
      modifies this`order
      ensures |order| == old(|order|) && multiset(order) == multiset(old(order))
      ensures Sorted(fields, order[..n + 1])
    {
      var j := n;
      while j > 0 && TagAt(fields, order[j]) < TagAt(fields, order[j - 1])
        invariant 0 <= j <= n < |order| == old(|order|) && multiset(order) == multiset(old(order))
        invariant forall a, b :: 0 <= a < b <= n && b != j ==> TagAt(fields, order[a]) <= TagAt(fields, order[b])
        invariant j < n ==> TagAt(fields, order[j]) <= TagAt(fields, order[j + 1])
      {
        SwapDown(order, j);
        order := order[j := order[j - 1]][j - 1 := order[j]];
        j := j - 1;
      }
    }
  }

  lemma SwapDown(s: seq<int>, j: nat)
    requires 0 < j < |s|
    ensures multiset(s[j := s[j - 1]][j - 1 := s[j]]) == multiset(s)
  {
  }

  /** What field declaration `d` is described as, once its target is in the registry. */
  ghost function Meaning(d: FieldDecl, m: map<TypeId, SprotoType>): (f: Slot) {
    match PlanOf(d)
    case Err => None
    case Ok(Plan(c, None)) => Some(SprotoField(TagOf(d), c, null))
    case Ok(Plan(c, Some(u))) => if u in m then Some(SprotoField(TagOf(d), c, m[u])) else None
  }

  /** The first `n` fields are described as declared. */
  ghost predicate Describes(fs: seq<FieldDecl>, m: map<TypeId, SprotoType>, fields: seq<Slot>, n: nat)
    requires n <= |fs| == |fields|
  {
    forall i :: 0 <= i < n ==> fields[i].Some? && fields[i] == Meaning(fs[i], m)
  }

  ghost predicate Extends(m: map<TypeId, SprotoType>, old_: map<TypeId, SprotoType>) {
    forall k :: k in old_ ==> k in m && m[k] == old_[k]
  }

  ghost predicate Injective(m: map<TypeId, SprotoType>) {
    forall a, b :: a in m && b in m && a != b ==> m[a] != m[b]
  }

  lemma DescribesMore(fs: seq<FieldDecl>, m: map<TypeId, SprotoType>, m': map<TypeId, SprotoType>,
      fields: seq<Slot>, n: nat)
    requires n <= |fs| == |fields| && Describes(fs, m, fields, n) && Extends(m', m)
    ensures Describes(fs, m', fields, n)
  {
    forall i | 0 <= i < n
      ensures fields[i].Some? && fields[i] == Meaning(fs[i], m')
    {
      assert fields[i] == Meaning(fs[i], m);
    }
  }

  /** The types not yet registered. */
  ghost function Left(p: Program, m: map<TypeId, SprotoType>): (n: nat) {
    |p.Keys - m.Keys|
  }

  lemma FewerLeft(p: Program, before: map<TypeId, SprotoType>, now: map<TypeId, SprotoType>, t: TypeId)
    requires t in p && t !in before && t in now && before.Keys <= now.Keys
    ensures Left(p, now) < Left(p, before)
  {
    assert p.Keys - now.Keys <= (p.Keys - before.Keys) - {t};
    Within(p.Keys - now.Keys, (p.Keys - before.Keys) - {t});
  }

  lemma Within(a: set<TypeId>, b: set<TypeId>)
    requires a <= b
    ensures |a| <= |b|
  {
    assert b == a + (b - a);
  }

  /** Building `t` only adds descriptions, of types reachable from `t`. */
  ghost predicate Grew(p: Program, before: map<TypeId, SprotoType>, now: map<TypeId, SprotoType>, t: TypeId) {
    && Extends(now, before)
    && Injective(now)
    && (forall k :: k in now ==> k in p)
    && (forall k :: k in now && k !in before ==> Reach(p, {}, t, k))
  }

  lemma GrewOn(p: Program, before: map<TypeId, SprotoType>, mid: map<TypeId, SprotoType>,
      now: map<TypeId, SprotoType>, t: TypeId)
    requires Grew(p, before, mid, t) && Grew(p, mid, now, t)
    ensures Grew(p, before, now, t)
  {
  }

  lemma GrewDrop(p: Program, before: map<TypeId, SprotoType>, now: map<TypeId, SprotoType>, t: TypeId)
    requires Grew(p, before, now, t) && t !in before
    ensures Grew(p, before, now - {t}, t)
  {
  }

  lemma GrewKeys(p: Program, before: map<TypeId, SprotoType>, now: map<TypeId, SprotoType>, t: TypeId)
    requires Grew(p, before, now, t)
    ensures before.Keys <= now.Keys <= p.Keys
    ensures Left(p, now) <= Left(p, before)
    ensures forall k :: k in before ==> now[k] == before[k]
  {
    Within(p.Keys - now.Keys, p.Keys - before.Keys);
  }

  /** A field error names no type; a repeated tag leaves type `t` half built in the registry. */
  datatype Built<+T> = Done(value: T) | FieldError | Repeated(t: TypeId)

  class Registry {
    const program: Program
    var stMap: map<TypeId, SprotoType>

    constructor (p: Program)
      ensures program == p && stMap == map[] && Valid()
    {
      program, stMap := p, map[];
    }

    ghost predicate Complete(t: TypeId)
      requires t in stMap && t in program
      reads this, stMap[t]
    {
      var st := stMap[t];
      && |st.fields| == |program[t]|
      && Describes(program[t], stMap, st.fields, |st.fields|)
      && st.Indexed()
    }

    /**
     What is registered is complete, except the types of `open`, which are being built, and
     those of `base` from which a fault can be reached.
     */
    ghost predicate Sound(open: set<TypeId>, base: set<TypeId>)
      reads this, stMap.Values
    {
      && Injective(stMap)
      && forall k :: k in stMap ==>
           k in program && (k in open || Complete(k) || (k in base && !AllGood(program, k)))
    }

    /** Between two calls, failed ones included. */
    ghost predicate Valid()
      reads this, stMap.Values
    {
      Sound({}, stMap.Keys)
    }

    /** A complete description can only exist for a correct type whose targets are registered. */
    lemma CompleteIsGood(t: TypeId)
      requires t in stMap && t in program && Complete(t)
      ensures Good(program[t])
      ensures forall u :: Refers(program[t], u) ==> u in stMap
    {
      var st, fs := stMap[t], program[t];
      forall i | 0 <= i < |fs|
        ensures PlanOf(fs[i]).Ok? && TagAt(st.fields, i) == TagOf(fs[i])
        ensures forall u :: RefersAt(fs, i, u) ==> u in stMap
      {
        assert st.fields[i].Some? && st.fields[i] == Meaning(fs[i], stMap);
      }
      forall i, j
        ensures !SameTag(fs, i, j)
      {
        if 0 <= i < j < |fs| && TagOf(fs[i]) >= 0 {
          assert TagAt(st.fields, i) in st.tagMap;
        }
      }
    }

    /** If all that was added to `base` is complete, no fault can be reached outside it. */
    lemma DoneIsGood(t: TypeId, base: set<TypeId>)
      requires t in stMap && Sound({}, base)
      ensures GoodBelow(program, base, t)
    {
      var new_ := stMap.Keys - base;
      forall k | k in new_
        ensures k in program && Good(program[k]) && forall u :: Refers(program[k], u) ==> u in stMap
      {
        CompleteIsGood(k);
      }
      forall u | u in program && Reach(program, base, t, u)
        ensures Good(program[u])
      {
        ReachInside(program, base, new_ + if t in base then {t} else {}, t, u);
      }
    }

    /** In a valid registry a registered type is complete with all below it if nothing there has a fault. */
    lemma GoodIsComplete(t: TypeId)
      requires t in stMap && Valid() && AllGood(program, t)
      ensures forall u :: Reach(program, {}, t, u) ==> u in stMap && Complete(u)
    {
      var good := set k | k in stMap && AllGood(program, k);
      forall k, u | k in good && k in program && Refers(program[k], u)
        ensures u in good
      {
        CompleteIsGood(k);
        var i :| RefersAt(program[k], i, u);
        GoodStep(program, {}, k, i, u);
      }
      forall u | Reach(program, {}, t, u)
        ensures u in stMap && Complete(u)
      {
        ReachInside(program, {}, good, t, u);
      }
    }

    /** And only then. */
    lemma CompleteBelow(t: TypeId)
      requires t in program && Valid()
      requires forall u :: Reach(program, {}, t, u) ==> u in stMap && Complete(u)
      ensures AllGood(program, t)
    {
      forall u | u in program && Reach(program, {}, t, u)
        ensures Good(program[u])
      {
        CompleteIsGood(u);
      }
    }

    /** The first `i` fields of `t` are described, in declaration order. */
    ghost predicate Partial(t: TypeId, i: nat)
      reads this, stMap.Values
    {
      && t in stMap && t in program
      && var st := stMap[t];
      && i <= |st.fields| == |st.order| == |program[t]|
      && Describes(program[t], stMap, st.fields, i)
      && Inverts(st.fields, st.tagMap, i)
      && forall k :: 0 <= k < i ==> st.order[k] == k
    }

    /** One field: its annotation, its coder, and the description of its target. */
    method InitField(t: TypeId, i: nat, ghost open: set<TypeId>, ghost base: set<TypeId>)
      returns (r: Built<SprotoField>)
      requires Scoped(program) && Partial(t, i) && i < |program[t]|
      requires t in open && open <= stMap.Keys && base <= stMap.Keys && Sound(open, base)
      modifies this
      ensures Grew(program, old(stMap), stMap, t)
      ensures forall k :: k in stMap && k !in old(stMap) ==> fresh(stMap[k])
      ensures r.Done? ==>
        Sound(open, base) && Partial(t, i) && Some(r.value) == Meaning(program[t][i], stMap)
      ensures !r.Done? ==> Sound(open, stMap.Keys) && FieldFault(program, old(stMap).Keys, t, i)
      ensures r.Repeated? ==> r.t in stMap && r.t !in old(stMap) && !Good(program[r.t])
      decreases Left(program, stMap), 1
    {
      hide Path, Good, Inverts, AllGood, GoodBelow;
      var d := program[t][i];
      ghost var before, fields := stMap, stMap[t].fields;
      match PlanOf(d) {
        case Err =>
          r := FieldError;
        case Ok(Plan(c, None)) =>
          r := Done(SprotoField(TagOf(d), c, null));
        case Ok(Plan(c, Some(u))) =>
          assert RefersAt(program[t], i, u);
          var sub := GetLocked(u, open, base);
          ReachThrough(t, i, u);
          DescribesMore(program[t], before, stMap, fields, i);
          match sub {
            case Done(st) => r := Done(SprotoField(TagOf(d), c, st));
            case FieldError => r := FieldError;
            case Repeated(v) => r := Repeated(v);
          }
      }
    }

    lemma ReachThrough(t: TypeId, i: nat, u: TypeId)
      requires t in program && RefersAt(program[t], i, u)
      ensures forall v :: Reach(program, {}, u, v) ==> Reach(program, {}, t, v)
    {
      forall v | Reach(program, {}, u, v)
        ensures Reach(program, {}, t, v)
      {
        ReachStep(program, {}, t, i, u, v);
      }
    }

    lemma RepeatIsFault(t: TypeId, m: map<TypeId, SprotoType>, fields: seq<Slot>, i: nat)
      requires t in program && i < |program[t]| == |fields|
      requires Describes(program[t], m, fields, i + 1)
      requires TagAt(fields, i) >= 0 && exists k :: 0 <= k < i && TagAt(fields, k) == TagAt(fields, i)
      ensures !Good(program[t]) && exists k :: SameTag(program[t], k, i)
    {
      var k :| 0 <= k < i && TagAt(fields, k) == TagAt(fields, i);
      assert fields[k] == Meaning(program[t][k], m) && fields[i] == Meaning(program[t][i], m);
      assert SameTag(program[t], k, i);
    }

    /** An empty description of `t`, so that its own fields can refer to it. */
    method Enter(t: TypeId, ghost open: set<TypeId>, ghost base: set<TypeId>) returns (st: SprotoType)
      requires t in program && t !in stMap && Sound(open, base)
      modifies this
      ensures Grew(program, old(stMap), stMap, t) && Sound(open + {t}, base)
      ensures t in stMap && stMap.Keys == old(stMap.Keys) + {t} && stMap[t] == st && fresh(st)
      ensures Partial(t, 0)
    {
      hide AllGood, Reach;
      st := new SprotoType(|program[t]|);
      ghost var before := stMap;
      stMap := stMap[t := st];
      ReachSelf(program, {}, t);
      forall k | k in stMap && k != t && old(Complete(k))
        ensures Complete(k)
      {
        DescribesMore(program[k], before, stMap, stMap[k].fields, |program[k]|);
      }
    }

    /** Enters field `i` in the description of `t`; a tag seen before is a fault of `t`. */
    method Attach(t: TypeId, i: nat, sf: SprotoField, ghost open: set<TypeId>, ghost base: set<TypeId>)
      returns (repeated: bool)
      requires t in open && Sound(open, base) && Partial(t, i) && i < |program[t]|
      requires Some(sf) == Meaning(program[t][i], stMap)
      modifies stMap[t]
      ensures stMap == old(stMap) && Sound(open, base)
      ensures !repeated ==> Partial(t, i + 1)
      ensures repeated ==> !Good(program[t]) && exists k :: SameTag(program[t], k, i)
    {
      hide Inverts, Meaning, Good, AllGood, TagAt, SameTag;
      repeated := stMap[t].AddField(i, sf);
      TagAtSome(stMap[t].fields, i);
      assert forall k :: k in stMap && k != t && old(Complete(k)) ==> Complete(k);
      if repeated {
        RepeatIsFault(t, stMap, stMap[t].fields, i);
      }
    }

    method Finish(t: TypeId, ghost open: set<TypeId>, ghost base: set<TypeId>)
      requires t in program && t !in open && Sound(open + {t}, base) && Partial(t, |program[t]|)
      modifies stMap[t]
      ensures stMap == old(stMap)
      ensures Sound(open, base)
    {
      hide AllGood;
      assert stMap[t].order == Indices(|program[t]|);
      stMap[t].Sort();
      assert forall k :: k in stMap && k != t && old(Complete(k)) ==> Complete(k);
      assert Complete(t);
    }

    /** A type at fault is withdrawn: what is complete and free of faults does not point at it. */
    method Withdraw(t: TypeId, ghost open: set<TypeId>)
      requires t in stMap && t in open && t in program && Sound(open, stMap.Keys) && !AllGood(program, t)
      modifies this
      ensures stMap == old(stMap) - {t} && Sound(open - {t}, stMap.Keys)
    {
      hide AllGood;
      ghost var before := stMap;
      stMap := stMap - {t};
      forall k | k in stMap && AllGood(program, k) && old(Complete(k))
        ensures Complete(k)
      {
        DescribesLess(k, before, t, stMap[k].fields);
      }
    }

    lemma DescribesLess(k: TypeId, m: map<TypeId, SprotoType>, t: TypeId, fields: seq<Slot>)
      requires k in program && AllGood(program, k) && !AllGood(program, t)
      requires |fields| == |program[k]| && Describes(program[k], m, fields, |fields|)
      ensures Describes(program[k], m - {t}, fields, |fields|)
    {
      hide AllGood;
      forall i | 0 <= i < |fields|
        ensures fields[i].Some? && fields[i] == Meaning(program[k][i], m - {t})
      {
        assert fields[i] == Meaning(program[k][i], m);
        if RefersAt(program[k], i, t) {
          GoodBelowAll(k, i, t);
        }
      }
    }

    lemma GoodBelowAll(k: TypeId, i: int, t: TypeId)
      requires k in program && AllGood(program, k) && RefersAt(program[k], i, t)
      ensures AllGood(program, t)
    {
      GoodStep(program, {}, k, i, t);
    }

    /** The loop over the fields of `t`; on a field's error the description is withdrawn. */
    method Fill(t: TypeId, ghost start: map<TypeId, SprotoType>, ghost open: set<TypeId>, ghost base: set<TypeId>)
      returns (e: Built<SprotoType>)
      requires Scoped(program) && t in open && open <= stMap.Keys && base <= start.Keys
      requires Sound(open, base) && Partial(t, 0)
      requires t in program && t !in start && Grew(program, start, stMap, t)
      modifies this, stMap[t]
      ensures Grew(program, start, stMap, t)
      ensures forall k :: k in stMap && k !in old(stMap) ==> fresh(stMap[k])
      ensures e.Done? ==>
        && t in stMap && stMap[t] == old(stMap[t])
        && Sound(open, base) && Partial(t, |program[t]|)
      ensures !e.Done? ==> Sound(open - {t}, stMap.Keys) && !GoodBelow(program, start.Keys, t)
      ensures !e.Done? ==> exists i :: StopsAt(program, start.Keys, stMap.Keys, t, i)
      ensures !e.Done? ==> (t in stMap <==> e == Repeated(t))
      ensures !e.Done? && t in stMap ==> stMap[t] == old(stMap[t])
      ensures e.Repeated? ==> e.t in stMap && e.t !in start && !Good(program[e.t])
      decreases Left(program, stMap), 2
    {
      hide *;
      var st, n := stMap[t], |program[t]|;
      GrewKeys(program, start, stMap, t);
      for i := 0 to n
        invariant Sound(open, base) && Partial(t, i)
        invariant stMap.Keys >= old(stMap.Keys) && Left(program, stMap) <= Left(program, old(stMap))
        invariant Grew(program, start, stMap, t) && t in stMap && stMap[t] == st
        invariant start.Keys <= stMap.Keys
        invariant forall k :: k in stMap && k !in old(stMap) ==> fresh(stMap[k])
      {
        ghost var before := stMap;
        TargetsKnown(t, i);
        var f := InitField(t, i, open, base);
        GrewKeys(program, before, stMap, t);
        GrewKeys(program, start, before, t);
        GrewOn(program, start, before, stMap, t);
        if !f.Done? {
          FaultUp(program, start.Keys, before.Keys, t, i);
          GrewDrop(program, start, stMap, t);
          Withdraw(t, open);
          StopsThere(program, start.Keys, before.Keys, stMap.Keys, t, i);
          return if f.FieldError? then FieldError else Repeated(f.t);
        }
        TargetsKnown(t, i);
        var repeated := Attach(t, i, f.value, open, base);
        if repeated {
          FaultHere(program, start.Keys, t);
          Weaken(t, open, base);
          StopsHere(program, start.Keys, stMap.Keys, t, i);
          return Repeated(t);
        }
      }
      return Done(st);
    }

    lemma TargetsKnown(t: TypeId, i: nat)
      requires Partial(t, i)
      ensures i <= |program[t]| && forall j, u :: 0 <= j < i && RefersAt(program[t], j, u) ==> u in stMap
    {
      forall j, u | 0 <= j < i && RefersAt(program[t], j, u)
        ensures u in stMap
      {
        assert stMap[t].fields[j] == Meaning(program[t][j], stMap);
      }
    }

    lemma Weaken(t: TypeId, open: set<TypeId>, base: set<TypeId>)
      requires Sound(open, base) && t in stMap && !AllGood(program, t) && base <= stMap.Keys
      ensures Sound(open - {t}, stMap.Keys)
    {
    }

    lemma Weaker(open: set<TypeId>, base: set<TypeId>)
      requires Sound(open, base) && base <= stMap.Keys
      ensures Sound(open, stMap.Keys)
    {
    }

    lemma GrewNot(open: set<TypeId>, base: set<TypeId>, t: TypeId)
      requires Sound(open, base)
      ensures Grew(program, stMap, stMap, t)
    {
    }

    /** The description of `t`, built if it is not yet registered. */
    method GetLocked(t: TypeId, ghost open: set<TypeId>, ghost base: set<TypeId>) returns (r: Built<SprotoType>)
      requires Scoped(program) && t in program
      requires Sound(open, base) && open <= stMap.Keys && base <= stMap.Keys
      modifies this
      ensures Grew(program, old(stMap), stMap, t)
      ensures forall k :: k in stMap && k !in old(stMap) ==> fresh(stMap[k])
      ensures t in old(stMap) ==> r.Done? && stMap == old(stMap)
      ensures r.Done? ==> Sound(open, base) && t in stMap && stMap[t] == r.value
      ensures !r.Done? ==> Sound(open, stMap.Keys) && !GoodBelow(program, old(stMap).Keys, t)
      ensures !r.Done? ==> exists i :: StopsAt(program, old(stMap).Keys, stMap.Keys, t, i)
      ensures !r.Done? ==> t !in old(stMap) && (t in stMap <==> r == Repeated(t))
      ensures r.Repeated? ==> r.t in stMap && r.t !in old(stMap) && !Good(program[r.t])
      decreases Left(program, stMap), 0
    {
      hide *;
      if t in stMap {
        GrewNot(open, base, t);
        return Done(stMap[t]);
      }
      ghost var start := stMap;
      var st := Enter(t, open, base);
      FewerLeft(program, start, stMap, t);
      var e := Fill(t, start, open + {t}, base);
      if !e.Done? {
        assert open + {t} - {t} == open;
        return e;
      }
      Finish(t, open, base);
      return Done(st);
    }

    lemma Answer(t: TypeId, base: set<TypeId>, done: bool)
      requires t in program && Valid() && (done <==> GoodBelow(program, base, t)) && (done ==> t in stMap)
      ensures AllGood(program, t) <==>
        done && forall u :: Reach(program, {}, t, u) ==> u in stMap && Complete(u)
    {
      if AllGood(program, t) {
        GoodMore(program, {}, base, t);
        GoodIsComplete(t);
      } else if forall u :: Reach(program, {}, t, u) ==> u in stMap && Complete(u) {
        CompleteBelow(t);
      }
    }

    /**
     Whatever calls came before, the call succeeds exactly when no fault can be reached
     through types that are not yet registered.  What it promises to build is there, every
     type below complete, exactly when no reachable type has a fault.  Complete
     descriptions stay so, whatever the outcome.
     */
    method GetSprotoType(kind: Kind) returns (r: Built<SprotoType>)
      requires Scoped(program) && Valid()
      requires kind.StructKind? ==> kind.id in program
      modifies this
      ensures Valid() && Extends(stMap, old(stMap))
      ensures forall k :: k in old(stMap) && old(Complete(k)) ==> Complete(k)
      ensures r.Done? <==> kind.StructKind? && GoodBelow(program, old(stMap).Keys, kind.id)
      ensures r.Done? ==> kind.id in stMap && stMap[kind.id] == r.value
      ensures kind.StructKind? && kind.id in old(stMap) ==> r.Done? && stMap == old(stMap)
      ensures kind.StructKind? ==>
        (AllGood(program, kind.id) <==>
          r.Done? && forall u :: Reach(program, {}, kind.id, u) ==> u in stMap && Complete(u))
      ensures kind.StructKind? && !r.Done? ==>
        exists i :: StopsAt(program, old(stMap).Keys, stMap.Keys, kind.id, i)
      ensures r.Repeated? ==> r.t in stMap && !Good(program[r.t])
    {
      hide Reach, Good, Path, GoodBelow, StopsAt, AllGood, Describes;
      if !kind.StructKind? {
        return FieldError;
      }
      ghost var before := stMap;
      r := GetLocked(kind.id, {}, stMap.Keys);
      forall k | k in before && old(Complete(k))
        ensures Complete(k)
      {
        DescribesMore(program[k], before, stMap, stMap[k].fields, |program[k]|);
      }
      if r.Done? {
        DoneIsGood(kind.id, before.Keys);
        Weaker({}, before.Keys);
      }
      Answer(kind.id, before.Keys, r.Done?);
    }

    /** Asking twice: the second answer goes by what the first call left, `between`, in the registry. */
    method AskTwice(t: TypeId)
      returns (first: Built<SprotoType>, second: Built<SprotoType>, ghost between: set<TypeId>)
      requires Scoped(program) && t in program && Valid()
      modifies this
      ensures first.Done? <==> GoodBelow(program, old(stMap).Keys, t)
      ensures second.Done? <==> GoodBelow(program, between, t)
      ensures first.Done? ==> second == first
      ensures !first.Done? ==> exists i :: StopsAt(program, old(stMap).Keys, between, t, i)
      ensures !first.Done? && t in between ==> second.Done? && !AllGood(program, t)
    {
      hide *;
      first := GetSprotoType(StructKind(t));
      between := stMap.Keys;
      second := GetSprotoType(StructKind(t));
    }
  }

  // ----- programs with a fault

  /** Two types that refer to each other; the first has a field without a coder. */
  const KNOT: Program := map[
    0 := [FieldDecl(PtrKind(StructKind(1)), Tagged(Struct, 1, false)), FieldDecl(OtherKind, Tagged(Varint, 2, false))],
    1 := [FieldDecl(PtrKind(StructKind(0)), Tagged(Struct, 1, false))]
  ]

  /** One type with the same tag twice. */
  const TWINS: Program := map[
    0 := [FieldDecl(BoolKind, Tagged(Boolean, 1, false)), FieldDecl(BoolKind, Tagged(Boolean, 1, false))]
  ]

  lemma KnotRefers()
    ensures 0 in KNOT && 1 in KNOT
    ensures forall i, u :: RefersAt(KNOT[0], i, u) <==> i == 0 && u == 1
    ensures forall i, u :: RefersAt(KNOT[1], i, u) <==> i == 0 && u == 0
    ensures Scoped(KNOT)
  {
    assert KNOT[0][0].annotation.Tagged? && KNOT[1][0].annotation.Tagged?;
  }

  lemma KnotFaults()
    ensures !GoodBelow(KNOT, {}, 0) && !AllGood(KNOT, 1)
    ensures PlanOf(KNOT[0][0]).Ok? && forall i, j :: !SameTag(KNOT[0], i, j)
    ensures GoodBelow(KNOT, {0}, 1)
  {
    hide Reach, Scoped, Refers;
    KnotRefers();
    assert PlanOf(KNOT[0][1]).Err?;
    FaultHere(KNOT, {}, 0);
    if AllGood(KNOT, 1) {
      assert RefersAt(KNOT[1], 0, 0);
      GoodStep(KNOT, {}, 1, 0, 0);
    }
    assert Good(KNOT[1]);
    forall u | u in KNOT && Reach(KNOT, {0}, 1, u)
      ensures Good(KNOT[u])
    {
      OnlyItself(u);
    }
  }

  lemma OnlyItself(u: TypeId)
    requires Reach(KNOT, {0}, 1, u)
    ensures u == 1
  {
    hide Reach;
    KnotRefers();
    ReachInside(KNOT, {0}, {1}, 1, u);
  }

  lemma KnotNeeds()
    ensures Refers(KNOT[1], 0)
  {
    KnotRefers();
    assert RefersAt(KNOT[1], 0, 0);
  }

  /** The description of the first type stops at its second field, when the second type is registered. */
  lemma KnotStops(now: set<TypeId>)
    requires exists i :: StopsAt(KNOT, {}, now, 0, i)
    ensures 0 !in now && 1 in now
  {
    hide GoodBelow, Scoped, SameTag, PlanOf, RefersAt;
    KnotRefers();
    KnotFaults();
    var i :| StopsAt(KNOT, {}, now, 0, i);
    assert {} + {0} == {0};
    assert RefersAt(KNOT[0], 0, 1);
  }

  /**
   The first type is refused and withdrawn.  The second stays registered with a pointer to the
   withdrawn description, and is handed out although it leads to a fault.
   */
  method WithdrawnTarget() returns (reg: Registry, first: Built<SprotoType>, second: Built<SprotoType>)
    ensures reg.program == KNOT && reg.Valid() && !AllGood(KNOT, 1)
    ensures !first.Done? && second.Done?
    ensures 0 !in reg.stMap && 1 in reg.stMap && !reg.Complete(1)
  {
    hide *;
    KnotRefers();
    KnotFaults();
    reg := new Registry(KNOT);
    assert reg.stMap.Keys == {};
    first := reg.GetSprotoType(StructKind(0));
    KnotStops(reg.stMap.Keys);
    second := reg.GetSprotoType(StructKind(1));
    if reg.Complete(1) {
      reg.CompleteIsGood(1);
      KnotNeeds();
    }
  }

  lemma TwinsFaults()
    ensures 0 in TWINS && Scoped(TWINS) && !GoodBelow(TWINS, {}, 0) && !AllGood(TWINS, 0) && !Good(TWINS[0])
    ensures forall known, i :: !FieldFault(TWINS, known, 0, i)
  {
    hide GoodBelow, Reach;
    assert SameTag(TWINS[0], 0, 1);
    FaultHere(TWINS, {}, 0);
    assert forall i, u :: !RefersAt(TWINS[0], i, u);
  }

  lemma TwinsStop(now: set<TypeId>)
    requires exists i :: StopsAt(TWINS, {}, now, 0, i)
    ensures 0 in now
  {
    hide GoodBelow, FieldFault;
    TwinsFaults();
  }

  /** Refused once, the type with a repeated tag is handed out half built ever after. */
  method RepeatedTag() returns (reg: Registry, first: Built<SprotoType>, second: Built<SprotoType>)
    ensures reg.program == TWINS && reg.Valid() && !AllGood(TWINS, 0)
    ensures !first.Done? && second.Done? && 0 in reg.stMap && !reg.Complete(0)
  {
    hide *;
    TwinsFaults();
    reg := new Registry(TWINS);
    assert reg.stMap.Keys == {};
    first := reg.GetSprotoType(StructKind(0));
    TwinsStop(reg.stMap.Keys);
    second := reg.GetSprotoType(StructKind(0));
    if reg.Complete(0) {
      reg.CompleteIsGood(0);
    }
  }
}
