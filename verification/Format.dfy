/**
 The wire format spelled out: the bytes of a message with one field, for every kind, tag and
 value, in either language, against literal numbers.
 */
module Format {
  import opened Bytes
  import opened Wire
  import opened Integers
  import opened Codec
  import RoundTrip
  import ClientSerialize
  import Delivery

  // ----- numbers

  function Two(n: nat): (b: seq<byte>) {
    [n % 256, n / 256 % 256]
  }

  function Four(n: nat): (b: seq<byte>) {
    [n % 256, n / 256 % 256, n / 0x1_0000 % 256, n / 0x100_0000 % 256]
  }

  function Eight(n: nat): (b: seq<byte>) {
    Four(n) + Four(n / 0x1_0000_0000)
  }

  lemma LESpelled(n: nat)
    ensures LE(n, 2) == Two(n) && LE(n, 4) == Four(n)
  {
    assert LE(n, 1) == [n % 256];
    assert LE(n / 256, 1) == [n / 256 % 256];
    assert LE(n, 2) == [n % 256] + LE(n / 256, 1);
    var h := n / 256 / 256;
    assert LE(h, 2) == [h % 256] + LE(h / 256, 1);
    assert LE(h / 256, 1) == [h / 256 % 256] + LE(h / 256 / 256, 0);
    assert LE(n, 4) == [n % 256] + LE(n / 256, 3);
    assert LE(n / 256, 3) == [n / 256 % 256] + LE(h, 2);
    DivTwice(n);
  }

  lemma DivTwice(n: nat)
    ensures n / 256 / 256 == n / 0x1_0000 && n / 256 / 256 / 256 == n / 0x100_0000
    ensures n / 0x1_0000 / 0x1_0000 == n / 0x1_0000_0000
  {
  }

  lemma LEEight(n: nat)
    ensures LE(n, 8) == Eight(n)
  {
    hide LE;
    LESpelled(n);
    LESpelled(n / 0x1_0000_0000);
    LEHalves(n);
  }

  lemma LEHalves(n: nat)
    ensures LE(n, 8) == LE(n, 4) + LE(n / 0x1_0000_0000, 4)
  {
    var a := n / 256;
    var b := a / 256;
    var c := b / 256;
    var d := c / 256;
    assert LE(n, 8) == [n % 256] + LE(a, 7);
    assert LE(a, 7) == [a % 256] + LE(b, 6);
    assert LE(b, 6) == [b % 256] + LE(c, 5);
    assert LE(c, 5) == [c % 256] + LE(d, 4);
    assert LE(n, 4) == [n % 256] + LE(a, 3);
    assert LE(a, 3) == [a % 256] + LE(b, 2);
    assert LE(b, 2) == [b % 256] + LE(c, 1);
    assert LE(c, 1) == [c % 256] + LE(d, 0);
    DivFour(n);
  }

  lemma DivFour(n: nat)
    ensures n / 256 / 256 / 256 / 256 == n / 0x1_0000_0000
  {
    DivTwice(n);
    DivTwice(n / 0x1_0000);
  }

  // ----- integers

  /** An integer that goes out in four bytes if it is not embedded. */
  predicate FourBytes(lang: Lang, n: int) {
    || -0x8000_0000 <= n <= 0x7fff_ffff
    || (lang == Client && n >= 0xffff_ffff_8000_0000)
  }

  /** Two's complement in 64 bits. */
  function Complement(n: int): (w: nat) {
    if n >= 0 then n else if n >= -0x8000_0000_0000_0000 then n + 0x1_0000_0000_0000_0000 else 0
  }

  function IntSpelled(lang: Lang, n: int): (p: Payload) {
    if 0 <= n <= 0x7ffe then Small(n)
    else Chunk(if FourBytes(lang, n) then Four(Complement(n)) else Eight(Complement(n)))
  }

  lemma FourLow(n: nat)
    ensures Four(n % 0x1_0000_0000) == Four(n)
  {
    var q, r := n / 0x1_0000_0000, n % 0x1_0000_0000;
    assert n == q * 0x1_0000_0000 + r;
    LowDigits(q, r);
  }

  lemma LowDigits(q: nat, r: nat)
    ensures (q * 0x1_0000_0000 + r) % 256 == r % 256
    ensures (q * 0x1_0000_0000 + r) / 256 % 256 == r / 256 % 256
    ensures (q * 0x1_0000_0000 + r) / 0x1_0000 % 256 == r / 0x1_0000 % 256
    ensures (q * 0x1_0000_0000 + r) / 0x100_0000 % 256 == r / 0x100_0000 % 256
  {
    Digit0(q, r);
    Digit1(q, r);
    Digit2(q, r);
    Digit3(q, r);
  }

  lemma Multiple256(j: nat, x: nat)
    ensures (j * 256 + x) % 256 == x % 256
  {
  }

  lemma Carry256(j: nat, r: nat)
    ensures (j * 256 + r) / 256 == j + r / 256
  {
  }

  lemma Carry16(j: nat, r: nat)
    ensures (j * 0x1_0000 + r) / 0x1_0000 == j + r / 0x1_0000
  {
  }

  lemma Carry24(j: nat, r: nat)
    ensures (j * 0x100_0000 + r) / 0x100_0000 == j + r / 0x100_0000
  {
  }

  lemma Digit0(q: nat, r: nat)
    ensures (q * 0x1_0000_0000 + r) % 256 == r % 256
  {
    Multiple256(q * 0x100_0000, r);
  }

  lemma Digit1(q: nat, r: nat)
    ensures (q * 0x1_0000_0000 + r) / 256 % 256 == r / 256 % 256
  {
    Carry256(q * 0x100_0000, r);
    Multiple256(q * 0x1_0000, r / 256);
  }

  lemma Digit2(q: nat, r: nat)
    ensures (q * 0x1_0000_0000 + r) / 0x1_0000 % 256 == r / 0x1_0000 % 256
  {
    Carry16(q * 0x1_0000, r);
    Multiple256(q * 256, r / 0x1_0000);
  }

  lemma Digit3(q: nat, r: nat)
    ensures (q * 0x1_0000_0000 + r) / 0x100_0000 % 256 == r / 0x100_0000 % 256
  {
    Carry24(q * 256, r);
    Multiple256(q, r / 0x100_0000);
  }

  /** The ranges of the eight integer types. */
  lemma Ranges(n: int)
    ensures InRange(IntType(true, 8), n) <==> -0x80 <= n <= 0x7f
    ensures InRange(IntType(true, 16), n) <==> -0x8000 <= n <= 0x7fff
    ensures InRange(IntType(true, 32), n) <==> -0x8000_0000 <= n <= 0x7fff_ffff
    ensures InRange(IntType(true, 64), n) <==> -0x8000_0000_0000_0000 <= n <= 0x7fff_ffff_ffff_ffff
    ensures InRange(IntType(false, 8), n) <==> 0 <= n <= 0xff
    ensures InRange(IntType(false, 16), n) <==> 0 <= n <= 0xffff
    ensures InRange(IntType(false, 32), n) <==> 0 <= n <= 0xffff_ffff
    ensures InRange(IntType(false, 64), n) <==> 0 <= n <= 0xffff_ffff_ffff_ffff
    ensures forall t: IntType :: Integers.Valid(t) <==> t.bits in {8, 16, 32, 64}
    ensures forall t: IntType :: Portable(t) <==> t.bits in {32, 64}
  {
  }

  lemma WidthSpelled(lang: Lang, t: IntType, n: int)
    requires Integers.Valid(t) && InRange(t, n) && (lang == Client ==> Portable(t)) && !(0 <= n <= 0x7ffe)
    ensures Word(n) == Complement(n)
    ensures Raw(lang, t, n) > 0x7ffe
    ensures Width(lang, t, n) == if FourBytes(lang, n) then 4 else 8
    ensures Raw(lang, t, n) == Word(n) || (Width(lang, t, n) == 4 && Raw(lang, t, n) == Word(n) % 0x1_0000_0000)
  {
    RangeBounds(t, n);
    WordIs(n);
    hide InRange, Modulus, Word, Integers.Valid;
    if -0x8000_0000 <= n < 0 || n >= 0xffff_ffff_8000_0000 {
      LowPart(n);
    }
  }

  lemma LowPart(n: int)
    requires -0x8000_0000 <= n < 0 || n >= 0xffff_ffff_8000_0000
    ensures n < 0x1_0000_0000_0000_0000 ==> Word(n) % 0x1_0000_0000 >= 0x8000_0000
  {
  }

  /** An integer field: embedded up to 0x7ffe, else four or eight bytes of two's complement. */
  lemma IntIs(lang: Lang, t: IntType, n: int)
    requires Integers.Valid(t) && InRange(t, n) && (lang == Client ==> Portable(t))
    ensures IntPayload(lang, t, n) == IntSpelled(lang, n)
  {
    RangeBounds(t, n);
    if 0 <= n <= 0x7ffe {
      SmallRaw(lang, t, n);
    } else {
      WidthSpelled(lang, t, n);
      hide LE, Four, Raw, Width, Word, Complement, InRange, FourBytes;
      LESpelled(Raw(lang, t, n));
      LEEight(Raw(lang, t, n));
      FourLow(Word(n));
    }
  }

  lemma SmallRaw(lang: Lang, t: IntType, n: int)
    requires 0 <= n <= 0x7ffe
    ensures Raw(lang, t, n) == n
  {
  }

  /** Which payloads are read as integers: embedded ones, and chunks of four or eight bytes; the
      server takes an empty chunk for zero. */
  lemma IntReadable(lang: Lang, t: IntType, p: Payload)
    requires Integers.Valid(t)
    ensures ReadInt(lang, t, p).Ok? <==> p.Small? || |p.data| in {4, 8} || (lang == Go && p.data == [])
    ensures lang == Go && p == Chunk([]) ==> ReadInt(lang, t, p) == Ok(0)
  {
  }

  // ----- lists

  /** An element that makes a list go out in eight bytes per element. */
  predicate NeedsEight(lang: Lang, t: IntType, n: int) {
    if lang == Client && t.bits == 32 then false
    else !(-0x8000_0000 <= n <= 0x7fff_ffff)
  }

  function Each(ns: seq<int>, eight: bool): (b: seq<byte>) {
    if ns == [] then []
    else (if eight then Eight(Complement(ns[0])) else Four(Complement(ns[0]))) + Each(ns[1..], eight)
  }

  lemma WideSpelled(lang: Lang, t: IntType, n: int)
    requires Integers.Valid(t) && InRange(t, n) && (lang == Client ==> Portable(t))
    ensures Wide(lang, t, n) <==> NeedsEight(lang, t, n)
    ensures Word(n) == Complement(n)
  {
    RangeBounds(t, n);
    WordIs(n);
  }

  lemma {:induction false} WordsSpelled(lang: Lang, t: IntType, ns: seq<int>, eight: bool)
    requires Integers.Valid(t) && AllInRange(t, ns) && (lang == Client ==> Portable(t))
    ensures Words(ns, if eight then 8 else 4) == Each(ns, eight)
    decreases |ns|
  {
    hide LE, Word, Complement, Four, Eight, InRange;
    if ns != [] {
      WideSpelled(lang, t, ns[0]);
      LESpelled(Word(ns[0]));
      LEEight(Word(ns[0]));
      WordsSpelled(lang, t, ns[1..], eight);
    }
  }

  lemma SameWidth(lang: Lang, t: IntType, ns: seq<int>)
    requires Integers.Valid(t) && AllInRange(t, ns) && (lang == Client ==> Portable(t))
    ensures ListWidth(lang, t, ns) == 8 <==> exists i :: 0 <= i < |ns| && NeedsEight(lang, t, ns[i])
  {
    hide Wide, NeedsEight, InRange, Word, Complement;
    forall i | 0 <= i < |ns|
      ensures Wide(lang, t, ns[i]) <==> NeedsEight(lang, t, ns[i])
    {
      WideSpelled(lang, t, ns[i]);
    }
  }

  /** A list of integers: a width, then every element in that width. */
  lemma ListIs(lang: Lang, t: IntType, ns: seq<int>)
    requires Integers.Valid(t) && AllInRange(t, ns) && (lang == Client ==> Portable(t))
    ensures var eight := exists i :: 0 <= i < |ns| && NeedsEight(lang, t, ns[i]);
      ListBytes(lang, t, ns) == [if eight then 8 else 4] + Each(ns, eight)
  {
    SameWidth(lang, t, ns);
    hide Words, ListWidth, NeedsEight, Each, AllInRange;
    WordsSpelled(lang, t, ns, ListWidth(lang, t, ns) == 8);
  }

  function Chunks(ss: seq<seq<byte>>): (b: seq<byte>) {
    if ss == [] then [] else Four(|ss[0]|) + ss[0] + Chunks(ss[1..])
  }

  lemma {:induction false} StrsAre(ss: seq<seq<byte>>)
    ensures StrBytes(ss) == Chunks(ss)
  {
    hide LE, Four;
    if ss != [] {
      LESpelled(|ss[0]|);
      StrsAre(ss[1..]);
    }
  }

  lemma {:induction false} BoolsAre(bs: seq<bool>)
    ensures |BoolBytes(bs)| == |bs| && forall i :: 0 <= i < |bs| ==> BoolBytes(bs)[i] == if bs[i] then 1 else 0
  {
    if bs != [] {
      BoolsAre(bs[1..]);
    }
  }

  /** The encodings of the elements of a list of objects; a nil is an object without fields. */
  function Objects(lang: Lang, s: Schema, id: nat, ms: seq<Elem>): (es: seq<seq<byte>>)
    ensures |es| == |ms|
  {
    if ms == [] then []
    else [if ms[0].Nil? then [0, 0] else Encode(lang, s, id, ms[0].m)] + Objects(lang, s, id, ms[1..])
  }

  lemma {:induction false} ObjsAre(lang: Lang, s: Schema, id: nat, ms: seq<Elem>)
    ensures ObjBytes(lang, s, id, ms) == Chunks(Objects(lang, s, id, ms))
    decreases |ms|
  {
    if ms != [] {
      NilIs();
      hide LE, Four, Encode, EncodeItems;
      ObjsAre(lang, s, id, ms[1..]);
      var e := ElemBytes(lang, s, id, ms[0]);
      LESpelled(|e|);
      var es := Objects(lang, s, id, ms);
      assert es[0] == e && es[1..] == Objects(lang, s, id, ms[1..]);
    }
  }

  lemma NilIs()
    ensures EncodeItems([]) == [0, 0]
  {
    hide LE;
    LESpelled(0);
  }

  // ----- messages with one field

  function One(tag: nat, k: Kind): (s: Schema) {
    Schema([[Field(tag, k)]])
  }

  function Only(v: Value): (m: Msg) {
    Msg([Some(v)])
  }

  /** The count of records, and the record for the tags skipped. */
  function Lead(tag: nat): (b: seq<byte>) {
    if tag == 0 then [1, 0] else [2, 0] + Two(2 * tag - 1)
  }

  function Tail(p: Payload): (b: seq<byte>) {
    match p
    case Small(n) => Two(2 * n + 2)
    case Chunk(d) => [0, 0] + Four(|d|) + d
  }

  /** One field that is written: what its payload is, stands behind the header. */
  lemma FieldSpelled(lang: Lang, tag: nat, k: Kind, v: Value)
    requires Present(lang, Some(v))
    ensures Encode(lang, One(tag, k), 0, Only(v)) == Lead(tag) + Tail(PayloadOf(lang, One(tag, k), k, v))
  {
    var s, m := One(tag, k), Only(v);
    var item := Item(tag, PayloadOf(lang, s, k, v));
    assert FieldItems(lang, s, s.types[0][0], m.fields[0]) == [item];
    assert Items(lang, s, s.types[0][1..], m.fields[1..]) == [];
    assert Items(lang, s, s.types[0], m.fields) == [item];
    hide PayloadOf, Present;
    ItemSpelled(item);
  }

  lemma ItemSpelled(item: Item)
    ensures EncodeItems([item]) == Lead(item.tag) + Tail(item.payload)
  {
    hide LE;
    assert [item][1..] == [];
    var rs := Records(-1, [item]);
    assert DataBytes([item]) == ChunkBytes(item.payload) + [];
    LESpelled(|rs|);
    var h := Header(item.payload);
    LESpelled(h);
    if item.payload.Chunk? {
      LESpelled(|item.payload.data|);
    }
    assert Records(item.tag, []) == [] && RecordBytes([]) == [];
    if item.tag == 0 {
      assert rs == [h];
      assert RecordBytes([h]) == LE(h, 2) + RecordBytes([]);
    } else {
      var skip := 2 * item.tag - 1;
      LESpelled(skip);
      assert rs == [skip, h] && [skip, h][1..] == [h] && [h][1..] == [];
      assert RecordBytes([h]) == LE(h, 2) + RecordBytes([]);
      assert RecordBytes(rs) == LE(skip, 2) + RecordBytes([h]);
    }
  }

  /** A field that is not written leaves the empty message. */
  lemma NothingSpelled(lang: Lang, tag: nat, k: Kind, v: Option<Value>)
    requires !Present(lang, v)
    ensures Encode(lang, One(tag, k), 0, Msg([v])) == [0, 0]
  {
    var s, m := One(tag, k), Msg([v]);
    assert FieldItems(lang, s, s.types[0][0], m.fields[0]) == [];
    assert Items(lang, s, s.types[0][1..], m.fields[1..]) == [];
    assert Items(lang, s, s.types[0], m.fields) == [];
    NilIs();
  }

  /** What a value is on the wire. */
  ghost function Spelled(lang: Lang, s: Schema, k: Kind, v: Value): (p: Payload) {
    match v
    case VBool(b) => Small(if b then 1 else 0)
    case VInt(n) => IntSpelled(lang, n)
    case VStr(x) => Chunk(x)
    case VBytes(x) => Chunk(x)
    case VBools(bs) => Chunk(seq(|bs|, i requires 0 <= i < |bs| => if bs[i] then 1 else 0))
    case VInts(ns) =>
      if k.KInts? then
        var eight := exists i :: 0 <= i < |ns| && NeedsEight(lang, k.t, ns[i]);
        Chunk([if eight then 8 else 4] + Each(ns, eight))
      else Small(0)
    case VStrs(ss) => Chunk(Chunks(ss))
    case VObj(m) => if k.KObj? then Chunk(Encode(lang, s, k.id, m)) else Small(0)
    case VObjs(ms) => if k.KObjs? then Chunk(Chunks(Objects(lang, s, k.id, ms))) else Small(0)
  }

  lemma PayloadSpelled(lang: Lang, s: Schema, k: Kind, v: Value)
    requires KindOk(s, k) && HasKind(s, k, v) && (lang == Client ==> PortableKind(k))
    ensures PayloadOf(lang, s, k, v) == Spelled(lang, s, k, v)
  {
    hide IntPayload, IntSpelled, ListBytes, Each, Chunks, Objects, Encode, StrBytes, ObjBytes, BoolBytes,
      InRange, Typed, NeedsEight;
    match v
    case VInt(n) => IntIs(lang, k.t, n);
    case VInts(ns) => ListIs(lang, k.t, ns);
    case VStrs(ss) => StrsAre(ss);
    case VBools(bs) => BoolsAre(bs);
    case VObjs(ms) => ObjsAre(lang, s, k.id, ms);
    case _ =>
  }

  /** Every message with one field, in either language, byte by byte. */
  lemma MessageSpelled(lang: Lang, tag: nat, k: Kind, v: Value)
    requires KindOk(One(tag, k), k) && HasKind(One(tag, k), k, v) && (lang == Client ==> PortableKind(k))
    ensures Encode(lang, One(tag, k), 0, Only(v))
      == if (if lang == Client then Delivery.EmptyList(v) else Delivery.Zero(v)) then [0, 0]
         else Lead(tag) + Tail(Spelled(lang, One(tag, k), k, v))
  {
    hide KindOk, HasKind, PortableKind, Encode, Spelled, Tail, Lead, Present;
    Delivery.WrittenExactly(v);
    if Present(lang, Some(v)) {
      FieldSpelled(lang, tag, k, v);
      PayloadSpelled(lang, One(tag, k), k, v);
    } else {
      NothingSpelled(lang, tag, k, Some(v));
    }
  }

  /** The codec's theorems range over every tag up to 32767, every kind and every value of it. */
  lemma Admitted(tag: nat, k: Kind)
    requires tag <= 32767
    requires (k.KInt? || k.KInts?) ==> k.t.bits in {8, 16, 32, 64}
    requires (k.KObj? || k.KObjs?) ==> k.id == 0
    ensures SchemaOk(One(tag, k))
    ensures PortableSchema(One(tag, k)) <==> ((k.KInt? || k.KInts?) ==> k.t.bits in {32, 64})
  {
    var s := One(tag, k);
    assert Ascending(tag, []) && s.types[0][1..] == [];
    assert s.types[0][0].kind == k;
  }

  lemma FillsLeaf(tag: nat, k: Kind, v: Value)
    requires HasKind(One(tag, k), k, v) && !v.VObj? && !v.VObjs?
    ensures Fills(tag, k, v)
  {
    hide HasKind;
    var s, m := One(tag, k), Only(v);
    assert m.fields[0] == Some(v) && s.types[0][0].kind == k;
    assert RoundTrip.ServerField(s, k, Some(v));
    assert ClientSerialize.NoNulls(v);
  }

  lemma Belongs(tag: nat, b: bool, x: seq<byte>, bs: seq<bool>, ss: seq<seq<byte>>)
    ensures Fills(tag, KBool, VBool(b)) && Fills(tag, KStr, VStr(x)) && Fills(tag, KBytes, VBytes(x))
    ensures Fills(tag, KBools, VBools(bs)) && Fills(tag, KStrs, VStrs(ss))
  {
    hide Fills;
    FillsLeaf(tag, KBool, VBool(b));
    FillsLeaf(tag, KStr, VStr(x));
    FillsLeaf(tag, KBytes, VBytes(x));
    FillsLeaf(tag, KBools, VBools(bs));
    FillsLeaf(tag, KStrs, VStrs(ss));
  }

  lemma NumbersBelong(tag: nat, t: IntType, n: int, ns: seq<int>)
    ensures InRange(t, n) ==> Fills(tag, KInt(t), VInt(n))
    ensures (forall i :: 0 <= i < |ns| ==> InRange(t, ns[i])) ==> Fills(tag, KInts(t), VInts(ns))
  {
    hide Fills, InRange;
    if InRange(t, n) {
      FillsLeaf(tag, KInt(t), VInt(n));
    }
    if forall i :: 0 <= i < |ns| ==> InRange(t, ns[i]) {
      FillsLeaf(tag, KInts(t), VInts(ns));
    }
  }

  /** A message with one field can hold the value, at both ends. */
  predicate Fills(tag: nat, k: Kind, v: Value) {
    && Typed(One(tag, k), 0, Only(v))
    && RoundTrip.ServerMsg(One(tag, k), 0, Only(v))
    && ClientSerialize.NoNullFields(Only(v))
  }

  /** Objects nest: the outer message is a message exactly when the inner ones are. */
  lemma Nests(tag: nat, m: Msg)
    ensures var (s, outer) := (One(tag, KObj(0)), Only(VObj(m)));
      && (Typed(s, 0, outer) <==> Typed(s, 0, m))
      && (RoundTrip.ServerMsg(s, 0, outer) <==> RoundTrip.ServerMsg(s, 0, m))
      && (ClientSerialize.NoNullFields(outer) <==> ClientSerialize.NoNullFields(m))
  {
    var s, outer := One(tag, KObj(0)), Only(VObj(m));
    assert outer.fields[0] == Some(VObj(m)) && s.types[0][0].kind == KObj(0);
    assert RoundTrip.ServerField(s, KObj(0), outer.fields[0]) <==> RoundTrip.ServerMsg(s, 0, m);
    assert ClientSerialize.NoNulls(VObj(m)) <==> ClientSerialize.NoNullFields(m);
  }

  lemma ListsNest(tag: nat, ms: seq<Elem>)
    ensures var (s, outer) := (One(tag, KObjs(0)), Only(VObjs(ms)));
      && (Typed(s, 0, outer) <==> forall i :: 0 <= i < |ms| && ms[i].Obj? ==> Typed(s, 0, ms[i].m))
      && (RoundTrip.ServerMsg(s, 0, outer) <==>
            forall i :: 0 <= i < |ms| && ms[i].Obj? ==> RoundTrip.ServerMsg(s, 0, ms[i].m))
      && (ClientSerialize.NoNullFields(outer) <==>
            forall i :: 0 <= i < |ms| ==> ms[i].Obj? && ClientSerialize.NoNullFields(ms[i].m))
  {
    var s, outer := One(tag, KObjs(0)), Only(VObjs(ms));
    assert outer.fields[0] == Some(VObjs(ms)) && s.types[0][0].kind == KObjs(0);
    assert RoundTrip.ServerField(s, KObjs(0), outer.fields[0]) <==>
      forall i :: 0 <= i < |ms| ==> RoundTrip.ServerElem(s, 0, ms[i]);
    assert ClientSerialize.NoNulls(VObjs(ms)) <==>
      forall i :: 0 <= i < |ms| ==> ms[i].Obj? && ClientSerialize.NoNullFields(ms[i].m);
  }

  /** A field may be unset at the client; at the server it may be nil unless it is a number, a
      boolean or a string. */
  lemma Unset(tag: nat, k: Kind)
    ensures Typed(One(tag, k), 0, Msg([None])) && ClientSerialize.NoNullFields(Msg([None]))
    ensures RoundTrip.ServerMsg(One(tag, k), 0, Msg([None])) <==> !(k.KBool? || k.KInt? || k.KStr?)
  {
    var s := One(tag, k);
    assert s.types[0][0].kind == k && Msg([None]).fields[0] == None;
    assert RoundTrip.ServerField(s, k, None) <==> !(k.KBool? || k.KInt? || k.KStr?);
  }
}
