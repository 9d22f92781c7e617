/**
 The repository's own examples: messages and packings whose bytes its tests spell out.
 */
module Examples {
  import opened Bytes
  import opened Wire
  import opened Integers
  import opened Codec
  import opened Format
  import opened Packing

  // ----- messages

  const INT := KInt(IntType(true, 64))

  /** name, age, marital, children */
  const HUMAN := Schema([[Field(0, KStr), Field(1, INT), Field(2, KBool), Field(3, KObjs(0))]])

  function Human(name: seq<byte>, age: int, children: Option<Value>): (m: Msg) {
    Msg([Some(VStr(name)), Some(VInt(age)), Some(VBool(false)), children])
  }

  /** A human without children: the marital status is false and left out. */
  lemma Childless(name: seq<byte>, age: int)
    requires name != [] && 1 <= age <= 0x7ffe
    ensures Encode(Go, HUMAN, 0, Human(name, age, None))
      == [2, 0, 0, 0] + Two(2 * age + 2) + Four(|name|) + name
  {
    hide *;
    FirstTwo(name, age, None);
    LastField(name, age, None);
    HumanItems(name, age, None);
    var items := Items(Go, HUMAN, HUMAN.types[0], Human(name, age, None).fields);
    var a, b := Item(0, Chunk(name)), Item(1, Small(age));
    assert items == [a, b];
    TwoItems(a, b);
  }

  /** A human with children: their tag comes after a skip. */
  lemma Parent(name: seq<byte>, age: int, ms: seq<Elem>)
    requires name != [] && 1 <= age <= 0x7ffe
    ensures var kids := Chunks(Objects(Go, HUMAN, 0, ms));
      Encode(Go, HUMAN, 0, Human(name, age, Some(VObjs(ms))))
      == [4, 0, 0, 0] + Two(2 * age + 2) + [1, 0, 0, 0] + Four(|name|) + name + Four(|kids|) + kids
  {
    hide *;
    FirstTwo(name, age, Some(VObjs(ms)));
    LastField(name, age, Some(VObjs(ms)));
    HumanItems(name, age, Some(VObjs(ms)));
    ObjsAre(Go, HUMAN, 0, ms);
    var items := Items(Go, HUMAN, HUMAN.types[0], Human(name, age, Some(VObjs(ms))).fields);
    var kids := Chunks(Objects(Go, HUMAN, 0, ms));
    var a, b, c := Item(0, Chunk(name)), Item(1, Small(age)), Item(3, Chunk(kids));
    assert items == [a, b, c];
    ThreeItems(a, b, c);
  }

  lemma HumanItems(name: seq<byte>, age: int, children: Option<Value>)
    ensures |HUMAN.types| == 1 && |HUMAN.types[0]| == |Human(name, age, children).fields| == 4
    ensures Encode(Go, HUMAN, 0, Human(name, age, children))
      == EncodeItems(Items(Go, HUMAN, HUMAN.types[0], Human(name, age, children).fields))
  {
    hide Items, EncodeItems;
  }

  lemma LastField(name: seq<byte>, age: int, children: Option<Value>)
    requires children.Some? ==> children.value.VObjs?
    ensures Items(Go, HUMAN, HUMAN.types[0][3..], Human(name, age, children).fields[3..])
      == if children.None? then [] else [Item(3, Chunk(ObjBytes(Go, HUMAN, 0, children.value.ms)))]
  {
    hide ObjBytes;
    var fs, vs := HUMAN.types[0][3..], Human(name, age, children).fields[3..];
    assert fs[1..] == [] && vs[1..] == [] && fs[0] == Field(3, KObjs(0)) && vs[0] == children;
    assert Items(Go, HUMAN, fs[1..], vs[1..]) == [];
    if children.Some? {
      assert FieldItems(Go, HUMAN, fs[0], vs[0]) == [Item(3, Chunk(ObjBytes(Go, HUMAN, 0, children.value.ms)))];
    } else {
      assert FieldItems(Go, HUMAN, fs[0], vs[0]) == [];
    }
  }

  lemma FirstTwo(name: seq<byte>, age: int, children: Option<Value>)
    requires name != [] && 1 <= age <= 0x7ffe
    ensures var (s, fs, vs) := (HUMAN, HUMAN.types[0], Human(name, age, children).fields);
      Items(Go, s, fs, vs) == [Item(0, Chunk(name)), Item(1, Small(age))] + Items(Go, s, fs[3..], vs[3..])
  {
    var s, fs, vs := HUMAN, HUMAN.types[0], Human(name, age, children).fields;
    assert fs[1..][1..] == fs[2..] && fs[2..][1..] == fs[3..] && vs[1..][1..] == vs[2..] && vs[2..][1..] == vs[3..];
    HumanFields(name, age);
    hide FieldItems;
    assert Items(Go, s, fs[2..], vs[2..]) == [] + Items(Go, s, fs[3..], vs[3..]);
    assert Items(Go, s, fs[1..], vs[1..]) == [Item(1, Small(age))] + Items(Go, s, fs[2..], vs[2..]);
  }

  lemma HumanFields(name: seq<byte>, age: int)
    requires name != [] && 1 <= age <= 0x7ffe
    ensures FieldItems(Go, HUMAN, Field(0, KStr), Some(VStr(name))) == [Item(0, Chunk(name))]
    ensures FieldItems(Go, HUMAN, Field(1, INT), Some(VInt(age))) == [Item(1, Small(age))]
    ensures FieldItems(Go, HUMAN, Field(2, KBool), Some(VBool(false))) == []
  {
    SmallRaw(Go, IntType(true, 64), age);
  }

  lemma TwoItems(a: Item, b: Item)
    requires a.tag == 0 && a.payload.Chunk? && b.tag == 1 && b.payload.Small?
    ensures EncodeItems([a, b])
      == [2, 0, 0, 0] + Two(2 * b.payload.n + 2) + Four(|a.payload.data|) + a.payload.data
  {
    hide LE;
    var h := 2 * b.payload.n + 2;
    assert [a, b][1..] == [b] && [b][1..] == [];
    assert Records(1, []) == [] && Records(0, [b]) == [h];
    assert Records(-1, [a, b]) == [0, h];
    assert [0, h][1..] == [h] && [h][1..] == [] && RecordBytes([]) == [];
    assert RecordBytes([h]) == LE(h, 2) + [];
    assert RecordBytes([0, h]) == LE(0, 2) + RecordBytes([h]);
    assert DataBytes([b]) == [];
    LESpelled(2);
    LESpelled(0);
    LESpelled(h);
    LESpelled(|a.payload.data|);
  }

  lemma ThreeItems(a: Item, b: Item, c: Item)
    requires a.tag == 0 && a.payload.Chunk? && b.tag == 1 && b.payload.Small? && c.tag == 3 && c.payload.Chunk?
    ensures var (x, y) := (a.payload.data, c.payload.data);
      EncodeItems([a, b, c])
      == [4, 0, 0, 0] + Two(2 * b.payload.n + 2) + [1, 0, 0, 0] + Four(|x|) + x + Four(|y|) + y
  {
    ThreeRecords(a, b, c);
    ThreeData(a, b, c);
    LESpelled(4);
    assert Two(4) == [4, 0];
    hide LE, Records, RecordBytes, DataBytes, Four, Two;
    Flat(Two(2 * b.payload.n + 2), Four(|a.payload.data|), a.payload.data, Four(|c.payload.data|), c.payload.data);
  }

  lemma Flat(h: seq<byte>, m: seq<byte>, x: seq<byte>, n: seq<byte>, y: seq<byte>)
    ensures [4, 0] + ([0, 0] + h + [1, 0, 0, 0]) + (m + x + n + y)
      == [4, 0, 0, 0] + h + [1, 0, 0, 0] + m + x + n + y
  {
  }

  lemma ThreeRecords(a: Item, b: Item, c: Item)
    requires a.tag == 0 && a.payload.Chunk? && b.tag == 1 && b.payload.Small? && c.tag == 3 && c.payload.Chunk?
    ensures var rs := Records(-1, [a, b, c]);
      |rs| == 4 && RecordBytes(rs) == [0, 0] + Two(2 * b.payload.n + 2) + [1, 0, 0, 0]
  {
    hide LE;
    var h := 2 * b.payload.n + 2;
    assert [a, b, c][1..] == [b, c] && [b, c][1..] == [c] && [c][1..] == [];
    assert Records(3, []) == [] && Records(1, [c]) == [1, 0];
    assert Records(0, [b, c]) == [h, 1, 0];
    assert Records(-1, [a, b, c]) == [0, h, 1, 0];
    FourRecords(h);
  }

  lemma FourRecords(h: nat)
    ensures RecordBytes([0, h, 1, 0]) == [0, 0] + Two(h) + [1, 0, 0, 0]
  {
    hide LE;
    assert [0, h, 1, 0][1..] == [h, 1, 0] && [h, 1, 0][1..] == [1, 0] && [1, 0][1..] == [0] && [0][1..] == [];
    assert RecordBytes([]) == [] && RecordBytes([0]) == LE(0, 2) + [];
    assert RecordBytes([1, 0]) == LE(1, 2) + RecordBytes([0]);
    assert RecordBytes([h, 1, 0]) == LE(h, 2) + RecordBytes([1, 0]);
    assert RecordBytes([0, h, 1, 0]) == LE(0, 2) + RecordBytes([h, 1, 0]);
    LESpelled(0);
    LESpelled(1);
    LESpelled(h);
  }

  lemma ThreeData(a: Item, b: Item, c: Item)
    requires a.payload.Chunk? && b.payload.Small? && c.payload.Chunk?
    ensures var (x, y) := (a.payload.data, c.payload.data);
      DataBytes([a, b, c]) == Four(|x|) + x + Four(|y|) + y
  {
    hide LE, Four;
    assert [a, b, c][1..] == [b, c] && [b, c][1..] == [c] && [c][1..] == [];
    assert DataBytes([c]) == ChunkBytes(c.payload) + [] && DataBytes([b, c]) == [] + DataBytes([c]);
    LESpelled(|a.payload.data|);
    LESpelled(|c.payload.data|);
  }

  const ALICE: seq<byte> := [0x41, 0x6C, 0x69, 0x63, 0x65]
  const BOB: seq<byte> := [0x42, 0x6F, 0x62]
  const CAROL: seq<byte> := [0x43, 0x61, 0x72, 0x6F, 0x6C]

  const ALICE_13: seq<byte> :=
    [0x02, 0x00, 0x00, 0x00, 0x1C, 0x00, 0x05, 0x00, 0x00, 0x00, 0x41, 0x6C, 0x69, 0x63, 0x65]

  const CAROL_5: seq<byte> :=
    [0x02, 0x00, 0x00, 0x00, 0x0C, 0x00, 0x05, 0x00, 0x00, 0x00, 0x43, 0x61, 0x72, 0x6F, 0x6C]

  /** Alice, 13 */
  lemma SimpleStruct()
    ensures Encode(Go, HUMAN, 0, Human(ALICE, 13, None)) == ALICE_13
  {
    hide Encode;
    Childless(ALICE, 13);
  }

  /** Bob, 40, and his children Alice, 13, and Carol, 5 */
  lemma StructArray()
    ensures Encode(Go, HUMAN, 0,
                   Human(BOB, 40, Some(VObjs([Obj(Human(ALICE, 13, None)), Obj(Human(CAROL, 5, None))]))))
      == [0x04, 0x00, 0x00, 0x00, 0x52, 0x00, 0x01, 0x00, 0x00, 0x00]
         + [0x03, 0x00, 0x00, 0x00, 0x42, 0x6F, 0x62]
         + [0x26, 0x00, 0x00, 0x00]
         + [0x0F, 0x00, 0x00, 0x00] + ALICE_13 + [0x0F, 0x00, 0x00, 0x00] + CAROL_5
  {
    hide Encode, Chunks, Objects;
    var a, c := Human(ALICE, 13, None), Human(CAROL, 5, None);
    Parent(BOB, 40, [Obj(a), Obj(c)]);
    TwoObjects(a, c);
    Kids();
  }

  lemma TwoObjects(a: Msg, c: Msg)
    ensures Objects(Go, HUMAN, 0, [Obj(a), Obj(c)]) == [Encode(Go, HUMAN, 0, a), Encode(Go, HUMAN, 0, c)]
  {
    hide Encode;
    var two := [Obj(a), Obj(c)];
    assert two[1..] == [Obj(c)] && two[1..][1..] == [];
    assert Objects(Go, HUMAN, 0, two[1..]) == [Encode(Go, HUMAN, 0, c)] + [];
  }

  lemma TwoChunks(x: seq<byte>, y: seq<byte>)
    ensures Chunks([x, y]) == Four(|x|) + x + Four(|y|) + y
  {
    hide Four;
    var two, none: seq<seq<byte>> := [x, y], [];
    assert two[1..] == [y] && two[1..][1..] == none;
    assert Chunks(two[1..]) == Four(|y|) + y + [];
  }

  lemma Carol()
    ensures Encode(Go, HUMAN, 0, Human(CAROL, 5, None)) == CAROL_5
  {
    hide Encode;
    Childless(CAROL, 5);
  }

  lemma Kids()
    ensures Chunks([Encode(Go, HUMAN, 0, Human(ALICE, 13, None)), Encode(Go, HUMAN, 0, Human(CAROL, 5, None))])
      == [0x0F, 0x00, 0x00, 0x00] + ALICE_13 + [0x0F, 0x00, 0x00, 0x00] + CAROL_5
  {
    hide Encode, Chunks, Human;
    SimpleStruct();
    Carol();
    assert Four(15) == [15, 0, 0, 0];
    hide Four;
    TwoChunks(Encode(Go, HUMAN, 0, Human(ALICE, 13, None)), Encode(Go, HUMAN, 0, Human(CAROL, 5, None)));
  }

  // ----- lists and numbers

  /** 100000 in an int field and -10000000000 in an int64 field */
  lemma Numbers()
    ensures IntPayload(Go, IntType(true, 64), 100000) == Chunk([0xA0, 0x86, 0x01, 0x00])
    ensures IntPayload(Go, IntType(true, 64), -10000000000)
      == Chunk([0x00, 0x1C, 0xF4, 0xAB, 0xFD, 0xFF, 0xFF, 0xFF])
  {
    hide IntPayload;
    IntIs(Go, IntType(true, 64), 100000);
    IntIs(Go, IntType(true, 64), -10000000000);
  }

  lemma BigEights()
    ensures Eight(0x1_0000_0001) == [1, 0, 0, 0, 1, 0, 0, 0]
    ensures Eight(0x1_0000_0002) == [2, 0, 0, 0, 1, 0, 0, 0]
    ensures Eight(0x1_0000_0003) == [3, 0, 0, 0, 1, 0, 0, 0]
  {
  }

  /** 2^32 + 1, 2^32 + 2, 2^32 + 3 */
  lemma BigNumberArray()
    ensures ListBytes(Go, IntType(true, 64), [0x1_0000_0001, 0x1_0000_0002, 0x1_0000_0003])
      == [0x08, 0x01, 0x00, 0x00, 0x00, 0x01, 0x00, 0x00, 0x00]
         + [0x02, 0x00, 0x00, 0x00, 0x01, 0x00, 0x00, 0x00]
         + [0x03, 0x00, 0x00, 0x00, 0x01, 0x00, 0x00, 0x00]
  {
    hide ListBytes, InRange;
    Ranges(0x1_0000_0001);
    Ranges(0x1_0000_0002);
    Ranges(0x1_0000_0003);
    var ns := [0x1_0000_0001, 0x1_0000_0002, 0x1_0000_0003];
    ListIs(Go, IntType(true, 64), ns);
    assert NeedsEight(Go, IntType(true, 64), ns[0]);
    hide NeedsEight, Eight;
    BigEights();
    assert ns[1..] == [ns[1], ns[2]] && ns[1..][1..] == [ns[2]] && ns[1..][1..][1..] == [];
    assert Each([ns[2]], true) == Eight(ns[2]) + [];
    assert Each([ns[1], ns[2]], true) == Eight(ns[1]) + Each([ns[2]], true);
  }

  // ----- packing

  lemma SimplePack()
    ensures Pack([0x08, 0x00, 0x00, 0x00, 0x03, 0x00, 0x02, 0x00, 0x19, 0x00, 0x00, 0x00, 0xaa, 0x01, 0x00, 0x00])
      == [0x51, 0x08, 0x03, 0x02, 0x31, 0x19, 0xaa, 0x01]
  {
    hide NonZero, MaskOf, MaskBlock, Pack;
    var a: seq<byte> := [0x08, 0x00, 0x00, 0x00, 0x03, 0x00, 0x02, 0x00];
    var b: seq<byte> := [0x19, 0x00, 0x00, 0x00, 0xaa, 0x01, 0x00, 0x00];
    assert a + b == [0x08, 0x00, 0x00, 0x00, 0x03, 0x00, 0x02, 0x00, 0x19, 0x00, 0x00, 0x00, 0xaa, 0x01, 0x00, 0x00];
    FirstSegment();
    SecondSegment();
    TwoMasks(a, b);
  }

  lemma TwoMasks(a: seq<byte>, b: seq<byte>)
    requires |a| == |b| == 8 && |NonZero(a)| < 8 && |NonZero(b)| < 8
    ensures Pack(a + b) == MaskBlock(a) + MaskBlock(b)
  {
    hide NonZero, MaskOf, MaskBlock, PackFrom;
    var p := a + b;
    assert Pad8(p) == p && Segment(p, 0) == a && Segment(p, 1) == b;
    PackFromMask(p, 0);
    PackFromMask(p, 1);
    PackFromEnd(p, 2);
  }

  lemma FirstSegment()
    ensures MaskBlock([0x08, 0x00, 0x00, 0x00, 0x03, 0x00, 0x02, 0x00]) == [0x51, 0x08, 0x03, 0x02]
    ensures |NonZero([0x08, 0x00, 0x00, 0x00, 0x03, 0x00, 0x02, 0x00])| == 3
  {
  }

  lemma SecondSegment()
    ensures MaskBlock([0x19, 0x00, 0x00, 0x00, 0xaa, 0x01, 0x00, 0x00]) == [0x31, 0x19, 0xaa, 0x01]
    ensures |NonZero([0x19, 0x00, 0x00, 0x00, 0xaa, 0x01, 0x00, 0x00])| == 3
  {
  }

  /** 30 bytes 0x8a and two zeros: one run of four segments. */
  lemma FFPack(x: seq<byte>)
    requires |x| == 30 && forall i :: 0 <= i < 30 ==> x[i] == 0x8a
    ensures Pack(x + [0, 0]) == [0xff, 0x03] + x + [0, 0]
  {
    var p := x + [0, 0];
    assert Pad8(p) == p;
    forall j | 0 <= j < 4
      ensures Dense(p, j) && (j < 3 ==> Full(p, j))
    {
      if j < 3 {
        assert Segment(p, j) == x[8 * j..8 * j + 8];
        NoZeros(x[8 * j..8 * j + 8]);
      } else {
        assert Pad8(x) == p;
        LastSegment(x, 3);
        NoZeros(x[24..]);
      }
    }
    assert !Dense(p, 4);
    hide Dense, Full, PackFrom;
    assert RunLength(p, 0, 1) == 4;
    PackFromRun(p, 0);
    PackFromEnd(p, 4);
    assert p[0..32] == p;
  }
}
