/**
 The outer layer of an encoded message: a record count, 16-bit records (a value,
 "the value is in the data part", or a number of tags to skip), then the
 length-prefixed chunks.  The two languages differ only in how far tags count.
 */
module Wire {
  import opened Bytes

  datatype Lang = Go | Client

  datatype Payload = Small(n: nat) | Chunk(data: seq<byte>)

  datatype Item = Item(tag: nat, payload: Payload)

  /** A decoded record that is not a skip: a tag, and its value if embedded. */
  datatype Mark = Mark(tag: nat, small: Option<nat>)

  const MAX_TAG: int := 32767
  const MAX_SMALL: int := 0x7ffe

  // ----- encoding

  function SkipTag(tag: int, nextTag: int): (r: nat)
  {
    if nextTag > tag + 1 then (nextTag - tag - 2) * 2 + 1 else 0
  }

  function Header(p: Payload): (r: nat) {
    match p
    case Small(n) => 2 * (n + 1)
    case Chunk(_) => 0
  }

  function ItemRecords(last: int, item: Item): (rs: seq<nat>)
    ensures 1 <= |rs| <= 2
  {
    var skip := SkipTag(last, item.tag);
    (if skip > 0 then [skip] else []) + [Header(item.payload)]
  }

  function Records(last: int, items: seq<Item>): (rs: seq<nat>)
    decreases |items|
  {
    if items == [] then [] else ItemRecords(last, items[0]) + Records(items[0].tag, items[1..])
  }

  function RecordBytes(rs: seq<nat>): (b: seq<byte>)
    ensures |b| == 2 * |rs|
  {
    if rs == [] then [] else LE(rs[0], 2) + RecordBytes(rs[1..])
  }

  lemma {:induction false} RecordSnoc(rs: seq<nat>, r: nat)
    ensures RecordBytes(rs + [r]) == RecordBytes(rs) + LE(r, 2)
  {
    hide LE;
    if rs == [] {
      assert (rs + [r])[1..] == [];
    } else {
      assert (rs + [r])[1..] == rs[1..] + [r];
      RecordSnoc(rs[1..], r);
    }
  }

  function ChunkBytes(p: Payload): (b: seq<byte>) {
    match p
    case Small(_) => []
    case Chunk(data) => LE(|data|, 4) + data
  }

  function DataBytes(items: seq<Item>): (b: seq<byte>) {
    if items == [] then [] else ChunkBytes(items[0].payload) + DataBytes(items[1..])
  }

  function Assemble(rs: seq<nat>, data: seq<byte>): (b: seq<byte>)
    ensures |b| == 2 + 2 * |rs| + |data|
  {
    LE(|rs|, 2) + RecordBytes(rs) + data
  }

  function EncodeItems(items: seq<Item>): (b: seq<byte>) {
    Assemble(Records(-1, items), DataBytes(items))
  }

  // ----- decoding

  function U16(b: seq<byte>, i: nat): (n: nat)
    requires i + 2 <= |b|
  {
    FromLE(b[i..i + 2])
  }

  function U32(b: seq<byte>, i: nat): (n: nat)
    requires i + 4 <= |b|
  {
    FromLE(b[i..i + 4])
  }

  function ReadRecords(b: seq<byte>, n: nat): (rs: seq<nat>)
    requires 2 * n <= |b|
    ensures |rs| == n
  {
    if n == 0 then [] else [U16(b, 0)] + ReadRecords(b[2..], n - 1)
  }

  /** The tag that follows a skip record: the server counts in 16 bits. */
  function AfterSkip(lang: Lang, next: nat, v: nat): (t: nat) {
    if lang == Go then (next + (v + 1) % TWO_16 / 2) % TWO_16 else next + v / 2 + 1
  }

  function AfterValue(lang: Lang, next: nat): (t: nat) {
    if lang == Go then (next + 1) % TWO_16 else next + 1
  }

  function Marks(lang: Lang, next: nat, rs: seq<nat>): (ms: seq<Mark>)
    decreases |rs|
  {
    if rs == [] then []
    else if rs[0] % 2 == 1 then Marks(lang, AfterSkip(lang, next, rs[0]), rs[1..])
    else [Mark(next, if rs[0] == 0 then None else Some(rs[0] / 2 - 1))] + Marks(lang, AfterValue(lang, next), rs[1..])
  }

  /** A length-prefixed chunk at the front of `b`. */
  function ReadChunk(b: seq<byte>): (r: Result<seq<byte>>)
    ensures r.Ok? ==> 4 + |r.value| <= |b| && r.value == b[4..4 + |r.value|]
  {
    if |b| < 4 || |b| < 4 + U32(b, 0) then Err else Ok(b[4..4 + U32(b, 0)])
  }

  datatype Parsed = Parsed(items: seq<Item>, used: nat)

  predicate Within(items: seq<Item>, n: int) {
    forall i :: 0 <= i < |items| && items[i].payload.Chunk? ==> |items[i].payload.data| < n
  }

  function TakeChunks(b: seq<byte>, ms: seq<Mark>): (r: Result<Parsed>)
    ensures r.Ok? ==> r.value.used <= |b| && Within(r.value.items, |b| + 1)
    decreases |ms|
  {
    if ms == [] then Ok(Parsed([], 0))
    else if ms[0].small.Some? then
      var r := TakeChunks(b, ms[1..]);
      if r.Err? then Err else Ok(Parsed([Item(ms[0].tag, Small(ms[0].small.value))] + r.value.items, r.value.used))
    else
      var c := ReadChunk(b);
      if c.Err? then Err else
      var n := 4 + |c.value|;
      var r := TakeChunks(b[n..], ms[1..]);
      if r.Err? then Err else Ok(Parsed([Item(ms[0].tag, Chunk(c.value))] + r.value.items, n + r.value.used))
  }

  function DecodeItems(lang: Lang, b: seq<byte>): (r: Result<Parsed>)
    ensures r.Ok? ==> r.value.used <= |b| && Within(r.value.items, |b|)
  {
    if |b| < 2 then Err
    else
      var fn := U16(b, 0);
      var top := 2 + fn * 2;
      if |b| < top then Err
      else
        var r := TakeChunks(b[top..], Marks(lang, 0, ReadRecords(b[2..], fn)));
        if r.Err? then Err else Ok(r.value.(used := top + r.value.used))
  }

  // ----- what can be encoded

  predicate Fits(p: Payload) {
    match p
    case Small(n) => n <= MAX_SMALL
    case Chunk(data) => |data| < TWO_32
  }

  predicate Encodable(last: int, items: seq<Item>)
    decreases |items|
  {
    && -1 <= last <= MAX_TAG
    && (items != [] ==>
          && last < items[0].tag <= MAX_TAG
          && Fits(items[0].payload)
          && Encodable(items[0].tag, items[1..]))
  }

  function MarksOf(items: seq<Item>): (ms: seq<Mark>) {
    if items == [] then []
    else [Mark(items[0].tag, if items[0].payload.Small? then Some(items[0].payload.n) else None)] + MarksOf(items[1..])
  }

  /** Every record fits 16 bits, and a tag accounts for at most one record. */
  lemma {:induction false} RecordsFit(last: int, items: seq<Item>)
    requires Encodable(last, items)
    ensures |Records(last, items)| <= MAX_TAG - last
    ensures forall i :: 0 <= i < |Records(last, items)| ==> Records(last, items)[i] < TWO_16
    decreases |items|
  {
    if items != [] {
      RecordsFit(items[0].tag, items[1..]);
    }
  }

  lemma ReadU16(n: nat, rest: seq<byte>)
    requires n < TWO_16
    ensures U16(LE(n, 2) + rest, 0) == n
    ensures (LE(n, 2) + rest)[2..] == rest
  {
    hide LE, FromLE, Pow256;
    Powers();
    LERoundTrip(n, 2);
    assert (LE(n, 2) + rest)[0..2] == LE(n, 2);
  }

  lemma ReadU32(n: nat, rest: seq<byte>)
    requires n < TWO_32
    ensures U32(LE(n, 4) + rest, 0) == n
    ensures (LE(n, 4) + rest)[4..] == rest
  {
    hide LE, FromLE, Pow256;
    Powers();
    LERoundTrip(n, 4);
    assert (LE(n, 4) + rest)[0..4] == LE(n, 4);
  }

  lemma {:induction false} ReadRecordBytes(rs: seq<nat>, rest: seq<byte>)
    requires forall i :: 0 <= i < |rs| ==> rs[i] < TWO_16
    ensures ReadRecords(RecordBytes(rs) + rest, |rs|) == rs
    decreases |rs|
  {
    hide LE, U16;
    if rs != [] {
      var tail := RecordBytes(rs[1..]) + rest;
      ReadU16(rs[0], tail);
      assert RecordBytes(rs) + rest == LE(rs[0], 2) + tail;
      ReadRecordBytes(rs[1..], rest);
    }
  }

  lemma MarksSkip(lang: Lang, next: nat, v: nat, rs: seq<nat>)
    requires v % 2 == 1
    ensures Marks(lang, next, [v] + rs) == Marks(lang, AfterSkip(lang, next, v), rs)
  {
    assert ([v] + rs)[1..] == rs;
  }

  lemma MarksValue(lang: Lang, next: nat, p: Payload, rs: seq<nat>)
    requires Fits(p)
    ensures Marks(lang, next, [Header(p)] + rs)
      == [Mark(next, if p.Small? then Some(p.n) else None)] + Marks(lang, AfterValue(lang, next), rs)
  {
    assert ([Header(p)] + rs)[1..] == rs;
  }

  lemma SkipUndone(lang: Lang, last: int, tag: nat)
    requires -1 <= last < tag <= MAX_TAG
    ensures AfterValue(lang, tag) == tag + 1
    ensures var skip := SkipTag(last, tag);
      if skip > 0 then skip % 2 == 1 && AfterSkip(lang, last + 1, skip) == tag else tag == last + 1
  {
  }

  /** Skips are undone: the decoder lands on the tags that were encoded. */
  lemma {:induction false} MarksOfRecords(lang: Lang, last: int, items: seq<Item>)
    requires Encodable(last, items)
    ensures Marks(lang, last + 1, Records(last, items)) == MarksOf(items)
    decreases |items|
  {
    hide Marks, Header, Records, MarksOf, SkipTag, AfterSkip, AfterValue;
    NextItem(items);
    NextRecords(last, items);
    if items == [] {
      MarksNone(lang, last + 1);
    } else {
      var item := items[0];
      var rest := Records(item.tag, items[1..]);
      MarksOfRecords(lang, item.tag, items[1..]);
      MarksValue(lang, item.tag, item.payload, rest);
      var skip := SkipTag(last, item.tag);
      SkipUndone(lang, last, item.tag);
      if skip > 0 {
        MarksSkip(lang, last + 1, skip, [Header(item.payload)] + rest);
      }
    }
  }

  lemma NextRecords(last: int, items: seq<Item>)
    ensures items == [] ==> Records(last, items) == []
    ensures items != [] ==>
      var skip, rest := SkipTag(last, items[0].tag), Records(items[0].tag, items[1..]);
      Records(last, items) ==
        if skip > 0 then [skip] + ([Header(items[0].payload)] + rest) else [Header(items[0].payload)] + rest
  {
  }

  lemma MarksNone(lang: Lang, next: nat)
    ensures Marks(lang, next, []) == []
  {
  }

  lemma TakeSmall(b: seq<byte>, m: Mark, ms: seq<Mark>, items: seq<Item>, used: nat)
    requires m.small.Some? && TakeChunks(b, ms) == Ok(Parsed(items, used))
    ensures TakeChunks(b, [m] + ms) == Ok(Parsed([Item(m.tag, Small(m.small.value))] + items, used))
  {
    assert ([m] + ms)[1..] == ms;
  }

  lemma TakeChunk(b: seq<byte>, m: Mark, ms: seq<Mark>, data: seq<byte>, items: seq<Item>, used: nat)
    requires m.small.None? && ReadChunk(b) == Ok(data)
    requires TakeChunks(b[4 + |data|..], ms) == Ok(Parsed(items, used))
    ensures TakeChunks(b, [m] + ms) == Ok(Parsed([Item(m.tag, Chunk(data))] + items, 4 + |data| + used))
  {
    hide ReadChunk;
    assert ([m] + ms)[1..] == ms;
  }

  lemma {:induction false} TakeDataBytes(items: seq<Item>, last: int, rest: seq<byte>)
    requires Encodable(last, items)
    ensures TakeChunks(DataBytes(items) + rest, MarksOf(items)) == Ok(Parsed(items, |DataBytes(items)|))
    decreases |items|
  {
    hide LE, ReadChunk, TakeChunks, DataBytes, MarksOf;
    NextItem(items);
    if items == [] {
      TakeNothing(DataBytes(items) + rest);
    } else {
      var item, tail := items[0], DataBytes(items[1..]) + rest;
      TakeDataBytes(items[1..], item.tag, rest);
      assert [item] + items[1..] == items;
      match item.payload
      case Small(n) =>
        TakeSmall(tail, Mark(item.tag, Some(n)), MarksOf(items[1..]), items[1..], |DataBytes(items[1..])|);
        assert DataBytes(items) + rest == tail;
      case Chunk(data) =>
        var b := LE(|data|, 4) + data + tail;
        ReadChunkBytes(data, tail);
        TakeChunk(b, Mark(item.tag, None), MarksOf(items[1..]), data, items[1..], |DataBytes(items[1..])|);
        Regroup(LE(|data|, 4), data, DataBytes(items[1..]), rest);
    }
  }

  lemma NextItem(items: seq<Item>)
    ensures items == [] ==> MarksOf(items) == [] && DataBytes(items) == []
    ensures items != [] ==>
      var (t, p) := (items[0].tag, items[0].payload);
      && DataBytes(items) == ChunkBytes(p) + DataBytes(items[1..])
      && MarksOf(items) == [Mark(t, if p.Small? then Some(p.n) else None)] + MarksOf(items[1..])
  {
  }

  lemma Regroup(a: seq<byte>, b: seq<byte>, c: seq<byte>, d: seq<byte>)
    ensures a + b + c + d == a + b + (c + d)
  {
  }

  lemma TakeNothing(b: seq<byte>)
    ensures TakeChunks(b, []) == Ok(Parsed([], 0))
  {
  }

  lemma ReadChunkBytes(data: seq<byte>, rest: seq<byte>)
    requires |data| < TWO_32
    ensures ReadChunk(LE(|data|, 4) + data + rest) == Ok(data)
    ensures (LE(|data|, 4) + data + rest)[4 + |data|..] == rest
  {
    hide LE, U32;
    var b := LE(|data|, 4) + data + rest;
    assert b == LE(|data|, 4) + (data + rest);
    ReadU32(|data|, data + rest);
    assert b[4..4 + |data|] == data;
  }

  /** Both decoders read back what was encoded, whatever follows it, and stop at its end. */
  lemma ItemsRoundTrip(lang: Lang, items: seq<Item>, rest: seq<byte>)
    requires Encodable(-1, items)
    ensures DecodeItems(lang, EncodeItems(items) + rest) == Ok(Parsed(items, |EncodeItems(items)|))
  {
    hide LE, U16, RecordBytes, Records, Marks, TakeChunks, DataBytes, ReadRecords, MarksOf;
    var rs := Records(-1, items);
    var data := DataBytes(items);
    var b := EncodeItems(items) + rest;
    RecordsFit(-1, items);
    assert b == LE(|rs|, 2) + (RecordBytes(rs) + (data + rest));
    ReadU16(|rs|, RecordBytes(rs) + (data + rest));
    ReadRecordBytes(rs, data + rest);
    MarksOfRecords(lang, -1, items);
    assert b[2 + 2 * |rs|..] == data + rest;
    TakeDataBytes(items, -1, rest);
  }

  /**
   Beyond that range the 16-bit arithmetic goes wrong.  The server's encoder truncates the
   record and its decoder wraps around; together they land on the tag exactly when the skip
   spans at most 32767 tags and the tag itself fits.  The client refuses to write a record
   that does not fit, and undoes every one that does.
   */
  lemma SkipExact(next: nat, span: nat)
    requires span >= 1
    ensures AfterSkip(Go, next, SkipTag(next - 1, next + span) % TWO_16) == next + span <==>
            span <= 32767 && next + span < TWO_16
    ensures SkipTag(next - 1, next + span) < TWO_16 <==> span <= 32768
    ensures span <= 32768 ==> AfterSkip(Client, next, SkipTag(next - 1, next + span)) == next + span
  {
    var v := SkipTag(next - 1, next + span);
    assert v == 2 * span - 1;
    assert (v % TWO_16 + 1) % TWO_16 / 2 == span % 0x8000;
  }
}
