/**
 The client's decoder: a cursor over the header, another over the data, and
 windows into the same bytes for nested objects.  An exception is an `ok` of
 false or an `Err`.
 */
module ClientDeserialize {
  import opened Bytes
  import opened Wire
  import opened Integers
  import opened Codec

  class SprotoTypeReader {
    var buffer: seq<byte>
    var begin: nat
    var pos: nat
    var size: nat

    /** The window lies in the buffer; the position may have left it by its end. */
    ghost predicate Valid()
      reads this
    {
      begin <= pos && begin <= size <= |buffer|
    }

    /** The bytes of the window from the position on. */
    ghost function Rest(): (r: seq<byte>)
      requires Valid() && pos <= size
      reads this
    {
      buffer[pos..size]
    }

    ghost function Window(): (r: seq<byte>)
      requires Valid()
      reads this
    {
      buffer[begin..size]
    }

    constructor ()
      ensures Valid()
    {
      buffer, begin, pos, size := [], 0, 0, 0;
    }

    method Init(bytes: seq<byte>, offset: nat, n: nat)
      requires offset + n <= |bytes|
      modifies this
      ensures Valid() && buffer == bytes && begin == pos == offset && size == offset + n
    {
      begin, pos, buffer, size := offset, offset, bytes, offset + n;
    }

    /** Checks the position before the read, so it can go one byte past the window. */
    method ReadByte() returns (ok: bool, v: byte)
      requires Valid()
      modifies this`pos
      ensures Valid() && pos == if ok then old(pos) + 1 else old(pos)
      ensures old(pos) < size ==> ok && v == buffer[old(pos)]
    {
      if pos > size || pos >= |buffer| {
        return false, 0;
      }
      ok, v := true, buffer[pos];
      pos := pos + 1;
    }

    /** `n` single-byte reads. */
    method Take(n: nat) returns (ok: bool, bytes: seq<byte>)
      requires Valid()
      modifies this`pos
      ensures Valid() && pos >= old(pos)
      ensures ok ==> |bytes| == n && pos == old(pos) + n
      ensures old(pos) + n <= size ==> ok && bytes == buffer[old(pos)..pos]
    {
      bytes := [];
      ok := true;
      for i := 0 to n
        invariant Valid() && pos == old(pos) + i && |bytes| == i
        invariant old(pos) + n <= size ==> bytes == buffer[old(pos)..pos]
      {
        var v;
        ok, v := ReadByte();
        if !ok {
          return;
        }
        bytes := bytes + [v];
      }
      ok := true;
    }

    method Seek(offset: nat) returns (ok: bool)
      requires Valid()
      modifies this`pos
      ensures Valid() && pos == begin + offset && (ok <==> pos <= size)
    {
      pos := begin + offset;
      ok := pos <= size;
    }

    method Read(n: nat) returns (ok: bool, bytes: seq<byte>)
      requires Valid()
      modifies this`pos
      ensures Valid() && pos == old(pos) + n && (ok <==> pos <= size)
      ensures ok ==> bytes == buffer[old(pos)..pos]
    {
      var cur := pos;
      pos := pos + n;
      ok := pos <= size;
      bytes := if ok then buffer[cur..pos] else [];
    }
  }

  class SprotoTypeDeserialize {
    const reader: SprotoTypeReader
    var beginDataPos: nat
    var curFieldPos: nat
    var fn: nat
    var tag: int
    var value: int

    constructor (r: SprotoTypeReader)
      ensures reader == r && tag == -1
    {
      reader := r;
      beginDataPos, curFieldPos, fn, tag, value := 0, 0, 0, -1, 0;
    }

    /** The header cursor is between two records. */
    ghost predicate Ready()
      reads this, reader
    {
      && reader.Valid()
      && 2 <= curFieldPos <= beginDataPos <= |reader.Window()|
      && (beginDataPos - curFieldPos) % 2 == 0
      && tag >= -1
    }

    /** The fields still to come. */
    ghost function Left(): (ms: seq<Mark>)
      requires Ready()
      reads this, reader
    {
      MarksFrom(reader.Window(), curFieldPos, beginDataPos, tag)
    }

    method Init() returns (ok: bool)
      requires reader.Valid() && reader.pos == reader.begin && tag == -1
      modifies this, reader`pos
      ensures reader.Valid()
      ensures ok <==> |reader.Window()| >= 2 && |reader.Window()| >= 2 + 2 * U16(reader.Window(), 0)
      ensures ok ==>
        && Ready() && tag == -1
        && reader.pos == reader.begin + 2 + 2 * U16(reader.Window(), 0)
        && Left() == Marks(Client, 0, ReadRecords(reader.Window()[2..], U16(reader.Window(), 0)))
    {
      hide Marks, ReadRecords, FromLE;
      ghost var w := reader.Window();
      var word;
      ok, word := reader.Take(2);
      if !ok || reader.pos > reader.size {
        return false;
      }
      assert word == w[0..2];
      fn := FromLE(word);
      var headerLength := 2 + fn * 2;
      beginDataPos := headerLength;
      curFieldPos := 2;
      if reader.size - reader.begin < headerLength {
        return false;
      }
      ok := reader.Seek(beginDataPos);
    }

    method ReadWord() returns (v: nat)
      requires reader.Valid() && reader.begin <= reader.pos && reader.pos + 2 <= reader.size
      modifies reader`pos
      ensures reader.Valid() && reader.pos == old(reader.pos) + 2
      ensures reader.Window() == old(reader.Window())
      ensures reader.pos - 2 - reader.begin + 2 <= |reader.Window()|
      ensures v == U16(reader.Window(), reader.pos - 2 - reader.begin)
    {
      hide U16, FromLE;
      ghost var at := reader.pos - reader.begin;
      var ok, word := reader.Take(2);
      WordIn(reader.Window(), reader.buffer, reader.begin, at, word);
      v := FromLE(word);
    }

    /** Reads header records up to the next one that belongs to a field. */
    method NextField(ghost goal: seq<Mark>) returns (found: bool, v: int)
      requires Ready() && reader.pos == reader.begin + curFieldPos && Left() == goal
      modifies this`tag, reader`pos
      ensures reader.Valid() && tag >= -1
      ensures 2 <= reader.pos - reader.begin <= beginDataPos
      ensures (beginDataPos - (reader.pos - reader.begin)) % 2 == 0
      ensures found <==> goal != []
      ensures found ==>
        && v >= 0 && v % 2 == 0 && goal[0].tag == tag
        && (if v == 0 then goal[0].small == None else goal[0].small == Some(v / 2 - 1))
        && MarksFrom(reader.Window(), reader.pos - reader.begin, beginDataPos, tag) == goal[1..]
    {
      hide Marks, ReadRecords, U16, MarksFrom, FromLE;
      while reader.pos - reader.begin < beginDataPos
        invariant reader.Valid() && tag >= -1
        invariant 2 <= reader.pos - reader.begin <= beginDataPos <= |reader.Window()|
        invariant (beginDataPos - (reader.pos - reader.begin)) % 2 == 0
        invariant MarksFrom(reader.Window(), reader.pos - reader.begin, beginDataPos, tag) == goal
        decreases beginDataPos - (reader.pos - reader.begin)
      {
        NextRecord(reader.Window(), reader.pos - reader.begin, beginDataPos, tag);
        tag := tag + 1;
        v := ReadWord();
        if v % 2 == 0 {
          return true, v;
        }
        tag := tag + v / 2;
      }
      NoRecord(reader.Window(), beginDataPos, tag);
      return false, 0;
    }

    /** Finds the next field in the header and returns to the data. */
    method ReadTag() returns (ok: bool, t: int)
      requires Ready()
      modifies this`tag, this`value, this`curFieldPos, reader`pos
      ensures reader.Valid() && reader.pos == old(reader.pos)
      ensures ok <==> reader.pos <= reader.size
      ensures ok && old(Left()) == [] ==> t == -1
      ensures ok && old(Left()) != [] ==>
        && Ready() && t == old(Left())[0].tag && Left() == old(Left())[1..]
        && value == (if old(Left())[0].small.Some? then old(Left())[0].small.value else -1)
    {
      hide Marks, ReadRecords, U16, MarksFrom, FromLE;
      ghost var goal := Left();
      var pos := reader.pos - reader.begin;
      ok := reader.Seek(curFieldPos);
      var found, v := NextField(goal);
      if !found {
        ok := reader.Seek(pos);
        return ok, -1;
      }
      curFieldPos := reader.pos - reader.begin;
      ok := reader.Seek(pos);
      value := v / 2 - 1;
      return ok, tag;
    }
  }

  /** The marks of the records of `w` from `at` up to `top`, after tag `tag`. */
  ghost function MarksFrom(w: seq<byte>, at: nat, top: nat, tag: int): (ms: seq<Mark>)
    requires at <= top <= |w| && (top - at) % 2 == 0 && tag >= -1
  {
    Marks(Client, tag + 1, ReadRecords(w[at..], (top - at) / 2))
  }

  lemma NoRecord(w: seq<byte>, top: nat, tag: int)
    requires top <= |w| && tag >= -1
    ensures MarksFrom(w, top, top, tag) == []
  {
  }

  lemma NextRecord(w: seq<byte>, at: nat, top: nat, tag: int)
    requires at < top <= |w| && (top - at) % 2 == 0 && tag >= -1
    ensures var v := U16(w, at);
      MarksFrom(w, at, top, tag) ==
        if v % 2 == 0 then
          [Mark(tag + 1, if v == 0 then None else Some(v / 2 - 1))] + MarksFrom(w, at + 2, top, tag + 1)
        else MarksFrom(w, at + 2, top, tag + 1 + v / 2)
  {
    hide FromLE;
    var rs := ReadRecords(w[at..], (top - at) / 2);
    assert w[at..][0..2] == w[at..at + 2];
    assert w[at..][2..] == w[at + 2..];
    assert rs[0] == U16(w, at) && rs[1..] == ReadRecords(w[at + 2..], (top - at) / 2 - 1);
  }

  lemma WordIn(w: seq<byte>, buffer: seq<byte>, begin: nat, at: nat, word: seq<byte>)
    requires begin + |w| <= |buffer| && w == buffer[begin..begin + |w|] && at + 2 <= |w|
    requires word == buffer[begin + at..begin + at + 2]
    ensures FromLE(word) == U16(w, at)
  {
    SliceOfSlice(buffer, begin, begin + |w|, at, at + 2);
  }

  // ----- values

  /** What a chunk at the position looks like to the byte reader. */
  lemma ChunkAt(buffer: seq<byte>, pos: nat, size: nat, d: seq<byte>)
    requires pos <= size <= |buffer| && ReadChunk(buffer[pos..size]) == Ok(d)
    ensures pos + 4 + |d| <= size
    ensures FromLE(buffer[pos..pos + 4]) == |d|
    ensures buffer[pos + 4..pos + 4 + |d|] == d
  {
    hide FromLE;
    SliceOfSlice(buffer, pos, size, 0, 4);
    SliceOfSlice(buffer, pos, size, 4, 4 + |d|);
  }

  /** The position is at a chunk that holds `d`. */
  ghost predicate AtChunk(rd: SprotoTypeReader, d: seq<byte>)
    reads rd
  {
    rd.Valid() && rd.pos <= rd.size && ReadChunk(rd.Rest()) == Ok(d)
  }

  method ReadSize(rd: SprotoTypeReader, ghost d: seq<byte>) returns (ok: bool, sz: nat)
    requires rd.Valid()
    modifies rd`pos
    ensures rd.Valid() && rd.pos >= old(rd.pos) && (ok ==> rd.pos == old(rd.pos) + 4)
    ensures old(AtChunk(rd, d)) ==>
      && ok && sz == |d| && rd.pos + |d| <= rd.size
      && rd.buffer[rd.pos..rd.pos + |d|] == d
  {
    hide FromLE, ReadChunk;
    if AtChunk(rd, d) {
      ChunkAt(rd.buffer, rd.pos, rd.size, d);
    }
    var word;
    ok, word := rd.Take(4);
    sz := if ok then FromLE(word) else 0;
  }

  method ReadInteger(rd: SprotoTypeReader, t: IntType, value: int, ghost d: seq<byte>) returns (ok: bool, n: int)
    requires rd.Valid() && Integers.Valid(t)
    modifies rd`pos
    ensures rd.Valid() && rd.pos >= old(rd.pos)
    ensures value >= 0 ==> ok && Ok(n) == ReadInt(Client, t, Small(value)) && rd.pos == old(rd.pos)
    ensures value < 0 && old(AtChunk(rd, d)) && ReadInt(Client, t, Chunk(d)).Ok? ==>
      && ok && Ok(n) == ReadInt(Client, t, Chunk(d)) && rd.pos == old(rd.pos) + 4 + |d|
  {
    hide FromLE, ReadChunk, Fit, Extend;
    if value >= 0 {
      return true, Fit(t, value);
    }
    var sz;
    ok, sz := ReadSize(rd, d);
    if !ok || (sz != 4 && sz != 8) {
      return false, 0;
    }
    var bytes;
    ok, bytes := rd.Take(sz);
    if !ok {
      return false, 0;
    }
    if sz == 4 {
      FromLE4(bytes);
      return true, Fit(t, Extend(Client, FromLE(bytes)));
    } else {
      return true, Fit(t, FromLE(bytes));
    }
  }

  method ReadIntegerList(rd: SprotoTypeReader, t: IntType, ghost d: seq<byte>) returns (ok: bool, ns: seq<int>)
    requires rd.Valid() && Integers.Valid(t)
    modifies rd`pos
    ensures rd.Valid() && rd.pos >= old(rd.pos)
    ensures old(AtChunk(rd, d)) && ReadList(Client, t, d).Ok? ==>
      && ok && Ok(ns) == ReadList(Client, t, d) && rd.pos == old(rd.pos) + 4 + |d|
  {
    hide FromLE, ReadChunk, Fit, ReadWords, ReadWord;
    ghost var good := AtChunk(rd, d) && ReadList(Client, t, d).Ok?;
    var sz;
    ok, sz := ReadSize(rd, d);
    if !ok {
      return false, [];
    }
    if sz == 0 {
      return true, [];
    }
    ghost var start := rd.pos;
    var w;
    ok, w := rd.ReadByte();
    if !ok || (w != 4 && w != 8) || (sz - 1) % w != 0 {
      return false, [];
    }
    ok, ns := ReadElements(rd, t, w, sz - 1, d, start, good);
  }

  /** The elements of a list, `total` bytes of them, `w` bytes each. */
  method ReadElements(rd: SprotoTypeReader, t: IntType, w: nat, total: nat, ghost d: seq<byte>,
      ghost start: nat, ghost good: bool)
    returns (ok: bool, ns: seq<int>)
    requires rd.Valid() && Integers.Valid(t) && (w == 4 || w == 8) && total % w == 0 && rd.pos == start + 1
    requires good ==> |d| == total + 1 && start + |d| <= rd.size && rd.buffer[start..start + |d|] == d
    modifies rd`pos
    ensures rd.Valid() && rd.pos >= old(rd.pos)
    ensures good ==> ok && ns == ReadWords(Client, t, d[1..], w) && rd.pos == start + |d|
  {
    hide Fit, ReadWords, ReadWord;
    ns := [];
    ghost var body := if good then d[1..] else Zeros(total);
    ghost var all := ReadWords(Client, t, body, w);
    assert body[0..] == body && [] + all == all;
    var off := 0;
    while off < total
      invariant 0 <= off <= total && (total - off) % w == 0
      invariant rd.Valid() && rd.pos == start + 1 + off
      invariant good ==> ns + ReadWords(Client, t, body[off..], w) == all
    {
      WordAt(Client, t, body, w, off);
      var bytes;
      ok, bytes := rd.Take(w);
      if good {
        ElementBytes(rd.buffer, start, d, off + 1, w);
      }
      if !ok {
        return false, [];
      }
      ghost var rest := ReadWords(Client, t, body[off + w..], w);
      assert ns + ([Fit(t, ReadWord(Client, bytes))] + rest) == ns + [Fit(t, ReadWord(Client, bytes))] + rest;
      ns := ns + [Fit(t, ReadWord(Client, bytes))];
      off := off + w;
    }
    NoWords(Client, t, body[off..], w);
    assert ns + [] == ns;
    ok := true;
  }

  /** An element of the list, seen in the buffer and in the chunk. */
  lemma ElementBytes(buffer: seq<byte>, start: nat, d: seq<byte>, at: nat, w: nat)
    requires start + |d| <= |buffer| && buffer[start..start + |d|] == d && 1 <= at && at + w <= |d|
    ensures buffer[start + at..start + at + w] == d[1..][at - 1..at - 1 + w]
  {
    SliceOfSlice(buffer, start, start + |d|, at, at + w);
    assert d[at..at + w] == d[1..][at - 1..at - 1 + w];
  }

  method ReadBooleanList(rd: SprotoTypeReader, ghost d: seq<byte>) returns (ok: bool, bs: seq<bool>)
    requires rd.Valid()
    modifies rd`pos
    ensures rd.Valid() && rd.pos >= old(rd.pos)
    ensures old(AtChunk(rd, d)) ==> ok && bs == ReadBools(d) && rd.pos == old(rd.pos) + 4 + |d|
  {
    hide ReadChunk;
    ghost var good := AtChunk(rd, d);
    var sz;
    ok, sz := ReadSize(rd, d);
    if !ok {
      return false, [];
    }
    ghost var start := rd.pos;
    bs := [];
    assert d[0..] == d;
    for i := 0 to sz
      invariant rd.Valid() && rd.pos == start + i
      invariant good ==> bs + ReadBools(d[i..]) == ReadBools(d)
    {
      var v;
      ok, v := rd.ReadByte();
      if !ok {
        return false, [];
      }
      if good {
        assert d[i] == rd.buffer[start..start + |d|][i] == v;
        assert d[i..][1..] == d[i + 1..];
      }
      bs := bs + [v != 0];
    }
    ok := true;
  }

  method ReadString(rd: SprotoTypeReader, ghost d: seq<byte>) returns (ok: bool, s: seq<byte>)
    requires rd.Valid()
    modifies rd`pos
    ensures rd.Valid() && rd.pos >= old(rd.pos)
    ensures old(AtChunk(rd, d)) ==> ok && s == d && rd.pos == old(rd.pos) + 4 + |d|
  {
    hide ReadChunk;
    var sz;
    ok, sz := ReadSize(rd, d);
    if !ok {
      return false, [];
    }
    ok, s := rd.Read(sz);
  }

  method ReadStringList(rd: SprotoTypeReader, ghost d: seq<byte>) returns (ok: bool, ss: seq<seq<byte>>)
    requires rd.Valid()
    modifies rd`pos
    ensures rd.Valid() && rd.pos >= old(rd.pos)
    ensures old(AtChunk(rd, d)) && ReadStrs(d).Ok? ==>
      && ok && Ok(ss) == ReadStrs(d) && rd.pos == old(rd.pos) + 4 + |d|
  {
    hide ReadChunk, ReadStrs, FromLE, StrsLeft;
    ghost var good := AtChunk(rd, d) && ReadStrs(d).Ok?;
    var sz: int;
    ok, sz := ReadSize(rd, d);
    if !ok {
      return false, [];
    }
    ghost var start := rd.pos;
    ss := [];
    if good {
      StrsStart(d);
    }
    while sz > 0
      invariant rd.Valid() && rd.pos >= start
      invariant good ==> 0 <= sz <= |d| && rd.pos == start + |d| - sz && StrsLeft(d, sz, ss)
      decreases sz
    {
      ghost var c: seq<byte> := [];
      if good {
        c := StrsStep(d, sz, ss);
        SubChunk(rd.buffer, start, d, |d| - sz, rd.size, c);
      }
      if sz < 4 {
        return false, [];
      }
      var hsz;
      ok, hsz := ReadSize(rd, c);
      sz := sz - 4;
      if !ok || hsz > sz {
        return false, [];
      }
      var s;
      ok, s := rd.Read(hsz);
      if !ok {
        return false, [];
      }
      ss := ss + [s];
      sz := sz - hsz;
    }
    if good {
      StrsEnd(d, ss);
    }
    ok := true;
  }

  /** `ss` and the strings in the last `sz` bytes of `d` are those of `d`. */
  ghost predicate StrsLeft(d: seq<byte>, sz: int, ss: seq<seq<byte>>) {
    && 0 <= sz <= |d| && ReadStrs(d).Ok?
    && ReadStrs(d[|d| - sz..]).Ok? && ss + ReadStrs(d[|d| - sz..]).value == ReadStrs(d).value
  }

  lemma StrsStart(d: seq<byte>)
    requires ReadStrs(d).Ok?
    ensures StrsLeft(d, |d|, [])
  {
    hide ReadStrs;
    assert d[0..] == d && [] + ReadStrs(d).value == ReadStrs(d).value;
  }

  /** A readable list of strings starts with a chunk, and goes on after it. */
  lemma StrsStep(d: seq<byte>, sz: int, ss: seq<seq<byte>>) returns (c: seq<byte>)
    requires sz > 0 && StrsLeft(d, sz, ss)
    ensures sz >= 4 + |c| && ReadChunk(d[|d| - sz..]) == Ok(c)
    ensures StrsLeft(d, sz - (4 + |c|), ss + [c])
  {
    hide ReadChunk;
    var b := d[|d| - sz..];
    c := ReadChunk(b).value;
    var rest := d[|d| - (sz - (4 + |c|))..];
    assert b[4 + |c|..] == rest;
    assert ss + ([c] + ReadStrs(rest).value) == ss + [c] + ReadStrs(rest).value;
  }

  lemma StrsEnd(d: seq<byte>, ss: seq<seq<byte>>)
    requires StrsLeft(d, 0, ss)
    ensures ReadStrs(d) == Ok(ss)
  {
    assert d[|d|..] == [] && ss + [] == ss;
  }

  /** A chunk inside the chunk `d` is a chunk of the window. */
  lemma SubChunk(buffer: seq<byte>, start: nat, d: seq<byte>, at: nat, size: nat, c: seq<byte>)
    requires start + |d| <= size <= |buffer| && buffer[start..start + |d|] == d && at <= |d|
    requires ReadChunk(d[at..]) == Ok(c)
    ensures ReadChunk(buffer[start + at..size]) == Ok(c)
  {
    hide FromLE;
    var b := buffer[start + at..size];
    SliceOfSlice(buffer, start, start + |d|, at, at + 4);
    SliceOfSlice(buffer, start, start + |d|, at + 4, at + 4 + |c|);
    SliceOfSlice(buffer, start + at, size, 0, 4);
    SliceOfSlice(buffer, start + at, size, 4, 4 + |c|);
    assert d[at..][0..4] == d[at..at + 4];
    assert d[at..][4..4 + |c|] == d[at + 4..at + 4 + |c|];
  }

  // ----- objects

  ghost function Room(rd: SprotoTypeReader): (n: nat)
    reads rd
  {
    if rd.pos <= rd.size then rd.size - rd.pos else 0
  }

  /** A nested object is decoded through a window of its own. */
  method ReadObject(rd: SprotoTypeReader, s: Schema, id: nat, ghost d: seq<byte>) returns (r: Result<Msg>)
    requires rd.Valid() && SchemaOk(s) && id < |s.types|
    modifies rd`pos
    ensures rd.Valid() && rd.pos >= old(rd.pos)
    ensures old(AtChunk(rd, d)) && ReadObj(Client, s, id, d).Ok? ==>
      r == ReadObj(Client, s, id, d) && rd.pos == old(rd.pos) + 4 + |d|
    decreases Room(rd), 1
  {
    hide ReadChunk, Decode, SchemaOk;
    var ok, sz := ReadSize(rd, d);
    if !ok {
      return Err;
    }
    var offset := rd.pos;
    ok := rd.Seek(rd.pos - rd.begin + sz);
    if !ok {
      return Err;
    }
    var reader := new SprotoTypeReader();
    reader.Init(rd.buffer, offset, sz);
    r := DecodeObject(reader, s, id);
  }

  /** One element of a list of which `sz` bytes are left. */
  method ReadElement(rd: SprotoTypeReader, reader: SprotoTypeReader, s: Schema, id: nat, sz: int, ghost c: seq<byte>)
    returns (r: Result<Msg>, readSize: nat)
    requires rd.Valid() && reader.Valid() && reader != rd && SchemaOk(s) && id < |s.types|
    modifies rd`pos, reader
    ensures rd.Valid() && rd.pos >= old(rd.pos) && reader.Valid()
    ensures r.Ok? ==> 4 <= readSize <= sz
    ensures old(AtChunk(rd, c)) && ReadObj(Client, s, id, c).Ok? && sz >= 4 + |c| ==>
      r == ReadObj(Client, s, id, c) && readSize == 4 + |c| && rd.pos == old(rd.pos) + 4 + |c|
    decreases Room(rd), 1
  {
    hide ReadChunk, ReadObj, SchemaOk, FromLE;
    ObjIsDecode(s, id, c);
    readSize := 0;
    if sz < 4 {
      return Err, 0;
    }
    var ok, hsz := ReadSize(rd, c);
    if !ok || hsz > sz - 4 {
      return Err, 0;
    }
    var offset := rd.pos;
    ok := rd.Seek(rd.pos - rd.begin + hsz);
    if !ok {
      return Err, 0;
    }
    reader.Init(rd.buffer, offset, hsz);
    r := DecodeObject(reader, s, id);
    readSize := 4 + hsz;
  }

  /** The elements share one reader, set to a new window for each. */
  method ReadObjectList(rd: SprotoTypeReader, s: Schema, id: nat, ghost d: seq<byte>) returns (r: Result<seq<Elem>>)
    requires rd.Valid() && SchemaOk(s) && id < |s.types|
    modifies rd`pos
    ensures rd.Valid() && rd.pos >= old(rd.pos)
    ensures old(AtChunk(rd, d)) && ReadObjs(Client, s, id, d).Ok? ==>
      r == ReadObjs(Client, s, id, d) && rd.pos == old(rd.pos) + 4 + |d|
    decreases Room(rd), 2
  {
    hide ReadChunk, ReadObjs, ReadObj, SchemaOk, FromLE;
    ghost var good := AtChunk(rd, d) && ReadObjs(Client, s, id, d).Ok?;
    var ok, size := ReadSize(rd, d);
    if !ok {
      return Err;
    }
    var sz: int := size;
    ghost var start := rd.pos;
    var ms: seq<Elem> := [];
    ghost var all := if good then ReadObjs(Client, s, id, d).value else [];
    assert [] + all == all && (good ==> d[0..] == d);
    var reader := new SprotoTypeReader();
    while sz > 0
      invariant rd.Valid() && rd.pos >= start && reader != rd && fresh(reader) && reader.Valid()
      invariant good ==>
        && 0 <= sz <= |d| && rd.pos == start + |d| - sz
        && ReadObjs(Client, s, id, d[|d| - sz..]).Ok? && ms + ReadObjs(Client, s, id, d[|d| - sz..]).value == all
      decreases sz
    {
      ghost var c: seq<byte> := [];
      if good {
        c := ObjsStep(s, id, d[|d| - sz..]);
        SubChunk(rd.buffer, start, d, |d| - sz, rd.size, c);
      }
      var m, readSize := ReadElement(rd, reader, s, id, sz, c);
      if m.Err? {
        return Err;
      }
      if good {
        ObjsAdvance(s, id, d, sz, c, ms, all);
      }
      ms := ms + [Obj(m.value)];
      sz := sz - readSize;
    }
    if good {
      NoObjs(s, id, d[|d|..]);
      assert ms + [] == ms;
    }
    return Ok(ms);
  }

  lemma NoObjs(s: Schema, id: nat, d: seq<byte>)
    requires d == []
    ensures ReadObjs(Client, s, id, d) == Ok([])
  {
  }

  lemma ObjIsDecode(s: Schema, id: nat, c: seq<byte>)
    ensures ReadObj(Client, s, id, c).Ok? ==>
      Decode(Client, s, id, c).Ok? && ReadObj(Client, s, id, c).value == Decode(Client, s, id, c).value.m
  {
    hide Decode;
  }

  lemma ObjsStep(s: Schema, id: nat, d: seq<byte>) returns (c: seq<byte>)
    requires d != [] && ReadObjs(Client, s, id, d).Ok?
    ensures |d| >= 4 + |c| && ReadChunk(d) == Ok(c) && ReadObj(Client, s, id, c).Ok?
    ensures ReadObjs(Client, s, id, d[4 + |c|..]).Ok?
    ensures ReadObjs(Client, s, id, d).value
      == [Obj(ReadObj(Client, s, id, c).value)] + ReadObjs(Client, s, id, d[4 + |c|..]).value
  {
    hide ReadChunk, ReadObj;
    c := ReadChunk(d).value;
  }

  lemma ObjsAdvance(s: Schema, id: nat, d: seq<byte>, sz: nat, c: seq<byte>, ms: seq<Elem>, all: seq<Elem>)
    requires 4 + |c| <= sz <= |d| && ReadObjs(Client, s, id, d[|d| - sz..]).Ok? && ReadObj(Client, s, id, c).Ok?
    requires ReadObjs(Client, s, id, d[|d| - sz..][4 + |c|..]).Ok?
    requires ReadObjs(Client, s, id, d[|d| - sz..]).value
      == [Obj(ReadObj(Client, s, id, c).value)] + ReadObjs(Client, s, id, d[|d| - sz..][4 + |c|..]).value
    requires ms + ReadObjs(Client, s, id, d[|d| - sz..]).value == all
    ensures var left := sz - (4 + |c|);
      && ReadObjs(Client, s, id, d[|d| - left..]).Ok?
      && ms + [Obj(ReadObj(Client, s, id, c).value)] + ReadObjs(Client, s, id, d[|d| - left..]).value == all
  {
    hide *;
    assert d[|d| - sz..][4 + |c|..] == d[|d| - (sz - (4 + |c|))..];
  }

  /** What `ReadTag` left for a field: an embedded value, or the chunk at the position. */
  ghost predicate AtPayload(rd: SprotoTypeReader, value: int, p: Payload)
    reads rd
  {
    match p
    case Small(v) => value == v && rd.Valid() && rd.pos <= rd.size
    case Chunk(d) => value == -1 && AtChunk(rd, d)
  }

  ghost function DataOf(p: Payload): (d: seq<byte>) {
    match p
    case Small(_) => []
    case Chunk(d) => d
  }

  method ReadField(rd: SprotoTypeReader, s: Schema, k: Kind, value: int, ghost p: Payload,
      ghost n: nat) returns (r: Result<Value>)
    requires rd.Valid() && SchemaOk(s) && KindOk(s, k) && (p.Chunk? ==> |p.data| < n) && value >= -1
    modifies rd`pos
    ensures rd.Valid() && rd.pos >= old(rd.pos)
    ensures old(AtPayload(rd, value, p)) && ReadValue(Client, s, k, p, n).Ok? ==>
      r == ReadValue(Client, s, k, p, n) && rd.pos == old(rd.pos) + |ChunkBytes(p)|
    decreases Room(rd), 3
  {
    hide ReadInt, ReadList, ReadStrs, ReadBools, ReadObj, ReadObjs, SchemaOk, ReadChunk, LE;
    ghost var d := DataOf(p);
    match k
    case KBool =>
      return if value < 0 then Err else Ok(VBool(value != 0));
    case KInt(t) =>
      var ok, i := ReadInteger(rd, t, value, d);
      return if ok then Ok(VInt(i)) else Err;
    case KStr =>
      var ok, b := ReadString(rd, d);
      return if ok then Ok(VStr(b)) else Err;
    case KBytes =>
      var ok, b := ReadString(rd, d);
      return if ok then Ok(VBytes(b)) else Err;
    case KBools =>
      if value >= 0 {
        return Err;
      }
      var ok, bs := ReadBooleanList(rd, d);
      return if ok then Ok(VBools(bs)) else Err;
    case KInts(t) =>
      if value >= 0 {
        return Err;
      }
      var ok, ns := ReadIntegerList(rd, t, d);
      return if ok then Ok(VInts(ns)) else Err;
    case KStrs =>
      if value >= 0 {
        return Err;
      }
      var ok, ss := ReadStringList(rd, d);
      return if ok then Ok(VStrs(ss)) else Err;
    case KObj(id) =>
      var m := ReadObject(rd, s, id, d);
      return if m.Ok? then Ok(VObj(m.value)) else Err;
    case KObjs(id) =>
      if value >= 0 {
        return Err;
      }
      var ms := ReadObjectList(rd, s, id, d);
      return if ms.Ok? then Ok(VObjs(ms.value)) else Err;
  }

  /** Passes over the data of a field the class does not know. */
  method SkipUnknown(rd: SprotoTypeReader, value: int, ghost p: Payload) returns (ok: bool)
    requires rd.Valid() && value >= -1
    modifies rd`pos
    ensures rd.Valid() && rd.pos >= old(rd.pos)
    ensures old(AtPayload(rd, value, p)) ==> ok && rd.pos == old(rd.pos) + |ChunkBytes(p)|
  {
    hide ReadChunk, LE;
    ok := true;
    if value < 0 {
      var sz;
      ok, sz := ReadSize(rd, DataOf(p));
      if ok {
        ok := rd.Seek(sz + (rd.pos - rd.begin));
      }
    }
  }

  /** One turn of a generated class's decode loop. */
  /** The field with tag `t`, if there is one, can be read from `p`. */
  ghost predicate Accepts(s: Schema, fs: seq<Field>, t: nat, p: Payload, n: nat)
    requires (p.Chunk? ==> |p.data| < n) && forall k :: 0 <= k < |fs| ==> KindOk(s, fs[k].kind)
  {
    var k := FindTag(fs, t);
    k.Some? ==> ReadValue(Client, s, fs[k.value].kind, p, n).Ok?
  }

  ghost function Stored(s: Schema, fs: seq<Field>, acc: seq<Option<Value>>, t: nat, p: Payload, n: nat)
    : (next: seq<Option<Value>>)
    requires (p.Chunk? ==> |p.data| < n) && forall k :: 0 <= k < |fs| ==> KindOk(s, fs[k].kind)
    requires |acc| == |fs| && Accepts(s, fs, t, p, n)
    ensures |next| == |fs|
  {
    var k := FindTag(fs, t);
    if k.None? then acc else acc[k.value := Some(ReadValue(Client, s, fs[k.value].kind, p, n).value)]
  }

  method SetField(rd: SprotoTypeReader, s: Schema, fs: seq<Field>, acc: seq<Option<Value>>, t: nat,
      value: int, ghost p: Payload, ghost n: nat)
    returns (ok: bool, next: seq<Option<Value>>)
    requires rd.Valid() && SchemaOk(s) && |acc| == |fs| && forall k :: 0 <= k < |fs| ==> KindOk(s, fs[k].kind)
    requires (p.Chunk? ==> |p.data| < n) && value >= -1
    modifies rd`pos
    ensures rd.Valid() && rd.pos >= old(rd.pos) && |next| == |fs|
    ensures old(AtPayload(rd, value, p)) && Accepts(s, fs, t, p, n) ==>
      ok && next == Stored(s, fs, acc, t, p, n) && rd.pos == old(rd.pos) + |ChunkBytes(p)|
    decreases Room(rd), 4
  {
    hide FindTag, ReadValue, ReadChunk, KindOk, AtPayload, ChunkBytes, SchemaOk;
    next := acc;
    var k := FindTag(fs, t);
    if k.None? {
      ok := SkipUnknown(rd, value, p);
    } else {
      var v := ReadField(rd, s, fs[k.value].kind, value, p, n);
      ok := v.Ok?;
      if ok {
        next := acc[k.value := Some(v.value)];
      }
    }
  }

  /** Decodes the object in the reader's window: every byte sequence the format
      accepts gives the expected message. */
  method DecodeObject(rd: SprotoTypeReader, s: Schema, id: nat) returns (r: Result<Msg>)
    requires rd.Valid() && rd.pos == rd.begin && SchemaOk(s) && id < |s.types|
    modifies rd`pos
    ensures rd.Valid()
    ensures Decode(Client, s, id, rd.Window()).Ok? ==> r == Ok(Decode(Client, s, id, rd.Window()).value.m)
    decreases Room(rd), 0
  {
    hide Marks, ReadRecords, U16, Remaining, FindTag, ReadValue, ReadChunk, KindOk, Defaults, Decode,
      AtPayload, ChunkBytes, MarksFrom, ReadObj, TakeChunks, DecodeItems;
    ghost var w := rd.Window();
    ghost var goal := Decode(Client, s, id, w);
    var de := new SprotoTypeDeserialize(rd);
    var ok := de.Init();
    if goal.Ok? {
      HeaderRead(s, id, w);
    }
    if !ok {
      return Err;
    }
    var fs := s.types[id];
    var acc := Defaults(Client, fs);
    RemainingStart(Client, s, id, w, de.Left(), rd.pos - rd.begin);
    WindowRest(rd.buffer, rd.begin, rd.pos, rd.size);
    while true
      invariant fresh(de) && de.reader == rd && OnTrack(de, s, id, acc, w, goal)
      decreases |de.Left()|
    {
      var more;
      ok, more, acc := DecodeNext(de, s, id, acc, w, goal);
      if !ok {
        return Err;
      }
      if !more {
        return Ok(Msg(acc));
      }
    }
  }

  /** Between two fields: the fields to come, read into `acc`, give the whole message. */
  ghost predicate OnTrack(de: SprotoTypeDeserialize, s: Schema, id: nat, acc: seq<Option<Value>>,
      w: seq<byte>, goal: Result<Decoded>)
    reads de, de.reader
  {
    var rd := de.reader;
    && SchemaOk(s) && id < |s.types| && |acc| == |s.types[id]|
    && de.Ready() && rd.Window() == w && rd.begin + 2 <= rd.pos
    && (goal.Ok? ==>
          && rd.pos <= rd.size && w[rd.pos - rd.begin..] == rd.Rest()
          && Remaining(Client, s, id, w[rd.pos - rd.begin..], de.Left(), acc, rd.pos - rd.begin, |w|) == goal)
  }

  method DecodeNext(de: SprotoTypeDeserialize, s: Schema, id: nat, acc: seq<Option<Value>>,
      ghost w: seq<byte>, ghost goal: Result<Decoded>)
    returns (ok: bool, more: bool, next: seq<Option<Value>>)
    requires OnTrack(de, s, id, acc, w, goal)
    modifies de`tag, de`value, de`curFieldPos, de.reader`pos
    ensures de.reader.Valid() && |next| == |s.types[id]|
    ensures goal.Ok? ==> ok && (!more ==> goal.value.m == Msg(next))
    ensures ok && more ==> OnTrack(de, s, id, next, w, goal) && |de.Left()| < |old(de.Left())|
    decreases Room(de.reader), 5
  {
    hide Marks, ReadRecords, U16, Remaining, FindTag, ReadValue, ReadChunk, KindOk, Defaults, Decode,
      AtPayload, ChunkBytes, MarksFrom, ReadObj, TakeChunks, DecodeItems, SchemaOk, Accepts, Stored;
    var rd, fs := de.reader, s.types[id];
    KindsOk(s, id);
    ghost var ms, total := de.Left(), rd.pos - rd.begin;
    var t;
    ok, t := de.ReadTag();
    if !ok {
      return false, false, acc;
    }
    if t == -1 {
      if goal.Ok? {
        RemainingEnd(Client, s, id, w[total..], ms, acc, total, |w|);
      }
      return true, false, acc;
    }
    ghost var p := Small(0);
    if goal.Ok? {
      p := NextPayload(s, id, w[total..], ms, acc, total, |w|, rd, de.value);
    }
    ok, next := SetField(rd, s, fs, acc, t, de.value, p, |w|);
    if ok && goal.Ok? {
      WindowRest(rd.buffer, rd.begin, rd.pos, rd.size);
      DropTwice(w, total, |ChunkBytes(p)|);
    }
    more := true;
  }

  lemma KindsOk(s: Schema, id: nat)
    requires SchemaOk(s) && id < |s.types|
    ensures forall k :: 0 <= k < |s.types[id]| ==> KindOk(s, s.types[id][k].kind)
  {
  }

  lemma DropTwice(w: seq<byte>, i: nat, j: nat)
    requires i + j <= |w|
    ensures w[i..][j..] == w[i + j..]
  {
  }

  lemma HeaderRead(s: Schema, id: nat, w: seq<byte>)
    requires Decode(Client, s, id, w).Ok?
    ensures |w| >= 2 && |w| >= 2 + 2 * U16(w, 0)
  {
    hide U16, Marks, ReadRecords, TakeChunks, Store;
  }

  lemma WindowRest(buffer: seq<byte>, begin: nat, pos: nat, size: nat)
    requires begin <= pos <= size <= |buffer|
    ensures buffer[begin..size][pos - begin..] == buffer[pos..size]
  {
    SliceOfSlice(buffer, begin, size, pos - begin, size - begin);
  }

  /** A message that can be decoded has a readable payload for its next field. */
  lemma NextPayload(s: Schema, id: nat, rest: seq<byte>, ms: seq<Mark>, acc: seq<Option<Value>>, total: nat,
      n: nat, rd: SprotoTypeReader, value: int)
    returns (p: Payload)
    requires id < |s.types| && |acc| == |s.types[id]| && |rest| < n && ms != []
    requires forall k :: 0 <= k < |s.types[id]| ==> KindOk(s, s.types[id][k].kind)
    requires Remaining(Client, s, id, rest, ms, acc, total, n).Ok?
    requires rd.Valid() && rd.pos <= rd.size && rd.Rest() == rest
    requires value == if ms[0].small.Some? then ms[0].small.value else -1
    ensures AtPayload(rd, value, p) && (p.Chunk? ==> |p.data| < n) && |ChunkBytes(p)| <= |rest|
    ensures Accepts(s, s.types[id], ms[0].tag, p, n)
    ensures var used := |ChunkBytes(p)|;
      Remaining(Client, s, id, rest, ms, acc, total, n)
      == Remaining(Client, s, id, rest[used..], ms[1..], Stored(s, s.types[id], acc, ms[0].tag, p, n), total + used, n)
  {
    hide Remaining, ReadChunk, FindTag, KindOk, ReadValue, LE;
    RemainingStep(Client, s, id, rest, ms, acc, total, n);
    if ms[0].small.Some? {
      p := Small(ms[0].small.value);
    } else {
      p := Chunk(ReadChunk(rest).value);
    }
  }

  /** SprotoTypeBase.init on a whole array. */
  method DecodeBytes(s: Schema, id: nat, data: seq<byte>) returns (r: Result<Msg>)
    requires SchemaOk(s) && id < |s.types|
    ensures Decode(Client, s, id, data).Ok? ==> r == Ok(Decode(Client, s, id, data).value.m)
  {
    hide Decode, SchemaOk;
    var rd := new SprotoTypeReader();
    rd.Init(data, 0, |data|);
    assert rd.Window() == data;
    r := DecodeObject(rd, s, id);
  }
}
