/** The server's decoder, with its loops. */
module GoDecode {
  import opened Bytes
  import opened Wire
  import opened Integers
  import opened Codec

  /** Reads the record count and the records; skips move the 16-bit tag on. */
  method DecodeHeader(chunk: seq<byte>) returns (r: Result<(nat, seq<Mark>)>)
    ensures r == if |chunk| < 2 || |chunk| < 2 + 2 * U16(chunk, 0) then Err
                 else Ok((2 + 2 * U16(chunk, 0), Marks(Go, 0, ReadRecords(chunk[2..], U16(chunk, 0)))))
  {
    hide U16, Marks, ReadRecords;
    if |chunk| < 2 {
      return Err;
    }
    var fn := U16(chunk, 0);
    var expected := 2 + fn * 2;
    if |chunk| < expected {
      return Err;
    }
    ghost var goal := Marks(Go, 0, ReadRecords(chunk[2..], fn));
    var tags: seq<Mark> := [];
    var tag: nat := 0;
    assert [] + goal == goal;
    for i := 0 to fn
      invariant tags + Marks(Go, tag, ReadRecords(chunk[2 + 2 * i..], fn - i)) == goal
    {
      var v := U16(chunk, (i + 1) * 2);
      RecordAt(chunk, i, fn, tag, v);
      if v % 2 != 0 {
        tag := (tag + (v + 1) % TWO_16 / 2) % TWO_16;
      } else {
        var val := if v != 0 then Some(v / 2 - 1) else None;
        ghost var rest := Marks(Go, (tag + 1) % TWO_16, ReadRecords(chunk[2 + 2 * (i + 1)..], fn - i - 1));
        assert tags + ([Mark(tag, val)] + rest) == tags + [Mark(tag, val)] + rest;
        tags := tags + [Mark(tag, val)];
        tag := (tag + 1) % TWO_16;
      }
    }
    NoRecords(tag, chunk[2 + 2 * fn..]);
    assert tags + [] == tags;
    return Ok((expected, tags));
  }

  lemma NoRecords(tag: nat, b: seq<byte>)
    ensures Marks(Go, tag, ReadRecords(b, 0)) == []
  {
  }

  lemma RecordAt(chunk: seq<byte>, i: nat, fn: nat, tag: nat, v: nat)
    requires i < fn && 2 + 2 * fn <= |chunk| && v == U16(chunk, (i + 1) * 2)
    ensures var next := ReadRecords(chunk[2 + 2 * (i + 1)..], fn - i - 1);
      Marks(Go, tag, ReadRecords(chunk[2 + 2 * i..], fn - i)) ==
        if v % 2 != 0 then Marks(Go, (tag + (v + 1) % TWO_16 / 2) % TWO_16, next)
        else [Mark(tag, if v != 0 then Some(v / 2 - 1) else None)] + Marks(Go, (tag + 1) % TWO_16, next)
  {
    hide FromLE;
    var b := chunk[2 + 2 * i..];
    assert b[0..2] == chunk[(i + 1) * 2..(i + 1) * 2 + 2];
    assert b[2..] == chunk[2 + 2 * (i + 1)..];
    var rs := ReadRecords(b, fn - i);
    assert rs[0] == v && rs[1..] == ReadRecords(chunk[2 + 2 * (i + 1)..], fn - i - 1);
  }

  method DecodeBoolSlice(data: seq<byte>) returns (vals: seq<bool>)
    ensures vals == ReadBools(data)
  {
    vals := [];
    assert data[0..] == data;
    for i := 0 to |data|
      invariant vals + ReadBools(data[i..]) == ReadBools(data)
    {
      assert data[i..][1..] == data[i + 1..];
      vals := vals + [data[i] != 0];
    }
  }

  method DecodeIntSlice(t: IntType, data: seq<byte>) returns (r: Result<seq<int>>)
    requires Integers.Valid(t)
    ensures r == ReadList(Go, t, data)
  {
    hide FromLE, Fit, ReadWords, WidthOk;
    var dataLen := |data|;
    if dataLen < 1 {
      return Err;
    }
    var intLen: int := data[0];
    WidthsAre(intLen, dataLen - 1);
    if intLen == 0 || (dataLen - 1) % intLen != 0 {
      return Err;
    }
    r := Elements(t, data[1..], intLen, WidthOk(Go, intLen, dataLen - 1));
  }

  /** The elements of a list, read at their places; an element that is cut short fails. */
  method Elements(t: IntType, body: seq<byte>, w: nat, ghost good: bool) returns (r: Result<seq<int>>)
    requires Integers.Valid(t) && w > 0
    requires if good then WidthOk(Go, w, |body|) else w < 8 && w != 4 && body != []
    ensures r == if good then Ok(ReadWords(Go, t, body, w)) else Err
  {
    hide FromLE, Fit, ReadWords, WidthOk;
    var vals: seq<int> := [];
    ghost var all := if good then ReadWords(Go, t, body, w) else [];
    assert body[0..] == body && [] + all == all;
    var off := 0;
    while off < |body|
      invariant 0 <= off <= |body|
      invariant !good ==> off < |body|
      invariant good ==> WidthOk(Go, w, |body| - off) && vals + ReadWords(Go, t, body[off..], w) == all
    {
      if good {
        WordAt(Go, t, body, w, off);
        Enough(w, |body| - off);
      }
      var sz := if w == 4 then 4 else 8;
      if off + sz > |body| {
        return Err;
      }
      var n := FromLE(body[off..off + sz]);
      if good {
        SliceOfSlice(body, off, off + w, 0, sz);
        FirstWord(body[off..off + w], sz);
        Joined(vals, Fit(t, n), ReadWords(Go, t, body[off + w..], w));
      }
      vals := vals + [Fit(t, n)];
      off := off + w;
    }
    NoWords(Go, t, body[off..], w);
    assert vals + [] == vals;
    return Ok(vals);
  }

  lemma Joined(a: seq<int>, n: int, b: seq<int>)
    ensures a + ([n] + b) == a + [n] + b
  {
  }

  lemma Enough(w: nat, n: nat)
    requires WidthOk(Go, w, n) && n > 0
    ensures w == 4 || w >= 8
  {
  }

  lemma WidthsAre(w: nat, n: nat)
    ensures WidthOk(Go, w, n) <==> w > 0 && n % w == 0 && (w == 4 || w >= 8 || n == 0)
  {
  }

  lemma FirstWord(b: seq<byte>, sz: nat)
    requires |b| == sz == 4 || (|b| >= sz == 8)
    ensures ReadWord(Go, b) == FromLE(b[..sz])
  {
    assert b[..|b|] == b;
  }

  method DecodeStringSlice(input: seq<byte>) returns (r: Result<seq<seq<byte>>>)
    ensures r == ReadStrs(input)
  {
    hide ReadChunk;
    var vals: seq<seq<byte>> := [];
    var data := input;
    ghost var goal := ReadStrs(input);
    if goal.Ok? {
      assert [] + goal.value == goal.value;
    }
    while |data| > 0
      invariant match ReadStrs(data) case Err => goal == Err case Ok(rest) => goal == Ok(vals + rest)
      decreases |data|
    {
      var c := ReadChunk(data);
      if c.Err? {
        return Err;
      }
      ghost var next := ReadStrs(data[4 + |c.value|..]);
      if next.Ok? {
        assert vals + ([c.value] + next.value) == vals + [c.value] + next.value;
      }
      vals := vals + [c.value];
      data := data[4 + |c.value|..];
    }
    assert vals + [] == vals;
    return Ok(vals);
  }

  method DecodeStruct(s: Schema, id: nat, data: seq<byte>) returns (r: Result<Msg>)
    requires id < |s.types| && SchemaOk(s)
    ensures r == ReadObj(Go, s, id, data)
    decreases |data|, 3
  {
    hide Decode, SchemaOk;
    var d := DecodeMessage(s, id, data);
    if d.Err? {
      return Err;
    }
    if d.value.used != |data| {
      return Err;
    }
    return Ok(d.value.m);
  }

  method DecodeStructSlice(s: Schema, id: nat, input: seq<byte>) returns (r: Result<seq<Elem>>)
    requires id < |s.types| && SchemaOk(s)
    ensures r == ReadObjs(Go, s, id, input)
    decreases |input|, 4
  {
    hide ReadChunk, ReadObj, SchemaOk;
    var vals: seq<Elem> := [];
    var data := input;
    ghost var goal := ReadObjs(Go, s, id, input);
    if goal.Ok? {
      assert [] + goal.value == goal.value;
    }
    while |data| > 0
      invariant |data| <= |input|
      invariant match ReadObjs(Go, s, id, data) case Err => goal == Err case Ok(rest) => goal == Ok(vals + rest)
      decreases |data|
    {
      var c := ReadChunk(data);
      if c.Err? {
        return Err;
      }
      var m := DecodeStruct(s, id, c.value);
      if m.Err? {
        return Err;
      }
      ghost var next := ReadObjs(Go, s, id, data[4 + |c.value|..]);
      if next.Ok? {
        assert vals + ([Obj(m.value)] + next.value) == vals + [Obj(m.value)] + next.value;
      }
      vals := vals + [Obj(m.value)];
      data := data[4 + |c.value|..];
    }
    assert vals + [] == vals;
    return Ok(vals);
  }

  method DecodeField(s: Schema, k: Kind, p: Payload, ghost n: nat) returns (r: Result<Value>)
    requires SchemaOk(s) && KindOk(s, k) && (p.Chunk? ==> |p.data| < n)
    ensures r == ReadValue(Go, s, k, p, n)
    decreases n, 0
  {
    hide ReadInt, ReadList, ReadStrs, ReadBools, ReadObj, ReadObjs, SchemaOk;
    var data := if p.Small? then [] else p.data;
    match k
    case KBool => return if p.Small? then Ok(VBool(p.n != 0)) else Err;
    case KInt(t) =>
      var v := ReadInt(Go, t, p);
      return if v.Err? then Err else Ok(VInt(v.value));
    case KStr => return Ok(VStr(data));
    case KBytes => return Ok(VBytes(data));
    case KBools =>
      var bs := DecodeBoolSlice(data);
      return Ok(VBools(bs));
    case KInts(t) =>
      var v := DecodeIntSlice(t, data);
      if p.Small? {
        EmptyList(t);
      }
      return if v.Err? then Err else Ok(VInts(v.value));
    case KStrs =>
      var v := DecodeStringSlice(data);
      return if v.Err? then Err else Ok(VStrs(v.value));
    case KObj(id) =>
      if p.Small? {
        return Err;
      }
      var v := DecodeStruct(s, id, data);
      return if v.Err? then Err else Ok(VObj(v.value));
    case KObjs(id) =>
      if p.Small? {
        return Ok(VObjs([]));
      }
      var v := DecodeStructSlice(s, id, data);
      return if v.Err? then Err else Ok(VObjs(v.value));
  }

  lemma EmptyList(t: IntType)
    requires Integers.Valid(t)
    ensures ReadList(Go, t, []) == Err
  {
  }

  method DecodeMessage(s: Schema, id: nat, chunk: seq<byte>) returns (r: Result<Decoded>)
    requires id < |s.types| && SchemaOk(s)
    ensures r == Decode(Go, s, id, chunk)
    decreases |chunk|, 2
  {
    hide Marks, ReadRecords, U16, Remaining, Store, TakeChunks, FindTag, ReadValue, ReadChunk, KindOk, Defaults;
    var h := DecodeHeader(chunk);
    if h.Err? {
      return Err;
    }
    var total, tags := h.value.0, h.value.1;
    var fs := s.types[id];
    var acc := Defaults(Go, fs);
    ghost var goal := Decode(Go, s, id, chunk);
    RemainingStart(Go, s, id, chunk, tags, total);
    assert tags[0..] == tags;
    for i := 0 to |tags|
      invariant 2 <= total <= |chunk| && |acc| == |fs|
      invariant Remaining(Go, s, id, chunk[total..], tags[i..], acc, total, |chunk|) == goal
    {
      var tag := tags[i];
      var rest := chunk[total..];
      RemainingStep(Go, s, id, rest, tags[i..], acc, total, |chunk|);
      assert tags[i..][1..] == tags[i + 1..];
      var p := Small(0);
      var used := 0;
      if tag.small.None? {
        var c := ReadChunk(rest);
        if c.Err? {
          return Err;
        }
        used := 4 + |c.value|;
        p := Chunk(c.value);
      } else {
        p := Small(tag.small.value);
      }
      assert rest[used..] == chunk[total + used..];
      total := total + used;
      var k := FindTag(fs, tag.tag);
      if k.Some? {
        var v := DecodeField(s, fs[k.value].kind, p, |chunk|);
        if v.Err? {
          return Err;
        }
        acc := acc[k.value := Some(v.value)];
      }
    }
    RemainingEnd(Go, s, id, chunk[total..], tags[|tags|..], acc, total, |chunk|);
    return Ok(Decoded(Msg(acc), total));
  }
}
