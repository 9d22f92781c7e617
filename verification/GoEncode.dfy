/** The server's encoder, with its loops and buffers. */
module GoEncode {
  import opened Bytes
  import opened Wire
  import opened Integers
  import opened Codec
  import GoPack

  /** Two passes: find the width, then write every element with it. */
  method EncodeIntSlice(t: IntType, ns: seq<int>) returns (r: seq<byte>)
    ensures r == ListBytes(Go, t, ns)
  {
    hide Width, Words, LE, GoPack.Patched;
    var vals := new nat[|ns|];
    var intLen := 4;
    for i := 0 to |ns|
      invariant forall j :: 0 <= j < i ==> vals[j] == Word(ns[j])
      invariant intLen == 4 || intLen == 8
      invariant intLen == 8 <==> exists j :: 0 <= j < i && Wide(Go, t, ns[j])
    {
      var n, sz := Word(ns[i]), Width(Go, t, ns[i]);
      assert Wide(Go, t, ns[i]) <==> sz == 8;
      if sz > intLen {
        intLen := sz;
      }
      vals[i] := n;
    }
    assert intLen == ListWidth(Go, t, ns);
    var buf := new byte[1 + intLen * |ns|];
    buf[0] := intLen;
    var offset := 1;
    WordsNone(intLen);
    for i := 0 to |ns|
      invariant offset == 1 + intLen * i
      invariant forall j :: 0 <= j < |ns| ==> vals[j] == Word(ns[j])
      invariant buf[..offset] == [intLen] + Words(ns[..i], intLen)
    {
      Room(intLen, i, |ns|);
      WordsSnoc(ns, i, intLen);
      ghost var was := buf[..];
      GoPack.CopyInto(buf, offset, LE(vals[i], intLen));
      Extended(was, buf[..], offset, LE(vals[i], intLen));
      offset := offset + intLen;
    }
    assert ns[..|ns|] == ns;
    assert buf[..offset] == buf[..];
    return buf[..];
  }

  lemma WordsNone(w: nat)
    ensures Words([], w) == []
  {
  }

  lemma Room(w: nat, i: nat, n: nat)
    requires (w == 4 || w == 8) && i < n
    ensures 1 + w * i + w == 1 + w * (i + 1) <= 1 + w * n
  {
  }

  /** A write at the end of the bytes written so far extends them. */
  lemma Extended(was: seq<byte>, buf: seq<byte>, at: nat, lit: seq<byte>)
    requires GoPack.Patched(was, buf, at, lit)
    ensures |buf| == |was| && at + |lit| <= |buf|
    ensures buf[..at + |lit|] == was[..at] + lit
  {
    assert buf[..at + |lit|] == buf[..at] + buf[at..at + |lit|];
  }

  method EncodeBoolSlice(bs: seq<bool>) returns (r: seq<byte>)
    ensures r == BoolBytes(bs)
  {
    var buf := new byte[|bs|];
    for i := 0 to |bs|
      invariant forall j :: 0 <= j < i ==> buf[j] == if bs[j] then 1 else 0
    {
      buf[i] := if bs[i] then 1 else 0;
    }
    BoolBytesAre(bs, buf[..]);
    return buf[..];
  }

  lemma {:induction false} BoolBytesAre(bs: seq<bool>, b: seq<byte>)
    requires |b| == |bs| && forall j :: 0 <= j < |bs| ==> b[j] == if bs[j] then 1 else 0
    ensures b == BoolBytes(bs)
  {
    if bs != [] {
      BoolBytesAre(bs[1..], b[1..]);
    }
  }

  /** Length-prefixed chunks one after the other, the buffer sized beforehand. */
  method EncodeChunks(vals: seq<seq<byte>>) returns (r: seq<byte>)
    ensures r == StrBytes(vals)
  {
    hide LE, GoPack.Patched;
    var sz: nat := 0;
    assert vals[0..] == vals;
    ChunksNone();
    for i := 0 to |vals|
      invariant sz + |StrBytes(vals[i..])| == |StrBytes(vals)|
    {
      ChunksStep(vals, i);
      sz := sz + 4 + |vals[i]|;
    }
    var buf := new byte[sz];
    var offset: nat := 0;
    assert buf[..0] + StrBytes(vals) == StrBytes(vals);
    for i := 0 to |vals|
      invariant offset <= sz && buf[..offset] + StrBytes(vals[i..]) == StrBytes(vals)
    {
      ChunksStep(vals, i);
      ghost var b0 := buf[..];
      ChunkFits(buf[..offset], vals, i);
      GoPack.CopyInto(buf, offset, LE(|vals[i]|, 4));
      Extended(b0, buf[..], offset, LE(|vals[i]|, 4));
      ghost var b1 := buf[..];
      GoPack.CopyInto(buf, offset + 4, vals[i]);
      Extended(b1, buf[..], offset + 4, vals[i]);
      offset := offset + 4 + |vals[i]|;
    }
    assert buf[..offset] + [] == buf[..offset];
    return buf[..offset];
  }

  lemma ChunkFits(done: seq<byte>, vals: seq<seq<byte>>, i: nat)
    requires i < |vals|
    ensures |done| + 4 + |vals[i]| <= |done + StrBytes(vals[i..])|
    ensures done + StrBytes(vals[i..]) == done + LE(|vals[i]|, 4) + vals[i] + StrBytes(vals[i + 1..])
  {
    hide StrBytes, LE;
    ChunksStep(vals, i);
  }

  lemma ChunksStep(vals: seq<seq<byte>>, i: nat)
    requires i < |vals|
    ensures StrBytes(vals[i..]) == LE(|vals[i]|, 4) + vals[i] + StrBytes(vals[i + 1..])
  {
    assert vals[i..][1..] == vals[i + 1..];
  }

  lemma ChunksNone()
    ensures StrBytes([]) == []
  {
  }

  function Elems(s: Schema, id: nat, ms: seq<Elem>): (r: seq<seq<byte>>)
    ensures |r| == |ms|
  {
    seq(|ms|, i requires 0 <= i < |ms| => ElemBytes(Go, s, id, ms[i]))
  }

  lemma {:induction false} ObjBytesAre(s: Schema, id: nat, ms: seq<Elem>)
    ensures ObjBytes(Go, s, id, ms) == StrBytes(Elems(s, id, ms))
    decreases |ms|
  {
    hide ElemBytes, LE;
    if ms != [] {
      ObjBytesAre(s, id, ms[1..]);
      assert Elems(s, id, ms)[1..] == Elems(s, id, ms[1..]);
    }
  }

  method EncodeStructSlice(s: Schema, id: nat, ms: seq<Elem>) returns (r: seq<byte>)
    requires SchemaOk(s) && id < |s.types| && forall i :: 0 <= i < |ms| && ms[i].Obj? ==> Typed(s, id, ms[i].m)
    ensures r == ObjBytes(Go, s, id, ms)
    decreases ms, 1
  {
    hide ElemBytes, ObjBytes, StrBytes, Typed;
    var vals := [];
    for i := 0 to |ms|
      invariant |vals| == i && forall j :: 0 <= j < i ==> vals[j] == ElemBytes(Go, s, id, ms[j])
    {
      var val := EncodeElem(s, id, ms[i]);
      vals := vals + [val];
    }
    assert vals == Elems(s, id, ms);
    ObjBytesAre(s, id, ms);
    r := EncodeChunks(vals);
  }

  method EncodeHeaders(headers: seq<nat>, reserved: nat) returns (buf: array<byte>, len: nat)
    ensures fresh(buf) && len == 2 + 2 * |headers| && buf.Length == len + reserved
    ensures buf[..len] == LE(|headers|, 2) + RecordBytes(headers)
  {
    hide LE, GoPack.Patched, RecordBytes;
    buf := new byte[(|headers| + 1) * 2 + reserved];
    ghost var b0 := buf[..];
    GoPack.CopyInto(buf, 0, LE(|headers|, 2));
    Extended(b0, buf[..], 0, LE(|headers|, 2));
    len := 2;
    RecordsNone();
    assert headers[..0] == [];
    for i := 0 to |headers|
      invariant len == 2 + 2 * i && buf[..len] == LE(|headers|, 2) + RecordBytes(headers[..i])
    {
      ghost var was := buf[..];
      GoPack.CopyInto(buf, len, LE(headers[i], 2));
      Extended(was, buf[..], len, LE(headers[i], 2));
      RecordSnoc(headers[..i], headers[i]);
      assert headers[..i + 1] == headers[..i] + [headers[i]];
      len := len + 2;
    }
    assert headers[..|headers|] == headers;
  }

  lemma RecordsNone()
    ensures RecordBytes([]) == []
  {
  }

  /** The encoded data of a field, or none when the header carries the value. */
  method EncodeField(s: Schema, k: Kind, v: Value) returns (data: Option<seq<byte>>)
    requires SchemaOk(s) && KindOk(s, k) && HasKind(s, k, v)
    ensures data == match PayloadOf(Go, s, k, v) case Small(_) => None case Chunk(d) => Some(d)
    decreases v, 1
  {
    hide ElemBytes, ObjBytes, StrBytes, BoolBytes, ListBytes, Typed, Encode, AllInRange, InRange, LE;
    match v
    case VBool(_) => return None;
    case VInt(n) => return if Word(n) <= MAX_SMALL then None else Some(LE(Word(n), Width(Go, k.t, n)));
    case VStr(b) => return Some(b);
    case VBytes(b) => return Some(b);
    case VObj(m) =>
      var b := EncodeMessage(s, k.id, m);
      return Some(b);
    case VBools(bs) => var b := EncodeBoolSlice(bs); return Some(b);
    case VInts(ns) => var b := EncodeIntSlice(k.t, ns); return Some(b);
    case VStrs(ss) => var b := EncodeChunks(ss); return Some(b);
    case VObjs(ms) => var b := EncodeStructSlice(s, k.id, ms); return Some(b);
  }

  /** headerEncodeBool, headerEncodeInt and headerEncodeDefault. */
  function HeaderEnc(v: Option<Value>): (r: (nat, bool)) {
    match v
    case None => (0, true)
    case Some(VBool(b)) => if b then (4, false) else (0, true)
    case Some(VInt(n)) =>
      if Word(n) == 0 then (0, true) else if Word(n) <= MAX_SMALL then (2 * (Word(n) + 1), false) else (0, false)
    case Some(VStr(s)) => (0, s == [])
    case Some(_) => (0, false)
  }

  lemma HeaderIs(s: Schema, k: Kind, v: Option<Value>)
    requires KindOk(s, k) && (v.Some? ==> HasKind(s, k, v.value))
    ensures HeaderEnc(v).1 == !Present(Go, v)
    ensures Present(Go, v) ==> HeaderEnc(v).0 == Header(PayloadOf(Go, s, k, v.value))
  {
    hide ElemBytes, ObjBytes, StrBytes, BoolBytes, ListBytes, Typed, Encode, AllInRange, LE;
    if v.Some? && v.value.VInt? {
      RangeBounds(k.t, v.value.n);
      WordIs(v.value.n);
    }
  }

  method EncodeElem(s: Schema, id: nat, e: Elem) returns (b: seq<byte>)
    requires SchemaOk(s) && id < |s.types| && (e.Obj? ==> Typed(s, id, e.m))
    ensures b == ElemBytes(Go, s, id, e)
    decreases e, 3
  {
    hide Typed, Encode, LE;
    if e.Nil? {
      var buf, len := EncodeHeaders([], 0);
      b := buf[..len];
      assert b == b + [];
    } else {
      b := EncodeMessage(s, id, e.m);
    }
  }

  method EncodeMessage(s: Schema, id: nat, m: Msg) returns (b: seq<byte>)
    requires SchemaOk(s) && Typed(s, id, m)
    ensures b == Encode(Go, s, id, m)
    decreases m, 2
  {
    hide LE, Upto, HeaderEnc, PayloadOf, HasKind, KindOk, Present, Items, EncodeItems, ItemRecords,
      ChunkBytes, SkipTag, Header;
    var fs := s.types[id];
    var headers := new nat[|fs| * 2];
    var buffer, len := new byte[4096], 0;
    var tag: int, offset := -1, 0;
    UptoStart(Go, s, fs, m.fields);
    assert headers[..0] == [] && buffer[..0] == [];
    for i := 0 to |fs|
      invariant 0 <= offset <= 2 * i && 0 <= len <= buffer.Length && fresh(buffer) && fresh(headers)
      invariant Upto(Go, s, fs, m.fields, i, tag, headers[..offset], buffer[..len])
    {
      var v := m.fields[i];
      var nextTag := fs[i].tag;
      UptoNext(Go, s, fs, m.fields, i, tag, headers[..offset], buffer[..len]);
      HeaderIs(s, fs[i].kind, v);
      var (header, isNil) := HeaderEnc(v);
      if !isNil {
        ghost var item := Item(nextTag, PayloadOf(Go, s, fs[i].kind, v.value));
        ghost var rs := headers[..offset];
        RecordsOf(rs, tag, item);
        offset := AddRecords(headers, offset, SkipTag(tag, nextTag), header);
        tag := nextTag;
        var data := EncodeOption(s, fs[i].kind, v);
        ChunkOf(item.payload, data);
        buffer, len := AddData(buffer, len, data);
      }
    }
    UptoEnd(Go, s, fs, m.fields, tag, headers[..offset], buffer[..len]);
    var buf, n := EncodeHeaders(headers[..offset], len);
    var all := GoPack.Append(buf, n, buffer[..len]);
    return all[..n + len];
  }

  /** The skip record, if there is one, and the field's own. */
  method AddRecords(headers: array<nat>, offset: nat, skip: nat, header: nat) returns (end: nat)
    requires offset + 2 <= headers.Length
    modifies headers
    ensures offset < end <= offset + 2
    ensures headers[..end] == old(headers[..offset]) + (if skip > 0 then [skip] else []) + [header]
  {
    end := offset;
    if skip > 0 {
      headers[end] := skip;
      end := end + 1;
    }
    headers[end] := header;
    end := end + 1;
  }

  /** The data of a field behind its length, unless it was embedded. */
  method AddData(buffer: array<byte>, len: nat, data: Option<seq<byte>>) returns (r: array<byte>, end: nat)
    requires len <= buffer.Length
    modifies buffer
    ensures r == buffer || fresh(r)
    ensures end <= r.Length
    ensures r[..end] == old(buffer[..len]) + if data.Some? then LE(|data.value|, 4) + data.value else []
  {
    hide LE;
    r, end := buffer, len;
    if data.Some? {
      r := GoPack.Append(r, end, LE(|data.value|, 4));
      end := end + 4;
      r := GoPack.Append(r, end, data.value);
      end := end + |data.value|;
    }
  }

  lemma RecordsOf(rs: seq<nat>, tag: int, item: Item)
    ensures rs + ItemRecords(tag, item)
      == rs + (if SkipTag(tag, item.tag) > 0 then [SkipTag(tag, item.tag)] else []) + [Header(item.payload)]
  {
  }

  lemma ChunkOf(p: Payload, data: Option<seq<byte>>)
    requires data == match p case Small(_) => None case Chunk(d) => Some(d)
    ensures ChunkBytes(p) == if data.Some? then LE(|data.value|, 4) + data.value else []
  {
  }

  method EncodeOption(s: Schema, k: Kind, v: Option<Value>) returns (data: Option<seq<byte>>)
    requires SchemaOk(s) && v.Some? && KindOk(s, k) && HasKind(s, k, v.value)
    ensures data == match PayloadOf(Go, s, k, v.value) case Small(_) => None case Chunk(d) => Some(d)
    decreases v, 2
  {
    hide *;
    data := EncodeField(s, k, v.value);
  }
}
