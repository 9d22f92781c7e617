/**
 The client's encoder: one stream, a header area reserved in front of the data,
 sizes filled in afterwards, and the data moved up at the end.
 */
module ClientSerialize {
  import opened Bytes
  import opened Wire
  import opened Integers
  import opened Codec
  import opened ClientStream
  import FieldCount

  // ----- stream operations as the serializer combines them

  lemma AppendedPrefix(was: seq<byte>, now: seq<byte>, at: nat, lit: seq<byte>)
    requires Wrote(was, now, at, lit)
    ensures now[..at + |lit|] == was[..at] + lit
  {
    hide Wrote;
    WroteIs(was, now, at, lit);
  }

  method Append(st: SprotoStream, lit: seq<byte>)
    requires st.Valid()
    modifies st, st.buffer
    ensures st.Valid() && (st.buffer == old(st.buffer) || fresh(st.buffer))
    ensures st.Prefix() == old(st.Prefix()) + lit
  {
    ghost var was, at := st.buffer[..], st.pos;
    st.Write(lit);
    AppendedPrefix(was, st.buffer[..], at, lit);
  }

  /** Leaves room for `n` bytes to be filled in later. */
  method Reserve(st: SprotoStream, n: nat)
    requires st.Valid()
    modifies st
    ensures st.Valid() && (st.buffer == old(st.buffer) || fresh(st.buffer))
    ensures st.pos == old(st.pos) + n && st.Prefix()[..old(st.pos)] == old(st.Prefix())
  {
    ghost var was, at := st.buffer[..], st.pos;
    st.Seek(st.pos + n);
    assert st.buffer[..at] == st.buffer[..|was|][..at] == was[..at];
    assert st.Prefix()[..at] == st.buffer[..at];
  }

  /** Two bytes through the indexer; the position stays. */
  method SetWord(st: SprotoStream, at: nat, lit: seq<byte>)
    requires st.Valid() && |lit| == 2 && at + 2 <= st.pos
    modifies st.buffer
    ensures st.Prefix() == old(st.Prefix())[at := lit[0]][at + 1 := lit[1]]
  {
    var ok := st.SetByte(at, lit[0]);
    ok := st.SetByte(at + 1, lit[1]);
  }

  /** Goes back to `at`, writes `lit` over what is there, and comes back. */
  method Patch(st: SprotoStream, at: nat, lit: seq<byte>)
    requires st.Valid() && at + |lit| <= st.pos
    modifies st, st.buffer
    ensures st.Valid() && st.pos == old(st.pos) && (st.buffer == old(st.buffer) || fresh(st.buffer))
    ensures st.Prefix() == old(st.Prefix())[..at] + lit + old(st.Prefix())[at + |lit|..]
  {
    ghost var mem, end := st.buffer[..], st.pos;
    var curPos := st.pos;
    st.Seek(at);
    ghost var m1 := st.buffer[..];
    st.Write(lit);
    ghost var m2 := st.buffer[..];
    st.Seek(curPos);
    Patched(mem, m1, m2, st.buffer[..], end, at, lit);
  }

  lemma Patched(mem: seq<byte>, m1: seq<byte>, m2: seq<byte>, m3: seq<byte>, end: nat, at: nat, lit: seq<byte>)
    requires at + |lit| <= end <= |mem| <= |m1| && m1[..|mem|] == mem
    requires Wrote(m1, m2, at, lit)
    requires |m2| <= |m3| && m3[..|m2|] == m2
    ensures end <= |m3| && m3[..end] == mem[..end][..at] + lit + mem[..end][at + |lit|..]
  {
    hide Wrote;
    WroteIs(m1, m2, at, lit);
    forall j | 0 <= j < |mem|
      ensures m1[j] == mem[j]
    {
      assert m1[..|mem|][j] == mem[j];
    }
    forall j | 0 <= j < end
      ensures m3[j] == m2[j]
    {
      assert m3[..|m2|][j] == m2[j];
    }
    var r := mem[..end][..at] + lit + mem[..end][at + |lit|..];
    assert |r| == end && forall j :: 0 <= j < end ==> m3[j] == r[j];
  }

  /** Reserved, followed by `body`, then filled in: the same as writing both in order. */
  lemma FilledIn(p0: seq<byte>, p1: seq<byte>, p2: seq<byte>, p3: seq<byte>, lit: seq<byte>, body: seq<byte>)
    requires |p1| == |p0| + |lit| && p1[..|p0|] == p0
    requires p2 == p1 + body
    requires p3 == p2[..|p0|] + lit + p2[|p0| + |lit|..]
    ensures p3 == p0 + lit + body
  {
    assert p2[..|p0|] == p1[..|p0|];
    assert p2[|p0| + |lit|..] == body;
  }

  // ----- the area of one object

  /** After `base`: two bytes for the count, the records so far, unused room up to
      `headerSz`, and the data so far. */
  ghost predicate Layout(p: seq<byte>, base: seq<byte>, headerSz: nat, rs: seq<nat>, data: seq<byte>) {
    && 2 + 2 * |rs| <= headerSz
    && |p| == |base| + headerSz + |data|
    && p[..|base|] == base
    && p[|base| + 2..|base| + 2 + 2 * |rs|] == RecordBytes(rs)
    && p[|base| + headerSz..] == data
  }

  lemma LayoutOpen(p: seq<byte>, base: seq<byte>, headerSz: nat)
    requires headerSz >= 2 && |p| == |base| + headerSz && p[..|base|] == base
    ensures Layout(p, base, headerSz, [], [])
  {
    assert p[|base| + 2..|base| + 2 + 2 * 0] == [];
  }

  lemma LayoutAppend(p: seq<byte>, base: seq<byte>, headerSz: nat, rs: seq<nat>, data: seq<byte>, lit: seq<byte>)
    requires Layout(p, base, headerSz, rs, data)
    ensures Layout(p + lit, base, headerSz, rs, data + lit)
  {
    hide RecordBytes;
    var q := p + lit;
    var a, b := |base| + 2, |base| + 2 + 2 * |rs|;
    assert q[..|base|] == p[..|base|];
    assert q[a..b] == p[a..b];
    assert q[|base| + headerSz..] == p[|base| + headerSz..] + lit;
  }

  lemma LayoutRecord(p: seq<byte>, q: seq<byte>, base: seq<byte>, headerSz: nat, rs: seq<nat>, data: seq<byte>, r: nat)
    requires Layout(p, base, headerSz, rs, data) && 4 + 2 * |rs| <= headerSz
    requires var at := |base| + 2 + 2 * |rs|;
      q == p[at := LE(r, 2)[0]][at + 1 := LE(r, 2)[1]]
    ensures Layout(q, base, headerSz, rs + [r], data)
  {
    hide LE, RecordBytes;
    var a, at := |base| + 2, |base| + 2 + 2 * |rs|;
    assert q[..|base|] == p[..|base|];
    assert q[a..at] == p[a..at];
    assert q[at..at + 2] == LE(r, 2);
    assert q[a..at + 2] == q[a..at] + q[at..at + 2];
    RecordSnoc(rs, r);
    assert q[|base| + headerSz..] == p[|base| + headerSz..];
  }

  /** Two bytes replaced: what is before, between and after. */
  lemma TwoReplaced(p: seq<byte>, q: seq<byte>, i: nat, lit: seq<byte>, j: nat, k: nat)
    requires |lit| == 2 && i + 2 <= j <= k <= |p| && q == p[i := lit[0]][i + 1 := lit[1]]
    ensures q[..i] == p[..i] && q[i..i + 2] == lit && q[j..k] == p[j..k]
  {
  }

  /** Filling in the count and moving the data up leaves exactly the encoding. */
  lemma LayoutClose(p: seq<byte>, q: seq<byte>, r: seq<byte>, base: seq<byte>, headerSz: nat, rs: seq<nat>,
      data: seq<byte>)
    requires Layout(p, base, headerSz, rs, data)
    requires q == p[|base| := LE(|rs|, 2)[0]][|base| + 1 := LE(|rs|, 2)[1]]
    requires r == if headerSz == 2 + 2 * |rs| then q else q[..|base| + 2 + 2 * |rs|] + q[|base| + headerSz..]
    ensures r == base + Assemble(rs, data) && |r| == |base| + |Assemble(rs, data)|
  {
    hide LE, RecordBytes;
    var a, b, h := |base| + 2, |base| + 2 + 2 * |rs|, |base| + headerSz;
    TwoReplaced(p, q, |base|, LE(|rs|, 2), a, b);
    TwoReplaced(p, q, |base|, LE(|rs|, 2), h, |p|);
    hide Layout;
    Joined(q, r, |base|, a, b, h);
    assert q[h..|p|] == p[h..];
    Associative(base, LE(|rs|, 2), RecordBytes(rs), data);
  }

  lemma Joined(q: seq<byte>, r: seq<byte>, i: nat, j: nat, k: nat, h: nat)
    requires i <= j <= k <= h <= |q| && r == if h == k then q else q[..k] + q[h..]
    ensures r == q[..i] + q[i..j] + q[j..k] + q[h..|q|]
  {
  }

  lemma Associative(a: seq<byte>, b: seq<byte>, c: seq<byte>, d: seq<byte>)
    ensures a + b + c + d == a + (b + c + d)
  {
  }

  // ----- lists of integers

  /** Goes back to an earlier position; what was written from there on is dropped. */
  method Rewind(st: SprotoStream, to: nat)
    requires st.Valid() && to <= st.pos
    modifies st
    ensures st.Valid() && (st.buffer == old(st.buffer) || fresh(st.buffer))
    ensures st.Prefix() == old(st.Prefix())[..to]
  {
    ghost var was, end := st.buffer[..], st.pos;
    st.Seek(to);
    assert st.buffer[..to] == st.buffer[..|was|][..to] == was[..to] == was[..end][..to];
  }

  /** Four low bytes and four bytes of sign are the eight bytes of the value. */
  lemma SignBytes(n: int)
    requires Int32Range(n)
    ensures LE(Word(n) % TWO_32, 4) + (if n < 0 then [255, 255, 255, 255] else [0, 0, 0, 0]) == LE(Word(n), 8)
  {
    var w := Word(n);
    assert w == if n < 0 then n + TWO_64 else n;
    hide Word, LE;
    TwoHalves(w);
    if n < 0 {
      HighOnes(w);
    } else {
      HighZeros(w);
    }
  }

  lemma TwoHalves(w: nat)
    ensures LE(w % TWO_32, 4) + LE(w / TWO_32, 4) == LE(w, 8)
  {
    hide LE, Pow256, Shift;
    LESplit(w, 4, 4);
    LEModulo(w, 4);
    Powers();
    ShiftFour(w);
  }

  /** `n` without its `j` low bytes. */
  function Shift(n: nat, j: nat): (r: nat)
    decreases j
  {
    if j == 0 then n else Shift(n / 256, j - 1)
  }

  lemma ShiftFour(n: nat)
    ensures Shift(n, 4) == n / TWO_32
  {
    assert Shift(n / 256 / 256, 2) == n / 256 / 256 / 256 / 256;
  }

  lemma {:induction false} LESplit(n: nat, j: nat, k: nat)
    ensures LE(n, j + k) == LE(n, j) + LE(Shift(n, j), k)
    decreases j
  {
    if j > 0 {
      LESplit(n / 256, j - 1, k);
    }
  }

  lemma {:induction false} LEModulo(n: nat, k: nat)
    ensures LE(n % Pow256(k), k) == LE(n, k)
    decreases k
  {
    if k > 0 {
      var p := Pow256(k - 1);
      LEModulo(n / 256, k - 1);
      ModDigit(n, p);
      var m := n % (256 * p);
      assert m % 256 == n % 256 && m / 256 == n / 256 % p;
    }
  }

  lemma HighOnes(w: nat)
    requires TWO_64 - TWO_31 <= w < TWO_64
    ensures LE(w / TWO_32, 4) == [255, 255, 255, 255]
  {
    assert w / TWO_32 == 0xffff_ffff;
    assert LE(0xff, 1) == [255];
    assert LE(0xffff, 2) == [255] + LE(0xff, 1);
    assert LE(0xff_ffff, 3) == [255] + LE(0xffff, 2);
    assert LE(0xffff_ffff, 4) == [255] + LE(0xff_ffff, 3);
  }

  lemma HighZeros(w: nat)
    requires w < TWO_31
    ensures LE(w / TWO_32, 4) == [0, 0, 0, 0]
  {
    assert LE(0, 1) == [0];
    assert LE(0, 2) == [0] + LE(0, 1);
    assert LE(0, 3) == [0] + LE(0, 2);
    assert LE(0, 4) == [0] + LE(0, 3);
  }

  /** What a list writer has put down: five reserved bytes, then the elements. */
  ghost predicate Elements(p: seq<byte>, p0: seq<byte>, ns: seq<int>, i: nat, w: nat) {
    && i <= |ns|
    && |p| == |p0| + 5 + |Words(ns[..i], w)|
    && p[..|p0|] == p0
    && p[|p0| + 5..] == Words(ns[..i], w)
  }

  lemma ElementsMore(p: seq<byte>, p0: seq<byte>, ns: seq<int>, i: nat, w: nat)
    requires Elements(p, p0, ns, i, w) && i < |ns|
    ensures Elements(p + LE(Word(ns[i]), w), p0, ns, i + 1, w)
  {
    hide LE, Word, Words;
    WordsSnoc(ns, i, w);
    var q := p + LE(Word(ns[i]), w);
    assert q[..|p0|] == p[..|p0|];
    assert q[|p0| + 5..] == p[|p0| + 5..] + LE(Word(ns[i]), w);
  }

  lemma ElementsNone(p: seq<byte>, p0: seq<byte>, ns: seq<int>, w: nat)
    requires |p| == |p0| + 5 && p[..|p0|] == p0
    ensures Elements(p, p0, ns, 0, w)
  {
    assert ns[..0] == [] && Words([], w) == [];
  }

  /** Writes the elements already written again, with eight bytes each. */
  method Rewrite(st: SprotoStream, ghost p0: seq<byte>, first: nat, ns: seq<int>, index: nat)
    requires st.Valid() && first == |p0| + 5 && Elements(st.Prefix(), p0, ns, index, 4)
    modifies st, st.buffer
    ensures st.Valid() && (st.buffer == old(st.buffer) || fresh(st.buffer))
    ensures Elements(st.Prefix(), p0, ns, index, 8)
  {
    hide LE, Words, Word;
    Rewind(st, first);
    ElementsNone(st.Prefix(), p0, ns, 8);
    for i := 0 to index
      invariant st.Valid() && (st.buffer == old(st.buffer) || fresh(st.buffer))
      invariant Elements(st.Prefix(), p0, ns, i, 8)
    {
      ElementsMore(st.Prefix(), p0, ns, i, 8);
      Append(st, LE(Word(ns[i]), 8));
    }
  }

  /** One pass: elements go out in four bytes until one does not fit; then all are
      rewritten in eight. */
  method AppendIntList(st: SprotoStream, t: IntType, ns: seq<int>)
    requires st.Valid() && Portable(t) && AllInRange(t, ns)
    modifies st, st.buffer
    ensures st.Valid() && (st.buffer == old(st.buffer) || fresh(st.buffer))
    ensures st.Prefix() == old(st.Prefix()) + (LE(|ListBytes(Client, t, ns)|, 4) + ListBytes(Client, t, ns))
  {
    hide LE, Words, Word, Elements, Wide, ListBytes, ListWidth, AllInRange, InRange, Portable;
    ListBytesAre(t, ns);
    ghost var p0 := st.Prefix();
    var szPos := st.pos;
    Reserve(st, 4);
    var beginPos := st.pos;
    ghost var p1 := st.Prefix();
    Reserve(st, 1);
    KeptPrefix(st.Prefix(), p1, p0);
    var intlen := AppendElements(st, p0, t, ns);
    ElementsAll(st.Prefix(), p0, ns, intlen);
    FillHeader(st, szPos, beginPos, intlen, p0, Words(ns, intlen));
  }

  /** The width and the size of a list, once they are known. */
  method FillHeader(st: SprotoStream, szPos: nat, beginPos: nat, intlen: byte, ghost p0: seq<byte>,
      ghost words: seq<byte>)
    requires st.Valid() && szPos == |p0| && beginPos == |p0| + 4
    requires st.pos == |p0| + 5 + |words| && st.Prefix()[..|p0|] == p0 && st.Prefix()[|p0| + 5..] == words
    modifies st, st.buffer
    ensures st.Valid() && (st.buffer == old(st.buffer) || fresh(st.buffer))
    ensures st.Prefix() == p0 + (LE(1 + |words|, 4) + ([intlen] + words))
  {
    hide LE;
    ghost var p2 := st.Prefix();
    Patch(st, beginPos, [intlen]);
    ghost var p3 := st.Prefix();
    var size := st.pos - beginPos;
    Patch(st, szPos, LE(size, 4));
    ListFilled(p0, p2, p3, st.Prefix(), intlen, words, LE(size, 4));
  }

  lemma ListBytesAre(t: IntType, ns: seq<int>)
    ensures var w := ListWidth(Client, t, ns);
      ListBytes(Client, t, ns) == [w] + Words(ns, w) && |ListBytes(Client, t, ns)| == 1 + |Words(ns, w)|
  {
  }

  lemma KeptPrefix(p: seq<byte>, p1: seq<byte>, p0: seq<byte>)
    requires |p0| <= |p1| <= |p| && p[..|p1|] == p1 && p1[..|p0|] == p0
    ensures p[..|p0|] == p0
  {
    assert p[..|p0|] == p[..|p1|][..|p0|];
  }

  method AppendElements(st: SprotoStream, ghost p0: seq<byte>, t: IntType, ns: seq<int>) returns (intlen: nat)
    requires st.Valid() && Portable(t) && AllInRange(t, ns)
    requires st.pos == |p0| + 5 && st.Prefix()[..|p0|] == p0
    modifies st, st.buffer
    ensures st.Valid() && (st.buffer == old(st.buffer) || fresh(st.buffer))
    ensures intlen == ListWidth(Client, t, ns) && Elements(st.Prefix(), p0, ns, |ns|, intlen)
  {
    hide LE, Words, Word, Elements;
    var first := st.pos;
    intlen := 4;
    ElementsNone(st.Prefix(), p0, ns, 4);
    for index := 0 to |ns|
      invariant st.Valid() && (st.buffer == old(st.buffer) || fresh(st.buffer))
      invariant intlen == 4 || intlen == 8
      invariant intlen == 8 <==> exists j :: 0 <= j < index && Wide(Client, t, ns[j])
      invariant Elements(st.Prefix(), p0, ns, index, intlen)
    {
      var v := ns[index];
      if !Wide(Client, t, v) {
        ElementsMore(st.Prefix(), p0, ns, index, intlen);
        AppendNarrow(st, t, v, intlen);
      } else {
        if intlen == 4 {
          Rewrite(st, p0, first, ns, index);
          intlen := 8;
        }
        ElementsMore(st.Prefix(), p0, ns, index, 8);
        Append(st, LE(Word(v), 8));
      }
    }
  }

  lemma ElementsAll(p: seq<byte>, p0: seq<byte>, ns: seq<int>, w: nat)
    requires Elements(p, p0, ns, |ns|, w)
    ensures |p| == |p0| + 5 + |Words(ns, w)| && p[..|p0|] == p0 && p[|p0| + 5..] == Words(ns, w)
  {
    assert ns[..|ns|] == ns;
  }

  lemma ListFilled(p0: seq<byte>, p2: seq<byte>, p3: seq<byte>, p4: seq<byte>, w: byte, words: seq<byte>,
      size: seq<byte>)
    requires |size| == 4 && |p2| == |p0| + 5 + |words| && p2[..|p0|] == p0 && p2[|p0| + 5..] == words
    requires p3 == p2[..|p0| + 4] + [w] + p2[|p0| + 5..]
    requires p4 == p3[..|p0|] + size + p3[|p0| + 4..]
    ensures p4 == p0 + (size + ([w] + words))
  {
    assert p3[..|p0|] == p2[..|p0|];
    assert p3[|p0| + 4..] == [w] + words;
  }

  /** A value that fits four bytes, extended by its sign when the list is wide. */
  method AppendNarrow(st: SprotoStream, t: IntType, v: int, intlen: nat)
    requires st.Valid() && Portable(t) && InRange(t, v) && !Wide(Client, t, v) && (intlen == 4 || intlen == 8)
    requires intlen == 8 ==> t.bits == 64
    modifies st, st.buffer
    ensures st.Valid() && (st.buffer == old(st.buffer) || fresh(st.buffer))
    ensures st.Prefix() == old(st.Prefix()) + LE(Word(v), intlen)
  {
    ghost var p0 := st.Prefix();
    LEModulo(Word(v), 4);
    Powers();
    hide LE, Word;
    Append(st, LE(Word(v) % TWO_32, 4));
    if intlen == 8 {
      var isNegative := Word(v) % TWO_32 >= TWO_31;
      Negative(v);
      SignBytes(v);
      var sign: seq<byte> := if isNegative then [255, 255, 255, 255] else [0, 0, 0, 0];
      Append(st, sign);
      assert p0 + LE(Word(v) % TWO_32, 4) + sign == p0 + (LE(Word(v) % TWO_32, 4) + sign);
    }
  }

  lemma Negative(n: int)
    requires Int32Range(n)
    ensures Word(n) % TWO_32 >= TWO_31 <==> n < 0
  {
  }

  // ----- messages the client can send

  /** No null where an object is due: the client would throw. */
  predicate NoNulls(v: Value)
    decreases v, 0
  {
    match v
    case VObj(m) => NoNullFields(m)
    case VObjs(ms) => forall i :: 0 <= i < |ms| ==> ms[i].Obj? && NoNullFields(ms[i].m)
    case _ => true
  }

  predicate NoNullFields(m: Msg)
    decreases m, 0
  {
    forall k :: 0 <= k < |m.fields| && m.fields[k].Some? ==> NoNulls(m.fields[k].value)
  }

  // ----- the serializer of one object

  class SprotoTypeSerialize {
    const headerSz: nat
    var headerIdx: nat
    var headerCap: nat
    var data: SprotoStream?
    var dataIdx: nat
    var lasttag: int
    var index: nat
    ghost var base: seq<byte>
    ghost var records: seq<nat>
    ghost var payload: seq<byte>

    /** Between open and close. */
    ghost predicate Writing()
      reads this, data, if data == null then {} else {data.buffer}
    {
      && data != null && data.Valid()
      && Layout(data.Prefix(), base, headerSz, records, payload)
      && headerIdx == |base| + 2 && headerCap == 2 + 2 * |records| && index == |records|
      && dataIdx == |base| + headerSz
    }

    constructor (maxFieldCount: nat)
      ensures headerSz == 2 + 2 * maxFieldCount && data == null
    {
      headerSz := 2 + maxFieldCount * 2;
      headerIdx, headerCap, data, dataIdx, lasttag, index := 2, 2, null, 0, -1, 0;
      base, records, payload := [], [], [];
    }

    method Open(stream: SprotoStream)
      requires stream.Valid() && headerSz >= 2
      modifies this, stream
      ensures Writing() && data == stream && lasttag == -1
      ensures stream.buffer == old(stream.buffer) || fresh(stream.buffer)
      ensures base == old(stream.Prefix()) && records == [] && payload == []
    {
      index, lasttag, headerCap := 0, -1, 2;
      data := stream;
      headerIdx := stream.pos + headerCap;
      base, records, payload := stream.Prefix(), [], [];
      Reserve(stream, headerSz);
      dataIdx := stream.pos;
      LayoutOpen(stream.Prefix(), base, headerSz);
    }

    method WriteHeaderRecord(record: nat)
      requires Writing() && headerCap + 2 <= headerSz
      modifies this, data.buffer
      ensures Writing() && data == old(data) && data.buffer == old(data.buffer)
      ensures records == old(records) + [record]
      ensures base == old(base) && payload == old(payload) && lasttag == old(lasttag)
    {
      hide LE, RecordBytes, Layout;
      ghost var p := data.Prefix();
      LayoutSize(p, base, headerSz, records, payload);
      SetWord(data, headerIdx + headerCap - 2, LE(record, 2));
      LayoutRecord(p, data.Prefix(), base, headerSz, records, payload, record);
      headerCap := headerCap + 2;
      index := index + 1;
      records := records + [record];
    }

    /** Fails, with nothing written, exactly when the skip does not fit a record. */
    method WriteTag(tag: nat, value: nat) returns (ok: bool)
      requires Writing()
      requires SkipTag(lasttag, tag) < TWO_16 ==> headerCap + (if tag > lasttag + 1 then 4 else 2) <= headerSz
      modifies this, data.buffer
      ensures Writing() && data == old(data) && data.buffer == old(data.buffer)
      ensures base == old(base) && payload == old(payload)
      ensures ok <==> SkipTag(old(lasttag), tag) < TWO_16
      ensures !ok ==> records == old(records) && lasttag == old(lasttag)
      ensures ok ==>
        && lasttag == tag
        && records == old(records) + (if tag > old(lasttag) + 1 then [SkipTag(old(lasttag), tag)] else []) + [value]
    {
      hide Layout;
      var stag := tag - lasttag - 1;
      if stag > 0 {
        stag := (stag - 1) * 2 + 1;
        if stag > 0xffff {
          return false;
        }
        WriteHeaderRecord(stag);
      }
      WriteHeaderRecord(value);
      lasttag := tag;
      return true;
    }

    method Close() returns (count: nat)
      requires Writing()
      modifies this, data, data.buffer
      ensures data == null && old(data).Valid()
      ensures old(data).buffer == old(data.buffer)
      ensures old(data).Prefix() == old(base) + Assemble(old(records), old(payload))
      ensures count == |Assemble(old(records), old(payload))|
    {
      hide LE, RecordBytes, Layout, Assemble;
      var st := data;
      ghost var p := st.Prefix();
      LayoutSize(p, base, headerSz, records, payload);
      SetWord(st, headerIdx - 2, LE(index, 2));
      ghost var q := st.Prefix();
      var upCount := headerSz - headerCap;
      st.MoveUp(dataIdx, upCount);
      ghost var r := st.Prefix();
      assert r == if headerSz == 2 + 2 * |records| then q else q[..|base| + 2 + 2 * |records|] + q[|base| + headerSz..];
      LayoutClose(p, q, r, base, headerSz, records, payload);
      count := st.pos - headerIdx + 2;
      index, headerIdx, lasttag, data, headerCap := 0, 2, -1, null, 2;
    }
  }

  lemma LayoutSize(p: seq<byte>, base: seq<byte>, headerSz: nat, rs: seq<nat>, data: seq<byte>)
    requires Layout(p, base, headerSz, rs, data)
    ensures 2 + 2 * |rs| <= headerSz && |p| == |base| + headerSz + |data|
  {
  }

  // ----- the data of one field

  lemma Grown(a: seq<byte>, b: seq<byte>, c: seq<byte>)
    ensures a + b + c == a + (b + c)
  {
  }

  method AppendChunk(st: SprotoStream, bytes: seq<byte>)
    requires st.Valid()
    modifies st, st.buffer
    ensures st.Valid() && (st.buffer == old(st.buffer) || fresh(st.buffer))
    ensures st.Prefix() == old(st.Prefix()) + (LE(|bytes|, 4) + bytes)
  {
    hide LE;
    ghost var p := st.Prefix();
    Append(st, LE(|bytes|, 4));
    Append(st, bytes);
    Grown(p, LE(|bytes|, 4), bytes);
  }

  method AppendBools(st: SprotoStream, bs: seq<bool>)
    requires st.Valid()
    modifies st, st.buffer
    ensures st.Valid() && (st.buffer == old(st.buffer) || fresh(st.buffer))
    ensures st.Prefix() == old(st.Prefix()) + (LE(|bs|, 4) + BoolBytes(bs))
  {
    hide LE, BoolBytes;
    ghost var p := st.Prefix() + LE(|bs|, 4);
    Append(st, LE(|bs|, 4));
    ghost var done: seq<byte> := [];
    assert p + done == p && bs[0..] == bs && done + BoolBytes(bs) == BoolBytes(bs);
    for i := 0 to |bs|
      invariant st.Valid() && (st.buffer == old(st.buffer) || fresh(st.buffer))
      invariant st.Prefix() == p + done && done + BoolBytes(bs[i..]) == BoolBytes(bs)
    {
      var v: byte := if bs[i] then 1 else 0;
      BoolStep(bs, i);
      Append(st, [v]);
      Grown(p, done, [v]);
      Grown(done, [v], BoolBytes(bs[i + 1..]));
      done := done + [v];
    }
    BoolNone(bs[|bs|..]);
    assert done + [] == done;
    Grown(old(st.Prefix()), LE(|bs|, 4), done);
  }

  lemma BoolStep(bs: seq<bool>, i: nat)
    requires i < |bs|
    ensures BoolBytes(bs[i..]) == [if bs[i] then 1 else 0] + BoolBytes(bs[i + 1..])
  {
    assert bs[i..][1..] == bs[i + 1..];
  }

  lemma BoolNone(bs: seq<bool>)
    requires bs == []
    ensures BoolBytes(bs) == []
  {
  }

  method AppendStrings(st: SprotoStream, ss: seq<seq<byte>>)
    requires st.Valid()
    modifies st, st.buffer
    ensures st.Valid() && (st.buffer == old(st.buffer) || fresh(st.buffer))
    ensures st.Prefix() == old(st.Prefix()) + (LE(|StrBytes(ss)|, 4) + StrBytes(ss))
  {
    hide LE;
    var sz := 0;
    assert ss[0..] == ss;
    for i := 0 to |ss|
      invariant sz >= 0 && sz + |StrBytes(ss[i..])| == |StrBytes(ss)|
    {
      assert ss[i..][1..] == ss[i + 1..];
      sz := sz + 4 + |ss[i]|;
    }
    ghost var p := st.Prefix() + LE(sz, 4);
    Append(st, LE(sz, 4));
    ghost var done: seq<byte> := [];
    assert p + done == p;
    for i := 0 to |ss|
      invariant st.Valid() && (st.buffer == old(st.buffer) || fresh(st.buffer))
      invariant st.Prefix() == p + done && done + StrBytes(ss[i..]) == StrBytes(ss)
    {
      assert ss[i..][1..] == ss[i + 1..];
      AppendChunk(st, ss[i]);
      Grown(p, done, LE(|ss[i]|, 4) + ss[i]);
      Grown(done, LE(|ss[i]|, 4) + ss[i], StrBytes(ss[i + 1..]));
      done := done + (LE(|ss[i]|, 4) + ss[i]);
    }
    Grown(old(st.Prefix()), LE(sz, 4), done);
  }

  /** The size is filled in once the object's length is known. */
  method EncodeStruct(st: SprotoStream, s: Schema, id: nat, m: Msg)
    requires st.Valid() && SchemaOk(s) && PortableSchema(s) && Typed(s, id, m) && NoNullFields(m)
    modifies st, st.buffer
    ensures st.Valid() && (st.buffer == old(st.buffer) || fresh(st.buffer))
    ensures var e := Encode(Client, s, id, m); st.Prefix() == old(st.Prefix()) + (LE(|e|, 4) + e)
    decreases m, 3
  {
    hide *;
    ghost var e := Encode(Client, s, id, m);
    ghost var p0 := st.Prefix();
    var szPos := st.pos;
    Reserve(st, 4);
    ghost var p1 := st.Prefix();
    var len := EncodeObject(st, s, id, m);
    ghost var p2 := st.Prefix();
    Patch(st, szPos, LE(len, 4));
    FilledIn(p0, p1, p2, st.Prefix(), LE(len, 4), e);
    Grown(p0, LE(len, 4), e);
  }

  method EncodeStructs(st: SprotoStream, s: Schema, id: nat, ms: seq<Elem>)
    requires st.Valid() && SchemaOk(s) && PortableSchema(s) && id < |s.types|
    requires forall i :: 0 <= i < |ms| ==> ms[i].Obj? && Typed(s, id, ms[i].m) && NoNullFields(ms[i].m)
    modifies st, st.buffer
    ensures st.Valid() && (st.buffer == old(st.buffer) || fresh(st.buffer))
    ensures var b := ObjBytes(Client, s, id, ms); st.Prefix() == old(st.Prefix()) + (LE(|b|, 4) + b)
    decreases ms, 4
  {
    hide LE, Encode, ElemBytes, Typed, NoNullFields, SchemaOk, PortableSchema, ObjBytes;
    ghost var b := ObjBytes(Client, s, id, ms);
    ghost var p0 := st.Prefix();
    var szPos := st.pos;
    Reserve(st, 4);
    ghost var p1 := st.Prefix();
    ghost var done: seq<byte> := [];
    assert p1 + done == p1 && done + b == b && ms[0..] == ms;
    for i := 0 to |ms|
      invariant st.Valid() && (st.buffer == old(st.buffer) || fresh(st.buffer))
      invariant st.Prefix() == p1 + done && done + ObjBytes(Client, s, id, ms[i..]) == b
    {
      ObjStep(s, id, ms, i);
      ghost var e := Encode(Client, s, id, ms[i].m);
      EncodeElem(st, s, id, ms[i]);
      Grown(p1, done, LE(|e|, 4) + e);
      Grown(done, LE(|e|, 4) + e, ObjBytes(Client, s, id, ms[i + 1..]));
      done := done + (LE(|e|, 4) + e);
    }
    NoObjBytes(s, id);
    assert ms[|ms|..] == [] && done + [] == done;
    var sz := st.pos - szPos - 4;
    ghost var p2 := st.Prefix();
    Patch(st, szPos, LE(sz, 4));
    FilledIn(p0, p1, p2, st.Prefix(), LE(sz, 4), b);
    Grown(p0, LE(sz, 4), b);
  }

  lemma ObjStep(s: Schema, id: nat, ms: seq<Elem>, i: nat)
    requires i < |ms| && ms[i].Obj?
    ensures var e := Encode(Client, s, id, ms[i].m);
      ObjBytes(Client, s, id, ms[i..]) == LE(|e|, 4) + e + ObjBytes(Client, s, id, ms[i + 1..])
  {
    hide LE, Encode;
    assert ms[i..][1..] == ms[i + 1..];
  }

  lemma NoObjBytes(s: Schema, id: nat)
    ensures ObjBytes(Client, s, id, []) == []
  {
  }

  method EncodeElem(st: SprotoStream, s: Schema, id: nat, e: Elem)
    requires st.Valid() && SchemaOk(s) && PortableSchema(s) && e.Obj? && Typed(s, id, e.m) && NoNullFields(e.m)
    modifies st, st.buffer
    ensures st.Valid() && (st.buffer == old(st.buffer) || fresh(st.buffer))
    ensures var b := Encode(Client, s, id, e.m); st.Prefix() == old(st.Prefix()) + (LE(|b|, 4) + b)
    decreases e, 4
  {
    hide *;
    EncodeStruct(st, s, id, e.m);
  }

  /** The data a field contributes: nothing when its value is embedded. */
  method AppendValue(st: SprotoStream, s: Schema, k: Kind, v: Value)
    requires st.Valid() && SchemaOk(s) && PortableSchema(s)
    requires KindOk(s, k) && PortableKind(k) && HasKind(s, k, v) && NoNulls(v)
    modifies st, st.buffer
    ensures st.Valid() && (st.buffer == old(st.buffer) || fresh(st.buffer))
    ensures st.Prefix() == old(st.Prefix()) + ChunkBytes(PayloadOf(Client, s, k, v))
    decreases v, 5
  {
    hide LE, Encode, ListBytes, BoolBytes, StrBytes, ObjBytes, Typed, SchemaOk, PortableSchema, AllInRange,
      InRange, Raw, Width;
    assert st.Prefix() + [] == st.Prefix();
    match v
    case VBool(_) =>
    case VInt(n) =>
      if Raw(Client, k.t, n) > MAX_SMALL {
        AppendChunk(st, LE(Raw(Client, k.t, n), Width(Client, k.t, n)));
      }
    case VStr(b) => AppendChunk(st, b);
    case VBytes(b) => AppendChunk(st, b);
    case VObj(m) => EncodeStruct(st, s, k.id, m);
    case VBools(bs) => AppendBools(st, bs);
    case VInts(ns) => AppendIntList(st, k.t, ns);
    case VStrs(ss) => AppendStrings(st, ss);
    case VObjs(ms) => EncodeStructs(st, s, k.id, ms);
  }

  method AppendField(st: SprotoStream, s: Schema, k: Kind, v: Option<Value>)
    requires st.Valid() && SchemaOk(s) && PortableSchema(s) && v.Some?
    requires KindOk(s, k) && PortableKind(k) && HasKind(s, k, v.value) && NoNulls(v.value)
    modifies st, st.buffer
    ensures st.Valid() && (st.buffer == old(st.buffer) || fresh(st.buffer))
    ensures st.Prefix() == old(st.Prefix()) + ChunkBytes(PayloadOf(Client, s, k, v.value))
    decreases v, 6
  {
    hide *;
    AppendValue(st, s, k, v.value);
  }

  /** Encodes at the stream's position, whatever precedes it: exactly the message's
      encoding is added, and its length returned. */
  method EncodeObject(st: SprotoStream, s: Schema, id: nat, m: Msg) returns (len: nat)
    requires st.Valid() && SchemaOk(s) && PortableSchema(s) && Typed(s, id, m) && NoNullFields(m)
    modifies st, st.buffer
    ensures st.Valid() && (st.buffer == old(st.buffer) || fresh(st.buffer))
    ensures st.Prefix() == old(st.Prefix()) + Encode(Client, s, id, m)
    ensures len == |Encode(Client, s, id, m)|
    decreases m, 2
  {
    hide LE, Upto, PayloadOf, HasKind, KindOk, Present, Items, EncodeItems, Layout, Header, ItemRecords,
      ChunkBytes, PortableKind;
    var fs := s.types[id];
    FieldCount.AscendingNonDescending(-1, fs);
    FieldCount.RecordsWithin(Client, s, fs, m.fields, -1, -1);
    var n := FieldCount.MaxFieldCount(fs);
    var ser := new SprotoTypeSerialize(n.value);
    ser.Open(st);
    UptoStart(Client, s, fs, m.fields);
    for i := 0 to |fs|
      invariant ser.Writing() && ser.data == st && fresh(ser)
      invariant st.buffer == old(st.buffer) || fresh(st.buffer)
      invariant ser.base == old(st.Prefix()) && ser.lasttag >= -1
      invariant Upto(Client, s, fs, m.fields, i, ser.lasttag, ser.records, ser.payload)
    {
      UptoNext(Client, s, fs, m.fields, i, ser.lasttag, ser.records, ser.payload);
      var v := m.fields[i];
      if Present(Client, v) {
        ghost var item := Item(fs[i].tag, PayloadOf(Client, s, fs[i].kind, v.value));
        RoomFor(s, fs, m.fields, i, ser.lasttag, ser.records, ser.payload, item);
        AscendingAt(-1, fs, i);
        WriteField(ser, s, fs[i], v);
      }
    }
    UptoEnd(Client, s, fs, m.fields, ser.lasttag, ser.records, ser.payload);
    len := ser.Close();
  }

  lemma RoomFor(s: Schema, fs: seq<Field>, vs: seq<Option<Value>>, i: nat, tag: int, rs: seq<nat>,
      data: seq<byte>, item: Item)
    requires i < |fs| == |vs| && Present(Client, vs[i])
    requires item == Item(fs[i].tag, PayloadOf(Client, s, fs[i].kind, vs[i].value))
    requires Upto(Client, s, fs, vs, i, tag, rs, data)
    ensures |rs| + |ItemRecords(tag, item)| <= |Records(-1, Items(Client, s, fs, vs))|
  {
    hide PayloadOf, Present;
    UptoNext(Client, s, fs, vs, i, tag, rs, data);
  }

  method WriteField(ser: SprotoTypeSerialize, s: Schema, f: Field, v: Option<Value>)
    requires ser.Writing() && SchemaOk(s) && PortableSchema(s) && v.Some?
    requires -1 <= ser.lasttag && f.tag <= MAX_TAG
    requires KindOk(s, f.kind) && PortableKind(f.kind) && HasKind(s, f.kind, v.value) && NoNulls(v.value)
    requires var item := Item(f.tag, PayloadOf(Client, s, f.kind, v.value));
      2 + 2 * (|ser.records| + |ItemRecords(ser.lasttag, item)|) <= ser.headerSz
    modifies ser, ser.data, ser.data.buffer
    ensures ser.Writing() && ser.data == old(ser.data)
    ensures ser.data.buffer == old(ser.data.buffer) || fresh(ser.data.buffer)
    ensures ser.base == old(ser.base) && ser.lasttag == f.tag
    ensures var p := PayloadOf(Client, s, f.kind, v.value);
      && ser.records == old(ser.records) + ItemRecords(old(ser.lasttag), Item(f.tag, p))
      && ser.payload == old(ser.payload) + ChunkBytes(p)
    decreases v, 7
  {
    hide LE, PayloadOf, HasKind, KindOk, Present, Layout, Header, ChunkBytes, SchemaOk, PortableSchema, NoNulls;
    ghost var p := PayloadOf(Client, s, f.kind, v.value);
    ghost var before := ser.data.Prefix();
    AppendField(ser.data, s, f.kind, v);
    LayoutAppend(before, ser.base, ser.headerSz, ser.records, ser.payload, ChunkBytes(p));
    ser.payload := ser.payload + ChunkBytes(p);
    var value := HeaderOf(f.kind, v.value);
    HeaderIs(s, f.kind, v.value);
    var ok := ser.WriteTag(f.tag, value);
  }

  /** The value part of a record: the embedded value, or zero. */
  function HeaderOf(k: Kind, v: Value): (h: nat) {
    match v
    case VBool(b) => if b then 4 else 2
    case VInt(n) => if k.KInt? && Raw(Client, k.t, n) <= MAX_SMALL then 2 * (Raw(Client, k.t, n) + 1) else 0
    case _ => 0
  }

  lemma HeaderIs(s: Schema, k: Kind, v: Value)
    requires HasKind(s, k, v)
    ensures HeaderOf(k, v) == Header(PayloadOf(Client, s, k, v))
  {
    hide LE, Encode, ListBytes, BoolBytes, StrBytes, ObjBytes, Typed, Raw, Width;
  }

  /** SprotoTypeBase.encode: a fresh stream, then its bytes up to the position. */
  method EncodeBytes(s: Schema, id: nat, m: Msg) returns (b: seq<byte>)
    requires SchemaOk(s) && PortableSchema(s) && Typed(s, id, m) && NoNullFields(m)
    ensures b == Encode(Client, s, id, m)
  {
    hide Encode, SchemaOk, PortableSchema, Typed, NoNullFields;
    var st := new SprotoStream();
    ghost var none := st.Prefix();
    var len := EncodeObject(st, s, id, m);
    b := st.buffer[..st.pos];
    assert none + Encode(Client, s, id, m) == Encode(Client, s, id, m);
  }
}
