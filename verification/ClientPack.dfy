/** The client's packer: one seekable stream, reused by every call. */
module ClientPack {
  import opened Bytes
  import opened Packing

  /** `was`, zero-extended up to `at` if it is shorter, with `lit` written at `at`. */
  function Put(was: seq<byte>, at: nat, lit: seq<byte>): (c: seq<byte>)
    ensures |c| >= |was| && |c| >= at + |lit|
  {
    var base := if |was| < at then was + Zeros(at - |was|) else was;
    base[..at] + lit + (if at + |lit| <= |base| then base[at + |lit|..] else [])
  }

  lemma PutWrites(was: seq<byte>, at: nat, lit: seq<byte>)
    requires at <= |was|
    ensures Wrote(was, Put(was, at, lit), at, lit)
  {
  }

  lemma PutParts(was: seq<byte>, at: nat, lit: seq<byte>, k: nat)
    requires k <= at && k <= |was|
    ensures Put(was, at, lit)[..k] == was[..k]
    ensures Put(was, at, lit)[at..at + |lit|] == lit
  {
  }

  lemma PutAfter(was: seq<byte>, at: nat, lit: seq<byte>, from: nat, to: nat)
    requires at + |lit| <= from <= to <= |was|
    ensures Put(was, at, lit)[from..to] == was[from..to]
  {
  }

  lemma PutMore(was: seq<byte>, at: nat, s: seq<byte>, t: seq<byte>)
    ensures Put(Put(was, at, s), at + |s|, t) == Put(was, at, s + t)
  {
  }

  /** `lit` written byte by byte from `at` on; nothing happens when it is empty. */
  function PutAll(was: seq<byte>, at: nat, lit: seq<byte>): (c: seq<byte>) {
    if lit == [] then was else Put(was, at, lit)
  }

  lemma PutNext(was: seq<byte>, at: nat, lit: seq<byte>, b: byte)
    ensures Put(PutAll(was, at, lit), at + |lit|, [b]) == PutAll(was, at, lit + [b])
  {
    hide Put;
    if lit == [] {
      assert lit + [b] == [b];
    } else {
      PutMore(was, at, lit, [b]);
    }
  }

  lemma PutSome(was: seq<byte>, at: nat, lit: seq<byte>)
    requires lit != []
    ensures PutAll(was, at, lit) == Put(was, at, lit)
  {
  }

  lemma PutNone(was: seq<byte>, at: nat)
    ensures PutAll(was, at, []) == was
  {
  }

  /** The block of a run of `n` bytes of `src` from `at` on. */
  function Literal(src: seq<byte>, at: nat, n: nat): (b: seq<byte>)
    requires 1 <= n <= 2048 && at + n <= |src|
    ensures |b| == 2 + PadLength(n)
  {
    [255, PadLength(n) / 8 - 1] + src[at..at + n] + Zeros(PadLength(n) - n)
  }

  /** System.IO.MemoryStream, as far as the packer uses it. */
  class MemoryStream {
    var content: seq<byte>
    var position: nat

    constructor ()
      ensures content == [] && position == 0
    {
      content := [];
      position := 0;
    }

    method WriteByte(b: byte)
      modifies this
      ensures content == Put(old(content), old(position), [b])
      ensures position == old(position) + 1
    {
      content := Put(content, position, [b]);
      position := position + 1;
    }

    method Write(bytes: seq<byte>)
      modifies this
      ensures content == Put(old(content), old(position), bytes)
      ensures position == old(position) + |bytes|
    {
      content := Put(content, position, bytes);
      position := position + |bytes|;
    }

    method Seek(to: nat)
      modifies this`position
      ensures position == to
    {
      position := to;
    }
  }

  /** Length of the run that the message ends in, 0 when its last block is a mask. */
  function LastRun(p: seq<byte>, i: nat): (n: nat)
    requires |p| % 8 == 0
    decreases |p| - 8 * i
  {
    if 8 * i >= |p| then 0
    else if Full(p, i) then
      var n := RunLength(p, i, 1);
      if 8 * (i + n) == |p| then n else LastRun(p, i + n)
    else LastRun(p, i + 1)
  }

  /** The message ends in a run of 256 segments whose last segment is partial. */
  predicate Overruns(x: seq<byte>) {
    |x| % 8 != 0 && LastRun(Pad8(x), 0) == 256
  }

  /** What the packer emits for such a message when `data` goes on after it: bytes
      of `data` in place of the padding. */
  function Spoiled(data: seq<byte>, n: nat): (r: seq<byte>)
    requires n <= PadLength(n) <= |data|
    requires |Pack(data[..n])| >= PadLength(n) - n
  {
    var packed := Pack(data[..n]);
    packed[..|packed| - (PadLength(n) - n)] + data[n..PadLength(n)]
  }

  class SprotoPack {
    const buffer: MemoryStream
    const tmp: array<byte>

    constructor ()
      ensures fresh(buffer) && fresh(tmp) && tmp.Length == 8
    {
      buffer := new MemoryStream();
      tmp := new byte[8];
    }

    /** Writes a run's block at `pos` and comes back; fails, as the stream's Write
        does, when the source is too short. */
    method WriteFF(src: array<byte>, offset: nat, pos: nat, n: nat) returns (ok: bool)
      requires 1 <= n <= 2048
      modifies buffer
      ensures ok <==> offset + n <= src.Length
      ensures ok ==> buffer.position == old(buffer.position)
      ensures ok ==>
        buffer.content == Put(old(buffer.content), pos, Literal(src[..], offset, n))
    {
      hide Put;
      ghost var was := buffer.content;
      var align8 := PadLength(n);
      var curPos := buffer.position;
      buffer.Seek(pos);
      buffer.WriteByte(255);
      buffer.WriteByte(align8 / 8 - 1);
      PutMore(was, pos, [255], [align8 / 8 - 1]);
      ghost var top: seq<byte> := [255, align8 / 8 - 1];
      assert [255] + [align8 / 8 - 1] == top;
      if offset + n > src.Length {
        return false;
      }
      buffer.Write(src[offset..offset + n]);
      PutMore(was, pos, top, src[offset..offset + n]);
      ghost var lit := top + src[offset..offset + n];
      assert lit + Zeros(0) == lit;
      assert lit + Zeros(align8 - n) == Literal(src[..], offset, n);
      for i := 0 to align8 - n
        invariant buffer.position == pos + |lit| + i
        invariant buffer.content == Put(was, pos, lit + Zeros(i))
      {
        buffer.WriteByte(0);
        PutMore(was, pos, lit + Zeros(i), [0]);
        assert lit + Zeros(i) + [0] == lit + Zeros(i + 1);
      }
      buffer.Seek(curPos);
      return true;
    }

    method PackSeg(src: array<byte>, offset: nat, ffN: nat) returns (n: nat)
      requires offset + 8 <= src.Length
      modifies buffer
      ensures buffer.position == old(buffer.position)
      ensures |buffer.content| >= |old(buffer.content)|
      ensures forall k: nat | k <= old(buffer.position) && k <= |old(buffer.content)| ::
        buffer.content[..k] == old(buffer.content)[..k]
      ensures var seg := src[offset..offset + 8];
        && (ffN > 0 && |NonZero(seg)| >= 6 ==> n == 8)
        && (ffN == 0 && |NonZero(seg)| == 8 ==> n == 10)
        && ((ffN > 0 && |NonZero(seg)| < 6) || (ffN == 0 && |NonZero(seg)| < 8) ==>
              && n == |MaskBlock(seg)|
              && buffer.position + n <= |buffer.content|
              && buffer.content[buffer.position..buffer.position + n] == MaskBlock(seg))
    {
      hide Put, PutAll, MaskOf, NonZero, MaskBlock;
      ghost var was := buffer.content;
      var headerPos := buffer.position;
      buffer.Seek(headerPos + 1);
      var header, notzero := 0, 0;
      ghost var seg := src[offset..offset + 8];
      NoBytes(seg[..0]);
      PutNone(was, headerPos + 1);
      for i := 0 to 8
        invariant notzero == |NonZero(seg[..i])| && header == MaskOf(seg[..i])
        invariant buffer.position == headerPos + 1 + notzero
        invariant buffer.content == PutAll(was, headerPos + 1, NonZero(seg[..i]))
      {
        assert seg[..i + 1] == seg[..i] + [seg[i]];
        SnocByte(seg[..i], seg[i]);
        if src[offset + i] != 0 {
          PutNext(was, headerPos + 1, NonZero(seg[..i]), seg[i]);
          notzero := notzero + 1;
          header := header + Pow2(i);
          buffer.WriteByte(src[offset + i]);
        } else {
          assert NonZero(seg[..i]) + [] == NonZero(seg[..i]);
        }
      }
      assert seg[..8] == seg;
      buffer.Seek(headerPos);
      SegmentScratch(was, buffer.content, headerPos, NonZero(seg));
      if (notzero == 7 || notzero == 6) && ffN > 0 {
        notzero := 8;
      }
      if notzero == 8 {
        return if ffN > 0 then 8 else 10;
      }
      MaskBound(seg);
      SegmentMask(was, buffer.content, headerPos, seg);
      buffer.WriteByte(header);
      buffer.Seek(headerPos);
      return notzero + 1;
    }

    /** Copies the partial last segment into `tmp`, followed by zeros. */
    method PadTail(data: array<byte>, at: nat, size: nat)
      requires tmp.Length == 8 && data != tmp
      requires at < size <= data.Length && size < at + 8
      modifies tmp
      ensures tmp[..] == data[at..size] + Zeros(at + 8 - size)
    {
      var padding := at + 8 - size;
      for j := 0 to 8 - padding
        invariant tmp[..j] == data[at..at + j]
      {
        tmp[j] := data[at + j];
      }
      for j := 0 to padding
        invariant tmp[..8 - padding] == data[at..size]
        invariant forall k :: 8 - j <= k < 8 ==> tmp[k] == 0
      {
        tmp[7 - j] := 0;
      }
      assert tmp[8 - padding..] == Zeros(padding);
      assert tmp[..] == tmp[..8 - padding] + tmp[8 - padding..];
    }

    /** Packs segment `i`, through `tmp` when it is partial; what it leaves is a
        block only if the segment is neither full nor part of a run. */
    method NextSegment(data: array<byte>, size: nat, i: nat, ghost ffS: nat, ffN: nat, ghost ffP: nat)
      returns (n: nat, src: array<byte>)
      requires tmp.Length == 8 && data != tmp && 8 * i < size <= data.Length
      requires Sound(data[..size], buffer.content, i, buffer.position, ffS, ffN, ffP)
      modifies buffer, tmp
      ensures buffer.position == old(buffer.position)
      ensures 8 * i + 8 <= |Pad8(data[..size])|
      ensures src == if 8 * i + 8 > size then tmp else data
      ensures Sound(data[..size], buffer.content, i, buffer.position, ffS, ffN, ffP)
      ensures n == 10 ==> ffN == 0 && Full(Pad8(data[..size]), i) && 8 * i + 8 <= size
      ensures n == 8 && ffN > 0 ==> Dense(Pad8(data[..size]), i)
      ensures n != 10 && !(n == 8 && ffN > 0) ==>
        && !Full(Pad8(data[..size]), i) && (ffN > 0 ==> !Dense(Pad8(data[..size]), i))
        && n == |MaskBlock(Segment(Pad8(data[..size]), i))|
        && buffer.position + n <= |buffer.content|
        && buffer.content[buffer.position..buffer.position + n] == MaskBlock(Segment(Pad8(data[..size]), i))
    {
      hide *;
      ghost var p := Pad8(data[..size]);
      ghost var was := buffer.content;
      SegmentInData(data[..], size, i);
      Answers(p, i);
      src := data;
      var offset := 8 * i;
      if 8 * i + 8 > size {
        PadTail(src, 8 * i, size);
        src := tmp;
        offset := 0;
      }
      assert src[offset..offset + 8] == Segment(p, i);
      n := PackSeg(src, offset, ffN);
      SoundScratch(data[..size], was, buffer.content, i, buffer.position, ffS, ffN, ffP);
      if n == 10 {
        FullInside(data[..size], i);
      }
    }

    /** Writes the block of a run that lies inside the message. */
    method Flush(data: array<byte>, size: nat, i: nat, offset: nat, ffS: nat, ffN: nat, ffP: nat, n: nat,
        ghost used: nat)
      requires size <= data.Length && PendingRun(data[..size], buffer.content, i, offset, ffS, ffN, ffP)
      requires ffN == 256 || !Dense(Pad8(data[..size]), i)
      requires n == 8 * ffN || (n == size - 8 * ffS && PadLength(n) == 8 * ffN && ffN < 256)
      requires 1 <= n <= 2048 && 8 * ffS + n <= size
      modifies buffer
      ensures buffer.position == old(buffer.position)
      ensures Sound(data[..size], buffer.content, i, offset, ffS, 0, ffP)
      ensures offset + used <= |old(buffer.content)| ==>
        && offset + used <= |buffer.content|
        && buffer.content[offset..offset + used] == old(buffer.content)[offset..offset + used]
    {
      hide *;
      ghost var was := buffer.content;
      var ok := WriteFF(data, 8 * ffS, ffP, n);
      CloseInside(data[..], size, was, buffer.content, i, offset, ffS, ffN, ffP, n, used);
    }

    /** Writes the block of 256 segments; if the last one is partial, the bytes
        after the message are taken, or the write fails. */
    method FlushFull(data: array<byte>, size: nat, i: nat, ffS: nat, ffP: nat) returns (ok: bool, ghost spoiled: bool)
      requires size <= data.Length && 8 * i - 8 < size
      requires PendingRun(data[..size], buffer.content, i, ffP + 2050, ffS, 256, ffP)
      modifies buffer
      ensures spoiled <==> 8 * i > size
      ensures spoiled ==> Overruns(data[..size])
      ensures ok <==> (spoiled ==> PadLength(size) <= data.Length)
      ensures ok ==> buffer.position == old(buffer.position)
      ensures ok && spoiled ==> Broken(data[..], size, buffer.content, ffP + 2050)
      ensures !spoiled ==> Sound(data[..size], buffer.content, i, ffP + 2050, ffS, 0, ffP)
    {
      hide *;
      ghost var was := buffer.content;
      PendingBounds(data[..size], was, i, ffP + 2050, ffS, 256, ffP);
      ok := WriteFF(data, 8 * ffS, ffP, 256 * 8);
      spoiled := 8 * i > size;
      if spoiled {
        OverrunAt(data[..], size, was, buffer.content, i, ffS, ffP, ok);
      } else {
        CloseInside(data[..], size, was, buffer.content, i, ffP + 2050, ffS, 256, ffP, 256 * 8, 0);
      }
    }

    method Pack(data: array<byte>, len: nat) returns (r: Result<seq<byte>>)
      requires tmp.Length == 8 && data != tmp && len <= data.Length
      modifies buffer, tmp
      ensures var n := if len == 0 then data.Length else len;
        var x := data[..n];
        && (!Overruns(x) ==> r == Ok(Packing.Pack(x)))
        && (Overruns(x) && data.Length < PadLength(n) ==> r == Err)
        && (Overruns(x) && data.Length >= PadLength(n) ==>
              |Packing.Pack(x)| >= PadLength(n) - n && r == Ok(Spoiled(data[..], n)))
    {
      hide *;
      buffer.Seek(0);
      var srcsz := if len == 0 then data.Length else len;
      ghost var x := data[..srcsz];
      var ffSrc := data;
      var ffS: nat, ffN: nat, ffP: nat := 0, 0, 0;
      var i: nat := 0;
      ghost var spoiled := false;
      SoundStart(x, buffer.content);
      while 8 * i < srcsz
        invariant data[..srcsz] == x
        invariant !spoiled ==> Sound(x, buffer.content, i, buffer.position, ffS, ffN, ffP)
        invariant ffN > 0 ==> ffSrc == data
        invariant spoiled ==> Broken(data[..], srcsz, buffer.content, buffer.position) && 8 * i >= srcsz && ffN == 0
      {
        var n, src := NextSegment(data, srcsz, i, ffS, ffN, ffP);
        if ffN > 0 {
          SoundPending(x, buffer.content, i, buffer.position, ffS, ffN, ffP);
        }
        if n == 10 {
          SoundOpen(x, buffer.content, i, buffer.position, ffS, ffP);
          ffSrc := src;
          ffS := i;
          ffP := buffer.position;
          ffN := 1;
        } else if n == 8 && ffN > 0 {
          if ffN + 1 < 256 {
            SoundGrow(x, buffer.content, i, buffer.position, ffS, ffN, ffP);
          }
          ffN := ffN + 1;
          if ffN == 256 {
            var ok;
            ok, spoiled := FlushFull(ffSrc, srcsz, i + 1, ffS, ffP);
            if !ok {
              return Err;
            }
            ffN := 0;
          }
        } else {
          if ffN > 0 {
            Flush(ffSrc, srcsz, i, buffer.position, ffS, ffN, ffP, ffN * 8, n);
            ffN := 0;
          }
          SoundMask(x, buffer.content, i, buffer.position, n, ffS, ffP);
        }
        buffer.Seek(buffer.position + n);
        i := i + 1;
      }
      if ffN > 0 {
        AtEnd(data[..], srcsz, buffer.content, i, buffer.position, ffS, ffN, ffP);
        var n := 8;
        if ffN > 1 {
          assert ffSrc == data;  // a run starts at a full segment, which is never the padded copy
          n := srcsz - 8 * ffS;
        }
        Flush(ffSrc, srcsz, i, buffer.position, ffS, ffN, ffP, n, 0);
        ffN := 0;
      }
      if !spoiled {
        SoundEnd(x, buffer.content, i, buffer.position, ffS, ffP);
      }
      BrokenUnfold(data[..], srcsz, buffer.content, buffer.position);
      var maxsz := Ceil2048(srcsz) * 2 + srcsz + 2;
      if maxsz < buffer.position {
        return Err;
      }
      return Ok(buffer.content[..buffer.position]);
    }

    /** One run block; `left` bytes of the message follow its 0xff. */
    method UnpackRun(data: array<byte>, len: nat, left: nat) returns (ok: bool, left': nat)
      requires left <= len <= data.Length
      modifies buffer
      ensures ok <==> len - left < data.Length && left >= RunSize(data[len - left]) - 1
      ensures ok ==>
        && left' == left - (RunSize(data[len - left]) - 1) && left' < left
        && buffer.content == Put(old(buffer.content), old(buffer.position), data[..][len - left + 1..len - left'])
        && buffer.position == old(buffer.position) + (left - 1 - left')
    {
      hide Put, RunSize;
      if len - left >= data.Length {
        return false, 0;
      }
      RunSizePositive(data[len - left]);
      var n := RunSize(data[len - left]) - 2;
      if left < n + 1 {
        return false, 0;
      }
      buffer.Write(data[..][len - left + 1..len - left + 1 + n]);
      return true, left - n - 1;
    }

    /** One mask block; `left` bytes of the message follow its header. */
    method UnpackBlock(data: array<byte>, len: nat, left: nat, header: byte) returns (ok: bool, left': int)
      requires left <= len <= data.Length
      modifies buffer
      ensures Ones(header, 8) <= left ==>
        && ok && left' == left - Ones(header, 8)
        && buffer.content
           == Put(old(buffer.content), old(buffer.position), Spread(header, data[len - left..len - left'], 8))
        && buffer.position == old(buffer.position) + 8
      ensures Ones(header, 8) > left && len == data.Length ==> !ok
      ensures ok ==> left' <= left && buffer.position <= |buffer.content|
    {
      hide Put, PutAll, Ones, Spread, Spreading;
      left' := left;
      var h: nat := header;
      ghost var k := Ones(header, 8);
      ghost var enough := k <= left;
      ghost var was, at := buffer.content, buffer.position;
      ghost var stop := len - left + k;
      ghost var d := data[..];
      ghost var rest: seq<byte> := if enough then d[len - left..stop] else [];
      assert enough ==> rest == data[len - left..stop];
      ghost var whole := if enough then Spread(header, rest, 8) else Zeros(8);
      ghost var done: seq<byte> := [];
      PutNone(was, at);
      if enough {
        SpreadingStart(header, rest);
      }
      for i := 0 to 8
        invariant left' <= left && left - left' + Ones(h, 8 - i) == k
        invariant len == data.Length ==> left' >= 0
        invariant buffer.position == at + i && |done| == i
        invariant buffer.content == PutAll(was, at, done)
        invariant enough ==> rest == d[len - left'..stop] && Spreading(h, rest, done, i, whole)
      {
        OnesStep(h, 8 - i);
        if enough {
          SpreadingStep(h, rest, done, i, whole);
        }
        var b := 0;
        if h % 2 == 1 {
          if left' < 0 || len - left' >= data.Length {
            return false, left';
          }
          b := data[len - left'];
          if enough {
            FirstOf(d, len - left', stop);
            rest := rest[1..];
          }
          left' := left' - 1;
        }
        PutNext(was, at, done, b);
        buffer.WriteByte(b);
        done := done + [b];
        h := h / 2;
      }
      OnesStep(h, 0);
      if enough {
        SpreadingEnd(h, rest, done, whole);
      }
      PutSome(was, at, done);
      return true, left';
    }

    /** Accepts exactly what the server's unpacker accepts, with the same result;
        given a `len` short of the array, only a malformed message may differ. */
    method Unpack(data: array<byte>, size: nat) returns (r: Result<seq<byte>>)
      requires size <= data.Length
      modifies buffer
      ensures var n := if size == 0 then data.Length else size;
        Packing.Unpack(data[..n]).Ok? || n == data.Length ==> r == Packing.Unpack(data[..n])
    {
      hide *;
      buffer.Seek(0);
      var len := if size == 0 then data.Length else size;
      var srcsz: int := len;
      ghost var d := data[..];
      ghost var goal := Packing.Unpack(d[..len]);
      ghost var good := goal.Ok? || len == data.Length;
      assert d[..len] == data[..len];
      UnpackingStart(d, len, buffer.content[..0]);
      while srcsz > 0
        invariant srcsz <= len && data[..] == d
        invariant buffer.position <= |buffer.content|
        invariant good ==> Unpacking(buffer.content[..buffer.position], d, len, srcsz, goal)
      {
        ghost var was, out := buffer.content, buffer.content[..buffer.position];
        var header := data[len - srcsz];
        if good {
          UnpackingNext(out, d, len, srcsz, goal);
        }
        srcsz := srcsz - 1;
        var ok, left;
        if header == 255 {
          ok, left := UnpackRun(data, len, srcsz);
          if ok {
            PutPrefix(was, |out|, d[len - srcsz + 1..len - left]);
          }
        } else {
          ok, left := UnpackBlock(data, len, srcsz, header);
          if ok && good {
            PutPrefix(was, |out|, Spread(header, d[len - srcsz..len - left], 8));
          }
        }
        if !ok {
          return Err;
        }
        srcsz := left;
      }
      if good {
        UnpackingEnd(buffer.content[..buffer.position], d, len, srcsz, goal);
      }
      return Ok(buffer.content[..buffer.position]);
    }
  }

  /** With `out` read, the last `n` bytes of `d[..len]` complete the answer `goal`. */
  ghost predicate Unpacking(out: seq<byte>, d: seq<byte>, len: nat, n: int, goal: Result<seq<byte>>) {
    0 <= n <= len <= |d| && Prepend(out, Packing.Unpack(d[len - n..len])) == goal
  }

  lemma UnpackingStart(d: seq<byte>, len: nat, out: seq<byte>)
    requires len <= |d| && out == []
    ensures Unpacking(out, d, len, len, Packing.Unpack(d[..len]))
  {
    hide Packing.Unpack;
    assert d[0..len] == d[..len];
    StartUnpack(out, d[..len]);
  }

  lemma UnpackingEnd(out: seq<byte>, d: seq<byte>, len: nat, n: int, goal: Result<seq<byte>>)
    requires Unpacking(out, d, len, n, goal) && n <= 0
    ensures goal == Ok(out)
  {
    assert d[len..len] == [] && out + [] == out;
  }

  /** Reading the block at the front of the last `n` bytes. */
  lemma UnpackingNext(out: seq<byte>, d: seq<byte>, len: nat, n: int, goal: Result<seq<byte>>)
    requires Unpacking(out, d, len, n, goal) && n > 0
    ensures d[len - n] == 255 && n < 2 ==> goal == Err
    ensures d[len - n] == 255 && n >= 2 ==>
      var k := RunSize(d[len - n + 1]);
      && (n < k ==> goal == Err)
      && (n >= k >= 2 ==> Unpacking(out + d[len - n + 2..len - n + k], d, len, n - k, goal))
    ensures d[len - n] != 255 ==>
      var k := Ones(d[len - n], 8) + 1;
      && (n < k ==> goal == Err)
      && (n >= k ==>
            Unpacking(out + Spread(d[len - n], d[len - n + 1..len - n + k], 8), d, len, n - k, goal))
  {
    hide Packing.Unpack, RunSize, Ones, Spread;
    if d[len - n] == 255 {
      UnpackRunAt(d, len - n, len, out);
    } else {
      UnpackMaskAt(d, len - n, len, out);
    }
  }

  /** The last run of a message is copied literally, padding included. */
  lemma {:induction false} LastRunTail(p: seq<byte>, i: nat)
    requires |p| % 8 == 0 && LastRun(p, i) > 0
    ensures 8 * LastRun(p, i) <= |p| && 8 * LastRun(p, i) <= |PackFrom(p, i)|
    ensures PackFrom(p, i)[|PackFrom(p, i)| - 8 * LastRun(p, i)..] == p[|p| - 8 * LastRun(p, i)..]
    decreases |p| - 8 * i
  {
    hide PackFrom, RunLength, LastRun, MaskBlock, RunBlock, Full, Segment;
    LastRunAtEnd(p, i);
    if Full(p, i) {
      var n := RunLength(p, i, 1);
      PackFromRun(p, i);
      LastRunOfRun(p, i);
      if 8 * (i + n) == |p| {
        PackFromEnd(p, i + n);
        RunBlockTail(p, i, n);
      } else {
        LastRunTail(p, i + n);
        TailOf(RunBlock(p, i, n), PackFrom(p, i + n), 8 * LastRun(p, i + n));
      }
    } else {
      PackFromMask(p, i);
      LastRunOfMask(p, i);
      LastRunTail(p, i + 1);
      TailOf(MaskBlock(Segment(p, i)), PackFrom(p, i + 1), 8 * LastRun(p, i + 1));
    }
  }

  lemma RunBlockTail(p: seq<byte>, i: nat, n: nat)
    requires 1 <= n <= 256 && 8 * (i + n) == |p|
    ensures var b := RunBlock(p, i, n) + [];
      |b| == 2 + 8 * n && b[|b| - 8 * n..] == p[|p| - 8 * n..]
  {
  }

  lemma TailOf(a: seq<byte>, b: seq<byte>, n: nat)
    requires n <= |b|
    ensures (a + b)[|a + b| - n..] == b[|b| - n..]
  {
  }

  /** 2046 bytes without a zero are such a message. */
  lemma OverrunReal(x: seq<byte>)
    requires |x| == 2046 && forall i :: 0 <= i < |x| ==> x[i] != 0
    ensures Overruns(x)
  {
    var p := Pad8(x);
    forall j | 0 <= j < 256
      ensures Dense(p, j) && (j < 255 ==> Full(p, j))
    {
      if j < 255 {
        assert Segment(p, j) == x[8 * j..8 * j + 8];
        NoZeros(x[8 * j..8 * j + 8]);
      } else {
        LastSegment(x, 255);
        NoZeros(x[2040..]);
      }
    }
    hide Dense, Full, Pad8, LastRun;
    assert RunLength(p, 0, 1) == 256;
    LastRunOfRun(p, 0);
  }

  /** An overrun goes unnoticed exactly when the bytes after the message are zero. */
  lemma SpoiledExactly(data: seq<byte>, n: nat)
    requires PadLength(n) <= |data| && Overruns(data[..n])
    ensures |Pack(data[..n])| >= PadLength(n) - n
    ensures Spoiled(data, n) == Pack(data[..n]) <==> data[n..PadLength(n)] == Zeros(PadLength(n) - n)
  {
    var x := data[..n];
    var r := Pack(x);
    var k := PadLength(n) - n;
    LastRunTail(Pad8(x), 0);
    assert r[|r| - k..] == r[|r| - 2048..][2048 - k..] == Pad8(x)[|Pad8(x)| - 2048..][2048 - k..] == Zeros(k);
    assert r == r[..|r| - k] + r[|r| - k..];
    assert Spoiled(data, n)[|r| - k..] == data[n..PadLength(n)];
  }

  /** The block written for a run that lies inside the message, or that ends with it. */
  lemma BlockOf(data: seq<byte>, size: nat, ffS: nat, ffN: nat, n: nat)
    requires size <= |data| && 1 <= ffN <= 256 && 8 * (ffS + ffN) <= PadLength(size)
    requires n == 8 * ffN || (n == size - 8 * ffS && PadLength(n) == 8 * ffN)
    requires 1 <= n <= 2048 && 8 * ffS + n <= size
    ensures PadLength(n) == 8 * ffN
    ensures Literal(data, 8 * ffS, n) == RunBlock(Pad8(data[..size]), ffS, ffN)
  {
    var x := data[..size];
    assert PadLength(8 * ffN) == 8 * ffN;
    var p := Pad8(x);
    assert p[8 * ffS..8 * (ffS + ffN)] == data[8 * ffS..8 * ffS + n] + Zeros(8 * ffN - n);
  }

  /** The segment handed to the packer is the padded message's. */
  lemma SegmentInData(data: seq<byte>, size: nat, i: nat)
    requires 8 * i < size <= |data|
    ensures 8 * i + 8 <= |Pad8(data[..size])|
    ensures 8 * i + 8 <= size ==> Segment(Pad8(data[..size]), i) == data[8 * i..8 * i + 8]
    ensures 8 * i + 8 > size ==> Segment(Pad8(data[..size]), i) == data[8 * i..size] + Zeros(8 * i + 8 - size)
  {
    var x := data[..size];
    if 8 * i + 8 > size {
      LastSegment(x, i);
    }
  }

  /** How segment `i` answers the packer's questions. */
  lemma Answers(p: seq<byte>, i: nat)
    requires |p| % 8 == 0 && 8 * i + 8 <= |p|
    ensures Full(p, i) <==> |NonZero(Segment(p, i))| == 8
    ensures Dense(p, i) <==> |NonZero(Segment(p, i))| >= 6
    ensures |NonZero(Segment(p, i))| <= 8 && |MaskBlock(Segment(p, i))| == 1 + |NonZero(Segment(p, i))|
  {
  }

  // ----- where a message ends

  lemma LastRunOfRun(p: seq<byte>, i: nat)
    requires |p| % 8 == 0 && Full(p, i)
    ensures var n := RunLength(p, i, 1);
      LastRun(p, i) == if 8 * (i + n) == |p| then n else LastRun(p, i + n)
  {
  }

  lemma LastRunOfMask(p: seq<byte>, i: nat)
    requires |p| % 8 == 0 && 8 * i + 8 <= |p| && !Full(p, i)
    ensures LastRun(p, i) == LastRun(p, i + 1)
  {
  }

  /** Nothing is packed wrongly so far, and how the message ends is still open. */
  ghost predicate Sound(x: seq<byte>, c: seq<byte>, i: nat, offset: nat, ffS: nat, ffN: nat, ffP: nat)
  {
    && Progress(Pad8(x), c, i, offset, ffS, ffN, ffP)
    && (8 * i == |Pad8(x)| && ffN == 0 ==> !Overruns(x))
    && (8 * i < |Pad8(x)| && ffN == 0 ==> LastRun(Pad8(x), 0) == LastRun(Pad8(x), i))
    && (ffN > 0 ==> LastRun(Pad8(x), 0) == LastRun(Pad8(x), ffS))
  }

  lemma SoundStart(x: seq<byte>, c: seq<byte>)
    ensures Sound(x, c, 0, 0, 0, 0, 0)
  {
    Start(Pad8(x), c);
  }

  /** A packer that only wrote after the final bytes is still sound. */
  lemma SoundScratch(x: seq<byte>, was: seq<byte>, now: seq<byte>, i: nat, offset: nat, ffS: nat, ffN: nat, ffP: nat)
    requires Sound(x, was, i, offset, ffS, ffN, ffP)
    requires |now| >= |was| && forall k: nat | k <= offset && k <= |was| :: now[..k] == was[..k]
    ensures Sound(x, now, i, offset, ffS, ffN, ffP)
  {
    hide PackFrom, RunLength, LastRun, Overruns;
    var k := if ffN == 0 then offset else ffP;
    assert now[..k] == was[..k];
  }

  lemma SoundOpen(x: seq<byte>, c: seq<byte>, i: nat, offset: nat, ffS: nat, ffP: nat)
    requires Sound(x, c, i, offset, ffS, 0, ffP) && Full(Pad8(x), i)
    ensures Sound(x, c, i + 1, offset + 10, i, 1, offset)
  {
    hide PackFrom, RunLength, LastRun, Overruns, Progress;
    OpenRun(Pad8(x), c, i, offset, ffS, ffP);
  }

  lemma SoundGrow(x: seq<byte>, c: seq<byte>, i: nat, offset: nat, ffS: nat, ffN: nat, ffP: nat)
    requires 0 < ffN < 255 && Sound(x, c, i, offset, ffS, ffN, ffP) && Dense(Pad8(x), i)
    ensures Sound(x, c, i + 1, offset + 8, ffS, ffN + 1, ffP)
  {
    hide PackFrom, RunLength, LastRun, Overruns, Progress;
    GrowRun(Pad8(x), c, i, offset, ffS, ffN, ffP);
  }

  /** What is pending: a run that starts at a full segment and ends before `i`. */
  ghost predicate PendingRun(x: seq<byte>, c: seq<byte>, i: nat, offset: nat, ffS: nat, ffN: nat, ffP: nat)
  {
    && 8 * i <= |Pad8(x)| && 1 <= ffN <= 256 && ffS + ffN == i && Full(Pad8(x), ffS)
    && RunLength(Pad8(x), ffS, 1) == RunLength(Pad8(x), ffS, ffN)
    && ffP <= |c| && c[..ffP] + PackFrom(Pad8(x), ffS) == PackFrom(Pad8(x), 0)
    && offset == ffP + 2 + 8 * ffN
    && LastRun(Pad8(x), 0) == LastRun(Pad8(x), ffS)
  }

  lemma SoundPending(x: seq<byte>, c: seq<byte>, i: nat, offset: nat, ffS: nat, ffN: nat, ffP: nat)
    requires ffN > 0 && Sound(x, c, i, offset, ffS, ffN, ffP)
    ensures PendingRun(x, c, i, offset, ffS, ffN, ffP) && ffN < 256
    ensures 8 * ffS + 8 <= |x| && ffS + ffN == i && offset == ffP + 2 + 8 * ffN
    ensures Dense(Pad8(x), i) ==> PendingRun(x, c, i + 1, offset + 8, ffS, ffN + 1, ffP)
  {
    hide PackFrom, RunLength, LastRun, Overruns;
    FullInside(x, ffS);
    if Dense(Pad8(x), i) {
      RunGrows(Pad8(x), ffS, ffN);
    }
  }

  lemma SoundClose(x: seq<byte>, c: seq<byte>, c': seq<byte>, i: nat, offset: nat, ffS: nat, ffN: nat, ffP: nat)
    requires PendingRun(x, c, i, offset, ffS, ffN, ffP)
    requires ffN == 256 || !Dense(Pad8(x), i)
    requires 8 * i == |Pad8(x)| && ffN == 256 ==> |x| % 8 == 0
    requires c' == Put(c, ffP, RunBlock(Pad8(x), ffS, ffN))
    ensures Sound(x, c', i, offset, ffS, 0, ffP)
  {
    hide PackFrom, RunLength, LastRun, Put, Progress;
    var p := Pad8(x);
    PutPrefix(c, ffP, RunBlock(p, ffS, ffN));
    CloseRun(p, c, c', i, offset, ffS, ffN, ffP);
    RunStops(p, ffS, ffN);
    LastRunOfRun(p, ffS);
  }

  lemma PutPrefix(c: seq<byte>, at: nat, lit: seq<byte>)
    requires at <= |c|
    ensures Put(c, at, lit)[..at + |lit|] == c[..at] + lit
  {
  }

  lemma SoundMask(x: seq<byte>, c: seq<byte>, i: nat, offset: nat, used: nat, ffS: nat, ffP: nat)
    requires Sound(x, c, i, offset, ffS, 0, ffP)
    requires 8 * i + 8 <= |Pad8(x)| && !Full(Pad8(x), i)
    requires used == |MaskBlock(Segment(Pad8(x), i))| && offset + used <= |c|
    requires c[offset..offset + used] == MaskBlock(Segment(Pad8(x), i))
    ensures Sound(x, c, i + 1, offset + used, ffS, 0, ffP)
  {
    hide PackFrom, RunLength, MaskBlock, Progress, LastRun;
    AddMask(Pad8(x), c, i, offset, used, ffS, ffP);
    LastRunOfMask(Pad8(x), i);
    LastRunAtEnd(Pad8(x), i + 1);
  }

  lemma LastRunAtEnd(p: seq<byte>, i: nat)
    requires |p| % 8 == 0
    ensures 8 * i >= |p| ==> LastRun(p, i) == 0
  {
  }

  lemma SoundEnd(x: seq<byte>, c: seq<byte>, i: nat, offset: nat, ffS: nat, ffP: nat)
    requires 8 * i >= |x| && Sound(x, c, i, offset, ffS, 0, ffP)
    ensures offset <= |c| && c[..offset] == Pack(x) && !Overruns(x)
    ensures offset <= |x| + 2 * Ceil2048(|x|) + 2
  {
    hide PackFrom, RunLength, LastRun, Overruns;
    Finished(Pad8(x), c, i, offset, ffS, ffP);
    PackSizeTight(x);
  }

  /** The only place where the block differs from the run's: 256 segments up to a
      partial last one. */
  lemma Overrun(data: seq<byte>, n: nat, c: seq<byte>, i: nat, offset: nat, ffS: nat, ffP: nat)
    requires n <= |data| && n % 8 != 0 && 8 * i == PadLength(n)
    requires PendingRun(data[..n], c, i, offset, ffS, 256, ffP)
    ensures Overruns(data[..n]) && 8 * ffS + 2048 == PadLength(n)
    ensures |Pack(data[..n])| == offset <= n + 2 * Ceil2048(n) + 2
    ensures offset >= PadLength(n) - n
    ensures PadLength(n) <= |data| ==>
      Put(c, ffP, [255, 255] + data[8 * ffS..8 * ffS + 2048])[..offset] == Spoiled(data, n)
  {
    hide PackFrom, RunLength, LastRun;
    var x := data[..n];
    var p := Pad8(x);
    RunStops(p, ffS, 256);
    LastRunOfRun(p, ffS);
    PackFromRun(p, ffS);
    PackFromEnd(p, i);
    PackSizeTight(x);
    assert Pack(x) == c[..ffP] + RunBlock(p, ffS, 256);
    if PadLength(n) <= |data| {
      OverrunBytes(data, n, c, offset, ffS, ffP);
    }
  }

  lemma OverrunBytes(data: seq<byte>, n: nat, c: seq<byte>, offset: nat, ffS: nat, ffP: nat)
    requires PadLength(n) <= |data| && 8 * ffS + 2048 == PadLength(n) && ffP <= |c| && offset == ffP + 2050
    requires Pack(data[..n]) == c[..ffP] + RunBlock(Pad8(data[..n]), ffS, 256)
    ensures Put(c, ffP, [255, 255] + data[8 * ffS..8 * ffS + 2048])[..offset] == Spoiled(data, n)
  {
    hide Put, Pack, PadLength, Pad8;
    var p := Pad8(data[..n]);
    var lit := [255, 255] + data[8 * ffS..8 * ffS + 2048];
    PutPrefix(c, ffP, lit);
    var k := PadLength(n) - n;
    assert p[8 * ffS..n] == data[..n][8 * ffS..n] == data[8 * ffS..n];
    assert Pack(data[..n])[..offset - k] == c[..ffP] + ([255, 255] + data[8 * ffS..n]);
    assert lit == [255, 255] + data[8 * ffS..n] + data[n..PadLength(n)];
  }

  /** The message overran, and the padding of its last run came from `data`. */
  ghost predicate Broken(data: seq<byte>, n: nat, c: seq<byte>, offset: nat) {
    && n <= |data| && Overruns(data[..n]) && PadLength(n) <= |data|
    && |Pack(data[..n])| == offset >= PadLength(n) - n
    && offset <= |c| && c[..offset] == Spoiled(data, n)
    && offset <= n + 2 * Ceil2048(n) + 2
  }

  lemma BrokenUnfold(data: seq<byte>, n: nat, c: seq<byte>, offset: nat)
    ensures Broken(data, n, c, offset) ==>
      && n <= |data| && Overruns(data[..n]) && PadLength(n) <= |data|
      && |Pack(data[..n])| == offset >= PadLength(n) - n
      && offset <= |c| && c[..offset] == Spoiled(data, n)
      && offset <= n + 2 * Ceil2048(n) + 2
  {
  }

  lemma PendingBounds(x: seq<byte>, c: seq<byte>, i: nat, offset: nat, ffS: nat, ffN: nat, ffP: nat)
    requires PendingRun(x, c, i, offset, ffS, ffN, ffP)
    ensures ffS + ffN == i && offset == ffP + 2 + 8 * ffN && 8 * i <= PadLength(|x|)
  {
    hide PackFrom, RunLength, LastRun;
  }

  lemma OverrunAt(data: seq<byte>, n: nat, c: seq<byte>, c': seq<byte>, i: nat, ffS: nat, ffP: nat, ok: bool)
    requires 8 * i - 8 < n < 8 * i && n <= |data|
    requires PendingRun(data[..n], c, i, ffP + 2050, ffS, 256, ffP)
    requires ok <==> 8 * ffS + 2048 <= |data|
    requires ok ==> c' == Put(c, ffP, Literal(data, 8 * ffS, 2048))
    ensures Overruns(data[..n])
    ensures ok <==> PadLength(n) <= |data|
    ensures ok ==> Broken(data, n, c', ffP + 2050)
  {
    hide PackFrom, RunLength, LastRun, Put, Overruns, PendingRun, Spoiled;
    assert 8 * i == PadLength(n);
    Overrun(data, n, c, i, ffP + 2050, ffS, ffP);
    if ok {
      var lit := [255, 255] + data[8 * ffS..8 * ffS + 2048];
      assert Literal(data, 8 * ffS, 2048) == lit;
      assert |Put(c, ffP, lit)| >= ffP + 2050;
    }
  }

  lemma CloseInside(data: seq<byte>, size: nat, c: seq<byte>, c': seq<byte>, i: nat, offset: nat, ffS: nat,
      ffN: nat, ffP: nat, n: nat, used: nat)
    requires size <= |data| && PendingRun(data[..size], c, i, offset, ffS, ffN, ffP)
    requires ffN == 256 || !Dense(Pad8(data[..size]), i)
    requires n == 8 * ffN || (n == size - 8 * ffS && PadLength(n) == 8 * ffN && ffN < 256)
    requires 1 <= n <= 2048 && 8 * ffS + n <= size
    requires c' == Put(c, ffP, Literal(data, 8 * ffS, n))
    ensures Sound(data[..size], c', i, offset, ffS, 0, ffP)
    ensures offset + used <= |c| ==> offset + used <= |c'| && c'[offset..offset + used] == c[offset..offset + used]
  {
    hide PackFrom, RunLength, LastRun, Put, Sound;
    BlockOf(data, size, ffS, ffN, n);
    SoundClose(data[..size], c, c', i, offset, ffS, ffN, ffP);
    if offset + used <= |c| {
      PutAfter(c, ffP, RunBlock(Pad8(data[..size]), ffS, ffN), offset, offset + used);
    }
  }

  /** A run still pending at the end covers exactly the rest of the message. */
  lemma AtEnd(data: seq<byte>, size: nat, c: seq<byte>, i: nat, offset: nat, ffS: nat, ffN: nat, ffP: nat)
    requires size <= |data| && 8 * i >= size && ffN > 0 && Sound(data[..size], c, i, offset, ffS, ffN, ffP)
    ensures PendingRun(data[..size], c, i, offset, ffS, ffN, ffP) && ffN < 256
    ensures !Dense(Pad8(data[..size]), i)
    ensures 8 * ffS + 8 <= size && PadLength(size - 8 * ffS) == 8 * ffN && size - 8 * ffS <= 2048
    ensures ffN == 1 ==> PadLength(8) == 8
  {
    hide PackFrom, RunLength, LastRun, Overruns, PendingRun;
    SoundPending(data[..size], c, i, offset, ffS, ffN, ffP);
  }

  /** Scratch bytes leave what was before them alone. */
  lemma SegmentScratch(was: seq<byte>, now: seq<byte>, at: nat, lit: seq<byte>)
    requires now == PutAll(was, at + 1, lit)
    ensures |now| >= |was|
    ensures forall k: nat | k <= at && k <= |was| :: now[..k] == was[..k]
  {
    forall k: nat | k <= at && k <= |was|
      ensures now[..k] == was[..k]
    {
      PutParts(was, at + 1, lit, k);
    }
  }

  /** With its header, the scratch becomes the segment's block. */
  lemma SegmentMask(was: seq<byte>, now: seq<byte>, at: nat, seg: seq<byte>)
    requires |seg| == 8 && |NonZero(seg)| < 8
    requires now == PutAll(was, at + 1, NonZero(seg))
    ensures MaskOf(seg) < 256
    ensures var c := Put(now, at, [MaskOf(seg)]);
      && |c| >= |was|
      && at + |MaskBlock(seg)| <= |c|
      && c[at..at + |MaskBlock(seg)|] == MaskBlock(seg)
      && forall k: nat | k <= at && k <= |was| :: c[..k] == was[..k]
  {
    hide Put, NonZero, MaskOf;
    MaskBound(seg);
    SegmentScratch(was, now, at, NonZero(seg));
    var c := Put(now, at, [MaskOf(seg)]);
    forall k: nat | k <= at && k <= |was|
      ensures c[..k] == was[..k]
    {
      PutParts(now, at, [MaskOf(seg)], k);
    }
    PutParts(now, at, [MaskOf(seg)], 0);
    var n := |MaskBlock(seg)|;
    assert c[at..at + 1] == [MaskOf(seg)];
    if NonZero(seg) != [] {
      PutParts(was, at + 1, NonZero(seg), 0);
      PutAfter(now, at, [MaskOf(seg)], at + 1, at + n);
    }
    assert c[at..at + n] == c[at..at + 1] + c[at + 1..at + n];
  }
}
