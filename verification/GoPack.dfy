/** The server's packer: one output buffer, written in place. */
module GoPack {
  import opened Bytes
  import opened Packing

  /** `buf` is `was` with `lit` written at `at`. */
  ghost predicate Patched(was: seq<byte>, buf: seq<byte>, at: nat, lit: seq<byte>) {
    |buf| == |was| && Wrote(was, buf, at, lit)
  }

  /** Two writes next to each other are one. */
  lemma PatchTwice(a: seq<byte>, b: seq<byte>, c: seq<byte>, at: nat, s: seq<byte>, t: seq<byte>)
    requires Patched(a, b, at, s) && Patched(b, c, at + |s|, t)
    ensures Patched(a, c, at, s + t)
  {
    hide Wrote;
    WroteIs(a, b, at, s);
    WroteIs(b, c, at + |s|, t);
    WroteIs(a, c, at, s + t);
  }

  lemma KeptAfter(was: seq<byte>, buf: seq<byte>, at: nat, lit: seq<byte>, from: nat, n: nat)
    requires Patched(was, buf, at, lit) && at + |lit| <= from && from + n <= |was|
    ensures |buf| == |was| && buf[from..from + n] == was[from..from + n]
  {
    var end := at + |lit|;
    assert was[end..] == was[end..|was|];
    SameParts(was, buf, end, |was|, from, from + n);
  }

  /** Go's copy into a slice that is long enough. */
  method CopyInto(dst: array<byte>, at: nat, src: seq<byte>)
    requires at + |src| <= dst.Length
    modifies dst
    ensures Patched(old(dst[..]), dst[..], at, src)
  {
    for i := 0 to |src|
      invariant forall j :: 0 <= j < at ==> dst[j] == old(dst[j])
      invariant forall j :: 0 <= j < i ==> dst[at + j] == src[j]
      invariant forall j :: at + i <= j < dst.Length ==> dst[j] == old(dst[j])
    {
      dst[at + i] := src[i];
    }
  }

  method ZeroFill(dst: array<byte>, at: nat, n: nat)
    requires at + n <= dst.Length
    modifies dst
    ensures Patched(old(dst[..]), dst[..], at, Zeros(n))
  {
    for i := 0 to n
      invariant forall j :: 0 <= j < at ==> dst[j] == old(dst[j])
      invariant forall j :: at <= j < at + i ==> dst[j] == 0
      invariant forall j :: at + i <= j < dst.Length ==> dst[j] == old(dst[j])
    {
      dst[at + i] := 0;
    }
  }

  /** Writes the nonzero bytes after a place kept for the mask; inside a run, or
      for a full segment, what it wrote is scratch. */
  method PackSegment(dst: array<byte>, at: nat, src: seq<byte>, ffN: nat) returns (used: nat)
    requires |src| <= 8 && at + |NonZero(src)| < dst.Length
    modifies dst
    ensures dst[..at] == old(dst[..at])
    ensures ffN > 0 && |NonZero(src)| >= 6 ==> used == 8
    ensures ffN == 0 && |NonZero(src)| == 8 ==> used == 10
    ensures (ffN > 0 && |NonZero(src)| < 6) || (ffN == 0 && |NonZero(src)| < 8) ==>
      used == |MaskBlock(src)| && at + used <= dst.Length && dst[at..at + used] == MaskBlock(src)
  {
    hide NonZero, MaskOf, MaskBlock;
    var header := 0;
    var notzero := 0;
    NoBytes(src[..0]);
    for i := 0 to |src|
      invariant notzero == |NonZero(src[..i])| && header == MaskOf(src[..i])
      invariant notzero <= |NonZero(src)|
      invariant dst[..at] == old(dst[..at])
      invariant dst[at + 1..at + 1 + notzero] == NonZero(src[..i])
    {
      var v := src[i];
      assert src[..i + 1] == src[..i] + [v];
      SnocByte(src[..i], v);
      NonZeroPrefix(src, i + 1);
      if v != 0 {
        ghost var was := dst[at + 1..at + 1 + notzero];
        notzero := notzero + 1;
        header := header + Pow2(i);
        dst[at + notzero] := v;
        assert dst[at + 1..at + 1 + notzero] == was + [v];
      } else {
        assert NonZero(src[..i]) + [] == NonZero(src[..i]);
      }
    }
    assert src[..|src|] == src;
    if ffN > 0 && notzero >= 6 {
      return 8;
    }
    if notzero == 8 {
      return 10;
    }
    MaskBound(src);
    MaskBlockIs(src);
    dst[at] := header;
    assert dst[at..at + 1 + notzero] == [dst[at]] + dst[at + 1..at + 1 + notzero];
    return notzero + 1;
  }

  lemma MaskBlockIs(s: seq<byte>)
    requires |s| <= 8
    ensures MaskOf(s) < 256 && MaskBlock(s) == [MaskOf(s)] + NonZero(s)
  {
    MaskBound(s);
  }

  lemma {:induction false} NonZeroPrefix(s: seq<byte>, k: nat)
    requires k <= |s|
    ensures |NonZero(s[..k])| <= |NonZero(s)|
  {
    if k > 0 {
      NonZeroPrefix(s[1..], k - 1);
      assert s[..k][1..] == s[1..][..k - 1];
    }
  }

  /** The literal bytes of a run: `n` source bytes, or as many as there are,
      padded to whole segments. */
  function RunBytes(src: seq<byte>, n: nat): (r: seq<byte>)
    ensures |r| == PadLength(n)
  {
    if n > |src| then src + Zeros(PadLength(n) - |src|) else src[..n] + Zeros(PadLength(n) - n)
  }

  lemma BlockWritten(b0: seq<byte>, b1: seq<byte>, b2: seq<byte>, b3: seq<byte>, at: nat, top: seq<byte>,
      src: seq<byte>, n: nat, m: nat)
    requires |top| == 2 && m == if n > |src| then |src| else n
    requires Patched(b0, b1, at, top) && Patched(b1, b2, at + 2, src[..m])
    requires Patched(b2, b3, at + 2 + m, Zeros(PadLength(n) - m))
    ensures Patched(b0, b3, at, top + RunBytes(src, n))
  {
    assert RunBytes(src, n) == src[..m] + Zeros(PadLength(n) - m);
    hide *;
    PatchTwice(b1, b2, b3, at + 2, src[..m], Zeros(PadLength(n) - m));
    PatchTwice(b0, b1, b3, at, top, src[..m] + Zeros(PadLength(n) - m));
  }

  lemma TwoBytes(was: seq<byte>, buf: seq<byte>, at: nat, x: byte, y: byte)
    requires at + 2 <= |was| && buf == was[at := x][at + 1 := y]
    ensures Patched(was, buf, at, [x, y])
  {
  }

  method WriteFF(dst: array<byte>, at: nat, src: seq<byte>, n: nat)
    requires 8 <= PadLength(n) <= 2048
    requires at + 2 + PadLength(n) <= dst.Length
    modifies dst
    ensures Patched(old(dst[..]), dst[..], at, [255, PadLength(n) / 8 - 1] + RunBytes(src, n))
  {
    hide *;
    var align8 := PadLength(n);
    var m := if n > |src| then |src| else n;
    dst[at] := 255;
    dst[at + 1] := align8 / 8 - 1;
    ghost var b1 := dst[..];
    TwoBytes(old(dst[..]), b1, at, 255, align8 / 8 - 1);
    CopyInto(dst, at + 2, src[..m]);
    ghost var b2 := dst[..];
    ZeroFill(dst, at + 2 + m, align8 - m);
    BlockWritten(old(dst[..]), b1, b2, dst[..], at, [255, align8 / 8 - 1], src, n, m);
  }

  // ----- what the buffer holds

  lemma RunBytesAt(src: seq<byte>, i: nat, n: nat)
    requires 1 <= n && 8 * (i + n) <= PadLength(|src|)
    ensures 8 * i <= |src|
    ensures RunBytes(src[8 * i..], 8 * n) == Pad8(src)[8 * i..8 * (i + n)]
    ensures 8 * (i + n) == PadLength(|src|) ==>
      PadLength(|src| - 8 * i) == 8 * n && RunBytes(src[8 * i..], |src| - 8 * i) == RunBytes(src[8 * i..], 8 * n)
  {
    var tail := src[8 * i..];
    assert PadLength(8 * n) == 8 * n;
    if 8 * n <= |tail| {
      assert tail[..8 * n] == Pad8(src)[8 * i..8 * (i + n)];
    } else {
      assert RunBytes(tail, 8 * n) == Pad8(src)[8 * i..8 * (i + n)];
    }
  }

  /** The block `WriteFF` writes is the run's. */
  lemma RunWritten(src: seq<byte>, buf: seq<byte>, buf': seq<byte>, ffS: nat, ffN: nat, ffP: nat, n: nat)
    requires 1 <= ffN <= 256 && 8 * (ffS + ffN) <= PadLength(|src|)
    requires n == 8 * ffN || (8 * (ffS + ffN) == PadLength(|src|) && n == |src| - 8 * ffS)
    requires 8 * ffS <= |src| && PadLength(n) == 8 * ffN
    requires Patched(buf, buf', ffP, [255, PadLength(n) / 8 - 1] + RunBytes(src[8 * ffS..], n))
    ensures ffP + 2 + 8 * ffN <= |buf'|
    ensures buf'[..ffP + 2 + 8 * ffN] == buf[..ffP] + RunBlock(Pad8(src), ffS, ffN)
  {
    hide RunBytes, Pad8;
    RunBytesAt(src, ffS, ffN);
    var end := ffP + 2 + 8 * ffN;
    assert buf'[..end] == buf'[..ffP] + buf'[ffP..end];
  }

  /** Closing the pending run turns its bytes into final ones. */
  lemma RunClosed(src: seq<byte>, buf: seq<byte>, buf': seq<byte>, i: nat, offset: nat, ffS: nat, ffN: nat,
      ffP: nat, n: nat, used: nat)
    requires 8 * i <= |Pad8(src)| == PadLength(|src|)
    requires 1 <= ffN <= 256 && ffS + ffN == i && Full(Pad8(src), ffS)
    requires offset == ffP + 2 + 8 * ffN && offset + used <= |buf|
    requires RunLength(Pad8(src), ffS, 1) == RunLength(Pad8(src), ffS, ffN)
    requires ffN == 256 || !Dense(Pad8(src), i)
    requires n == 8 * ffN || (8 * i == PadLength(|src|) && n == |src| - 8 * ffS)
    requires buf[..ffP] + PackFrom(Pad8(src), ffS) == PackFrom(Pad8(src), 0)
    requires 8 * ffS <= |src| && PadLength(n) == 8 * ffN
    requires Patched(buf, buf', ffP, [255, PadLength(n) / 8 - 1] + RunBytes(src[8 * ffS..], n))
    ensures Progress(Pad8(src), buf', i, offset, ffS, 0, ffP)
    ensures |buf'| == |buf| && buf'[offset..offset + used] == buf[offset..offset + used]
  {
    hide *;
    RunWritten(src, buf, buf', ffS, ffN, ffP, n);
    var lit := [255, PadLength(n) / 8 - 1] + RunBytes(src[8 * ffS..], n);
    KeptAfter(buf, buf', ffP, lit, offset, used);
    CloseRun(Pad8(src), buf, buf', i, offset, ffS, ffN, ffP);
  }

  /** Only bytes after the final ones were touched. */
  lemma Scribbled(p: seq<byte>, was: seq<byte>, now: seq<byte>, i: nat, offset: nat, ffS: nat, ffN: nat, ffP: nat)
    requires |p| % 8 == 0 && Progress(p, was, i, offset, ffS, ffN, ffP)
    requires offset <= |was| == |now| && now[..offset] == was[..offset]
    ensures Progress(p, now, i, offset, ffS, ffN, ffP)
  {
    hide PackFrom, RunLength;
    if ffN > 0 {
      assert now[..ffP] == now[..offset][..ffP];
      assert was[..ffP] == was[..offset][..ffP];
    }
  }

  /** What `PackSegment` sees of segment `i`. */
  lemma SegmentOf(src: seq<byte>, i: nat)
    requires 8 * i < |src|
    ensures 8 * i + 8 <= |Pad8(src)|
    ensures var s := src[8 * i..if |src| >= 8 * i + 8 then 8 * i + 8 else |src|];
      NonZero(s) == NonZero(Segment(Pad8(src), i)) && MaskOf(s) == MaskOf(Segment(Pad8(src), i))
  {
    if |src| >= 8 * i + 8 {
      assert Segment(Pad8(src), i) == src[8 * i..8 * i + 8];
    } else {
      LastSegment(src, i);
      assert src[8 * i..|src|] == src[8 * i..];
    }
  }

  lemma SizeFits(src: seq<byte>)
    ensures |PackFrom(Pad8(src), 0)| <= MaxSize(|src|)
    ensures |src| > 0 ==> |PackFrom(Pad8(src), 0)| < MaxSize(|src|)
  {
    hide PackFrom;
    PackSizeTight(src);
    if |src| == 0 {
      PackFromEnd(Pad8(src), 0);
    }
  }

  /** Every byte `PackSegment` may touch lies inside the buffer. */
  lemma Room(src: seq<byte>, buf: seq<byte>, i: nat, offset: nat, ffS: nat, ffN: nat, ffP: nat)
    requires 8 * i < |src| && Progress(Pad8(src), buf, i, offset, ffS, ffN, ffP)
    ensures 8 * i + 8 <= |Pad8(src)|
    ensures offset + |NonZero(Segment(Pad8(src), i))| < MaxSize(|src|)
  {
    var p := Pad8(src);
    SizeFits(src);
    hide PackFrom, RunLength, NonZero, MaskBlock, Pad8, PadLength, MaxSize;
    assert 8 * i + 8 <= |p|;
    if ffN == 0 {
      BlockFits(p, i);
    } else {
      PackFromRun(p, ffS);
      if Dense(p, i) {
        RunGrows(p, ffS, ffN);
      } else {
        RunStops(p, ffS, ffN);
        BlockFits(p, i);
      }
    }
  }

  lemma BlockFits(p: seq<byte>, i: nat)
    requires |p| % 8 == 0 && 8 * i + 8 <= |p|
    ensures |NonZero(Segment(p, i))| < |PackFrom(p, i)|
  {
    hide PackFrom, RunLength, NonZero, MaskBlock;
    if Full(p, i) {
      PackFromRun(p, i);
    } else {
      PackFromMask(p, i);
      MaskBlockSize(Segment(p, i));
    }
  }

  lemma MaskBlockSize(s: seq<byte>)
    requires |s| == 8
    ensures |MaskBlock(s)| == 1 + |NonZero(s)|
  {
  }

  function MaxSize(n: nat): (m: nat) {
    n + (n + 2047) / 2048 * 100
  }

  /** The whole block of a run lies inside the buffer. */
  lemma RunRoom(src: seq<byte>, buf: seq<byte>, ffS: nat, n: nat, ffP: nat)
    requires Full(Pad8(src), ffS) && 1 <= n <= RunLength(Pad8(src), ffS, 1)
    requires ffP <= |buf| && buf[..ffP] + PackFrom(Pad8(src), ffS) == PackFrom(Pad8(src), 0)
    ensures ffP + 2 + 8 * n <= MaxSize(|src|)
  {
    SizeFits(src);
    hide *;
    PackFromRun(Pad8(src), ffS);
  }

  method Pack(input: seq<byte>) returns (result: seq<byte>)
    ensures result == Packing.Pack(input)
  {
    hide PackFrom, RunLength, NonZero, MaskBlock, RunBytes, MaskOf, Full, Dense, Segment, MaxSize, Progress,
      Patched, Pad8, PadLength, RunBlock;
    var packed := new byte[MaxSize(|input|)];
    ghost var p := Pad8(input);
    var offset: nat, i: nat := 0, 0;
    var ffS: nat, ffN: nat, ffP: nat := 0, 0, 0;
    Start(p, packed[..]);
    while 8 * i < |input|
      invariant packed.Length == MaxSize(|input|)
      invariant Progress(p, packed[..], i, offset, ffS, ffN, ffP)
    {
      var seg := input[8 * i..if |input| >= 8 * i + 8 then 8 * i + 8 else |input|];
      Look(input, packed[..], seg, i, offset, ffS, ffN, ffP);
      ghost var was := packed[..];
      var used := PackSegment(packed, offset, seg, ffN);
      ghost var now := packed[..];
      Scribbled(p, was, now, i, offset, ffS, ffN, ffP);
      Pending(input, now, i, offset, ffS, ffN, ffP);
      if used == 10 {
        OpenRun(p, now, i, offset, ffS, ffP);
        ffS := i;
        ffP := offset;
        ffN := 1;
      } else if used == 8 && ffN > 0 {
        GrowRun(p, now, i, offset, ffS, ffN, ffP);
        ffN := ffN + 1;
        if ffN == 256 {
          RunRoom(input, now, ffS, ffN, ffP);
          WriteFF(packed, ffP, input[8 * ffS..], ffN * 8);
          RunClosed(input, now, packed[..], i + 1, offset + used, ffS, ffN, ffP, ffN * 8, 0);
          ffN := 0;
        }
      } else {
        if ffN > 0 {
          WriteFF(packed, ffP, input[8 * ffS..], ffN * 8);
          RunClosed(input, now, packed[..], i, offset, ffS, ffN, ffP, ffN * 8, used);
          ffN := 0;
        }
        AddMask(p, packed[..], i, offset, used, ffS, ffP);
      }
      offset := offset + used;
      i := i + 1;
    }
    Pending(input, packed[..], i, offset, ffS, ffN, ffP);
    if ffN > 0 {
      NoMoreSegments(p, i);
      ghost var now := packed[..];
      WriteFF(packed, ffP, input[8 * ffS..], |input| - 8 * ffS);
      RunClosed(input, now, packed[..], i, offset, ffS, ffN, ffP, |input| - 8 * ffS, 0);
    }
    Finished(p, packed[..], i, offset, ffS, ffP);
    return packed[..offset];
  }

  /** What the packer relies on when it closes the pending run. */
  lemma Pending(src: seq<byte>, buf: seq<byte>, i: nat, offset: nat, ffS: nat, ffN: nat, ffP: nat)
    requires |buf| == MaxSize(|src|) && Progress(Pad8(src), buf, i, offset, ffS, ffN, ffP)
    ensures offset <= |buf| && 8 * i <= |Pad8(src)| == PadLength(|src|)
    ensures ffN > 0 ==>
      && ffN < 256 && ffS + ffN == i && Full(Pad8(src), ffS)
      && offset == ffP + 2 + 8 * ffN
      && RunLength(Pad8(src), ffS, 1) == RunLength(Pad8(src), ffS, ffN)
      && buf[..ffP] + PackFrom(Pad8(src), ffS) == PackFrom(Pad8(src), 0)
      && 8 * ffS <= |src|
    ensures ffN > 0 && 8 * i == |Pad8(src)| ==> PadLength(|src| - 8 * ffS) == 8 * ffN
    ensures PadLength(8 * ffN) == 8 * ffN && PadLength(2048) == 2048
    ensures 8 * i >= |src| ==> 8 * i == |Pad8(src)|
  {
    hide PackFrom, RunLength, MaxSize;
    if ffN > 0 {
      RunRoom(src, buf, ffS, ffN, ffP);
    }
  }

  /** How segment `i` answers the packer's questions, and that it has room. */
  lemma Look(src: seq<byte>, buf: seq<byte>, seg: seq<byte>, i: nat, offset: nat, ffS: nat, ffN: nat, ffP: nat)
    requires 8 * i < |src| && |buf| == MaxSize(|src|) && Progress(Pad8(src), buf, i, offset, ffS, ffN, ffP)
    requires seg == src[8 * i..if |src| >= 8 * i + 8 then 8 * i + 8 else |src|]
    ensures |seg| <= 8 && 8 * i + 8 <= |Pad8(src)|
    ensures offset <= |buf|
    ensures offset + |NonZero(seg)| < MaxSize(|src|)
    ensures Full(Pad8(src), i) <==> |NonZero(seg)| == 8
    ensures Dense(Pad8(src), i) <==> |NonZero(seg)| >= 6
    ensures |NonZero(seg)| <= 8
    ensures |Segment(Pad8(src), i)| == 8 && MaskBlock(seg) == MaskBlock(Segment(Pad8(src), i))
    ensures |MaskBlock(seg)| == 1 + |NonZero(seg)|
  {
    SegmentOf(src, i);
    Room(src, buf, i, offset, ffS, ffN, ffP);
    hide Pad8, Progress, MaxSize;
  }

  lemma NoMoreSegments(p: seq<byte>, i: nat)
    requires 8 * i >= |p|
    ensures !Dense(p, i)
  {
  }

  // ----- unpacking

  /** sproto.Append: `dst[..len]` is the slice and `dst` its backing array, which
      is replaced by one twice as long as needed when it is too short. */
  method Append(dst: array<byte>, len: nat, src: seq<byte>) returns (r: array<byte>)
    requires len <= dst.Length
    modifies dst
    ensures r == dst || fresh(r)
    ensures len + |src| <= r.Length && r[..len + |src|] == old(dst[..len]) + src
  {
    r := dst;
    if len + |src| > dst.Length {
      r := new byte[(len + |src|) * 2];
      CopyInto(r, 0, dst[..len]);
      assert r[..len] == r[..][0..0 + len];
    }
    assert r[..len] == old(dst[..len]);
    ghost var was := r[..];
    CopyInto(r, len, src);
    assert r[..len + |src|] == r[..][..len] + r[..][len..len + |src|];
    assert r[..][..len] == was[..len];
  }

  /** One mask block: the header is read bit by bit, lowest first. */
  method UnpackBlock(src: seq<byte>, buf: array<byte>) returns (used: nat, ok: bool)
    requires src != [] && buf.Length == 8
    modifies buf
    ensures ok <==> |src| >= Ones(src[0], 8) + 1
    ensures ok ==> used == Ones(src[0], 8) + 1 && buf[..] == Spread(src[0], src[1..used], 8)
  {
    hide Ones, Spread, Spreading;
    var header: nat := src[0];
    ghost var k := Ones(header, 8);
    ghost var enough := |src| >= k + 1;
    ghost var rest: seq<byte> := if enough then src[1..k + 1] else [];
    ghost var whole := if enough then Spread(header, rest, 8) else Zeros(8);
    var notzero := 0;
    if enough {
      SpreadingStart(header, rest);
    }
    for i := 0 to 8
      invariant notzero + Ones(header, 8 - i) == k && notzero + 1 <= |src|
      invariant enough ==> rest == src[1 + notzero..k + 1] && Spreading(header, rest, buf[..i], i, whole)
    {
      ghost var done := buf[..i];
      OnesStep(header, 8 - i);
      if enough {
        SpreadingStep(header, rest, done, i, whole);
      }
      if header % 2 == 1 {
        notzero := notzero + 1;
        if |src| < notzero + 1 {
          return 0, false;
        }
        buf[i] := src[notzero];
        if enough {
          FirstOf(src, notzero, k + 1);
          rest := rest[1..];
        }
      } else {
        buf[i] := 0;
      }
      assert buf[..i] == done;
      assert buf[..i + 1] == done + [buf[i]];
      header := header / 2;
    }
    OnesStep(header, 0);
    if enough {
      SpreadingEnd(header, rest, buf[..8], whole);
    }
    assert buf[..8] == buf[..];
    return notzero + 1, true;
  }

  method Unpack(input: seq<byte>) returns (r: Result<seq<byte>>)
    ensures r == Packing.Unpack(input)
  {
    hide Ones, Spread, RunSize;
    var unpacked := new byte[|input|];
    var len := 0;
    var buf := new byte[8];
    var src := input;
    StartUnpack(unpacked[..0], input);
    while |src| > 0
      invariant len <= unpacked.Length && fresh(unpacked) && fresh(buf)
      invariant buf.Length == 8 && unpacked != buf
      invariant Prepend(unpacked[..len], Packing.Unpack(src)) == Packing.Unpack(input)
      decreases |src|
    {
      var used;
      if src[0] == 255 {
        if |src| < 2 {
          return Err;
        }
        used := RunSize(src[1]);
        RunSizePositive(src[1]);
        if |src| < used {
          return Err;
        }
        PrependAssociative(unpacked[..len], src[2..used], Packing.Unpack(src[used..]));
        unpacked := Append(unpacked, len, src[2..used]);
        len := len + used - 2;
      } else {
        var ok;
        ghost var before := unpacked[..len];
        used, ok := UnpackBlock(src, buf);
        if !ok {
          return Err;
        }
        PrependAssociative(before, buf[..], Packing.Unpack(src[used..]));
        unpacked := Append(unpacked, len, buf[..]);
        len := len + 8;
      }
      src := src[used..];
    }
    assert unpacked[..len] + [] == unpacked[..len];
    return Ok(unpacked[..len]);
  }
}
