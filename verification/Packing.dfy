/**
 The 0-packing format: an 8-byte segment is either a bitmask followed by its
 nonzero bytes, or part of a literal run introduced by 0xff and a length byte.
 `PackFrom` splits the padded input into blocks; `Unpack` is the inverse format.
 */
module Packing {
  import opened Bytes

  function PadLength(n: nat): (m: nat)
    ensures n <= m < n + 8 && m % 8 == 0
  {
    (n + 7) / 8 * 8
  }

  function Pad8(x: seq<byte>): (p: seq<byte>)
    ensures |p| == PadLength(|x|) && p[..|x|] == x
  {
    x + Zeros(PadLength(|x|) - |x|)
  }

  function NonZero(s: seq<byte>): (r: seq<byte>)
    ensures |r| <= |s|
  {
    if s == [] then [] else (if s[0] != 0 then [s[0]] else []) + NonZero(s[1..])
  }

  function Pow2(k: nat): (p: nat)
    ensures p > 0
  {
    if k == 0 then 1 else 2 * Pow2(k - 1)
  }

  /** Bit `i` is set exactly when byte `i` is nonzero. */
  function MaskOf(s: seq<byte>): (m: nat)
    ensures m < Pow2(|s|)
  {
    if s == [] then 0 else (if s[0] != 0 then 1 else 0) + 2 * MaskOf(s[1..])
  }

  function Ones(mask: nat, n: nat): (k: nat)
    ensures k <= n
    decreases n
  {
    if n == 0 then 0 else mask % 2 + Ones(mask / 2, n - 1)
  }

  /** Lays `bytes` out over `n` positions, at the set bits of `mask`. */
  function Spread(mask: nat, bytes: seq<byte>, n: nat): (s: seq<byte>)
    requires |bytes| == Ones(mask, n)
    ensures |s| == n
    decreases n
  {
    if n == 0 then []
    else if mask % 2 == 1 then [bytes[0]] + Spread(mask / 2, bytes[1..], n - 1)
    else [0] + Spread(mask / 2, bytes, n - 1)
  }

  function Segment(p: seq<byte>, i: nat): (s: seq<byte>)
    requires 8 * i + 8 <= |p|
    ensures |s| == 8
  {
    p[8 * i..8 * i + 8]
  }

  predicate Full(p: seq<byte>, i: nat) {
    8 * i + 8 <= |p| && |NonZero(Segment(p, i))| == 8
  }

  predicate Dense(p: seq<byte>, i: nat) {
    8 * i + 8 <= |p| && |NonZero(Segment(p, i))| >= 6
  }

  /** Segments in the run that starts at `i`, of which `n` are known: dense
      segments join until there are 256. */
  function RunLength(p: seq<byte>, i: nat, n: nat): (r: nat)
    requires 1 <= n <= 256 && 8 * (i + n) <= |p|
    ensures n <= r <= 256 && 8 * (i + r) <= |p|
    ensures forall j :: i + n <= j < i + r ==> Dense(p, j)
    ensures r < 256 ==> !Dense(p, i + r)
    decreases 256 - n
  {
    if n < 256 && Dense(p, i + n) then RunLength(p, i, n + 1) else n
  }

  function RunBlock(p: seq<byte>, i: nat, n: nat): (b: seq<byte>)
    requires 1 <= n <= 256 && 8 * (i + n) <= |p|
  {
    [255, n - 1] + p[8 * i..8 * (i + n)]
  }

  function MaskBlock(s: seq<byte>): (b: seq<byte>)
    requires |s| <= 8
    ensures |b| == 1 + |NonZero(s)|
  {
    MaskBound(s);
    [MaskOf(s)] + NonZero(s)
  }

  function PackFrom(p: seq<byte>, i: nat): (r: seq<byte>)
    requires |p| % 8 == 0
    decreases |p| - 8 * i
  {
    if 8 * i >= |p| then []
    else if Full(p, i) then
      var n := RunLength(p, i, 1);
      RunBlock(p, i, n) + PackFrom(p, i + n)
    else
      MaskBlock(Segment(p, i)) + PackFrom(p, i + 1)
  }

  function Pack(x: seq<byte>): (r: seq<byte>)
  {
    PackFrom(Pad8(x), 0)
  }

  function RunSize(count: int): (n: int) {
    2 + (count + 1) * 8
  }

  function Unpack(s: seq<byte>): (r: Result<seq<byte>>)
    decreases |s|
  {
    if s == [] then Ok([])
    else if s[0] == 255 then
      if |s| < 2 || |s| < RunSize(s[1]) then Err
      else Prepend(s[2..RunSize(s[1])], Unpack(s[RunSize(s[1])..]))
    else
      var k := Ones(s[0], 8);
      if |s| < k + 1 then Err
      else Prepend(Spread(s[0], s[1..k + 1], 8), Unpack(s[k + 1..]))
  }

  function Prepend(a: seq<byte>, r: Result<seq<byte>>): (q: Result<seq<byte>>)
  {
    if r.Ok? then Ok(a + r.value) else Err
  }

  // ----- one step of the splitter

  lemma PackFromEnd(p: seq<byte>, i: nat)
    requires |p| % 8 == 0 && 8 * i >= |p|
    ensures PackFrom(p, i) == []
  {
  }

  lemma PackFromRun(p: seq<byte>, i: nat)
    requires |p| % 8 == 0 && Full(p, i) && 8 * i + 8 <= |p|
    ensures var n := RunLength(p, i, 1);
      && PackFrom(p, i) == RunBlock(p, i, n) + PackFrom(p, i + n)
      && |PackFrom(p, i)| == 2 + 8 * n + |PackFrom(p, i + n)|
  {
    hide RunLength, MaskBlock, Segment, Dense;
  }

  lemma PackFromMask(p: seq<byte>, i: nat)
    requires |p| % 8 == 0 && !Full(p, i) && 8 * i + 8 <= |p|
    ensures PackFrom(p, i) == MaskBlock(Segment(p, i)) + PackFrom(p, i + 1)
    ensures |PackFrom(p, i)| <= 8 + |PackFrom(p, i + 1)|
  {
  }

  lemma PackFromSparse(p: seq<byte>, i: nat)
    requires |p| % 8 == 0 && !Dense(p, i) && 8 * i + 8 <= |p|
    ensures |PackFrom(p, i)| <= 6 + |PackFrom(p, i + 1)|
  {
  }

  // ----- masks

  lemma {:induction false} MaskBound(s: seq<byte>)
    requires |s| <= 8
    ensures 0 <= MaskOf(s) < 256
    ensures |NonZero(s)| < 8 ==> MaskOf(s) < 255
  {
    Pow2Monotone(|s|, 8);
    if |NonZero(s)| < 8 && MaskOf(s) >= 255 {
      AllOnes(s);
    }
  }

  lemma {:induction false} Pow2Monotone(a: nat, b: nat)
    requires a <= b
    ensures Pow2(a) <= Pow2(b)
    ensures Pow2(8) == 256
    decreases b
  {
    assert Pow2(4) == 16;
    assert Pow2(6) == 64;
    if a < b {
      Pow2Monotone(a, b - 1);
    }
  }

  /** Only a full segment has all its mask bits set. */
  lemma {:induction false} AllOnes(s: seq<byte>)
    requires MaskOf(s) >= Pow2(|s|) - 1
    ensures |NonZero(s)| == |s|
  {
    if s != [] {
      AllOnes(s[1..]);
    }
  }

  lemma {:induction false} SpreadMask(s: seq<byte>)
    ensures Ones(MaskOf(s), |s|) == |NonZero(s)|
    ensures Spread(MaskOf(s), NonZero(s), |s|) == s
  {
    if s != [] {
      SpreadMask(s[1..]);
      var m := MaskOf(s[1..]);
      var bit := if s[0] != 0 then 1 else 0;
      assert MaskOf(s) % 2 == bit && MaskOf(s) / 2 == m;
      if s[0] != 0 {
        assert NonZero(s)[1..] == NonZero(s[1..]);
      } else {
        assert NonZero(s) == NonZero(s[1..]);
      }
    }
  }

  lemma {:induction false} SnocByte(s: seq<byte>, b: byte)
    ensures NonZero(s + [b]) == NonZero(s) + (if b != 0 then [b] else [])
    ensures MaskOf(s + [b]) == MaskOf(s) + (if b != 0 then Pow2(|s|) else 0)
  {
    var t := s + [b];
    if s != [] {
      assert t[1..] == s[1..] + [b];
      SnocByte(s[1..], b);
    } else {
      assert t[1..] == [];
    }
  }

  lemma NoBytes(s: seq<byte>)
    requires s == []
    ensures NonZero(s) == [] && MaskOf(s) == 0
  {
  }

  lemma OnesStep(mask: nat, n: nat)
    ensures Ones(mask, 0) == 0
    ensures n > 0 ==> Ones(mask, n) == mask % 2 + Ones(mask / 2, n - 1)
  {
  }

  /** Moving the first position of a spread over to the bytes already laid out. */
  lemma SpreadStep(done: seq<byte>, mask: nat, bytes: seq<byte>, n: nat)
    requires n > 0 && |bytes| == Ones(mask, n)
    ensures mask % 2 == 1 ==>
      && bytes != [] && |bytes| - 1 == Ones(mask / 2, n - 1)
      && done + Spread(mask, bytes, n) == done + [bytes[0]] + Spread(mask / 2, bytes[1..], n - 1)
    ensures mask % 2 == 0 ==>
      && |bytes| == Ones(mask / 2, n - 1)
      && done + Spread(mask, bytes, n) == done + [0] + Spread(mask / 2, bytes, n - 1)
  {
  }

  lemma SpreadEnd(done: seq<byte>, mask: nat, bytes: seq<byte>)
    requires |bytes| == Ones(mask, 0)
    ensures done + Spread(mask, bytes, 0) == done
  {
  }

  /** `i` positions of `whole` are laid out; `mask` and `bytes` hold what is left of it. */
  ghost predicate Spreading(mask: nat, bytes: seq<byte>, done: seq<byte>, i: nat, whole: seq<byte>) {
    i <= 8 && |bytes| == Ones(mask, 8 - i) && done + Spread(mask, bytes, 8 - i) == whole
  }

  lemma SpreadingStart(mask: nat, bytes: seq<byte>)
    requires |bytes| == Ones(mask, 8)
    ensures Spreading(mask, bytes, [], 0, Spread(mask, bytes, 8))
  {
  }

  lemma SpreadingStep(mask: nat, bytes: seq<byte>, done: seq<byte>, i: nat, whole: seq<byte>)
    requires i < 8 && Spreading(mask, bytes, done, i, whole)
    ensures mask % 2 == 1 ==> bytes != [] && Spreading(mask / 2, bytes[1..], done + [bytes[0]], i + 1, whole)
    ensures mask % 2 == 0 ==> Spreading(mask / 2, bytes, done + [0], i + 1, whole)
  {
    hide Ones, Spread;
    SpreadStep(done, mask, bytes, 8 - i);
  }

  lemma SpreadingEnd(mask: nat, bytes: seq<byte>, done: seq<byte>, whole: seq<byte>)
    requires Spreading(mask, bytes, done, 8, whole)
    ensures done == whole
  {
    SpreadEnd(done, mask, bytes);
  }

  // ----- round trip

  lemma UnpackRun(body: seq<byte>, n: nat, rest: seq<byte>)
    requires 1 <= n <= 256 && |body| == 8 * n
    ensures Unpack([255, n - 1] + body + rest) == Prepend(body, Unpack(rest))
  {
    var r := [255, n - 1] + body + rest;
    assert r[0] == 255 && r[1] == n - 1 && RunSize(n - 1) == 2 + |body|;
    assert r[2..2 + |body|] == body;
    assert r[2 + |body|..] == rest;
  }

  lemma UnpackMask(s: seq<byte>, rest: seq<byte>)
    requires |s| == 8 && |NonZero(s)| < 8
    ensures Unpack(MaskBlock(s) + rest) == Prepend(s, Unpack(rest))
  {
    MaskBound(s);
    SpreadMask(s);
    var r := MaskBlock(s) + rest;
    var k := |NonZero(s)|;
    assert r[0] == MaskOf(s);
    assert r[1..k + 1] == NonZero(s);
    assert r[k + 1..] == rest;
  }

  lemma {:induction false} UnpackPackFrom(p: seq<byte>, i: nat)
    requires |p| % 8 == 0 && 8 * i <= |p|
    ensures Unpack(PackFrom(p, i)) == Ok(p[8 * i..])
    decreases |p| - 8 * i
  {
    hide PackFrom, Unpack, RunLength, MaskBlock;
    if 8 * i == |p| {
      PackFromEnd(p, i);
      UnpackEmpty();
    } else if Full(p, i) {
      var n := RunLength(p, i, 1);
      PackFromRun(p, i);
      UnpackPackFrom(p, i + n);
      UnpackRun(p[8 * i..8 * (i + n)], n, PackFrom(p, i + n));
      assert p[8 * i..8 * (i + n)] + p[8 * (i + n)..] == p[8 * i..];
    } else {
      PackFromMask(p, i);
      UnpackPackFrom(p, i + 1);
      UnpackMask(Segment(p, i), PackFrom(p, i + 1));
      assert Segment(p, i) + p[8 * (i + 1)..] == p[8 * i..];
    }
  }

  lemma UnpackEmpty()
    ensures Unpack([]) == Ok([])
  {
  }

  /** Unpacking a packed message gives it back, zero-padded to whole segments. */
  lemma UnpackPack(x: seq<byte>)
    ensures Unpack(Pack(x)) == Ok(x + Zeros(PadLength(|x|) - |x|))
  {
    UnpackPackFrom(Pad8(x), 0);
  }

  /** Padding first changes nothing. */
  lemma PackPadded(x: seq<byte>)
    ensures Pack(Pad8(x)) == Pack(x)
  {
    assert Pad8(Pad8(x)) == Pad8(x);
  }

  /** Two messages pack alike exactly when they differ only in zero padding. */
  lemma PackInjective(x: seq<byte>, y: seq<byte>)
    ensures Pack(x) == Pack(y) <==> Pad8(x) == Pad8(y)
  {
    UnpackPack(x);
    UnpackPack(y);
  }

  lemma PrependAssociative(a: seq<byte>, b: seq<byte>, r: Result<seq<byte>>)
    ensures Prepend(a, Prepend(b, r)) == Prepend(a + b, r)
  {
    if r.Ok? {
      assert a + (b + r.value) == a + b + r.value;
    }
  }

  lemma RunSizePositive(count: byte)
    ensures RunSize(count) >= 10
  {
  }

  /** The first block of a packed stream does not depend on what follows it. */
  lemma UnpackFirst(a: seq<byte>, b: seq<byte>) returns (head: seq<byte>, rest: seq<byte>)
    requires a != [] && Unpack(a).Ok?
    ensures |rest| < |a|
    ensures Unpack(a) == Prepend(head, Unpack(rest))
    ensures Unpack(a + b) == Prepend(head, Unpack(rest + b))
  {
    hide Ones, Spread, RunSize;
    var ab := a + b;
    assert ab[0] == a[0];
    if a[0] == 255 {
      var used := RunSize(a[1]);
      RunSizePositive(a[1]);
      assert ab[1] == a[1];
      assert ab[2..used] == a[2..used];
      assert ab[used..] == a[used..] + b;
      return a[2..used], a[used..];
    } else {
      var used := Ones(a[0], 8) + 1;
      assert ab[1..used] == a[1..used];
      assert ab[used..] == a[used..] + b;
      return Spread(a[0], a[1..used], 8), a[used..];
    }
  }

  lemma UnpackRunStep(s: seq<byte>)
    requires s != [] && s[0] == 255
    ensures |s| < 2 ==> Unpack(s) == Err
    ensures |s| >= 2 ==> RunSize(s[1]) >= 10
    ensures |s| >= 2 && |s| < RunSize(s[1]) ==> Unpack(s) == Err
    ensures |s| >= 2 && |s| >= RunSize(s[1]) ==>
      Unpack(s) == Prepend(s[2..RunSize(s[1])], Unpack(s[RunSize(s[1])..]))
  {
    hide Spread, Ones;
  }

  /** Reading a run block of the message `d[..len]` at `a`, with `out` already read. */
  lemma UnpackRunAt(d: seq<byte>, a: nat, len: nat, out: seq<byte>)
    requires a < len <= |d| && d[a] == 255
    ensures a + 2 > len ==> Unpack(d[a..len]) == Err
    ensures a + 2 <= len ==> var n := RunSize(d[a + 1]);
      && n >= 10
      && (len - a < n ==> Unpack(d[a..len]) == Err)
      && (len - a >= n ==>
            Prepend(out, Unpack(d[a..len])) == Prepend(out + d[a + 2..a + n], Unpack(d[a + n..len])))
  {
    hide Unpack, RunSize;
    var rest := d[a..len];
    assert rest[0] == 255;
    UnpackRunStep(rest);
    if a + 2 <= len {
      var n := RunSize(d[a + 1]);
      RunSizePositive(d[a + 1]);
      assert rest[1] == d[a + 1];
      if len - a >= n {
        SliceOfSlice(d, a, len, 2, n);
        SliceOfSlice(d, a, len, n, len - a);
        PrependAssociative(out, rest[2..n], Unpack(rest[n..]));
      }
    }
  }

  lemma UnpackMaskAt(d: seq<byte>, a: nat, len: nat, out: seq<byte>)
    requires a < len <= |d| && d[a] != 255
    ensures var n := Ones(d[a], 8) + 1;
      && (len - a < n ==> Unpack(d[a..len]) == Err)
      && (len - a >= n ==>
            Prepend(out, Unpack(d[a..len])) == Prepend(out + Spread(d[a], d[a + 1..a + n], 8), Unpack(d[a + n..len])))
  {
    hide Spread, Ones, RunSize;
    var rest := d[a..len];
    assert rest[0] == d[a];
    var n := Ones(d[a], 8) + 1;
    if len - a >= n {
      SliceOfSlice(d, a, len, 1, n);
      SliceOfSlice(d, a, len, n, len - a);
      PrependAssociative(out, Spread(d[a], rest[1..n], 8), Unpack(rest[n..]));
    }
  }

  lemma StartUnpack(s: seq<byte>, input: seq<byte>)
    requires s == []
    ensures Prepend(s, Unpack(input)) == Unpack(input)
  {
    if Unpack(input).Ok? {
      assert [] + Unpack(input).value == Unpack(input).value;
    }
  }

  /** Packed streams can be concatenated. */
  lemma {:induction false} UnpackConcat(a: seq<byte>, b: seq<byte>)
    requires Unpack(a).Ok?
    ensures Unpack(a + b) == Prepend(Unpack(a).value, Unpack(b))
    decreases |a|
  {
    hide Unpack;
    if a == [] {
      UnpackEmpty();
      assert a + b == b;
      if Unpack(b).Ok? {
        assert [] + Unpack(b).value == Unpack(b).value;
      }
    } else {
      var head, rest := UnpackFirst(a, b);
      UnpackConcat(rest, b);
      PrependAssociative(head, Unpack(rest).value, Unpack(b));
    }
  }

  // ----- size

  function Ceil8(n: nat): (q: nat) {
    (n + 7) / 8
  }

  function Ceil256(n: nat): (q: nat) {
    (n + 255) / 256
  }

  function Ceil2048(n: nat): (q: nat) {
    (n + 2047) / 2048
  }

  lemma CeilStep(a: nat, n: nat)
    requires 1 <= n <= a
    ensures Ceil256(a - n) <= Ceil256(a)
    ensures Ceil256(a) >= 1
    ensures n == 256 ==> Ceil256(a) == Ceil256(a - n) + 1
    ensures n == a && n <= 256 ==> Ceil256(a - n) == 0
  {
  }

  /** The segment that ends a run early saves the two bytes of the run's header,
      so only full runs of 256 segments, and the last run, cost extra. */
  lemma {:induction false} PackFromSize(p: seq<byte>, i: nat, m: nat)
    requires |p| == 8 * m && i <= m
    ensures |PackFrom(p, i)| <= 8 * (m - i) + 2 * Ceil256(m - i)
    decreases m - i
  {
    hide *;
    if i == m {
      PackFromEnd(p, i);
    } else if Full(p, i) {
      var n := RunLength(p, i, 1);
      PackFromRun(p, i);
      CeilStep(m - i, n);
      if n == 256 || i + n == m {
        PackFromSize(p, i + n, m);
      } else {
        PackFromSparse(p, i + n);
        PackFromSize(p, i + n + 1, m);
        CeilStep(m - i, n + 1);
      }
    } else {
      PackFromMask(p, i);
      PackFromSize(p, i + 1, m);
      CeilStep(m - i, 1);
    }
  }

  lemma PackSize(x: seq<byte>)
    ensures |Pack(x)| <= 8 * Ceil8(|x|) + 2 * Ceil2048(|x|)
  {
    PackFromSize(Pad8(x), 0, Ceil8(|x|));
  }

  /** A partial last segment of `r` bytes costs at most two bytes more than it
      holds: either its mask byte, or, inside a run, its padding. */
  lemma {:induction false} PackFromSizeTail(p: seq<byte>, i: nat, m: nat, r: nat)
    requires |p| == 8 * m && i < m
    requires |NonZero(Segment(p, m - 1))| <= r <= 8
    ensures |PackFrom(p, i)| <= 8 * (m - i - 1) + r + 2 + 2 * Ceil256(m - i)
    decreases m - i
  {
    hide PackFrom, RunLength, MaskBlock, Ceil256, NonZero;
    CeilStep(m - i, 1);
    if Full(p, i) {
      var n := RunLength(p, i, 1);
      PackFromRun(p, i);
      CeilStep(m - i, n);
      if i + n == m {
        PackFromEnd(p, m);
        assert n > 1 ==> Dense(p, m - 1);
      } else if n == 256 {
        PackFromSizeTail(p, i + n, m, r);
      } else if i + n + 1 == m {
        PackFromEnd(p, m);
        PackFromMask(p, i + n);
      } else {
        PackFromSparse(p, i + n);
        PackFromSizeTail(p, i + n + 1, m, r);
        CeilStep(m - i, n + 1);
      }
    } else {
      PackFromMask(p, i);
      if i + 1 == m {
        PackFromEnd(p, m);
      } else {
        PackFromSizeTail(p, i + 1, m, r);
      }
    }
  }

  lemma {:induction false} NonZeroOfPadded(s: seq<byte>, k: nat)
    ensures NonZero(s + Zeros(k)) == NonZero(s)
    ensures MaskOf(s + Zeros(k)) == MaskOf(s)
    decreases |s| + k
  {
    var t := s + Zeros(k);
    if s != [] {
      assert t[1..] == s[1..] + Zeros(k);
      NonZeroOfPadded(s[1..], k);
    } else if k > 0 {
      assert t[1..] == [] + Zeros(k - 1);
      NonZeroOfPadded([], k - 1);
    }
  }

  /** The last segment of a padded message carries only the message's own bytes. */
  lemma LastSegment(x: seq<byte>, i: nat)
    requires 8 * i < |x| < 8 * i + 8
    ensures |Pad8(x)| == 8 * i + 8
    ensures Segment(Pad8(x), i) == x[8 * i..] + Zeros(8 * i + 8 - |x|)
    ensures NonZero(Segment(Pad8(x), i)) == NonZero(x[8 * i..])
    ensures MaskOf(Segment(Pad8(x), i)) == MaskOf(x[8 * i..])
  {
    NonZeroOfPadded(x[8 * i..], 8 * i + 8 - |x|);
  }

  lemma PackSizeTight(x: seq<byte>)
    ensures |Pack(x)| <= |x| + 2 * Ceil2048(|x|) + 2
  {
    hide PackFrom, NonZero, Segment, MaskOf;
    var m := Ceil8(|x|);
    if |x| % 8 == 0 {
      PackSize(x);
    } else {
      LastSegment(x, m - 1);
      PackFromSizeTail(Pad8(x), 0, m, |x| - 8 * (m - 1));
    }
  }

  /** The overhead the packer announces, two bytes for every sixteen, holds for the padded length. */
  lemma PackAnnounced(x: seq<byte>)
    ensures |Pack(x)| <= |Pad8(x)| + 2 * ((|x| + 15) / 16)
  {
    PackSize(x);
  }

  /** Of the length itself it does not hold: 14 bytes without a zero take 18. */
  lemma AnnouncedRaw(x: seq<byte>)
    requires |x| == 14 && forall i :: 0 <= i < |x| ==> x[i] != 0
    ensures |Pack(x)| == 18 > |x| + 2 * ((|x| + 15) / 16)
  {
    var p := Pad8(x);
    assert Segment(p, 0) == x[..8];
    LastSegment(x, 1);
    NoZeros(x[..8]);
    NoZeros(x[8..]);
    assert Full(p, 0) && Dense(p, 1);
    hide PackFrom, Dense, Full, NonZero;
    PackFromRun(p, 0);
    PackFromEnd(p, 2);
  }

  lemma {:induction false} NoZeros(s: seq<byte>)
    requires forall i :: 0 <= i < |s| ==> s[i] != 0
    ensures NonZero(s) == s
  {
    if s != [] {
      NoZeros(s[1..]);
    }
  }

  // ----- what a packer's buffer holds

  /** The first bytes of `buf` are final; the run that starts at segment `ffS`,
      if there is one, is pending, and everything after it is scratch. */
  ghost predicate Progress(p: seq<byte>, buf: seq<byte>, i: nat, offset: nat, ffS: nat, ffN: nat, ffP: nat)
    requires |p| % 8 == 0
  {
    && 8 * i <= |p|
    && if ffN == 0 then offset <= |buf| && buf[..offset] + PackFrom(p, i) == PackFrom(p, 0)
       else
         && ffN < 256 && ffS + ffN == i && Full(p, ffS)
         && ffP <= |buf| && offset == ffP + 2 + 8 * ffN
         && RunLength(p, ffS, 1) == RunLength(p, ffS, ffN)
         && buf[..ffP] + PackFrom(p, ffS) == PackFrom(p, 0)
  }

  lemma RunGrows(p: seq<byte>, i: nat, n: nat)
    requires 1 <= n < 256 && 8 * (i + n) <= |p| && Dense(p, i + n)
    ensures 8 * (i + n + 1) <= |p|
    ensures RunLength(p, i, n) == RunLength(p, i, n + 1) >= n + 1
  {
  }

  lemma RunStops(p: seq<byte>, i: nat, n: nat)
    requires 1 <= n <= 256 && 8 * (i + n) <= |p| && (n == 256 || !Dense(p, i + n))
    ensures RunLength(p, i, n) == n
  {
  }

  lemma Start(p: seq<byte>, buf: seq<byte>)
    requires |p| % 8 == 0
    ensures Progress(p, buf, 0, 0, 0, 0, 0)
  {
    assert buf[..0] + PackFrom(p, 0) == PackFrom(p, 0);
  }

  /** A full segment outside a run opens one; nothing more is final yet. */
  lemma OpenRun(p: seq<byte>, buf: seq<byte>, i: nat, offset: nat, ffS: nat, ffP: nat)
    requires |p| % 8 == 0 && Full(p, i) && Progress(p, buf, i, offset, ffS, 0, ffP)
    ensures Progress(p, buf, i + 1, offset + 10, i, 1, offset)
  {
    hide PackFrom, RunLength;
  }

  lemma GrowRun(p: seq<byte>, buf: seq<byte>, i: nat, offset: nat, ffS: nat, ffN: nat, ffP: nat)
    requires |p| % 8 == 0 && ffN > 0 && Progress(p, buf, i, offset, ffS, ffN, ffP) && Dense(p, i)
    ensures ffS + ffN + 1 == i + 1 && 8 * (i + 1) <= |p| && offset == ffP + 2 + 8 * ffN
    ensures Full(p, ffS) && RunLength(p, ffS, 1) == RunLength(p, ffS, ffN + 1)
    ensures ffN + 1 < 256 ==> Progress(p, buf, i + 1, offset + 8, ffS, ffN + 1, ffP)
  {
    hide PackFrom, RunLength;
    RunGrows(p, ffS, ffN);
  }

  /** Writing the block of the pending run makes its bytes final. */
  lemma CloseRun(p: seq<byte>, buf: seq<byte>, buf': seq<byte>, i: nat, offset: nat, ffS: nat, ffN: nat, ffP: nat)
    requires |p| % 8 == 0 && 8 * i <= |p|
    requires 1 <= ffN <= 256 && ffS + ffN == i && Full(p, ffS)
    requires RunLength(p, ffS, 1) == RunLength(p, ffS, ffN)
    requires ffN == 256 || !Dense(p, i)
    requires ffP <= |buf| && buf[..ffP] + PackFrom(p, ffS) == PackFrom(p, 0)
    requires offset == ffP + 2 + 8 * ffN <= |buf'| && buf'[..offset] == buf[..ffP] + RunBlock(p, ffS, ffN)
    ensures Progress(p, buf', i, offset, ffS, 0, ffP)
  {
    hide PackFrom, RunLength;
    RunStops(p, ffS, ffN);
    PackFromRun(p, ffS);
  }

  /** A mask block written at the end of the final bytes is final too. */
  lemma AddMask(p: seq<byte>, buf: seq<byte>, i: nat, offset: nat, used: nat, ffS: nat, ffP: nat)
    requires |p| % 8 == 0 && 8 * i + 8 <= |p| && !Full(p, i)
    requires used == |MaskBlock(Segment(p, i))| && offset + used <= |buf|
    requires buf[offset..offset + used] == MaskBlock(Segment(p, i))
    requires Progress(p, buf, i, offset, ffS, 0, ffP)
    ensures Progress(p, buf, i + 1, offset + used, ffS, 0, ffP)
  {
    hide PackFrom, MaskBlock;
    PackFromMask(p, i);
    assert buf[..offset + used] == buf[..offset] + buf[offset..offset + used];
  }

  lemma Finished(p: seq<byte>, buf: seq<byte>, i: nat, offset: nat, ffS: nat, ffP: nat)
    requires |p| % 8 == 0 && 8 * i >= |p| && Progress(p, buf, i, offset, ffS, 0, ffP)
    ensures offset <= |buf| && buf[..offset] == PackFrom(p, 0)
  {
    assert buf[..offset] + [] == buf[..offset];
  }

  /** A full segment lies wholly inside the message. */
  lemma FullInside(x: seq<byte>, i: nat)
    requires Full(Pad8(x), i)
    ensures 8 * i + 8 <= |x|
  {
    if 8 * i + 8 > |x| {
      LastSegment(x, i);
    }
  }
}
