/** Bytes, little-endian integers and the failure type shared by all modules. */
module Bytes {

  type byte = b: int | 0 <= b < 256

  datatype Option<+T> = None | Some(value: T)

  datatype Result<+T> = Ok(value: T) | Err

  const TWO_16: int := 0x1_0000
  const TWO_31: int := 0x8000_0000
  const TWO_32: int := 0x1_0000_0000
  const TWO_63: int := 0x8000_0000_0000_0000
  const TWO_64: int := 0x1_0000_0000_0000_0000

  function Zeros(n: nat): (s: seq<byte>)
    ensures |s| == n
  {
    seq(n, _ => 0)
  }

  function Pow256(k: nat): (p: nat)
    ensures p > 0
  {
    if k == 0 then 1 else 256 * Pow256(k - 1)
  }

  /** The `k` low bytes of `n`, least significant first. */
  function LE(n: nat, k: nat): (s: seq<byte>)
    ensures |s| == k
    decreases k
  {
    if k == 0 then [] else [n % 256] + LE(n / 256, k - 1)
  }

  function FromLE(s: seq<byte>): (n: nat)
  {
    if s == [] then 0 else s[0] + 256 * FromLE(s[1..])
  }

  lemma {:induction false} LERoundTrip(n: nat, k: nat)
    requires n < Pow256(k)
    ensures FromLE(LE(n, k)) == n
    decreases k
  {
    if k > 0 {
      LERoundTrip(n / 256, k - 1);
      assert LE(n, k)[1..] == LE(n / 256, k - 1);
    }
  }

  lemma {:induction false} FromLEBound(s: seq<byte>)
    ensures FromLE(s) < Pow256(|s|)
    decreases |s|
  {
    if s != [] {
      FromLEBound(s[1..]);
    }
  }

  lemma Powers()
    ensures Pow256(1) == 256
    ensures Pow256(2) == TWO_16
    ensures Pow256(4) == TWO_32
    ensures Pow256(8) == TWO_64
  {
    assert Pow256(3) == 0x100_0000;
    assert Pow256(5) == 256 * Pow256(4);
    assert Pow256(6) == 256 * Pow256(5);
    assert Pow256(7) == 256 * Pow256(6);
  }

  lemma SliceOfSlice(d: seq<byte>, a: nat, b: nat, i: nat, j: nat)
    requires a <= b <= |d| && i <= j <= b - a
    ensures d[a..b][i..j] == d[a + i..a + j]
  {
    var l, r := d[a..b][i..j], d[a + i..a + j];
    assert |l| == |r|;
    forall k | 0 <= k < |l|
      ensures l[k] == r[k]
    {
      assert l[k] == d[a..b][i + k] == d[a + i + k];
    }
  }

  lemma FirstOf(d: seq<byte>, i: nat, j: nat)
    requires i < j <= |d|
    ensures d[i..j][0] == d[i] && d[i..j][1..] == d[i + 1..j]
  {
  }

  lemma SameParts(a: seq<byte>, b: seq<byte>, lo: nat, hi: nat, i: nat, j: nat)
    requires lo <= i <= j <= hi <= |a| && hi <= |b| && a[lo..hi] == b[lo..hi]
    ensures a[i..j] == b[i..j]
  {
    SliceOfSlice(a, lo, hi, i - lo, j - lo);
    SliceOfSlice(b, lo, hi, i - lo, j - lo);
  }

  /** `now` is `was`, possibly grown, with `lit` written at `at`. */
  ghost predicate Wrote(was: seq<byte>, now: seq<byte>, at: nat, lit: seq<byte>) {
    && at <= |was| <= |now|
    && at + |lit| <= |now|
    && now[..at] == was[..at]
    && now[at..at + |lit|] == lit
    && (at + |lit| <= |was| ==> now[at + |lit|..|was|] == was[at + |lit|..])
  }

  /** The same, byte by byte. */
  ghost predicate WroteBytes(was: seq<byte>, now: seq<byte>, at: nat, lit: seq<byte>) {
    && at <= |was| <= |now| && at + |lit| <= |now|
    && (forall j :: 0 <= j < at ==> now[j] == was[j])
    && (forall j :: at <= j < at + |lit| ==> now[j] == lit[j - at])
    && (forall j :: at + |lit| <= j < |was| ==> now[j] == was[j])
  }

  lemma WroteIs(was: seq<byte>, now: seq<byte>, at: nat, lit: seq<byte>)
    ensures Wrote(was, now, at, lit) <==> WroteBytes(was, now, at, lit)
  {
    if Wrote(was, now, at, lit) {
      forall j | 0 <= j < at
        ensures now[j] == was[j]
      {
        assert now[..at][j] == was[..at][j];
      }
      forall j | at <= j < at + |lit|
        ensures now[j] == lit[j - at]
      {
        assert now[at..at + |lit|][j - at] == lit[j - at];
      }
      var end := at + |lit|;
      forall j | end <= j < |was|
        ensures now[j] == was[j]
      {
        assert now[end..|was|][j - end] == was[end..][j - end];
      }
    }
  }
}
