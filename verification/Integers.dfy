/**
 Integer fields.  Values are mathematical integers within a declared width; the
 wire holds a small value, 4 bytes or 8 bytes.  The server zero-extends 4 bytes,
 the client sign-extends them.
 */
module Integers {
  import opened Bytes
  import opened Wire

  /** An integer type: signed or not, of 8, 16, 32 or 64 bits. */
  datatype IntType = IntType(signed: bool, bits: nat)

  predicate Valid(t: IntType) {
    t.bits == 8 || t.bits == 16 || t.bits == 32 || t.bits == 64
  }

  /** The types the client's generated classes use. */
  predicate Portable(t: IntType) {
    t.bits == 32 || t.bits == 64
  }

  function Modulus(t: IntType): (m: nat)
    ensures m > 0
  {
    if t.bits == 8 then 0x100 else if t.bits == 16 then TWO_16 else if t.bits == 32 then TWO_32 else TWO_64
  }

  predicate InRange(t: IntType, n: int) {
    if t.signed then -(Modulus(t) / 2) <= n < Modulus(t) / 2 else 0 <= n < Modulus(t)
  }

  predicate Int32Range(n: int) {
    -TWO_31 <= n < TWO_31
  }

  /** uint64(n): what both encoders work on. */
  function Word(n: int): (w: nat)
    ensures w < TWO_64
  {
    n % TWO_64
  }

  /** Storing a 64-bit word into a variable of type `t`. */
  function Fit(t: IntType, w: nat): (n: int)
    requires Valid(t)
    ensures InRange(t, n)
  {
    var r := w % Modulus(t);
    if t.signed && r >= Modulus(t) / 2 then r - Modulus(t) else r
  }

  function SignExtend(v: nat): (w: nat)
    requires v < TWO_32
  {
    if v >= TWO_31 then v + TWO_64 - TWO_32 else v
  }

  function Extend(lang: Lang, v: nat): (w: nat)
    requires v < TWO_32
  {
    if lang == Go then v else SignExtend(v)
  }

  // ----- one integer

  /** Bytes the encoder gives to `n` when it does not embed it: the server goes by
      the declared type, the client by the value as a signed 64-bit integer. */
  function Width(lang: Lang, t: IntType, n: int): (w: nat)
    ensures w == 4 || w == 8
  {
    if lang == Go then
      if t.signed then (if t.bits < 64 || Int32Range(n) then 4 else 8)
      else if t.bits <= 16 || n < TWO_31 then 4 else 8
    else
      if Int32Range(if n >= TWO_63 then n - TWO_64 else n) then 4 else 8
  }

  function IntPayload(lang: Lang, t: IntType, n: int): (p: Payload) {
    if Raw(lang, t, n) <= MAX_SMALL then Small(Raw(lang, t, n)) else Chunk(LE(Raw(lang, t, n), Width(lang, t, n)))
  }

  function ReadInt(lang: Lang, t: IntType, p: Payload): (r: Result<int>)
    requires Valid(t)
  {
    match p
    case Small(v) => Ok(Fit(t, v))
    case Chunk(data) =>
      if |data| == 4 then FromLE4(data); Ok(Fit(t, Extend(lang, FromLE(data))))
      else if |data| == 8 then Ok(Fit(t, FromLE(data)))
      else if |data| == 0 && lang == Go then Ok(0)
      else Err
  }

  lemma FromLE4(data: seq<byte>)
    requires |data| == 4
    ensures FromLE(data) < TWO_32
  {
    FromLEBound(data);
    Powers();
  }

  /** What a 64-bit value in the 4-byte range comes back as at the server. */
  predicate Misread(t: IntType, n: int) {
    t.bits == 64 && (-TWO_31 <= n < 0 || n >= TWO_64 - TWO_31)
  }

  function SeenInt(from: Lang, to: Lang, t: IntType, n: int): (r: int) {
    if to == Go && Misread(t, n) && Width(from, t, n) == 4 then Word(n) % TWO_32 else n
  }

  lemma {:induction false} LELow(n: nat, k: nat)
    ensures FromLE(LE(n, k)) == n % Pow256(k)
    decreases k
  {
    if k > 0 {
      LELow(n / 256, k - 1);
      var p := Pow256(k - 1);
      assert LE(n, k)[1..] == LE(n / 256, k - 1);
      ModDigit(n, p);
    }
  }

  lemma ModDigit(n: nat, p: nat)
    requires p > 0
    ensures n % 256 + 256 * (n / 256 % p) == n % (256 * p)
  {
    var q, r := n / 256 / p, n / 256 % p;
    assert n / 256 == q * p + r;
    assert n == 256 * (q * p + r) + n % 256;
    assert n == q * (256 * p) + (256 * r + n % 256);
    assert 256 * r + n % 256 < 256 * p;
    DivModUnique(n, 256 * p, q, 256 * r + n % 256);
  }

  lemma DivModUnique(n: nat, m: nat, q: nat, r: nat)
    requires m > 0 && r < m && n == q * m + r
    ensures n % m == r
  {
    var d := n / m - q;
    assert n == n / m * m + n % m;
    assert d * m == r - n % m;
    assert d != 0 ==> d * m >= m || d * m + m <= 0;
  }

  lemma WordIs(n: int)
    requires -TWO_63 <= n < TWO_64
    ensures Word(n) == if n < 0 then n + TWO_64 else n
  {
  }

  lemma RangeBounds(t: IntType, n: int)
    requires Valid(t) && InRange(t, n)
    ensures -TWO_63 <= n < TWO_64
    ensures t.bits < 64 ==> -TWO_31 <= n < TWO_32
    ensures t.bits < 32 ==> n < TWO_31
    ensures !t.signed ==> n >= 0
    ensures t.signed ==> n < TWO_63
    ensures t.signed && t.bits == 32 ==> n < TWO_31
  {
  }

  /** Adding multiples of 2^32 does not change the low bits. */
  lemma SameLow(n: int, k: int)
    ensures (n + k * TWO_32) % 0x100 == n % 0x100
    ensures (n + k * TWO_32) % TWO_16 == n % TWO_16
    ensures (n + k * TWO_32) % TWO_32 == n % TWO_32
  {
    SameByte(n, k * 0x100_0000);
    SameHalf(n, k * TWO_16);
    SameWord(n, k);
  }

  lemma SameByte(n: int, k: int)
    ensures (n + k * 0x100) % 0x100 == n % 0x100
  {
  }

  lemma SameHalf(n: int, k: int)
    ensures (n + k * TWO_16) % TWO_16 == n % TWO_16
  {
  }

  lemma SameWord(n: int, k: int)
    ensures (n + k * TWO_32) % TWO_32 == n % TWO_32
  {
  }

  /** Recovering a value from its remainder. */
  lemma Centred(signed: bool, m: nat, n: int, r: int)
    requires m == 0x100 || m == TWO_16 || m == TWO_32
    requires r == n % m && if signed then -(m / 2) <= n < m / 2 else 0 <= n < m
    ensures n == if signed && r >= m / 2 then r - m else r
  {
  }

  lemma FitNarrow(t: IntType, n: int, w: nat, k: nat)
    requires Valid(t) && t.bits < 64 && InRange(t, n) && w == n + k * TWO_32
    ensures Fit(t, w) == n
  {
    SameLow(n, k);
    Centred(t.signed, Modulus(t), n, n % Modulus(t));
  }

  /** Storing a word that equals `n` modulo the type's size gives `n`. */
  lemma FitIs(t: IntType, n: int, w: nat)
    requires Valid(t) && InRange(t, n)
    requires w == n || w == n + TWO_64 || (t.bits < 64 && (w == n + TWO_32 || w == n + TWO_64 - TWO_32))
    ensures Fit(t, w) == n
  {
    if t.bits < 64 {
      hide *;
      var k := if w == n then 0 else if w == n + TWO_32 then 1 else if w == n + TWO_64 then TWO_32 else TWO_32 - 1;
      FitNarrow(t, n, w, k);
    }
  }

  /** The word the reader makes of the four low bytes of `n`. */
  lemma ExtendLow(to: Lang, t: IntType, n: int)
    requires Valid(t) && InRange(t, n)
    requires Int32Range(n) || n >= TWO_64 - TWO_31 || (0 <= n < TWO_32 && t.bits < 64)
    ensures Fit(t, Extend(to, Word(n) % TWO_32)) == if to == Go && Misread(t, n) then Word(n) % TWO_32 else n
  {
    hide Fit, InRange, Modulus;
    RangeBounds(t, n);
    var low := if n < 0 then n + TWO_32 else if n >= TWO_32 then n - TWO_64 + TWO_32 else n;
    assert Word(n) % TWO_32 == low;
    if to == Go && Misread(t, n) {
      FitBig(t, low);
    } else {
      FitIs(t, n, Extend(to, low));
    }
  }

  lemma FitBig(t: IntType, w: nat)
    requires t.bits == 64 && w < TWO_63
    ensures Fit(t, w) == w
  {
  }

  /** The word the encoder works on. */
  function Raw(from: Lang, t: IntType, n: int): (v: nat) {
    if from == Go || Width(from, t, n) == 8 then Word(n) else Word(n) % TWO_32
  }

  /** A value that is embedded is its own word. */
  lemma EmbeddedIs(from: Lang, t: IntType, n: int)
    requires Valid(t) && InRange(t, n) && Raw(from, t, n) <= MAX_SMALL
    ensures Raw(from, t, n) == n
  {
    RangeBounds(t, n);
    WordIs(n);
    hide Word, InRange, Modulus, Valid;
    if from == Client && Width(from, t, n) == 4 {
      LowIs(n);
    }
  }

  lemma LowIs(n: int)
    requires Int32Range(n) || TWO_64 - TWO_31 <= n < TWO_64
    ensures Word(n) % TWO_32 == if n < 0 then n + TWO_32 else if n >= TWO_31 then n - TWO_64 + TWO_32 else n
  {
  }

  /** Every integer arrives as `SeenInt` says, for every pair of languages. */
  lemma IntSeen(from: Lang, to: Lang, t: IntType, n: int)
    requires Valid(t) && InRange(t, n) && (from == Client ==> Portable(t))
    ensures ReadInt(to, t, IntPayload(from, t, n)) == Ok(SeenInt(from, to, t, n))
    ensures Fits(IntPayload(from, t, n))
  {
    hide LE, FromLE, Pow256, Fit, Extend, InRange, Modulus, Word, Raw;
    RangeBounds(t, n);
    var w := Width(from, t, n);
    var v := Raw(from, t, n);
    if v <= MAX_SMALL {
      EmbeddedIs(from, t, n);
      FitIs(t, n, v);
    } else {
      LELow(v, w);
      Powers();
      RawLow(from, t, n);
      if w == 4 {
        ExtendLow(to, t, n);
      } else {
        WordIs(n);
        FitIs(t, n, v);
      }
    }
  }

  lemma RawLow(from: Lang, t: IntType, n: int)
    ensures Raw(from, t, n) % TWO_32 == Word(n) % TWO_32
    ensures Width(from, t, n) == 8 ==> Raw(from, t, n) == Word(n) == Raw(from, t, n) % TWO_64
  {
  }

  /** The exact carve-out: an integer survives unless the server reads, from four
      bytes, a 64-bit value that is negative as a signed one. */
  lemma IntSurvives(from: Lang, to: Lang, t: IntType, n: int)
    requires Valid(t) && InRange(t, n)
    ensures SeenInt(from, to, t, n) == n <==> !(to == Go && Misread(t, n) && Width(from, t, n) == 4)
  {
  }

  // ----- lists

  /** One width for the whole list: 8 as soon as one element needs it. */
  predicate Wide(lang: Lang, t: IntType, n: int) {
    if lang == Go then Width(Go, t, n) == 8
    else t.bits == 64 && (if t.signed then !Int32Range(n) else n >= TWO_31)
  }

  function ListWidth(lang: Lang, t: IntType, ns: seq<int>): (w: nat)
    ensures w == 4 || w == 8
  {
    if exists i :: 0 <= i < |ns| && Wide(lang, t, ns[i]) then 8 else 4
  }

  function Words(ns: seq<int>, w: nat): (b: seq<byte>)
    ensures |b| == w * |ns|
  {
    if ns == [] then [] else LE(Word(ns[0]), w) + Words(ns[1..], w)
  }

  lemma {:induction false} WordsSnoc(ns: seq<int>, i: nat, w: nat)
    requires i < |ns|
    ensures Words(ns[..i + 1], w) == Words(ns[..i], w) + LE(Word(ns[i]), w)
    decreases i
  {
    hide LE, Word;
    if i == 0 {
      assert ns[..1][1..] == [];
    } else {
      WordsSnoc(ns[1..], i - 1, w);
      assert ns[..i + 1][1..] == ns[1..][..i];
      assert ns[..i][1..] == ns[1..][..i - 1];
    }
  }

  function ListBytes(lang: Lang, t: IntType, ns: seq<int>): (b: seq<byte>) {
    var w := ListWidth(lang, t, ns);
    [w] + Words(ns, w)
  }

  /** Four bytes, extended, or the first eight. */
  function ReadWord(lang: Lang, b: seq<byte>): (w: nat) {
    if |b| == 4 then FromLE4(b); Extend(lang, FromLE(b)) else FromLE(if |b| > 8 then b[..8] else b)
  }

  /**
   `n` bytes can be read as elements of `w` bytes.  The client knows two widths; the server
   takes any that divides, but fails on an element with fewer than eight bytes left to read.
   */
  predicate WidthOk(lang: Lang, w: nat, n: nat) {
    w > 0 && n % w == 0 && (w == 4 || w == 8 || (lang == Go && (w > 8 || n == 0)))
  }

  lemma NextWidth(lang: Lang, w: nat, n: nat)
    requires WidthOk(lang, w, n) && n > 0
    ensures n >= w && WidthOk(lang, w, n - w)
  {
    assert n == w * (n / w);
    DivModUnique(n - w, w, n / w - 1, 0);
  }

  function ReadWords(lang: Lang, t: IntType, b: seq<byte>, w: nat): (ns: seq<int>)
    requires Valid(t) && WidthOk(lang, w, |b|)
    decreases |b|
  {
    if b == [] then []
    else
      NextWidth(lang, w, |b|);
      [Fit(t, ReadWord(lang, b[..w]))] + ReadWords(lang, t, b[w..], w)
  }

  lemma NoWords(lang: Lang, t: IntType, b: seq<byte>, w: nat)
    requires Valid(t) && WidthOk(lang, w, |b|) && b == []
    ensures ReadWords(lang, t, b, w) == []
  {
  }

  /** Reading one element of a list at `off`. */
  lemma WordAt(lang: Lang, t: IntType, body: seq<byte>, w: nat, off: nat)
    requires Valid(t) && off < |body| && WidthOk(lang, w, |body| - off)
    ensures off + w <= |body| && WidthOk(lang, w, |body| - (off + w))
    ensures ReadWords(lang, t, body[off..], w)
      == [Fit(t, ReadWord(lang, body[off..off + w]))] + ReadWords(lang, t, body[off + w..], w)
  {
    hide Fit, ReadWord, WidthOk;
    NextWidth(lang, w, |body| - off);
    var b := body[off..];
    assert b[..w] == body[off..off + w];
    assert b[w..] == body[off + w..];
  }

  function ReadList(lang: Lang, t: IntType, data: seq<byte>): (r: Result<seq<int>>)
    requires Valid(t)
  {
    if data == [] then (if lang == Go then Err else Ok([]))
    else
      var w := data[0];
      if WidthOk(lang, w, |data| - 1) then Ok(ReadWords(lang, t, data[1..], w)) else Err
  }

  function SeenElem(to: Lang, t: IntType, w: nat, n: int): (r: int) {
    if to == Go && Misread(t, n) && w == 4 then Word(n) % TWO_32 else n
  }

  function SeenElems(to: Lang, t: IntType, w: nat, ns: seq<int>): (r: seq<int>)
    ensures |r| == |ns|
  {
    if ns == [] then [] else [SeenElem(to, t, w, ns[0])] + SeenElems(to, t, w, ns[1..])
  }

  function SeenList(from: Lang, to: Lang, t: IntType, ns: seq<int>): (r: seq<int>) {
    SeenElems(to, t, ListWidth(from, t, ns), ns)
  }

  predicate AllInRange(t: IntType, ns: seq<int>) {
    forall i :: 0 <= i < |ns| ==> InRange(t, ns[i])
  }

  lemma WordSeen(from: Lang, to: Lang, t: IntType, n: int, w: nat)
    requires Valid(t) && InRange(t, n) && (from == Client ==> Portable(t))
    requires w == 8 || (w == 4 && !Wide(from, t, n))
    ensures FromLE(LE(Word(n), w)) < TWO_64
    ensures w == 4 ==> FromLE(LE(Word(n), w)) < TWO_32
    ensures Fit(t, if w == 4 then Extend(to, FromLE(LE(Word(n), w))) else FromLE(LE(Word(n), w)))
      == SeenElem(to, t, w, n)
  {
    hide LE, FromLE, Pow256, Fit, Extend, InRange, Modulus;
    RangeBounds(t, n);
    WordIs(n);
    LELow(Word(n), w);
    Powers();
    if w == 4 {
      ExtendLow(to, t, n);
    } else {
      FitIs(t, n, Word(n));
    }
  }

  lemma {:induction false} WordsSeen(from: Lang, to: Lang, t: IntType, ns: seq<int>, w: nat)
    requires Valid(t) && AllInRange(t, ns) && (from == Client ==> Portable(t))
    requires w == 8 || (w == 4 && forall i :: 0 <= i < |ns| ==> !Wide(from, t, ns[i]))
    ensures WidthOk(to, w, |Words(ns, w)|)
    ensures ReadWords(to, t, Words(ns, w), w) == SeenElems(to, t, w, ns)
    decreases |ns|
  {
    hide LE, FromLE, Fit, SeenElem, Extend, Wide, InRange;
    Multiple(|ns|, w);
    if ns != [] {
      WordSeen(from, to, t, ns[0], w);
      WordsSeen(from, to, t, ns[1..], w);
      var b := Words(ns, w);
      assert b[..w] == LE(Word(ns[0]), w);
      assert b[w..] == Words(ns[1..], w);
    }
  }

  lemma Multiple(k: nat, w: nat)
    requires w == 4 || w == 8
    ensures (w * k) % w == 0
  {
  }

  lemma ListSeen(from: Lang, to: Lang, t: IntType, ns: seq<int>)
    requires Valid(t) && AllInRange(t, ns) && (from == Client ==> Portable(t))
    ensures ReadList(to, t, ListBytes(from, t, ns)) == Ok(SeenList(from, to, t, ns))
  {
    hide Words, ReadWords, SeenElems, Wide, InRange;
    var w := ListWidth(from, t, ns);
    WordsSeen(from, to, t, ns, w);
    var b := ListBytes(from, t, ns);
    assert b[0] == w && b[1..] == Words(ns, w);
  }

  /** A list survives exactly when no element is misread, or some element forced
      eight bytes on all of them. */
  lemma {:induction false} ElemsSurvive(to: Lang, t: IntType, w: nat, ns: seq<int>)
    requires Valid(t) && AllInRange(t, ns)
    ensures SeenElems(to, t, w, ns) == ns <==>
      !(to == Go && w == 4 && exists i :: 0 <= i < |ns| && Misread(t, ns[i]))
    decreases |ns|
  {
    if ns != [] {
      ElemsSurvive(to, t, w, ns[1..]);
      assert SeenElem(to, t, w, ns[0]) == ns[0] <==> !(to == Go && w == 4 && Misread(t, ns[0]));
      var s := SeenElems(to, t, w, ns);
      assert s == [s[0]] + s[1..] && ns == [ns[0]] + ns[1..];
      if to == Go && w == 4 && exists i :: 0 <= i < |ns| && Misread(t, ns[i]) {
        var i :| 0 <= i < |ns| && Misread(t, ns[i]);
        assert i > 0 ==> ns[1..][i - 1] == ns[i];
      }
    }
  }

  /** The client's signed 64-bit list writer chooses the server's width. */
  lemma SameListBytes(ns: seq<int>)
    requires AllInRange(IntType(true, 64), ns)
    ensures ListBytes(Client, IntType(true, 64), ns) == ListBytes(Go, IntType(true, 64), ns)
  {
    assert forall n :: Wide(Client, IntType(true, 64), n) == Wide(Go, IntType(true, 64), n);
  }
}
