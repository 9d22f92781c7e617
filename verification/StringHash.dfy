/** The 32-bit hash that turns a message name into its id. */
module StringHash {

  const POLY: bv32 := 0x04c11db7

  // ----- words

  function Xor(a: bv32, b: bv32): (r: bv32) {
    a ^ b
  }

  function Double(c: bv32): (r: bv32) {
    c << 1
  }

  predicate HighBit(c: bv32) {
    c & 0x80000000 != 0
  }

  function Low(x: bv32): (r: bv32) {
    x & 0xFF
  }

  function Drop(h: bv32): (r: bv32) {
    h >> 8
  }

  function Masked(h: bv32): (r: bv32) {
    (h >> 8) & 0x00FFFFFF
  }

  function Index(x: bv32): (i: nat)
    ensures i < 256
  {
    IndexBound(x);
    (x & 0x000000FF) as nat
  }

  lemma IndexBound(x: bv32)
    ensures (x & 0x000000FF) as nat < 256
  {
  }

  function ToTop(i: bv32): (r: bv32) {
    i << 24
  }

  // ----- the table and the hash

  function Shift(c: bv32): (r: bv32) {
    if HighBit(c) then Xor(Double(c), POLY) else Double(c)
  }

  function Rounds(c: bv32, n: nat): (r: bv32)
    decreases n
  {
    if n == 0 then c else Rounds(Shift(c), n - 1)
  }

  function Entry(i: bv32): (r: bv32) {
    Rounds(ToTop(i), 8)
  }

  function Next(hash: bv32, c: bv32): (r: bv32) {
    Xor(Drop(hash), Entry(Low(Xor(hash, c))))
  }

  function HashFrom(hash: bv32, s: seq<bv32>): (h: bv32)
    decreases |s|
  {
    if s == [] then hash else HashFrom(Next(hash, s[0]), s[1..])
  }

  /** The hash of a name, given as its characters. */
  function Hash(s: seq<bv32>): (h: bv32) {
    HashFrom(0, s)
  }

  predicate IsTable(table: seq<bv32>) {
    |table| == 256 && forall i :: 0 <= i < 256 ==> table[i] == Entry(i as bv32)
  }

  /** The global table and its flag. */
  class HashTable {
    const crcTable: array<bv32>
    var initialized: bool

    ghost predicate Valid()
      reads this, crcTable
    {
      crcTable.Length == 256 && (initialized ==> IsTable(crcTable[..]))
    }

    constructor ()
      ensures Valid() && !initialized && fresh(crcTable)
    {
      crcTable := new bv32[256];
      initialized := false;
    }

    method InitTable()
      requires Valid()
      modifies this, crcTable
      ensures Valid() && initialized
    {
      hide Entry, Rounds, ToTop, HighBit, Double, Xor;
      if initialized {
        return;
      }
      for i := 0 to 256
        invariant forall k :: 0 <= k < i ==> crcTable[k] == Entry(k as bv32)
      {
        var c := ToTop(i as bv32);
        EntryIs(i as bv32);
        var j := 8;
        while j != 0
          invariant 0 <= j <= 8
          invariant Rounds(c, j) == Entry(i as bv32)
          invariant j < 8 ==> crcTable[i] == c
          invariant forall k :: 0 <= k < i ==> crcTable[k] == Entry(k as bv32)
        {
          RoundsStep(c, j);
          if HighBit(c) {
            c := Xor(Double(c), POLY);
          } else {
            c := Double(c);
          }
          crcTable[i] := c;
          j := j - 1;
        }
        RoundsStep(c, 0);
      }
      initialized := true;
    }

    method StringHash(s: seq<bv32>) returns (hash: bv32)
      requires Valid()
      modifies this, crcTable
      ensures Valid() && hash == Hash(s)
    {
      hide Entry, Next, Xor, Index, Masked, IsTable;
      InitTable();
      hash := 0;
      assert s[0..] == s;
      for i := 0 to |s|
        invariant Valid() && initialized && HashFrom(hash, s[i..]) == Hash(s)
      {
        var b := s[i];
        assert s[i..][0] == b && s[i..][1..] == s[i + 1..];
        TableStep(crcTable[..], hash, b);
        hash := Xor(Masked(hash), crcTable[Index(Xor(hash, b))]);
      }
    }
  }

  lemma EntryIs(i: bv32)
    ensures Entry(i) == Rounds(ToTop(i), 8)
  {
  }

  lemma RoundsStep(c: bv32, n: nat)
    ensures n == 0 ==> Rounds(c, n) == c
    ensures n > 0 ==> Rounds(c, n) == Rounds(Shift(c), n - 1)
  {
  }

  lemma IndexIs(x: bv32)
    ensures Index(x) as bv32 == Low(x)
  {
    BvRoundTrip(x & 0xFF);
  }

  lemma BvRoundTrip(y: bv32)
    ensures (y as nat) as bv32 == y
  {
  }

  lemma MaskedIs(h: bv32)
    ensures Masked(h) == Drop(h)
  {
  }

  /** The table step, mask and all, is the step on meanings. */
  lemma TableStep(table: seq<bv32>, hash: bv32, c: bv32)
    requires IsTable(table)
    ensures Xor(Masked(hash), table[Index(Xor(hash, c))]) == Next(hash, c)
  {
    hide Entry, Low, Drop, Xor, Index, Masked;
    MaskedIs(hash);
    IndexIs(Xor(hash, c));
  }

  // ----- differences between hashes

  lemma XorDouble(a: bv32, b: bv32)
    ensures Double(Xor(a, b)) == Xor(Double(a), Double(b))
  {
  }

  lemma XorPoly(x: bv32, y: bv32, p: bv32)
    ensures Xor(Xor(x, p), y) == Xor(Xor(x, y), p)
    ensures Xor(x, Xor(y, p)) == Xor(Xor(x, y), p)
    ensures Xor(Xor(x, p), Xor(y, p)) == Xor(x, y)
  {
  }

  lemma XorHighBit(a: bv32, b: bv32)
    ensures HighBit(Xor(a, b)) <==> HighBit(a) != HighBit(b)
  {
  }

  lemma ShiftLinear(a: bv32, b: bv32)
    ensures Shift(Xor(a, b)) == Xor(Shift(a), Shift(b))
  {
    hide Xor, Double, HighBit;
    XorDouble(a, b);
    XorHighBit(a, b);
    XorPoly(Double(a), Double(b), POLY);
  }

  lemma {:induction false} RoundsLinear(a: bv32, b: bv32, n: nat)
    ensures Rounds(Xor(a, b), n) == Xor(Rounds(a, n), Rounds(b, n))
    decreases n
  {
    hide Shift, Xor;
    if n > 0 {
      ShiftLinear(a, b);
      RoundsLinear(Shift(a), Shift(b), n - 1);
    }
  }

  lemma XorToTop(a: bv32, b: bv32)
    ensures ToTop(Xor(a, b)) == Xor(ToTop(a), ToTop(b))
  {
  }

  /** The table is linear: the entry of a difference is the difference of the entries. */
  lemma EntryLinear(a: bv32, b: bv32)
    ensures Entry(Xor(a, b)) == Xor(Entry(a), Entry(b))
  {
    hide Rounds, Xor, ToTop;
    XorToTop(a, b);
    RoundsLinear(ToTop(a), ToTop(b), 8);
  }

  /** No entry but the first has a zero top byte, so top bytes are a permutation. */
  lemma EntryTop(i: bv32)
    requires Low(i) == i
    ensures Entry(i) >> 24 == 0 ==> i == 0
  {
    hide Rounds;
    var c0 := ToTop(i);
    RoundsStep(c0, 8);
    var c1 := Shift(c0);
    RoundsStep(c1, 7);
    var c2 := Shift(c1);
    RoundsStep(c2, 6);
    var c3 := Shift(c2);
    RoundsStep(c3, 5);
    var c4 := Shift(c3);
    RoundsStep(c4, 4);
    var c5 := Shift(c4);
    RoundsStep(c5, 3);
    var c6 := Shift(c5);
    RoundsStep(c6, 2);
    var c7 := Shift(c6);
    RoundsStep(c7, 1);
    RoundsStep(Shift(c7), 0);
  }

  lemma XorNext(a: bv32, b: bv32, c: bv32, d: bv32)
    ensures Xor(Xor(a, b), Xor(c, d)) == Xor(Xor(a, c), Xor(b, d))
  {
    hide Xor;
    XorPoly(Xor(a, b), c, d);
    XorPoly(a, c, b);
    XorPoly(Xor(a, c), b, d);
  }

  lemma XorLow(a: bv32, b: bv32)
    ensures Low(Xor(a, b)) == Xor(Low(a), Low(b))
    ensures Drop(Xor(a, b)) == Xor(Drop(a), Drop(b))
    ensures Low(Low(a)) == Low(a)
  {
  }

  /** The difference of two hashes steps like a hash of the difference. */
  lemma NextDifference(h1: bv32, h2: bv32, c1: bv32, c2: bv32)
    ensures Xor(Next(h1, c1), Next(h2, c2)) == Next(Xor(h1, h2), Xor(c1, c2))
  {
    hide Xor, Low, Drop, Entry;
    XorNext(Drop(h1), Entry(Low(Xor(h1, c1))), Drop(h2), Entry(Low(Xor(h2, c2))));
    XorLow(h1, h2);
    XorLow(Xor(h1, c1), Xor(h2, c2));
    EntryLinear(Low(Xor(h1, c1)), Low(Xor(h2, c2)));
    XorNext(h1, c1, h2, c2);
  }

  lemma {:induction false} RoundsZero(n: nat)
    ensures Rounds(0, n) == 0
  {
    if n > 0 {
      assert Shift(0) == 0;
      RoundsZero(n - 1);
    }
  }

  lemma EntryZero()
    ensures Entry(0) == 0
  {
    RoundsZero(8);
    assert ToTop(0) == 0;
  }

  lemma DropTop(d: bv32, e: bv32)
    ensures Xor(Drop(d), e) < 0x1000000 ==> e >> 24 == 0
    ensures Xor(Drop(d), 0) == Drop(d)
    ensures Low(d) == 0 && Drop(d) == 0 ==> d == 0
  {
  }

  /** A difference whose next value has a zero top byte met no table entry: it
      was shifted by a byte, and the byte shifted out cancelled the characters'. */
  lemma Unmixed(d: bv32, x: bv32)
    requires Next(d, x) < 0x1000000
    ensures Low(Xor(d, x)) == 0 && Next(d, x) == Drop(d)
  {
    hide Entry, Low, Xor, Drop;
    var i := Low(Xor(d, x));
    XorLow(Xor(d, x), 0);
    DropTop(d, Entry(i));
    EntryTop(i);
    EntryZero();
  }

  /** A difference does not vanish while the names agree. */
  lemma {:induction false} Persists(h1: bv32, h2: bv32, s1: seq<bv32>, s2: seq<bv32>)
    requires |s1| == |s2| && forall i :: 0 <= i < |s1| ==> Low(s1[i]) == Low(s2[i])
    ensures HashFrom(h1, s1) == HashFrom(h2, s2) <==> h1 == h2
    decreases |s1|
  {
    hide Next, Low, Xor;
    if s1 != [] {
      SameStep(h1, h2, s1[0], s2[0]);
      Persists(Next(h1, s1[0]), Next(h2, s2[0]), s1[1..], s2[1..]);
    }
  }

  lemma XorZero(a: bv32, b: bv32)
    ensures Xor(a, b) == 0 <==> a == b
  {
    XorSelf(b);
    XorCancel(a, b);
    XorCancel(b, b);
    hide Xor;
  }

  lemma XorSelf(a: bv32)
    ensures Xor(a, a) == 0
  {
  }

  lemma XorCancel(a: bv32, b: bv32)
    ensures Xor(Xor(a, b), b) == a
  {
  }

  lemma SameStep(h1: bv32, h2: bv32, c1: bv32, c2: bv32)
    requires Low(c1) == Low(c2)
    ensures Next(h1, c1) == Next(h2, c2) <==> h1 == h2
  {
    hide Next, Low, Xor, Drop;
    var d, x := Xor(h1, h2), Xor(c1, c2);
    NextDifference(h1, h2, c1, c2);
    XorZero(h1, h2);
    XorZero(Next(h1, c1), Next(h2, c2));
    XorZero(Low(c1), Low(c2));
    XorLow(c1, c2);
    XorLow(d, x);
    NoCarry(d, x);
  }

  /** With equal low bytes, the difference stays or vanishes as a whole. */
  lemma NoCarry(d: bv32, x: bv32)
    requires Low(x) == 0
    ensures Next(d, x) == 0 <==> d == 0
  {
    hide Entry, Next, Low, Xor, Drop;
    if Next(d, x) == 0 {
      Unmixed(d, x);
      LowOnly(d, x);
      DropTop(d, 0);
    } else if d == 0 {
      ZeroStep(x);
    }
  }

  lemma LowOnly(d: bv32, x: bv32)
    requires Low(x) == 0
    ensures Low(Xor(d, x)) == Low(d)
  {
  }

  lemma ZeroStep(x: bv32)
    requires Low(x) == 0
    ensures Next(0, x) == 0
  {
    hide Entry;
    EntryZero();
  }

  // ----- names that differ in a short window

  function Differences(s1: seq<bv32>, s2: seq<bv32>): (xs: seq<bv32>)
    requires |s1| == |s2|
    ensures |xs| == |s1| && forall i :: 0 <= i < |s1| ==> xs[i] == Xor(s1[i], s2[i])
  {
    seq(|s1|, i requires 0 <= i < |s1| => Xor(s1[i], s2[i]))
  }

  /** The difference of two hashes is the hash of the differences. */
  lemma {:induction false} HashDifference(h1: bv32, h2: bv32, s1: seq<bv32>, s2: seq<bv32>)
    requires |s1| == |s2|
    ensures Xor(HashFrom(h1, s1), HashFrom(h2, s2)) == HashFrom(Xor(h1, h2), Differences(s1, s2))
    decreases |s1|
  {
    hide Next, Xor;
    if s1 != [] {
      NextDifference(h1, h2, s1[0], s2[0]);
      HashDifference(Next(h1, s1[0]), Next(h2, s2[0]), s1[1..], s2[1..]);
      assert Differences(s1, s2)[1..] == Differences(s1[1..], s2[1..]);
    }
  }

  lemma {:induction false} HashAppend(h: bv32, s: seq<bv32>, t: seq<bv32>)
    ensures HashFrom(h, s + t) == HashFrom(HashFrom(h, s), t)
    decreases |s|
  {
    hide Next;
    if s == [] {
      assert s + t == t;
    } else {
      assert (s + t)[1..] == s[1..] + t;
      HashAppend(Next(h, s[0]), s[1..], t);
    }
  }

  /** `d` fits `n` bytes. */
  predicate FitsBytes(d: bv32, n: nat) {
    if n == 0 then d == 0
    else if n == 1 then d < 0x100
    else if n == 2 then d < 0x10000
    else if n == 3 then d < 0x1000000
    else true
  }

  lemma FitsDrop(d: bv32, n: nat)
    requires n <= 3 && FitsBytes(Drop(d), n)
    ensures FitsBytes(d, n + 1)
  {
  }

  /** A difference that up to four characters bring to zero was never mixed. */
  lemma {:induction false} Undone(d: bv32, xs: seq<bv32>)
    requires |xs| <= 4 && HashFrom(d, xs) == 0
    ensures FitsBytes(d, |xs|)
    ensures xs != [] ==> Low(Xor(d, xs[0])) == 0 && Next(d, xs[0]) == Drop(d)
    decreases |xs|
  {
    hide Next, Low, Xor, Drop;
    if xs != [] {
      Undone(Next(d, xs[0]), xs[1..]);
      Unmixed(d, xs[0]);
      FitsDrop(d, |xs| - 1);
    }
  }

  lemma ZeroFirst(x: bv32)
    ensures Low(Xor(0, x)) == Low(x) && Drop(0) == 0
  {
  }

  lemma {:induction false} ShortDifference(xs: seq<bv32>)
    requires |xs| <= 4 && HashFrom(0, xs) == 0
    ensures forall i :: 0 <= i < |xs| ==> Low(xs[i]) == 0
    decreases |xs|
  {
    hide Next, Low, Xor, Drop;
    if xs != [] {
      Undone(0, xs);
      ZeroFirst(xs[0]);
      ShortDifference(xs[1..]);
      assert forall i :: 1 <= i < |xs| ==> xs[i] == xs[1..][i - 1];
    }
  }

  /** Names of equal length that differ only within four neighbouring characters
      collide exactly when the low bytes of all their characters agree. */
  lemma BurstDistinct(s1: seq<bv32>, s2: seq<bv32>, k: nat)
    requires |s1| == |s2| && k <= |s1|
    requires forall i :: 0 <= i < |s1| && !(k <= i < k + 4) ==> Low(s1[i]) == Low(s2[i])
    ensures Hash(s1) == Hash(s2) <==> forall i :: 0 <= i < |s1| ==> Low(s1[i]) == Low(s2[i])
  {
    hide Next, Low, Xor, HashFrom;
    var e := if k + 4 <= |s1| then k + 4 else |s1|;
    var h := HashFrom(0, s1[..k]);
    Persists(0, 0, s1[..k], s2[..k]);
    var g1, g2 := HashFrom(h, s1[k..e]), HashFrom(h, s2[k..e]);
    Persists(g1, g2, s1[e..], s2[e..]);
    Split(s1, k, e);
    Split(s2, k, e);
    if g1 == g2 {
      HashDifference(h, h, s1[k..e], s2[k..e]);
      XorZero(h, h);
      XorZero(g1, g2);
      ShortDifference(Differences(s1[k..e], s2[k..e]));
      forall i | k <= i < e
        ensures Low(s1[i]) == Low(s2[i])
      {
        LowDifference(s1[k..e], s2[k..e], i - k);
      }
    } else if forall i :: 0 <= i < |s1| ==> Low(s1[i]) == Low(s2[i]) {
      Persists(h, h, s1[k..e], s2[k..e]);
    }
  }

  lemma LowDifference(s1: seq<bv32>, s2: seq<bv32>, j: nat)
    requires |s1| == |s2| && j < |s1| && Low(Differences(s1, s2)[j]) == 0
    ensures Low(s1[j]) == Low(s2[j])
  {
    hide Xor, Low;
    XorLow(s1[j], s2[j]);
    XorZero(Low(s1[j]), Low(s2[j]));
  }

  lemma Split(s: seq<bv32>, k: nat, e: nat)
    requires k <= e <= |s|
    ensures Hash(s) == HashFrom(HashFrom(HashFrom(0, s[..k]), s[k..e]), s[e..])
  {
    hide HashFrom;
    assert s == s[..k] + (s[k..e] + s[e..]);
    HashAppend(0, s[..k], s[k..e] + s[e..]);
    HashAppend(HashFrom(0, s[..k]), s[k..e], s[e..]);
  }

  /** Four is the limit: behind any character, the four bytes of its table entry
      bring the hash back to that of five zero characters. */
  lemma FiveCollide(c: bv32)
    requires Low(c) == c
    ensures var e := Entry(c);
      Hash([c, Low(e), Low(Drop(e)), Low(Drop(Drop(e))), Drop(Drop(Drop(e)))]) == Hash([0, 0, 0, 0, 0]) == 0
  {
    hide Entry, Next;
    var e := Entry(c);
    var s := [c, Low(e), Low(Drop(e)), Low(Drop(Drop(e))), Drop(Drop(Drop(e)))];
    FirstCharacter(c);
    Cancel(e);
    Cancel(Drop(e));
    Cancel(Drop(Drop(e)));
    CancelLast(e);
    assert s[1..][1..][1..][1..][1..] == [];
    hide Low, Drop;
    assert HashFrom(0, s) == HashFrom(e, s[1..]);
    assert HashFrom(e, s[1..]) == HashFrom(Drop(e), s[1..][1..]);
    assert HashFrom(Drop(e), s[1..][1..]) == HashFrom(Drop(Drop(e)), s[1..][1..][1..]);
    assert HashFrom(Drop(Drop(e)), s[1..][1..][1..]) == HashFrom(Drop(Drop(Drop(e))), s[1..][1..][1..][1..]);
    assert HashFrom(Drop(Drop(Drop(e))), s[1..][1..][1..][1..]) == 0;
    ZeroHash([0, 0, 0, 0, 0]);
  }

  lemma FirstCharacter(c: bv32)
    requires Low(c) == c
    ensures Next(0, c) == Entry(c)
  {
    hide Entry;
    assert Low(Xor(0, c)) == c;
    assert Xor(Drop(0), Entry(c)) == Entry(c);
  }

  lemma Cancel(e: bv32)
    ensures Next(e, Low(e)) == Drop(e)
  {
    hide Entry;
    EntryZero();
    assert Low(Xor(e, Low(e))) == 0;
    assert Xor(Drop(e), 0) == Drop(e);
  }

  lemma CancelLast(e: bv32)
    ensures Next(Drop(Drop(Drop(e))), Drop(Drop(Drop(e)))) == 0
  {
    hide Entry;
    EntryZero();
    assert Low(Xor(Drop(Drop(Drop(e))), Drop(Drop(Drop(e))))) == 0;
    assert Drop(Drop(Drop(Drop(e)))) == 0;
  }

  lemma {:induction false} ZeroHash(s: seq<bv32>)
    requires forall i :: 0 <= i < |s| ==> s[i] == 0
    ensures HashFrom(0, s) == 0
  {
    hide Next;
    if s != [] {
      assert Low(0) == 0;
      ZeroStep(0);
      ZeroHash(s[1..]);
    }
  }
}
