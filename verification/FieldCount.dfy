/** The number of header records a generated client class reserves. */
module FieldCount {
  import opened Bytes
  import opened Wire
  import opened Codec

  /** One record per field, and one more for every gap in the declared tags. */
  function MaxRecords(last: int, fs: seq<Field>): (n: nat)
    ensures n >= |fs|
    decreases |fs|
  {
    if fs == [] then 0 else (if fs[0].tag > last + 1 then 2 else 1) + MaxRecords(fs[0].tag, fs[1..])
  }

  predicate NonDescending(last: int, fs: seq<Field>)
    decreases |fs|
  {
    fs != [] ==> last <= fs[0].tag && NonDescending(fs[0].tag, fs[1..])
  }

  /** Fails, as the generator panics, when the tags descend. */
  method MaxFieldCount(fs: seq<Field>) returns (r: Result<nat>)
    ensures r == if NonDescending(-1, fs) then Ok(MaxRecords(-1, fs)) else Err
  {
    var maxn := |fs|;
    var lastTag: int := -1;
    assert fs[0..] == fs;
    for i := 0 to |fs|
      invariant maxn >= |fs| - i
      invariant NonDescending(lastTag, fs[i..]) == NonDescending(-1, fs)
      invariant maxn - (|fs| - i) + MaxRecords(lastTag, fs[i..]) == MaxRecords(-1, fs)
    {
      assert fs[i..][1..] == fs[i + 1..];
      if fs[i].tag < lastTag {
        return Err;
      }
      if fs[i].tag > lastTag + 1 {
        maxn := maxn + 1;
      }
      lastTag := fs[i].tag;
    }
    return Ok(maxn);
  }

  lemma {:induction false} AscendingNonDescending(last: int, fs: seq<Field>)
    requires Ascending(last, fs)
    ensures NonDescending(last, fs)
    decreases |fs|
  {
    if fs != [] {
      AscendingNonDescending(fs[0].tag, fs[1..]);
    }
  }

  /** Whichever fields are set, their records fit the reservation: a field that is
      left out pays for the skip record that passes over it. */
  lemma {:induction false} RecordsWithin(lang: Lang, s: Schema, fs: seq<Field>, vs: seq<Option<Value>>,
      last: int, prev: int)
    requires |fs| == |vs| && last <= prev && NonDescending(prev, fs)
    ensures |Records(last, Items(lang, s, fs, vs))| <= MaxRecords(prev, fs) + (if prev > last then 1 else 0)
    decreases |fs|
  {
    hide PayloadOf, Present;
    if fs != [] {
      assert vs != [] && Items(lang, s, fs, vs) == FieldItems(lang, s, fs[0], vs[0]) + Items(lang, s, fs[1..], vs[1..]);
      var rest := Items(lang, s, fs[1..], vs[1..]);
      var items := Items(lang, s, fs, vs);
      if Present(lang, vs[0]) {
        assert items == [Item(fs[0].tag, PayloadOf(lang, s, fs[0].kind, vs[0].value))] + rest;
        assert items[1..] == rest;
        RecordsWithin(lang, s, fs[1..], vs[1..], fs[0].tag, fs[0].tag);
      } else {
        assert items == rest;
        RecordsWithin(lang, s, fs[1..], vs[1..], last, fs[0].tag);
      }
    }
  }

  /** Setting every field uses the reservation up, so none smaller would do. */
  lemma {:induction false} RecordsExactly(lang: Lang, s: Schema, fs: seq<Field>, vs: seq<Option<Value>>, last: int)
    requires |fs| == |vs| && forall k :: 0 <= k < |vs| ==> Present(lang, vs[k])
    ensures |Records(last, Items(lang, s, fs, vs))| == MaxRecords(last, fs)
    decreases |fs|
  {
    hide PayloadOf, Present;
    if fs != [] {
      assert vs != [] && Items(lang, s, fs, vs) == FieldItems(lang, s, fs[0], vs[0]) + Items(lang, s, fs[1..], vs[1..]);
      var rest := Items(lang, s, fs[1..], vs[1..]);
      var items := Items(lang, s, fs, vs);
      assert items == [Item(fs[0].tag, PayloadOf(lang, s, fs[0].kind, vs[0].value))] + rest;
      assert items[1..] == rest;
      RecordsExactly(lang, s, fs[1..], vs[1..], fs[0].tag);
    }
  }
}
