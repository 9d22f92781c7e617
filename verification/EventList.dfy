/** A session's send queue; a nil event asks the send thread to exit. */
module EventList {
  import opened Bytes

  /** The events in front of the first nil. */
  function BeforeNil<T>(q: seq<Option<T>>): (r: seq<T>) {
    if q == [] || q[0].None? then [] else [q[0].value] + BeforeNil(q[1..])
  }

  predicate HasNil<T>(q: seq<Option<T>>) {
    exists i :: 0 <= i < |q| && q[i].None?
  }

  class EventList<T> {
    var list: seq<Option<T>>

    constructor ()
      ensures list == []
    {
      list := [];
    }

    method Add(ev: Option<T>)
      modifies this
      ensures list == old(list) + [ev]
    {
      list := list + [ev];
    }

    method Reset()
      modifies this
      ensures list == []
    {
      list := [];
    }

    /** The part of Pick after the wait: what was queued behind a nil is dropped. */
    method Pick() returns (ret: seq<T>, exit: bool)
      modifies this
      ensures ret == BeforeNil(old(list)) && exit == HasNil(old(list))
      ensures list == []
    {
      ret, exit := [], false;
      assert list[0..] == list;
      for i := 0 to |list|
        invariant list == old(list) && !exit
        invariant forall j :: 0 <= j < i ==> list[j].Some?
        invariant ret + BeforeNil(list[i..]) == BeforeNil(list)
      {
        var ev := list[i];
        assert list[i..][0] == ev && list[i..][1..] == list[i + 1..];
        if ev.None? {
          exit := true;
          assert ret + [] == ret;
          break;
        } else {
          ret := ret + [ev.value];
        }
      }
      Reset();
    }
  }

  lemma {:induction false} BeforeNilAdd<T>(q: seq<Option<T>>, ev: Option<T>)
    ensures BeforeNil(q + [ev]) == if HasNil(q) || ev.None? then BeforeNil(q) else BeforeNil(q) + [ev.value]
    ensures HasNil(q + [ev]) == (HasNil(q) || ev.None?)
  {
    var r := q + [ev];
    if HasNil(q) {
      var i :| 0 <= i < |q| && q[i].None?;
      assert r[i].None?;
    }
    if ev.None? {
      assert r[|q|].None?;
    }
    if q != [] {
      assert r[1..] == q[1..] + [ev];
      BeforeNilAdd(q[1..], ev);
      if q[0].Some? {
        TailNil(q);
      }
    } else {
      assert r[1..] == [];
    }
  }

  lemma TailNil<T>(q: seq<Option<T>>)
    requires q != [] && q[0].Some?
    ensures HasNil(q[1..]) == HasNil(q)
  {
    if HasNil(q) {
      var i :| 0 <= i < |q| && q[i].None?;
      assert q[1..][i - 1].None?;
    }
    if HasNil(q[1..]) {
      var i :| 0 <= i < |q[1..]| && q[1..][i].None?;
      assert q[i + 1].None?;
    }
  }

  lemma EmptyQueue<T>(q: seq<Option<T>>)
    requires q == []
    ensures BeforeNil(q) == [] && !HasNil(q)
  {
  }
}
