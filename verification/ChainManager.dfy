/**
 The receive chains of a peer: registered under serial ids, and handed out as a list
 that is rebuilt only after a change.
 */
module ChainManager {
  import opened Bytes

  type Id = int

  datatype Op<Chain> = Add(chain: Chain) | Remove(id: Id)

  /** The 64-bit counter after `n` increments. */
  function Serial(n: nat): (id: Id)
    ensures -TWO_63 <= id < TWO_63
  {
    if n % TWO_64 < TWO_63 then n % TWO_64 else n % TWO_64 - TWO_64
  }

  function Adds<C>(log: seq<Op<C>>): (n: nat)
    ensures n <= |log|
  {
    if log == [] then 0
    else Adds(log[..|log| - 1]) + if log[|log| - 1].Add? then 1 else 0
  }

  /** What is registered after the operations of `log`. */
  function Registered<C>(log: seq<Op<C>>): (m: map<Id, C>) {
    if log == [] then map[]
    else
      var before := log[..|log| - 1];
      match log[|log| - 1]
      case Add(c) => Registered(before)[Serial(Adds(before) + 1) := c]
      case Remove(id) => Registered(before) - {id}
  }

  /** Operation `p` added a chain under `id`, and nothing after it removed that id. */
  ghost predicate LiveAt<C>(log: seq<Op<C>>, p: nat, id: Id) {
    && p < |log|
    && log[p].Add?
    && Serial(Adds(log[..p]) + 1) == id
    && forall q :: p < q < |log| ==> log[q] != Remove(id)
  }

  lemma SerialDistinct(a: nat, b: nat)
    requires a < b < a + TWO_64
    ensures Serial(a) != Serial(b)
  {
  }

  lemma {:induction false} AddsGrow<C>(log: seq<Op<C>>, p: nat)
    requires p < |log| && log[p].Add?
    ensures Adds(log[..p]) + 1 <= Adds(log)
    decreases |log|
  {
    var before := log[..|log| - 1];
    if p == |log| - 1 {
    } else {
      AddsGrow(before, p);
      assert before[..p] == log[..p];
    }
  }

  /**
   Below 2^64 additions no id is used twice: the chain registered under an id is the
   one whose addition returned it, as long as that id has not been removed since.
   */
  lemma {:induction false} RegisteredExactly<C(!new)>(log: seq<Op<C>>, id: Id)
    requires Adds(log) < TWO_64
    ensures id in Registered(log) <==> exists p: nat :: LiveAt(log, p, id)
    ensures forall p: nat :: LiveAt(log, p, id) ==> Registered(log)[id] == log[p].chain
    ensures forall p: nat, q: nat :: LiveAt(log, p, id) && LiveAt(log, q, id) ==> p == q
    decreases |log|
  {
    hide Serial;
    if log != [] {
      var n := |log| - 1;
      var before := log[..n];
      RegisteredExactly(before, id);
      forall p: nat | p < n
        ensures LiveAt(log, p, id) <==> LiveAt(before, p, id) && log[n] != Remove(id)
      {
        LiveStep(log, p, id);
      }
      if log[n].Add? && Serial(Adds(before) + 1) == id {
        forall p: nat | p < n
          ensures !LiveAt(before, p, id)
        {
          if LiveAt(before, p, id) {
            AddsGrow(before, p);
            SerialDistinct(Adds(before[..p]) + 1, Adds(before) + 1);
            assert false;
          }
        }
        assert LiveAt(log, n, id);
      }
    }
  }

  lemma LiveStep<C>(log: seq<Op<C>>, p: nat, id: Id)
    requires p < |log| - 1
    ensures LiveAt(log, p, id) <==> LiveAt(log[..|log| - 1], p, id) && log[|log| - 1] != Remove(id)
  {
    var before := log[..|log| - 1];
    assert before[..p] == log[..p];
    assert forall q :: 0 <= q < |before| ==> before[q] == log[q];
  }

  /** `list` holds the values of `m`, each id's once, in some order. */
  ghost predicate Lists<C(!new)>(list: seq<C>, m: map<Id, C>) {
    exists ids: seq<Id> :: Enumerates(ids, list, m)
  }

  ghost predicate Enumerates<C(!new)>(ids: seq<Id>, list: seq<C>, m: map<Id, C>) {
    && |ids| == |list| == |m|
    && (forall i :: 0 <= i < |ids| ==> ids[i] in m && m[ids[i]] == list[i])
    && (forall i, j :: 0 <= i < j < |ids| ==> ids[i] != ids[j])
  }

  class Manager<Chain(0,!new)> {
    var recvChainByID: map<Id, Chain>
    var chainIDAcc: Id
    var recvChainListDirty: bool
    var recvChainList: array<Chain>
    ghost var log: seq<Op<Chain>>

    ghost predicate Valid()
      reads this, recvChainList
    {
      && recvChainByID == Registered(log)
      && chainIDAcc == Serial(Adds(log))
      && (!recvChainListDirty ==> Lists(recvChainList[..], recvChainByID))
    }

    constructor ()
      ensures Valid() && log == [] && fresh(recvChainList)
    {
      recvChainByID, chainIDAcc, recvChainListDirty := map[], 0, false;
      recvChainList := new Chain[0];
      log := [];
      new;
      assert Enumerates([], recvChainList[..], recvChainByID);
    }

    /** No method changes a list: an array handed out earlier is never written again. */
    method AddChainRecv(recv: Chain) returns (autoID: Id)
      requires Valid()
      modifies this
      ensures Valid() && log == old(log) + [Add(recv)] && recvChainList == old(recvChainList)
      ensures autoID == Serial(Adds(log)) && autoID in recvChainByID && recvChainByID[autoID] == recv
    {
      hide Serial, Lists, Registered, Adds;
      AfterAdd(log, recv);
      log := log + [Add(recv)];
      chainIDAcc := if chainIDAcc == TWO_63 - 1 then -TWO_63 else chainIDAcc + 1;
      autoID := chainIDAcc;
      recvChainByID := recvChainByID[autoID := recv];
      recvChainListDirty := true;
    }

    method RemoveChainRecv(id: Id)
      requires Valid()
      modifies this
      ensures Valid() && log == old(log) + [Remove(id)] && recvChainList == old(recvChainList)
    {
      log := log + [Remove(id)];
      assert log[..|log| - 1] == old(log);
      recvChainByID := recvChainByID - {id};
      recvChainListDirty := true;
    }

    method ChainListRecv() returns (list: array<Chain>)
      requires Valid()
      modifies this
      ensures Valid() && log == old(log)
      ensures Lists(list[..], Registered(log))
      ensures list == recvChainList && (list == old(recvChainList) || fresh(list))
    {
      if recvChainListDirty {
        recvChainList := Collect();
        recvChainListDirty := false;
      }
      list := recvChainList;
    }

    /** The values of the map, in the order in which the iteration happens to meet them. */
    method Collect() returns (list: array<Chain>)
      ensures fresh(list) && Lists(list[..], recvChainByID)
    {
      var m := recvChainByID;
      list := new Chain[|m|];
      var index, left := 0, m.Keys;
      ghost var ids: seq<Id> := [];
      assert |m.Keys| == |m|;
      while left != {}
        invariant left <= m.Keys && index == |ids| == |m| - |left|
        invariant forall i :: 0 <= i < index ==> ids[i] in m && ids[i] !in left && m[ids[i]] == list[i]
        invariant forall i, j :: 0 <= i < j < index ==> ids[i] != ids[j]
        decreases left
      {
        Member(left);
        var k: Id :| k in left;
        list[index] := m[k];
        ids := ids + [k];
        index, left := index + 1, left - {k};
      }
      assert Enumerates(ids, list[..], m);
    }
  }

  lemma AfterAdd<C>(log: seq<Op<C>>, c: C)
    ensures var more := log + [Add(c)];
      && Registered(more) == Registered(log)[Serial(Adds(more)) := c]
      && Serial(Adds(more)) ==
         if Serial(Adds(log)) == TWO_63 - 1 then -TWO_63 else Serial(Adds(log)) + 1
  {
    hide Serial;
    var more := log + [Add(c)];
    assert more[..|more| - 1] == log;
    assert Adds(more) == Adds(log) + 1;
    SerialNext(Adds(log));
  }

  lemma Member(s: set<Id>)
    ensures s == {} || exists k: Id :: k in s
  {
    if forall k: Id :: k !in s {
      assert s == {};
    }
  }

  lemma SerialNext(n: nat)
    ensures Serial(n + 1) == if Serial(n) == TWO_63 - 1 then -TWO_63 else Serial(n) + 1
  {
    var r := n % TWO_64;
    assert n == n / TWO_64 * TWO_64 + r;
    if r + 1 < TWO_64 {
      assert (n + 1) % TWO_64 == r + 1;
    } else {
      assert (n + 1) % TWO_64 == 0;
    }
  }
}
