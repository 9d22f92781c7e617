/**
 Why a session does what it does: what its state says about the actions that led to it,
 over every interleaving.
 */
module SessionHistory {
  import opened Bytes
  import opened EventList
  import opened Session

  /** The read chain failed, or a handler refused the packet. */
  predicate Fault(a: Action) {
    a == ReadFail || a == Dispatched(false)
  }

  predicate OfReading(a: Action) {
    a == ReadOk || a == ReadFail || a.Dispatched?
  }

  predicate InLoop(s: State) {
    s.recv == Reading || s.recv == Dispatching
  }

  predicate NoFault(actions: seq<Action>) {
    forall i :: 0 <= i < |actions| ==> !Fault(actions[i])
  }

  function Count(actions: seq<Action>, a: Action): (n: nat) {
    if actions == [] then 0 else (if actions[0] == a then 1 else 0) + Count(actions[1..], a)
  }

  /** What an action puts into the queue. */
  function Queued(a: Action): (q: seq<Option<Event>>) {
    match a
    case AppSend(ev) => [Some(ev)]
    case AppClose => [None]
    case Append => [None]
    case _ => []
  }

  function Sends(actions: seq<Action>): (q: seq<Option<Event>>) {
    if actions == [] then [] else Queued(actions[0]) + Sends(actions[1..])
  }

  // ----- the receive thread

  lemma ReadStep(s: State, a: Action)
    requires Enabled(s, a)
    ensures InLoop(Next(s, a)) <==> InLoop(s) && !Fault(a)
    ensures OfReading(a) ==> InLoop(s)
    ensures InLoop(Next(s, a)) ==>
      (if a == ReadOk then 1 else 0) + (if s.recv == Dispatching then 1 else 0)
      == (if a == Dispatched(true) then 1 else 0) + (if Next(s, a).recv == Dispatching then 1 else 0)
    ensures a != Post ==> Next(s, a).posted == s.posted
  {
    hide BeforeNil, HasNil;
  }

  lemma {:induction false} ReadingFrom(s: State, actions: seq<Action>)
    requires Run(s, actions).Some?
    ensures var t := Run(s, actions).value;
      && (InLoop(t) <==> InLoop(s) && NoFault(actions))
      && (InLoop(t) ==>
            Count(actions, ReadOk) + (if s.recv == Dispatching then 1 else 0)
            == Count(actions, Dispatched(true)) + (if t.recv == Dispatching then 1 else 0))
    ensures !InLoop(s) ==> forall i :: 0 <= i < |actions| ==> !OfReading(actions[i])
    decreases |actions|
  {
    hide Enabled, Next, Fault, OfReading, InLoop;
    if actions != [] {
      var a, rest := actions[0], actions[1..];
      ReadStep(s, a);
      ReadingFrom(Next(s, a), rest);
      assert forall i :: 0 < i < |actions| ==> actions[i] == rest[i - 1];
      assert NoFault(actions) <==> !Fault(a) && NoFault(rest);
    }
  }

  /**
   The receive thread goes on reading exactly as long as no read failed and no handler refused;
   until then nothing is posted, and every packet read is handled before the next is read.
   After the first fault nothing more is read or handled.
   */
  lemma ReadsUntilFault(actions: seq<Action>)
    requires Run(INIT, actions).Some?
    ensures var t := Run(INIT, actions).value;
      && (InLoop(t) <==> NoFault(actions))
      && (NoFault(actions) ==>
            && t.posted == 0
            && Count(actions, ReadOk)
               == Count(actions, Dispatched(true)) + (if t.recv == Dispatching then 1 else 0))
    ensures forall i, j :: 0 <= i < j < |actions| && Fault(actions[i]) ==> !OfReading(actions[j])
  {
    hide Enabled, Next, Fault, OfReading, Run, Inv, NoFault;
    ReadingFrom(INIT, actions);
    ReachableInv(actions);
    if NoFault(actions) {
      PostedInLoop(Run(INIT, actions).value);
    }
    forall i, j | 0 <= i < j < |actions| && Fault(actions[i])
      ensures !OfReading(actions[j])
    {
      NothingAfter(actions, i, j);
    }
  }

  lemma NothingAfter(actions: seq<Action>, i: nat, j: nat)
    requires Run(INIT, actions).Some? && i < j < |actions| && Fault(actions[i])
    ensures !OfReading(actions[j])
  {
    hide Enabled, Next, Fault, OfReading, Run, InLoop;
    var before, after := actions[..i + 1], actions[i + 1..];
    assert before + after == actions;
    RunSplit(INIT, before, after);
    ReadingFrom(INIT, before);
    assert Fault(before[i]);
    ReadingFrom(Run(INIT, before).value, after);
    assert after[j - i - 1] == actions[j];
  }

  lemma PostedInLoop(s: State)
    requires Inv(s) && InLoop(s)
    ensures s.posted == 0
  {
    hide BeforeNil, HasNil, Conservation, Liveness;
  }

  lemma {:induction false} RunSplit(s: State, before: seq<Action>, after: seq<Action>)
    requires Run(s, before + after).Some?
    ensures Run(s, before).Some? && Run(s, before + after) == Run(Run(s, before).value, after)
    decreases |before|
  {
    hide Enabled, Next;
    var all := before + after;
    if before == [] {
      assert all == after;
    } else {
      assert all[0] == before[0] && all[1..] == before[1..] + after;
      RunSplit(Next(s, before[0]), before[1..], after);
    }
  }

  // ----- the history in the state

  lemma {:induction false} HistoryFrom(s: State, actions: seq<Action>)
    requires Run(s, actions).Some?
    ensures var t := Run(s, actions).value;
      && t.added == s.added + Sends(actions)
      && |t.written| == |s.written| + Count(actions, Write(true)) + Count(actions, Write(false))
      && t.posted == s.posted + Count(actions, Post)
      && t.onClose == s.onClose + Count(actions, CallOnClose)
      && (t.failed <==> s.failed || Count(actions, Write(false)) > 0)
      && (t.open <==> s.open && Count(actions, CloseConn) == 0)
    decreases |actions|
  {
    hide Enabled, Next, Sends, Queued;
    if actions == [] {
      SendsNone();
      assert s.added + [] == s.added;
    } else {
      var a, rest := actions[0], actions[1..];
      HistoryStep(s, a);
      HistoryFrom(Next(s, a), rest);
      SendsFirst(s.added, actions);
    }
  }

  lemma SendsNone()
    ensures Sends([]) == []
  {
  }

  lemma SendsFirst(q: seq<Option<Event>>, actions: seq<Action>)
    requires actions != []
    ensures q + Sends(actions) == q + Queued(actions[0]) + Sends(actions[1..])
  {
    hide Queued;
  }

  lemma HistoryStep(s: State, a: Action)
    requires Enabled(s, a)
    ensures var t := Next(s, a);
      && t.added == s.added + Queued(a)
      && |t.written| == |s.written| + (if a.Write? then 1 else 0)
      && t.posted == s.posted + (if a == Post then 1 else 0)
      && t.onClose == s.onClose + (if a == CallOnClose then 1 else 0)
      && (t.failed <==> s.failed || a == Write(false))
      && (t.open <==> s.open && a != CloseConn)
  {
    hide *;
    AddedStep(s, a);
    WrittenStep(s, a);
    PostedStep(s, a);
    OnCloseStep(s, a);
    FlagsStep(s, a);
  }

  lemma AddedStep(s: State, a: Action)
    requires Enabled(s, a)
    ensures Next(s, a).added == s.added + Queued(a)
  {
    hide BeforeNil, HasNil;
    assert s.added + [] == s.added;
  }

  lemma WrittenStep(s: State, a: Action)
    requires Enabled(s, a)
    ensures |Next(s, a).written| == |s.written| + (if a.Write? then 1 else 0)
  {
    hide BeforeNil, HasNil;
  }

  lemma PostedStep(s: State, a: Action)
    requires Enabled(s, a)
    ensures Next(s, a).posted == s.posted + (if a == Post then 1 else 0)
  {
    hide BeforeNil, HasNil;
  }

  lemma OnCloseStep(s: State, a: Action)
    requires Enabled(s, a)
    ensures Next(s, a).onClose == s.onClose + (if a == CallOnClose then 1 else 0)
  {
    hide BeforeNil, HasNil;
  }

  lemma FlagsStep(s: State, a: Action)
    requires Enabled(s, a)
    ensures Next(s, a).failed <==> s.failed || a == Write(false)
    ensures Next(s, a).open <==> s.open && a != CloseConn
  {
    hide BeforeNil, HasNil;
  }

  /**
   What the session's history records is what happened: every event sent and every nil, in
   order, one write for each event handed over, the posts, the calls of OnClose, the failed
   writes and the closing of the connection.
   */
  lemma HistoryIs(actions: seq<Action>)
    requires Run(INIT, actions).Some?
    ensures var t := Run(INIT, actions).value;
      && t.added == Sends(actions)
      && |t.written| == Count(actions, Write(true)) + Count(actions, Write(false))
      && t.posted == Count(actions, Post) && t.onClose == Count(actions, CallOnClose)
      && (t.failed <==> Count(actions, Write(false)) > 0)
      && (t.open <==> Count(actions, CloseConn) == 0)
  {
    hide Run, Sends;
    HistoryFrom(INIT, actions);
    assert [] + Sends(actions) == Sends(actions);
  }

  // ----- the send thread after a failed write

  predicate WindingDown(s: State) {
    (s.send.Writing? && s.send.exit) || SendEnding(s)
  }

  lemma {:induction false} FailureFrom(s: State, actions: seq<Action>)
    requires Run(s, actions).Some? && (s.failed ==> WindingDown(s))
    ensures var t := Run(s, actions).value; t.failed ==> WindingDown(t)
    decreases |actions|
  {
    hide Enabled, Next, WindingDown;
    if actions != [] {
      FailureStep(s, actions[0]);
      FailureFrom(Next(s, actions[0]), actions[1..]);
    }
  }

  lemma FailureStep(s: State, a: Action)
    requires Enabled(s, a) && (s.failed ==> WindingDown(s))
    ensures Next(s, a).failed ==> WindingDown(Next(s, a))
  {
    hide BeforeNil, HasNil;
  }

  /** Once a write failed, the rest of its batch is still written, but nothing is picked any more. */
  lemma FailureEnds(actions: seq<Action>)
    requires Run(INIT, actions).Some?
    ensures var t := Run(INIT, actions).value;
      Count(actions, Write(false)) > 0 ==> WindingDown(t) && !Enabled(t, Test) && !Enabled(t, Pick)
  {
    hide Run;
    HistoryIs(actions);
    FailureFrom(INIT, actions);
  }

  // ----- who can be kept waiting

  /**
   No thread waits except the send thread asleep on an empty queue and the goroutine that
   waits for both; and where the outside decides, both outcomes are possible.
   */
  lemma OnlySleepWaits(s: State)
    requires Inv(s)
    ensures s.recv == Reading ==> Enabled(s, ReadFail) && (Enabled(s, ReadOk) <==> s.open)
    ensures s.recv == Dispatching ==> Enabled(s, Dispatched(true)) && Enabled(s, Dispatched(false))
    ensures s.recv == Posting ==> Enabled(s, Post)
    ensures s.recv == Checking ==> Enabled(s, Check)
    ensures s.recv == Appending ==> Enabled(s, Append)
    ensures s.recv == Signalling ==> Enabled(s, RecvSignal)
    ensures s.recv == RecvLeaving ==> Enabled(s, RecvLeave)
    ensures s.send == Waiting ==> Enabled(s, Test)
    ensures s.send == Picking ==> Enabled(s, Pick)
    ensures s.send.Writing? && s.send.batch != [] ==> Enabled(s, Write(true)) && Enabled(s, Write(false))
    ensures s.send.Writing? && s.send.batch == [] ==> Enabled(s, EndBatch)
    ensures s.send == Clearing ==> Enabled(s, Clear)
    ensures s.send == Closing ==> Enabled(s, CloseConn)
    ensures s.send == SendLeaving ==> Enabled(s, SendLeave)
    ensures s.wait == AtWait && s.recv == RecvDone && s.send == SendDone ==> Enabled(s, BothEnded)
    ensures s.wait == AtOnClose ==> Enabled(s, CallOnClose)
    ensures forall ev :: Enabled(s, AppSend(ev))
    ensures Enabled(s, AppClose)
  {
    hide BeforeNil, HasNil, Conservation, Liveness;
  }
}
