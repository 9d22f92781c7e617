/**
 A session: the receive thread, the send thread, the goroutine that waits for
 both, and the application threads that call Send and Close.  Every step between
 two points where another thread can be seen is an action of its own.
 */
module Session {
  import opened Bytes
  import opened EventList

  type Event = nat

  datatype RecvPc =
    | Reading      // in the read chain
    | Dispatching  // in the receive handlers
    | Posting      // about to post SessionClosed
    | Checking     // about to look at needNotifyWrite
    | Appending    // in Close, about to append nil
    | Signalling   // appended, about to signal
    | RecvLeaving  // about to call Done
    | RecvDone

  datatype SendPc =
    | Waiting      // in Pick, holding the lock, about to test the queue
    | Sleeping     // in Pick, asleep on the condition
    | Picking      // between Pick's two critical sections
    | Writing(batch: seq<Event>, exit: bool)
    | Clearing     // about to clear needNotifyWrite
    | Closing      // about to close the connection
    | SendLeaving  // about to call Done
    | SendDone

  datatype WaitPc = AtWait | AtOnClose | WaitDone

  datatype State = State(
    recv: RecvPc, send: SendPc, wait: WaitPc,
    needNotifyWrite: bool, open: bool, queue: seq<Option<Event>>, signals: nat, group: nat,
    // history
    posted: nat, onClose: nat, added: seq<Option<Event>>, written: seq<Event>, sawNil: bool, failed: bool)

  /** After run: both threads counted, nothing sent. */
  const INIT := State(Reading, Waiting, AtWait, true, true, [], 0, 2, 0, 0, [], [], false, false)

  datatype Action =
    | ReadOk | ReadFail | Dispatched(ok: bool) | Post | Check | Append | RecvSignal | RecvLeave
    | Test | Pick | Write(ok: bool) | EndBatch | Clear | CloseConn | SendLeave
    | BothEnded | CallOnClose
    | AppSend(ev: Event) | AppClose | AppSignal

  predicate Enabled(s: State, a: Action) {
    match a
    case ReadOk => s.recv == Reading && s.open
    case ReadFail => s.recv == Reading
    case Dispatched(_) => s.recv == Dispatching
    case Post => s.recv == Posting
    case Check => s.recv == Checking
    case Append => s.recv == Appending
    case RecvSignal => s.recv == Signalling
    case RecvLeave => s.recv == RecvLeaving && s.group > 0
    case Test => s.send == Waiting
    case Pick => s.send == Picking
    case Write(_) => s.send.Writing? && s.send.batch != []
    case EndBatch => s.send.Writing? && s.send.batch == []
    case Clear => s.send == Clearing
    case CloseConn => s.send == Closing
    case SendLeave => s.send == SendLeaving && s.group > 0
    case BothEnded => s.wait == AtWait && s.group == 0
    case CallOnClose => s.wait == AtOnClose
    case AppSend(_) => true
    case AppClose => true
    case AppSignal => s.signals > 0
  }

  function Enqueue(s: State, ev: Option<Event>): (r: State) {
    s.(queue := s.queue + [ev], added := s.added + [ev])
  }

  function Wake(s: State): (r: State) {
    if s.send == Sleeping then s.(send := Waiting) else s
  }

  function Next(s: State, a: Action): (r: State)
    requires Enabled(s, a)
  {
    match a
    case ReadOk => s.(recv := Dispatching)
    case ReadFail => s.(recv := Posting)
    case Dispatched(ok) => s.(recv := if ok then Reading else Posting)
    case Post => s.(recv := Checking, posted := s.posted + 1)
    case Check => s.(recv := if s.needNotifyWrite then Appending else RecvLeaving)
    case Append => Enqueue(s, None).(recv := Signalling)
    case RecvSignal => Wake(s).(recv := RecvLeaving)
    case RecvLeave => s.(recv := RecvDone, group := s.group - 1)
    case Test => s.(send := if s.queue == [] then Sleeping else Picking)
    case Pick =>
      s.(send := Writing(BeforeNil(s.queue), HasNil(s.queue)), queue := [], sawNil := s.sawNil || HasNil(s.queue))
    case Write(ok) =>
      s.(send := Writing(s.send.batch[1..], s.send.exit || !ok),
         written := s.written + [s.send.batch[0]], failed := s.failed || !ok)
    case EndBatch => s.(send := if s.send.exit then Clearing else Waiting)
    case Clear => s.(send := Closing, needNotifyWrite := false)
    case CloseConn => s.(send := SendLeaving, open := false)
    case SendLeave => s.(send := SendDone, group := s.group - 1)
    case BothEnded => s.(wait := AtOnClose)
    case CallOnClose => s.(wait := WaitDone, onClose := s.onClose + 1)
    case AppSend(ev) => Enqueue(s, Some(ev)).(signals := s.signals + 1)
    case AppClose => Enqueue(s, None).(signals := s.signals + 1)
    case AppSignal => Wake(s).(signals := s.signals - 1)
  }

  /** The state after a sequence of actions, if each is possible in its turn. */
  function Run(s: State, actions: seq<Action>): (r: Option<State>)
    decreases |actions|
  {
    if actions == [] then Some(s)
    else if Enabled(s, actions[0]) then Run(Next(s, actions[0]), actions[1..])
    else None
  }

  // ----- the invariant

  predicate SendEnding(s: State) {
    s.send == Clearing || s.send == Closing || s.send == SendLeaving || s.send == SendDone
  }

  /** The send thread is certain to exit: it will meet a nil, or is past the queue. */
  predicate ExitCertain(s: State) {
    HasNil(s.queue) || (s.send.Writing? && s.send.exit) || SendEnding(s)
  }

  function Batch(s: State): (b: seq<Event>) {
    if s.send.Writing? then s.send.batch else []
  }

  /** What each thread's position says about the shared state. */
  predicate Control(s: State) {
    && s.group == (if s.recv == RecvDone then 0 else 1) + (if s.send == SendDone then 0 else 1)
    && s.posted == (if s.recv == Reading || s.recv == Dispatching || s.recv == Posting then 0 else 1)
    && s.onClose == (if s.wait == WaitDone then 1 else 0)
    && (s.wait != AtWait ==> s.group == 0)
    && s.needNotifyWrite == !(s.send == Closing || s.send == SendLeaving || s.send == SendDone)
    && s.open == !(s.send == SendLeaving || s.send == SendDone)
  }

  /** No wake-up is lost, and a receive thread that ended has seen to the send thread. */
  predicate Liveness(s: State) {
    && (s.send == Sleeping && s.queue != [] ==> s.signals > 0 || s.recv == Signalling)
    && (s.send == Picking ==> s.queue != [])
    && (s.recv == Signalling || s.recv == RecvLeaving || s.recv == RecvDone ==> ExitCertain(s))
  }

  /** Events are written in the order they were added, and none from behind a nil. */
  predicate Conservation(s: State) {
    && (s.sawNil ==>
          && HasNil(s.added) && BeforeNil(s.added) == s.written + Batch(s)
          && ((s.send.Writing? && s.send.exit) || SendEnding(s)))
    && (!s.sawNil ==>
          BeforeNil(s.added) == s.written + Batch(s) + BeforeNil(s.queue) && HasNil(s.added) == HasNil(s.queue))
    && ((s.send.Writing? && s.send.exit) || SendEnding(s) ==> s.sawNil || s.failed)
  }

  predicate Inv(s: State) {
    Control(s) && Liveness(s) && Conservation(s)
  }

  lemma ControlKept(s: State, a: Action)
    requires Control(s) && Enabled(s, a)
    ensures Control(Next(s, a))
  {
    hide BeforeNil, HasNil;
  }

  lemma LivenessKept(s: State, a: Action)
    requires Inv(s) && Enabled(s, a)
    ensures Liveness(Next(s, a))
  {
    hide BeforeNil, HasNil, Conservation;
    BeforeNilAdd(s.queue, None);
    if a.AppSend? {
      BeforeNilAdd(s.queue, Some(a.ev));
    }
  }

  lemma AddingConserves(s: State, a: Action)
    requires Inv(s) && Enabled(s, a) && (a == Append || a == AppClose || a.AppSend?)
    ensures Conservation(Next(s, a))
  {
    hide BeforeNil, HasNil;
    var ev := if a.AppSend? then Some(a.ev) else None;
    BeforeNilAdd(s.queue, ev);
    BeforeNilAdd(s.added, ev);
    if a.AppSend? {
      assert (s.written + Batch(s)) + (BeforeNil(s.queue) + [a.ev])
        == s.written + Batch(s) + BeforeNil(s.queue) + [a.ev];
    }
  }

  lemma PickConserves(s: State)
    requires Inv(s) && Enabled(s, Pick)
    ensures Conservation(Next(s, Pick))
  {
    hide BeforeNil, HasNil, Control, Liveness;
    var t := Next(s, Pick);
    EmptyQueue(t.queue);
    assert Batch(s) == [] && s.written + [] == s.written;
    assert s.written + BeforeNil(s.queue) + [] == s.written + BeforeNil(s.queue);
  }

  lemma WriteConserves(s: State, ok: bool)
    requires Inv(s) && Enabled(s, Write(ok))
    ensures Conservation(Next(s, Write(ok)))
  {
    hide BeforeNil, HasNil, Control, Liveness;
    var t := Next(s, Write(ok));
    assert s.written + Batch(s) == t.written + Batch(t);
  }

  lemma BatchConserves(s: State)
    requires Inv(s) && Enabled(s, EndBatch)
    ensures Conservation(Next(s, EndBatch))
  {
    hide BeforeNil, HasNil, Control, Liveness;
    var t := Next(s, EndBatch);
    assert Batch(s) == Batch(t) == [];
  }

  /** The other steps touch neither the queue nor what was written. */
  lemma OthersConserve(s: State, a: Action)
    requires Inv(s) && Enabled(s, a)
    requires !(a == Append || a == AppClose || a.AppSend? || a == Pick || a.Write? || a == EndBatch)
    ensures Conservation(Next(s, a))
  {
    hide BeforeNil, HasNil, Control, Liveness;
  }

  lemma ConservationKept(s: State, a: Action)
    requires Inv(s) && Enabled(s, a)
    ensures Conservation(Next(s, a))
  {
    hide *;
    if a == Append || a == AppClose || a.AppSend? {
      AddingConserves(s, a);
    } else if a == Pick {
      PickConserves(s);
    } else if a.Write? {
      WriteConserves(s, a.ok);
    } else if a == EndBatch {
      BatchConserves(s);
    } else {
      OthersConserve(s, a);
    }
  }

  lemma InvKept(s: State, a: Action)
    requires Inv(s) && Enabled(s, a)
    ensures Inv(Next(s, a))
  {
    hide *;
    InvParts(s, Next(s, a));
    ControlKept(s, a);
    LivenessKept(s, a);
    ConservationKept(s, a);
  }

  lemma InvParts(s: State, t: State)
    ensures Inv(s) ==> Control(s)
    ensures Inv(t) <==> Control(t) && Liveness(t) && Conservation(t)
  {
  }

  lemma {:induction false} RunKeeps(s: State, actions: seq<Action>)
    requires Inv(s) && Run(s, actions).Some?
    ensures Inv(Run(s, actions).value)
    decreases |actions|
  {
    hide Inv, Enabled, Next;
    if actions != [] {
      InvKept(s, actions[0]);
      RunKeeps(Next(s, actions[0]), actions[1..]);
    }
  }

  lemma InitInv()
    ensures Inv(INIT)
  {
    EmptyQueue(INIT.queue);
  }

  /** Every reachable state, over every interleaving of every length. */
  lemma ReachableInv(actions: seq<Action>)
    requires Run(INIT, actions).Some?
    ensures Inv(Run(INIT, actions).value)
  {
    hide Inv, Enabled, Next;
    InitInv();
    RunKeeps(INIT, actions);
  }

  // ----- what holds in every reachable state

  /** SessionClosed is posted at most once and OnClose runs at most once, only
      after both threads ended and the connection was closed. */
  lemma ClosedOnce(actions: seq<Action>)
    requires Run(INIT, actions).Some?
    ensures var s := Run(INIT, actions).value;
      && s.posted <= 1 && s.onClose <= 1
      && (s.onClose == 1 || s.wait == AtOnClose ==>
            s.recv == RecvDone && s.send == SendDone && s.posted == 1 && !s.open)
      && (s.recv == RecvDone ==> s.posted == 1)
  {
    hide Run;
    ReachableInv(actions);
  }

  /** What reaches the write chain is a prefix, in order, of what was added before
      the first nil; if no write failed, it is all of it once the connection is closed. */
  lemma GracefulClose(actions: seq<Action>)
    requires Run(INIT, actions).Some?
    ensures var s := Run(INIT, actions).value;
      && s.written <= BeforeNil(s.added)
      && (!s.open && !s.failed ==> HasNil(s.added) && s.written == BeforeNil(s.added))
  {
    hide Run, BeforeNil, HasNil;
    ReachableInv(actions);
    var s := Run(INIT, actions).value;
    if !s.sawNil {
      assert s.written + Batch(s) + BeforeNil(s.queue) == s.written + (Batch(s) + BeforeNil(s.queue));
    }
    assert s.written + [] == s.written;
  }

  // ----- no thread is left behind

  predicate OneEnded(s: State) {
    s.recv == RecvDone || s.send == SendDone
  }

  predicate Finished(s: State) {
    s.recv == RecvDone && s.send == SendDone && s.wait == WaitDone
  }

  function RecvRank(s: State): (n: nat) {
    match s.recv
    case Dispatching => 8
    case Reading => 7
    case Posting => 6
    case Checking => 5
    case Appending => 4
    case Signalling => 3
    case RecvLeaving => 2
    case RecvDone => 0
  }

  /** Steps to the end once a nil is certain to be met. */
  function SendRank(s: State): (n: nat) {
    match s.send
    case Writing(batch, exit) => if exit then 4 + |batch| else 8 + |batch| + |BeforeNil(s.queue)|
    case Sleeping => 7 + |BeforeNil(s.queue)|
    case Waiting => 6 + |BeforeNil(s.queue)|
    case Picking => 5 + |BeforeNil(s.queue)|
    case Clearing => 3
    case Closing => 2
    case SendLeaving => 1
    case SendDone => 0
  }

  function Rank(s: State): (n: nat) {
    RecvRank(s) + SendRank(s) + (match s.wait case AtWait => 2 case AtOnClose => 1 case WaitDone => 0)
  }

  /** The actions of threads outside the session. */
  predicate External(a: Action) {
    a.AppSend? || a.AppClose? || a.AppSignal?
  }

  /** Once a thread has ended, its sessions' own steps lead downhill and nothing leads up. */
  lemma RankFalls(s: State, a: Action)
    requires Inv(s) && OneEnded(s) && Enabled(s, a)
    ensures OneEnded(Next(s, a))
    ensures Rank(Next(s, a)) <= Rank(s)
    ensures !External(a) ==> Rank(Next(s, a)) < Rank(s)
    ensures a.AppSignal? && s.send == Sleeping ==> Rank(Next(s, a)) < Rank(s)
  {
    hide BeforeNil, HasNil, Conservation;
    if a.AppSend? {
      BeforeNilAdd(s.queue, Some(a.ev));
    } else if a.AppClose? || a.Append? {
      BeforeNilAdd(s.queue, None);
    } else if a.Test? && s.queue == [] {
      EmptyQueue(s.queue);
    }
  }

  /** The step that can be taken next. */
  function Progress(s: State): (a: Action) {
    if s.recv != RecvDone then
      match s.recv
      case Reading => ReadFail
      case Dispatching => Dispatched(true)
      case Posting => Post
      case Checking => Check
      case Appending => Append
      case Signalling => RecvSignal
      case _ => RecvLeave
    else if s.send != SendDone then
      match s.send
      case Waiting => Test
      case Sleeping => AppSignal
      case Picking => Pick
      case Writing(batch, _) => if batch == [] then EndBatch else Write(true)
      case Clearing => Clear
      case Closing => CloseConn
      case _ => SendLeave
    else if s.wait == AtWait then BothEnded
    else CallOnClose
  }

  /** No such state is stuck before everything has ended. */
  lemma NotStuck(s: State)
    requires Inv(s) && OneEnded(s) && !Finished(s)
    ensures Enabled(s, Progress(s)) && Rank(Next(s, Progress(s))) < Rank(s)
  {
    hide BeforeNil, HasNil, Conservation, Rank;
    if s.recv == RecvDone && s.send == Sleeping && s.queue == [] {
      EmptyQueue(s.queue);
    }
    RankFalls(s, Progress(s));
  }

  /** From every reachable state with one thread ended, the other ends too, and
      OnClose has then run once and SessionClosed was posted once. */
  lemma {:induction false} Completes(s: State) returns (actions: seq<Action>)
    requires Inv(s) && OneEnded(s)
    ensures Run(s, actions).Some? && Finished(Run(s, actions).value)
    ensures Run(s, actions).value.onClose == 1 && Run(s, actions).value.posted == 1
    ensures |actions| <= Rank(s)
    decreases Rank(s)
  {
    if Finished(s) {
      return [];
    }
    hide Rank, Enabled, Next, Progress, Inv;
    var a := Progress(s);
    NotStuck(s);
    InvKept(s, a);
    RankFalls(s, a);
    var rest := Completes(Next(s, a));
    actions := [a] + rest;
    assert actions[1..] == rest;
  }

  /** The steps of the session's own threads. */
  function OwnSteps(actions: seq<Action>): (n: nat) {
    if actions == [] then 0 else (if External(actions[0]) then 0 else 1) + OwnSteps(actions[1..])
  }

  /** Every run from such a state, whatever the application does meanwhile: the session takes
      at most `Rank(s)` steps, and once it has ended, it has posted once and called OnClose once. */
  lemma {:induction false} EveryRunEnds(s: State, actions: seq<Action>)
    requires Inv(s) && OneEnded(s) && Run(s, actions).Some?
    ensures var t := Run(s, actions).value;
      && Inv(t) && OneEnded(t)
      && OwnSteps(actions) + Rank(t) <= Rank(s)
      && (Finished(t) ==> t.onClose == 1 && t.posted == 1)
    decreases |actions|
  {
    hide Rank, Enabled, Next, External, Liveness, Conservation;
    if actions != [] {
      hide Inv;
      InvKept(s, actions[0]);
      RankFalls(s, actions[0]);
      EveryRunEnds(Next(s, actions[0]), actions[1..]);
    }
  }
}
