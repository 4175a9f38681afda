/**
 WebhookSender of cmd/bridge/proxy.go as a state machine: any number of senders and closers
 around one read-write lock and one bounded channel, and a fixed pool of delivery workers. A
 payload is named by the Send call that carries it. Sending on a closed channel panics in Go;
 here it raises `panicked`, which no run reaches.
 */
module WebhookQueue {
  const WORKERS := 8
  const QUEUE_DEPTH := 1024

  /** Where one Send call stands. Entered, Ready and Leaving hold the read lock. */
  datatype SendPhase = Called | Entered | Ready | Leaving | Returned

  /** Where one Close call stands. */
  datatype ClosePhase = AtOnce | WantsLock | Locked | Unlocked | Waiting | Finished

  datatype Once = Fresh | Running(closer: nat) | Passed

  datatype Worker = Idle | Delivering(payload: nat) | Exited

  datatype Sys = Sys(
    queue: seq<nat>, channelClosed: bool, closed: bool, once: Once, panicked: bool,
    senders: map<nat, SendPhase>, closers: map<nat, ClosePhase>, workers: seq<Worker>,
    droppedCount: nat,
    // history
    accepted: seq<nat>, dropped: seq<nat>, refused: seq<nat>,
    handed: seq<nat>            // payloads given to deliver, in order
  )

  function Init(): Sys {
    Sys([], false, false, Fresh, false, map[], map[], seq(WORKERS, _ => Idle), 0, [], [], [], [])
  }

  predicate SenderAt(s: Sys, p: nat, ph: SendPhase) {
    p in s.senders && s.senders[p] == ph
  }

  predicate CloserAt(s: Sys, c: nat, ph: ClosePhase) {
    c in s.closers && s.closers[c] == ph
  }

  predicate HoldsRead(ph: SendPhase) {
    ph == Entered || ph == Ready || ph == Leaving
  }

  ghost predicate NoReaders(s: Sys) {
    forall p :: p in s.senders ==> !HoldsRead(s.senders[p])
  }

  ghost predicate NoWriter(s: Sys) {
    forall c :: c in s.closers ==> s.closers[c] != Locked
  }

  datatype Step =
    | Send(p: nat) | LockRead(p: nat) | TestClosed(p: nat) | TrySend(p: nat) | UnlockRead(p: nat)
    | Close(c: nat) | EnterOnce(c: nat) | LockWrite(c: nat) | SetClosed(c: nat) | CloseChannel(c: nat)
    | WaitDone(c: nat)
    | Receive(w: nat) | Delivered(w: nat) | Exit(w: nat)

  ghost predicate Enabled(s: Sys, t: Step) {
    match t
    case Send(p) => p !in s.senders
    case LockRead(p) => SenderAt(s, p, Called) && NoWriter(s)
    case TestClosed(p) => SenderAt(s, p, Entered)
    case TrySend(p) => SenderAt(s, p, Ready)
    case UnlockRead(p) => SenderAt(s, p, Leaving)
    case Close(c) => c !in s.closers
    case EnterOnce(c) => CloserAt(s, c, AtOnce) && !s.once.Running?
    case LockWrite(c) => CloserAt(s, c, WantsLock) && NoReaders(s) && NoWriter(s)
    case SetClosed(c) => CloserAt(s, c, Locked)
    case CloseChannel(c) => CloserAt(s, c, Unlocked)
    case WaitDone(c) => CloserAt(s, c, Waiting) && AllExited(s)
    case Receive(w) => w < |s.workers| && s.workers[w] == Idle && s.queue != []
    case Delivered(w) => w < |s.workers| && s.workers[w].Delivering?
    case Exit(w) => w < |s.workers| && s.workers[w] == Idle && s.queue == [] && s.channelClosed
  }

  function MoveSender(s: Sys, p: nat, ph: SendPhase): Sys {
    s.(senders := s.senders[p := ph])
  }

  function MoveCloser(s: Sys, c: nat, ph: ClosePhase): Sys {
    s.(closers := s.closers[c := ph])
  }

  /** The select: queue if there is room, otherwise count a drop. */
  function DoTrySend(s: Sys, p: nat): Sys {
    var s' := MoveSender(s, p, Leaving);
    if s.channelClosed then s'.(panicked := true)
    else if |s.queue| < QUEUE_DEPTH then s'.(queue := s.queue + [p], accepted := s.accepted + [p])
    else s'.(droppedCount := s.droppedCount + 1, dropped := s.dropped + [p])
  }

  ghost function Apply(s: Sys, t: Step): Sys
    requires Enabled(s, t)
  {
    match t
    case Send(p) => MoveSender(s, p, Called)
    case LockRead(p) => MoveSender(s, p, Entered)
    case TestClosed(p) =>
      if s.closed then MoveSender(s, p, Leaving).(refused := s.refused + [p]) else MoveSender(s, p, Ready)
    case TrySend(p) => DoTrySend(s, p)
    case UnlockRead(p) => MoveSender(s, p, Returned)
    case Close(c) => MoveCloser(s, c, AtOnce)
    case EnterOnce(c) =>
      if s.once == Fresh then MoveCloser(s, c, WantsLock).(once := Running(c)) else MoveCloser(s, c, Waiting)
    case LockWrite(c) => MoveCloser(s, c, Locked)
    case SetClosed(c) => MoveCloser(s, c, Unlocked).(closed := true)
    case CloseChannel(c) => MoveCloser(s, c, Waiting).(channelClosed := true, once := Passed)
    case WaitDone(c) => MoveCloser(s, c, Finished)
    case Receive(w) =>
      s.(queue := s.queue[1..], workers := s.workers[w := Delivering(s.queue[0])], handed := s.handed + [s.queue[0]])
    case Delivered(w) => s.(workers := s.workers[w := Idle])
    case Exit(w) => s.(workers := s.workers[w := Exited])
  }

  ghost predicate Executes(s: Sys, ts: seq<Step>, s': Sys)
    decreases |ts|
  {
    if ts == [] then s' == s else Enabled(s, ts[0]) && Executes(Apply(s, ts[0]), ts[1..], s')
  }

  ghost predicate Reachable(s: Sys) {
    exists ts :: Executes(Init(), ts, s)
  }

  // ------------------------------------------------------------------ the lock

  /** The closer running the once body. */
  predicate Owning(ph: ClosePhase) {
    ph == WantsLock || ph == Locked || ph == Unlocked
  }

  ghost predicate CloserInv(s: Sys, c: nat)
    requires c in s.closers
  {
    && (Owning(s.closers[c]) ==> s.once == Running(c))
    && (s.closers[c] == Locked ==> NoReaders(s))
    && (s.closers[c] == Unlocked ==> s.closed)
    && (s.closers[c] == Waiting || s.closers[c] == Finished ==> s.once == Passed)
  }

  ghost predicate LockInv(s: Sys) {
    && !s.panicked
    && (forall c :: c in s.closers ==> CloserInv(s, c))
    && (forall p :: p in s.senders && s.senders[p] == Ready ==> !s.closed)
    && (s.channelClosed ==> s.closed)
    && (s.once == Passed <==> s.channelClosed)
  }

  lemma SenderStepKeepsLock(s: Sys, t: Step)
    requires LockInv(s) && Enabled(s, t)
    requires t.Send? || t.LockRead? || t.TestClosed? || t.TrySend? || t.UnlockRead?
    ensures LockInv(Apply(s, t))
  {
    var s' := Apply(s, t);
    assert s'.closers == s.closers && s'.once == s.once && s'.closed == s.closed && s'.channelClosed == s.channelClosed;
    assert t.TrySend? ==> !s.channelClosed;
    forall c | c in s'.closers ensures CloserInv(s', c) {
      assert CloserInv(s, c);
    }
  }

  lemma CloserStepKeepsLock(s: Sys, t: Step)
    requires LockInv(s) && Enabled(s, t)
    requires t.Close? || t.EnterOnce? || t.LockWrite? || t.SetClosed? || t.CloseChannel? || t.WaitDone?
    ensures LockInv(Apply(s, t))
  {
    var s' := Apply(s, t);
    assert s'.senders == s.senders;
    if t.c in s.closers {
      assert CloserInv(s, t.c);
    }
    forall c | c in s'.closers ensures CloserInv(s', c) {
      if c != t.c {
        assert CloserInv(s, c);
      }
    }
  }

  lemma WorkerStepKeepsLock(s: Sys, t: Step)
    requires LockInv(s) && Enabled(s, t) && (t.Receive? || t.Delivered? || t.Exit?)
    ensures LockInv(Apply(s, t))
  {
    var s' := Apply(s, t);
    assert s'.closers == s.closers && s'.senders == s.senders && s'.once == s.once && s'.closed == s.closed;
    forall c | c in s'.closers ensures CloserInv(s', c) {
      assert CloserInv(s, c);
    }
  }

  // ------------------------------------------------------------------ the queue

  ghost predicate Settled(ph: SendPhase) {
    ph == Leaving || ph == Returned
  }

  ghost predicate AllExited(s: Sys) {
    forall w :: 0 <= w < |s.workers| ==> s.workers[w] == Exited
  }

  ghost predicate QueueInv(s: Sys) {
    && |s.queue| <= QUEUE_DEPTH && |s.workers| == WORKERS
    && s.accepted == s.handed + s.queue
    && s.droppedCount == |s.dropped|
    && (forall w :: 0 <= w < |s.workers| && s.workers[w] == Exited ==> s.channelClosed && s.queue == [])
    && (forall c :: c in s.closers && s.closers[c] == Finished ==> AllExited(s))
  }

  ghost function Occ(xs: seq<nat>, p: nat): nat {
    multiset(xs)[p]
  }

  /** How many outcomes Send p has had. */
  ghost function Outcomes(s: Sys, p: nat): nat {
    Occ(s.accepted, p) + Occ(s.dropped, p) + Occ(s.refused, p)
  }

  /** Every Send that has reached its outcome is in exactly one of the three, once; the others in none. */
  ghost predicate OutcomeInv(s: Sys) {
    forall p: nat :: Outcomes(s, p) == if p in s.senders && Settled(s.senders[p]) then 1 else 0
  }

  lemma TrySendKeepsQueue(s: Sys, p: nat)
    requires LockInv(s) && QueueInv(s) && Enabled(s, TrySend(p))
    ensures QueueInv(DoTrySend(s, p))
  {
    assert !s.channelClosed;
    assert s.handed + s.queue + [p] == s.handed + (s.queue + [p]);
  }

  lemma WorkerStepKeepsQueue(s: Sys, t: Step)
    requires QueueInv(s) && Enabled(s, t) && (t.Receive? || t.Delivered? || t.Exit?)
    ensures QueueInv(Apply(s, t))
  {
    if t.Receive? {
      assert s.handed + s.queue == s.handed + [s.queue[0]] + s.queue[1..];
    }
    assert s.workers[t.w] != Exited;
  }

  /** s' has s's queue, workers and history, and no Close returned that should not have. */
  ghost predicate QueueAlone(s: Sys, s': Sys) {
    && s'.queue == s.queue && s'.workers == s.workers && s'.accepted == s.accepted && s'.handed == s.handed
    && s'.dropped == s.dropped && s'.droppedCount == s.droppedCount && (s.channelClosed ==> s'.channelClosed)
    && forall c :: c in s'.closers && s'.closers[c] == Finished ==>
         (c in s.closers && s.closers[c] == Finished) || AllExited(s)
  }

  lemma OtherStepLeavesQueue(s: Sys, t: Step)
    requires Enabled(s, t) && !t.TrySend? && !t.Receive? && !t.Delivered? && !t.Exit?
    ensures QueueAlone(s, Apply(s, t))
  {
  }

  lemma QueueAloneKeeps(s: Sys, s': Sys)
    requires QueueInv(s) && QueueAlone(s, s')
    ensures QueueInv(s')
  {
    assert AllExited(s) ==> AllExited(s');
  }

  lemma StepKeepsQueue(s: Sys, t: Step)
    requires LockInv(s) && QueueInv(s) && Enabled(s, t)
    ensures QueueInv(Apply(s, t))
  {
    if t.TrySend? {
      TrySendKeepsQueue(s, t.p);
    } else if t.Receive? || t.Delivered? || t.Exit? {
      WorkerStepKeepsQueue(s, t);
    } else {
      OtherStepLeavesQueue(s, t);
      QueueAloneKeeps(s, Apply(s, t));
    }
  }

  lemma OccAppend(xs: seq<nat>, q: nat, p: nat)
    ensures Occ(xs + [q], p) == Occ(xs, p) + if p == q then 1 else 0
  {
  }

  /** TrySend and a refused test give one outcome to their own Send and none to any other. */
  lemma SettlingStep(s: Sys, t: Step, p: nat)
    requires LockInv(s) && Enabled(s, t) && (t.TrySend? || t.TestClosed?)
    ensures Outcomes(Apply(s, t), p)
      == Outcomes(s, p) + if p == t.p && Apply(s, t).senders[t.p] == Leaving then 1 else 0
  {
    assert t.TrySend? ==> !s.channelClosed;
    OccAppend(s.accepted, t.p, p);
    OccAppend(s.dropped, t.p, p);
    OccAppend(s.refused, t.p, p);
  }

  lemma OtherStep(s: Sys, t: Step)
    requires Enabled(s, t) && !t.TrySend? && !t.TestClosed?
    ensures var s' := Apply(s, t); s'.accepted == s.accepted && s'.dropped == s.dropped && s'.refused == s.refused
    ensures forall p ::
      p in Apply(s, t).senders && Settled(Apply(s, t).senders[p]) <==> p in s.senders && Settled(s.senders[p])
  {
  }

  lemma OneKeepsOutcomes(s: Sys, t: Step, p: nat)
    requires LockInv(s) && OutcomeInv(s) && Enabled(s, t)
    ensures var s' := Apply(s, t); Outcomes(s', p) == if p in s'.senders && Settled(s'.senders[p]) then 1 else 0
  {
    assert Outcomes(s, p) == if p in s.senders && Settled(s.senders[p]) then 1 else 0;
    if t.TrySend? || t.TestClosed? {
      SettlingStep(s, t, p);
    } else {
      OtherStep(s, t);
    }
  }

  lemma StepKeepsOutcomes(s: Sys, t: Step)
    requires LockInv(s) && OutcomeInv(s) && Enabled(s, t)
    ensures OutcomeInv(Apply(s, t))
  {
    var s' := Apply(s, t);
    forall p: nat ensures Outcomes(s', p) == if p in s'.senders && Settled(s'.senders[p]) then 1 else 0 {
      OneKeepsOutcomes(s, t, p);
    }
  }

  ghost predicate Inv(s: Sys) {
    LockInv(s) && QueueInv(s) && OutcomeInv(s)
  }

  lemma StepKeepsInv(s: Sys, t: Step)
    requires Inv(s) && Enabled(s, t)
    ensures Inv(Apply(s, t))
  {
    StepKeepsQueue(s, t);
    StepKeepsOutcomes(s, t);
    if t.Send? || t.LockRead? || t.TestClosed? || t.TrySend? || t.UnlockRead? {
      SenderStepKeepsLock(s, t);
    } else if t.Receive? || t.Delivered? || t.Exit? {
      WorkerStepKeepsLock(s, t);
    } else {
      CloserStepKeepsLock(s, t);
    }
  }

  lemma {:induction false} RunKeepsInv(s: Sys, ts: seq<Step>, s': Sys)
    requires Inv(s) && Executes(s, ts, s')
    ensures Inv(s')
    decreases |ts|
  {
    if ts != [] {
      StepKeepsInv(s, ts[0]);
      RunKeepsInv(Apply(s, ts[0]), ts[1..], s');
    }
  }

  // ------------------------------------------------------------------ what every run guarantees

  lemma ReachableInv(s: Sys)
    requires Reachable(s)
    ensures Inv(s)
  {
    var ts :| Executes(Init(), ts, s);
    RunKeepsInv(Init(), ts, s);
  }

  /** In every interleaving nothing is sent on the closed channel, nor stands ready to be, at most 1024 payloads
      wait, at most 8 are in delivery, and the drop counter counts exactly the dropped sends. */
  lemma AlwaysSafe(s: Sys)
    requires Reachable(s)
    ensures !s.panicked && |s.queue| <= 1024 && |s.workers| == 8 && s.droppedCount == |s.dropped|
    ensures s.channelClosed ==> forall p :: p in s.senders ==> s.senders[p] != Ready && !Enabled(s, TrySend(p))
  {
    ReachableInv(s);
  }

  /** Every Send that has returned was exactly one of accepted, dropped or refused, exactly once. */
  lemma OneOutcomePerSend(s: Sys, p: nat)
    requires Reachable(s) && SenderAt(s, p, Returned)
    ensures Outcomes(s, p) == 1
  {
    ReachableInv(s);
    assert Settled(s.senders[p]);
  }

  /** How a Send is decided, at its own step of any run: refused exactly when it finds the flag set, and at the select
      accepted exactly when fewer than 1024 payloads wait, otherwise dropped and counted. */
  lemma OutcomeIff(s: Sys, p: nat)
    requires Reachable(s)
    ensures Enabled(s, TestClosed(p)) ==>
      var s' := Apply(s, TestClosed(p));
      && s'.refused == (if s.closed then s.refused + [p] else s.refused)
      && (SenderAt(s', p, Ready) <==> !s.closed) && (SenderAt(s', p, Leaving) <==> s.closed)
    ensures Enabled(s, TrySend(p)) ==>
      var s' := Apply(s, TrySend(p));
      && SenderAt(s', p, Leaving) && !s.closed && !s.channelClosed && s'.refused == s.refused
      && (if |s.queue| < 1024 then
            s'.queue == s.queue + [p] && s'.accepted == s.accepted + [p]
            && s'.dropped == s.dropped && s'.droppedCount == s.droppedCount
          else
            s'.queue == s.queue && s'.accepted == s.accepted
            && s'.dropped == s.dropped + [p] && s'.droppedCount == s.droppedCount + 1)
  {
    ReachableInv(s);
  }

  /** Payloads reach delivery in the order they were accepted, none twice. */
  lemma DeliveredInOrder(s: Sys)
    requires Reachable(s)
    ensures s.handed <= s.accepted && forall i, j :: 0 <= i < j < |s.handed| ==> s.handed[i] != s.handed[j]
  {
    ReachableInv(s);
    forall i, j | 0 <= i < j < |s.handed| ensures s.handed[i] != s.handed[j] {
      assert s.accepted[i] == s.handed[i] && s.accepted[j] == s.handed[j];
      var p := s.handed[i];
      assert Outcomes(s, p) <= 1;
      TwiceCounted(s.accepted, i, j);
    }
  }

  lemma TwiceCounted(xs: seq<nat>, i: nat, j: nat)
    requires i < j < |xs|
    ensures xs[i] == xs[j] ==> multiset(xs)[xs[i]] >= 2
  {
    assert xs == xs[..j] + [xs[j]] + xs[j + 1..];
    assert xs[i] in xs[..j] by { assert xs[..j][i] == xs[i]; }
  }

  /** When any Close has returned, every accepted payload has been handed to delivery and no delivery is running. */
  lemma CloseDelivered(s: Sys, c: nat)
    requires Reachable(s) && CloserAt(s, c, Finished)
    ensures s.handed == s.accepted && AllExited(s)
  {
    ReachableInv(s);
    assert s.workers[0] == Exited;
    assert s.handed + [] == s.handed;
  }

  /** After the closed flag is set nothing more is accepted. */
  lemma NothingAcceptedAfterClosed(s: Sys, t: Step)
    requires Reachable(s) && s.closed && Enabled(s, t)
    ensures Apply(s, t).accepted == s.accepted && Apply(s, t).closed
  {
    ReachableInv(s);
  }

  lemma StepAfterClosed(s: Sys, t: Step)
    requires Inv(s) && s.closed && AllExited(s) && Enabled(s, t)
    ensures var s' := Apply(s, t); s'.accepted == s.accepted && s'.handed == s.handed && AllExited(s') && s'.closed
  {
  }

  /** ... and no later step of anybody changes that: nothing more is accepted or handed over. */
  lemma {:induction false} ClosedForGood(s: Sys, ts: seq<Step>, s': Sys)
    requires Inv(s) && s.closed && AllExited(s) && Executes(s, ts, s')
    ensures s'.accepted == s.accepted && s'.handed == s.handed && AllExited(s')
    decreases |ts|
  {
    if ts != [] {
      StepAfterClosed(s, ts[0]);
      StepKeepsInv(s, ts[0]);
      ClosedForGood(Apply(s, ts[0]), ts[1..], s');
    }
  }

  /** Whatever runs after a Close has returned, what was accepted stays exactly what has been handed to delivery. */
  lemma DeliveredForGood(s: Sys, c: nat, ts: seq<Step>, s': Sys)
    requires Reachable(s) && CloserAt(s, c, Finished) && Executes(s, ts, s')
    ensures s'.handed == s'.accepted == s.accepted && AllExited(s')
  {
    ReachableInv(s);
    CloseDelivered(s, c);
    assert s.workers[0] == Exited;
    ClosedForGood(s, ts, s');
  }

  lemma {:induction false} ExecutesAppend(s: Sys, ts: seq<Step>, mid: Sys, us: seq<Step>, s': Sys)
    requires Executes(s, ts, mid) && Executes(mid, us, s')
    ensures Executes(s, ts + us, s')
    decreases |ts|
  {
    if ts == [] {
      assert [] + us == us;
    } else {
      assert (ts + us)[1..] == ts[1..] + us;
      ExecutesAppend(Apply(s, ts[0]), ts[1..], mid, us, s');
    }
  }

  /** t leads from s to s'. */
  ghost predicate Goes(s: Sys, t: Step, s': Sys) {
    Enabled(s, t) && Apply(s, t) == s'
  }

  lemma Prepend(s: Sys, t: Step, mid: Sys, ts: seq<Step>, s': Sys)
    requires Goes(s, t, mid) && Executes(mid, ts, s')
    ensures Executes(s, [t] + ts, s')
  {
    assert ([t] + ts)[1..] == ts;
  }

  // ------------------------------------------------------------------ the object

  /** Nobody is inside Send or Close, and the workers wait or, once the channel is closed, have gone. */
  ghost predicate AtRest(s: Sys) {
    && (forall p :: p in s.senders ==> s.senders[p] == Returned)
    && (forall c :: c in s.closers ==> s.closers[c] == Finished)
    && s.once == (if s.closed then Passed else Fresh) && s.channelClosed == s.closed
    && s.workers == seq(WORKERS, _ => if s.closed then Exited else Idle)
    && (s.closed ==> s.queue == [])
  }

  /** What Send p does: exactly one of refused, accepted into the queue, or dropped and counted. */
  ghost function Sent(s: Sys, p: nat): Sys {
    var s' := MoveSender(s, p, Returned);
    if s.closed then s'.(refused := s.refused + [p])
    else if |s.queue| < QUEUE_DEPTH then s'.(queue := s.queue + [p], accepted := s.accepted + [p])
    else s'.(droppedCount := s.droppedCount + 1, dropped := s.dropped + [p])
  }

  lemma SendEnters(s: Sys, p: nat)
    requires AtRest(s) && p !in s.senders
    ensures Goes(s, Send(p), MoveSender(s, p, Called))
    ensures Goes(MoveSender(s, p, Called), LockRead(p), MoveSender(s, p, Entered))
  {
  }

  lemma SendTests(s: Sys, p: nat)
    ensures Goes(MoveSender(s, p, Entered), TestClosed(p),
                 if s.closed then MoveSender(s, p, Leaving).(refused := s.refused + [p]) else MoveSender(s, p, Ready))
  {
  }

  lemma SendLeaves(s: Sys, p: nat)
    ensures Goes(MoveSender(s, p, Leaving), UnlockRead(p), MoveSender(s, p, Returned))
  {
  }

  lemma SendTries(s: Sys, p: nat)
    requires !s.channelClosed
    ensures Goes(MoveSender(s, p, Ready), TrySend(p), DoTrySend(s, p))
  {
  }

  lemma OpenSendLeaves(s: Sys, p: nat)
    requires !s.channelClosed && !s.closed
    ensures Goes(DoTrySend(s, p), UnlockRead(p), Sent(s, p))
  {
  }

  /** An uninterrupted Send is a run of the machine. */
  lemma SendRun(s: Sys, p: nat) returns (ts: seq<Step>)
    requires AtRest(s) && p !in s.senders
    ensures Executes(s, ts, Sent(s, p))
  {
    var end := Sent(s, p);
    SendEnters(s, p);
    SendTests(s, p);
    if s.closed {
      var u := s.(refused := s.refused + [p]);
      SendLeaves(u, p);
      Prepend(MoveSender(u, p, Leaving), UnlockRead(p), end, [], end);
      ts := [UnlockRead(p)] + [];
      Prepend(MoveSender(s, p, Entered), TestClosed(p), MoveSender(u, p, Leaving), ts, end);
    } else {
      SendTries(s, p);
      OpenSendLeaves(s, p);
      Prepend(DoTrySend(s, p), UnlockRead(p), end, [], end);
      ts := [UnlockRead(p)] + [];
      Prepend(MoveSender(s, p, Ready), TrySend(p), DoTrySend(s, p), ts, end);
      ts := [TrySend(p)] + ts;
      Prepend(MoveSender(s, p, Entered), TestClosed(p), MoveSender(s, p, Ready), ts, end);
    }
    ts := [TestClosed(p)] + ts;
    Prepend(MoveSender(s, p, Called), LockRead(p), MoveSender(s, p, Entered), ts, end);
    ts := [LockRead(p)] + ts;
    Prepend(s, Send(p), MoveSender(s, p, Called), ts, end);
    ts := [Send(p)] + ts;
  }

  /** s with its queue shut by closer c, which now waits for the workers. */
  ghost function Shut(s: Sys, c: nat): Sys {
    MoveCloser(s, c, Waiting).(closed := true, channelClosed := true, once := Passed)
  }

  lemma CloserEnters(s: Sys, c: nat)
    requires AtRest(s) && c !in s.closers
    ensures Goes(s, Close(c), MoveCloser(s, c, AtOnce))
    ensures Goes(MoveCloser(s, c, AtOnce), EnterOnce(c),
                 if s.closed then MoveCloser(s, c, Waiting) else MoveCloser(s, c, WantsLock).(once := Running(c)))
  {
  }

  lemma CloserLocks(s: Sys, c: nat, u: Sys)
    requires AtRest(s) && u == s.(once := Running(c))
    ensures Goes(MoveCloser(u, c, WantsLock), LockWrite(c), MoveCloser(u, c, Locked))
  {
  }

  lemma CloserUnlocks(u: Sys, c: nat)
    ensures Goes(MoveCloser(u, c, Locked), SetClosed(c), MoveCloser(u, c, Unlocked).(closed := true))
  {
  }

  lemma CloserCloses(s: Sys, c: nat, u: Sys)
    requires u == s.(once := Running(c))
    ensures Goes(MoveCloser(u, c, Unlocked).(closed := true), CloseChannel(c), Shut(s, c))
  {
  }

  lemma ShutRun(s: Sys, c: nat) returns (ts: seq<Step>)
    requires AtRest(s) && c !in s.closers && !s.closed
    ensures Executes(s, ts, Shut(s, c))
  {
    var u, end := s.(once := Running(c)), Shut(s, c);
    CloserEnters(s, c);
    CloserLocks(s, c, u);
    CloserUnlocks(u, c);
    CloserCloses(s, c, u);
    Prepend(MoveCloser(u, c, Unlocked).(closed := true), CloseChannel(c), end, [], end);
    ts := [CloseChannel(c)] + [];
    Prepend(MoveCloser(u, c, Locked), SetClosed(c), MoveCloser(u, c, Unlocked).(closed := true), ts, end);
    ts := [SetClosed(c)] + ts;
    Prepend(MoveCloser(u, c, WantsLock), LockWrite(c), MoveCloser(u, c, Locked), ts, end);
    ts := [LockWrite(c)] + ts;
    Prepend(MoveCloser(s, c, AtOnce), EnterOnce(c), MoveCloser(u, c, WantsLock), ts, end);
    ts := [EnterOnce(c)] + ts;
    Prepend(s, Close(c), MoveCloser(s, c, AtOnce), ts, end);
    ts := [Close(c)] + ts;
  }

  lemma AgainRun(s: Sys, c: nat) returns (ts: seq<Step>)
    requires AtRest(s) && c !in s.closers && s.closed
    ensures Executes(s, ts, MoveCloser(s, c, Waiting))
  {
    var end := MoveCloser(s, c, Waiting);
    CloserEnters(s, c);
    Prepend(MoveCloser(s, c, AtOnce), EnterOnce(c), end, [], end);
    Prepend(s, Close(c), MoveCloser(s, c, AtOnce), [EnterOnce(c)] + [], end);
    ts := [Close(c)] + ([EnterOnce(c)] + []);
  }

  lemma WaitEnds(s: Sys, c: nat)
    requires AllExited(s)
    ensures Executes(MoveCloser(s, c, Waiting), [WaitDone(c)] + [], MoveCloser(s, c, Finished))
  {
    assert Goes(MoveCloser(s, c, Waiting), WaitDone(c), MoveCloser(s, c, Finished));
    Prepend(MoveCloser(s, c, Waiting), WaitDone(c), MoveCloser(s, c, Finished), [], MoveCloser(s, c, Finished));
  }

  lemma RoundRun(s: Sys, w: nat)
    requires w < |s.workers| && s.workers[w] == Idle && s.queue != []
    ensures Executes(s, [Receive(w)] + ([Delivered(w)] + []), HandedOne(s))
  {
    var mid := Apply(s, Receive(w));
    assert s.workers[w := Delivering(s.queue[0])][w := Idle] == s.workers;
    Prepend(mid, Delivered(w), HandedOne(s), [], HandedOne(s));
    Prepend(s, Receive(w), mid, [Delivered(w)] + [], HandedOne(s));
  }

  lemma ExitRun(s: Sys, n: nat)
    requires n < WORKERS && s.workers == Gone(n) && s.channelClosed && s.queue == []
    ensures Executes(s, [Exit(n)] + [], s.(workers := Gone(n + 1)))
  {
    assert Gone(n)[n := Exited] == Gone(n + 1);
    Prepend(s, Exit(n), s.(workers := Gone(n + 1)), [], s.(workers := Gone(n + 1)));
  }

  /** s after one payload has gone through a worker. */
  ghost function HandedOne(s: Sys): Sys
    requires s.queue != []
  {
    s.(queue := s.queue[1..], handed := s.handed + [s.queue[0]])
  }

  /** The workers with the first n gone. */
  ghost function Gone(n: nat): seq<Worker>
    requires n <= WORKERS
  {
    seq(WORKERS, i => if i < n then Exited else Idle)
  }

  /** s once its queue is shut and every worker has gone through what was left of it. */
  ghost function Drained(s: Sys): Sys {
    s.(queue := [], closed := true, channelClosed := true, once := Passed,
       handed := s.handed + s.queue, workers := Gone(WORKERS))
  }

  lemma DrainedAtRest(s: Sys, c: nat)
    requires AtRest(s)
    ensures AtRest(MoveCloser(Drained(s), c, Finished)) && AllExited(Drained(s))
    ensures s.closed ==> Drained(s) == s
  {
    assert Gone(WORKERS) == seq(WORKERS, _ => Exited);
    assert s.closed ==> s.handed + [] == s.handed && s.workers == Gone(WORKERS);
  }

  lemma DrainStep(s: Sys, done: seq<nat>, left: seq<nat>)
    requires left != []
    ensures HandedOne(s.(queue := left, handed := s.handed + done))
      == s.(queue := left[1..], handed := s.handed + (done + [left[0]]))
    ensures done + left == done + [left[0]] + left[1..]
  {
    assert s.handed + done + [left[0]] == s.handed + (done + [left[0]]);
  }

  class WebhookSender {
    var queue: seq<nat>
    var closed: bool
    var dropped: nat
    ghost var sys: Sys
    ghost var history: seq<Step>

    /** The fields are the machine's, whose state was reached by the steps taken so far. */
    ghost predicate Matches()
      reads this
    {
      sys.queue == queue && sys.closed == closed && sys.droppedCount == dropped && Executes(Init(), history, sys)
    }

    ghost predicate Valid()
      reads this
    {
      Matches() && AtRest(sys)
    }

    constructor ()
      ensures Valid() && queue == [] && !closed && history == []
    {
      queue, closed, dropped := [], false, 0;
      sys, history := Init(), [];
    }

    /** Advances the machine along a run. */
    ghost method Take(ts: seq<Step>, s': Sys)
      requires Executes(Init(), history, sys) && Executes(sys, ts, s')
      modifies this`sys, this`history
      ensures sys == s' && history == old(history) + ts && Executes(Init(), history, sys)
    {
      ExecutesAppend(Init(), history, sys, ts, s');
      history := history + ts;
      sys := s';
    }

    /** Send, which holds the read lock from the closed test to the select. */
    method Send(payload: nat)
      requires Valid() && payload !in sys.senders
      modifies this
      ensures Valid() && old(history) <= history && sys == Sent(old(sys), payload)
      ensures closed == old(closed)
      ensures queue == if !closed && |old(queue)| < 1024 then old(queue) + [payload] else old(queue)
      ensures dropped == if !closed && |old(queue)| >= 1024 then old(dropped) + 1 else old(dropped)
      ensures sys.refused == if closed then old(sys).refused + [payload] else old(sys).refused
    {
      ghost var ts := SendRun(sys, payload);
      Take(ts, Sent(sys, payload));
      if closed {
        return;
      }
      if |queue| < QUEUE_DEPTH {
        queue := queue + [payload];
      } else {
        dropped := dropped + 1;
      }
    }

    /** One round of a worker's range loop. */
    method WorkerRound(ghost w: nat) returns (payload: nat)
      requires Matches() && queue != [] && w < |sys.workers| && sys.workers[w] == Idle
      modifies this`queue, this`sys, this`history
      ensures Matches() && old(history) <= history && payload == old(queue)[0] && sys == HandedOne(old(sys))
    {
      RoundRun(sys, w);
      Take([Receive(w)] + ([Delivered(w)] + []), HandedOne(sys));
      payload := queue[0];
      queue := queue[1..];
    }

    /** The workers empty the queue, one payload after the other. */
    method DrainQueue() returns (delivered: seq<nat>)
      requires Matches() && sys.workers == Gone(0)
      modifies this`queue, this`sys, this`history
      ensures Matches() && old(history) <= history && delivered == old(queue)
      ensures sys == old(sys).(queue := [], handed := old(sys).handed + old(queue))
    {
      delivered := [];
      ghost var s0 := sys;
      while queue != []
        invariant Matches() && old(history) <= history && delivered + queue == old(queue)
        invariant sys == s0.(queue := queue, handed := s0.handed + delivered)
        decreases |queue|
      {
        DrainStep(s0, delivered, queue);
        var payload := WorkerRound(0);
        delivered := delivered + [payload];
      }
    }

    /** wg.Wait: once the closed queue is empty each worker's loop ends. */
    ghost method ExitAll()
      requires Matches() && sys.channelClosed && sys.queue == [] && sys.workers == Gone(0)
      modifies this`sys, this`history
      ensures Matches() && old(history) <= history && sys == old(sys).(workers := Gone(WORKERS))
    {
      var s0 := sys;
      for n := 0 to WORKERS
        invariant Matches() && old(history) <= history && sys == s0.(workers := Gone(n))
      {
        ExitRun(sys, n);
        Take([Exit(n)] + [], sys.(workers := Gone(n + 1)));
      }
    }

    /** The once body of Close and the wait after it; a call that finds the once passed has nothing to wait for. */
    method ShutAndWait(ghost c: nat) returns (delivered: seq<nat>)
      requires Valid() && c !in sys.closers
      modifies this
      ensures Matches() && closed && old(history) <= history && delivered == old(queue) && dropped == old(dropped)
      ensures sys == MoveCloser(Drained(old(sys)), c, Waiting)
    {
      DrainedAtRest(sys, c);
      if closed {
        ghost var ts := AgainRun(sys, c);
        Take(ts, MoveCloser(sys, c, Waiting));
        return [];
      }
      ghost var ts := ShutRun(sys, c);
      Take(ts, Shut(sys, c));
      closed := true;
      assert Gone(0) == seq(WORKERS, _ => Idle);
      delivered := DrainQueue();
      ExitAll();
    }

    /** Close: the first call shuts the queue and waits for what is left of it; a later one finds it done. */
    method Close(ghost c: nat) returns (delivered: seq<nat>, reported: nat)
      requires Valid() && c !in sys.closers
      modifies this
      ensures Valid() && closed && old(history) <= history && CloserAt(sys, c, Finished)
      ensures delivered == old(queue) && sys.handed == old(sys).handed + delivered && sys.accepted == old(sys).accepted
      ensures sys.handed == sys.accepted && reported == dropped == |sys.dropped|
    {
      ghost var s0 := sys;
      DrainedAtRest(s0, c);
      delivered := ShutAndWait(c);
      WaitEnds(Drained(s0), c);
      Take([WaitDone(c)] + [], MoveCloser(Drained(s0), c, Finished));
      reported := dropped;
      AlwaysSafe(sys);
      CloseDelivered(sys, c);
    }
  }
}
