/** Order of the audit buffer, and what Close leaves behind, over the steps of `AuditLog`. */
module AuditOrder {
  import opened AuditLog

  // ------------------------------------------------------------------ log order, one flush at a time

  /** What a running flush still holds, in batch order. */
  ghost function InHand(f: Flush): seq<Entry> {
    match f
    case Batch(b) => b
    case Isolating(b, v) => Refused(b, v) + Rest(b, v)
    case _ => []
  }

  /** The last flush's entries followed by the buffer: everything waiting to be stored. */
  ghost function Line(s: Sys): seq<Entry> {
    (if s.flushes == [] then [] else InHand(s.flushes[|s.flushes| - 1])) + s.buffer
  }

  ghost predicate Arrived(s: Sys, xs: seq<Entry>) {
    forall i :: 0 <= i < |xs| ==> xs[i] in s.arrivals && s.arrivals[xs[i]] < s.nextArrival
  }

  /** xs is in the order in which its entries were appended to the buffer. */
  ghost predicate InLogOrder(s: Sys, xs: seq<Entry>) {
    Arrived(s, xs) && forall i, j :: 0 <= i < j < |xs| ==> s.arrivals[xs[i]] < s.arrivals[xs[j]]
  }

  ghost predicate OnlyLastRuns(s: Sys) {
    forall i :: 0 <= i < |s.flushes| && Running(s.flushes[i]) ==> i == |s.flushes| - 1
  }

  ghost predicate OrderInv(s: Sys) {
    OnlyLastRuns(s) && InLogOrder(s, Line(s))
  }

  ghost predicate Idle(s: Sys) {
    forall i :: 0 <= i < |s.flushes| ==> !Running(s.flushes[i])
  }

  /** A run in which no Flush starts while another is running. */
  ghost predicate OneFlushAtATime(s: Sys, ts: seq<Step>)
    decreases |ts|
  {
    ts == [] || (Enabled(s, ts[0]) && (ts[0].BeginFlush? ==> Idle(s)) && OneFlushAtATime(Apply(s, ts[0]), ts[1..]))
  }

  lemma OrderOfParts(s: Sys, xs: seq<Entry>, ys: seq<Entry>, zs: seq<Entry>)
    requires InLogOrder(s, xs + ys + zs)
    ensures InLogOrder(s, xs + zs)
  {
    var whole, part := xs + ys + zs, xs + zs;
    assert forall i :: 0 <= i < |part| ==> part[i] == whole[if i < |xs| then i else i + |ys|];
  }

  /** A step that takes the run ys out of the line, appends nothing and starts no flush keeps the order. */
  lemma LineShrinks(s: Sys, s': Sys, xs: seq<Entry>, ys: seq<Entry>, zs: seq<Entry>)
    requires OrderInv(s) && s'.arrivals == s.arrivals && s'.nextArrival == s.nextArrival
    requires |s'.flushes| == |s.flushes|
    requires forall i :: 0 <= i < |s.flushes| && Running(s'.flushes[i]) ==> Running(s.flushes[i])
    requires Line(s) == xs + ys + zs && Line(s') == xs + zs
    ensures OrderInv(s')
  {
    OrderOfParts(s, xs, ys, zs);
    assert InLogOrder(s', xs + zs);
  }

  /** Offering one more entry: a refused one stays in hand in order, a taken one leaves it. */
  lemma OfferInHand(b: seq<Entry>, v: seq<bool>, ok: bool)
    returns (front: seq<Entry>, taken: seq<Entry>, tail: seq<Entry>)
    requires |v| < |b|
    ensures InHand(Isolating(b, v)) == front + taken + tail
    ensures InHand(Isolating(b, v + [ok])) == front + tail
  {
    var x := [b[|v|]];
    assert (v + [ok])[..|v|] == v;
    tail := Rest(b, v + [ok]);
    assert Rest(b, v) == x + tail;
    front, taken := Refused(b, v) + (if ok then [] else x), if ok then x else [];
    assert front == Refused(b, v + [ok]);
  }

  lemma AppendKeepsOrder(s: Sys, e: Entry)
    requires Inv(s) && OrderInv(s) && Enabled(s, LockAppend(e))
    ensures OrderInv(DoLockAppend(s, e))
  {
    var s' := DoLockAppend(s, e);
    if |s.buffer| >= s.cap {
      assert Line(s') == Line(s);
    } else {
      NotInLine(s, e);
      LineGrows(s, s', Line(s), e);
      assert Line(s') == Line(s) + [e];
    }
  }

  /** An entry new to the line goes to its end as the latest arrival. */
  lemma LineGrows(s: Sys, s': Sys, xs: seq<Entry>, e: Entry)
    requires InLogOrder(s, xs) && e !in xs
    requires s'.arrivals == s.arrivals[e := s.nextArrival] && s'.nextArrival == s.nextArrival + 1
    ensures InLogOrder(s', xs + [e])
  {
    var ys := xs + [e];
    forall i | 0 <= i < |xs| ensures ys[i] in s'.arrivals && s'.arrivals[ys[i]] == s.arrivals[xs[i]] < s.nextArrival {
      assert xs[i] in xs;
    }
  }

  /** An entry still inside its Log call is nowhere in the line. */
  lemma NotInLine(s: Sys, e: Entry)
    requires Conserved(s) && e in s.pending
    ensures e !in Line(s)
  {
    assert Places(s, e) == if e in s.logged then 1 else 0;
    assert e !in s.buffer;
    if s.flushes != [] {
      var n := |s.flushes| - 1;
      InFlightAtLeast(s.flushes, n, e);
      assert Holds(s.flushes[n], e) == 0;
      assert e !in InHand(s.flushes[n]);
    }
  }

  /** Replacing what the running flush holds: the order is kept if something was only taken out. */
  lemma HandShrinks(s: Sys, s': Sys, i: nat, xs: seq<Entry>, ys: seq<Entry>, zs: seq<Entry>)
    requires OrderInv(s) && i < |s.flushes| && Running(s.flushes[i])
    requires s'.arrivals == s.arrivals && s'.nextArrival == s.nextArrival && s'.buffer == s.buffer
    requires |s'.flushes| == |s.flushes| && s'.flushes == s.flushes[i := s'.flushes[i]]
    requires InHand(s.flushes[i]) == xs + ys + zs && InHand(s'.flushes[i]) == xs + zs
    ensures OrderInv(s')
  {
    assert i == |s.flushes| - 1;
    assert Line(s) == xs + ys + (zs + s.buffer);
    assert Line(s') == xs + (zs + s.buffer);
    LineShrinks(s, s', xs, ys, zs + s.buffer);
  }

  lemma OfferKeepsOrder(s: Sys, i: nat, ok: bool)
    requires OrderInv(s) && Enabled(s, InsertOne(i, ok))
    ensures OrderInv(DoInsertOne(s, i, ok))
  {
    var front, taken, tail := OfferInHand(s.flushes[i].batch, s.flushes[i].verdicts, ok);
    HandShrinks(s, DoInsertOne(s, i, ok), i, front, taken, tail);
  }

  lemma ConcludeKeepsOrder(s: Sys, i: nat)
    requires OrderInv(s) && Enabled(s, Conclude(i))
    ensures OrderInv(DoConclude(s, i))
  {
    var f, s' := s.flushes[i], DoConclude(s, i);
    assert Running(f);
    var refused := Refused(f.batch, f.verdicts);
    assert Rest(f.batch, f.verdicts) == [];
    var n := if true !in f.verdicts then Room(s, refused) else 0;
    assert Line(s) == refused[..n] + refused[n..] + s.buffer;
    assert Line(s') == refused[..n] + s.buffer;
    LineShrinks(s, s', refused[..n], refused[n..], s.buffer);
  }

  lemma InsertBatchKeepsOrder(s: Sys, i: nat, ok: bool)
    requires OrderInv(s) && Enabled(s, InsertBatch(i, ok))
    ensures OrderInv(DoInsertBatch(s, i, ok))
  {
    var b := s.flushes[i].batch;
    if ok {
      assert b == [] + b + [];
      HandShrinks(s, DoInsertBatch(s, i, ok), i, [], b, []);
    } else {
      assert b == b + [] + [];
      HandShrinks(s, DoInsertBatch(s, i, ok), i, b, [], []);
    }
  }

  lemma IdleLine(s: Sys)
    requires Idle(s)
    ensures Line(s) == s.buffer
  {
    assert s.flushes == [] || InHand(s.flushes[|s.flushes| - 1]) == [];
  }

  lemma BeginFlushKeepsOrder(s: Sys)
    requires OrderInv(s) && Idle(s)
    ensures OrderInv(DoBeginFlush(s))
  {
    var s' := DoBeginFlush(s);
    assert InLogOrder(s', Line(s')) by {
      IdleLine(s);
      assert Line(s') == s.buffer;
    }
    assert OnlyLastRuns(s');
  }

  lemma OtherStepsKeepOrder(s: Sys, t: Step)
    requires OrderInv(s) && Enabled(s, t)
    requires t.BeginLog? || t.TestClosed? || t.CountFull? || t.InsertSync? || t.MarkClosed?
    ensures OrderInv(Apply(s, t))
  {
    var s' := Apply(s, t);
    assert s'.flushes == s.flushes && s'.buffer == s.buffer && s'.arrivals == s.arrivals;
    assert Line(s') == Line(s);
  }

  lemma StepKeepsOrder(s: Sys, t: Step)
    requires Inv(s) && OrderInv(s) && Enabled(s, t) && (t.BeginFlush? ==> Idle(s))
    ensures OrderInv(Apply(s, t))
  {
    match t
    case LockAppend(e) => AppendKeepsOrder(s, e);
    case InsertOne(i, ok) => OfferKeepsOrder(s, i, ok);
    case Conclude(i) => ConcludeKeepsOrder(s, i);
    case InsertBatch(i, ok) => InsertBatchKeepsOrder(s, i, ok);
    case BeginFlush => BeginFlushKeepsOrder(s);
    case _ => OtherStepsKeepOrder(s, t);
  }

  lemma {:induction false} RunKeepsOrder(s: Sys, ts: seq<Step>, s': Sys)
    requires Inv(s) && OrderInv(s) && Executes(s, ts, s') && OneFlushAtATime(s, ts)
    ensures Inv(s') && OrderInv(s')
    decreases |ts|
  {
    if ts != [] {
      StepKeepsInv(s, ts[0]);
      StepKeepsOrder(s, ts[0]);
      RunKeepsOrder(Apply(s, ts[0]), ts[1..], s');
    }
  }

  /** With one flush at a time the buffer is in log order in every state of every run. */
  lemma BufferInLogOrder(bufferSize: int, batchMode: bool, ts: seq<Step>, s: Sys)
    requires Executes(Init(bufferSize, batchMode), ts, s) && OneFlushAtATime(Init(bufferSize, batchMode), ts)
    ensures InLogOrder(s, s.buffer) && InLogOrder(s, Line(s))
  {
    RunKeepsOrder(Init(bufferSize, batchMode), ts, s);
    BufferPartOfLine(s);
  }

  lemma BufferPartOfLine(s: Sys)
    requires InLogOrder(s, Line(s))
    ensures InLogOrder(s, s.buffer)
  {
    var hand := if s.flushes == [] then [] else InHand(s.flushes[|s.flushes| - 1]);
    assert Line(s) == [] + hand + s.buffer && [] + s.buffer == s.buffer;
    OrderOfParts(s, [], hand, s.buffer);
  }

  /** A batch the store took nothing of goes back in front, whole if it fits; what does not fit is its newest part,
      and then the buffer is full. Everything dropped arrived after everything kept of that batch. */
  lemma OverflowDropsNewest(s: Sys, i: nat) returns (kept: nat)
    requires Inv(s) && OrderInv(s) && Enabled(s, Conclude(i)) && true !in s.flushes[i].verdicts
    ensures var b, s' := s.flushes[i].batch, DoConclude(s, i);
      && kept <= |b|
      && s'.buffer == b[..kept] + s.buffer
      && s'.dropped == s.dropped + b[kept..]
      && (kept < |b| ==> |s'.buffer| == s.cap)
      && s'.store == s.store
    ensures InLogOrder(s, s.flushes[i].batch + s.buffer)
  {
    var f := s.flushes[i];
    NoneTaken(f.batch, f.verdicts);
    assert f.batch[..|f.verdicts|] == f.batch;
    kept := Room(s, f.batch);
    assert InLogOrder(s, f.batch + s.buffer) by {
      RejectedLine(s, i);
    }
  }

  /** Before the batch goes back, the line is that batch followed by the buffer. */
  lemma RejectedLine(s: Sys, i: nat)
    requires OnlyLastRuns(s) && Enabled(s, Conclude(i)) && true !in s.flushes[i].verdicts
    ensures Line(s) == s.flushes[i].batch + s.buffer
  {
    var f := s.flushes[i];
    NoneTaken(f.batch, f.verdicts);
    assert f.batch[..|f.verdicts|] == f.batch;
    assert Running(f) && InHand(f) == f.batch;
  }

  // ------------------------------------------------------------------ Close

  ghost predicate NobodyAtTheLock(s: Sys) {
    forall e :: e in s.pending ==> s.pending[e] != WantsLock
  }

  ghost predicate EmptyAfterClose(s: Sys) {
    s.closed && s.buffer == [] && NobodyAtTheLock(s)
  }

  /** The flushes running in s that go on to find the store down. */
  ghost predicate NoneRequeued(s: Sys, s': Sys) {
    forall i :: 0 <= i < |s.flushes| && i < |s'.flushes| && Running(s.flushes[i]) ==> !s'.flushes[i].Requeued?
  }

  lemma StepAfterClose(s: Sys, t: Step)
    requires EmptyAfterClose(s) && Enabled(s, t)
    requires !(t.Conclude? && true !in s.flushes[t.i].verdicts)
    ensures EmptyAfterClose(Apply(s, t))
    ensures |Apply(s, t).flushes| == |s.flushes|
    ensures forall i :: 0 <= i < |s.flushes| && Running(Apply(s, t).flushes[i]) ==> Running(s.flushes[i])
  {
  }

  /** Once Close has taken the buffer and no Log stands between its closed test and its lock, the buffer is empty for
      good, in every interleaving, unless a flush that was already running finds the store down. */
  lemma {:induction false} CloseDrains(s: Sys, ts: seq<Step>, s': Sys)
    requires EmptyAfterClose(s) && Executes(s, ts, s') && NoneRequeued(s, s')
    ensures EmptyAfterClose(s')
    decreases |ts|
  {
    if ts != [] {
      var t, mid := ts[0], Apply(s, ts[0]);
      if t.Conclude? && true !in s.flushes[t.i].verdicts {
        RecordsPersist(mid, ts[1..], s', t.i);
        assert false;
      }
      StepAfterClose(s, t);
      CloseDrains(mid, ts[1..], s');
    }
  }

  /** No Log waits at the lock, and every flush still running has already seen the store take something. */
  ghost predicate Settled(s: Sys) {
    && NobodyAtTheLock(s)
    && forall i :: 0 <= i < |s.flushes| && Running(s.flushes[i]) ==>
         s.flushes[i].Isolating? && true in s.flushes[i].verdicts
  }

  ghost predicate EmptyForGood(s: Sys) {
    forall ts, s' :: Executes(s, ts, s') ==> s'.buffer == []
  }

  lemma StepKeepsSettled(s: Sys, t: Step)
    requires s.closed && s.buffer == [] && Settled(s) && Enabled(s, t)
    ensures Apply(s, t).closed && Apply(s, t).buffer == [] && Settled(Apply(s, t))
  {
    if t.InsertOne? {
      var f := s.flushes[t.i];
      assert Running(f) && true in f.verdicts + [t.ok];
    }
  }

  lemma {:induction false} SettledStaysEmpty(s: Sys, ts: seq<Step>, s': Sys)
    requires s.closed && s.buffer == [] && Settled(s) && Executes(s, ts, s')
    ensures s'.buffer == []
    decreases |ts|
  {
    if ts != [] {
      StepKeepsSettled(s, ts[0]);
      SettledStaysEmpty(Apply(s, ts[0]), ts[1..], s');
    }
  }

  lemma ExecutesCons(s: Sys, t: Step, ts: seq<Step>, s': Sys)
    requires Enabled(s, t) && Executes(Apply(s, t), ts, s')
    ensures Executes(s, [t] + ts, s')
  {
    assert ([t] + ts)[1..] == ts;
  }

  /** A store that refuses every remaining entry of a flush it took nothing of brings the batch back. */
  lemma {:induction false} RefuseAll(s: Sys, i: nat) returns (ts: seq<Step>, s': Sys)
    requires s.buffer == [] && i < |s.flushes| && s.flushes[i].Isolating? && 0 < |s.flushes[i].batch| <= s.cap
    requires true !in s.flushes[i].verdicts && |s.flushes[i].verdicts| <= |s.flushes[i].batch|
    ensures Executes(s, ts, s')
    ensures s' == s.(buffer := s.flushes[i].batch, flushes := s.flushes[i := Requeued(s.flushes[i].batch)])
    decreases |s.flushes[i].batch| - |s.flushes[i].verdicts|
  {
    var f := s.flushes[i];
    if |f.verdicts| == |f.batch| {
      NoneTaken(f.batch, f.verdicts);
      assert f.batch[..|f.batch|] == f.batch && f.batch + [] == f.batch && s.dropped + [] == s.dropped;
      s' := Apply(s, Conclude(i));
      ExecutesCons(s, Conclude(i), [], s');
      ts := [Conclude(i)] + [];
    } else {
      var us;
      us, s' := RefuseAll(Apply(s, InsertOne(i, false)), i);
      ExecutesCons(s, InsertOne(i, false), us, s');
      ts := [InsertOne(i, false)] + us;
    }
  }

  /** A flush the store has not taken anything of yet can still refill the buffer. */
  lemma RunningCanRefill(s: Sys, i: nat) returns (ts: seq<Step>, s': Sys)
    requires s.cap > 0 && s.buffer == [] && i < |s.flushes| && FlushInv(s, s.flushes[i]) && Running(s.flushes[i])
    requires s.flushes[i].Batch? || true !in s.flushes[i].verdicts
    ensures Executes(s, ts, s') && s'.buffer != []
  {
    if s.flushes[i].Batch? {
      var us;
      us, s' := RefuseAll(Apply(s, InsertBatch(i, false)), i);
      ExecutesCons(s, InsertBatch(i, false), us, s');
      ts := [InsertBatch(i, false)] + us;
    } else {
      ts, s' := RefuseAll(s, i);
    }
  }

  lemma WaitingCanRefill(s: Sys, e: Entry)
    requires s.cap > 0 && s.buffer == [] && e in s.pending && s.pending[e] == WantsLock
    ensures Executes(s, [LockAppend(e)] + [], Apply(s, LockAppend(e))) && Apply(s, LockAppend(e)).buffer == [e]
  {
    ExecutesCons(s, LockAppend(e), [], Apply(s, LockAppend(e)));
  }

  /** The exact condition: once Close has taken the buffer, it is empty in every later state of every interleaving if
      and only if no Log stands between its closed test and its lock and every flush still running is isolating a batch
      of which the store has taken something. */
  lemma EmptyForGoodIff(s: Sys)
    requires Reachable(s) && s.closed && s.buffer == []
    ensures EmptyForGood(s) <==> Settled(s)
  {
    ReachableInv(s);
    if Settled(s) {
      forall ts, s' | Executes(s, ts, s') ensures s'.buffer == [] {
        SettledStaysEmpty(s, ts, s');
      }
    } else if e :| e in s.pending && s.pending[e] == WantsLock {
      WaitingCanRefill(s, e);
    } else {
      var i :| 0 <= i < |s.flushes| && Running(s.flushes[i]) && (s.flushes[i].Batch? || true !in s.flushes[i].verdicts);
      var ts, s' := RunningCanRefill(s, i);
    }
  }

  /** A state that is not settled can be met: a Log that passed the closed test before Close is stranded after it. */
  lemma StrandedEntry(e: Entry)
    ensures var ts := [BeginLog(e), TestClosed(e), MarkClosed, BeginFlush, LockAppend(e)];
      exists s :: Executes(Init(0, true), ts, s) && s.closed && s.buffer == [e] && Idle(s)
  {
    var s0 := Init(0, true);
    var s1 := Apply(s0, BeginLog(e));
    var s2 := Apply(s1, TestClosed(e));
    var s3 := Apply(s2, MarkClosed);
    var s4 := Apply(s3, BeginFlush);
    var s5 := Apply(s4, LockAppend(e));
    assert Executes(s0, [], s0);
    ExecutesSnoc(s0, [], s0, BeginLog(e));
    ExecutesSnoc(s0, [] + [BeginLog(e)], s1, TestClosed(e));
    ExecutesSnoc(s0, [] + [BeginLog(e)] + [TestClosed(e)], s2, MarkClosed);
    ExecutesSnoc(s0, [] + [BeginLog(e)] + [TestClosed(e)] + [MarkClosed], s3, BeginFlush);
    ExecutesSnoc(s0, [] + [BeginLog(e)] + [TestClosed(e)] + [MarkClosed] + [BeginFlush], s4, LockAppend(e));
    assert [] + [BeginLog(e)] + [TestClosed(e)] + [MarkClosed] + [BeginFlush] + [LockAppend(e)]
        == [BeginLog(e), TestClosed(e), MarkClosed, BeginFlush, LockAppend(e)];
  }

  // ------------------------------------------------------------------ behind a batch of unwritable entries

  /** An uninterrupted Log of an entry that is not critical: dropped if it finds the buffer full, else appended. */
  ghost function LoggedAlone(s: Sys, e: Entry): Sys {
    var s' := s.(logged := s.logged + {e});
    if |s.buffer| >= s.cap then s'.(dropped := s.dropped + [e], droppedTotal := s.droppedTotal + 1)
    else s'.(buffer := s.buffer + [e], arrivals := s.arrivals[e := s.nextArrival], nextArrival := s.nextArrival + 1)
  }

  lemma LogAlone(s: Sys, e: Entry) returns (ts: seq<Step>)
    requires s.batchMode && !s.closed && !e.critical && e !in s.logged && e !in s.pending
    ensures Executes(s, ts, LoggedAlone(s, e))
  {
    var s1 := Apply(s, BeginLog(e));
    var s2 := Apply(s1, TestClosed(e));
    var s3 := Apply(s2, LockAppend(e));
    var end := LoggedAlone(s, e);
    assert s1.pending[e := WantsLock] - {e} == s.pending && s1.pending[e := WantsLock][e := MetFull] - {e} == s.pending;
    if |s.buffer| >= s.cap {
      assert Apply(s3, CountFull(e)) == end;
      ExecutesCons(s3, CountFull(e), [], end);
      ts := [CountFull(e)] + [];
    } else {
      assert s3 == end;
      ts := [];
    }
    ExecutesCons(s2, LockAppend(e), ts, end);
    ts := [LockAppend(e)] + ts;
    ExecutesCons(s1, TestClosed(e), ts, end);
    ts := [TestClosed(e)] + ts;
    ExecutesCons(s, BeginLog(e), ts, end);
    ts := [BeginLog(e)] + ts;
  }

  lemma NotLoggedNotPending(s: Sys, e: Entry)
    requires Inv(s) && e !in s.logged
    ensures e !in s.pending
  {
    assert Places(s, e) == 0;
  }

  /** Behind a batch the store has just refused whole, the next entry logged is lost if and only if the batch and the
      buffer it goes back in front of fill the cap. */
  lemma LostBehindIff(s: Sys, i: nat, e: Entry) returns (ts: seq<Step>, s': Sys)
    requires Reachable(s) && s.batchMode && !s.closed && Enabled(s, Conclude(i)) && true !in s.flushes[i].verdicts
    requires e !in s.logged && !e.critical
    ensures Executes(s, [Conclude(i)] + ts, s') && s' == LoggedAlone(DoConclude(s, i), e)
    ensures s'.dropped == DoConclude(s, i).dropped + [e] <==> |s.flushes[i].batch| + |s.buffer| >= s.cap
    ensures e in s'.buffer <==> |s.flushes[i].batch| + |s.buffer| < s.cap
  {
    ReachableInv(s);
    var f, mid := s.flushes[i], DoConclude(s, i);
    NoneTaken(f.batch, f.verdicts);
    assert f.batch[..|f.batch|] == f.batch;
    StepKeepsInv(s, Conclude(i));
    NotLoggedNotPending(mid, e);
    assert e !in mid.buffer by { assert Places(mid, e) == 0; }
    ts := LogAlone(mid, e);
    s' := LoggedAlone(mid, e);
    ExecutesCons(s, Conclude(i), ts, s');
  }

  /** What may happen to a logger nobody else is using: a flush the store refuses entry by entry, or a Log. */
  datatype Round = RefusedFlush | LogOf(e: Entry)

  ghost function Played(s: Sys, r: Round): Sys {
    match r
    case RefusedFlush => s.(flushes := s.flushes + [Requeued(s.buffer)])
    case LogOf(e) => LoggedAlone(s, e)
  }

  lemma RefusedFlushRun(s: Sys) returns (ts: seq<Step>)
    requires 0 < |s.buffer| <= s.cap
    ensures Executes(s, ts, Played(s, RefusedFlush))
  {
    var i, end := |s.flushes|, Played(s, RefusedFlush);
    var s1 := Apply(s, BeginFlush);
    var s2 := Apply(s1, InsertBatch(i, false));
    assert s2.flushes[i] == Isolating(s.buffer, []);
    var us, s' := RefuseAll(s2, i);
    assert s'.flushes == end.flushes && s' == end;
    ExecutesCons(s1, InsertBatch(i, false), us, s');
    ExecutesCons(s, BeginFlush, [InsertBatch(i, false)] + us, s');
    ts := [BeginFlush] + ([InsertBatch(i, false)] + us);
  }

  ghost predicate FreshLogs(s: Sys, rs: seq<Round>) {
    && (forall i :: 0 <= i < |rs| && rs[i].LogOf? ==>
          !rs[i].e.critical && rs[i].e !in s.logged && rs[i].e !in s.pending)
    && (forall i, j :: 0 <= i < j < |rs| && rs[i].LogOf? && rs[j].LogOf? ==> rs[i].e != rs[j].e)
  }

  ghost function Lost(rs: seq<Round>): seq<Entry> {
    if rs == [] then [] else (if rs[0].LogOf? then [rs[0].e] else []) + Lost(rs[1..])
  }

  /** A buffer full of entries the store refuses stays as it is however often it is flushed, as long as no Log slips in
      during a flush: the writable entry that would unwedge it is dropped at the door, every time. */
  lemma {:induction false} WedgedWhenFull(s: Sys, rs: seq<Round>) returns (ts: seq<Step>, s': Sys)
    requires s.batchMode && !s.closed && |s.buffer| == s.cap > 0 && FreshLogs(s, rs)
    ensures Executes(s, ts, s') && s'.buffer == s.buffer && s'.store == s.store && s'.dropped == s.dropped + Lost(rs)
    decreases |rs|
  {
    if rs == [] {
      ts, s' := [], s;
    } else {
      var mid := Played(s, rs[0]);
      if rs[0].LogOf? { ts := LogAlone(s, rs[0].e); } else { ts := RefusedFlushRun(s); }
      FreshLater(s, rs, mid);
      var us;
      us, s' := WedgedWhenFull(mid, rs[1..]);
      ExecutesAppend(s, ts, mid, us, s');
      ts := ts + us;
      var first := if rs[0].LogOf? then [rs[0].e] else [];
      assert s.dropped + first + Lost(rs[1..]) == s.dropped + (first + Lost(rs[1..]));
    }
  }

  lemma FreshLater(s: Sys, rs: seq<Round>, mid: Sys)
    requires rs != [] && FreshLogs(s, rs) && |s.buffer| == s.cap && mid == Played(s, rs[0])
    ensures FreshLogs(mid, rs[1..])
  {
    forall i | 0 <= i < |rs[1..]| && rs[1..][i].LogOf?
      ensures rs[1..][i].e !in mid.logged && rs[1..][i].e !in mid.pending && !rs[1..][i].e.critical
    {
      assert rs[1..][i] == rs[i + 1];
    }
  }
}
