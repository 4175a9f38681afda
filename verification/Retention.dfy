/**
 The audit retention sweep (internal/audit/retention.go): replicas elected batch by batch delete
 entries past a horizon and write one record of what they removed into the log they swept.
 */
module Retention {
  const BATCH := 2000
  const MAX_BATCHES := 20

  // ------------------------------------------------------------------ many replicas, interleaved

  /** How a sweep may be cut short between batches. */
  datatype Interrupt = Go | Canceled | Stopped

  /** Done keeps how the sweep ended and whether the store would have taken its record. */
  datatype Phase = Looping | Between | Ending(failed: bool) | Done(failed: bool, taken: bool)

  /** One sweep by one replica. removed is what its own successful batches took out. */
  datatype Sweeper = Sweeper(cutoff: int, calls: nat, total: nat, elected: bool, removed: set<string>, phase: Phase)

  datatype Purge = Purge(sweep: nat, count: nat, failed: bool, id: string)

  datatype Sys = Sys(rows: map<string, int>, gone: set<string>, sweeps: map<nat, Sweeper>, purges: seq<Purge>)

  datatype Outcome =
    | LockError
    | NotAcquired
    | Failed(applied: set<string>)     // an error under the lock; a lost commit may still have taken effect
    | Removed(batch: set<string>)

  datatype Step =
    | Write(id: string, at: int)                                // any other writer of the log
    | Begin(sweep: nat, cutoff: int)
    | Cleanup(sweep: nat, outcome: Outcome)
    | Resume(sweep: nat, interrupt: Interrupt)
    | Finish(sweep: nat, ok: bool, id: string, at: int)         // recordPurge and return

  predicate At(s: Sys, k: nat, p: Phase) {
    k in s.sweeps && s.sweeps[k].phase == p
  }

  /** A batch is at most BATCH rows older than the cutoff, and all of those if it is short. */
  ghost predicate IsBatch(s: Sys, cutoff: int, batch: set<string>) {
    && batch <= s.rows.Keys && |batch| <= BATCH
    && (forall id :: id in batch ==> s.rows[id] < cutoff)
    && (|batch| < BATCH ==> forall id :: id in s.rows && s.rows[id] < cutoff ==> id in batch)
  }

  ghost predicate Enabled(s: Sys, t: Step) {
    match t
    case Write(id, _) => id !in s.rows && id !in s.gone
    case Begin(k, _) => k !in s.sweeps
    case Cleanup(k, o) =>
      At(s, k, Looping) && (match o case Removed(b) => IsBatch(s, s.sweeps[k].cutoff, b)
                                    case Failed(b) => b == {} || IsBatch(s, s.sweeps[k].cutoff, b)
                                    case _ => true)
    case Resume(k, _) => At(s, k, Between)
    case Finish(k, _, id, _) => k in s.sweeps && s.sweeps[k].phase.Ending? && id !in s.rows && id !in s.gone
  }

  function Put(s: Sys, k: nat, w: Sweeper): Sys {
    s.(sweeps := s.sweeps[k := w])
  }

  function Drop(s: Sys, batch: set<string>): Sys {
    s.(rows := s.rows - batch, gone := s.gone + batch)
  }

  function DoCleanup(s: Sys, k: nat, o: Outcome): Sys
    requires k in s.sweeps
  {
    var w := s.sweeps[k].(calls := s.sweeps[k].calls + 1);
    match o
    case LockError => Put(s, k, w.(phase := Ending(true)))
    case NotAcquired => Put(s, k, w.(phase := Ending(false)))
    case Failed(applied) => Put(Drop(s, applied), k, w.(elected := true, phase := Ending(true)))
    case Removed(b) =>
      Put(Drop(s, b), k, w.(elected := true, total := w.total + |b|, removed := w.removed + b,
                            phase := if |b| < BATCH then Ending(false) else Between))
  }

  /** Whether a sweep has something to attest to: it held the lock and removed rows or failed. */
  predicate Attests(w: Sweeper) {
    w.phase.Ending? && w.elected && !(w.total == 0 && !w.phase.failed)
  }

  function DoFinish(s: Sys, k: nat, ok: bool, id: string, at: int): Sys
    requires k in s.sweeps && s.sweeps[k].phase.Ending?
  {
    var w := s.sweeps[k];
    var s' := Put(s, k, w.(phase := Done(w.phase.failed, ok)));
    if Attests(w) && ok then s'.(rows := s.rows[id := at], purges := s.purges + [Purge(k, w.total, w.phase.failed, id)])
    else s'
  }

  ghost function Apply(s: Sys, t: Step): Sys
    requires Enabled(s, t)
  {
    match t
    case Write(id, at) => s.(rows := s.rows[id := at])
    case Begin(k, cutoff) => Put(s, k, Sweeper(cutoff, 0, 0, false, {}, Looping))
    case Cleanup(k, o) => DoCleanup(s, k, o)
    case Resume(k, i) =>
      var w := s.sweeps[k];
      Put(s, k, w.(phase := match i
                            case Canceled => Ending(true)
                            case Stopped => Ending(false)
                            case Go => if w.calls < MAX_BATCHES then Looping else Ending(false)))
    case Finish(k, ok, id, at) => DoFinish(s, k, ok, id, at)
  }

  ghost predicate Executes(s: Sys, ts: seq<Step>, s': Sys)
    decreases |ts|
  {
    if ts == [] then s' == s else Enabled(s, ts[0]) && Executes(Apply(s, ts[0]), ts[1..], s')
  }

  function Init(rows: map<string, int>): Sys {
    Sys(rows, {}, map[], [])
  }

  // ------------------------------------------------------------------ invariants

  ghost predicate SweeperInv(s: Sys, k: nat)
    requires k in s.sweeps
  {
    var w := s.sweeps[k];
    && w.calls <= MAX_BATCHES && (w.phase == Looping ==> w.calls < MAX_BATCHES)
    && w.total == |w.removed| && (w.total > 0 ==> w.elected)
    && w.removed <= s.gone
  }

  ghost predicate Apart(s: Sys) {
    forall j, k :: j in s.sweeps && k in s.sweeps && j != k ==> s.sweeps[j].removed !! s.sweeps[k].removed
  }

  ghost predicate PurgeInv(s: Sys, i: nat)
    requires i < |s.purges|
  {
    var p := s.purges[i];
    && At(s, p.sweep, Done(p.failed, true)) && p.count == s.sweeps[p.sweep].total && s.sweeps[p.sweep].elected
    && (p.count > 0 || p.failed) && (p.id in s.rows || p.id in s.gone)
    && forall j :: 0 <= j < |s.purges| && s.purges[j].sweep == p.sweep ==> j == i
  }

  /** A finished sweep that owed a record and whose record the store took. */
  predicate Owed(w: Sweeper) {
    w.phase.Done? && w.elected && (w.total > 0 || w.phase.failed) && w.phase.taken
  }

  ghost predicate Recorded(s: Sys, k: nat) {
    exists i :: 0 <= i < |s.purges| && s.purges[i].sweep == k
  }

  ghost predicate AllRecorded(s: Sys) {
    forall k :: k in s.sweeps && Owed(s.sweeps[k]) ==> Recorded(s, k)
  }

  ghost predicate Inv(s: Sys) {
    && s.rows.Keys !! s.gone
    && (forall k :: k in s.sweeps ==> SweeperInv(s, k))
    && Apart(s)
    && (forall i :: 0 <= i < |s.purges| ==> PurgeInv(s, i))
  }

  lemma CleanupKeepsInv(s: Sys, k: nat, o: Outcome)
    requires Inv(s) && Enabled(s, Cleanup(k, o))
    ensures Inv(DoCleanup(s, k, o))
  {
    CleanupKeepsSweepers(s, k, o);
    CleanupKeepsPurges(s, k, o);
    CleanupKeepsApart(s, k, o);
  }

  lemma CleanupKeepsSweepers(s: Sys, k: nat, o: Outcome)
    requires Inv(s) && Enabled(s, Cleanup(k, o))
    ensures var s' := DoCleanup(s, k, o); forall j :: j in s'.sweeps ==> SweeperInv(s', j)
  {
    var s' := DoCleanup(s, k, o);
    assert SweeperInv(s, k);
    if o.Removed? {
      assert s.sweeps[k].removed !! o.batch;
    }
    forall j | j in s'.sweeps ensures SweeperInv(s', j) {
      if j != k { assert SweeperInv(s, j); }
    }
  }

  lemma CleanupKeepsPurges(s: Sys, k: nat, o: Outcome)
    requires Inv(s) && Enabled(s, Cleanup(k, o))
    ensures var s' := DoCleanup(s, k, o); forall i :: 0 <= i < |s'.purges| ==> PurgeInv(s', i)
  {
    var s' := DoCleanup(s, k, o);
    forall i | 0 <= i < |s'.purges| ensures PurgeInv(s', i) {
      assert PurgeInv(s, i);
    }
  }

  /** A batch comes out of the rows still there, so no sweep has removed any of it before. */
  lemma CleanupKeepsApart(s: Sys, k: nat, o: Outcome)
    requires Inv(s) && Enabled(s, Cleanup(k, o))
    ensures Apart(DoCleanup(s, k, o))
  {
    var s' := DoCleanup(s, k, o);
    forall i, j | i in s'.sweeps && j in s'.sweeps && i != j ensures s'.sweeps[i].removed !! s'.sweeps[j].removed {
      assert SweeperInv(s, i) && SweeperInv(s, j);
    }
  }

  lemma FinishKeepsInv(s: Sys, k: nat, ok: bool, id: string, at: int)
    requires Inv(s) && Enabled(s, Finish(k, ok, id, at))
    ensures Inv(DoFinish(s, k, ok, id, at))
  {
    var s' := DoFinish(s, k, ok, id, at);
    forall j | j in s'.sweeps ensures SweeperInv(s', j) {
      assert SweeperInv(s, j);
    }
    forall i | 0 <= i < |s.purges| ensures s.purges[i].sweep != k {
      assert PurgeInv(s, i);
    }
    forall i | 0 <= i < |s'.purges| ensures PurgeInv(s', i) {
      if i < |s.purges| { assert PurgeInv(s, i); }
    }
  }

  lemma OtherStepKeepsInv(s: Sys, t: Step)
    requires Inv(s) && Enabled(s, t) && (t.Write? || t.Begin? || t.Resume?)
    ensures Inv(Apply(s, t))
  {
    var s' := Apply(s, t);
    forall j | j in s'.sweeps ensures SweeperInv(s', j) {
      if j in s.sweeps { assert SweeperInv(s, j); }
    }
    forall i | 0 <= i < |s'.purges| ensures PurgeInv(s', i) {
      assert PurgeInv(s, i);
    }
  }

  /** Records stay, and only Finish ends a sweep, writing the record it owes. */
  lemma StepKeepsRecorded(s: Sys, t: Step)
    requires AllRecorded(s) && Enabled(s, t)
    ensures AllRecorded(Apply(s, t))
  {
    var s' := Apply(s, t);
    assert s.purges <= s'.purges;
    forall k | k in s'.sweeps && Owed(s'.sweeps[k]) ensures Recorded(s', k) {
      if k in s.sweeps && s.sweeps[k] == s'.sweeps[k] {
        var i :| 0 <= i < |s.purges| && s.purges[i].sweep == k;
        assert s'.purges[i].sweep == k;
      } else {
        assert s'.purges[|s.purges|].sweep == k;
      }
    }
  }

  lemma {:induction false} RunKeepsInv(s: Sys, ts: seq<Step>, s': Sys)
    requires Inv(s) && AllRecorded(s) && Executes(s, ts, s')
    ensures Inv(s') && AllRecorded(s')
    decreases |ts|
  {
    if ts != [] {
      match ts[0] {
        case Cleanup(k, o) => CleanupKeepsInv(s, k, o);
        case Finish(k, ok, id, at) => FinishKeepsInv(s, k, ok, id, at);
        case _ => OtherStepKeepsInv(s, ts[0]);
      }
      StepKeepsRecorded(s, ts[0]);
      RunKeepsInv(Apply(s, ts[0]), ts[1..], s');
    }
  }

  // ------------------------------------------------------------------ what every run guarantees

  /** Across replicas and interleavings: at most twenty cleanup calls a sweep, a total that is exactly the rows its own
      batches removed, and no row removed by two sweeps. */
  lemma SweepsAreBounded(rows: map<string, int>, ts: seq<Step>, s: Sys, k: nat)
    requires Executes(Init(rows), ts, s) && k in s.sweeps
    ensures s.sweeps[k].calls <= MAX_BATCHES && s.sweeps[k].total == |s.sweeps[k].removed|
    ensures forall j :: j in s.sweeps && j != k ==> s.sweeps[j].removed !! s.sweeps[k].removed
    ensures s.sweeps[k].removed !! s.rows.Keys
  {
    RunKeepsInv(Init(rows), ts, s);
    assert SweeperInv(s, k);
  }

  /** A purge record speaks for one finished sweep that held the lock, its count is that sweep's own, it never attests
      to nothing, and no sweep has two. */
  lemma RecordsAreHonest(rows: map<string, int>, ts: seq<Step>, s: Sys, i: nat)
    requires Executes(Init(rows), ts, s) && i < |s.purges|
    ensures var p := s.purges[i];
      && p.sweep in s.sweeps && s.sweeps[p.sweep].elected && p.count == |s.sweeps[p.sweep].removed|
      && (p.count > 0 || p.failed)
      && forall j :: 0 <= j < |s.purges| && j != i ==>
           s.purges[j].sweep != p.sweep && s.purges[j].sweep in s.sweeps
           && s.sweeps[s.purges[j].sweep].removed !! s.sweeps[p.sweep].removed
  {
    RunKeepsInv(Init(rows), ts, s);
    assert PurgeInv(s, i);
    assert SweeperInv(s, s.purges[i].sweep);
    forall j | 0 <= j < |s.purges| && j != i
      ensures s.purges[j].sweep != s.purges[i].sweep && s.purges[j].sweep in s.sweeps
    {
      assert PurgeInv(s, j);
    }
  }

  /** In every reachable state a finished sweep has exactly one record, telling its own count and ending, if and only if
      it held the lock, removed rows or failed, and the store took the record; a sweep still running has none. */
  lemma RecordIff(rows: map<string, int>, ts: seq<Step>, s: Sys, k: nat)
    requires Executes(Init(rows), ts, s) && k in s.sweeps
    ensures Recorded(s, k) <==> Owed(s.sweeps[k])
    ensures forall i, j :: 0 <= i < |s.purges| && 0 <= j < |s.purges| ==>
      s.purges[i].sweep == s.purges[j].sweep == k ==> i == j
    ensures forall i :: 0 <= i < |s.purges| && s.purges[i].sweep == k ==>
      && s.purges[i].count == s.sweeps[k].total && s.purges[i].failed == s.sweeps[k].phase.failed
      && (s.purges[i].id in s.rows || s.purges[i].id in s.gone)
  {
    RunKeepsInv(Init(rows), ts, s);
    forall i | 0 <= i < |s.purges| && s.purges[i].sweep == k
      ensures PurgeInv(s, i) && Owed(s.sweeps[k])
    {
      assert PurgeInv(s, i);
    }
  }

  /** The step makes sweep k end in failure. */
  predicate Fails(t: Step, k: nat) {
    match t
    case Cleanup(j, o) => j == k && (o.LockError? || o.Failed?)
    case Resume(j, i) => j == k && i == Canceled
    case _ => false
  }

  /** Sweep k has ended, or is ending, in failure. */
  predicate HasFailed(s: Sys, k: nat) {
    k in s.sweeps && match s.sweeps[k].phase
                     case Ending(failed) => failed
                     case Done(failed, _) => failed
                     case _ => false
  }

  lemma FailsCleanup(s: Sys, j: nat, o: Outcome, k: nat)
    requires At(s, j, Looping)
    ensures HasFailed(DoCleanup(s, j, o), k) <==> HasFailed(s, k) || Fails(Cleanup(j, o), k)
  {
  }

  lemma FailsFinish(s: Sys, j: nat, ok: bool, id: string, at: int, k: nat)
    requires j in s.sweeps && s.sweeps[j].phase.Ending?
    ensures HasFailed(DoFinish(s, j, ok, id, at), k) <==> HasFailed(s, k)
  {
  }

  lemma FailsStep(s: Sys, t: Step, k: nat)
    requires Enabled(s, t)
    ensures HasFailed(Apply(s, t), k) <==> HasFailed(s, k) || Fails(t, k)
  {
    match t
    case Cleanup(j, o) => FailsCleanup(s, j, o, k);
    case Finish(j, ok, id, at) => FailsFinish(s, j, ok, id, at, k);
    case _ =>
  }

  lemma {:induction false} FailsFrom(s: Sys, ts: seq<Step>, s': Sys, k: nat)
    requires Executes(s, ts, s')
    ensures HasFailed(s', k) <==> HasFailed(s, k) || exists i :: 0 <= i < |ts| && Fails(ts[i], k)
    decreases |ts|
  {
    if ts != [] {
      var mid := Apply(s, ts[0]);
      FailsStep(s, ts[0], k);
      FailsFrom(mid, ts[1..], s', k);
      if exists i :: 0 <= i < |ts| && Fails(ts[i], k) {
        var i :| 0 <= i < |ts| && Fails(ts[i], k);
        assert i > 0 ==> ts[1..][i - 1] == ts[i];
      }
    }
  }

  /** Across replicas and interleavings, a sweep's record says it failed if and only if one of its own calls failed
      or it was canceled. */
  lemma RecordedFailureIff(rows: map<string, int>, ts: seq<Step>, s: Sys, i: nat)
    requires Executes(Init(rows), ts, s) && i < |s.purges|
    ensures s.purges[i].failed <==> exists j :: 0 <= j < |ts| && Fails(ts[j], s.purges[i].sweep)
  {
    RunKeepsInv(Init(rows), ts, s);
    assert PurgeInv(s, i);
    FailsFrom(Init(rows), ts, s, s.purges[i].sweep);
  }

  // ------------------------------------------------------------------ what goes and what stays

  lemma {:induction false} ExecutesSnoc(s: Sys, ts: seq<Step>, s': Sys, t: Step)
    requires Executes(s, ts, s') && Enabled(s', t)
    ensures Executes(s, ts + [t], Apply(s', t))
    decreases |ts|
  {
    if ts == [] {
      assert [t][1..] == [];
    } else {
      assert (ts + [t])[1..] == ts[1..] + [t];
      ExecutesSnoc(Apply(s, ts[0]), ts[1..], s', t);
    }
  }

  /** The step deletes the row. */
  predicate Takes(t: Step, id: string) {
    t.Cleanup? && match t.outcome
                  case Removed(batch) => id in batch
                  case Failed(applied) => id in applied
                  case _ => false
  }

  /** Sweep k was begun, before step n, with a cutoff after `at`. */
  ghost predicate BegunAfter(ts: seq<Step>, n: nat, k: nat, at: int)
    requires n <= |ts|
  {
    exists i :: 0 <= i < n && ts[i].Begin? && ts[i].sweep == k && at < ts[i].cutoff
  }

  lemma GoneStep(s: Sys, t: Step, id: string)
    requires Enabled(s, t) && id in s.gone && id !in s.rows
    ensures var s' := Apply(s, t); id in s'.gone && id !in s'.rows
    ensures !Takes(t, id) && !(t.Write? && t.id == id)
  {
  }

  lemma {:induction false} StaysGone(s: Sys, ts: seq<Step>, s': Sys, id: string)
    requires Executes(s, ts, s') && id in s.gone && id !in s.rows
    ensures id !in s'.rows
    ensures forall i :: 0 <= i < |ts| ==> !Takes(ts[i], id) && !(ts[i].Write? && ts[i].id == id)
    decreases |ts|
  {
    if ts != [] {
      GoneStep(s, ts[0], id);
      StaysGone(Apply(s, ts[0]), ts[1..], s', id);
      forall i | 0 < i < |ts| ensures ts[i] == ts[1..][i - 1] {
      }
    }
  }

  /** One step keeps a row as it is, or deletes it in a sweep whose cutoff is later than the row. */
  lemma StandsStep(s: Sys, t: Step, id: string)
    requires Enabled(s, t) && id in s.rows
    ensures var s' := Apply(s, t);
      if Takes(t, id) then
        id in s'.gone && id !in s'.rows && t.sweep in s.sweeps && s.rows[id] < s.sweeps[t.sweep].cutoff
      else id in s'.rows && s'.rows[id] == s.rows[id]
  {
  }

  /** Every sweep's cutoff is the one it was begun with. */
  ghost predicate CutoffsBegun(s: Sys, ts: seq<Step>) {
    forall k :: k in s.sweeps ==>
      exists i :: 0 <= i < |ts| && ts[i].Begin? && ts[i].sweep == k && ts[i].cutoff == s.sweeps[k].cutoff
  }

  lemma BegunStep(s: Sys, past: seq<Step>, t: Step)
    requires CutoffsBegun(s, past) && Enabled(s, t)
    ensures CutoffsBegun(Apply(s, t), past + [t])
  {
    var s' := Apply(s, t);
    forall k | k in s'.sweeps
      ensures exists i :: 0 <= i < |past + [t]| && (past + [t])[i].Begin? && (past + [t])[i].sweep == k
                          && (past + [t])[i].cutoff == s'.sweeps[k].cutoff
    {
      if k in s.sweeps {
        var i :| 0 <= i < |past| && past[i].Begin? && past[i].sweep == k && past[i].cutoff == s.sweeps[k].cutoff;
        assert (past + [t])[i] == past[i];
      } else {
        assert (past + [t])[|past|] == t;
      }
    }
  }

  /** A row stays, unchanged, until a step deletes it; past is what ran before s. */
  lemma {:induction false} StandsUntilTaken(s: Sys, past: seq<Step>, ts: seq<Step>, s': Sys, id: string)
    requires Executes(s, ts, s') && id in s.rows && CutoffsBegun(s, past)
    ensures id in s'.rows <==> forall i :: 0 <= i < |ts| ==> !Takes(ts[i], id)
    ensures id in s'.rows ==> s'.rows[id] == s.rows[id]
    ensures forall i :: 0 <= i < |ts| && Takes(ts[i], id) ==>
      BegunAfter(past + ts, |past| + i, ts[i].sweep, s.rows[id])
    decreases |ts|
  {
    if ts != [] {
      var mid := Apply(s, ts[0]);
      StandsStep(s, ts[0], id);
      forall i | 0 < i < |ts| ensures ts[i] == ts[1..][i - 1] {
      }
      if Takes(ts[0], id) {
        StaysGone(mid, ts[1..], s', id);
        var k := ts[0].sweep;
        var i :| 0 <= i < |past| && past[i].Begin? && past[i].sweep == k && past[i].cutoff == s.sweeps[k].cutoff;
        assert (past + ts)[i] == past[i];
      } else {
        BegunStep(s, past, ts[0]);
        StandsUntilTaken(mid, past + [ts[0]], ts[1..], s', id);
        assert past + [ts[0]] + ts[1..] == past + ts;
      }
    }
  }

  /** The same for a row written along the run. */
  lemma {:induction false} StandsOnceWritten(s: Sys, past: seq<Step>, ts: seq<Step>, s': Sys, id: string, at: int,
                                             w: nat)
    requires Executes(s, ts, s') && CutoffsBegun(s, past) && w < |ts| && ts[w] == Write(id, at)
    requires s.rows.Keys !! s.gone
    ensures id in s'.rows <==> forall i :: 0 <= i < |ts| ==> !Takes(ts[i], id)
    ensures id in s'.rows ==> s'.rows[id] == at
    ensures forall i :: 0 <= i < |ts| && Takes(ts[i], id) ==> BegunAfter(past + ts, |past| + i, ts[i].sweep, at)
    decreases |ts|
  {
    var mid := Apply(s, ts[0]);
    BegunStep(s, past, ts[0]);
    forall i | 0 < i < |ts| ensures ts[i] == ts[1..][i - 1] {
    }
    assert past + [ts[0]] + ts[1..] == past + ts;
    if w == 0 {
      StandsUntilTaken(mid, past + [ts[0]], ts[1..], s', id);
    } else {
      if Takes(ts[0], id) {
        StandsStep(s, ts[0], id);
        StaysGone(mid, ts[1..], s', id);
        assert false;
      }
      StandsOnceWritten(mid, past + [ts[0]], ts[1..], s', id, at, w - 1);
    }
  }

  /** In every run, a row that was there or was written is in the log, with its timestamp, if and only if no sweep's
      batch took it, and every batch that took it belongs to a sweep begun with a later cutoff. */
  lemma OnlyOldRowsGo(rows: map<string, int>, ts: seq<Step>, s: Sys, id: string, at: int)
    requires Executes(Init(rows), ts, s)
    requires (id in rows && rows[id] == at) || Write(id, at) in ts
    ensures id in s.rows <==> forall i :: 0 <= i < |ts| ==> !Takes(ts[i], id)
    ensures id in s.rows ==> s.rows[id] == at
    ensures forall i :: 0 <= i < |ts| && Takes(ts[i], id) ==> BegunAfter(ts, i, ts[i].sweep, at)
  {
    assert [] + ts == ts;
    if id in rows && rows[id] == at {
      StandsUntilTaken(Init(rows), [], ts, s, id);
    } else {
      var w :| 0 <= w < |ts| && ts[w] == Write(id, at);
      StandsOnceWritten(Init(rows), [], ts, s, id, at, w);
    }
  }

  /** In every reachable state, a sweep's own batch ends it exactly when it is short of 2000, and then leaves no row
      older than the sweep's cutoff. */
  lemma ShortBatchSweepsClean(rows: map<string, int>, ts: seq<Step>, s: Sys, k: nat, batch: set<string>)
    requires Executes(Init(rows), ts, s) && Enabled(s, Cleanup(k, Removed(batch)))
    ensures var s' := Apply(s, Cleanup(k, Removed(batch)));
      && |batch| <= 2000 && s'.rows.Keys == s.rows.Keys - batch
      && (s'.sweeps[k].phase == Ending(false) <==> |batch| < 2000)
      && (s'.sweeps[k].phase == Between <==> |batch| == 2000)
      && (|batch| < 2000 ==> forall id :: id in s'.rows ==> s'.rows[id] >= s.sweeps[k].cutoff)
      && s'.sweeps[k].total == s.sweeps[k].total + |batch| && s'.sweeps[k].elected
  {
  }

  // ------------------------------------------------------------------ one sweep, as the source runs it

  /** What the database does with one CleanupLocked call. */
  datatype Answer = LockFails | Busy | CleanupFails | Works

  /** The answer to call n of those scripted; a call beyond the script works. */
  function Nth(answers: seq<Answer>, n: nat): Answer {
    if n < |answers| then answers[n] else Works
  }

  /** The script after n calls. */
  function Rest(answers: seq<Answer>, n: nat): seq<Answer> {
    if n <= |answers| then answers[n..] else []
  }

  lemma RestNext(answers: seq<Answer>, n: nat)
    ensures Nth(Rest(answers, n), 0) == Nth(answers, n) && Rest(Rest(answers, n), 1) == Rest(answers, n + 1)
  {
  }

  datatype Record = Record(cutoff: int, deleted: nat, failed: bool)

  /** n rows older than cutoff have gone, and nothing else has changed. */
  ghost predicate Purged(before: map<string, int>, after: map<string, int>, cutoff: int, n: int) {
    && after.Keys <= before.Keys && (forall id :: id in after ==> after[id] == before[id])
    && (forall id :: id in before && id !in after ==> before[id] < cutoff)
    && n == |before| - |after|
  }

  lemma PurgedTwice(a: map<string, int>, b: map<string, int>, c: map<string, int>, cutoff: int, m: int, n: int)
    requires Purged(a, b, cutoff, m) && Purged(b, c, cutoff, n)
    ensures Purged(a, c, cutoff, m + n)
  {
    forall id | id in a && id !in c ensures a[id] < cutoff {
      if id in b { assert b[id] < cutoff; }
    }
  }

  lemma BatchIsPurge(s: Sys, batch: set<string>, cutoff: int, after: map<string, int>)
    requires batch <= s.rows.Keys && after == s.rows - batch && |batch| <= BATCH
    requires forall id :: id in batch ==> s.rows[id] < cutoff
    requires |batch| < BATCH ==> forall id :: id in after ==> after[id] >= cutoff
    ensures Purged(s.rows, after, cutoff, |batch|) && IsBatch(s, cutoff, batch)
  {
    assert after.Keys == s.rows.Keys - batch;
    assert s.rows.Keys == after.Keys + batch;
  }

  /** What sweep k has come to. */
  ghost predicate Stands(s: Sys, k: nat, cutoff: int, calls: int, total: int, elected: bool, phase: Phase) {
    && k in s.sweeps
    && var w := s.sweeps[k];
      w.cutoff == cutoff && w.calls == calls && w.total == total && w.elected == elected && w.phase == phase
  }

  /** A step has neither added a purge record nor let rows go that were not there. */
  ghost predicate NoRecord(s: Sys, s': Sys) {
    && s'.purges == s.purges && s'.gone <= s.gone + s.rows.Keys && s'.rows.Keys <= s.rows.Keys
  }

  class AuditRepo {
    var rows: map<string, int>          // entry id to timestamp
    var records: seq<Record>            // purge entries written, each also a row
    var answers: seq<Answer>
    ghost var calls: nat
    ghost const start: map<string, int>
    ghost var sys: Sys
    ghost var history: seq<Step>

    /** The rows are the machine's, and its state was reached by the steps taken so far. */
    ghost predicate Valid()
      reads this
    {
      sys.rows == rows && |sys.purges| == |records| && Executes(Init(start), history, sys)
    }

    constructor (rows: map<string, int>, answers: seq<Answer>)
      ensures this.rows == rows && records == [] && this.answers == answers && calls == 0 && Valid() && history == []
    {
      this.rows, records, this.answers, calls := rows, [], answers, 0;
      start, sys, history := rows, Init(rows), [];
    }

    /** Advances the machine by one step. */
    ghost method Take(t: Step)
      requires Executes(Init(start), history, sys) && Enabled(sys, t)
      modifies this`sys, this`history
      ensures sys == Apply(old(sys), t) && history == old(history) + [t] && Executes(Init(start), history, sys)
    {
      ExecutesSnoc(Init(start), history, sys, t);
      history := history + [t];
      sys := Apply(sys, t);
    }

    method NextAnswer() returns (a: Answer)
      modifies this`answers
      ensures a == Nth(old(answers), 0) && answers == Rest(old(answers), 1)
    {
      if answers == [] {
        return Works;
      }
      a, answers := answers[0], answers[1..];
    }

    /** At most BATCH rows older than cutoff, all of them if fewer. */
    method DeleteOlder(cutoff: int, ghost s: Sys) returns (deleted: nat, ghost batch: set<string>)
      requires s.rows == rows
      modifies this`rows
      ensures IsBatch(s, cutoff, batch) && rows == s.rows - batch && |batch| == deleted
      ensures Purged(s.rows, rows, cutoff, deleted)
      ensures deleted < BATCH ==> forall id :: id in rows ==> rows[id] >= cutoff
    {
      deleted, batch := 0, {};
      var rest := rows.Keys;
      while rest != {} && deleted < BATCH
        invariant rest <= rows.Keys && |batch| == deleted <= BATCH
        invariant batch <= old(rows).Keys && rows == old(rows) - batch
        invariant forall id :: id in batch ==> old(rows)[id] < cutoff
        invariant forall id :: id in rows && id !in rest ==> rows[id] >= cutoff
        decreases rest
      {
        var id :| id in rest;
        rest := rest - {id};
        if rows[id] < cutoff {
          rows := rows - {id};
          deleted, batch := deleted + 1, batch + {id};
        }
      }
      BatchIsPurge(s, batch, cutoff, rows);
    }

    /** The machine's step for a call that deletes nothing. */
    ghost method Refuse(k: nat, o: Outcome)
      requires Valid() && At(sys, k, Looping) && (o == LockError || o == NotAcquired || o == Failed({}))
      modifies this`sys, this`history
      ensures Valid() && history == old(history) + [Cleanup(k, o)] && sys == DoCleanup(old(sys), k, o)
    {
      assert sys.rows - {} == sys.rows;
      Take(Cleanup(k, o));
    }

    method DeleteBatch(cutoff: int, ghost k: nat) returns (deleted: nat, ghost o: Outcome)
      requires Valid() && At(sys, k, Looping) && sys.sweeps[k].cutoff == cutoff
      modifies this`rows, this`sys, this`history
      ensures Valid() && history == old(history) + [Cleanup(k, o)] && sys == DoCleanup(old(sys), k, o)
      ensures o.Removed? && |o.batch| == deleted && o.batch <= old(rows).Keys
      ensures Purged(old(rows), rows, cutoff, deleted) && deleted <= BATCH
      ensures deleted < BATCH ==> forall id :: id in rows ==> rows[id] >= cutoff
    {
      ghost var batch;
      deleted, batch := DeleteOlder(cutoff, sys);
      o := Removed(batch);
      Take(Cleanup(k, o));
    }

    /** CleanupLocked: one transaction under the advisory lock, for sweep k. */
    method CleanupLocked(cutoff: int, ghost k: nat)
      returns (deleted: nat, acquired: bool, failed: bool, ghost o: Outcome)
      requires Valid() && At(sys, k, Looping) && sys.sweeps[k].cutoff == cutoff
      modifies this`rows, this`answers, this`calls, this`sys, this`history
      ensures Valid() && history == old(history) + [Cleanup(k, o)] && sys == DoCleanup(old(sys), k, o)
      ensures match Nth(old(answers), 0)
              case LockFails => o == LockError
              case Busy => o == NotAcquired
              case CleanupFails => o == Failed({})
              case Works => o.Removed? && |o.batch| == deleted && o.batch <= old(rows).Keys
      ensures calls == old(calls) + 1 && answers == Rest(old(answers), 1)
      ensures failed <==> Nth(old(answers), 0) == LockFails || Nth(old(answers), 0) == CleanupFails
      ensures acquired <==> Nth(old(answers), 0) == CleanupFails || Nth(old(answers), 0) == Works
      ensures Purged(old(rows), rows, cutoff, deleted) && deleted <= BATCH
      ensures failed || !acquired ==> rows == old(rows)
      ensures acquired && !failed && deleted < BATCH ==> forall id :: id in rows ==> rows[id] >= cutoff
    {
      calls := calls + 1;
      var answer := NextAnswer();
      match answer
      case LockFails =>
        deleted, acquired, failed, o := 0, false, true, LockError;
        Refuse(k, o);
      case Busy =>
        deleted, acquired, failed, o := 0, false, false, NotAcquired;
        Refuse(k, o);
      case CleanupFails =>
        deleted, acquired, failed, o := 0, true, true, Failed({});
        Refuse(k, o);
      case Works =>
        deleted, o := DeleteBatch(cutoff, k);
        acquired, failed := true, false;
    }

    /** The machine opens sweep k ... */
    ghost method Open(k: nat, cutoff: int)
      requires Valid() && k !in sys.sweeps
      modifies this`sys, this`history
      ensures Valid() && old(history) <= history && NoRecord(old(sys), sys)
      ensures Stands(sys, k, cutoff, 0, 0, false, Looping)
    {
      Take(Begin(k, cutoff));
    }

    /** ... goes on or ends after a full batch ... */
    ghost method Proceed(k: nat, interrupt: Interrupt, cutoff: int, calls: nat, total: nat, elected: bool)
      requires Valid() && Stands(sys, k, cutoff, calls, total, elected, Between)
      modifies this`sys, this`history
      ensures Valid() && old(history) <= history && NoRecord(old(sys), sys)
      ensures Stands(sys, k, cutoff, calls, total, elected,
                     if interrupt == Canceled then Ending(true)
                     else if interrupt == Go && calls < 20 then Looping else Ending(false))
    {
      Take(Resume(k, interrupt));
    }

    /** ... and closes one that has nothing to attest to. */
    ghost method Shut(id: string, now: int, r: Record, ok: bool, k: nat, calls: int, elected: bool)
      requires Valid() && Stands(sys, k, r.cutoff, calls, r.deleted, elected, Ending(r.failed))
      requires id !in rows && id !in sys.gone && (!elected || (r.deleted == 0 && !r.failed))
      modifies this`sys, this`history
      ensures Valid() && old(history) <= history
      ensures Stands(sys, k, r.cutoff, calls, r.deleted, elected, Done(r.failed, ok))
    {
      Take(Finish(k, ok, id, now));
    }

    /** The purge entry: one more row, under an id not in use, if the store takes it. */
    method InsertRecord(id: string, now: int, r: Record, ok: bool, ghost k: nat, ghost calls: int)
      requires Valid() && Stands(sys, k, r.cutoff, calls, r.deleted, true, Ending(r.failed))
      requires id !in rows && id !in sys.gone && (r.deleted > 0 || r.failed)
      modifies this`rows, this`records, this`sys, this`history
      ensures Valid() && old(history) <= history
      ensures Stands(sys, k, r.cutoff, calls, r.deleted, true, Done(r.failed, ok))
      ensures rows == if ok then old(rows)[id := now] else old(rows)
      ensures records == if ok then old(records) + [r] else old(records)
    {
      Take(Finish(k, ok, id, now));
      if ok {
        rows := rows[id := now];
        records := records + [r];
      }
    }
  }

  /** Why a sweep's loop ended. */
  datatype End = Short | Exhausted | WasCanceled | WasStopped | LostLock | Failure

  /** Which ending the last of n + 1 calls, the interrupt found after it and the rows removed by then make. */
  ghost predicate EndsAs(end: End, n: int, last: Answer, found: Interrupt, total: int) {
    && (end == Failure <==> last == LockFails || last == CleanupFails)
    && (end == LostLock <==> last == Busy)
    && (end == Short <==> last == Works && total < (n + 1) * 2000)
    && (end == WasCanceled <==> last == Works && total == (n + 1) * 2000 && found == Canceled)
    && (end == WasStopped <==> last == Works && total == (n + 1) * 2000 && found == Stopped)
    && (end == Exhausted <==> last == Works && total == (n + 1) * 2000 && found == Go)
    && (end == Failure || end == LostLock ==> total == n * 2000)
    && (end == Exhausted ==> n + 1 == 20) && 0 <= n < 20
  }

  function FoundAfter(interrupts: seq<Interrupt>, n: nat): Interrupt {
    if n < |interrupts| then interrupts[n] else Go
  }

  /** One more call of a sweep that found before and has removed total so far. */
  method NextBatch(repo: AuditRepo, cutoff: int, ghost before: map<string, int>, ghost total: nat, ghost k: nat,
                   ghost n: nat)
    returns (deleted: nat, acquired: bool, failed: bool)
    requires Purged(before, repo.rows, cutoff, total)
    requires repo.Valid() && Stands(repo.sys, k, cutoff, n, total, n > 0, Looping)
    modifies repo`rows, repo`answers, repo`calls, repo`sys, repo`history
    ensures repo.Valid() && old(repo.history) <= repo.history && NoRecord(old(repo.sys), repo.sys)
    ensures Stands(repo.sys, k, cutoff, n + 1, total + deleted, n > 0 || acquired,
                   if failed then Ending(true) else if !acquired || deleted < BATCH then Ending(false) else Between)
    ensures repo.calls == old(repo.calls) + 1 && repo.answers == Rest(old(repo.answers), 1)
    ensures failed <==> Nth(old(repo.answers), 0) == LockFails || Nth(old(repo.answers), 0) == CleanupFails
    ensures acquired <==> Nth(old(repo.answers), 0) == CleanupFails || Nth(old(repo.answers), 0) == Works
    ensures Purged(before, repo.rows, cutoff, total + deleted) && deleted <= BATCH
    ensures failed || !acquired ==> deleted == 0
    ensures acquired && !failed && deleted < BATCH ==> forall id :: id in repo.rows ==> repo.rows[id] >= cutoff
  {
    ghost var rows := repo.rows;
    ghost var o;
    deleted, acquired, failed, o := repo.CleanupLocked(cutoff, k);
    PurgedTwice(before, rows, repo.rows, cutoff, total, deleted);
  }

  /** One turn of the delete loop: a batch, and after a full one a look at what has come up. */
  method Round(repo: AuditRepo, cutoff: int, found: Interrupt, ghost i: nat, sofar: nat, held: bool,
               ghost before: map<string, int>, ghost k: nat)
    returns (total: nat, elected: bool, failed: bool, stop: bool, ghost end: End)
    requires Purged(before, repo.rows, cutoff, sofar) && i < 20 && sofar == i * 2000 && held == (i > 0)
    requires repo.Valid() && Stands(repo.sys, k, cutoff, i, sofar, held, Looping)
    modifies repo`rows, repo`answers, repo`calls, repo`sys, repo`history
    ensures repo.Valid() && old(repo.history) <= repo.history && NoRecord(old(repo.sys), repo.sys)
    ensures Stands(repo.sys, k, cutoff, i + 1, total, elected, if !stop && i < 19 then Looping else Ending(failed))
    ensures repo.calls == old(repo.calls) + 1 && repo.answers == Rest(old(repo.answers), 1)
    ensures Purged(before, repo.rows, cutoff, total)
    ensures elected <==> held || Nth(old(repo.answers), 0) == Works || Nth(old(repo.answers), 0) == CleanupFails
    ensures stop ==> EndsAs(end, i, Nth(old(repo.answers), 0), found, total)
    ensures failed <==> stop && (end == Failure || end == WasCanceled)
    ensures !stop ==> Nth(old(repo.answers), 0) == Works && found == Go && total == (i + 1) * 2000
    ensures stop && end == Short ==> forall id :: id in repo.rows ==> repo.rows[id] >= cutoff
  {
    var deleted, acquired;
    deleted, acquired, failed := NextBatch(repo, cutoff, before, sofar, k, i);
    total, elected, stop, end := sofar + deleted, held || acquired, true, Short;
    if failed {
      end := Failure;
    } else if !acquired {
      end := LostLock;
    } else if deleted == BATCH {
      repo.Proceed(k, found, cutoff, i + 1, total, elected);
      failed, stop := found == Canceled, found != Go;
      end := if found == Canceled then WasCanceled else WasStopped;
    }
  }

  /** How a sweep's calls went: the last ended it, every one before it worked and found nothing in the way. */
  ghost predicate Ended(end: End, calls: int, answers: seq<Answer>, interrupts: seq<Interrupt>, total: int,
                        elected: bool, failed: bool) {
    && calls > 0
    && EndsAs(end, calls - 1, Nth(answers, calls - 1), FoundAfter(interrupts, calls - 1), total)
    && (forall i :: 0 <= i < calls - 1 ==> Nth(answers, i) == Works && FoundAfter(interrupts, i) == Go)
    && (elected <==> calls > 1 || Nth(answers, 0) == Works || Nth(answers, 0) == CleanupFails)
    && (failed <==> end == Failure || end == WasCanceled)
  }

  /** i calls have gone, all of them in full. */
  ghost predicate Underway(i: nat, answers: seq<Answer>, interrupts: seq<Interrupt>, left: seq<Answer>) {
    && left == Rest(answers, i)
    && forall j :: 0 <= j < i ==> Nth(answers, j) == Works && FoundAfter(interrupts, j) == Go
  }

  lemma OneMore(i: nat, answers: seq<Answer>, interrupts: seq<Interrupt>, left: seq<Answer>)
    requires Underway(i, answers, interrupts, left)
    ensures Nth(left, 0) == Nth(answers, i)
    ensures Nth(left, 0) == Works && FoundAfter(interrupts, i) == Go ==>
      Underway(i + 1, answers, interrupts, Rest(left, 1))
  {
    RestNext(answers, i);
  }

  /** sweepBatches: the delete loop. interrupts says what the select finds after each full batch. */
  method SweepBatches(repo: AuditRepo, cutoff: int, interrupts: seq<Interrupt>, ghost k: nat,
                      ghost answers: seq<Answer>)
    returns (total: nat, elected: bool, failed: bool, ghost end: End)
    requires repo.Valid() && Stands(repo.sys, k, cutoff, 0, 0, false, Looping) && answers == repo.answers
    modifies repo`rows, repo`answers, repo`calls, repo`sys, repo`history
    ensures repo.Valid() && old(repo.history) <= repo.history && NoRecord(old(repo.sys), repo.sys)
    ensures Stands(repo.sys, k, cutoff, repo.calls - old(repo.calls), total, elected, Ending(failed))
    ensures Ended(end, repo.calls - old(repo.calls), answers, interrupts, total, elected, failed)
    ensures Purged(old(repo.rows), repo.rows, cutoff, total)
    ensures end == Short ==> forall id :: id in repo.rows ==> repo.rows[id] >= cutoff
  {
    total, elected := 0, false;
    var i := 0;
    while i < MAX_BATCHES
      invariant 0 <= i <= MAX_BATCHES && repo.calls == old(repo.calls) + i
      invariant Underway(i, answers, interrupts, repo.answers)
      invariant Purged(old(repo.rows), repo.rows, cutoff, total) && total == i * 2000 && elected == (i > 0)
      invariant repo.Valid() && old(repo.history) <= repo.history && NoRecord(old(repo.sys), repo.sys)
      invariant Stands(repo.sys, k, cutoff, i, total, elected, if i < MAX_BATCHES then Looping else Ending(false))
    {
      OneMore(i, answers, interrupts, repo.answers);
      var stop;
      total, elected, failed, stop, end := Round(repo, cutoff, FoundAfter(interrupts, i), i, total, elected,
                                                 old(repo.rows), k);
      if stop {
        return;
      }
      i := i + 1;
    }
    failed, end := false, Exhausted;
  }

  /** recordPurge: what a sweep that held the lock removed or failed at, unless it did nothing. */
  method RecordPurge(repo: AuditRepo, id: string, now: int, r: Record, held: bool, ok: bool, ghost k: nat,
                     ghost calls: int)
    requires repo.Valid() && Stands(repo.sys, k, r.cutoff, calls, r.deleted, held, Ending(r.failed))
    requires id !in repo.rows && id !in repo.sys.gone
    modifies repo`rows, repo`records, repo`sys, repo`history
    ensures repo.Valid() && old(repo.history) <= repo.history
    ensures Stands(repo.sys, k, r.cutoff, calls, r.deleted, held, Done(r.failed, ok))
    ensures repo.records == if ok && held && (r.deleted > 0 || r.failed) then old(repo.records) + [r]
                            else old(repo.records)
    ensures repo.rows == if ok && held && (r.deleted > 0 || r.failed) then old(repo.rows)[id := now]
                         else old(repo.rows)
  {
    if held && !(r.deleted == 0 && !r.failed) {
      repo.InsertRecord(id, now, r, ok, k, calls);
    } else {
      repo.Shut(id, now, r, ok, k, calls, held);
    }
  }

  /** The rows a sweep leaves: mid, and its record if it made one. */
  ghost predicate Leaves(mid: map<string, int>, rows: map<string, int>, id: string, now: int, recorded: bool) {
    rows == if recorded then mid[id := now] else mid
  }

  /** Sweep past the check that there is a period at all. */
  method SweepPast(repo: AuditRepo, cutoff: int, now: int, interrupts: seq<Interrupt>, recordID: string,
                   storeTakesRecord: bool, ghost k: nat, ghost answers: seq<Answer>)
    returns (total: nat, failed: bool, ghost elected: bool, ghost end: End, ghost mid: map<string, int>)
    requires repo.Valid() && k !in repo.sys.sweeps && recordID !in repo.rows && recordID !in repo.sys.gone
    requires answers == repo.answers
    modifies repo
    ensures repo.Valid() && old(repo.history) <= repo.history
    ensures Stands(repo.sys, k, cutoff, repo.calls - old(repo.calls), total, elected, Done(failed, storeTakesRecord))
    ensures Ended(end, repo.calls - old(repo.calls), answers, interrupts, total, elected, failed)
    ensures Purged(old(repo.rows), mid, cutoff, total)
    ensures end == Short ==> forall id :: id in mid ==> mid[id] >= cutoff
    ensures Leaves(mid, repo.rows, recordID, now, storeTakesRecord && elected && (total > 0 || failed))
    ensures repo.records == if storeTakesRecord && elected && (total > 0 || failed)
                            then old(repo.records) + [Record(cutoff, total, failed)] else old(repo.records)
  {
    repo.Open(k, cutoff);
    var held;
    total, held, failed, end := SweepBatches(repo, cutoff, interrupts, k, repo.answers);
    elected, mid := held, repo.rows;
    RecordPurge(repo, recordID, now, Record(cutoff, total, failed), held, storeTakesRecord, k,
                repo.calls - old(repo.calls));
  }

  /** Sweep: one cutoff for all batches, and a record from the replica that held the lock, unless it did nothing. */
  method Sweep(repo: AuditRepo, period: int, now: int, interrupts: seq<Interrupt>,
               recordID: string, storeTakesRecord: bool, ghost k: nat)
    returns (total: nat, failed: bool, ghost elected: bool, ghost end: End)
    requires repo.Valid() && k !in repo.sys.sweeps && recordID !in repo.rows && recordID !in repo.sys.gone
    modifies repo
    ensures repo.Valid() && old(repo.history) <= repo.history
    ensures period <= 0 ==> total == 0 && !failed && repo.rows == old(repo.rows) && repo.calls == old(repo.calls)
    ensures period > 0 ==>
      Stands(repo.sys, k, now - period, repo.calls - old(repo.calls), total, elected, Done(failed, storeTakesRecord))
    ensures period > 0 ==>
      Ended(end, repo.calls - old(repo.calls), old(repo.answers), interrupts, total, elected, failed)
    ensures forall id :: id in old(repo.rows) && id !in repo.rows ==> old(repo.rows)[id] < now - period
    ensures period > 0 && end == Short ==> forall id :: id in repo.rows ==> repo.rows[id] >= now - period
    ensures repo.records == if storeTakesRecord && elected && (total > 0 || failed)
                            then old(repo.records) + [Record(now - period, total, failed)] else old(repo.records)
    ensures |repo.rows| == |old(repo.rows)| - total + |repo.records| - |old(repo.records)|
    ensures !failed ==> |repo.rows| <= |old(repo.rows)|
  {
    if period <= 0 {
      return 0, false, false, WasStopped;
    }
    ghost var mid;
    total, failed, elected, end, mid := SweepPast(repo, now - period, now, interrupts, recordID, storeTakesRecord, k,
                                                  repo.answers);
    assert recordID !in mid;
  }
}
