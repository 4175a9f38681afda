/**
 The audit logger of internal/audit/audit.go as a state machine over its atomic sections.

 Log, Flush and Close run concurrently. Each step below is one critical section, one atomic
 counter update or one store call, so every interleaving of any number of calls is a sequence of
 steps. The store is an adversary: each insert succeeds or fails as the step says, and a failed
 InsertBatch leaves nothing behind.
 */
module AuditLog {

  /** An audit row. critical is IsCriticalEvent of its type, fixed when Log builds the entry. */
  datatype Entry = Entry(id: nat, eventType: string, critical: bool)

  // ------------------------------------------------------------------ critical events

  const CRITICAL_EVENTS: set<string> := {
    "login_failure", "password_change", "password_reset", "token_revoke", "admin_action", "kms_unwrap",
    "token_minted", "honeypot_trigger", "admin_authz_denied", "admin_session_rejected",
    "authenticator_cloned", "refresh_token_replayed"
  }

  predicate IsCriticalEvent(eventType: string) {
    "svcdoc_" <= eventType || eventType in CRITICAL_EVENTS
  }

  // ------------------------------------------------------------------ state

  /** Where one Log call stands. */
  datatype LogPhase =
    | Entered        // before the isClosed test
    | WantsLock      // isClosed said false; the lock is not taken yet
    | MetFull        // saw a full buffer under the lock, which it has released
    | SyncInsert     // about to insert synchronously

  /** One Flush call, kept as a record after it ends. verdicts are the store's answers, entry by entry. */
  datatype Flush =
    | Batch(batch: seq<Entry>)
    | Isolating(batch: seq<Entry>, verdicts: seq<bool>)
    | Stored(batch: seq<Entry>)
    | Quarantined(batch: seq<Entry>, verdicts: seq<bool>)
    | Requeued(batch: seq<Entry>)

  /** The entries of the batch the store has refused one by one, in order. */
  function Refused(batch: seq<Entry>, verdicts: seq<bool>): seq<Entry> {
    if verdicts == [] || |verdicts| > |batch| then []
    else
      var n := |verdicts| - 1;
      Refused(batch, verdicts[..n]) + if verdicts[n] then [] else [batch[n]]
  }

  /** The entries of the batch not offered one by one yet. */
  function Rest(batch: seq<Entry>, verdicts: seq<bool>): seq<Entry> {
    if |verdicts| > |batch| then [] else batch[|verdicts|..]
  }

  predicate Running(f: Flush) {
    f.Batch? || f.Isolating?
  }

  datatype Sys = Sys(
    cap: nat, batchMode: bool, closed: bool,
    buffer: seq<Entry>,
    pending: map<Entry, LogPhase>,
    flushes: seq<Flush>,
    store: seq<Entry>,
    droppedTotal: nat, quarantinedTotal: nat, afterCloseTotal: nat,
    // history
    logged: set<Entry>,         // every entry a Log call was made for
    dropped: seq<Entry>,        // lost to buffer pressure
    quarantined: seq<Entry>,    // refused by a store that was taking others
    failed: seq<Entry>,         // a synchronous insert the store refused
    bypassed: seq<Entry>,       // critical entries that met a full buffer and went synchronous
    arrivals: map<Entry, nat>,  // position in the order of appends to the buffer
    nextArrival: nat
  )

  /** NewLoggerWithBufferSize. */
  function Init(bufferSize: int, batchMode: bool): (s: Sys)
    ensures s.cap > 0
  {
    Sys(if bufferSize <= 0 then 1000 else bufferSize, batchMode, false, [], map[], [], [],
        0, 0, 0, {}, [], [], [], [], map[], 0)
  }

  datatype Step =
    | BeginLog(e: Entry)
    | TestClosed(e: Entry)
    | LockAppend(e: Entry)
    | CountFull(e: Entry)
    | InsertSync(e: Entry, ok: bool)
    | BeginFlush
    | InsertBatch(i: nat, ok: bool)
    | InsertOne(i: nat, ok: bool)
    | Conclude(i: nat)
    | MarkClosed

  predicate Enabled(s: Sys, t: Step) {
    match t
    case BeginLog(e) => e !in s.logged   // RandomUUID names every entry anew
    case TestClosed(e) => e in s.pending && s.pending[e] == Entered
    case LockAppend(e) => e in s.pending && s.pending[e] == WantsLock
    case CountFull(e) => e in s.pending && s.pending[e] == MetFull
    case InsertSync(e, _) => e in s.pending && s.pending[e] == SyncInsert
    case BeginFlush => true
    case InsertBatch(i, _) => i < |s.flushes| && s.flushes[i].Batch?
    case InsertOne(i, _) => i < |s.flushes| && s.flushes[i].Isolating? && |s.flushes[i].verdicts| < |s.flushes[i].batch|
    case Conclude(i) => i < |s.flushes| && s.flushes[i].Isolating? && |s.flushes[i].verdicts| == |s.flushes[i].batch|
    case MarkClosed => true
  }

  // ------------------------------------------------------------------ steps

  function DoTestClosed(s: Sys, e: Entry): Sys {
    if s.batchMode && !s.closed then s.(pending := s.pending[e := WantsLock])
    else s.(pending := s.pending[e := SyncInsert],
            afterCloseTotal := s.afterCloseTotal + if s.batchMode then 1 else 0)
  }

  function DoLockAppend(s: Sys, e: Entry): Sys {
    if |s.buffer| >= s.cap then s.(pending := s.pending[e := MetFull])
    else s.(pending := s.pending - {e}, buffer := s.buffer + [e],
            arrivals := s.arrivals[e := s.nextArrival], nextArrival := s.nextArrival + 1)
  }

  function DoCountFull(s: Sys, e: Entry): Sys {
    var s' := s.(droppedTotal := s.droppedTotal + 1);
    if e.critical then s'.(pending := s.pending[e := SyncInsert], bypassed := s.bypassed + [e])
    else s'.(pending := s.pending - {e}, dropped := s.dropped + [e])
  }

  function DoInsertSync(s: Sys, e: Entry, ok: bool): Sys {
    var s' := s.(pending := s.pending - {e});
    if ok then s'.(store := s.store + [e]) else s'.(failed := s.failed + [e])
  }

  function DoBeginFlush(s: Sys): Sys {
    if s.buffer == [] then s
    else s.(buffer := [], flushes := s.flushes + [Batch(s.buffer)])
  }

  function DoInsertBatch(s: Sys, i: nat, ok: bool): Sys
    requires Enabled(s, InsertBatch(i, ok))
  {
    var b := s.flushes[i].batch;
    if ok then s.(store := s.store + b, flushes := s.flushes[i := Stored(b)])
    else s.(flushes := s.flushes[i := Isolating(b, [])])
  }

  function DoInsertOne(s: Sys, i: nat, ok: bool): Sys
    requires Enabled(s, InsertOne(i, ok))
  {
    var f := s.flushes[i];
    s.(store := if ok then s.store + [f.batch[|f.verdicts|]] else s.store,
       flushes := s.flushes[i := Isolating(f.batch, f.verdicts + [ok])])
  }

  /** requeue: how many of a rejected batch fit in front of the buffer. */
  function Room(s: Sys, entries: seq<Entry>): (n: nat)
    ensures n <= |entries|
  {
    if s.cap <= |s.buffer| then 0
    else if |entries| > s.cap - |s.buffer| then s.cap - |s.buffer|
    else |entries|
  }

  function DoRequeue(s: Sys, i: nat): Sys
    requires Enabled(s, Conclude(i))
  {
    var f := s.flushes[i];
    var refused := Refused(f.batch, f.verdicts);
    var n := Room(s, refused);
    s.(buffer := refused[..n] + s.buffer,
       dropped := s.dropped + refused[n..],
       droppedTotal := s.droppedTotal + |refused| - n,
       flushes := s.flushes[i := Requeued(f.batch)])
  }

  function DoQuarantine(s: Sys, i: nat): Sys
    requires Enabled(s, Conclude(i))
  {
    var f := s.flushes[i];
    var refused := Refused(f.batch, f.verdicts);
    s.(quarantined := s.quarantined + refused,
       quarantinedTotal := s.quarantinedTotal + |refused|,
       flushes := s.flushes[i := Quarantined(f.batch, f.verdicts)])
  }

  /** The end of isolate: a store that took nothing is down, one that took something is not. */
  function DoConclude(s: Sys, i: nat): Sys
    requires Enabled(s, Conclude(i))
  {
    if true !in s.flushes[i].verdicts then DoRequeue(s, i) else DoQuarantine(s, i)
  }

  function Apply(s: Sys, t: Step): Sys
    requires Enabled(s, t)
  {
    match t
    case BeginLog(e) => s.(logged := s.logged + {e}, pending := s.pending[e := Entered])
    case TestClosed(e) => DoTestClosed(s, e)
    case LockAppend(e) => DoLockAppend(s, e)
    case CountFull(e) => DoCountFull(s, e)
    case InsertSync(e, ok) => DoInsertSync(s, e, ok)
    case BeginFlush => DoBeginFlush(s)
    case InsertBatch(i, ok) => DoInsertBatch(s, i, ok)
    case InsertOne(i, ok) => DoInsertOne(s, i, ok)
    case Conclude(i) => DoConclude(s, i)
    case MarkClosed => s.(closed := true)
  }

  /** s' is reached from s by executing ts in order, each step enabled when taken. */
  ghost predicate Executes(s: Sys, ts: seq<Step>, s': Sys)
    decreases |ts|
  {
    if ts == [] then s' == s
    else Enabled(s, ts[0]) && Executes(Apply(s, ts[0]), ts[1..], s')
  }

  // ------------------------------------------------------------------ conservation

  /** How often e occurs in xs. */
  ghost function Occ(xs: seq<Entry>, e: Entry): nat {
    multiset(xs)[e]
  }

  /** How often e occurs among the entries only this flush holds. */
  ghost function Holds(f: Flush, e: Entry): nat {
    match f
    case Batch(b) => Occ(b, e)
    case Isolating(b, v) => Occ(Refused(b, v), e) + Occ(Rest(b, v), e)
    case _ => 0
  }

  /** How often e occurs in the hands of running flushes. */
  ghost function InFlight(fs: seq<Flush>, e: Entry): nat {
    if fs == [] then 0 else InFlight(fs[..|fs| - 1], e) + Holds(fs[|fs| - 1], e)
  }

  lemma {:induction false} InFlightUpdate(fs: seq<Flush>, i: nat, f: Flush, e: Entry)
    requires i < |fs|
    ensures InFlight(fs[i := f], e) + Holds(fs[i], e) == InFlight(fs, e) + Holds(f, e)
  {
    var n := |fs| - 1;
    if i < n {
      InFlightUpdate(fs[..n], i, f, e);
      assert fs[i := f][..n] == fs[..n][i := f];
    } else {
      assert fs[i := f][..n] == fs[..n];
    }
  }

  lemma InFlightAppend(fs: seq<Flush>, f: Flush, e: Entry)
    ensures InFlight(fs + [f], e) == InFlight(fs, e) + Holds(f, e)
  {
    assert (fs + [f])[..|fs|] == fs;
  }

  /** How many places hold e, counting repetitions. */
  ghost function Places(s: Sys, e: Entry): nat {
    (if e in s.pending then 1 else 0) + Occ(s.buffer, e) + InFlight(s.flushes, e) + Occ(s.store, e)
    + Occ(s.dropped, e) + Occ(s.quarantined, e) + Occ(s.failed, e)
  }

  ghost predicate Conserved(s: Sys) {
    forall e :: Places(s, e) == if e in s.logged then 1 else 0
  }

  lemma LockAppendKeepsPlaces(s: Sys, x: Entry, e: Entry)
    requires Enabled(s, LockAppend(x))
    ensures Places(DoLockAppend(s, x), e) == Places(s, e)
  {
  }

  lemma CountFullKeepsPlaces(s: Sys, x: Entry, e: Entry)
    requires Enabled(s, CountFull(x))
    ensures Places(DoCountFull(s, x), e) == Places(s, e)
  {
  }

  lemma InsertSyncKeepsPlaces(s: Sys, x: Entry, ok: bool, e: Entry)
    requires Enabled(s, InsertSync(x, ok))
    ensures Places(DoInsertSync(s, x, ok), e) == Places(s, e)
  {
  }

  lemma BeginFlushKeepsPlaces(s: Sys, e: Entry)
    ensures Places(DoBeginFlush(s), e) == Places(s, e)
  {
    if s.buffer != [] {
      InFlightAppend(s.flushes, Batch(s.buffer), e);
    }
  }

  lemma InsertBatchKeepsPlaces(s: Sys, i: nat, ok: bool, e: Entry)
    requires Enabled(s, InsertBatch(i, ok))
    ensures Places(DoInsertBatch(s, i, ok), e) == Places(s, e)
  {
    InFlightUpdate(s.flushes, i, DoInsertBatch(s, i, ok).flushes[i], e);
  }

  lemma OfferOne(b: seq<Entry>, v: seq<bool>, ok: bool, e: Entry)
    requires |v| < |b|
    ensures Holds(Isolating(b, v), e) == Holds(Isolating(b, v + [ok]), e) + if ok && b[|v|] == e then 1 else 0
  {
    var v' := v + [ok];
    assert v'[..|v|] == v;
    assert Rest(b, v) == [b[|v|]] + Rest(b, v');
  }

  lemma InsertOneKeepsPlaces(s: Sys, i: nat, ok: bool, e: Entry)
    requires Enabled(s, InsertOne(i, ok))
    ensures Places(DoInsertOne(s, i, ok), e) == Places(s, e)
  {
    var f := s.flushes[i];
    OfferOne(f.batch, f.verdicts, ok, e);
    InFlightUpdate(s.flushes, i, DoInsertOne(s, i, ok).flushes[i], e);
  }

  lemma RequeueSplit(refused: seq<Entry>, buffer: seq<Entry>, dropped: seq<Entry>, n: nat, e: Entry)
    requires n <= |refused|
    ensures Occ(refused[..n] + buffer, e) + Occ(dropped + refused[n..], e)
         == Occ(refused, e) + Occ(buffer, e) + Occ(dropped, e)
  {
    assert refused == refused[..n] + refused[n..];
  }

  lemma RequeueKeepsPlaces(s: Sys, i: nat, e: Entry)
    requires Enabled(s, Conclude(i))
    ensures Places(DoRequeue(s, i), e) == Places(s, e)
  {
    var f := s.flushes[i];
    var refused := Refused(f.batch, f.verdicts);
    RequeueSplit(refused, s.buffer, s.dropped, Room(s, refused), e);
    InFlightUpdate(s.flushes, i, Requeued(f.batch), e);
  }

  lemma QuarantineKeepsPlaces(s: Sys, i: nat, e: Entry)
    requires Enabled(s, Conclude(i))
    ensures Places(DoQuarantine(s, i), e) == Places(s, e)
  {
    var f := s.flushes[i];
    InFlightUpdate(s.flushes, i, Quarantined(f.batch, f.verdicts), e);
  }

  /** No step but the start of a Log call changes how many places hold an entry. */
  lemma StepKeepsPlaces(s: Sys, t: Step, e: Entry)
    requires Enabled(s, t) && !t.BeginLog?
    ensures Places(Apply(s, t), e) == Places(s, e)
  {
    match t
    case TestClosed(_) =>
    case MarkClosed =>
    case LockAppend(x) => LockAppendKeepsPlaces(s, x, e);
    case CountFull(x) => CountFullKeepsPlaces(s, x, e);
    case InsertSync(x, ok) => InsertSyncKeepsPlaces(s, x, ok, e);
    case BeginFlush => BeginFlushKeepsPlaces(s, e);
    case InsertBatch(i, ok) => InsertBatchKeepsPlaces(s, i, ok, e);
    case InsertOne(i, ok) => InsertOneKeepsPlaces(s, i, ok, e);
    case Conclude(i) => RequeueKeepsPlaces(s, i, e); QuarantineKeepsPlaces(s, i, e);
  }

  lemma StepConserves(s: Sys, t: Step)
    requires Conserved(s) && Enabled(s, t)
    ensures Conserved(Apply(s, t))
  {
    forall e ensures Places(Apply(s, t), e) == if e in Apply(s, t).logged then 1 else 0 {
      assert Places(s, e) == if e in s.logged then 1 else 0;
      if !t.BeginLog? {
        StepKeepsPlaces(s, t, e);
      }
    }
  }

  // ------------------------------------------------------------------ counters and flush records

  /** What one flush record says is true of the rest of the state. */
  ghost predicate FlushInv(s: Sys, f: Flush) {
    0 < |f.batch| <= s.cap &&
    match f
    case Batch(_) => true
    case Stored(b) => forall j :: 0 <= j < |b| ==> b[j] in s.store
    case Requeued(_) => true
    case Isolating(b, v) => |v| <= |b| && forall j :: 0 <= j < |v| && v[j] ==> b[j] in s.store
    case Quarantined(b, v) =>
      && |v| == |b| && true in v
      && forall j :: 0 <= j < |v| ==> if v[j] then b[j] in s.store else b[j] in s.quarantined
  }

  ghost predicate TotalsInv(s: Sys) {
    && s.cap > 0 && |s.buffer| <= s.cap
    && s.droppedTotal == |s.dropped| + |s.bypassed|
    && s.quarantinedTotal == |s.quarantined|
    && (forall i :: 0 <= i < |s.bypassed| ==> s.bypassed[i].critical)
  }

  /** Immediate mode never buffers, so it never flushes and never counts a late write. */
  ghost predicate ModeInv(s: Sys) {
    !s.batchMode ==>
      && s.buffer == [] && s.flushes == [] && s.afterCloseTotal == 0
      && forall e :: e in s.pending ==> s.pending[e] == Entered || s.pending[e] == SyncInsert
  }

  ghost predicate CountersInv(s: Sys) {
    TotalsInv(s) && ModeInv(s)
  }

  ghost predicate RecordsInv(s: Sys) {
    forall i :: 0 <= i < |s.flushes| ==> FlushInv(s, s.flushes[i])
  }

  ghost predicate Inv(s: Sys) {
    Conserved(s) && CountersInv(s) && RecordsInv(s)
  }

  /** Nothing leaves the store or quarantine, so what a record says stays true. */
  lemma FlushInvMonotone(s: Sys, s': Sys, f: Flush)
    requires FlushInv(s, f) && s'.cap == s.cap && s.store <= s'.store && s.quarantined <= s'.quarantined
    ensures FlushInv(s', f)
  {
    assert forall e :: e in s.store ==> e in s'.store;
    assert forall e :: e in s.quarantined ==> e in s'.quarantined;
  }

  lemma StepOnlyGrows(s: Sys, t: Step)
    requires Enabled(s, t)
    ensures var s' := Apply(s, t); s'.cap == s.cap && s.store <= s'.store && s.quarantined <= s'.quarantined
  {
    match t
    case Conclude(i) => assert DoConclude(s, i) == DoRequeue(s, i) || DoConclude(s, i) == DoQuarantine(s, i);
    case _ =>
  }

  lemma {:induction false} RefusedAt(b: seq<Entry>, v: seq<bool>, j: nat)
    requires j < |v| <= |b| && !v[j]
    ensures b[j] in Refused(b, v)
  {
    if j < |v| - 1 {
      RefusedAt(b, v[..|v| - 1], j);
    }
  }

  lemma {:induction false} NoneTaken(b: seq<Entry>, v: seq<bool>)
    requires |v| <= |b| && true !in v
    ensures Refused(b, v) == b[..|v|]
  {
    if v != [] {
      var n := |v| - 1;
      assert forall x :: x in v[..n] ==> x in v;
      assert v[n] in v;
      NoneTaken(b, v[..n]);
    }
  }

  lemma ConcludeKeepsRecord(s: Sys, i: nat)
    requires Enabled(s, Conclude(i)) && FlushInv(s, s.flushes[i])
    ensures FlushInv(DoConclude(s, i), DoConclude(s, i).flushes[i])
  {
    var f := s.flushes[i];
    forall j | 0 <= j < |f.verdicts| && !f.verdicts[j] ensures f.batch[j] in Refused(f.batch, f.verdicts) {
      RefusedAt(f.batch, f.verdicts, j);
    }
  }

  /** The one record a step touches satisfies its own invariant afterwards. */
  lemma TouchedRecord(s: Sys, t: Step, j: nat)
    requires CountersInv(s) && RecordsInv(s) && Enabled(s, t)
    requires j < |Apply(s, t).flushes| && (j >= |s.flushes| || Apply(s, t).flushes[j] != s.flushes[j])
    ensures FlushInv(Apply(s, t), Apply(s, t).flushes[j])
  {
    match t
    case InsertOne(i, ok) => assert FlushInv(s, s.flushes[i]);
    case Conclude(i) => ConcludeKeepsRecord(s, i);
    case InsertBatch(i, _) => assert FlushInv(s, s.flushes[i]);
    case _ =>
  }

  lemma StepKeepsRecords(s: Sys, t: Step)
    requires CountersInv(s) && RecordsInv(s) && Enabled(s, t)
    ensures RecordsInv(Apply(s, t))
  {
    var s' := Apply(s, t);
    StepOnlyGrows(s, t);
    forall j | 0 <= j < |s'.flushes| ensures FlushInv(s', s'.flushes[j]) {
      if j < |s.flushes| && s'.flushes[j] == s.flushes[j] {
        FlushInvMonotone(s, s', s.flushes[j]);
      } else {
        TouchedRecord(s, t, j);
      }
    }
  }

  lemma ConcludeKeepsTotals(s: Sys, i: nat)
    requires TotalsInv(s) && Enabled(s, Conclude(i))
    ensures TotalsInv(DoConclude(s, i))
  {
  }

  lemma StepKeepsTotals(s: Sys, t: Step)
    requires TotalsInv(s) && Enabled(s, t)
    ensures TotalsInv(Apply(s, t))
  {
    match t
    case Conclude(i) => ConcludeKeepsTotals(s, i);
    case CountFull(e) => assert TotalsInv(DoCountFull(s, e));
    case LockAppend(e) => assert TotalsInv(DoLockAppend(s, e));
    case _ =>
  }

  lemma StepKeepsMode(s: Sys, t: Step)
    requires ModeInv(s) && Enabled(s, t)
    ensures ModeInv(Apply(s, t))
  {
  }

  lemma StepKeepsInv(s: Sys, t: Step)
    requires Inv(s) && Enabled(s, t)
    ensures Inv(Apply(s, t))
  {
    StepConserves(s, t);
    StepKeepsTotals(s, t);
    StepKeepsMode(s, t);
    StepKeepsRecords(s, t);
  }

  lemma {:induction false} RunKeepsInv(s: Sys, ts: seq<Step>, s': Sys)
    requires Inv(s) && Executes(s, ts, s')
    ensures Inv(s')
    decreases |ts|
  {
    if ts != [] {
      StepKeepsInv(s, ts[0]);
      RunKeepsInv(Apply(s, ts[0]), ts[1..], s');
    }
  }

  ghost predicate Reachable(s: Sys) {
    exists bufferSize, batchMode, ts :: Executes(Init(bufferSize, batchMode), ts, s)
  }

  lemma ReachableInv(s: Sys)
    requires Reachable(s)
    ensures Inv(s)
  {
    var bufferSize, batchMode, ts :| Executes(Init(bufferSize, batchMode), ts, s);
    RunKeepsInv(Init(bufferSize, batchMode), ts, s);
  }

  // ------------------------------------------------------------------ what every run guarantees

  datatype Place = InCall | InBuffer | InFlush | InStore | WasDropped | WasQuarantined | WasFailed

  ghost predicate IsAt(s: Sys, e: Entry, p: Place) {
    match p
    case InCall => e in s.pending
    case InBuffer => e in s.buffer
    case InFlush => exists i :: 0 <= i < |s.flushes| && Holds(s.flushes[i], e) > 0
    case InStore => e in s.store
    case WasDropped => e in s.dropped
    case WasQuarantined => e in s.quarantined
    case WasFailed => e in s.failed
  }

  lemma {:induction false} InFlightAtLeast(fs: seq<Flush>, i: nat, e: Entry)
    requires i < |fs|
    ensures InFlight(fs, e) >= Holds(fs[i], e)
  {
    if i < |fs| - 1 {
      InFlightAtLeast(fs[..|fs| - 1], i, e);
    }
  }

  lemma {:induction false} InFlightWitness(fs: seq<Flush>, e: Entry) returns (i: nat)
    requires InFlight(fs, e) > 0
    ensures i < |fs| && Holds(fs[i], e) > 0
  {
    i := |fs| - 1;
    if Holds(fs[i], e) == 0 {
      i := InFlightWitness(fs[..i], e);
    }
  }

  lemma InFlightPositive(s: Sys, e: Entry)
    ensures InFlight(s.flushes, e) > 0 <==> IsAt(s, e, InFlush)
  {
    if InFlight(s.flushes, e) > 0 {
      var i := InFlightWitness(s.flushes, e);
    }
    if IsAt(s, e, InFlush) {
      var i :| 0 <= i < |s.flushes| && Holds(s.flushes[i], e) > 0;
      InFlightAtLeast(s.flushes, i, e);
    }
  }

  /** In every reachable state each logged entry is in exactly one place, and stored at most once. */
  lemma ExactlyOnePlace(s: Sys, e: Entry)
    requires Reachable(s)
    ensures e in s.logged ==> exists p :: IsAt(s, e, p)
    ensures forall p, q :: IsAt(s, e, p) && IsAt(s, e, q) ==> p == q
    ensures e !in s.logged ==> forall p :: !IsAt(s, e, p)
    ensures multiset(s.store)[e] <= 1
  {
    ReachableInv(s);
    InFlightPositive(s, e);
    assert Places(s, e) == if e in s.logged then 1 else 0;
    if e in s.logged {
      assert IsAt(s, e, InCall) || IsAt(s, e, InBuffer) || IsAt(s, e, InFlush) || IsAt(s, e, InStore)
          || IsAt(s, e, WasDropped) || IsAt(s, e, WasQuarantined) || IsAt(s, e, WasFailed);
    }
  }

  /** The buffer stays within its cap; DroppedTotal less the critical entries that went synchronous is the true loss. */
  lemma TotalsAreHonest(s: Sys)
    requires Reachable(s)
    ensures |s.buffer| <= s.cap
    ensures s.droppedTotal - |s.bypassed| == |s.dropped|
    ensures s.quarantinedTotal == |s.quarantined|
    ensures forall i :: 0 <= i < |s.bypassed| ==> s.bypassed[i].critical
  {
    ReachableInv(s);
  }

  /** A poisoned batch cannot wedge the log: once the store took one of its entries, each entry the store
      accepted is stored, each it refused is quarantined, and none is buffered or in any flush, then or later. */
  lemma PoisonCannotWedge(s: Sys, i: nat, j: nat)
    requires Reachable(s) && i < |s.flushes| && s.flushes[i].Quarantined? && j < |s.flushes[i].batch|
    ensures |s.flushes[i].verdicts| == |s.flushes[i].batch| && true in s.flushes[i].verdicts
    ensures s.flushes[i].batch[j] in if s.flushes[i].verdicts[j] then s.store else s.quarantined
    ensures !IsAt(s, s.flushes[i].batch[j], InBuffer) && !IsAt(s, s.flushes[i].batch[j], InFlush)
  {
    ReachableInv(s);
    var e := s.flushes[i].batch[j];
    assert FlushInv(s, s.flushes[i]);
    assert IsAt(s, e, if s.flushes[i].verdicts[j] then InStore else WasQuarantined);
    ExactlyOnePlace(s, e);
  }

  /** Records are permanent, which is what carries PoisonCannotWedge to every later state. */
  lemma {:induction false} RecordsPersist(s: Sys, ts: seq<Step>, s': Sys, i: nat)
    requires Executes(s, ts, s') && i < |s.flushes| && !Running(s.flushes[i])
    ensures i < |s'.flushes| && s'.flushes[i] == s.flushes[i]
    decreases |ts|
  {
    if ts != [] {
      RecordsPersist(Apply(s, ts[0]), ts[1..], s', i);
    }
  }

  lemma {:induction false} ExecutesAppend(s: Sys, ts: seq<Step>, mid: Sys, us: seq<Step>, s': Sys)
    requires Executes(s, ts, mid) && Executes(mid, us, s')
    ensures Executes(s, ts + us, s')
    decreases |ts|
  {
    if ts == [] {
      assert ts + us == us;
    } else {
      assert (ts + us)[1..] == ts[1..] + us;
      ExecutesAppend(Apply(s, ts[0]), ts[1..], mid, us, s');
    }
  }

  lemma ReachableOnward(s: Sys, ts: seq<Step>, s': Sys)
    requires Reachable(s) && Executes(s, ts, s')
    ensures Reachable(s')
  {
    var bufferSize, batchMode, us :| Executes(Init(bufferSize, batchMode), us, s);
    ExecutesAppend(Init(bufferSize, batchMode), us, s, ts, s');
  }

  /** No entry of a quarantined batch is ever retried, whatever happens next. */
  lemma NeverRetried(s: Sys, i: nat, j: nat, ts: seq<Step>, s': Sys)
    requires Reachable(s) && i < |s.flushes| && s.flushes[i].Quarantined? && j < |s.flushes[i].batch|
    requires Executes(s, ts, s')
    ensures !IsAt(s', s.flushes[i].batch[j], InBuffer) && !IsAt(s', s.flushes[i].batch[j], InFlush)
  {
    ReachableOnward(s, ts, s');
    RecordsPersist(s, ts, s', i);
    PoisonCannotWedge(s', i, j);
  }

  lemma {:induction false} ExecutesSnoc(s: Sys, ts: seq<Step>, mid: Sys, t: Step)
    requires Executes(s, ts, mid) && Enabled(mid, t)
    ensures Executes(s, ts + [t], Apply(mid, t))
  {
    assert [t][1..] == [];
    ExecutesAppend(s, ts, mid, [t], Apply(mid, t));
  }
}
