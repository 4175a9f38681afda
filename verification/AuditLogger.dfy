/**
 The Logger object itself: its fields, its methods and the loop of isolate, run against a store
 whose answers are arbitrary. `sys` is the state of the `AuditLog` machine these fields
 implement; every method is proved to be a run of that machine from the old state to the new,
 so the guarantees proved of all interleavings hold of every call.
 */
module AuditLogger {
  import opened AuditLog

  /** Answer n of those an oracle holds; past its end every call fails. */
  function Nth(oracle: seq<bool>, n: nat): bool {
    n < |oracle| && oracle[n]
  }

  /** The oracle after n answers. */
  function Drop(oracle: seq<bool>, n: nat): seq<bool> {
    if n <= |oracle| then oracle[n..] else []
  }

  lemma DropNext(oracle: seq<bool>, n: nat)
    ensures Nth(Drop(oracle, n), 0) == Nth(oracle, n) && Drop(Drop(oracle, n), 1) == Drop(oracle, n + 1)
  {
  }

  /** The repository: the answers it gives are whatever the oracle holds. */
  class Store {
    var rows: seq<Entry>
    var oracle: seq<bool>

    constructor (answers: seq<bool>)
      ensures rows == [] && oracle == answers
    {
      rows, oracle := [], answers;
    }

    method Answer() returns (ok: bool)
      modifies this`oracle
      ensures ok == Nth(old(oracle), 0) && oracle == Drop(old(oracle), 1)
    {
      if oracle == [] {
        return false;
      }
      ok, oracle := oracle[0], oracle[1..];
    }

    method Insert(e: Entry) returns (ok: bool)
      modifies this
      ensures ok == Nth(old(oracle), 0) && oracle == Drop(old(oracle), 1)
      ensures rows == if ok then old(rows) + [e] else old(rows)
    {
      ok := Answer();
      if ok {
        rows := rows + [e];
      }
    }

    /** One transaction: all rows or none. */
    method InsertBatch(es: seq<Entry>) returns (ok: bool)
      modifies this
      ensures ok == Nth(old(oracle), 0) && oracle == Drop(old(oracle), 1)
      ensures rows == if ok then old(rows) + es else old(rows)
    {
      ok := Answer();
      if ok {
        rows := rows + es;
      }
    }
  }

  /** The entries of the batch the store has taken one by one, in order. */
  function Taken(batch: seq<Entry>, verdicts: seq<bool>): seq<Entry> {
    if verdicts == [] || |verdicts| > |batch| then []
    else
      var n := |verdicts| - 1;
      Taken(batch, verdicts[..n]) + if verdicts[n] then [batch[n]] else []
  }

  /** What Log owes its caller, by mode, closed flag, fullness and criticality. */
  ghost predicate Logged(s: Sys, s': Sys, e: Entry, err: bool) {
    && s'.logged == s.logged + {e} && s'.flushes == s.flushes && e !in s'.pending && s'.closed == s.closed
    && if s.batchMode && !s.closed then
         && !err && s'.afterCloseTotal == s.afterCloseTotal
         && if |s.buffer| < s.cap then
              s'.buffer == s.buffer + [e] && s'.store == s.store && s'.droppedTotal == s.droppedTotal
            else
              && s'.buffer == s.buffer && s'.droppedTotal == s.droppedTotal + 1
              && if !e.critical then s'.store == s.store && s'.dropped == s.dropped + [e]
                 else s'.store == s.store + [e] || (s'.store == s.store && s'.failed == s.failed + [e])
       else
         && s'.buffer == s.buffer && s'.droppedTotal == s.droppedTotal
         && s'.store == (if err then s.store else s.store + [e])
         && s'.failed == (if err then s.failed + [e] else s.failed)
         && s'.afterCloseTotal == s.afterCloseTotal + if s.batchMode then 1 else 0
  }

  /** What Flush leaves: nothing to do, or the old buffer stored, quarantined or back where it was. */
  ghost predicate Flushed(s: Sys, s': Sys, err: bool) {
    var i := |s.flushes|;
    if s.buffer == [] then !err && s'.buffer == [] && s'.store == s.store
    else
      && |s'.flushes| == i + 1 && s'.flushes[i].batch == s.buffer
      && if !err then s'.flushes[i].Stored? && s'.buffer == [] && s'.store == s.store + s.buffer
         else if s'.flushes[i].Quarantined? then
           var v := s'.flushes[i].verdicts;
           && true in v && |v| == |s.buffer| && s'.buffer == [] && s'.droppedTotal == s.droppedTotal
           && s'.store == s.store + Taken(s.buffer, v)
           && s'.quarantinedTotal == s.quarantinedTotal + |Refused(s.buffer, v)|
         else s'.flushes[i].Requeued? && s'.buffer == s.buffer && s'.store == s.store
  }

  /** A batch of n refused as a whole ends by the answers to its entries: given up if one was taken, kept if none. */
  ghost predicate Decides(f: Flush, n: nat, answers: seq<bool>) {
    && (f.Quarantined? <==> exists k :: 0 <= k < n && Nth(answers, k))
    && (f.Requeued? <==> forall k :: 0 <= k < n ==> !Nth(answers, k))
    && (f.Quarantined? ==> |f.verdicts| == n && forall k :: 0 <= k < n ==> f.verdicts[k] == Nth(answers, k))
  }

  /** s0 after its flush i has offered the entries v answers for. */
  ghost function Offered(s0: Sys, i: nat, entries: seq<Entry>, v: seq<bool>): Sys
    requires i < |s0.flushes|
  {
    s0.(store := s0.store + Taken(entries, v), flushes := s0.flushes[i := Isolating(entries, v)])
  }

  lemma VerdictStep(entries: seq<Entry>, v: seq<bool>, ok: bool)
    requires |v| < |entries|
    ensures Refused(entries, v + [ok]) == Refused(entries, v) + if ok then [] else [entries[|v|]]
    ensures Taken(entries, v + [ok]) == Taken(entries, v) + if ok then [entries[|v|]] else []
  {
    assert (v + [ok])[..|v|] == v;
  }

  lemma OfferStep(s0: Sys, i: nat, entries: seq<Entry>, v: seq<bool>, ok: bool)
    requires i < |s0.flushes| && |v| < |entries|
    ensures var s := Offered(s0, i, entries, v);
      Enabled(s, InsertOne(i, ok)) && DoInsertOne(s, i, ok) == Offered(s0, i, entries, v + [ok])
  {
    VerdictStep(entries, v, ok);
    var one := if ok then [entries[|v|]] else [];
    assert s0.store + Taken(entries, v) + one == s0.store + (Taken(entries, v) + one);
  }

  lemma {:induction false} NothingTaken(b: seq<Entry>, v: seq<bool>)
    requires |v| <= |b| && true !in v
    ensures Taken(b, v) == []
  {
    if v != [] {
      var n := |v| - 1;
      assert forall x :: x in v[..n] ==> x in v;
      assert v[n] in v;
      NothingTaken(b, v[..n]);
    }
  }

  class Logger {
    const repo: Store
    const bufferSize: nat
    const batchMode: bool
    var closed: bool
    var buffer: seq<Entry>
    var droppedTotal: nat
    var quarantinedTotal: nat
    var afterCloseTotal: nat
    ghost var sys: Sys
    ghost var history: seq<Step>

    /** The fields are the machine's. */
    ghost predicate Matches()
      reads this, repo
    {
      && sys.cap == bufferSize && sys.batchMode == batchMode && sys.closed == closed
      && sys.buffer == buffer && sys.store == repo.rows
      && sys.droppedTotal == droppedTotal && sys.quarantinedTotal == quarantinedTotal
      && sys.afterCloseTotal == afterCloseTotal
    }

    /** ... and its state was reached by the steps taken so far. */
    ghost predicate Valid()
      reads this, repo
    {
      Matches() && bufferSize > 0 && Executes(Init(bufferSize, batchMode), history, sys)
    }

    constructor (store: Store, size: int, batchMode: bool)
      requires store.rows == []
      ensures Valid() && fresh(this) && repo == store && this.batchMode == batchMode
      ensures bufferSize == if size <= 0 then 1000 else size
      ensures history == [] && buffer == [] && !closed
    {
      repo := store;
      bufferSize := if size <= 0 then 1000 else size;
      this.batchMode := batchMode;
      closed, buffer := false, [];
      droppedTotal, quarantinedTotal, afterCloseTotal := 0, 0, 0;
      sys := Init(size, batchMode);
      history := [];
    }

    /** Advances the machine by one step. */
    ghost method Take(t: Step)
      requires Enabled(sys, t) && bufferSize > 0 && Executes(Init(bufferSize, batchMode), history, sys)
      modifies this`sys, this`history
      ensures sys == Apply(old(sys), t) && history == old(history) + [t]
      ensures Executes(Init(bufferSize, batchMode), history, sys)
    {
      ExecutesSnoc(Init(bufferSize, batchMode), history, sys, t);
      history := history + [t];
      sys := Apply(sys, t);
    }

    /** A logger's state is a reachable state of the machine, so every theorem about those applies to it. */
    lemma ValidIsReachable()
      requires Valid()
      ensures Reachable(sys)
    {
    }

    lemma WithinCap()
      requires Valid()
      ensures |buffer| <= bufferSize
    {
      ValidIsReachable();
      TotalsAreHonest(sys);
    }

    /** The synchronous insert that ends a Log call. */
    method InsertNow(e: Entry) returns (ok: bool)
      requires Valid() && e in sys.pending && sys.pending[e] == SyncInsert
      modifies this`sys, this`history, repo
      ensures Valid() && sys == DoInsertSync(old(sys), e, ok) && old(history) <= history
      ensures ok == Nth(old(repo.oracle), 0)
    {
      ok := repo.Insert(e);
      Take(InsertSync(e, ok));
    }

    /** The part of Log under the buffer lock, and what follows a full buffer. */
    method LogBuffered(e: Entry) returns (ghost ok: bool)
      requires Valid() && e in sys.pending && sys.pending[e] == WantsLock
      modifies this, repo
      ensures Valid() && old(history) <= history
      ensures |old(buffer)| >= bufferSize && e.critical ==> ok == Nth(old(repo.oracle), 0)
      ensures var s0 := old(sys);
        if |s0.buffer| < bufferSize then sys == DoLockAppend(s0, e)
        else if !e.critical then sys == DoCountFull(DoLockAppend(s0, e), e)
        else sys == DoInsertSync(DoCountFull(DoLockAppend(s0, e), e), e, ok)
    {
      ok := true;
      Take(LockAppend(e));
      if |buffer| >= bufferSize {
        droppedTotal := droppedTotal + 1;
        Take(CountFull(e));
        if e.critical {
          var written := InsertNow(e);
          ok := written;
        }
      } else {
        buffer := buffer + [e];
      }
    }

    /** Log for an entry already built: err is the error the caller gets. */
    method LogEntry(e: Entry) returns (err: bool)
      requires Valid() && e !in sys.logged
      modifies this, repo
      ensures Valid() && old(history) <= history
      ensures Logged(old(sys), sys, e, err)
      ensures err <==> (!batchMode || old(closed)) && !Nth(old(repo.oracle), 0)
      ensures batchMode && !old(closed) && |old(buffer)| >= bufferSize && e.critical ==>
        repo.rows == old(repo.rows) + if Nth(old(repo.oracle), 0) then [e] else []
    {
      err := false;
      Take(BeginLog(e));
      Take(TestClosed(e));
      if batchMode && !closed {
        ghost var ok := LogBuffered(e);
      } else {
        if batchMode {
          afterCloseTotal := afterCloseTotal + 1;
        }
        var ok := InsertNow(e);
        err := !ok;
      }
    }

    method Log(id: nat, eventType: string) returns (err: bool, ghost e: Entry)
      requires Valid() && forall x :: x in sys.logged ==> x.id != id
      modifies this, repo
      ensures Valid() && old(history) <= history
      ensures e == Entry(id, eventType, IsCriticalEvent(eventType)) && Logged(old(sys), sys, e, err)
      ensures err <==> (!batchMode || old(closed)) && !Nth(old(repo.oracle), 0)
      ensures e.critical <==>
        || (|eventType| >= 7 && eventType[..7] == "svcdoc_")
        || eventType == "login_failure" || eventType == "password_change" || eventType == "password_reset"
        || eventType == "token_revoke" || eventType == "admin_action" || eventType == "kms_unwrap"
        || eventType == "token_minted" || eventType == "honeypot_trigger" || eventType == "admin_authz_denied"
        || eventType == "admin_session_rejected" || eventType == "authenticator_cloned"
        || eventType == "refresh_token_replayed"
    {
      var entry := Entry(id, eventType, IsCriticalEvent(eventType));
      e := entry;
      err := LogEntry(entry);
    }

    /** requeue: puts what fits of a rejected batch back at the front of the buffer. */
    method Requeue(entries: seq<Entry>, ghost i: nat) returns (ghost kept: nat)
      requires Valid() && i < |sys.flushes| && sys.flushes[i].Isolating? && sys.flushes[i].batch == entries
      requires |sys.flushes[i].verdicts| == |entries| && true !in sys.flushes[i].verdicts
      modifies this`buffer, this`droppedTotal, this`sys, this`history
      ensures Valid() && old(history) <= history
      ensures sys.flushes == old(sys).flushes[i := Requeued(entries)]
      ensures kept <= |entries| && (kept < |entries| ==> |buffer| == bufferSize)
      ensures buffer == entries[..kept] + old(buffer) && droppedTotal == old(droppedTotal) + |entries| - kept
    {
      WithinCap();
      NoneTaken(entries, sys.flushes[i].verdicts);
      assert entries[..|entries|] == entries;
      kept := Room(sys, entries);
      Take(Conclude(i));
      var room := bufferSize - |buffer|;
      if room <= 0 {
        droppedTotal := droppedTotal + |entries|;
        assert entries[..0] + buffer == buffer;
        return;
      }
      var fitting := entries;
      if |entries| > room {
        droppedTotal := droppedTotal + |entries| - room;
        fitting := entries[..room];
      }
      buffer := fitting + buffer;
    }

    /** quarantine: gives up the entries a working store refused. */
    method Quarantine(refused: seq<Entry>, ghost i: nat)
      requires Valid() && i < |sys.flushes| && sys.flushes[i].Isolating? && true in sys.flushes[i].verdicts
      requires |sys.flushes[i].verdicts| == |sys.flushes[i].batch|
      requires refused == Refused(sys.flushes[i].batch, sys.flushes[i].verdicts)
      modifies this`quarantinedTotal, this`sys, this`history
      ensures Valid() && old(history) <= history && quarantinedTotal == old(quarantinedTotal) + |refused|
      ensures sys.flushes == old(sys).flushes[i := Quarantined(old(sys).flushes[i].batch, old(sys).flushes[i].verdicts)]
    {
      Take(Conclude(i));
      quarantinedTotal := quarantinedTotal + |refused|;
    }

    /** One entry of a rejected batch, on its own. */
    method OfferOne(entries: seq<Entry>, k: nat, ghost i: nat, ghost s0: Sys, ghost v: seq<bool>) returns (ok: bool)
      requires Valid() && i < |s0.flushes| && k == |v| < |entries| && sys == Offered(s0, i, entries, v)
      modifies this`sys, this`history, repo
      ensures Valid() && old(history) <= history && sys == Offered(s0, i, entries, v + [ok])
      ensures ok == Nth(old(repo.oracle), 0) && repo.oracle == Drop(old(repo.oracle), 1)
    {
      ok := repo.Insert(entries[k]);
      OfferStep(s0, i, entries, v, ok);
      Take(InsertOne(i, ok));
    }

    /** The loop of isolate: offers each entry of the batch on its own and collects the refused. */
    method OfferEach(entries: seq<Entry>, ghost i: nat) returns (accepted: nat, refused: seq<Entry>, ghost v: seq<bool>)
      requires Valid() && i < |sys.flushes| && sys.flushes[i] == Isolating(entries, [])
      modifies this`sys, this`history, repo
      ensures Valid() && old(history) <= history && |v| == |entries|
      ensures sys == Offered(old(sys), i, entries, v)
      ensures refused == Refused(entries, v) && (accepted == 0 <==> true !in v)
      ensures forall k :: 0 <= k < |v| ==> v[k] == Nth(old(repo.oracle), k)
    {
      accepted, refused, v := 0, [], [];
      ghost var s0 := sys;
      assert s0 == Offered(s0, i, entries, v);
      for k := 0 to |entries|
        invariant Valid() && old(history) <= history && |v| == k
        invariant sys == Offered(s0, i, entries, v)
        invariant refused == Refused(entries, v) && (accepted == 0 <==> true !in v)
        invariant repo.oracle == Drop(old(repo.oracle), k)
        invariant forall j :: 0 <= j < k ==> v[j] == Nth(old(repo.oracle), j)
      {
        DropNext(old(repo.oracle), k);
        var ok := OfferOne(entries, k, i, s0, v);
        VerdictStep(entries, v, ok);
        v := v + [ok];
        if !ok {
          refused := refused + [entries[k]];
        } else {
          accepted := accepted + 1;
        }
      }
    }

    /** isolate: a store that took nothing is down and gets the batch again; one that took something is not. */
    method Isolate(entries: seq<Entry>, ghost i: nat) returns (ghost v: seq<bool>, ghost kept: nat)
      requires Valid() && i < |sys.flushes| && sys.flushes[i] == Isolating(entries, [])
      modifies this, repo
      ensures Valid() && old(history) <= history && |v| == |entries| && closed == old(closed)
      ensures forall k :: 0 <= k < |v| ==> v[k] == Nth(old(repo.oracle), k)
      ensures |sys.flushes| == |old(sys).flushes|
      ensures sys.flushes[i] == if true in v then Quarantined(entries, v) else Requeued(entries)
      ensures true in v ==>
        && buffer == old(buffer) && droppedTotal == old(droppedTotal)
        && repo.rows == old(repo.rows) + Taken(entries, v)
        && quarantinedTotal == old(quarantinedTotal) + |Refused(entries, v)|
      ensures true !in v ==>
        && repo.rows == old(repo.rows) && kept <= |entries|
        && buffer == entries[..kept] + old(buffer) && droppedTotal == old(droppedTotal) + |entries| - kept
        && (kept < |entries| ==> |buffer| == bufferSize)
    {
      var accepted, refused;
      accepted, refused, v := OfferEach(entries, i);
      kept := 0;
      if accepted == 0 {
        NothingTaken(entries, v);
        NoneTaken(entries, v);
        assert entries[..|entries|] == entries;
        kept := Requeue(refused, i);
      } else {
        Quarantine(refused, i);
      }
    }

    /** The critical section of Flush: empties the buffer into a batch of its own. */
    method TakeBuffer() returns (entries: seq<Entry>)
      requires Valid()
      modifies this`buffer, this`sys, this`history
      ensures Valid() && old(history) <= history && |entries| <= bufferSize
      ensures entries == old(buffer) && buffer == []
      ensures sys == DoBeginFlush(old(sys))
    {
      WithinCap();
      entries := buffer;
      Take(BeginFlush);
      buffer := [];
    }

    /** Flush, with no other call in between. */
    method Flush() returns (err: bool)
      requires Valid()
      modifies this, repo
      ensures Valid() && old(history) <= history && closed == old(closed) && Flushed(old(sys), sys, err)
      ensures err <==> old(buffer) != [] && !Nth(old(repo.oracle), 0)
      ensures err ==>
        Decides(sys.flushes[|old(sys).flushes|], |old(buffer)|, Drop(old(repo.oracle), 1))
    {
      var entries := TakeBuffer();
      if |entries| == 0 {
        return false;
      }
      ghost var i := |old(sys).flushes|;
      var ok := repo.InsertBatch(entries);
      Take(InsertBatch(i, ok));
      err := !ok;
      if err {
        ghost var v, kept := Isolate(entries, i);
        assert true in v <==> exists k :: 0 <= k < |v| && v[k];
        assert kept == |entries| ==> entries[..kept] + [] == entries;
      }
    }

    /** Close: marks the logger closed, then flushes once; a second call does nothing. */
    method Close() returns (err: bool)
      requires Valid()
      modifies this, repo
      ensures Valid() && closed && old(history) <= history
      ensures old(closed) ==> !err && sys == old(sys)
      ensures err <==> !old(closed) && old(buffer) != [] && !Nth(old(repo.oracle), 0)
      ensures !old(closed) ==> Flushed(old(sys), sys, err)
    {
      err := false;
      if closed {
        return;
      }
      closed := true;
      Take(MarkClosed);
      err := Flush();
    }
  }
}
