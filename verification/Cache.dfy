/**
 The cache backends of internal/cache as transformers of one kind of table: key to text value
 and optional expiry (Go's zero time, SQL NULL and a key without PEXPIRE are all `None`).
 */
module Cache {
  import opened Common
  import opened Decimal

  datatype Cell = Cell(value: string, expires: Option<int>)
  type Table = map<string, Cell>

  datatype Op =
    | Get(key: string)
    | Exists(key: string)
    | Set(key: string, value: string, ttl: int)
    | SetIfNotExists(key: string, value: string, ttl: int)
    | Delete(key: string)
    | GetAndDelete(key: string)
    | Increment(key: string, ttl: int)

  datatype Result = NotFound | Value(value: string) | Done | Answer(yes: bool) | Number(n: int) | CacheFull | NotANumber

  function Expiry(now: int, ttl: int): Option<int> {
    if ttl > 0 then Some(now + ttl) else None
  }

  /** now.After(expiresAt): what reads and the sweep go by. */
  predicate Past(c: Cell, now: int) {
    c.expires.Some? && now > c.expires.value
  }

  /** now.Before(expiresAt) fails: what Increment, SetIfNotExists and every SQL statement go by. */
  predicate Lapsed(c: Cell, now: int) {
    c.expires.Some? && now >= c.expires.value
  }

  // ------------------------------------------------------------------ the Go map

  /** The cell Increment counts on: none when the key is new or its window is over. */
  function Live(m: Table, k: string, now: int): Option<Cell> {
    if k in m && !Lapsed(m[k], now) then Some(m[k]) else None
  }

  /** MemoryCache with no cap and no sweep. */
  function MemDo(m: Table, op: Op, now: int): (Table, Result) {
    match op
    case Get(k) => (m, if k in m && !Past(m[k], now) then Value(m[k].value) else NotFound)
    case Exists(k) => (m, Answer(k in m && !Past(m[k], now)))
    case Set(k, v, ttl) => (m[k := Cell(v, Expiry(now, ttl))], Done)
    case SetIfNotExists(k, v, ttl) =>
      if Live(m, k, now).Some? then (m, Answer(false)) else (m[k := Cell(v, Expiry(now, ttl))], Answer(true))
    case Delete(k) => (m - {k}, Done)
    case GetAndDelete(k) => if k in m && !Past(m[k], now) then (m - {k}, Value(m[k].value)) else (m, NotFound)
    case Increment(k, ttl) =>
      match Live(m, k, now)
      case Some(c) => (m[k := Cell(FormatInt(ParseInt(c.value) + 1), c.expires)], Number(ParseInt(c.value) + 1))
      case None => (m[k := Cell(FormatInt(1), Expiry(now, ttl))], Number(1))
  }

  predicate Stores(op: Op) {
    op.Set? || op.SetIfNotExists? || op.Increment?
  }

  /** admit turned down: a new key at the cap. */
  predicate Refuses(m: Table, cap: int, op: Op) {
    Stores(op) && cap > 0 && |m| >= cap && op.key !in m
  }

  function CappedDo(m: Table, cap: int, op: Op, now: int): (Table, Result) {
    if Refuses(m, cap, op) then (m, CacheFull) else MemDo(m, op, now)
  }

  function Swept(m: Table, now: int): Table {
    map k | k in m && !Past(m[k], now) :: m[k]
  }

  // ------------------------------------------------------------------ the memory cache refines a never-swept map

  /** m is u with some cells missing that no read has been able to see since t. */
  ghost predicate Thinned(m: Table, u: Table, t: int) {
    && (forall k :: k in m ==> k in u && m[k] == u[k])
    && (forall k :: k in u && k !in m ==> Past(u[k], t))
  }

  lemma ThinnedStep(m: Table, u: Table, t: int, op: Op, now: int)
    requires Thinned(m, u, t) && t <= now
    ensures MemDo(m, op, now).1 == MemDo(u, op, now).1
    ensures Thinned(MemDo(m, op, now).0, MemDo(u, op, now).0, now)
  {
    assert forall k :: k in u && k !in m ==> Past(u[k], now);
  }

  datatype Event = Call(op: Op, now: int) | Sweep(now: int)

  ghost predicate Timed(evs: seq<Event>, t: int) {
    && (forall i :: 0 <= i < |evs| ==> t <= evs[i].now)
    && (forall i, j :: 0 <= i < j < |evs| ==> evs[i].now <= evs[j].now)
  }

  /** What each call of a run returns, and None for each sweep. */
  ghost function Answers(m: Table, cap: int, evs: seq<Event>): seq<Option<Result>>
    decreases |evs|
  {
    if evs == [] then []
    else match evs[0]
      case Sweep(now) => [None] + Answers(Swept(m, now), cap, evs[1..])
      case Call(op, now) => [Some(CappedDo(m, cap, op, now).1)] + Answers(CappedDo(m, cap, op, now).0, cap, evs[1..])
  }

  /** The same run against a map that is never swept and never full, which simply does not see the refused calls. */
  ghost function UnsweptAnswers(m: Table, cap: int, u: Table, evs: seq<Event>): seq<Option<Result>>
    decreases |evs|
  {
    if evs == [] then []
    else match evs[0]
      case Sweep(now) => [None] + UnsweptAnswers(Swept(m, now), cap, u, evs[1..])
      case Call(op, now) =>
        if Refuses(m, cap, op) then [Some(CacheFull)] + UnsweptAnswers(m, cap, u, evs[1..])
        else [Some(MemDo(u, op, now).1)] + UnsweptAnswers(MemDo(m, op, now).0, cap, MemDo(u, op, now).0, evs[1..])
  }

  lemma TimedTail(evs: seq<Event>, t: int)
    requires Timed(evs, t) && evs != []
    ensures Timed(evs[1..], evs[0].now)
  {
  }

  /** Sweeps at any times change no answer: every call that is not refused answers as a map never swept would. */
  lemma {:induction false} SweepsAreInvisible(m: Table, cap: int, u: Table, t: int, evs: seq<Event>)
    requires Thinned(m, u, t) && Timed(evs, t)
    ensures Answers(m, cap, evs) == UnsweptAnswers(m, cap, u, evs)
    decreases |evs|
  {
    if evs != [] {
      var now := evs[0].now;
      TimedTail(evs, t);
      match evs[0]
      case Sweep(_) =>
        assert Thinned(Swept(m, now), u, now);
        SweepsAreInvisible(Swept(m, now), cap, u, now, evs[1..]);
      case Call(op, _) =>
        if Refuses(m, cap, op) {
          assert Thinned(m, u, now);
          SweepsAreInvisible(m, cap, u, now, evs[1..]);
        } else {
          ThinnedStep(m, u, t, op, now);
          SweepsAreInvisible(MemDo(m, op, now).0, cap, MemDo(u, op, now).0, now, evs[1..]);
        }
    }
  }

  // ------------------------------------------------------------------ the same run with and without sweeps

  /** evs' is evs with sweeps added anywhere. */
  ghost predicate AddsSweeps(evs: seq<Event>, evs': seq<Event>)
    decreases |evs'|
  {
    if evs' == [] then evs == []
    else
      || (evs != [] && evs'[0] == evs[0] && AddsSweeps(evs[1..], evs'[1..]))
      || (evs'[0].Sweep? && AddsSweeps(evs, evs'[1..]))
  }

  /** What the calls of a run return, in order. */
  ghost function Replies(m: Table, cap: int, evs: seq<Event>): seq<Result>
    decreases |evs|
  {
    if evs == [] then []
    else match evs[0]
      case Sweep(now) => Replies(Swept(m, now), cap, evs[1..])
      case Call(op, now) => [CappedDo(m, cap, op, now).1] + Replies(CappedDo(m, cap, op, now).0, cap, evs[1..])
  }

  /** Where two lists of replies first part, the first has a refusal and the second has not. */
  ghost predicate PartsAtRefusal(rs: seq<Result>, rs': seq<Result>)
    decreases |rs|
  {
    if rs == [] || rs' == [] then rs == rs'
    else if rs[0] == rs'[0] then PartsAtRefusal(rs[1..], rs'[1..])
    else rs[0] == CacheFull
  }

  ghost predicate WithinCap(m: Table, cap: int) {
    cap > 0 ==> |m| <= cap
  }

  /** A thinner table refuses no call the fuller one admits. */
  lemma ThinnedRefusesLess(m: Table, u: Table, t: int, cap: int, op: Op)
    requires Thinned(m, u, t) && WithinCap(u, cap) && Refuses(m, cap, op)
    ensures Refuses(u, cap, op)
  {
    if op.key in u {
      SubsetSize(m.Keys, u.Keys - {op.key});
    } else {
      SubsetSize(m.Keys, u.Keys);
    }
  }

  lemma ThinnedSwept(m: Table, u: Table, t: int, now: int)
    requires Thinned(m, u, t) && t <= now
    ensures Thinned(Swept(m, now), u, now) && Thinned(Swept(m, now), Swept(u, now), now)
  {
    assert forall k :: k in u && k !in m ==> Past(u[k], now);
  }

  /** A call neither table refuses, or both do, is answered alike and keeps the two tables so related. */
  lemma ThinnedCall(m: Table, u: Table, t: int, cap: int, op: Op, now: int)
    requires Thinned(m, u, t) && t <= now && WithinCap(u, cap) && Refuses(m, cap, op) == Refuses(u, cap, op)
    ensures CappedDo(m, cap, op, now).1 == CappedDo(u, cap, op, now).1
    ensures Thinned(CappedDo(m, cap, op, now).0, CappedDo(u, cap, op, now).0, now)
    ensures WithinCap(CappedDo(u, cap, op, now).0, cap)
  {
    if cap > 0 {
      CapHolds(u, cap, op, now);
    }
    if Refuses(m, cap, op) {
      ThinnedSwept(m, u, t, now);
      assert Thinned(m, u, now);
    } else {
      ThinnedStep(m, u, t, op, now);
    }
  }

  /** Sweeps added anywhere to any run: up to the first call answered differently nothing shows, and there the run with
      fewer sweeps refuses what the other admits. u is the table without the added sweeps. */
  lemma {:induction false} SweepsFirstHelp(m: Table, u: Table, t: int, cap: int, evs: seq<Event>, evs': seq<Event>)
    requires Thinned(m, u, t) && WithinCap(u, cap) && Timed(evs', t) && AddsSweeps(evs, evs')
    ensures PartsAtRefusal(Replies(u, cap, evs), Replies(m, cap, evs'))
    decreases |evs'|
  {
    if evs' != [] {
      var now := evs'[0].now;
      TimedTail(evs', t);
      if evs'[0].Sweep? {
        ThinnedSwept(m, u, t, now);
        if AddsSweeps(evs, evs'[1..]) {
          SweepsFirstHelp(Swept(m, now), u, now, cap, evs, evs'[1..]);
        } else {
          SubsetSize(Swept(u, now).Keys, u.Keys);
          SweepsFirstHelp(Swept(m, now), Swept(u, now), now, cap, evs[1..], evs'[1..]);
        }
      } else {
        CallsFirstHelp(m, u, t, cap, evs, evs');
      }
    }
  }

  lemma {:induction false} CallsFirstHelp(m: Table, u: Table, t: int, cap: int, evs: seq<Event>, evs': seq<Event>)
    requires Thinned(m, u, t) && WithinCap(u, cap) && Timed(evs', t)
    requires evs != [] && evs' != [] && evs'[0] == evs[0] && evs[0].Call? && AddsSweeps(evs[1..], evs'[1..])
    ensures PartsAtRefusal(Replies(u, cap, evs), Replies(m, cap, evs'))
    decreases |evs'|, 0
  {
    var op, now := evs[0].op, evs[0].now;
    var r, r' := CappedDo(u, cap, op, now), CappedDo(m, cap, op, now);
    if Refuses(m, cap, op) {
      ThinnedRefusesLess(m, u, t, cap, op);
    }
    if Refuses(m, cap, op) == Refuses(u, cap, op) {
      ThinnedCall(m, u, t, cap, op, now);
      TimedTail(evs', t);
      SweepsFirstHelp(r'.0, r.0, now, cap, evs[1..], evs'[1..]);
      assert Replies(u, cap, evs)[1..] == Replies(r.0, cap, evs[1..]);
      assert Replies(m, cap, evs')[1..] == Replies(r'.0, cap, evs'[1..]);
    } else {
      assert r.1 == CacheFull && r'.1 == MemDo(m, op, now).1 != CacheFull;
    }
  }

  lemma {:induction false} NoRefusalNoDifference(rs: seq<Result>, rs': seq<Result>)
    requires PartsAtRefusal(rs, rs') && CacheFull !in rs
    ensures rs == rs'
  {
    if rs != [] && rs' != [] {
      NoRefusalNoDifference(rs[1..], rs'[1..]);
      assert rs == [rs[0]] + rs[1..] && rs' == [rs'[0]] + rs'[1..];
    }
  }

  /** A run that is never refused answers every call alike with any sweeps added. */
  lemma SweepsInvisibleUnlessFull(m: Table, t: int, cap: int, evs: seq<Event>, evs': seq<Event>)
    requires WithinCap(m, cap) && Timed(evs', t) && AddsSweeps(evs, evs') && CacheFull !in Replies(m, cap, evs)
    ensures Replies(m, cap, evs') == Replies(m, cap, evs)
  {
    SweepsFirstHelp(m, m, t, cap, evs, evs');
    NoRefusalNoDifference(Replies(m, cap, evs), Replies(m, cap, evs'));
  }

  /** After that first call a sweep can hurt: what it let in may take the place of a call admitted without it. */
  lemma SweepCanHurtLater()
    ensures var m, a, b := map["a" := Cell("", Some(5))], Call(Set("b", "", 0), 11), Call(Set("a", "", 0), 12);
      && Replies(m, 1, [a, b]) == [CacheFull, Done]
      && Replies(m, 1, [Sweep(10), a, b]) == [Done, CacheFull]
  {
    var m, a, b := map["a" := Cell("", Some(5))], Call(Set("b", "", 0), 11), Call(Set("a", "", 0), 12);
    assert |m| == 1 && [a, b][1..] == [b] && [b][1..] == [];
    var m1 := CappedDo(m, 1, a.op, 11).0;
    assert m1 == m && Replies(m1, 1, [b]) == [Done];
    assert [Sweep(10), a, b][1..] == [a, b];
    var n := Swept(m, 10);
    assert n == map[];
    var n1 := CappedDo(n, 1, a.op, 11).0;
    assert n1 == map["b" := Cell("", None)] && |n1| == 1;
    assert "a" !in n1 && Replies(n1, 1, [b]) == [CacheFull];
  }

  ghost function Name(n: nat): string {
    seq(n, _ => 'k')
  }

  /** A table of n entries, all expired at time 0. */
  ghost function Stale(n: nat): (m: Table)
    ensures |m| == n && (forall k :: k in m ==> |k| < n && m[k] == Cell("", Some(0)))
  {
    if n == 0 then map[]
    else
      var m := Stale(n - 1);
      assert Name(n - 1) !in m;
      m[Name(n - 1) := Cell("", Some(0))]
  }

  /** Sweeps change no answer of any run that starts within the cap. */
  ghost predicate SweepsNeverShow(cap: int) {
    forall m, t, evs, evs' :: WithinCap(m, cap) && Timed(evs', t) && AddsSweeps(evs, evs') ==>
      Replies(m, cap, evs') == Replies(m, cap, evs)
  }

  lemma {:induction false} UncappedNeverRefuses(m: Table, cap: int, evs: seq<Event>)
    requires cap <= 0
    ensures CacheFull !in Replies(m, cap, evs)
    decreases |evs|
  {
    if evs != [] {
      var m' := if evs[0].Sweep? then Swept(m, evs[0].now) else CappedDo(m, cap, evs[0].op, evs[0].now).0;
      UncappedNeverRefuses(m', cap, evs[1..]);
    }
  }

  lemma CappedShows(cap: int)
    requires cap > 0
    ensures !SweepsNeverShow(cap)
  {
    var m, call := Stale(cap), Call(Set(Name(cap), "", 0), 2);
    assert |Name(cap)| == cap && Name(cap) !in m;
    assert [call][1..] == [] && [Sweep(1), call][1..] == [call];
    assert Replies(m, cap, [call]) == [CacheFull];
    assert Swept(m, 1) == map[];
    assert Replies(m, cap, [Sweep(1), call]) == Replies(map[], cap, [call]) == [Done];
    assert AddsSweeps([], []) && AddsSweeps([call], [call]) && AddsSweeps([call], [Sweep(1), call]);
    assert WithinCap(m, cap) && Timed([Sweep(1), call], 0);
  }

  /** Sweeping is invisible in every run exactly when the cache has no cap. */
  lemma SweepsNeverShowIffUncapped(cap: int)
    ensures SweepsNeverShow(cap) <==> cap <= 0
  {
    if cap > 0 {
      CappedShows(cap);
    } else {
      forall m, t, evs, evs' | WithinCap(m, cap) && Timed(evs', t) && AddsSweeps(evs, evs')
        ensures Replies(m, cap, evs') == Replies(m, cap, evs)
      {
        UncappedNeverRefuses(m, cap, evs);
        SweepsInvisibleUnlessFull(m, t, cap, evs, evs');
      }
    }
  }

  /** What a sweep is meant to do to a later call: at most turn its refusal into an admission. */
  ghost predicate OnlyHelps(cap: int) {
    forall m, t, evs, evs' :: WithinCap(m, cap) && Timed(evs', t) && AddsSweeps(evs, evs') ==>
      NoWorse(Replies(m, cap, evs), Replies(m, cap, evs'))
  }

  ghost predicate NoWorse(rs: seq<Result>, rs': seq<Result>) {
    |rs| == |rs'| && forall i :: 0 <= i < |rs| ==> rs'[i] == rs[i] || rs[i] == CacheFull
  }

  /** n calls at time 2 that each store a key longer than base characters. */
  ghost function Newcomers(base: nat, n: nat): seq<Event> {
    seq(n, i requires 0 <= i < n => Call(Set(Name(base + i), "", 0), 2))
  }

  lemma {:induction false} RepliesConcat(m: Table, cap: int, xs: seq<Event>, ys: seq<Event>)
    ensures Replies(m, cap, xs + ys) == Replies(m, cap, xs) + Replies(Final(m, cap, xs), cap, ys)
    decreases |xs|
  {
    if xs == [] {
      assert xs + ys == ys;
    } else {
      var m' := if xs[0].Sweep? then Swept(m, xs[0].now) else CappedDo(m, cap, xs[0].op, xs[0].now).0;
      assert (xs + ys)[1..] == xs[1..] + ys;
      RepliesConcat(m', cap, xs[1..], ys);
    }
  }

  lemma {:induction false} OneReplyPerCall(m: Table, cap: int, xs: seq<Event>)
    requires forall i :: 0 <= i < |xs| ==> xs[i].Call?
    ensures |Replies(m, cap, xs)| == |xs|
    decreases |xs|
  {
    if xs != [] {
      OneReplyPerCall(CappedDo(m, cap, xs[0].op, xs[0].now).0, cap, xs[1..]);
    }
  }

  lemma FirstNewcomer(base: nat, n: nat)
    requires n > 0
    ensures Newcomers(base, n)[0] == Call(Set(Name(base), "", 0), 2)
    ensures Newcomers(base, n)[1..] == Newcomers(base + 1, n - 1)
  {
  }

  lemma NewKey(m: Table, base: nat)
    requires forall k :: k in m ==> |k| < base
    ensures Name(base) !in m && |Name(base)| == base
  {
  }

  /** A full table refuses them all and stays as it is. */
  lemma {:induction false} AllRefused(m: Table, cap: nat, base: nat, n: nat)
    requires |m| == cap > 0 && forall k :: k in m ==> |k| < base
    ensures Final(m, cap, Newcomers(base, n)) == m
    decreases n
  {
    if n > 0 {
      NewKey(m, base);
      FirstNewcomer(base, n);
      AllRefused(m, cap, base + 1, n - 1);
    }
  }

  /** A table with all of them in. */
  ghost function Joined(m: Table, base: nat, n: nat): Table
    decreases n
  {
    if n == 0 then m else Joined(m[Name(base) := Cell("", None)], base + 1, n - 1)
  }

  lemma {:induction false} JoinedFills(m: Table, base: nat, n: nat)
    requires forall k :: k in m ==> |k| < base
    ensures |Joined(m, base, n)| == |m| + n && forall k :: k in Joined(m, base, n) ==> k in m || |k| >= base
    decreases n
  {
    if n > 0 {
      NewKey(m, base);
      JoinedFills(m[Name(base) := Cell("", None)], base + 1, n - 1);
    }
  }

  /** A table with room takes them. */
  lemma {:induction false} AllAdmitted(m: Table, cap: nat, base: nat, n: nat)
    requires |m| + n == cap && forall k :: k in m ==> |k| < base
    ensures Final(m, cap, Newcomers(base, n)) == Joined(m, base, n)
    decreases n
  {
    if n > 0 {
      NewKey(m, base);
      FirstNewcomer(base, n);
      AllAdmitted(m[Name(base) := Cell("", None)], cap, base + 1, n - 1);
    }
  }

  /** What the call after n newcomers is answered, m' being the table they leave. */
  lemma AfterNewcomers(m: Table, cap: int, base: nat, n: nat, last: Event, m': Table)
    requires m' == Final(m, cap, Newcomers(base, n))
    ensures var rs := Replies(m, cap, Newcomers(base, n) + [last]); |rs| >= n && rs[n..] == Replies(m', cap, [last])
  {
    RepliesConcat(m, cap, Newcomers(base, n), [last]);
    OneReplyPerCall(m, cap, Newcomers(base, n));
  }

  lemma {:induction false} AddsNothing(evs: seq<Event>)
    ensures AddsSweeps(evs, evs)
    decreases |evs|
  {
    if evs != [] {
      AddsNothing(evs[1..]);
    }
  }

  /** As many new keys as the table holds, then one of the old keys. */
  ghost function Crowd(cap: nat): seq<Event> {
    Newcomers(cap, cap) + [OldKey()]
  }

  ghost function OldKey(): Event {
    Call(Set(Name(0), "", 0), 2)
  }

  lemma LastReply(m: Table, cap: int)
    ensures Replies(m, cap, [OldKey()]) == [if Refuses(m, cap, OldKey().op) then CacheFull else Done]
  {
    assert [OldKey()][1..] == [];
  }

  lemma UnsweptCrowd(cap: nat)
    requires cap > 0
    ensures var rs := Replies(Stale(cap), cap, Crowd(cap)); |rs| >= cap && rs[cap..] == [Done]
  {
    AllRefused(Stale(cap), cap, cap, cap);
    AfterNewcomers(Stale(cap), cap, cap, cap, OldKey(), Stale(cap));
    StaleHoldsFirst(cap);
    LastReply(Stale(cap), cap);
  }

  lemma SweptCrowd(cap: nat)
    requires cap > 0
    ensures var rs := Replies(Stale(cap), cap, [Sweep(1)] + Crowd(cap)); |rs| >= cap && rs[cap..] == [CacheFull]
  {
    var evs := [Sweep(1)] + Crowd(cap);
    assert evs[0] == Sweep(1) && evs[1..] == Crowd(cap);
    assert Swept(Stale(cap), 1) == map[];
    var m := Joined(map[], cap, cap);
    AllAdmitted(map[], cap, cap, cap);
    AfterNewcomers(map[], cap, cap, cap, OldKey(), m);
    JoinedFills(map[], cap, cap);
    assert |Name(0)| == 0 && Name(0) !in m;
    LastReply(m, cap);
  }

  lemma CrowdSwept(cap: nat)
    ensures AddsSweeps(Crowd(cap), [Sweep(1)] + Crowd(cap)) && Timed([Sweep(1)] + Crowd(cap), 1)
  {
    var evs := [Sweep(1)] + Crowd(cap);
    assert evs[1..] == Crowd(cap);
    AddsNothing(Crowd(cap));
    assert forall i :: 0 < i < |evs| ==> evs[i].now == 2;
  }

  /** The run, at any cap, from a table full of expired entries: with a sweep first the new keys get in and the old one
      does not. */
  lemma SweepHurts(cap: nat)
    requires cap > 0
    ensures !OnlyHelps(cap)
  {
    var rs, rs' := Replies(Stale(cap), cap, Crowd(cap)), Replies(Stale(cap), cap, [Sweep(1)] + Crowd(cap));
    UnsweptCrowd(cap);
    SweptCrowd(cap);
    CrowdSwept(cap);
    assert rs[cap] == rs[cap..][0] == Done && rs'[cap] == rs'[cap..][0] == CacheFull;
    assert !NoWorse(rs, rs') && WithinCap(Stale(cap), cap);
  }

  lemma {:induction false} StaleHoldsFirst(n: nat)
    requires n > 0
    ensures Name(0) in Stale(n)
  {
    if n > 1 {
      StaleHoldsFirst(n - 1);
    }
  }

  /** A sweep never does worse than turn a refusal into an admission exactly when there is no cap. */
  lemma OnlyHelpsIffUncapped(cap: int)
    ensures OnlyHelps(cap) <==> cap <= 0
  {
    if cap > 0 {
      SweepHurts(cap);
    } else {
      SweepsNeverShowIffUncapped(cap);
    }
  }

  // ------------------------------------------------------------------ the cap

  /** The table never outgrows a positive cap, and a refused call changes nothing. */
  lemma CapHolds(m: Table, cap: int, op: Op, now: int)
    requires cap > 0 && |m| <= cap
    ensures |CappedDo(m, cap, op, now).0| <= cap
    ensures CappedDo(m, cap, op, now).1 == CacheFull ==> CappedDo(m, cap, op, now).0 == m
    ensures |Swept(m, now)| <= cap
  {
    SubsetSize(Swept(m, now).Keys, m.Keys);
    if !Refuses(m, cap, op) {
      TouchesOneKey(m, op, now);
      FitsCap(m, MemDo(m, op, now).0, cap, op.key, Stores(op));
    }
  }

  lemma FitsCap(m: Table, m': Table, cap: int, k: string, stores: bool)
    requires |m| <= cap && m'.Keys <= m.Keys + {k} && (!stores ==> m'.Keys <= m.Keys)
    requires stores && |m| == cap ==> k in m
    ensures |m'| <= cap
  {
    if k in m || !stores {
      SubsetSize(m'.Keys, m.Keys);
    } else {
      SubsetSize(m'.Keys, m.Keys + {k});
    }
  }

  lemma TouchesOneKey(m: Table, op: Op, now: int)
    ensures MemDo(m, op, now).0.Keys <= m.Keys + {op.key}
    ensures !Stores(op) ==> MemDo(m, op, now).0.Keys <= m.Keys
  {
  }

  // ------------------------------------------------------------------ one winner per window, one reader per value

  ghost function Final(m: Table, cap: int, evs: seq<Event>): Table
    decreases |evs|
  {
    if evs == [] then m
    else match evs[0]
      case Sweep(now) => Final(Swept(m, now), cap, evs[1..])
      case Call(op, now) => Final(CappedDo(m, cap, op, now).0, cap, evs[1..])
  }

  /** No event deletes or overwrites k; counting on it is allowed. */
  ghost predicate Untouched(evs: seq<Event>, k: string) {
    forall i :: 0 <= i < |evs| && evs[i].Call? && evs[i].op.key == k ==>
      !evs[i].op.Set? && !evs[i].op.Delete? && !evs[i].op.GetAndDelete?
  }

  lemma {:induction false} HoldsUntil(m: Table, cap: int, evs: seq<Event>, k: string, exp: Option<int>, t: int)
    requires k in m && m[k].expires == exp && Timed(evs, t) && Untouched(evs, k)
    requires exp.Some? ==> t < exp.value && forall i :: 0 <= i < |evs| ==> evs[i].now < exp.value
    ensures k in Final(m, cap, evs) && Final(m, cap, evs)[k].expires == exp
    decreases |evs|
  {
    if evs != [] {
      TimedTail(evs, t);
      var m' := if evs[0].Sweep? then Swept(m, evs[0].now) else CappedDo(m, cap, evs[0].op, evs[0].now).0;
      assert k in m' && m'[k].expires == exp;
      HoldsUntil(m', cap, evs[1..], k, exp, evs[0].now);
    }
  }

  /** After SetIfNotExists succeeds, no other succeeds on that key within its TTL, whatever else runs or sweeps,
      unless the key is deleted or overwritten; with no TTL, none ever does. */
  lemma OneWinnerPerWindow(m: Table, cap: int, k: string, v: string, ttl: int, t: int,
                           evs: seq<Event>, w: string, ttl': int, now: int)
    requires CappedDo(m, cap, SetIfNotExists(k, v, ttl), t).1 == Answer(true)
    requires Timed(evs, t) && Untouched(evs, k) && t <= now && forall i :: 0 <= i < |evs| ==> evs[i].now <= now
    requires ttl > 0 ==> now < t + ttl
    ensures var m' := Final(CappedDo(m, cap, SetIfNotExists(k, v, ttl), t).0, cap, evs);
      CappedDo(m', cap, SetIfNotExists(k, w, ttl'), now) == (m', Answer(false))
  {
    HoldsUntil(CappedDo(m, cap, SetIfNotExists(k, v, ttl), t).0, cap, evs, k, Expiry(t, ttl), t);
  }

  ghost predicate NotStored(evs: seq<Event>, k: string) {
    forall i :: 0 <= i < |evs| && evs[i].Call? && evs[i].op.key == k ==> !Stores(evs[i].op)
  }

  lemma {:induction false} StaysAbsent(m: Table, cap: int, evs: seq<Event>, k: string)
    requires k !in m && NotStored(evs, k)
    ensures k !in Final(m, cap, evs)
    decreases |evs|
  {
    if evs != [] {
      var m' := if evs[0].Sweep? then Swept(m, evs[0].now) else CappedDo(m, cap, evs[0].op, evs[0].now).0;
      StaysAbsent(m', cap, evs[1..], k);
    }
  }

  /** GetAndDelete hands each stored value to one caller: a second call finds nothing until the key is stored again. */
  lemma OneReaderPerValue(m: Table, cap: int, k: string, t: int, evs: seq<Event>, now: int)
    requires CappedDo(m, cap, GetAndDelete(k), t).1.Value? && NotStored(evs, k)
    ensures var m' := Final(CappedDo(m, cap, GetAndDelete(k), t).0, cap, evs);
      CappedDo(m', cap, GetAndDelete(k), now).1 == NotFound
  {
    StaysAbsent(CappedDo(m, cap, GetAndDelete(k), t).0, cap, evs, k);
  }

  // ------------------------------------------------------------------ what was stored is what is read

  /** No event does more to k than read it. */
  ghost predicate OnlyRead(evs: seq<Event>, k: string) {
    forall i :: 0 <= i < |evs| && evs[i].Call? && evs[i].op.key == k ==> evs[i].op.Get? || evs[i].op.Exists?
  }

  /** The cell is still there, or it was swept after its end. */
  ghost predicate Kept(m: Table, k: string, c: Cell, t: int) {
    if k in m then m[k] == c else c.expires.Some? && c.expires.value < t
  }

  lemma {:induction false} CellKept(m: Table, cap: int, evs: seq<Event>, k: string, c: Cell, t: int, now: int)
    requires Kept(m, k, c, t) && Timed(evs, t) && OnlyRead(evs, k)
    requires t <= now && forall i :: 0 <= i < |evs| ==> evs[i].now <= now
    ensures Kept(Final(m, cap, evs), k, c, now)
    decreases |evs|
  {
    if evs != [] {
      TimedTail(evs, t);
      var m' := if evs[0].Sweep? then Swept(m, evs[0].now) else CappedDo(m, cap, evs[0].op, evs[0].now).0;
      assert Kept(m', k, c, evs[0].now);
      CellKept(m', cap, evs[1..], k, c, evs[0].now, now);
    }
  }

  /** What the calls make of a key whose cell was kept. */
  lemma KeptReads(m: Table, cap: int, k: string, v: string, until: Option<int>, now: int)
    requires Kept(m, k, Cell(v, until), now)
    ensures var there := until.Some? ==> now <= until.value;
      && CappedDo(m, cap, Get(k), now).1 == (if there then Value(v) else NotFound)
      && CappedDo(m, cap, Exists(k), now).1 == Answer(there)
      && CappedDo(m, cap, GetAndDelete(k), now).1 == (if there then Value(v) else NotFound)
  {
  }

  lemma KeptYields(m: Table, cap: int, k: string, v: string, end: int, now: int, w: string, ttl: int)
    requires Kept(m, k, Cell(v, Some(end)), now) && now >= end
    ensures CappedDo(m, cap, SetIfNotExists(k, w, ttl), now).1 in {Answer(true), CacheFull}
  {
  }

  /** The value a Set or a winning SetIfNotExists stored is what every read returns, through any sweeps and other keys'
      calls, up to and including the instant its TTL ends, or for ever without one; after that there is nothing, and
      from that instant on the next SetIfNotExists wins. */
  lemma ReadBack(m: Table, cap: int, op: Op, t: int, evs: seq<Event>, now: int, m': Table, w: string, ttl: int)
    requires op.Set? || op.SetIfNotExists?
    requires CappedDo(m, cap, op, t).1 == if op.Set? then Done else Answer(true)
    requires Timed(evs, t) && OnlyRead(evs, op.key) && t <= now && forall i :: 0 <= i < |evs| ==> evs[i].now <= now
    requires m' == Final(CappedDo(m, cap, op, t).0, cap, evs)
    ensures var there := op.ttl <= 0 || now <= t + op.ttl;
      && CappedDo(m', cap, Get(op.key), now).1 == (if there then Value(op.value) else NotFound)
      && CappedDo(m', cap, Exists(op.key), now).1 == Answer(there)
      && CappedDo(m', cap, GetAndDelete(op.key), now).1 == (if there then Value(op.value) else NotFound)
    ensures op.ttl > 0 && now >= t + op.ttl ==>
      CappedDo(m', cap, SetIfNotExists(op.key, w, ttl), now).1 in {Answer(true), CacheFull}
  {
    StoresCell(m, cap, op, t);
    ReadsKept(m[op.key := Cell(op.value, Until(op, t))], cap, op, t, evs, now, m');
    if op.ttl > 0 && now >= t + op.ttl {
      KeptYields(m', cap, op.key, op.value, t + op.ttl, now, w, ttl);
    }
  }

  ghost function Until(op: Op, t: int): Option<int>
    requires op.Set? || op.SetIfNotExists?
  {
    if op.ttl > 0 then Some(t + op.ttl) else None
  }

  lemma StoresCell(m: Table, cap: int, op: Op, t: int)
    requires op.Set? || op.SetIfNotExists?
    requires CappedDo(m, cap, op, t).1 == if op.Set? then Done else Answer(true)
    ensures CappedDo(m, cap, op, t).0 == m[op.key := Cell(op.value, Until(op, t))]
  {
  }

  lemma ReadsKept(m0: Table, cap: int, op: Op, t: int, evs: seq<Event>, now: int, m': Table)
    requires op.Set? || op.SetIfNotExists?
    requires Kept(m0, op.key, Cell(op.value, Until(op, t)), t) && m' == Final(m0, cap, evs)
    requires Timed(evs, t) && OnlyRead(evs, op.key) && t <= now && forall i :: 0 <= i < |evs| ==> evs[i].now <= now
    ensures Kept(m', op.key, Cell(op.value, Until(op, t)), now)
    ensures var there := op.ttl <= 0 || now <= t + op.ttl;
      && CappedDo(m', cap, Get(op.key), now).1 == (if there then Value(op.value) else NotFound)
      && CappedDo(m', cap, Exists(op.key), now).1 == Answer(there)
      && CappedDo(m', cap, GetAndDelete(op.key), now).1 == (if there then Value(op.value) else NotFound)
  {
    CellKept(m0, cap, evs, op.key, Cell(op.value, Until(op, t)), t, now);
    KeptReads(m', cap, op.key, op.value, Until(op, t), now);
  }

  /** After a Delete there is nothing to read until the key is stored again. */
  lemma DeletedIsGone(m: Table, cap: int, k: string, t: int, evs: seq<Event>, now: int)
    requires NotStored(evs, k)
    ensures CappedDo(m, cap, Delete(k), t).1 == Done
    ensures var m' := Final(CappedDo(m, cap, Delete(k), t).0, cap, evs);
      && CappedDo(m', cap, Get(k), now).1 == NotFound && CappedDo(m', cap, Exists(k), now).1 == Answer(false)
      && CappedDo(m', cap, GetAndDelete(k), now).1 == NotFound
    ensures forall x :: x != k ==>
      var m' := CappedDo(m, cap, Delete(k), t).0; (x in m' <==> x in m) && (x in m ==> m'[x] == m[x])
  {
    StaysAbsent(CappedDo(m, cap, Delete(k), t).0, cap, evs, k);
  }
}
