/** MemoryCache as an object: one map under one lock, and the sweep that thins it. */
module CacheMemory {
  import opened Common
  import opened Decimal
  import opened Cache

  class MemoryCache {
    var data: Table
    const maxEntries: int
    var atCap: bool

    constructor (maxEntries: int)
      ensures data == map[] && this.maxEntries == maxEntries && !atCap
    {
      data, this.maxEntries, atCap := map[], maxEntries, false;
    }

    /** admit: refuses a new key at the cap, latching the first refusal so it is logged once. */
    method Admit(key: string) returns (ok: bool)
      modifies this`atCap
      ensures ok <==> maxEntries <= 0 || |data| < maxEntries || key in data
      ensures atCap == (old(atCap) || !ok)
    {
      if maxEntries <= 0 || |data| < maxEntries {
        return true;
      }
      if key in data {
        return true;
      }
      if !atCap {
        atCap := true;
      }
      return false;
    }

    method Get(key: string, now: int) returns (r: Result)
      ensures (data, r) == CappedDo(data, maxEntries, Op.Get(key), now)
    {
      if key !in data || Past(data[key], now) {
        return NotFound;
      }
      return Value(data[key].value);
    }

    method Exists(key: string, now: int) returns (r: Result)
      ensures (data, r) == CappedDo(data, maxEntries, Op.Exists(key), now)
    {
      r := Answer(!(key !in data || Past(data[key], now)));
    }

    method Set(key: string, value: string, ttl: int, now: int) returns (r: Result)
      modifies this
      ensures (data, r) == CappedDo(old(data), maxEntries, Op.Set(key, value, ttl), now)
    {
      var exp := Expiry(now, ttl);
      var ok := Admit(key);
      if !ok {
        return CacheFull;
      }
      data := data[key := Cell(value, exp)];
      return Done;
    }

    method Delete(key: string, now: int) returns (r: Result)
      modifies this`data
      ensures (data, r) == CappedDo(old(data), maxEntries, Op.Delete(key), now)
    {
      data := data - {key};
      return Done;
    }

    method GetAndDelete(key: string, now: int) returns (r: Result)
      modifies this`data
      ensures (data, r) == CappedDo(old(data), maxEntries, Op.GetAndDelete(key), now)
    {
      if key !in data || Past(data[key], now) {
        return NotFound;
      }
      r := Value(data[key].value);
      data := data - {key};
    }

    method SetIfNotExists(key: string, value: string, ttl: int, now: int) returns (r: Result)
      modifies this
      ensures (data, r) == CappedDo(old(data), maxEntries, Op.SetIfNotExists(key, value, ttl), now)
    {
      if key in data && (data[key].expires.None? || now < data[key].expires.value) {
        return Answer(false);
      }
      var ok := Admit(key);
      if !ok {
        return CacheFull;
      }
      data := data[key := Cell(value, Expiry(now, ttl))];
      return Answer(true);
    }

    method Increment(key: string, ttl: int, now: int) returns (r: Result)
      modifies this
      ensures (data, r) == CappedDo(old(data), maxEntries, Op.Increment(key, ttl), now)
    {
      var count, exp := 0, None;
      if key in data && (data[key].expires.None? || now < data[key].expires.value) {
        count, exp := ParseInt(data[key].value), data[key].expires;
      } else if ttl > 0 {
        exp := Some(now + ttl);
      }
      var ok := Admit(key);
      if !ok {
        return CacheFull;
      }
      ghost var live := Live(data, key, now);
      assert live.Some? ==> count == ParseInt(live.value.value) && exp == live.value.expires;
      assert live.None? ==> count == 0 && exp == Expiry(now, ttl);
      count := count + 1;
      data := data[key := Cell(FormatInt(count), exp)];
      return Number(count);
    }

    /** One tick of cleanup: deletes past entries while looping over the map. */
    method Cleanup(now: int)
      modifies this`data
      ensures data == Swept(old(data), now)
      ensures forall k :: k in data <==>
        k in old(data) && (old(data)[k].expires.Some? ==> now <= old(data)[k].expires.value)
    {
      var rest := data.Keys;
      while rest != {}
        invariant rest <= data.Keys <= old(data).Keys
        invariant forall k :: k in data ==> data[k] == old(data)[k]
        invariant forall k :: k in old(data) && k !in rest ==> (k in data <==> !Past(old(data)[k], now))
        decreases rest
      {
        var k :| k in rest;
        rest := rest - {k};
        if Past(data[k], now) {
          data := data - {k};
        }
      }
    }
  }
}

/** The SQL statements and the Lua script, and where the three backends agree. */
module CacheBackends {
  import opened Common
  import opened Decimal
  import opened Cache

  // ------------------------------------------------------------------ PostgreSQL: one statement per operation

  /** expires_at IS NULL OR expires_at > NOW(). */
  predicate SqlLive(p: Table, k: string, now: int) {
    k in p && (p[k].expires.None? || p[k].expires.value > now)
  }

  function SqlIncrement(p: Table, k: string, ttl: int, now: int): Cell {
    if k !in p then Cell("1", Expiry(now, ttl))
    else
      Cell(if p[k].expires.Some? && p[k].expires.value <= now then "1" else FormatInt(ParseInt(p[k].value) + 1),
           if p[k].expires.Some? && p[k].expires.value > now then p[k].expires else Expiry(now, ttl))
  }

  function PgDo(p: Table, op: Op, now: int): (Table, Result) {
    match op
    case Get(k) => (p, if SqlLive(p, k, now) then Value(p[k].value) else NotFound)
    case Exists(k) => (p, Answer(SqlLive(p, k, now)))
    case Set(k, v, ttl) => (p[k := Cell(v, Expiry(now, ttl))], Done)
    case SetIfNotExists(k, v, ttl) =>
      if k !in p || (p[k].expires.Some? && p[k].expires.value <= now)
      then (p[k := Cell(v, Expiry(now, ttl))], Answer(true)) else (p, Answer(false))
    case Delete(k) => (p - {k}, Done)
    case GetAndDelete(k) => if SqlLive(p, k, now) then (p - {k}, Value(p[k].value)) else (p, NotFound)
    case Increment(k, ttl) =>
      if SqlLive(p, k, now) && !IsInteger(p[k].value) then (p, NotANumber)
      else var row := SqlIncrement(p, k, ttl, now); (p[k := row], Number(ParseInt(row.value)))
  }

  const SWEEP_BATCH := 2000
  const SWEEP_MAX_BATCHES := 20

  ghost function Expired(p: Table, now: int): set<string> {
    set k | k in p && Lapsed(p[k], now)
  }

  class PostgresCache {
    var rows: Table

    constructor ()
      ensures rows == map[]
    {
      rows := map[];
    }

    method Apply(op: Op, now: int) returns (r: Result)
      modifies this
      ensures (rows, r) == PgDo(old(rows), op, now)
    {
      var next := PgDo(rows, op, now);
      rows, r := next.0, next.1;
    }

    /** DELETE ... WHERE key IN (SELECT ... LIMIT n): some n expired rows, or all when there are fewer. */
    method DeleteBatch(now: int) returns (n: nat)
      modifies this
      ensures rows.Keys <= old(rows).Keys && forall k :: k in rows ==> rows[k] == old(rows)[k]
      ensures forall k :: k in old(rows) && k !in rows ==> Lapsed(old(rows)[k], now)
      ensures n == |old(rows).Keys - rows.Keys| == |old(rows)| - |rows| <= SWEEP_BATCH
      ensures n < SWEEP_BATCH ==> Expired(rows, now) == {}
    {
      n := 0;
      var rest := rows.Keys;
      while rest != {} && n < SWEEP_BATCH
        invariant rest <= rows.Keys <= old(rows).Keys && forall k :: k in rows ==> rows[k] == old(rows)[k]
        invariant forall k :: k in old(rows) && k !in rows ==> Lapsed(old(rows)[k], now)
        invariant n == |old(rows).Keys - rows.Keys| == |old(rows)| - |rows| <= SWEEP_BATCH
        invariant forall k :: k in rows && k !in rest ==> !Lapsed(rows[k], now)
        decreases rest
      {
        var k :| k in rest;
        rest := rest - {k};
        if Lapsed(rows[k], now) {
          assert old(rows).Keys - (rows - {k}).Keys == (old(rows).Keys - rows.Keys) + {k};
          assert (rows - {k}).Keys == rows.Keys - {k};
          rows := rows - {k};
          n := n + 1;
        }
      }
    }

    /** reapExpired: at most twenty batches, with a look at the stop channel before each, which is closed by batch stop.
        Only expired rows go; it ends with none left, at the stop, or after twenty full batches. */
    method ReapExpired(now: int, stop: nat) returns (batches: nat, cleared: bool)
      modifies this
      ensures rows.Keys <= old(rows).Keys && forall k :: k in rows ==> rows[k] == old(rows)[k]
      ensures forall k :: k in old(rows) && k !in rows ==> Lapsed(old(rows)[k], now)
      ensures batches <= SWEEP_MAX_BATCHES
      ensures cleared ==> Expired(rows, now) == {}
      ensures cleared || (batches == stop < 20) || (batches == 20 <= stop)
      ensures !cleared ==> |old(rows)| - |rows| == 2000 * batches
    {
      batches, cleared := 0, false;
      while batches < SWEEP_MAX_BATCHES
        invariant batches <= SWEEP_MAX_BATCHES && batches <= stop && !cleared
        invariant |old(rows)| - |rows| == SWEEP_BATCH * batches
        invariant rows.Keys <= old(rows).Keys && forall k :: k in rows ==> rows[k] == old(rows)[k]
        invariant forall k :: k in old(rows) && k !in rows ==> Lapsed(old(rows)[k], now)
      {
        if batches == stop {
          return;
        }
        var n := DeleteBatch(now);
        batches := batches + 1;
        if n < SWEEP_BATCH {
          cleared := true;
          return;
        }
      }
    }
  }

  // ------------------------------------------------------------------ memory and PostgreSQL

  /** The inputs on which the two differ: a read at the very instant of expiry, and counting on a key that has no
      expiry (memory keeps none, SQL adopts the new one) or does not hold a number (SQL raises an error). */
  predicate Edge(m: Table, op: Op, now: int) {
    op.key in m && var c := m[op.key];
      match op
      case Get(_) => c.expires == Some(now)
      case Exists(_) => c.expires == Some(now)
      case GetAndDelete(_) => c.expires == Some(now)
      case Increment(_, ttl) => (c.expires.None? && ttl > 0) || (!Lapsed(c, now) && !IsInteger(c.value))
      case _ => false
  }

  /** Equal, up to lapsed cells that only one side still holds. */
  ghost predicate Alike(m: Table, p: Table, t: int) {
    && (forall k :: k in m && k in p ==> m[k] == p[k])
    && (forall k :: k in m && k !in p ==> Lapsed(m[k], t))
    && (forall k :: k in p && k !in m ==> Lapsed(p[k], t))
  }

  lemma ReadsAlike(m: Table, p: Table, t: int, op: Op, now: int)
    requires Alike(m, p, t) && t <= now && !Edge(m, op, now) && !op.Increment?
    ensures PgDo(p, op, now).1 == MemDo(m, op, now).1
    ensures Alike(MemDo(m, op, now).0, PgDo(p, op, now).0, now)
  {
  }

  /** Away from the edges the upsert writes the very cell the map would. */
  lemma UpsertIsIncrement(m: Table, p: Table, t: int, k: string, ttl: int, now: int)
    requires Alike(m, p, t) && t <= now && !Edge(m, Increment(k, ttl), now)
    ensures var c := SqlIncrement(p, k, ttl, now);
      MemDo(m, Increment(k, ttl), now) == (m[k := c], Number(ParseInt(c.value)))
    ensures PgDo(p, Increment(k, ttl), now)
      == (p[k := SqlIncrement(p, k, ttl, now)], MemDo(m, Increment(k, ttl), now).1)
  {
    IntRoundTrip(1);
    assert FormatInt(1) == "1";
    if Live(m, k, now).Some? {
      assert k in p && p[k] == m[k];
      IntRoundTrip(ParseInt(m[k].value) + 1);
    }
  }

  lemma PutAlike(m: Table, p: Table, t: int, k: string, c: Cell, now: int)
    requires Alike(m, p, t) && t <= now
    ensures Alike(m[k := c], p[k := c], now)
  {
  }

  lemma CountsAlike(m: Table, p: Table, t: int, k: string, ttl: int, now: int)
    requires Alike(m, p, t) && t <= now && !Edge(m, Increment(k, ttl), now)
    ensures PgDo(p, Increment(k, ttl), now).1 == MemDo(m, Increment(k, ttl), now).1
    ensures Alike(MemDo(m, Increment(k, ttl), now).0, PgDo(p, Increment(k, ttl), now).0, now)
  {
    UpsertIsIncrement(m, p, t, k, ttl, now);
    PutAlike(m, p, t, k, SqlIncrement(p, k, ttl, now), now);
  }

  /** Tidy: the memory sweep runs and PostgreSQL reaps some of its expired rows, those named by keys. */
  datatype Event = Call(op: Op, now: int) | Tidy(now: int, keys: set<string>)

  ghost predicate Timed(evs: seq<Event>, t: int) {
    && (forall i :: 0 <= i < |evs| ==> t <= evs[i].now)
    && (forall i, j :: 0 <= i < j < |evs| ==> evs[i].now <= evs[j].now)
  }

  /** No call of the run meets an edge or is refused by a map at its cap. */
  ghost predicate NoEdge(m: Table, cap: int, evs: seq<Event>)
    decreases |evs|
  {
    evs == [] ||
    match evs[0]
    case Tidy(now, _) => NoEdge(Swept(m, now), cap, evs[1..])
    case Call(op, now) =>
      !Edge(m, op, now) && !Refuses(m, cap, op) && NoEdge(CappedDo(m, cap, op, now).0, cap, evs[1..])
  }

  ghost function MemAnswers(m: Table, cap: int, evs: seq<Event>): seq<Result>
    decreases |evs|
  {
    if evs == [] then []
    else match evs[0]
      case Tidy(now, _) => MemAnswers(Swept(m, now), cap, evs[1..])
      case Call(op, now) => [CappedDo(m, cap, op, now).1] + MemAnswers(CappedDo(m, cap, op, now).0, cap, evs[1..])
  }

  function PgReaped(p: Table, keys: set<string>, now: int): Table {
    map k | k in p && !(k in keys && Lapsed(p[k], now)) :: p[k]
  }

  ghost function PgAnswers(p: Table, evs: seq<Event>): seq<Result>
    decreases |evs|
  {
    if evs == [] then []
    else match evs[0]
      case Tidy(now, keys) => PgAnswers(PgReaped(p, keys, now), evs[1..])
      case Call(op, now) => [PgDo(p, op, now).1] + PgAnswers(PgDo(p, op, now).0, evs[1..])
  }

  /** Away from the edges and from refusals the capped map and the table answer every sequence of operations alike,
      through any number of sweeps on either side. */
  lemma {:induction false} MemoryAndPostgresAgree(m: Table, cap: int, p: Table, t: int, evs: seq<Event>)
    requires Alike(m, p, t) && Timed(evs, t) && NoEdge(m, cap, evs)
    ensures MemAnswers(m, cap, evs) == PgAnswers(p, evs)
    decreases |evs|
  {
    if evs != [] {
      var now := evs[0].now;
      assert Timed(evs[1..], now);
      match evs[0]
      case Tidy(_, keys) =>
        assert Alike(Swept(m, now), PgReaped(p, keys, now), now);
        MemoryAndPostgresAgree(Swept(m, now), cap, PgReaped(p, keys, now), now, evs[1..]);
      case Call(op, _) =>
        if op.Increment? { CountsAlike(m, p, t, op.key, op.ttl, now); } else { ReadsAlike(m, p, t, op, now); }
        MemoryAndPostgresAgree(MemDo(m, op, now).0, cap, PgDo(p, op, now).0, now, evs[1..]);
    }
  }

  /** The edges are exactly where the two part: on equal tables a call gives equal answers and equal tables if and only
      if it is not one of them. */
  lemma EdgesAreExact(m: Table, op: Op, now: int)
    ensures MemDo(m, op, now) == PgDo(m, op, now) <==> !Edge(m, op, now)
  {
    if op.Increment? {
      var k, c := op.key, if op.key in m then m[op.key] else Cell("", None);
      if !Edge(m, op, now) {
        UpsertIsIncrement(m, m, now, k, op.ttl, now);
      } else if !Lapsed(c, now) && !IsInteger(c.value) {
        assert PgDo(m, op, now).1 == NotANumber;
      } else {
        assert MemDo(m, op, now).0[k].expires == None && PgDo(m, op, now).0[k].expires.Some?;
      }
    } else {
      ReadsExact(m, op, now);
    }
  }

  lemma ReadsExact(m: Table, op: Op, now: int)
    requires !op.Increment?
    ensures MemDo(m, op, now) == PgDo(m, op, now) <==> !Edge(m, op, now)
  {
  }

  // ------------------------------------------------------------------ one fixed-window counter, three backends

  /** One key of the reference counter: its count and the end of the window the first increment opened. */
  datatype Window = Window(n: int, end: int)

  datatype Kind = Memory | Postgres | Redis(edgeLive: bool)

  const MS := 1_000_000

  datatype CounterOp = Incr(key: string, ttl: int) | Read(key: string) | Remove(key: string) | Evict(keys: set<string>)

  /** The counter all three are meant to be. */
  function RefDo(a: map<string, Window>, op: CounterOp, now: int): (map<string, Window>, Result) {
    match op
    case Incr(k, ttl) =>
      if k in a && now < a[k].end then (a[k := Window(a[k].n + 1, a[k].end)], Number(a[k].n + 1))
      else (a[k := Window(1, now + ttl)], Number(1))
    case Read(k) => (a, if k in a && now < a[k].end then Value(FormatInt(a[k].n)) else NotFound)
    case Remove(k) => (a - {k}, Done)
    case Evict(_) => (a, Done)
  }

  /** When a backend treats a key as gone and may drop it on its own. Redis's answer at the very millisecond of expiry
      is not fixed by this repository, so it is a parameter. */
  predicate Gone(be: Kind, c: Cell, now: int) {
    match be
    case Memory => Past(c, now)
    case Postgres => Lapsed(c, now)
    case Redis(edgeLive) => if edgeLive then Past(c, now) else Lapsed(c, now)
  }

  /** The script: INCR, which refuses text that is no number, then PEXPIRE on the first increment when the
      whole-millisecond TTL is positive. */
  function RedisIncrement(be: Kind, m: Table, k: string, ttl: int, now: int): (Table, Result) {
    var present := k in m && !Gone(be, m[k], now);
    var v := (if present then ParseInt(m[k].value) else 0) + 1;
    var ms := if ttl >= 0 then ttl / MS else -((-ttl) / MS);
    var kept := if present then m[k].expires else None;
    if present && !IsInteger(m[k].value) then (m, NotANumber)
    else (m[k := Cell(FormatInt(v), if v == 1 && ms > 0 then Some(now + ms * MS) else kept)], Number(v))
  }

  function BackendDo(be: Kind, m: Table, op: CounterOp, now: int): (Table, Result) {
    match op
    case Incr(k, ttl) =>
      (match be
       case Memory => MemDo(m, Increment(k, ttl), now)
       case Postgres => PgDo(m, Increment(k, ttl), now)
       case Redis(_) => RedisIncrement(be, m, k, ttl, now))
    case Read(k) =>
      (match be
       case Memory => MemDo(m, Get(k), now)
       case Postgres => PgDo(m, Get(k), now)
       case Redis(_) => (m, if k in m && !Gone(be, m[k], now) then Value(m[k].value) else NotFound))
    case Remove(k) => (m - {k}, Done)
    case Evict(ks) => (map k | k in m && !(k in ks && Gone(be, m[k], now)) :: m[k], Done)
  }

  /** m holds the reference's windows as text, except windows already over, which it may have dropped. */
  ghost predicate Holds(m: Table, a: map<string, Window>, t: int) {
    && (forall k :: k in m ==> k in a)
    && (forall k :: k in a ==> a[k].n >= 1)
    && (forall k :: k in m ==> m[k] == Cell(FormatInt(a[k].n), Some(a[k].end)))
    && (forall k :: k in a && k !in m ==> a[k].end <= t)
  }

  /** Positive whole-millisecond TTLs, and no access to a key at the very instant its window ends. */
  predicate Fair(be: Kind, a: map<string, Window>, op: CounterOp, now: int) {
    match op
    case Incr(k, ttl) => ttl > 0 && ttl % 1_000_000 == 0 && (be.Redis? && k in a ==> a[k].end != now)
    case Read(k) => k in a ==> a[k].end != now
    case _ => true
  }

  function CellOf(w: Window): Cell {
    Cell(FormatInt(w.n), Some(w.end))
  }

  /** What the reference makes of an increment of one key. */
  function NextWindow(a: map<string, Window>, k: string, ttl: int, now: int): Window {
    if k in a && now < a[k].end then Window(a[k].n + 1, a[k].end) else Window(1, now + ttl)
  }

  lemma RedisIncrementCell(be: Kind, m: Table, a: map<string, Window>, t: int, k: string, ttl: int, now: int)
    requires be.Redis? && Holds(m, a, t) && t <= now && Fair(be, a, Incr(k, ttl), now)
    ensures var w := NextWindow(a, k, ttl, now);
      RedisIncrement(be, m, k, ttl, now) == (m[k := CellOf(w)], Number(w.n))
  {
    var w := NextWindow(a, k, ttl, now);
    var present := k in m && !Gone(be, m[k], now);
    assert present <==> k in a && now < a[k].end;
    if present {
      IntRoundTrip(a[k].n);
      FormatIntIsInteger(a[k].n);
      assert w.n == ParseInt(m[k].value) + 1 > 1;
    }
    assert ttl / MS * MS == ttl && ttl / MS > 0;
  }

  lemma MemoryIncrementCell(m: Table, a: map<string, Window>, t: int, k: string, ttl: int, now: int)
    requires Holds(m, a, t) && t <= now && ttl > 0
    ensures var w := NextWindow(a, k, ttl, now);
      MemDo(m, Increment(k, ttl), now) == (m[k := CellOf(w)], Number(w.n))
  {
    if k in m {
      IntRoundTrip(a[k].n);
    }
  }

  lemma PostgresIncrementCell(m: Table, a: map<string, Window>, t: int, k: string, ttl: int, now: int)
    requires Holds(m, a, t) && t <= now && ttl > 0
    ensures var w := NextWindow(a, k, ttl, now);
      PgDo(m, Increment(k, ttl), now) == (m[k := CellOf(w)], Number(w.n))
  {
    var w := NextWindow(a, k, ttl, now);
    assert SqlIncrement(m, k, ttl, now) == CellOf(w) by {
      assert FormatInt(1) == "1";
      if k in m {
        IntRoundTrip(a[k].n);
      }
    }
    if k in m {
      FormatIntIsInteger(a[k].n);
    }
    IntRoundTrip(w.n);
  }

  /** Whatever the backend, an increment writes the reference's next window and returns its count. */
  lemma IncrementCell(be: Kind, m: Table, a: map<string, Window>, t: int, k: string, ttl: int, now: int)
    requires Holds(m, a, t) && t <= now && Fair(be, a, Incr(k, ttl), now)
    ensures var w := NextWindow(a, k, ttl, now);
      BackendDo(be, m, Incr(k, ttl), now) == (m[k := CellOf(w)], Number(w.n))
  {
    match be
    case Memory => MemoryIncrementCell(m, a, t, k, ttl, now);
    case Postgres => PostgresIncrementCell(m, a, t, k, ttl, now);
    case Redis(_) => RedisIncrementCell(be, m, a, t, k, ttl, now);
  }

  lemma PutHolds(m: Table, a: map<string, Window>, t: int, k: string, w: Window, now: int)
    requires Holds(m, a, t) && t <= now && w.n >= 1
    ensures Holds(m[k := CellOf(w)], a[k := w], now)
  {
  }

  lemma IncrRefines(be: Kind, m: Table, a: map<string, Window>, t: int, k: string, ttl: int, now: int)
    requires Holds(m, a, t) && t <= now && Fair(be, a, Incr(k, ttl), now)
    ensures BackendDo(be, m, Incr(k, ttl), now).1 == RefDo(a, Incr(k, ttl), now).1
    ensures Holds(BackendDo(be, m, Incr(k, ttl), now).0, RefDo(a, Incr(k, ttl), now).0, now)
  {
    var w := NextWindow(a, k, ttl, now);
    assert RefDo(a, Incr(k, ttl), now) == (a[k := w], Number(w.n));
    IncrementCell(be, m, a, t, k, ttl, now);
    PutHolds(m, a, t, k, w, now);
  }

  lemma OthersRefine(be: Kind, m: Table, a: map<string, Window>, t: int, op: CounterOp, now: int)
    requires Holds(m, a, t) && t <= now && Fair(be, a, op, now) && !op.Incr?
    ensures BackendDo(be, m, op, now).1 == RefDo(a, op, now).1
    ensures Holds(BackendDo(be, m, op, now).0, RefDo(a, op, now).0, now)
  {
  }

  datatype CounterCall = CounterCall(op: CounterOp, now: int)

  ghost predicate CallsTimed(cs: seq<CounterCall>, t: int) {
    && (forall i :: 0 <= i < |cs| ==> t <= cs[i].now)
    && (forall i, j :: 0 <= i < j < |cs| ==> cs[i].now <= cs[j].now)
  }

  ghost predicate AllFair(be: Kind, a: map<string, Window>, cs: seq<CounterCall>)
    decreases |cs|
  {
    cs == [] || (Fair(be, a, cs[0].op, cs[0].now) && AllFair(be, RefDo(a, cs[0].op, cs[0].now).0, cs[1..]))
  }

  ghost function RefAnswers(a: map<string, Window>, cs: seq<CounterCall>): seq<Result>
    decreases |cs|
  {
    if cs == [] then [] else [RefDo(a, cs[0].op, cs[0].now).1] + RefAnswers(RefDo(a, cs[0].op, cs[0].now).0, cs[1..])
  }

  ghost function BackendAnswers(be: Kind, m: Table, cs: seq<CounterCall>): seq<Result>
    decreases |cs|
  {
    if cs == [] then []
    else
      var (m', r) := BackendDo(be, m, cs[0].op, cs[0].now);
      [r] + BackendAnswers(be, m', cs[1..])
  }

  /** Every backend refines the one fixed-window counter: same answers to every run of increments, reads and deletes,
      with evictions of dead keys anywhere in between. */
  lemma {:induction false} CounterRefined(be: Kind, m: Table, a: map<string, Window>, t: int, cs: seq<CounterCall>)
    requires Holds(m, a, t) && CallsTimed(cs, t) && AllFair(be, a, cs)
    ensures BackendAnswers(be, m, cs) == RefAnswers(a, cs)
    decreases |cs|
  {
    if cs != [] {
      var op, now := cs[0].op, cs[0].now;
      if op.Incr? { IncrRefines(be, m, a, t, op.key, op.ttl, now); } else { OthersRefine(be, m, a, t, op, now); }
      assert CallsTimed(cs[1..], now);
      CounterRefined(be, BackendDo(be, m, op, now).0, RefDo(a, op, now).0, now, cs[1..]);
    }
  }

  ghost function BackendFinal(be: Kind, m: Table, cs: seq<CounterCall>): Table
    decreases |cs|
  {
    if cs == [] then m else BackendFinal(be, BackendDo(be, m, cs[0].op, cs[0].now).0, cs[1..])
  }

  ghost function Increments(cs: seq<CounterCall>, k: string): nat
    decreases |cs|
  {
    if cs == [] then 0 else (if cs[0].op.Incr? && cs[0].op.key == k then 1 else 0) + Increments(cs[1..], k)
  }

  predicate Before(now: int, exp: Option<int>) {
    exp.Some? ==> now < exp.value
  }

  /** An increment of a live counter; SQL alone replaces a missing expiry. */
  lemma LiveIncrement(be: Kind, m: Table, k: string, ttl: int, now: int, n: int, exp: Option<int>)
    requires k in m && m[k] == Cell(FormatInt(n), exp) && n >= 1 && Before(now, exp) && (exp.None? ==> !be.Postgres?)
    ensures BackendDo(be, m, Incr(k, ttl), now).0 == m[k := Cell(FormatInt(n + 1), exp)]
  {
    IntRoundTrip(n);
    FormatIntIsInteger(n);
  }

  /** Any other call but its removal leaves a live counter alone. */
  lemma LiveOther(be: Kind, m: Table, op: CounterOp, now: int, k: string)
    requires k in m && Before(now, m[k].expires) && op != Remove(k) && !(op.Incr? && op.key == k)
    ensures var m' := BackendDo(be, m, op, now).0; k in m' && m'[k] == m[k]
  {
  }

  lemma LiveStep(be: Kind, m: Table, c: CounterCall, k: string, n: int, exp: Option<int>)
    requires k in m && m[k] == Cell(FormatInt(n), exp) && n >= 1 && Before(c.now, exp) && c.op != Remove(k)
    requires exp.None? ==> !be.Postgres?
    ensures var m' := BackendDo(be, m, c.op, c.now).0;
      k in m' && m'[k] == Cell(FormatInt(n + Increments([c], k)), exp)
  {
    assert [c][1..] == [];
    if c.op.Incr? && c.op.key == k {
      LiveIncrement(be, m, k, c.op.ttl, c.now, n, exp);
    } else {
      LiveOther(be, m, c.op, c.now, k);
    }
  }

  /** A live counter keeps its expiry and counts every increment, whatever TTLs they carry. */
  lemma {:induction false} LiveCounterKept(be: Kind, m: Table, cs: seq<CounterCall>, k: string, n: int,
                                           exp: Option<int>)
    requires k in m && m[k] == Cell(FormatInt(n), exp) && n >= 1 && (exp.None? ==> !be.Postgres?)
    requires forall i :: 0 <= i < |cs| ==> Before(cs[i].now, exp) && cs[i].op != Remove(k)
    ensures var m' := BackendFinal(be, m, cs); k in m' && m'[k] == Cell(FormatInt(n + Increments(cs, k)), exp)
    decreases |cs|
  {
    if cs != [] {
      var m', n' := BackendDo(be, m, cs[0].op, cs[0].now).0, n + Increments([cs[0]], k);
      LiveStep(be, m, cs[0], k, n, exp);
      assert [cs[0]][1..] == [];
      LiveCounterKept(be, m', cs[1..], k, n', exp);
      assert n + Increments(cs, k) == n' + Increments(cs[1..], k);
      assert BackendFinal(be, m, cs) == BackendFinal(be, m', cs[1..]);
    }
  }

  /** The window is fixed in all three backends: increments inside it never move its end and are all counted. */
  lemma WindowNeverMoves(be: Kind, m: Table, cs: seq<CounterCall>, k: string, w: Window)
    requires k in m && m[k] == CellOf(w) && w.n >= 1
    requires forall i :: 0 <= i < |cs| ==> cs[i].now < w.end && cs[i].op != Remove(k)
    ensures var m' := BackendFinal(be, m, cs); k in m' && m'[k] == CellOf(Window(w.n + Increments(cs, k), w.end))
  {
    LiveCounterKept(be, m, cs, k, w.n, Some(w.end));
  }

  /** Below one millisecond the script sets no expiry: the counter it starts outlives every later run of increments,
      reads and evictions, at any times, until it is removed. The map's own ends with its TTL. */
  lemma SubMillisecondNeverEnds(be: Kind, m: Table, k: string, ttl: int, now: int, cs: seq<CounterCall>, later: int)
    requires be.Redis? && 0 < ttl < 1_000_000 && k !in m && now + ttl <= later
    requires forall i :: 0 <= i < |cs| ==> cs[i].op != Remove(k)
    ensures var m' := BackendFinal(be, BackendDo(be, m, Incr(k, ttl), now).0, cs);
      && k in m' && m'[k] == Cell(FormatInt(1 + Increments(cs, k)), None)
      && BackendDo(be, m', Incr(k, ttl), later).1 == Number(2 + Increments(cs, k))
    ensures MemDo(MemDo(m, Increment(k, ttl), now).0, Increment(k, ttl), later).1 == Number(1)
  {
    StartsPermanent(be, m, k, ttl, now);
    LiveCounterKept(be, BackendDo(be, m, Incr(k, ttl), now).0, cs, k, 1, None);
    CountsOn(be, BackendFinal(be, BackendDo(be, m, Incr(k, ttl), now).0, cs), k, 1 + Increments(cs, k), ttl, later);
    MapRestarts(m, k, ttl, now, later);
  }

  lemma StartsPermanent(be: Kind, m: Table, k: string, ttl: int, now: int)
    requires be.Redis? && 0 < ttl < 1_000_000 && k !in m
    ensures var m' := BackendDo(be, m, Incr(k, ttl), now).0; k in m' && m'[k] == Cell(FormatInt(1), None)
  {
    assert ttl / MS == 0;
  }

  lemma CountsOn(be: Kind, m: Table, k: string, n: int, ttl: int, now: int)
    requires be.Redis? && k in m && m[k] == Cell(FormatInt(n), None)
    ensures BackendDo(be, m, Incr(k, ttl), now).1 == Number(n + 1)
  {
    IntRoundTrip(n);
    FormatIntIsInteger(n);
  }

  lemma MapRestarts(m: Table, k: string, ttl: int, now: int, later: int)
    requires 0 < ttl && k !in m && now + ttl <= later
    ensures MemDo(MemDo(m, Increment(k, ttl), now).0, Increment(k, ttl), later).1 == Number(1)
  {
    assert MemDo(m, Increment(k, ttl), now).0[k].expires == Some(now + ttl);
  }

  /** Whether the script and the map agree on an increment. On a live counter they do unless its text is no number, or
      it stands at 0 and the script's new expiry is not the one it has. Where the map starts anew the script does too if
      it no longer holds the key and the TTL is not positive or in whole milliseconds; if it still holds it, at the very
      instant of expiry, it must stand at 0 and get the map's expiry. */
  predicate ScriptAgrees(be: Kind, m: Table, k: string, ttl: int, now: int)
    requires be.Redis?
  {
    var start := StartExpiry(ttl, now);
    if Live(m, k, now).Some? then
      IsInteger(m[k].value) && (ParseInt(m[k].value) == 0 && start.Some? ==> m[k].expires == start)
    else if be.edgeLive && k in m && m[k].expires == Some(now) then
      IsInteger(m[k].value) && ParseInt(m[k].value) == 0 && ttl > 0 && ttl % 1_000_000 == 0
    else ttl <= 0 || ttl % 1_000_000 == 0
  }

  /** Exactly when the script does what the map does, for every table, key, TTL and time. */
  lemma ScriptIsIncrementIff(be: Kind, m: Table, k: string, ttl: int, now: int)
    requires be.Redis?
    ensures RedisIncrement(be, m, k, ttl, now) == MemDo(m, Increment(k, ttl), now) <==> ScriptAgrees(be, m, k, ttl, now)
  {
    var r, g := RedisIncrement(be, m, k, ttl, now), MemDo(m, Increment(k, ttl), now);
    StartIffWhole(ttl, now);
    if k in m && !Gone(be, m[k], now) {
      HeldByRedis(be, m, k, ttl, now);
    } else {
      assert r.0[k].expires == StartExpiry(ttl, now) && g.0[k].expires == Expiry(now, ttl);
    }
  }

  lemma HeldByRedis(be: Kind, m: Table, k: string, ttl: int, now: int)
    requires be.Redis? && k in m && !Gone(be, m[k], now)
    ensures RedisIncrement(be, m, k, ttl, now) == MemDo(m, Increment(k, ttl), now) <==> ScriptAgrees(be, m, k, ttl, now)
  {
    var n, r, g := ParseInt(m[k].value), RedisIncrement(be, m, k, ttl, now), MemDo(m, Increment(k, ttl), now);
    StartIffWhole(ttl, now);
    if IsInteger(m[k].value) {
      var exp := if n == 0 && StartExpiry(ttl, now).Some? then StartExpiry(ttl, now) else m[k].expires;
      assert r == (m[k := Cell(FormatInt(n + 1), exp)], Number(n + 1));
      assert r.0[k].expires == exp;
      assert g.0[k].expires == if Live(m, k, now).Some? then m[k].expires else Expiry(now, ttl);
    }
  }

  /** The expiry the script gives a counter it starts. */
  function StartExpiry(ttl: int, now: int): Option<int> {
    var ms := if ttl >= 0 then ttl / MS else -((-ttl) / MS);
    if ms > 0 then Some(now + ms * MS) else None
  }

  lemma StartIffWhole(ttl: int, now: int)
    ensures StartExpiry(ttl, now) == Expiry(now, ttl) <==> ttl <= 0 || ttl % 1_000_000 == 0
  {
    assert ttl >= 0 ==> ttl == ttl / MS * MS + ttl % MS;
  }
}
