/** The exact number of events the alert detector needs: no run can do with fewer. */
module AlertBound {
  import opened Common
  import opened AlertDetector
  import opened AlertRuns
  import opened AlertDetection

  /** The least number of events of one key, within less than a window and outside a cooldown, that cannot pass
      unnoticed. Only an alert leaves a count of zero, so where the cooldown lasts as long as the window an old window
      always holds an event already. */
  function Bound(r: Rule): int {
    if r.window == 1 || r.threshold == 1 then r.threshold
    else if r.cooldown < r.window then 2 * r.threshold - 1
    else 2 * r.threshold - 2
  }

  // ------------------------------------------------------------------ enough

  /** A live counter holds an event, or has just alerted. */
  ghost predicate Earned(c: Counter, r: Rule) {
    c.count >= 1 || (c.count == 0 && c.silentUntil == c.openedAt + r.cooldown)
  }

  ghost predicate KeyEarned(s: State, k: string, r: Rule) {
    k in s.counters ==> Earned(s.counters[k], r)
  }

  /** k stands for rule r throughout. */
  ghost predicate Obeys(evs: seq<Event>, k: string, r: Rule) {
    forall j :: 0 <= j < |evs| && KeyOf(evs[j]) == k ==> evs[j].rule == r
  }

  lemma CountKeepsEarned(s: State, ev: Event, k: string, r: Rule)
    requires KeyEarned(s, k, r) && (KeyOf(ev) == k ==> ev.rule == r)
    ensures KeyEarned(Count(s, ev).0, k, r)
  {
    if Admits(s, ev) {
      CountAdmitted(s, ev);
    } else {
      CountRefused(s, ev);
    }
  }

  lemma {:induction false} RunKeepsEarned(s: State, evs: seq<Event>, k: string, r: Rule)
    requires KeyEarned(s, k, r) && Obeys(evs, k, r)
    ensures KeyEarned(Run(s, evs), k, r)
    decreases |evs|
  {
    if evs != [] {
      CountKeepsEarned(s, evs[0], k, r);
      RunKeepsEarned(Count(s, evs[0]).0, evs[1..], k, r);
    }
  }

  lemma BudgetUnderBound(s: State, evs: seq<Event>, k: string, r: Rule)
    requires r.Valid() && Burst(s, evs, k, r) && KeyEarned(s, k, r)
    ensures Budget(Start(s, evs, k, r), r, evs[|evs| - 1].now) < Bound(r)
  {
    assert evs[0].now <= evs[|evs| - 1].now;
  }

  // ------------------------------------------------------------------ not fewer

  /** An event of one fixed key. */
  function At(r: Rule, t: int): Event {
    Event(t, r, "", "source", "k")
  }

  ghost function Events(r: Rule, ts: seq<int>): seq<Event> {
    seq(|ts|, i requires 0 <= i < |ts| => At(r, ts[i]))
  }

  /** The detector with that one key. */
  function One(maxKeys: nat, r: Rule, c: Counter): State {
    Init(maxKeys).(counters := map[KeyOf(At(r, 0)) := c])
  }

  lemma OneStep(maxKeys: nat, r: Rule, c: Counter, t: int)
    ensures Count(One(maxKeys, r, c), At(r, t)) == (One(maxKeys, r, Tick(c, t, r).0), Raised(At(r, t), Tick(c, t, r).1))
  {
    assert KeyOf(At(r, t)) == KeyOf(At(r, 0));
    CountAdmitted(One(maxKeys, r, c), At(r, t));
    assert map[KeyOf(At(r, 0)) := c][KeyOf(At(r, 0)) := Tick(c, t, r).0] == map[KeyOf(At(r, 0)) := Tick(c, t, r).0];
  }

  /** A history replayed from its second event on. */
  lemma AfterFirst(c: Counter, ts: seq<int>, r: Rule)
    requires ts != []
    ensures After(c, ts, r) == After(Tick(c, ts[0], r).0, ts[1..], r)
    ensures forall i :: 0 < i < |ts| ==> Outcome(c, ts, i, r) == Outcome(Tick(c, ts[0], r).0, ts[1..], i - 1, r)
  {
    var first := [ts[0]];
    assert first[..0] == [] && After(c, first, r) == Tick(c, ts[0], r).0;
    assert ts == first + ts[1..];
    AfterConcat(c, first, ts[1..], r);
    forall i | 0 < i < |ts| ensures Outcome(c, ts, i, r) == Outcome(Tick(c, ts[0], r).0, ts[1..], i - 1, r) {
      assert ts[..i] == first + ts[1..][..i - 1];
      AfterConcat(c, first, ts[1..][..i - 1], r);
    }
  }

  /** A run of one key is its counter's history. */
  lemma {:induction false} OneRun(maxKeys: nat, r: Rule, c: Counter, ts: seq<int>)
    ensures Run(One(maxKeys, r, c), Events(r, ts)) == One(maxKeys, r, After(c, ts, r))
    ensures forall i :: 0 <= i < |ts| ==>
      (Alerts(One(maxKeys, r, c), Events(r, ts))[i].Some? <==> Outcome(c, ts, i, r).Some?)
    decreases |ts|
  {
    if ts != [] {
      var c', evs := Tick(c, ts[0], r).0, Events(r, ts);
      OneStep(maxKeys, r, c, ts[0]);
      assert evs[1..] == Events(r, ts[1..]);
      OneRun(maxKeys, r, c', ts[1..]);
      AfterFirst(c, ts, r);
      assert ts[..0] == [];
    }
  }

  /** The first event of all admits the key. */
  lemma FirstAdmits(maxKeys: nat, r: Rule, ts: seq<int>)
    requires maxKeys >= 1 && ts != []
    ensures Run(Init(maxKeys), Events(r, ts)) == Run(One(maxKeys, r, NewCounter(ts[0])), Events(r, ts))
    ensures Alerts(Init(maxKeys), Events(r, ts)) == Alerts(One(maxKeys, r, NewCounter(ts[0])), Events(r, ts))
  {
    var ev := Events(r, ts)[0];
    assert KeyOf(ev) == KeyOf(At(r, 0));
    assert Count(Init(maxKeys), ev) == Count(One(maxKeys, r, NewCounter(ts[0])), ev);
  }

  lemma {:induction false} AllMine(r: Rule, ts: seq<int>)
    ensures KeyEvents(Events(r, ts), KeyOf(At(r, 0))) == |ts|
    decreases |ts|
  {
    if ts != [] {
      assert Events(r, ts)[1..] == Events(r, ts[1..]);
      assert KeyOf(Events(r, ts)[0]) == KeyOf(At(r, 0));
      AllMine(r, ts[1..]);
    }
  }

  /** A run from the start, ts following past, in which no event of ts raises anything. */
  ghost predicate PassesUnseen(maxKeys: nat, r: Rule, past: seq<int>, ts: seq<int>) {
    && Timed(Events(r, past) + Events(r, ts), 0)
    && Burst(Run(Init(maxKeys), Events(r, past)), Events(r, ts), KeyOf(At(r, 0)), r)
    && forall i :: 0 <= i < |ts| ==> Alerts(Run(Init(maxKeys), Events(r, past)), Events(r, ts))[i].None?
  }

  /** The counter a history leaves in the detector. */
  lemma LeavesOne(maxKeys: nat, r: Rule, past: seq<int>)
    requires maxKeys >= 1 && past != []
    ensures Run(Init(maxKeys), Events(r, past)) == One(maxKeys, r, After(NewCounter(past[0]), past, r))
  {
    FirstAdmits(maxKeys, r, past);
    OneRun(maxKeys, r, NewCounter(past[0]), past);
  }

  lemma TimedEvents(r: Rule, xs: seq<int>, ys: seq<int>)
    requires Sorted(xs + ys) && (xs + ys != [] ==> (xs + ys)[0] >= 0)
    ensures Timed(Events(r, xs) + Events(r, ys), 0)
  {
    var ts, evs := xs + ys, Events(r, xs) + Events(r, ys);
    assert forall i :: 0 <= i < |ts| ==> evs[i].now == ts[i];
    assert forall i :: 0 < i < |ts| ==> ts[0] <= ts[i];
  }

  lemma OneBurst(maxKeys: nat, r: Rule, c: Counter, ts: seq<int>)
    requires ts != [] && Sorted(ts) && ts[0] >= 0 && ts[|ts| - 1] - ts[0] < r.window && c.silentUntil <= ts[0]
    ensures Burst(One(maxKeys, r, c), Events(r, ts), KeyOf(At(r, 0)), r)
  {
    var evs, k := Events(r, ts), KeyOf(At(r, 0));
    assert Timed(evs, 0) by {
      assert [] + ts == ts && Events(r, []) + evs == evs;
      TimedEvents(r, [], ts);
    }
    assert KeyOf(evs[0]) == k;
    assert Admits(One(maxKeys, r, c), evs[0]);
  }

  lemma OneUnseen(maxKeys: nat, r: Rule, c: Counter, ts: seq<int>)
    requires forall i :: 0 <= i < |ts| ==> Outcome(c, ts, i, r).None?
    ensures forall i :: 0 <= i < |ts| ==> Alerts(One(maxKeys, r, c), Events(r, ts))[i].None?
  {
    OneRun(maxKeys, r, c, ts);
  }

  /** After a history at 0 that leaves a count below two in a window opened at 0, with no silence beyond its last
      instant, the straddling events pass unseen. */
  lemma StraddlingUnseen(maxKeys: nat, r: Rule, past: seq<int>, c: Counter)
    requires r.Valid() && maxKeys >= 1 && r.window >= 2 && r.threshold >= 2
    requires past != [] && (forall i :: 0 <= i < |past| ==> past[i] == 0) && c == After(NewCounter(0), past, r)
    requires 0 <= c.count <= 1 && c.openedAt == 0 && c.silentUntil < r.window
    ensures PassesUnseen(maxKeys, r, past, Straddling(r, c.count))
  {
    var ts := Straddling(r, c.count);
    LeavesOne(maxKeys, r, past);
    TimedEvents(r, past, ts);
    OneBurst(maxKeys, r, c, ts);
    forall i | 0 <= i < |ts| ensures Outcome(c, ts, i, r).None? {
      StraddlingIsQuiet(c, r, i);
    }
    OneUnseen(maxKeys, r, c, ts);
  }

  lemma {:induction false} Counting(n: nat, r: Rule)
    requires r.Valid() && n < r.threshold
    ensures var c := After(NewCounter(0), Rep(n, 0), r); c.count == n && c.openedAt == 0 && c.silentUntil == 0
  {
    if n > 0 {
      Counting(n - 1, r);
      assert Rep(n, 0)[..n - 1] == Rep(n - 1, 0);
    }
  }

  /** Threshold events at 0 end in an alert, one event in a count of one. */
  lemma Pasts(r: Rule)
    requires r.Valid() && r.threshold >= 2
    ensures var c := After(NewCounter(0), Rep(r.threshold, 0), r);
      c.count == 0 && c.openedAt == 0 && c.silentUntil == r.cooldown
    ensures var c := After(NewCounter(0), Rep(1, 0), r); c.count == 1 && c.openedAt == 0 && c.silentUntil == 0
  {
    var n := r.threshold;
    Counting(n - 1, r);
    assert Rep(n, 0)[..n - 1] == Rep(n - 1, 0);
    Counting(1, r);
  }

  /** One event fewer than the bound can pass unseen, in a run of every detector. */
  lemma OneFewerUnseen(maxKeys: nat, r: Rule) returns (past: seq<int>, ts: seq<int>)
    requires r.Valid() && maxKeys >= 1 && r.threshold >= 2
    ensures PassesUnseen(maxKeys, r, past, ts) && |ts| == Bound(r) - 1
  {
    if r.window == 1 {
      past, ts := [], Rep(r.threshold - 1, 0);
      InstantUnseen(maxKeys, r);
    } else {
      Pasts(r);
      past := Rep(if r.cooldown < r.window then r.threshold else 1, 0);
      var c := After(NewCounter(0), past, r);
      ts := Straddling(r, c.count);
      StraddlingUnseen(maxKeys, r, past, c);
    }
  }

  lemma InstantUnseen(maxKeys: nat, r: Rule)
    requires r.Valid() && maxKeys >= 1 && r.threshold >= 2
    ensures PassesUnseen(maxKeys, r, [], Rep(r.threshold - 1, 0))
  {
    var ts := Rep(r.threshold - 1, 0);
    FirstAdmits(maxKeys, r, ts);
    OneRun(maxKeys, r, NewCounter(0), ts);
    assert Events(r, []) == [];
    forall i | 0 <= i < |ts| ensures Outcome(NewCounter(0), ts, i, r).None? {
      Counting(i, r);
      assert ts[..i] == Rep(i, 0);
    }
    assert KeyOf(At(r, ts[0])) == KeyOf(At(r, 0));
  }

  // ------------------------------------------------------------------ exactly

  /** Whatever came before, n events of one key within less than a window and outside a cooldown always raise. */
  ghost predicate Detects(maxKeys: nat, r: Rule, n: nat) {
    forall past, evs, k ::
      (Timed(past + evs, 0) && Obeys(past, k, r)
       && Burst(Run(Init(maxKeys), past), evs, k, r) && KeyEvents(evs, k) >= n) ==>
        exists i :: RaisesAt(Run(Init(maxKeys), past), evs, i) && KeyOf(evs[i]) == k
  }

  lemma EnoughDetects(maxKeys: nat, r: Rule, n: nat)
    requires r.Valid() && n >= Bound(r)
    ensures Detects(maxKeys, r, n)
  {
    forall past, evs, k | Timed(past + evs, 0) && Obeys(past, k, r)
      && Burst(Run(Init(maxKeys), past), evs, k, r) && KeyEvents(evs, k) >= n
      ensures exists i :: RaisesAt(Run(Init(maxKeys), past), evs, i) && KeyOf(evs[i]) == k
    {
      RunKeepsEarned(Init(maxKeys), past, k, r);
      BudgetUnderBound(Run(Init(maxKeys), past), evs, k, r);
      var i := OverBudget(Run(Init(maxKeys), past), evs, k, r);
    }
  }

  lemma FewerDoNot(maxKeys: nat, r: Rule, n: nat)
    requires r.Valid() && maxKeys >= 1 && 1 <= n < Bound(r)
    ensures !Detects(maxKeys, r, n)
  {
    var past, ts := OneFewerUnseen(maxKeys, r);
    var k, before, evs := KeyOf(At(r, 0)), Events(r, past), Events(r, ts);
    AllMine(r, ts);
    assert Obeys(before, k, r);
    assert forall i :: !RaisesAt(Run(Init(maxKeys), before), evs, i);
  }

  /** The detection bound is exact, for every rule and every detector: n events always raise if and only if n reaches
      it. */
  lemma DetectsIff(maxKeys: nat, r: Rule, n: nat)
    requires r.Valid() && maxKeys >= 1 && n >= 1
    ensures Detects(maxKeys, r, n) <==> n >= Bound(r)
  {
    if n >= Bound(r) {
      EnoughDetects(maxKeys, r, n);
    } else {
      FewerDoNot(maxKeys, r, n);
    }
  }
}
