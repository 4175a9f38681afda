/** What the alert detector must and must not raise, over every run. */
module AlertRuns {
  import opened Common
  import opened AlertDetector

  function Init(maxKeys: nat): State {
    State(maxKeys, map[], 0)
  }

  ghost function Run(s: State, evs: seq<Event>): State
    decreases |evs|
  {
    if evs == [] then s else Run(Count(s, evs[0]).0, evs[1..])
  }

  /** What each event of a run raises. */
  ghost function Alerts(s: State, evs: seq<Event>): (r: seq<Option<Alert>>)
    ensures |r| == |evs|
    decreases |evs|
  {
    if evs == [] then [] else [Count(s, evs[0]).1] + Alerts(Count(s, evs[0]).0, evs[1..])
  }

  /** The clock never goes back and starts at or after t. */
  ghost predicate Timed(evs: seq<Event>, t: int) {
    && (forall i :: 0 <= i < |evs| ==> t <= evs[i].now)
    && (forall i, j :: 0 <= i < j < |evs| ==> evs[i].now <= evs[j].now)
  }

  /** No event of the run is turned away by a full map. */
  ghost predicate Unrefused(s: State, evs: seq<Event>)
    decreases |evs|
  {
    evs == [] || (Admits(s, evs[0]) && Unrefused(Count(s, evs[0]).0, evs[1..]))
  }

  lemma TimedTail(evs: seq<Event>, t: int)
    requires Timed(evs, t) && evs != []
    ensures Timed(evs[1..], evs[0].now)
  {
  }
}

/** Detection: enough events close together always raise an alert. */
module AlertDetection {
  import opened Common
  import opened AlertDetector
  import opened AlertRuns

  /** Events of key k in a run. */
  ghost function KeyEvents(evs: seq<Event>, k: string): nat
    decreases |evs|
  {
    if evs == [] then 0 else (if KeyOf(evs[0]) == k then 1 else 0) + KeyEvents(evs[1..], k)
  }

  /** Event i raises its own rule's alert. */
  ghost predicate RaisesAt(s: State, evs: seq<Event>, i: nat) {
    i < |evs| && Alerts(s, evs)[i].Some? && Alerts(s, evs)[i] == Some(AlertFor(evs[i], Alerts(s, evs)[i].value.count))
  }

  /** How many more events up to time end can pass without an alert: the rest of this window's allowance, and a whole
      allowance more if the window can still reopen before end. */
  ghost function Budget(c: Counter, r: Rule, end: int): int {
    (if end - c.openedAt < r.window then 0 else r.threshold - 1)
    + (if c.count < r.threshold - 1 then r.threshold - 1 - c.count else 0)
  }

  /** Every event that raises nothing uses up at least one unit of the budget. */
  lemma QuietEventCosts(c: Counter, now: int, r: Rule, end: int)
    requires r.Valid() && c.silentUntil <= now <= end && end - now < r.window
    requires Tick(c, now, r).1.None?
    ensures Budget(Tick(c, now, r).0, r, end) < Budget(c, r, end)
    ensures Tick(c, now, r).0.silentUntil == c.silentUntil && end < Tick(c, now, r).0.deadAfter
  {
  }

  lemma BudgetNotNegative(c: Counter, r: Rule, end: int)
    requires r.Valid()
    ensures Budget(c, r, end) >= 0
  {
  }

  /** A counter not yet dead survives any other key's event, reclamation included. */
  lemma OthersLeaveItAlone(s: State, ev: Event, k: string)
    requires k in s.counters && KeyOf(ev) != k && ev.now < s.counters[k].deadAfter
    ensures k in Count(s, ev).0.counters && Count(s, ev).0.counters[k] == s.counters[k]
  {
    assert k in Roomy(s, ev.now).counters;
  }

  lemma RaisesLater(s: State, evs: seq<Event>, i: nat)
    requires evs != [] && RaisesAt(Count(s, evs[0]).0, evs[1..], i)
    ensures RaisesAt(s, evs, i + 1)
  {
  }

  lemma {:induction false} BudgetRunsOut(s: State, evs: seq<Event>, k: string, r: Rule, end: int) returns (i: nat)
    requires r.Valid() && k in s.counters
    requires Timed(evs, 0) && (forall j :: 0 <= j < |evs| ==> evs[j].now <= end && end - evs[j].now < r.window)
    requires forall j :: 0 <= j < |evs| && KeyOf(evs[j]) == k ==> evs[j].rule == r
    requires forall j :: 0 <= j < |evs| ==> s.counters[k].silentUntil <= evs[j].now
    requires end < s.counters[k].deadAfter
    requires KeyEvents(evs, k) > Budget(s.counters[k], r, end)
    ensures RaisesAt(s, evs, i) && KeyOf(evs[i]) == k
    decreases |evs|
  {
    BudgetNotNegative(s.counters[k], r, end);
    var ev, s' := evs[0], Count(s, evs[0]).0;
    if KeyOf(ev) == k && Count(s, ev).1.Some? {
      return 0;
    }
    if KeyOf(ev) == k {
      QuietEventCosts(s.counters[k], ev.now, r, end);
    } else {
      OthersLeaveItAlone(s, ev, k);
    }
    i := BudgetRunsOut(s', evs[1..], k, r, end);
    RaisesLater(s, evs, i);
    i := i + 1;
  }

  ghost predicate Sane(s: State) {
    forall k :: k in s.counters ==> s.counters[k].count >= 0
  }

  lemma CountKeepsSane(s: State, ev: Event)
    requires Sane(s)
    ensures Sane(Count(s, ev).0)
  {
  }

  /** An admitted key's events within less than one window, with no cooldown running. */
  ghost predicate Burst(s: State, evs: seq<Event>, k: string, r: Rule) {
    && evs != [] && Timed(evs, 0) && evs[|evs| - 1].now - evs[0].now < r.window
    && (forall j :: 0 <= j < |evs| && KeyOf(evs[j]) == k ==> evs[j].rule == r)
    && KeyOf(evs[0]) == k && Admits(s, evs[0])
    && (k in s.counters ==> s.counters[k].silentUntil <= evs[0].now)
  }

  /** The counter a burst really starts from: reopened when its window is over. */
  ghost function Start(s: State, evs: seq<Event>, k: string, r: Rule): Counter
    requires Burst(s, evs, k, r)
  {
    var c, now := Mine(s, evs[0]), evs[0].now;
    if now - c.openedAt >= r.window then c.(count := 0, openedAt := now) else c
  }

  /** A burst of more events than its counter's budget raises the alert, whatever other keys do meanwhile. */
  lemma OverBudget(s: State, evs: seq<Event>, k: string, r: Rule) returns (i: nat)
    requires r.Valid() && Burst(s, evs, k, r)
    requires KeyEvents(evs, k) > Budget(Start(s, evs, k, r), r, evs[|evs| - 1].now)
    ensures RaisesAt(s, evs, i) && KeyOf(evs[i]) == k
  {
    var ev, end, c := evs[0], evs[|evs| - 1].now, Start(s, evs, k, r);
    assert Tick(c, ev.now, r) == Tick(Mine(s, ev), ev.now, r);
    CountAdmitted(s, ev);
    if Count(s, ev).1.Some? {
      return 0;
    }
    QuietEventCosts(c, ev.now, r, end);
    i := BudgetRunsOut(Count(s, ev).0, evs[1..], k, r, end);
    RaisesLater(s, evs, i);
    i := i + 1;
  }

  /** Detection bound: 2 * Threshold - 1 events of one admitted key within less than one window, with no cooldown
      running, include one that raises an alert, however the window tumbles and whatever other keys do meanwhile. */
  lemma DetectionBound(s: State, evs: seq<Event>, k: string, r: Rule) returns (i: nat)
    requires Sane(s) && r.Valid() && Burst(s, evs, k, r) && KeyEvents(evs, k) >= 2 * r.threshold - 1
    ensures RaisesAt(s, evs, i) && KeyOf(evs[i]) == k
  {
    i := OverBudget(s, evs, k, r);
  }

  lemma {:induction false} RunKeepsSane(s: State, evs: seq<Event>)
    requires Sane(s)
    ensures Sane(Run(s, evs))
    decreases |evs|
  {
    if evs != [] {
      CountKeepsSane(s, evs[0]);
      RunKeepsSane(Count(s, evs[0]).0, evs[1..]);
    }
  }

  /** The bound holds after any run of a detector of any size. */
  lemma DetectedAfterAnyRun(maxKeys: nat, past: seq<Event>, evs: seq<Event>, k: string, r: Rule) returns (i: nat)
    requires r.Valid() && Burst(Run(Init(maxKeys), past), evs, k, r) && KeyEvents(evs, k) >= 2 * r.threshold - 1
    ensures RaisesAt(Run(Init(maxKeys), past), evs, i) && KeyOf(evs[i]) == k
  {
    RunKeepsSane(Init(maxKeys), past);
    i := DetectionBound(Run(Init(maxKeys), past), evs, k, r);
  }

  // ------------------------------------------------------------------ one live counter's history

  ghost function After(c: Counter, ts: seq<int>, r: Rule): Counter {
    if ts == [] then c else Tick(After(c, ts[..|ts| - 1], r), ts[|ts| - 1], r).0
  }

  /** What the event at index i of a live counter's history raises. */
  ghost function Outcome(c: Counter, ts: seq<int>, i: nat, r: Rule): Option<int>
    requires i < |ts|
  {
    Tick(After(c, ts[..i], r), ts[i], r).1
  }

  ghost function Rep(n: nat, t: int): seq<int> {
    seq(n, _ => t)
  }

  lemma {:induction false} QuietRun(c: Counter, n: nat, t: int, r: Rule)
    requires r.Valid() && t - c.openedAt < r.window && c.count + n < r.threshold
    ensures After(c, Rep(n, t), r).count == c.count + n && After(c, Rep(n, t), r).openedAt == c.openedAt
  {
    if n > 0 {
      QuietRun(c, n - 1, t, r);
      assert Rep(n, t)[..n - 1] == Rep(n - 1, t);
    }
  }

  lemma {:induction false} AfterConcat(c: Counter, xs: seq<int>, ys: seq<int>, r: Rule)
    ensures After(c, xs + ys, r) == After(After(c, xs, r), ys, r)
  {
    if ys == [] {
      assert xs + ys == xs;
    } else {
      AfterConcat(c, xs, ys[..|ys| - 1], r);
      assert (xs + ys)[..|xs + ys| - 1] == xs + ys[..|ys| - 1];
    }
  }

  /** A window opened at 0 lets what is left of its allowance pass at its last instant, and a whole allowance more at
      the instant it reopens. */
  ghost function Straddling(r: Rule, count: nat): seq<int>
    requires count < r.threshold
  {
    Rep(r.threshold - 1 - count, r.window - 1) + Rep(r.threshold - 1, r.window)
  }

  lemma StraddlingIsQuiet(c: Counter, r: Rule, i: nat)
    requires r.Valid() && 0 <= c.count < r.threshold && c.openedAt == 0 && i < |Straddling(r, c.count)|
    ensures Outcome(c, Straddling(r, c.count), i, r) == None
  {
    var n, w, ts := r.threshold - 1 - c.count, r.window, Straddling(r, c.count);
    if i < n {
      assert ts[..i] == Rep(i, w - 1);
      QuietRun(c, i, w - 1, r);
    } else {
      assert ts[..i] == Rep(n, w - 1) + Rep(i - n, w);
      AfterConcat(c, Rep(n, w - 1), Rep(i - n, w), r);
      QuietRun(c, n, w - 1, r);
      ReopensOnce(After(c, Rep(n, w - 1), r), i - n, w, r);
    }
  }

  lemma ReopensOnce(c: Counter, n: nat, t: int, r: Rule)
    requires r.Valid() && t - c.openedAt >= r.window && n < r.threshold - 1
    ensures Tick(After(c, Rep(n, t), r), t, r).1 == None
  {
    if n > 0 {
      var c' := Tick(c, t, r).0;
      assert After(c, [t], r) == c' by { assert [t][..0] == []; }
      AfterConcat(c, [t], Rep(n - 1, t), r);
      assert [t] + Rep(n - 1, t) == Rep(n, t);
      QuietRun(c', n - 1, t, r);
    }
  }
}

/** What an alert says is true: its count, its window and its distance from the alert before it. */
module AlertHonesty {
  import opened Common
  import opened AlertDetector
  import opened AlertRuns
  import opened AlertDetection

  /** The count restarts with event s of a live counter's history: it is the first, an alert came just before it, or
      it reopens a window that has closed. */
  ghost predicate RestartsAt(ts: seq<int>, s: nat, r: Rule)
    requires ts != [] && s <= |ts|
  {
    || s == 0
    || Outcome(NewCounter(ts[0]), ts, s - 1, r).Some?
    || (s < |ts| && ts[s] - After(NewCounter(ts[0]), ts[..s], r).openedAt >= r.window)
  }

  /** Event s restarted the count, none up to m has since, and all of them fall in the window now open. */
  ghost predicate CountedSince(ts: seq<int>, m: nat, s: nat, r: Rule)
    requires ts != [] && s <= m <= |ts|
  {
    var c := After(NewCounter(ts[0]), ts[..m], r);
    && RestartsAt(ts, s, r) && (forall j :: s < j < m ==> !RestartsAt(ts, j, r))
    && c.count == m - s
    && (forall j :: s <= j < m ==> c.openedAt <= ts[j] < c.openedAt + r.window)
    && c.openedAt <= ts[if m == 0 then 0 else m - 1]
  }

  lemma AlertResets(ts: seq<int>, m: nat, r: Rule)
    requires ts != [] && 0 < m <= |ts|
    ensures Outcome(NewCounter(ts[0]), ts, m - 1, r).Some? ==> After(NewCounter(ts[0]), ts[..m], r).count == 0
  {
    assert ts[..m][..m - 1] == ts[..m - 1];
  }

  /** Where the count stands restarted once event m has arrived. */
  ghost function RestartBy(ts: seq<int>, m: nat, s: nat, r: Rule): nat
    requires ts != [] && s <= m < |ts|
  {
    if ts[m] - After(NewCounter(ts[0]), ts[..m], r).openedAt >= r.window then m else s
  }

  lemma RestartIsLatest(ts: seq<int>, m: nat, s: nat, r: Rule)
    requires ts != [] && s <= m < |ts| && CountedSince(ts, m, s, r)
    ensures var s' := RestartBy(ts, m, s, r);
      RestartsAt(ts, s', r) && forall j :: s' < j <= m ==> !RestartsAt(ts, j, r)
  {
    var s' := RestartBy(ts, m, s, r);
    if s' < m {
      AlertResets(ts, m, r);
      assert !RestartsAt(ts, m, r);
    }
  }

  /** Event m falls in the window its tick leaves open, with everything counted before it. */
  lemma TickCounts(ts: seq<int>, m: nat, s: nat, r: Rule, c: Counter)
    requires r.Valid() && ts != [] && Sorted(ts) && s <= m < |ts| && CountedSince(ts, m, s, r)
    requires c == After(NewCounter(ts[0]), ts[..m], r)
    ensures var s', k := RestartBy(ts, m, s, r), Tick(c, ts[m], r);
      && ts[m] - ts[s'] < r.window
      && (k.1.Some? ==> k.1 == Some(m + 1 - s'))
      && (k.1.None? ==> k.0.count == m + 1 - s' && k.0.openedAt <= ts[m])
      && (k.1.None? ==> forall j :: s' <= j <= m ==> k.0.openedAt <= ts[j] < k.0.openedAt + r.window)
  {
    assert m > 0 ==> ts[m - 1] <= ts[m];
  }

  /** One more event, with the count not restarting after it. */
  lemma CountedOneMore(ts: seq<int>, m: nat, s: nat, r: Rule) returns (s': nat)
    requires r.Valid() && ts != [] && Sorted(ts) && s <= m < |ts| && CountedSince(ts, m, s, r)
    ensures s' <= m && RestartsAt(ts, s', r) && (forall j :: s' < j <= m ==> !RestartsAt(ts, j, r))
    ensures ts[m] - ts[s'] < r.window
    ensures Outcome(NewCounter(ts[0]), ts, m, r).Some? ==> Outcome(NewCounter(ts[0]), ts, m, r) == Some(m + 1 - s')
    ensures Outcome(NewCounter(ts[0]), ts, m, r).None? ==> CountedSince(ts, m + 1, s', r)
  {
    var c := After(NewCounter(ts[0]), ts[..m], r);
    s' := RestartBy(ts, m, s, r);
    RestartIsLatest(ts, m, s, r);
    TickCounts(ts, m, s, r, c);
    assert After(NewCounter(ts[0]), ts[..m + 1], r) == Tick(c, ts[m], r).0 by {
      assert ts[..m + 1][..m] == ts[..m];
    }
  }

  lemma JustAlerted(ts: seq<int>, m: nat, r: Rule)
    requires ts != [] && 0 < m <= |ts| && Outcome(NewCounter(ts[0]), ts, m - 1, r).Some?
    ensures CountedSince(ts, m, m, r)
  {
    assert ts[..m][..m - 1] == ts[..m - 1];
  }

  ghost predicate Counted(ts: seq<int>, m: nat, r: Rule)
    requires ts != [] && m <= |ts|
  {
    exists s: nat :: s <= m && CountedSince(ts, m, s, r)
  }

  /** Event m, whatever it raises, leaves a history counted since some event. */
  lemma CountedNext(ts: seq<int>, m: nat, r: Rule)
    requires r.Valid() && ts != [] && Sorted(ts) && m < |ts| && Counted(ts, m, r)
    ensures Counted(ts, m + 1, r)
  {
    if Outcome(NewCounter(ts[0]), ts, m, r).Some? {
      JustAlerted(ts, m + 1, r);
    } else {
      var s: nat :| s <= m && CountedSince(ts, m, s, r);
      var s' := CountedOneMore(ts, m, s, r);
    }
  }

  lemma CountedNone(ts: seq<int>, r: Rule)
    requires ts != []
    ensures Counted(ts, 0, r)
  {
    assert CountedSince(ts, 0, 0, r);
  }

  lemma {:induction false} AlwaysCounted(ts: seq<int>, m: nat, r: Rule)
    requires r.Valid() && ts != [] && Sorted(ts) && m <= |ts|
    ensures Counted(ts, m, r)
  {
    if m == 0 {
      CountedNone(ts, r);
    } else {
      AlwaysCounted(ts, m - 1, r);
      CountedNext(ts, m - 1, r);
    }
  }

  /** An alert's count is exactly the events since the counter last restarted; it reaches the threshold, and all those
      events lie within one window. */
  lemma AlertCountIsExact(ts: seq<int>, i: nat, r: Rule) returns (s: nat)
    requires r.Valid() && Sorted(ts) && i < |ts| && Outcome(NewCounter(ts[0]), ts, i, r).Some?
    ensures s <= i && RestartsAt(ts, s, r) && forall j :: s < j <= i ==> !RestartsAt(ts, j, r)
    ensures Outcome(NewCounter(ts[0]), ts, i, r) == Some(i + 1 - s)
    ensures i + 1 - s >= r.threshold && ts[i] - ts[s] < r.window
  {
    AlwaysCounted(ts, i, r);
    s :| s <= i && CountedSince(ts, i, s, r);
    s := CountedOneMore(ts, i, s, r);
  }

  /** Of the first m events, event j alerts and none after it. */
  ghost predicate LatestAlert(ts: seq<int>, m: nat, j: nat, r: Rule)
    requires ts != [] && m <= |ts|
  {
    && j < m && Outcome(NewCounter(ts[0]), ts, j, r).Some?
    && forall h :: j < h < m ==> Outcome(NewCounter(ts[0]), ts, h, r).None?
  }

  /** The silence a history leaves is that of its latest alert, if any. */
  lemma {:induction false} SilenceIs(ts: seq<int>, m: nat, r: Rule) returns (last: Option<nat>)
    requires ts != [] && m <= |ts|
    ensures var until := After(NewCounter(ts[0]), ts[..m], r).silentUntil;
      match last
      case None => until == 0 && forall j :: 0 <= j < m ==> Outcome(NewCounter(ts[0]), ts, j, r).None?
      case Some(j) => LatestAlert(ts, m, j, r) && until == ts[j] + r.cooldown
    decreases m
  {
    last := None;
    if m > 0 {
      last := SilenceIs(ts, m - 1, r);
      assert ts[..m][..m - 1] == ts[..m - 1];
      if Outcome(NewCounter(ts[0]), ts, m - 1, r).Some? {
        last := Some(m - 1);
      }
    }
  }

  /** Exactly when an event of a live counter's history alerts: the events since the count last restarted, this one
      included, reach the threshold, and every earlier alert is at least a cooldown ago. */
  lemma AlertIff(ts: seq<int>, i: nat, r: Rule) returns (s: nat)
    requires r.Valid() && Sorted(ts) && i < |ts| && ts[0] >= 0
    ensures s <= i && RestartsAt(ts, s, r) && forall j :: s < j <= i ==> !RestartsAt(ts, j, r)
    ensures Outcome(NewCounter(ts[0]), ts, i, r).Some? <==>
      && i + 1 - s >= r.threshold
      && forall j :: 0 <= j < i && Outcome(NewCounter(ts[0]), ts, j, r).Some? ==> ts[i] - ts[j] >= r.cooldown
  {
    AlwaysCounted(ts, i, r);
    var s0: nat :| s0 <= i && CountedSince(ts, i, s0, r);
    s := CountedOneMore(ts, i, s0, r);
    RestartIsTheOne(ts, i, s0, s, r);
    TickRaises(ts, i, s0, r, After(NewCounter(ts[0]), ts[..i], r));
    var last := SilenceIs(ts, i, r);
    SilenceOver(ts, i, r, last);
  }

  /** There is one latest restart. */
  lemma RestartIsTheOne(ts: seq<int>, m: nat, s0: nat, s: nat, r: Rule)
    requires ts != [] && s0 <= m < |ts| && CountedSince(ts, m, s0, r)
    requires s <= m && RestartsAt(ts, s, r) && forall j :: s < j <= m ==> !RestartsAt(ts, j, r)
    ensures s == RestartBy(ts, m, s0, r)
  {
    RestartIsLatest(ts, m, s0, r);
  }

  lemma TickRaises(ts: seq<int>, m: nat, s: nat, r: Rule, c: Counter)
    requires r.Valid() && ts != [] && s <= m < |ts| && CountedSince(ts, m, s, r)
    requires c == After(NewCounter(ts[0]), ts[..m], r)
    ensures Outcome(NewCounter(ts[0]), ts, m, r).Some?
      <==> ts[m] >= c.silentUntil && m + 1 - RestartBy(ts, m, s, r) >= r.threshold
  {
  }

  lemma SilenceOver(ts: seq<int>, i: nat, r: Rule, last: Option<nat>)
    requires ts != [] && i < |ts| && Sorted(ts) && ts[0] >= 0
    requires var until := After(NewCounter(ts[0]), ts[..i], r).silentUntil;
      match last
      case None => until == 0 && forall j :: 0 <= j < i ==> Outcome(NewCounter(ts[0]), ts, j, r).None?
      case Some(j) => LatestAlert(ts, i, j, r) && until == ts[j] + r.cooldown
    ensures ts[i] >= After(NewCounter(ts[0]), ts[..i], r).silentUntil <==>
      forall j :: 0 <= j < i && Outcome(NewCounter(ts[0]), ts, j, r).Some? ==> ts[i] - ts[j] >= r.cooldown
  {
    assert ts[0] <= ts[i];
    if last.Some? {
      assert forall j :: 0 <= j < i && Outcome(NewCounter(ts[0]), ts, j, r).Some? ==> j <= last.value;
    }
  }

  // ------------------------------------------------------------------ every counter of the detector has a history

  /** ts is a history whose replay gives counter c. */
  ghost predicate Replays(ts: seq<int>, c: Counter, r: Rule, t: int) {
    ts != [] && Sorted(ts) && ts[|ts| - 1] <= t && c == After(NewCounter(ts[0]), ts, r)
  }

  /** Histories of the live counters: the times of their events since admission. rules names each key's rule. */
  ghost predicate Tracks(m: map<string, Counter>, hist: map<string, seq<int>>, rules: string -> Rule, t: int) {
    hist.Keys == m.Keys && forall k :: k in m ==> Replays(hist[k], m[k], rules(k), t)
  }

  /** The history of ev's counter with ev's own time added. */
  ghost function HistoryWith(hist: map<string, seq<int>>, ev: Event): seq<int> {
    GetOr(hist, KeyOf(ev), []) + [ev.now]
  }

  ghost function Kept(hist: map<string, seq<int>>, m: map<string, Counter>): map<string, seq<int>> {
    map k | k in hist && k in m :: hist[k]
  }

  ghost function NextHist(s: State, hist: map<string, seq<int>>, ev: Event): map<string, seq<int>> {
    if Admits(s, ev) then Kept(hist, Found(s, ev))[KeyOf(ev) := HistoryWith(hist, ev)] else Kept(hist, Found(s, ev))
  }

  lemma HistoryExtends(s: State, hist: map<string, seq<int>>, rules: string -> Rule, t: int, ev: Event)
    requires Tracks(s.counters, hist, rules, t) && t <= ev.now && rules(KeyOf(ev)) == ev.rule
    ensures var ts := HistoryWith(hist, ev);
      && Replays(ts, Tick(Mine(s, ev), ev.now, ev.rule).0, ev.rule, ev.now)
      && Tick(Mine(s, ev), ev.now, ev.rule).1 == Outcome(NewCounter(ts[0]), ts, |ts| - 1, ev.rule)
  {
    var k, ts := KeyOf(ev), HistoryWith(hist, ev);
    if k in hist {
      assert Replays(hist[k], s.counters[k], ev.rule, t);
      assert ts[..|ts| - 1] == hist[k];
    } else {
      assert ts == [ev.now] && ts[..0] == [];
    }
  }

  /** Dropping counters drops their histories with them. */
  lemma TracksFewer(m: map<string, Counter>, hist: map<string, seq<int>>, rules: string -> Rule, t: int,
                    m': map<string, Counter>)
    requires Tracks(m, hist, rules, t) && m'.Keys <= m.Keys && forall k :: k in m' ==> m'[k] == m[k]
    ensures Tracks(m', Kept(hist, m'), rules, t)
  {
    assert Kept(hist, m').Keys == m'.Keys;
  }

  lemma TracksOne(m: map<string, Counter>, hist: map<string, seq<int>>, rules: string -> Rule, t: int,
                  k: string, ts: seq<int>, c: Counter, t': int)
    requires Tracks(m, hist, rules, t) && t <= t' && Replays(ts, c, rules(k), t')
    ensures Tracks(m[k := c], hist[k := ts], rules, t')
  {
    assert hist[k := ts].Keys == m[k := c].Keys;
  }

  lemma CountKeepsTracks(s: State, hist: map<string, seq<int>>, rules: string -> Rule, t: int, ev: Event)
    requires Tracks(s.counters, hist, rules, t) && t <= ev.now && rules(KeyOf(ev)) == ev.rule
    ensures Tracks(Count(s, ev).0.counters, NextHist(s, hist, ev), rules, ev.now)
  {
    TracksFewer(s.counters, hist, rules, t, Found(s, ev));
    if Admits(s, ev) {
      CountAdmitted(s, ev);
      HistoryExtends(s, hist, rules, t, ev);
      TracksOne(Found(s, ev), Kept(hist, Found(s, ev)), rules, t, KeyOf(ev), HistoryWith(hist, ev),
                Tick(Mine(s, ev), ev.now, ev.rule).0, ev.now);
    } else {
      CountRefused(s, ev);
    }
  }

  /** Every event's key stands for one rule. */
  ghost predicate Obeys(evs: seq<Event>, rules: string -> Rule) {
    forall i :: 0 <= i < |evs| ==> rules(KeyOf(evs[i])) == evs[i].rule
  }

  /** The alert of one event is the outcome of its key's history with the event added. */
  lemma AlertIsHistory(s: State, hist: map<string, seq<int>>, rules: string -> Rule, t: int, ev: Event)
    requires Tracks(s.counters, hist, rules, t) && t <= ev.now && rules(KeyOf(ev)) == ev.rule
    requires Count(s, ev).1.Some? && Count(s, ev).1.value.rule != RULE_SATURATED
    ensures var ts := HistoryWith(hist, ev);
      Sorted(ts) && Outcome(NewCounter(ts[0]), ts, |ts| - 1, ev.rule) == Some(Count(s, ev).1.value.count)
  {
    if Admits(s, ev) { CountAdmitted(s, ev); } else { CountRefused(s, ev); }
    HistoryExtends(s, hist, rules, t, ev);
  }

  /** The histories of the live counters after the first n events. */
  ghost function HistAfter(s: State, hist: map<string, seq<int>>, evs: seq<Event>, n: nat): map<string, seq<int>>
    requires n <= |evs|
    decreases n
  {
    if n == 0 then hist else HistAfter(Count(s, evs[0]).0, NextHist(s, hist, evs[0]), evs[1..], n - 1)
  }

  /** The state event n finds. */
  ghost function StateAfter(s: State, evs: seq<Event>, n: nat): State
    requires n <= |evs|
    decreases n
  {
    if n == 0 then s else StateAfter(Count(s, evs[0]).0, evs[1..], n - 1)
  }

  lemma LaterEvents(rules: string -> Rule, t: int, evs: seq<Event>)
    requires evs != [] && Timed(evs, t) && Obeys(evs, rules)
    ensures Timed(evs[1..], evs[0].now) && Obeys(evs[1..], rules)
    ensures t <= evs[0].now && rules(KeyOf(evs[0])) == evs[0].rule
  {
  }

  /** Counting an event with its own rule at its own time keeps every history true. */
  lemma FirstKeepsTracks(s: State, hist: map<string, seq<int>>, rules: string -> Rule, t: int, evs: seq<Event>)
    requires evs != [] && Tracks(s.counters, hist, rules, t) && Timed(evs, t) && Obeys(evs, rules)
    ensures Tracks(Count(s, evs[0]).0.counters, NextHist(s, hist, evs[0]), rules, evs[0].now)
    ensures Timed(evs[1..], evs[0].now) && Obeys(evs[1..], rules)
  {
    LaterEvents(rules, t, evs);
    CountKeepsTracks(s, hist, rules, t, evs[0]);
  }

  lemma {:induction false} TracksAfter(s: State, hist: map<string, seq<int>>, rules: string -> Rule, t: int,
                                       evs: seq<Event>, n: nat) returns (t': int)
    requires Tracks(s.counters, hist, rules, t) && Timed(evs, t) && n < |evs| && Obeys(evs, rules)
    ensures Tracks(StateAfter(s, evs, n).counters, HistAfter(s, hist, evs, n), rules, t') && t' <= evs[n].now
    decreases n
  {
    if n == 0 {
      t' := t;
    } else {
      FirstKeepsTracks(s, hist, rules, t, evs);
      var s', hist', rest := Count(s, evs[0]).0, NextHist(s, hist, evs[0]), evs[1..];
      t' := TracksAfter(s', hist', rules, evs[0].now, rest, n - 1);
      assert StateAfter(s, evs, n) == StateAfter(s', rest, n - 1);
      assert HistAfter(s, hist, evs, n) == HistAfter(s', hist', rest, n - 1);
    }
  }

  lemma {:induction false} AlertAt(s: State, evs: seq<Event>, i: nat)
    requires i < |evs|
    ensures Alerts(s, evs)[i] == Count(StateAfter(s, evs, i), evs[i]).1
    decreases i
  {
    if i > 0 {
      AlertAt(Count(s, evs[0]).0, evs[1..], i - 1);
    }
  }

  ghost function TimeIf(ev: Event, k: string): seq<int> {
    if KeyOf(ev) == k then [ev.now] else []
  }

  /** The times of k's events among the first n, in order. */
  ghost function KeyTimes(evs: seq<Event>, n: nat, k: string): seq<int>
    requires n <= |evs|
    decreases n
  {
    if n == 0 then [] else TimeIf(evs[0], k) + KeyTimes(evs[1..], n - 1, k)
  }

  ghost predicate IsSuffix(a: seq<int>, b: seq<int>) {
    |a| <= |b| && b[|b| - |a|..] == a
  }

  lemma SuffixThrough(a: seq<int>, h': seq<int>, h: seq<int>, one: seq<int>, rest: seq<int>)
    requires IsSuffix(a, h' + rest) && IsSuffix(h', h + one)
    ensures IsSuffix(a, h + (one + rest))
  {
    var b, c := h' + rest, h + one + rest;
    assert h + (one + rest) == c;
    assert c[|c| - |b|..] == b;
    assert c[|c| - |a|..] == b[|b| - |a|..];
  }

  /** One event appends its time to its key's history, and reclamation forgets whole histories. */
  lemma NextHistIsSuffix(s: State, hist: map<string, seq<int>>, ev: Event, k: string)
    ensures IsSuffix(GetOr(NextHist(s, hist, ev), k, []), GetOr(hist, k, []) + TimeIf(ev, k))
  {
    var h, h' := GetOr(hist, k, []), GetOr(NextHist(s, hist, ev), k, []);
    if KeyOf(ev) == k && !Admits(s, ev) {
      assert k !in Found(s, ev);
    } else if KeyOf(ev) == k {
      assert h' == HistoryWith(hist, ev);
    } else {
      assert h' == h || h' == [];
    }
  }

  lemma {:induction false} HistAfterIsSuffix(s: State, hist: map<string, seq<int>>, evs: seq<Event>, n: nat, k: string)
    requires n <= |evs|
    ensures IsSuffix(GetOr(HistAfter(s, hist, evs, n), k, []), GetOr(hist, k, []) + KeyTimes(evs, n, k))
    decreases n
  {
    if n > 0 {
      var s', hist', rest := Count(s, evs[0]).0, NextHist(s, hist, evs[0]), evs[1..];
      var a, h', h := GetOr(HistAfter(s', hist', rest, n - 1), k, []), GetOr(hist', k, []), GetOr(hist, k, []);
      var one, times := TimeIf(evs[0], k), KeyTimes(rest, n - 1, k);
      assert IsSuffix(a, h + (one + times)) by {
        HistAfterIsSuffix(s', hist', rest, n - 1, k);
        NextHistIsSuffix(s, hist, evs[0], k);
        SuffixThrough(a, h', h, one, times);
      }
      assert HistAfter(s, hist, evs, n) == HistAfter(s', hist', rest, n - 1);
      assert KeyTimes(evs, n, k) == one + times;
    }
  }

  /** Along every run each rule alert is the outcome of its own live counter's history, which is the latest of the
      times that key's events arrived at. */
  lemma AlertsComeFromHistories(s: State, hist: map<string, seq<int>>, rules: string -> Rule, t: int,
                                evs: seq<Event>, i: nat) returns (before: seq<int>)
    requires Tracks(s.counters, hist, rules, t) && Timed(evs, t) && i < |evs| && Obeys(evs, rules)
    requires Alerts(s, evs)[i].Some? && Alerts(s, evs)[i].value.rule != RULE_SATURATED
    ensures IsSuffix(before, GetOr(hist, KeyOf(evs[i]), []) + KeyTimes(evs, i, KeyOf(evs[i])))
    ensures var ts := before + [evs[i].now];
      Sorted(ts) && Outcome(NewCounter(ts[0]), ts, |ts| - 1, evs[i].rule) == Some(Alerts(s, evs)[i].value.count)
  {
    before := GetOr(HistAfter(s, hist, evs, i), KeyOf(evs[i]), []);
    var t' := TracksAfter(s, hist, rules, t, evs, i);
    AlertAt(s, evs, i);
    AlertIsHistory(StateAfter(s, evs, i), HistAfter(s, hist, evs, i), rules, t', evs[i]);
    HistAfterIsSuffix(s, hist, evs, i, KeyOf(evs[i]));
  }

  /** So every rule alert a run delivers tells the truth: its count is exactly the key's events since its counter last
      restarted, this one included; they reach the threshold, arrived within one window, and end with this event. */
  lemma RunAlertsAreExact(s: State, hist: map<string, seq<int>>, rules: string -> Rule, t: int, evs: seq<Event>, i: nat)
    returns (ts: seq<int>, m: nat)
    requires Tracks(s.counters, hist, rules, t) && Timed(evs, t) && i < |evs| && Obeys(evs, rules)
    requires evs[i].rule.Valid()
    requires Alerts(s, evs)[i].Some? && Alerts(s, evs)[i].value.rule != RULE_SATURATED
    ensures ts != [] && ts[|ts| - 1] == evs[i].now
    ensures IsSuffix(ts[..|ts| - 1], GetOr(hist, KeyOf(evs[i]), []) + KeyTimes(evs, i, KeyOf(evs[i])))
    ensures m < |ts| && RestartsAt(ts, m, evs[i].rule) && forall j :: m < j < |ts| ==> !RestartsAt(ts, j, evs[i].rule)
    ensures Alerts(s, evs)[i].value.count == |ts| - m >= evs[i].rule.threshold
    ensures ts[|ts| - 1] - ts[m] < evs[i].rule.window
    ensures var a, ev := Alerts(s, evs)[i].value, evs[i];
      && a.rule == ev.rule.name && a.eventType == ev.eventType && a.scope == ev.scope && a.key == ev.key
      && a.window == ev.rule.window && a.severity == ev.rule.severity && a.breach == ev.rule.breach && a.at == ev.now
  {
    var before := AlertsComeFromHistories(s, hist, rules, t, evs, i);
    ts := before + [evs[i].now];
    assert ts[..|ts| - 1] == before;
    m := AlertCountIsExact(ts, |ts| - 1, evs[i].rule);
    AlertAt(s, evs, i);
    AlertSpeaksForEvent(StateAfter(s, evs, i), evs[i]);
  }

  /** An alert that is not the detector's own speaks for the event that raised it. */
  lemma AlertSpeaksForEvent(s: State, ev: Event)
    requires Count(s, ev).1.Some? && Count(s, ev).1.value.rule != RULE_SATURATED
    ensures var a := Count(s, ev).1.value;
      && a.rule == ev.rule.name && a.eventType == ev.eventType && a.scope == ev.scope && a.key == ev.key
      && a.window == ev.rule.window && a.severity == ev.rule.severity && a.breach == ev.rule.breach && a.at == ev.now
  {
    if Admits(s, ev) { CountAdmitted(s, ev); } else { CountRefused(s, ev); }
  }

  // ------------------------------------------------------------------ cooldown over runs

  /** The detector holds a counter for k before each of the first n events. */
  ghost predicate LiveThrough(s: State, evs: seq<Event>, k: string, n: nat)
    requires n <= |evs|
    decreases |evs|
  {
    k in s.counters && (n == 0 || LiveThrough(Count(s, evs[0]).0, evs[1..], k, n - 1))
  }

  lemma {:induction false} SilentWhileLive(s: State, evs: seq<Event>, k: string, j: nat)
    requires Timed(evs, 0) && j < |evs| && LiveThrough(s, evs, k, j) && KeyOf(evs[j]) == k
    requires Alerts(s, evs)[j].Some?
    ensures evs[j].now >= s.counters[k].silentUntil
    decreases |evs|
  {
    var ev, s' := evs[0], Count(s, evs[0]).0;
    if j > 0 {
      SilentWhileLive(s', evs[1..], k, j - 1);
      if KeyOf(ev) != k {
        assert k in s'.counters && s'.counters[k] == s.counters[k];
      }
    }
  }

  /** Along any run, two alerts for one key whose counter stays live between them are at least Cooldown apart. (s is
      the state the first of the two events finds; what came before it does not matter.) */
  lemma LiveAlertsApart(s: State, evs: seq<Event>, k: string, j: nat)
    requires Timed(evs, 0) && 0 < j < |evs| && KeyOf(evs[0]) == k && KeyOf(evs[j]) == k && Admits(s, evs[0])
    requires LiveThrough(Count(s, evs[0]).0, evs[1..], k, j - 1)
    requires Alerts(s, evs)[0].Some? && Alerts(s, evs)[j].Some?
    ensures evs[j].now - evs[0].now >= evs[0].rule.cooldown
  {
    CountAdmitted(s, evs[0]);
    SilentWhileLive(Count(s, evs[0]).0, evs[1..], k, j - 1);
  }

  // ------------------------------------------------------------------ bounds over runs

  lemma {:induction false} RunKeepsBound(s: State, evs: seq<Event>)
    requires Bounded(s)
    ensures Bounded(Run(s, evs))
    decreases |evs|
  {
    if evs != [] {
      CountKeepsBound(s, evs[0]);
      RunKeepsBound(Count(s, evs[0]).0, evs[1..]);
    }
  }

  ghost predicate IsSaturation(a: Option<Alert>) {
    a.Some? && a.value.rule == RULE_SATURATED
  }

  ghost predicate OwnNames(evs: seq<Event>) {
    forall i :: 0 <= i < |evs| ==> evs[i].rule.name != RULE_SATURATED
  }

  lemma {:induction false} QuietWhileSaturated(s: State, evs: seq<Event>, j: nat)
    requires OwnNames(evs) && Timed(evs, 0) && j < |evs| && evs[j].now < s.saturatedUntil
    ensures !IsSaturation(Alerts(s, evs)[j])
    decreases |evs|
  {
    if j > 0 {
      QuietWhileSaturated(Count(s, evs[0]).0, evs[1..], j - 1);
    }
  }

  /** Saturation alerts are at least fifteen minutes apart. */
  lemma {:induction false} SaturationAlertsApart(s: State, evs: seq<Event>, i: nat, j: nat)
    requires OwnNames(evs) && Timed(evs, 0) && i < j < |evs|
    requires IsSaturation(Alerts(s, evs)[i]) && IsSaturation(Alerts(s, evs)[j])
    ensures evs[j].now - evs[i].now >= SATURATION_COOLDOWN
    decreases |evs|
  {
    var s' := Count(s, evs[0]).0;
    if i > 0 {
      SaturationAlertsApart(s', evs[1..], i - 1, j - 1);
    } else if evs[j].now < s'.saturatedUntil {
      QuietWhileSaturated(s', evs[1..], j - 1);
      assert false;
    }
  }

  /** Event i of the run finds the map full of counters still alive and its own key not among them. */
  ghost predicate RefusedAt(s: State, evs: seq<Event>, i: nat)
    requires i < |evs|
  {
    var u, ev := StateAfter(s, evs, i), evs[i];
    KeyOf(ev) !in u.counters && |set k | k in u.counters && ev.now < u.counters[k].deadAfter| >= u.maxKeys
  }

  lemma RefusedIff(s: State, ev: Event)
    ensures !Admits(s, ev) <==>
      KeyOf(ev) !in s.counters && |set k | k in s.counters && ev.now < s.counters[k].deadAfter| >= s.maxKeys
  {
    var live := set k | k in s.counters && ev.now < s.counters[k].deadAfter;
    assert Reclaimed(s.counters, ev.now).Keys == live;
    assert |Reclaimed(s.counters, ev.now)| == |Reclaimed(s.counters, ev.now).Keys|;
    SubsetSize(live, s.counters.Keys);
    assert |s.counters| == |s.counters.Keys|;
  }

  /** The detector has raised its own alert at event j. */
  ghost predicate ReportsAt(s: State, evs: seq<Event>, j: nat)
    requires j < |evs|
  {
    RefusedAt(s, evs, j) && Alerts(s, evs)[j].Some?
  }

  /** silentUntil of the detector's own alert, after one raised at time last. */
  ghost predicate SaturatedSince(s: State, last: Option<int>) {
    s.saturatedUntil == match last case None => 0 case Some(t) => t + 15 * 60 * 1_000_000_000
  }

  ghost predicate QuarterHourPast(now: int, last: Option<int>) {
    last.Some? ==> now - last.value >= 15 * 60 * 1_000_000_000
  }

  /** What one event does to it. */
  lemma SaturationStep(s: State, last: Option<int>, ev: Event) returns (last': Option<int>)
    requires SaturatedSince(s, last) && ev.now >= 0
    ensures SaturatedSince(Count(s, ev).0, last')
    ensures !Admits(s, ev) ==> (Count(s, ev).1.Some? <==> QuarterHourPast(ev.now, last))
    ensures last' == if !Admits(s, ev) && Count(s, ev).1.Some? then Some(ev.now) else last
    ensures !Admits(s, ev) && Count(s, ev).1.Some? ==>
      Count(s, ev).1.value == Alert("detector-saturated", ev.eventType, ev.scope, "n/a", s.maxKeys,
                                    ev.rule.window, ev.rule.severity, false, ev.now)
  {
    last' := last;
    if Admits(s, ev) {
      CountAdmitted(s, ev);
    } else if Count(s, ev).1.Some? {
      last' := Some(ev.now);
    }
  }

  lemma {:induction false} SaturationFrom(s: State, last: Option<int>, evs: seq<Event>, i: nat)
    requires SaturatedSince(s, last) && Timed(evs, 0) && i < |evs| && RefusedAt(s, evs, i)
    requires evs != [] && last.Some? ==> last.value <= evs[0].now
    ensures Alerts(s, evs)[i].Some? <==>
      QuarterHourPast(evs[i].now, last)
      && forall j :: 0 <= j < i && ReportsAt(s, evs, j) ==> evs[i].now - evs[j].now >= 15 * 60 * 1_000_000_000
    decreases |evs|
  {
    var s', rest := Count(s, evs[0]).0, evs[1..];
    var last' := SaturationStep(s, last, evs[0]);
    RefusedIff(s, evs[0]);
    if i > 0 {
      ReportsShift(s, evs, i);
      TimedTail(evs, 0);
      SaturationFrom(s', last', rest, i - 1);
      SaturationGlue(s, evs, i, last, last');
    }
  }

  /** Later events of a run seen from its second one. */
  lemma ReportsShift(s: State, evs: seq<Event>, i: nat)
    requires 0 < i < |evs|
    ensures var s' := Count(s, evs[0]).0;
      && (RefusedAt(s, evs, i) <==> RefusedAt(s', evs[1..], i - 1))
      && Alerts(s, evs)[i] == Alerts(s', evs[1..])[i - 1]
      && forall j :: 0 < j < i ==> (ReportsAt(s, evs, j) <==> ReportsAt(s', evs[1..], j - 1))
  {
  }

  lemma SaturationGlue(s: State, evs: seq<Event>, i: nat, last: Option<int>, last': Option<int>)
    requires 0 < i < |evs| && Timed(evs, 0) && (last.Some? ==> last.value <= evs[0].now)
    requires last' == if ReportsAt(s, evs, 0) then Some(evs[0].now) else last
    ensures (QuarterHourPast(evs[i].now, last')
             && forall j :: 0 < j < i && ReportsAt(s, evs, j) ==> evs[i].now - evs[j].now >= 15 * 60 * 1_000_000_000)
      <==> (QuarterHourPast(evs[i].now, last)
            && forall j :: 0 <= j < i && ReportsAt(s, evs, j) ==> evs[i].now - evs[j].now >= 15 * 60 * 1_000_000_000)
  {
  }

  /** Along every run from the start a refused event raises the detector's own alert if and only if none was raised in
      the fifteen minutes before it, and the alert says that the key space of maxKeys is full. */
  lemma {:induction false} SaturationIff(maxKeys: nat, evs: seq<Event>, i: nat)
    requires Timed(evs, 0) && i < |evs| && RefusedAt(Init(maxKeys), evs, i)
    ensures Alerts(Init(maxKeys), evs)[i].Some? <==>
      forall j :: 0 <= j < i && ReportsAt(Init(maxKeys), evs, j) ==> evs[i].now - evs[j].now >= 15 * 60 * 1_000_000_000
    ensures Alerts(Init(maxKeys), evs)[i].Some? ==>
      var ev := evs[i];
      Alerts(Init(maxKeys), evs)[i].value == Alert("detector-saturated", ev.eventType, ev.scope, "n/a", maxKeys,
                                                   ev.rule.window, ev.rule.severity, false, ev.now)
  {
    SaturationFrom(Init(maxKeys), None, evs, i);
    var s := StateAfter(Init(maxKeys), evs, i);
    AlertAt(Init(maxKeys), evs, i);
    RefusedIff(s, evs[i]);
    KeepsMaxKeys(Init(maxKeys), evs, i);
  }

  lemma {:induction false} KeepsMaxKeys(s: State, evs: seq<Event>, n: nat)
    requires n <= |evs|
    ensures StateAfter(s, evs, n).maxKeys == s.maxKeys
    decreases n
  {
    if n > 0 {
      KeepsMaxKeys(Count(s, evs[0]).0, evs[1..], n - 1);
    }
  }
}

/** Reclamation: when deleting dead counters can be seen in the alerts, and when it cannot. */
module AlertReclamation {
  import opened Common
  import opened AlertDetector
  import opened AlertRuns

  /** A detector with a key for every event: it never looks for room, so it never reclaims. */
  ghost function Roomiest(evs: seq<Event>): State {
    Init(|evs| + 1)
  }

  // ------------------------------------------------------------------ Cooldown <= Window: invisible

  /** A live counter outlives its window and its cooldown, and no longer than a window from now. */
  ghost predicate Outlives(c: Counter, r: Rule, t: int) {
    && c.openedAt <= t && c.openedAt + r.window <= c.deadAfter <= t + r.window
    && c.silentUntil <= c.deadAfter
  }

  /** Indistinguishable to every event from time t on. */
  ghost predicate Same(c: Counter, d: Counter, t: int) {
    c.count == d.count && c.openedAt == d.openedAt
    && (c.silentUntil == d.silentUntil || (c.silentUntil <= t && d.silentUntil <= t))
  }

  ghost predicate Lapsed(d: Counter, r: Rule, t: int) {
    d.silentUntil <= t && t - d.openedAt >= r.window
  }

  /** s is b with some lapsed counters missing. */
  ghost predicate Simulates(s: State, b: State, rules: string -> Rule, t: int) {
    && (forall k :: k in s.counters ==> k in b.counters && Same(s.counters[k], b.counters[k], t)
                                        && Outlives(s.counters[k], rules(k), t))
    && (forall k :: k in b.counters && k !in s.counters ==> Lapsed(b.counters[k], rules(k), t))
  }

  lemma SameTicks(c: Counter, d: Counter, now: int, r: Rule)
    requires Same(c, d, now)
    ensures Tick(c, now, r).1 == Tick(d, now, r).1 && Same(Tick(c, now, r).0, Tick(d, now, r).0, now)
  {
  }

  /** A lapsed counter answers its next event as a new one would. */
  lemma LapsedIsNew(d: Counter, now: int, r: Rule)
    requires r.Valid() && Lapsed(d, r, now) && now >= 0
    ensures Tick(NewCounter(now), now, r).1 == Tick(d, now, r).1
    ensures Same(Tick(NewCounter(now), now, r).0, Tick(d, now, r).0, now)
  {
  }

  lemma TickOutlives(c: Counter, r: Rule, t: int, now: int)
    requires r.Valid() && r.cooldown <= r.window && t <= now
    requires Outlives(c, r, t) || (c == NewCounter(now) && now >= 0)
    ensures Outlives(Tick(c, now, r).0, r, now)
  {
  }

  lemma LaterStill(s: State, b: State, rules: string -> Rule, t: int, now: int)
    requires Simulates(s, b, rules, t) && t <= now
    ensures Simulates(s, b, rules, now)
  {
  }

  /** Reclaiming keeps the simulation: what it deletes has lapsed. */
  lemma RoomySimulates(s: State, b: State, rules: string -> Rule, now: int)
    requires Simulates(s, b, rules, now)
    ensures Simulates(Roomy(s, now), b, rules, now)
  {
  }

  /** Advancing the same key on both sides with indistinguishable counters keeps the simulation. */
  lemma PutSimulates(s: State, b: State, rules: string -> Rule, now: int, k: string, c: Counter, d: Counter)
    requires Simulates(s, b, rules, now) && Same(c, d, now) && Outlives(c, rules(k), now)
    ensures Simulates(s.(counters := s.counters[k := c]), b.(counters := b.counters[k := d]), rules, now)
  {
  }

  /** The two counters an event finds answer alike. */
  lemma MineAlike(s: State, b: State, rules: string -> Rule, ev: Event)
    requires Simulates(s, b, rules, ev.now) && ev.now >= 0 && rules(KeyOf(ev)) == ev.rule && ev.rule.Valid()
    ensures Tick(Mine(s, ev), ev.now, ev.rule).1 == Tick(Mine(b, ev), ev.now, ev.rule).1
    ensures Same(Tick(Mine(s, ev), ev.now, ev.rule).0, Tick(Mine(b, ev), ev.now, ev.rule).0, ev.now)
  {
    var k := KeyOf(ev);
    if k in s.counters || k !in b.counters {
      SameTicks(Mine(s, ev), Mine(b, ev), ev.now, ev.rule);
    } else {
      LapsedIsNew(Mine(b, ev), ev.now, ev.rule);
    }
  }

  lemma StepSimulates(s: State, b: State, rules: string -> Rule, t: int, ev: Event)
    requires Simulates(s, b, rules, t) && 0 <= t <= ev.now
    requires GoodRule(ev, rules)
    requires Admits(s, ev) && |b.counters| < b.maxKeys
    ensures Count(s, ev).1 == Count(b, ev).1
    ensures Simulates(Count(s, ev).0, Count(b, ev).0, rules, ev.now)
    ensures Count(b, ev).0.maxKeys == b.maxKeys && |Count(b, ev).0.counters| <= |b.counters| + 1
  {
    LaterStill(s, b, rules, t, ev.now);
    RoomySimulates(s, b, rules, ev.now);
    CountAdmitted(s, ev);
    CountAdmitted(b, ev);
    MineAlike(s, b, rules, ev);
    TickOutlives(Mine(s, ev), ev.rule, ev.now, ev.now);
    PutSimulates(s.(counters := Found(s, ev)), b, rules, ev.now, KeyOf(ev),
                 Tick(Mine(s, ev), ev.now, ev.rule).0, Tick(Mine(b, ev), ev.now, ev.rule).0);
  }

  /** Every event's key stands for one valid rule whose cooldown does not outlast its window. */
  ghost predicate ShortCooldowns(evs: seq<Event>, rules: string -> Rule) {
    forall i :: 0 <= i < |evs| ==> GoodRule(evs[i], rules)
  }

  ghost predicate GoodRule(ev: Event, rules: string -> Rule) {
    rules(KeyOf(ev)) == ev.rule && ev.rule.Valid() && ev.rule.cooldown <= ev.rule.window
  }

  lemma {:induction false} RunsAgree(s: State, b: State, rules: string -> Rule, t: int, evs: seq<Event>)
    requires Simulates(s, b, rules, t) && 0 <= t && Timed(evs, t) && Unrefused(s, evs)
    requires ShortCooldowns(evs, rules)
    requires |b.counters| + |evs| < b.maxKeys
    ensures Alerts(s, evs) == Alerts(b, evs)
    decreases |evs|
  {
    if evs != [] {
      StepSimulates(s, b, rules, t, evs[0]);
      TimedTail(evs, t);
      RunsAgree(Count(s, evs[0]).0, Count(b, evs[0]).0, rules, evs[0].now, evs[1..]);
    }
  }

  /** With Cooldown <= Window, a run no event of which is refused raises exactly what a detector that never reclaims
      raises, event by event. */
  lemma ReclamationInvisible(maxKeys: nat, rules: string -> Rule, evs: seq<Event>)
    requires Timed(evs, 0) && Unrefused(Init(maxKeys), evs)
    requires ShortCooldowns(evs, rules)
    ensures Alerts(Init(maxKeys), evs) == Alerts(Roomiest(evs), evs)
  {
    RunsAgree(Init(maxKeys), Roomiest(evs), rules, 0, evs);
  }

  // ------------------------------------------------------------------ Cooldown > Window: visible

  lemma {:induction false} RunConcat(s: State, xs: seq<Event>, ys: seq<Event>)
    ensures Run(s, xs + ys) == Run(Run(s, xs), ys)
    ensures Unrefused(s, xs + ys) <==> Unrefused(s, xs) && Unrefused(Run(s, xs), ys)
    decreases |xs|
  {
    if xs == [] {
      assert xs + ys == ys;
    } else {
      assert (xs + ys)[1..] == xs[1..] + ys;
      RunConcat(Count(s, xs[0]).0, xs[1..], ys);
    }
  }

  lemma {:induction false} LastAlert(s: State, xs: seq<Event>, ev: Event)
    ensures Alerts(s, xs + [ev])[|xs|] == Count(Run(s, xs), ev).1
    decreases |xs|
  {
    if xs == [] {
      assert xs + [ev] == [ev];
    } else {
      assert (xs + [ev])[1..] == xs[1..] + [ev];
      LastAlert(Count(s, xs[0]).0, xs[1..], ev);
    }
  }

  /** Executing evs from s refuses nothing and ends in s'. */
  ghost predicate Leads(s: State, evs: seq<Event>, s': State) {
    Run(s, evs) == s' && Unrefused(s, evs)
  }

  lemma LeadsConcat(s: State, xs: seq<Event>, mid: State, ys: seq<Event>, end: State)
    requires Leads(s, xs, mid) && Leads(mid, ys, end)
    ensures Leads(s, xs + ys, end)
  {
    RunConcat(s, xs, ys);
  }

  ghost function Rep(n: nat, ev: Event): seq<Event> {
    seq(n, _ => ev)
  }

  /** Events below the threshold in a window opened at their own time only count up. */
  lemma {:induction false} QuietBurst(s: State, ev: Event, n: nat)
    requires ev.rule.Valid() && KeyOf(ev) in s.counters
    requires s.counters[KeyOf(ev)].openedAt == ev.now && s.counters[KeyOf(ev)].count + n < ev.rule.threshold
    ensures var c := s.counters[KeyOf(ev)];
      Run(s, Rep(n, ev)) == if n == 0 then s else
        s.(counters := s.counters[KeyOf(ev) := c.(count := c.count + n, deadAfter := ev.now + ev.rule.window)])
    ensures Unrefused(s, Rep(n, ev))
    decreases n
  {
    if n > 0 {
      var s' := Count(s, ev).0;
      CountAdmitted(s, ev);
      assert Rep(n, ev)[1..] == Rep(n - 1, ev);
      QuietBurst(s', ev, n - 1);
      var k := KeyOf(ev);
      assert forall c {:trigger s'.counters[k := c]} :: s'.counters[k := c] == s.counters[k := c];
    }
  }

  /** Starting from a new counter is the same as the event that admits it. */
  lemma Admitting(s: State, ev: Event, n: nat)
    requires KeyOf(ev) !in s.counters && |s.counters| < s.maxKeys
    ensures var s1 := s.(counters := s.counters[KeyOf(ev) := NewCounter(ev.now)]);
      && Run(s, Rep(n + 1, ev)) == Run(s1, Rep(n + 1, ev))
      && (Unrefused(s1, Rep(n + 1, ev)) ==> Unrefused(s, Rep(n + 1, ev)))
  {
  }

  lemma RepSplit(m: nat, n: nat, ev: Event)
    ensures Rep(m + n, ev) == Rep(m, ev) + Rep(n, ev)
  {
  }

  /** Threshold + 1 events at one instant: an alert, then a suppressed event that pulls deadAfter back to the window. */
  lemma FullBurst(s: State, ev: Event)
    requires ev.rule.Valid() && ev.rule.cooldown > ev.rule.window && ev.now >= 0
    requires KeyOf(ev) !in s.counters && |s.counters| < s.maxKeys
    ensures var r, t := ev.rule, ev.now;
      Leads(s, Rep(r.threshold + 1, ev),
            s.(counters := s.counters[KeyOf(ev) := Counter(1, t, t + r.cooldown, t + r.window)]))
  {
    var k, r, t := KeyOf(ev), ev.rule, ev.now;
    var c := Counter(1, t, t + r.cooldown, t + r.window);
    BurstOnNew(s, ev, s.(counters := s.counters[k := NewCounter(t)]), s.(counters := s.counters[k := c]));
    Admitting(s, ev, r.threshold);
  }

  lemma BurstOnNew(s: State, ev: Event, s1: State, end: State)
    requires ev.rule.Valid() && ev.rule.cooldown > ev.rule.window && ev.now >= 0
    requires s1 == s.(counters := s.counters[KeyOf(ev) := NewCounter(ev.now)])
    requires var r, t := ev.rule, ev.now;
      end == s.(counters := s.counters[KeyOf(ev) := Counter(1, t, t + r.cooldown, t + r.window)])
    ensures Leads(s1, Rep(ev.rule.threshold + 1, ev), end)
  {
    var k, m := KeyOf(ev), ev.rule.threshold - 1;
    var s2 := Run(s1, Rep(m, ev));
    QuietBurst(s1, ev, m);
    assert Leads(s2, Rep(2, ev), end) by {
      AlertThenSuppressed(s2, ev);
      var c := end.counters[k];
      assert s2.counters[k := c] == s.counters[k := c];
    }
    LeadsConcat(s1, Rep(m, ev), s2, Rep(2, ev), end);
    RepSplit(m, 2, ev);
  }

  lemma AlertThenSuppressed(s: State, ev: Event)
    requires ev.rule.Valid() && ev.rule.cooldown > ev.rule.window
    requires KeyOf(ev) in s.counters
    requires var c := s.counters[KeyOf(ev)];
      c.openedAt == ev.now && c.count == ev.rule.threshold - 1 && c.silentUntil <= ev.now
    ensures var r, t := ev.rule, ev.now;
      Run(s, Rep(2, ev)) == s.(counters := s.counters[KeyOf(ev) := Counter(1, t, t + r.cooldown, t + r.window)])
    ensures Unrefused(s, Rep(2, ev))
  {
    var s' := Count(s, ev).0;
    CountAdmitted(s, ev);
    CountAdmitted(s', ev);
    assert Rep(2, ev) == [ev, ev] && [ev, ev][1..] == [ev] && [ev][1..] == [];
    assert Run(s, [ev, ev]) == Run(s', [ev]) == Count(s', ev).0;
    assert forall c {:trigger s'.counters[KeyOf(ev) := c]} :: s'.counters[KeyOf(ev) := c] == s.counters[KeyOf(ev) := c];
  }

  function Ev(r: Rule, t: int, key: string): Event {
    Event(t, r, "", "source", key)
  }

  /** Key names of every length, so no two are alike. */
  function Name(i: nat): string {
    seq(i + 1, _ => 'k')
  }

  lemma NamesDiffer(r: Rule, t: int, u: int, i: nat, j: nat)
    ensures KeyOf(Ev(r, t, Name(i))) == KeyOf(Ev(r, u, Name(j))) <==> i == j
    ensures |KeyOf(Ev(r, t, Name(i)))| == |r.name| + 9 + i
  {
    assert |KeyOf(Ev(r, t, Name(i)))| == |r.name| + 9 + i && |KeyOf(Ev(r, u, Name(j)))| == |r.name| + 9 + j;
  }

  /** The counter a full burst at time 0 leaves. */
  function Spent(r: Rule): Counter {
    Counter(1, 0, r.cooldown, r.window)
  }

  ghost function Burst(r: Rule, i: nat): seq<Event>
    requires r.Valid()
  {
    Rep(r.threshold + 1, Ev(r, 0, Name(i)))
  }

  /** n keys alert at time 0 and are suppressed once each. */
  ghost function Filling(r: Rule, n: nat): seq<Event>
    requires r.Valid()
  {
    if n == 0 then [] else Filling(r, n - 1) + Burst(r, n - 1)
  }

  lemma {:induction false} FillingAtZero(r: Rule, n: nat)
    requires r.Valid()
    ensures |Filling(r, n)| >= n
    ensures forall i :: 0 <= i < |Filling(r, n)| ==> Filling(r, n)[i].now == 0 && Filling(r, n)[i].rule == r
  {
    if n > 0 {
      FillingAtZero(r, n - 1);
    }
  }

  /** The map that leaves. */
  ghost function Filled(r: Rule, n: nat): map<string, Counter> {
    if n == 0 then map[] else Filled(r, n - 1)[KeyOf(Ev(r, 0, Name(n - 1))) := Spent(r)]
  }

  lemma {:induction false} FilledFacts(r: Rule, n: nat)
    ensures |Filled(r, n)| == n
    ensures forall k :: k in Filled(r, n) ==> Filled(r, n)[k] == Spent(r) && |k| < |r.name| + 9 + n
    ensures n > 0 ==> KeyOf(Ev(r, 0, Name(0))) in Filled(r, n)
  {
    if n > 0 {
      FilledFacts(r, n - 1);
      NamesDiffer(r, 0, 0, n - 1, 0);
    }
  }

  lemma BurstLeads(s: State, ev: Event, end: State)
    requires ev.rule.Valid() && ev.rule.cooldown > ev.rule.window && ev.now == 0
    requires KeyOf(ev) !in s.counters && |s.counters| < s.maxKeys
    requires end == s.(counters := s.counters[KeyOf(ev) := Spent(ev.rule)])
    ensures Leads(s, Rep(ev.rule.threshold + 1, ev), end)
  {
    FullBurst(s, ev);
  }

  lemma OneMoreBurst(s: State, m: map<string, Counter>, r: Rule, n: nat, xs: seq<Event>)
    requires r.Valid() && r.cooldown > r.window && |m| == n < s.maxKeys && Leads(s, xs, s.(counters := m))
    requires forall k :: k in m ==> |k| < |r.name| + 9 + n
    ensures Leads(s, xs + Burst(r, n), s.(counters := m[KeyOf(Ev(r, 0, Name(n))) := Spent(r)]))
  {
    var ev := Ev(r, 0, Name(n));
    var mid, end := s.(counters := m), s.(counters := m[KeyOf(ev) := Spent(r)]);
    assert KeyOf(ev) !in m by { NamesDiffer(r, 0, 0, n, n); }
    BurstLeads(mid, ev, end);
    LeadsConcat(s, xs, mid, Burst(r, n), end);
  }

  lemma {:induction false} AfterFilling(s: State, r: Rule, n: nat)
    requires r.Valid() && r.cooldown > r.window && s.counters == map[] && n <= s.maxKeys
    ensures Leads(s, Filling(r, n), s.(counters := Filled(r, n)))
  {
    if n == 0 {
      assert s.(counters := Filled(r, 0)) == s;
    } else {
      AfterFilling(s, r, n - 1);
      FilledFacts(r, n - 1);
      OneMoreBurst(s, Filled(r, n - 1), r, n - 1, Filling(r, n - 1));
    }
  }

  /** The run: n keys fill the map, one more arrives when their windows end, and the first comes back. */
  ghost function Comeback(r: Rule, n: nat): seq<Event>
    requires r.Valid()
  {
    [Ev(r, r.window, Name(n))] + Rep(r.threshold - 1, Ev(r, r.window, Name(0)))
  }

  ghost function Prefix(r: Rule, n: nat): seq<Event>
    requires r.Valid()
  {
    Filling(r, n) + Comeback(r, n)
  }

  /** A full map whose windows have all ended makes room for the newcomer by giving up everyone. */
  lemma Newcomer(s: State, r: Rule, n: nat)
    requires r.Valid() && n == s.maxKeys > 0 && s.counters == Filled(r, n)
    ensures var c := Ev(r, r.window, Name(n));
      Leads(s, [c], Count(s, c).0) && Count(s, c).0.counters.Keys == {KeyOf(c)} && Count(s, c).0.maxKeys == n
  {
    var c := Ev(r, r.window, Name(n));
    NamesDiffer(r, r.window, 0, n, n);
    FilledFacts(r, n);
    assert KeyOf(c) !in s.counters;
    assert Reclaimed(s.counters, r.window) == map[];
    CountAdmitted(s, c);
    assert [c][1..] == [];
  }

  /** With room for n keys, the first key is reclaimed in the middle of its cooldown and alerts again. */
  lemma BoundedAlertsAgain(r: Rule, n: nat)
    requires r.Valid() && r.cooldown > r.window && n >= 2
    ensures Unrefused(Init(n), Prefix(r, n) + [Ev(r, r.window, Name(0))])
    ensures Count(Run(Init(n), Prefix(r, n)), Ev(r, r.window, Name(0))).1.Some?
  {
    var a, c, m := Ev(r, r.window, Name(0)), Ev(r, r.window, Name(n)), r.threshold - 1;
    AfterFilling(Init(n), r, n);
    var s1 := Init(n).(counters := Filled(r, n));
    Newcomer(s1, r, n);
    var s2 := Count(s1, c).0;
    NamesDiffer(r, r.window, r.window, 0, n);
    Returns(s2, a);
    var s3 := Run(s2, Rep(m, a));
    LeadsConcat(s1, [c], s2, Rep(m, a), s3);
    LeadsConcat(Init(n), Filling(r, n), s1, Comeback(r, n), s3);
    LeadsConcat(Init(n), Prefix(r, n), s3, [a], Run(s3, [a]));
  }

  /** A key the map has room for alerts on its Threshold-th event. */
  lemma Returns(s: State, ev: Event)
    requires ev.rule.Valid() && ev.now >= 0 && KeyOf(ev) !in s.counters && |s.counters| < s.maxKeys
    ensures Unrefused(s, Rep(ev.rule.threshold - 1, ev))
    ensures var s' := Run(s, Rep(ev.rule.threshold - 1, ev)); Unrefused(s', [ev]) && Count(s', ev).1.Some?
  {
    var m := ev.rule.threshold - 1;
    assert [ev][1..] == [];
    if m > 0 {
      var s1 := s.(counters := s.counters[KeyOf(ev) := NewCounter(ev.now)]);
      Admitting(s, ev, m - 1);
      QuietBurst(s1, ev, m);
    }
    CountAdmitted(Run(s, Rep(m, ev)), ev);
  }

  /** While nothing is reclaimed, a silenced key stays silent. */
  lemma {:induction false} StaysSilent(s: State, evs: seq<Event>, k: string, until: int)
    requires k in s.counters && s.counters[k].silentUntil == until && |s.counters| + |evs| < s.maxKeys
    requires forall i :: 0 <= i < |evs| ==> evs[i].now < until
    ensures k in Run(s, evs).counters && Run(s, evs).counters[k].silentUntil == until
    decreases |evs|
  {
    if evs != [] {
      CountAdmitted(s, evs[0]);
      StaysSilent(Count(s, evs[0]).0, evs[1..], k, until);
    }
  }

  lemma SilentAtEnd(s: State, xs: seq<Event>, mid: State, ys: seq<Event>, ev: Event, until: int)
    requires Leads(s, xs, mid) && KeyOf(ev) in mid.counters && mid.counters[KeyOf(ev)].silentUntil == until
    requires |mid.counters| + |ys| < mid.maxKeys
    requires (forall i :: 0 <= i < |ys| ==> ys[i].now < until) && ev.now < until
    ensures Count(Run(s, xs + ys), ev).1.None?
  {
    RunConcat(s, xs, ys);
    StaysSilent(mid, ys, KeyOf(ev), until);
    CountAdmitted(Run(mid, ys), ev);
  }

  lemma RoomiestStaysSilent(r: Rule, n: nat, s0: State)
    requires r.Valid() && r.cooldown > r.window && n > 0
    requires s0 == Roomiest(Prefix(r, n) + [Ev(r, r.window, Name(0))])
    ensures Count(Run(s0, Prefix(r, n)), Ev(r, r.window, Name(0))).1.None?
  {
    var s1 := s0.(counters := Filled(r, n));
    FillingAtZero(r, n);
    FilledFacts(r, n);
    AfterFilling(s0, r, n);
    NamesDiffer(r, r.window, 0, 0, 0);
    SilentAtEnd(s0, Filling(r, n), s1, Comeback(r, n), Ev(r, r.window, Name(0)), r.cooldown);
  }

  ghost predicate OnlyRule(evs: seq<Event>, r: Rule) {
    forall i :: 0 <= i < |evs| ==> evs[i].rule == r
  }

  /** A detector with maxKeys keys shows no reclamation in the alerts of any unrefused run of rule r. */
  ghost predicate Invisible(maxKeys: nat, r: Rule) {
    forall evs :: Timed(evs, 0) && OnlyRule(evs, r) && Unrefused(Init(maxKeys), evs) ==>
      Alerts(Init(maxKeys), evs) == Alerts(Roomiest(evs), evs)
  }

  lemma PrefixTimed(r: Rule, n: nat)
    requires r.Valid()
    ensures var evs := Prefix(r, n) + [Ev(r, r.window, Name(0))]; Timed(evs, 0) && OnlyRule(evs, r)
  {
    FillingAtZero(r, n);
    var evs, f := Prefix(r, n) + [Ev(r, r.window, Name(0))], |Filling(r, n)|;
    assert forall i :: 0 <= i < |evs| ==> evs[i].rule == r && evs[i].now == if i < f then 0 else r.window;
  }

  /** A run whose last event alerts in the bounded detector only shows the reclamation. */
  lemma Shows(n: nat, r: Rule, xs: seq<Event>, ev: Event, evs: seq<Event>)
    requires evs == xs + [ev] && Timed(evs, 0) && OnlyRule(evs, r) && Unrefused(Init(n), evs)
    requires Count(Run(Init(n), xs), ev).1.Some? && Count(Run(Roomiest(evs), xs), ev).1.None?
    ensures !Invisible(n, r)
  {
    LastAlert(Init(n), xs, ev);
    LastAlert(Roomiest(evs), xs, ev);
    assert Alerts(Init(n), evs)[|xs|] != Alerts(Roomiest(evs), evs)[|xs|];
  }

  lemma VisibleWhenCooldownOutlasts(r: Rule, n: nat)
    requires r.Valid() && r.cooldown > r.window && n >= 2
    ensures !Invisible(n, r)
  {
    var a := Ev(r, r.window, Name(0));
    var evs := Prefix(r, n) + [a];
    BoundedAlertsAgain(r, n);
    RoomiestStaysSilent(r, n, Roomiest(evs));
    PrefixTimed(r, n);
    Shows(n, r, Prefix(r, n), a, evs);
  }

  lemma InvisibleWhenShort(r: Rule, maxKeys: nat)
    requires r.Valid() && r.cooldown <= r.window
    ensures Invisible(maxKeys, r)
  {
    forall evs | Timed(evs, 0) && OnlyRule(evs, r) && Unrefused(Init(maxKeys), evs)
      ensures Alerts(Init(maxKeys), evs) == Alerts(Roomiest(evs), evs)
    {
      assert forall i :: 0 <= i < |evs| ==> GoodRule(evs[i], (_: string) => r);
      ReclamationInvisible(maxKeys, (_: string) => r, evs);
    }
  }

  // ------------------------------------------------------------------ a single key

  /** A full map whose counters are all dead is to a new key as an empty one. */
  lemma AsIfEmpty(s: State, ev: Event, n: nat, e: State)
    requires KeyOf(ev) !in s.counters && |s.counters| == s.maxKeys > 0 && Reclaimed(s.counters, ev.now) == map[]
    requires e == s.(counters := map[])
    ensures Count(s, ev) == Count(e, ev) && Admits(s, ev)
    ensures Run(s, Rep(n + 1, ev)) == Run(e, Rep(n + 1, ev))
    ensures Unrefused(e, Rep(n + 1, ev)) ==> Unrefused(s, Rep(n + 1, ev))
  {
  }

  ghost function Only(ev: Event): State {
    Init(1).(counters := map[KeyOf(ev) := Counter(1, ev.now, ev.now + ev.rule.cooldown, ev.now + ev.rule.window)])
  }

  lemma BurstOnEmpty(ev: Event)
    requires ev.rule.Valid() && ev.rule.cooldown > ev.rule.window && ev.now >= 0
    ensures Leads(Init(1), Rep(ev.rule.threshold + 1, ev), Only(ev))
  {
    FullBurst(Init(1), ev);
    assert Init(1).counters == map[];
  }

  /** With one slot, a key whose window has ended gives way to the next. */
  lemma Displaces(a: Event, c: Event)
    requires c.rule.Valid() && c.rule.cooldown > c.rule.window && a.rule == c.rule
    requires a.now + a.rule.window == c.now && a.now >= 0
    requires KeyOf(a) != KeyOf(c)
    ensures Leads(Only(a), Rep(c.rule.threshold + 1, c), Only(c))
  {
    assert Reclaimed(Only(a).counters, c.now) == map[];
    assert Only(a).(counters := map[]) == Init(1);
    AsIfEmpty(Only(a), c, c.rule.threshold, Init(1));
    BurstOnEmpty(c);
  }

  /** ... and back it comes as new. */
  lemma ComesBack(c: Event, a: Event)
    requires a.rule.Valid() && a.rule == c.rule && c.now + c.rule.window == a.now && a.now >= 0 && KeyOf(a) != KeyOf(c)
    ensures Unrefused(Only(c), Rep(a.rule.threshold - 1, a))
    ensures var s' := Run(Only(c), Rep(a.rule.threshold - 1, a)); Unrefused(s', [a]) && Count(s', a).1.Some?
  {
    assert Reclaimed(Only(c).counters, a.now) == map[];
    assert Only(c).(counters := map[]) == Init(1);
    var m := a.rule.threshold - 1;
    AsIfEmpty(Only(c), a, if m > 0 then m - 1 else 0, Init(1));
    Returns(Init(1), a);
    assert [a][1..] == [];
  }

  ghost function Turns(r: Rule): seq<Event>
    requires r.Valid()
  {
    Rep(r.threshold + 1, Ev(r, r.window, Name(1))) + Rep(r.threshold - 1, Ev(r, 2 * r.window, Name(0)))
  }

  /** The run for one slot: the first key alerts, the second takes its slot a window later, and after one more window
      the first comes back. */
  ghost function OneSlotPrefix(r: Rule): seq<Event>
    requires r.Valid()
  {
    Burst(r, 0) + Turns(r)
  }

  lemma OneSlotAlertsAgain(r: Rule)
    requires r.Valid() && r.cooldown > 2 * r.window
    ensures Unrefused(Init(1), OneSlotPrefix(r) + [Ev(r, 2 * r.window, Name(0))])
    ensures Count(Run(Init(1), OneSlotPrefix(r)), Ev(r, 2 * r.window, Name(0))).1.Some?
  {
    var a, c, a' := Ev(r, 0, Name(0)), Ev(r, r.window, Name(1)), Ev(r, 2 * r.window, Name(0));
    var n, m := r.threshold + 1, r.threshold - 1;
    NamesDiffer(r, 0, r.window, 0, 1);
    NamesDiffer(r, 2 * r.window, r.window, 0, 1);
    BurstOnEmpty(a);
    Displaces(a, c);
    ComesBack(c, a');
    var s3 := Run(Only(c), Rep(m, a'));
    LeadsConcat(Only(a), Rep(n, c), Only(c), Rep(m, a'), s3);
    LeadsConcat(Init(1), Burst(r, 0), Only(a), Turns(r), s3);
    LeadsConcat(Init(1), OneSlotPrefix(r), s3, [a'], Run(s3, [a']));
  }

  lemma OneSlotStaysSilent(r: Rule, s0: State)
    requires r.Valid() && r.cooldown > 2 * r.window
    requires s0 == Roomiest(OneSlotPrefix(r) + [Ev(r, 2 * r.window, Name(0))])
    ensures Count(Run(s0, OneSlotPrefix(r)), Ev(r, 2 * r.window, Name(0))).1.None?
  {
    var a := Ev(r, 0, Name(0));
    FullBurst(s0, a);
    NamesDiffer(r, 2 * r.window, 0, 0, 0);
    var s1 := s0.(counters := s0.counters[KeyOf(a) := Spent(r)]);
    assert s1.counters.Keys == {KeyOf(a)};
    SilentAtEnd(s0, Burst(r, 0), s1, Turns(r), Ev(r, 2 * r.window, Name(0)), r.cooldown);
  }

  lemma OneSlotVisible(r: Rule)
    requires r.Valid() && r.cooldown > 2 * r.window
    ensures !Invisible(1, r)
  {
    var a := Ev(r, 2 * r.window, Name(0));
    var evs := OneSlotPrefix(r) + [a];
    OneSlotAlertsAgain(r);
    OneSlotStaysSilent(r, Roomiest(evs));
    OneSlotTimed(r);
    Shows(1, r, OneSlotPrefix(r), a, evs);
  }

  lemma OneSlotTimed(r: Rule)
    requires r.Valid()
    ensures var evs := OneSlotPrefix(r) + [Ev(r, 2 * r.window, Name(0))]; Timed(evs, 0) && OnlyRule(evs, r)
  {
  }

  /** What the one slot's counter promises: it outlives its window by its last event, and its silence ends within two
      windows of its opening. */
  ghost predicate HeldWell(c: Counter, d: Counter, r: Rule, since: int, t: int) {
    && Same(c, d, t) && since <= t && c.openedAt <= t
    && c.openedAt + r.window <= c.deadAfter && since + r.window <= c.deadAfter
    && c.silentUntil <= c.openedAt + 2 * r.window
  }

  /** Everyone else has a closed window, and silence that ends before the slot can be free again. */
  ghost predicate WaitsWell(d: Counter, r: Rule, since: int, t: int) {
    d.openedAt + r.window <= t && d.silentUntil <= since + r.window
  }

  /** s, with one slot given to its key at time since, against b, which forgets nothing. */
  ghost predicate OneSlot(s: State, b: State, r: Rule, since: int, t: int) {
    && s.maxKeys == 1 && |s.counters| <= 1
    && (s.counters == map[] ==> b.counters == map[])
    && (forall k :: k in s.counters ==> k in b.counters && HeldWell(s.counters[k], b.counters[k], r, since, t))
    && (forall k :: k in b.counters && k !in s.counters ==> WaitsWell(b.counters[k], r, since, t))
  }

  lemma TickHeldWell(c: Counter, d: Counter, r: Rule, since: int, t: int, now: int)
    requires r.Valid() && r.cooldown <= 2 * r.window && t <= now && HeldWell(c, d, r, since, t)
    ensures Tick(c, now, r).1 == Tick(d, now, r).1
    ensures HeldWell(Tick(c, now, r).0, Tick(d, now, r).0, r, since, now)
  {
  }

  lemma TickNewWell(d: Counter, r: Rule, now: int)
    requires r.Valid() && r.cooldown <= 2 * r.window && now >= 0 && (d == NewCounter(now) || Lapsed(d, r, now))
    ensures Tick(NewCounter(now), now, r).1 == Tick(d, now, r).1
    ensures HeldWell(Tick(NewCounter(now), now, r).0, Tick(d, now, r).0, r, now, now)
  {
  }

  /** The key that held the slot, once its counter is dead. */
  lemma GivesWay(c: Counter, d: Counter, r: Rule, since: int, t: int, now: int)
    requires HeldWell(c, d, r, since, t) && t <= now && c.deadAfter <= now && r.window > 0
    ensures WaitsWell(d, r, now, now)
  {
  }

  lemma OneSlotHeld(s: State, b: State, r: Rule, since: int, t: int, ev: Event)
    requires r.Valid() && r.cooldown <= 2 * r.window && OneSlot(s, b, r, since, t) && 0 <= t <= ev.now
    requires ev.rule == r && KeyOf(ev) in s.counters
    ensures Count(s, ev).1 == Count(b, ev).1
    ensures OneSlot(Count(s, ev).0, Count(b, ev).0, r, since, ev.now)
  {
    var k := KeyOf(ev);
    CountAdmitted(s, ev);
    CountAdmitted(b, ev);
    TickHeldWell(s.counters[k], b.counters[k], r, since, t, ev.now);
    OneKey(s.counters, k);
  }

  lemma OneKey(m: map<string, Counter>, k: string)
    requires k in m && |m| <= 1
    ensures m.Keys == {k}
  {
    assert |m.Keys - {k}| == 0;
  }

  lemma OneSlotTaken(s: State, b: State, r: Rule, since: int, t: int, ev: Event)
    requires r.Valid() && r.cooldown <= 2 * r.window && OneSlot(s, b, r, since, t) && 0 <= t <= ev.now
    requires ev.rule == r && KeyOf(ev) !in s.counters && Admits(s, ev) && |b.counters| < b.maxKeys
    ensures Count(s, ev).1 == Count(b, ev).1
    ensures OneSlot(Count(s, ev).0, Count(b, ev).0, r, ev.now, ev.now)
  {
    var k, now := KeyOf(ev), ev.now;
    CountAdmitted(s, ev);
    CountAdmitted(b, ev);
    assert Found(s, ev) == map[];
    forall j | j in b.counters
      ensures WaitsWell(b.counters[j], r, now, now) && (j !in s.counters ==> Lapsed(b.counters[j], r, now))
    {
      AllGiveWay(s, b, r, since, t, ev, j);
    }
    TickNewWell(Mine(b, ev), r, now);
  }

  lemma AllGiveWay(s: State, b: State, r: Rule, since: int, t: int, ev: Event, j: string)
    requires r.Valid() && OneSlot(s, b, r, since, t) && 0 <= t <= ev.now && j in b.counters
    requires KeyOf(ev) !in s.counters && Admits(s, ev)
    ensures WaitsWell(b.counters[j], r, ev.now, ev.now)
    ensures j !in s.counters ==> Lapsed(b.counters[j], r, ev.now)
  {
    if j in s.counters {
      OneKey(s.counters, j);
      assert j !in Reclaimed(s.counters, ev.now);
      GivesWay(s.counters[j], b.counters[j], r, since, t, ev.now);
    } else {
      assert WaitsWell(b.counters[j], r, since, t);
      assert Roomy(s, ev.now).counters == map[];
      forall h | h in s.counters ensures s.counters[h].deadAfter <= ev.now {
        OneKey(s.counters, h);
        assert h !in Reclaimed(s.counters, ev.now);
      }
    }
  }

  lemma {:induction false} OneSlotAgrees(s: State, b: State, r: Rule, since: int, t: int, evs: seq<Event>)
    requires r.Valid() && r.cooldown <= 2 * r.window && OneSlot(s, b, r, since, t) && 0 <= t
    requires Timed(evs, t) && OnlyRule(evs, r) && Unrefused(s, evs) && |b.counters| + |evs| < b.maxKeys
    ensures Alerts(s, evs) == Alerts(b, evs)
    decreases |evs|
  {
    if evs != [] {
      var ev, since' := evs[0], if KeyOf(evs[0]) in s.counters then since else evs[0].now;
      if KeyOf(ev) in s.counters {
        OneSlotHeld(s, b, r, since, t, ev);
      } else {
        OneSlotTaken(s, b, r, since, t, ev);
      }
      CountAdmitted(b, ev);
      TimedTail(evs, t);
      OneSlotAgrees(Count(s, ev).0, Count(b, ev).0, r, since', ev.now, evs[1..]);
    }
  }

  lemma OneSlotInvisible(r: Rule)
    requires r.Valid() && r.cooldown <= 2 * r.window
    ensures Invisible(1, r)
  {
    forall evs | Timed(evs, 0) && OnlyRule(evs, r) && Unrefused(Init(1), evs)
      ensures Alerts(Init(1), evs) == Alerts(Roomiest(evs), evs)
    {
      OneSlotAgrees(Init(1), Roomiest(evs), r, 0, 0, evs);
    }
  }

  /** deadAfter keeps its promise exactly for rules whose cooldown does not outlast their window, at every bound of two
      keys or more. A single slot is held by the key that took it for a window, which makes it two windows there. */
  lemma InvisibleIffShortCooldown(r: Rule, maxKeys: nat)
    requires r.Valid() && maxKeys >= 1
    ensures Invisible(maxKeys, r) <==> r.cooldown <= if maxKeys == 1 then 2 * r.window else r.window
  {
    if maxKeys == 1 {
      if r.cooldown > 2 * r.window { OneSlotVisible(r); } else { OneSlotInvisible(r); }
    } else if r.cooldown > r.window {
      VisibleWhenCooldownOutlasts(r, maxKeys);
    } else {
      InvisibleWhenShort(r, maxKeys);
    }
  }
}
