/**
 The per-address rate trackers of cmd/bridge/detection.go: sliding windows capped in samples per
 address and in addresses. RateTracker and LoginFailTracker share this behaviour.
 */
module SlidingWindow {
  import opened Common

  const MAX_SAMPLES := 4096
  const MAX_TRACKED := 50_000

  datatype Bucket = Bucket(timestamps: seq<int>, lastAccess: int)

  /** The start of the window that ends now. */
  function Cutoff(now: int, window: int): int {
    now - window
  }

  /** What the trackers are meant to count: the events at or after cutoff, with no cap. */
  ghost function TrueCount(hist: seq<int>, cutoff: int): nat {
    if hist == [] then 0
    else TrueCount(hist[..|hist| - 1], cutoff) + if hist[|hist| - 1] >= cutoff then 1 else 0
  }

  /** The index of the first timestamp not before cutoff. */
  function TrimIndex(ts: seq<int>, cutoff: int): (n: nat)
    ensures n <= |ts|
  {
    if ts == [] || ts[0] >= cutoff then 0 else 1 + TrimIndex(ts[1..], cutoff)
  }

  lemma {:induction false} TrimIndexSplits(ts: seq<int>, cutoff: int)
    ensures var n := TrimIndex(ts, cutoff);
      (forall i :: 0 <= i < n ==> ts[i] < cutoff) && (n < |ts| ==> ts[n] >= cutoff)
  {
    if ts != [] && ts[0] < cutoff {
      TrimIndexSplits(ts[1..], cutoff);
      assert forall i :: 0 < i < TrimIndex(ts, cutoff) ==> ts[i] == ts[1..][i - 1];
    }
  }

  lemma {:induction false} TrimIndexIs(ts: seq<int>, cutoff: int, n: nat)
    requires n <= |ts| && (forall i :: 0 <= i < n ==> ts[i] < cutoff) && (n < |ts| ==> ts[n] >= cutoff)
    ensures TrimIndex(ts, cutoff) == n
  {
    if n > 0 {
      TrimIndexIs(ts[1..], cutoff, n - 1);
    }
  }

  function Recorded(ts: seq<int>, now: int, cutoff: int): (r: seq<int>)
    ensures |r| > 0
  {
    var live := ts[TrimIndex(ts, cutoff)..];
    (if |live| >= MAX_SAMPLES then live[1..] else live) + [now]
  }

  // ------------------------------------------------------------------ one address

  /** ts is the tail of the whole history, and what it lacks is either past the window or beyond the cap. */
  ghost predicate Tail(hist: seq<int>, ts: seq<int>, cutoff: int) {
    && |ts| <= |hist| && ts == hist[|hist| - |ts|..] && |ts| <= MAX_SAMPLES
    && (|ts| == MAX_SAMPLES || forall i :: 0 <= i < |hist| - |ts| ==> hist[i] < cutoff)
  }

  lemma {:induction false} TrueCountOfTail(hist: seq<int>, n: nat, cutoff: int)
    requires n <= |hist| && forall i :: 0 <= i < n ==> hist[i] < cutoff
    requires forall i :: n <= i < |hist| ==> hist[i] >= cutoff
    ensures TrueCount(hist, cutoff) == |hist| - n
  {
    if hist != [] {
      var m := |hist| - 1;
      TrueCountOfTail(hist[..m], if n <= m then n else m, cutoff);
    }
  }

  lemma {:induction false} TrueCountAtLeast(hist: seq<int>, n: nat, cutoff: int)
    requires n <= |hist| && forall i :: n <= i < |hist| ==> hist[i] >= cutoff
    ensures TrueCount(hist, cutoff) >= |hist| - n
  {
    if n < |hist| {
      TrueCountAtLeast(hist[..|hist| - 1], n, cutoff);
    }
  }

  /** A tail all of which is inside the window counts min(cap, truth). */
  lemma TailCounts(hist: seq<int>, ts: seq<int>, cutoff: int)
    requires Tail(hist, ts, cutoff) && forall i :: 0 <= i < |ts| ==> ts[i] >= cutoff
    ensures |ts| == Min(MAX_SAMPLES, TrueCount(hist, cutoff))
  {
    var n := |hist| - |ts|;
    assert forall i :: n <= i < |hist| ==> hist[i] == ts[i - n];
    if |ts| == MAX_SAMPLES {
      TrueCountAtLeast(hist, n, cutoff);
    } else {
      TrueCountOfTail(hist, n, cutoff);
    }
  }

  /** Trimming to a later cutoff leaves a tail for that cutoff. */
  lemma TrimKeepsTail(hist: seq<int>, ts: seq<int>, cutoff: int, later: int)
    requires Sorted(hist) && Tail(hist, ts, cutoff) && cutoff <= later
    ensures var live := ts[TrimIndex(ts, later)..];
      Tail(hist, live, later) && forall i :: 0 <= i < |live| ==> live[i] >= later
  {
    TrimIndexSplits(ts, later);
    DropKeepsTail(hist, ts, cutoff, later, TrimIndex(ts, later));
  }

  /** Dropping exactly the timestamps before the later cutoff. */
  lemma DropKeepsTail(hist: seq<int>, ts: seq<int>, cutoff: int, later: int, t: nat)
    requires Sorted(hist) && Tail(hist, ts, cutoff) && cutoff <= later && t <= |ts|
    requires (forall i :: 0 <= i < t ==> ts[i] < later) && (t < |ts| ==> ts[t] >= later)
    ensures Tail(hist, ts[t..], later) && forall i :: 0 <= i < |ts[t..]| ==> ts[t..][i] >= later
  {
    var n, live := |hist| - |ts|, ts[t..];
    assert live == hist[n + t..];
    forall i | 0 <= i < |live| ensures live[i] >= later {
      assert live[i] == hist[n + t + i] && ts[t] == hist[n + t];
    }
    if t > 0 {
      assert ts[t - 1] == hist[n + t - 1];
    }
  }

  /** Appending to a tail, dropping its oldest at the cap. */
  lemma AppendTail(hist: seq<int>, live: seq<int>, now: int, cutoff: int)
    requires Tail(hist, live, cutoff) && cutoff <= now && forall i :: 0 <= i < |live| ==> live[i] >= cutoff
    ensures var r := (if |live| >= MAX_SAMPLES then live[1..] else live) + [now];
      Tail(hist + [now], r, cutoff) && forall i :: 0 <= i < |r| ==> r[i] >= cutoff
  {
    var kept := if |live| >= MAX_SAMPLES then live[1..] else live;
    var h, n := hist + [now], |hist| - |kept|;
    assert kept == hist[n..];
    assert h[n..] == hist[n..] + [now];
  }

  lemma SortedAppend(hist: seq<int>, now: int)
    requires Sorted(hist) && (hist != [] ==> hist[|hist| - 1] <= now)
    ensures Sorted(hist + [now])
  {
  }

  lemma RecordKeepsTail(hist: seq<int>, ts: seq<int>, cutoff: int, now: int, later: int)
    requires Sorted(hist) && Tail(hist, ts, cutoff) && cutoff <= later <= now
    ensures var r := Recorded(ts, now, later);
      Tail(hist + [now], r, later) && forall i :: 0 <= i < |r| ==> r[i] >= later
  {
    var live := ts[TrimIndex(ts, later)..];
    TrimKeepsTail(hist, ts, cutoff, later);
    AppendTail(hist, live, now, later);
  }

  /** record keeps the tail and returns min(cap, events in the window, this one included). */
  lemma RecordCounts(hist: seq<int>, ts: seq<int>, cutoff: int, now: int, later: int, h: seq<int>, r: seq<int>)
    requires Sorted(hist) && Tail(hist, ts, cutoff) && cutoff <= later <= now
    requires hist != [] ==> hist[|hist| - 1] <= now
    requires h == hist + [now] && r == Recorded(ts, now, later)
    ensures Sorted(h) && Tail(h, r, later) && |r| == Min(MAX_SAMPLES, TrueCount(h, later))
  {
    SortedAppend(hist, now);
    RecordKeepsTail(hist, ts, cutoff, now, later);
    TailCounts(h, r, later);
  }

  /** Count: the timestamps inside the window, without recording. */
  lemma CountCounts(hist: seq<int>, ts: seq<int>, cutoff: int, later: int)
    requires Sorted(hist) && Tail(hist, ts, cutoff) && cutoff <= later
    ensures TrueCount(ts, later) == Min(MAX_SAMPLES, TrueCount(hist, later))
  {
    TrimKeepsTail(hist, ts, cutoff, later);
    var live := ts[TrimIndex(ts, later)..];
    LiveCount(ts, live, later);
    TailCounts(hist, live, later);
  }

  lemma LiveCount(ts: seq<int>, live: seq<int>, cutoff: int)
    requires live == ts[TrimIndex(ts, cutoff)..] && forall i :: 0 <= i < |live| ==> live[i] >= cutoff
    ensures TrueCount(ts, cutoff) == |live|
  {
    var t := TrimIndex(ts, cutoff);
    TrimIndexSplits(ts, cutoff);
    forall i | t <= i < |ts| ensures ts[i] >= cutoff {
      assert ts[i] == live[i - t];
    }
    TrueCountOfTail(ts, t, cutoff);
  }

  // ------------------------------------------------------------------ all addresses

  datatype Event = Record(ip: string, now: int) | Count(ip: string, now: int) | Reap(now: int)

  type Buckets = map<string, Bucket>

  predicate TurnedAway(b: Buckets, ip: string) {
    ip !in b && |b| >= MAX_TRACKED
  }

  function AfterRecord(b: Buckets, ip: string, now: int, window: int): Buckets {
    var ts := if ip in b then b[ip].timestamps else [];
    b[ip := Bucket(Recorded(ts, now, Cutoff(now, window)), now)]
  }

  function Reaped(b: Buckets, now: int, window: int): Buckets {
    map ip | ip in b && !(b[ip].lastAccess < now - 2 * window) :: b[ip]
  }

  ghost function Step(b: Buckets, ev: Event, window: int): (Buckets, int) {
    match ev
    case Record(ip, now) =>
      if TurnedAway(b, ip) then (b, 1)
      else var b' := AfterRecord(b, ip, now, window); (b', |b'[ip].timestamps|)
    case Count(ip, now) => (b, if ip in b then TrueCount(b[ip].timestamps, Cutoff(now, window)) else 0)
    case Reap(now) => (Reaped(b, now, window), 0)
  }

  /** What the tracker holds of one address (None: nothing) against everything it ever did. */
  ghost predicate Known(h: seq<int>, o: Option<Bucket>, cutoff: int, t: int) {
    && h != [] && Sorted(h) && h[|h| - 1] <= t
    && match o
       case Some(b) => Tail(h, b.timestamps, cutoff) && b.lastAccess == h[|h| - 1]
       case None => h[|h| - 1] < cutoff
  }

  function Held(b: Buckets, ip: string): Option<Bucket> {
    if ip in b then Some(b[ip]) else None
  }

  /** o is what the tracker remembers of an address whose admitted events are h; an address without any is not held. */
  ghost predicate Remembers(h: seq<int>, o: Option<Bucket>, cutoff: int, t: int) {
    if h == [] then o == None else Known(h, o, cutoff, t)
  }

  lemma KnownLater(h: seq<int>, o: Option<Bucket>, cutoff: int, t: int, later: int, now: int)
    requires Remembers(h, o, cutoff, t) && t <= now && cutoff <= later
    ensures Remembers(h, o, later, now)
  {
  }

  /** A forgotten address has an empty tail: everything it did is past the window. */
  lemma ForgottenTail(hist: seq<int>, cutoff: int)
    requires Sorted(hist) && (hist != [] ==> hist[|hist| - 1] < cutoff)
    ensures Tail(hist, [], cutoff)
  {
    assert hist[|hist|..] == [];
    forall i | 0 <= i < |hist| ensures hist[i] < cutoff {
      assert hist[i] <= hist[|hist| - 1];
    }
  }

  /** The tail an address starts from: what its bucket holds, or nothing. */
  lemma StartingTail(h: seq<int>, o: Option<Bucket>, cutoff: int, now: int)
    requires Remembers(h, o, cutoff, now)
    ensures Sorted(h) && Tail(h, if o.Some? then o.value.timestamps else [], cutoff)
  {
    if o.None? {
      ForgottenTail(h, cutoff);
    }
  }

  lemma RecordOne(past: seq<int>, o: Option<Bucket>, cutoff: int, now: int, h: seq<int>, bucket: Bucket)
    requires cutoff <= now && Remembers(past, o, cutoff, now)
    requires h == past + [now]
    requires bucket == Bucket(Recorded(if o.Some? then o.value.timestamps else [], now, cutoff), now)
    ensures Known(h, Some(bucket), cutoff, now)
    ensures |bucket.timestamps| == Min(MAX_SAMPLES, TrueCount(h, cutoff))
  {
    StartingTail(past, o, cutoff, now);
    RecordCounts(past, if o.Some? then o.value.timestamps else [], cutoff, now, cutoff, h, bucket.timestamps);
  }

  /** The address an event asks about, if any. */
  predicate Asks(ev: Event, ip: string) {
    !ev.Reap? && ev.ip == ip
  }

  /** ip's history after one more event, by an account that leaves nothing out. */
  ghost function NextHist(h: seq<int>, ev: Event, ip: string): seq<int> {
    if ev.Record? && ev.ip == ip then h + [ev.now] else h
  }

  /** ip's history as far as the tracker admitted it. */
  ghost function NextAdmitted(b: Buckets, h: seq<int>, ev: Event, ip: string): seq<int> {
    if TurnedAway(b, ip) then h else NextHist(h, ev, ip)
  }

  /** The events of a history no older than a window. */
  ghost function Recent(h: seq<int>, now: int, window: int): set<int> {
    set i | 0 <= i < |h| && h[i] >= now - window
  }

  lemma {:induction false} TrueCountIsRecent(h: seq<int>, now: int, window: int)
    ensures TrueCount(h, Cutoff(now, window)) == |Recent(h, now, window)|
  {
    if h != [] {
      var n := |h| - 1;
      TrueCountIsRecent(h[..n], now, window);
      assert Recent(h, now, window) == Recent(h[..n], now, window) + if h[n] >= now - window then {n} else {};
    }
  }

  /** What a tracker without caps and reaps answers ip after history h: the number of its events no older than a window,
      the event itself included when it records, and 4096 at most. */
  ghost function Truth(h: seq<int>, ev: Event, ip: string, window: int): int {
    var n := |Recent(NextHist(h, ev, ip), ev.now, window)|;
    if n < 4096 then n else 4096
  }

  /** An address not held has nothing in the window, so turning it away with 1 is what counting it would answer. */
  lemma TurnedAwayIsFirstSeen(h: seq<int>, cutoff: int, now: int)
    requires Remembers(h, None, cutoff, now) && cutoff <= now
    ensures TrueCount(h, cutoff) == 0 && TrueCount(h + [now], cutoff) == 1
  {
    ForgottenTail(h, cutoff);
    TailCounts(h, [], cutoff);
    assert (h + [now])[..|h|] == h;
  }

  lemma RecordIsTrue(b: Buckets, h: seq<int>, window: int, ip: string, now: int)
    requires window >= 0 && Remembers(h, Held(b, ip), Cutoff(now, window), now)
    ensures var b' := Step(b, Record(ip, now), window).0;
      Remembers(NextAdmitted(b, h, Record(ip, now), ip), Held(b', ip), Cutoff(now, window), now)
    ensures Step(b, Record(ip, now), window).1 == Truth(h, Record(ip, now), ip, window)
  {
    TrueCountIsRecent(h + [now], now, window);
    if TurnedAway(b, ip) {
      TurnedAwayIsFirstSeen(h, Cutoff(now, window), now);
    } else {
      RecordOne(h, Held(b, ip), Cutoff(now, window), now, h + [now], AfterRecord(b, ip, now, window)[ip]);
    }
  }

  lemma CountIsTrue(b: Buckets, h: seq<int>, window: int, ip: string, now: int)
    requires Remembers(h, Held(b, ip), Cutoff(now, window), now)
    ensures Step(b, Count(ip, now), window).1 == Truth(h, Count(ip, now), ip, window)
  {
    TrueCountIsRecent(h, now, window);
    var cutoff := Cutoff(now, window);
    StartingTail(h, Held(b, ip), cutoff, now);
    if ip in b {
      CountCounts(h, b[ip].timestamps, cutoff, cutoff);
    } else {
      TailCounts(h, [], cutoff);
    }
  }

  /** Whatever the event and whichever address it concerns, what is held of ip stays true to its admitted history, and
      an answer to ip is the true one. */
  lemma StepIsTrue(b: Buckets, h: seq<int>, window: int, t: int, ev: Event, ip: string)
    requires window >= 0 && Remembers(h, Held(b, ip), Cutoff(t, window), t) && t <= ev.now
    ensures Asks(ev, ip) ==> Step(b, ev, window).1 == Truth(h, ev, ip, window)
    ensures Remembers(NextAdmitted(b, h, ev, ip), Held(Step(b, ev, window).0, ip), Cutoff(ev.now, window), ev.now)
  {
    KnownLater(h, Held(b, ip), Cutoff(t, window), t, Cutoff(ev.now, window), ev.now);
    if Asks(ev, ip) {
      match ev
      case Record(_, now) => RecordIsTrue(b, h, window, ip, now);
      case Count(_, now) => CountIsTrue(b, h, window, ip, now);
    }
  }

  ghost predicate Timed(evs: seq<Event>, t: int) {
    && (forall i :: 0 <= i < |evs| ==> t <= evs[i].now)
    && (forall i, j :: 0 <= i < j < |evs| ==> evs[i].now <= evs[j].now)
  }

  /** The answers to ip's own calls along a run. */
  ghost function Answers(b: Buckets, evs: seq<Event>, ip: string, window: int): seq<int>
    decreases |evs|
  {
    if evs == [] then []
    else
      (if Asks(evs[0], ip) then [Step(b, evs[0], window).1] else [])
      + Answers(Step(b, evs[0], window).0, evs[1..], ip, window)
  }

  /** The true answers over the events of ip that were admitted. */
  ghost function AdmittedAnswers(b: Buckets, h: seq<int>, evs: seq<Event>, ip: string, window: int): seq<int>
    decreases |evs|
  {
    if evs == [] then []
    else
      (if Asks(evs[0], ip) then [Truth(h, evs[0], ip, window)] else [])
      + AdmittedAnswers(Step(b, evs[0], window).0, NextAdmitted(b, h, evs[0], ip), evs[1..], ip, window)
  }

  /** The true answers over all events of ip. */
  ghost function TrueAnswers(h: seq<int>, evs: seq<Event>, ip: string, window: int): seq<int>
    decreases |evs|
  {
    if evs == [] then []
    else
      (if Asks(evs[0], ip) then [Truth(h, evs[0], ip, window)] else [])
      + TrueAnswers(NextHist(h, evs[0], ip), evs[1..], ip, window)
  }

  /** Along every run, at the address cap or below it, every answer to an address is min(4096, its admitted events in
      the window, counting the one being recorded): caps, reaps and other addresses show in nothing else. */
  lemma {:induction false} AnswersCountAdmitted(b: Buckets, h: seq<int>, window: int, t: int, evs: seq<Event>,
                                                ip: string)
    requires window >= 0 && Remembers(h, Held(b, ip), Cutoff(t, window), t) && Timed(evs, t)
    ensures Answers(b, evs, ip, window) == AdmittedAnswers(b, h, evs, ip, window)
    decreases |evs|
  {
    if evs != [] {
      StepIsTrue(b, h, window, t, evs[0], ip);
      assert Timed(evs[1..], evs[0].now);
      AnswersCountAdmitted(Step(b, evs[0], window).0, NextAdmitted(b, h, evs[0], ip), window, evs[0].now, evs[1..], ip);
    }
  }

  /** No Record of ip itself is turned away along the run; any other address may be. */
  ghost predicate NeverTurnedAway(b: Buckets, evs: seq<Event>, ip: string, window: int)
    decreases |evs|
  {
    evs == [] || (!(evs[0].Record? && evs[0].ip == ip && TurnedAway(b, ip))
                  && NeverTurnedAway(Step(b, evs[0], window).0, evs[1..], ip, window))
  }

  lemma {:induction false} AllAdmitted(b: Buckets, h: seq<int>, window: int, evs: seq<Event>, ip: string)
    requires NeverTurnedAway(b, evs, ip, window)
    ensures AdmittedAnswers(b, h, evs, ip, window) == TrueAnswers(h, evs, ip, window)
    decreases |evs|
  {
    if evs != [] {
      AllAdmitted(Step(b, evs[0], window).0, NextHist(h, evs[0], ip), window, evs[1..], ip);
    }
  }

  /** Every answer to an address that is itself never turned away is min(4096, all its events in the window), however
      many other addresses are turned away meanwhile and wherever the reaps fall. */
  lemma AnswersAreTrue(b: Buckets, h: seq<int>, window: int, t: int, evs: seq<Event>, ip: string)
    requires window >= 0 && Remembers(h, Held(b, ip), Cutoff(t, window), t) && Timed(evs, t)
    requires NeverTurnedAway(b, evs, ip, window)
    ensures Answers(b, evs, ip, window) == TrueAnswers(h, evs, ip, window)
  {
    AnswersCountAdmitted(b, h, window, t, evs, ip);
    AllAdmitted(b, h, window, evs, ip);
  }

  /** No reap of the run comes more than two windows after the address's last event before it. */
  ghost predicate NeverIdle(b: Buckets, evs: seq<Event>, ip: string, window: int)
    decreases |evs|
  {
    || evs == []
    || ((evs[0].Reap? && ip in b ==> evs[0].now - 2 * window <= b[ip].lastAccess)
        && NeverIdle(Step(b, evs[0], window).0, evs[1..], ip, window))
  }

  /** The address is tracked before every event of the run and after the last. */
  ghost predicate StaysTracked(b: Buckets, evs: seq<Event>, ip: string, window: int)
    decreases |evs|
  {
    ip in b && (evs == [] || StaysTracked(Step(b, evs[0], window).0, evs[1..], ip, window))
  }

  /** A flood cannot push out a tracked address: it stays tracked exactly as long as no reap finds it idle, and while
      it does none of its events is turned away. */
  lemma {:induction false} TrackedStaysTracked(b: Buckets, evs: seq<Event>, ip: string, window: int)
    requires ip in b
    ensures StaysTracked(b, evs, ip, window) <==> NeverIdle(b, evs, ip, window)
    ensures StaysTracked(b, evs, ip, window) ==> NeverTurnedAway(b, evs, ip, window)
    decreases |evs|
  {
    if evs != [] {
      var b' := Step(b, evs[0], window).0;
      if ip in b' {
        TrackedStaysTracked(b', evs[1..], ip, window);
      }
    }
  }

  // ------------------------------------------------------------------ the objects

  class Tracker {
    var buckets: Buckets
    const window: int

    constructor (window: int)
      ensures buckets == map[] && this.window == window
    {
      buckets, this.window := map[], window;
    }

    /** slidingWindow.record: trims, drops the oldest at the cap, appends. */
    static method Slide(ts: seq<int>, now: int, cutoff: int) returns (r: seq<int>)
      ensures r == Recorded(ts, now, cutoff)
    {
      var trim := 0;
      while trim < |ts| && ts[trim] < cutoff
        invariant 0 <= trim <= |ts| && forall i :: 0 <= i < trim ==> ts[i] < cutoff
      {
        trim := trim + 1;
      }
      TrimIndexIs(ts, cutoff, trim);
      r := ts[trim..];
      if |r| >= MAX_SAMPLES {
        r := r[1..];
      }
      r := r + [now];
    }

    method RecordEvent(ip: string, now: int) returns (n: int)
      modifies this
      ensures (buckets, n) == Step(old(buckets), Record(ip, now), window)
      ensures ip !in old(buckets) && |old(buckets)| >= 50_000 <==> ip !in buckets
      ensures ip !in buckets ==> buckets == old(buckets) && n == 1
      ensures forall x :: x in old(buckets) && x != ip ==> x in buckets && buckets[x] == old(buckets)[x]
      ensures ip in buckets ==> buckets[ip].lastAccess == now && n == |buckets[ip].timestamps|
    {
      if ip !in buckets && |buckets| >= MAX_TRACKED {
        return 1;
      }
      var ts := if ip in buckets then buckets[ip].timestamps else [];
      var r := Slide(ts, now, Cutoff(now, window));
      buckets := buckets[ip := Bucket(r, now)];
      n := |r|;
    }

    method CountEvents(ip: string, now: int) returns (n: int)
      ensures (buckets, n) == Step(buckets, Count(ip, now), window)
    {
      if ip !in buckets {
        return 0;
      }
      var ts := buckets[ip].timestamps;
      var cutoff := Cutoff(now, window);
      n := 0;
      for i := 0 to |ts|
        invariant n == TrueCount(ts[..i], cutoff)
      {
        assert ts[..i + 1][..i] == ts[..i];
        if !(ts[i] < cutoff) {
          n := n + 1;
        }
      }
      assert ts[..|ts|] == ts;
    }

    method ReapIdle(now: int)
      modifies this
      ensures buckets == Step(old(buckets), Reap(now), window).0
      ensures forall x :: x in buckets <==> x in old(buckets) && old(buckets)[x].lastAccess >= now - 2 * window
    {
      var rest := buckets.Keys;
      while rest != {}
        invariant rest <= buckets.Keys <= old(buckets).Keys
        invariant forall ip :: ip in buckets ==> buckets[ip] == old(buckets)[ip]
        invariant forall ip :: ip in old(buckets) && ip !in rest ==>
          (ip in buckets <==> !(old(buckets)[ip].lastAccess < now - 2 * window))
        decreases rest
      {
        var ip :| ip in rest;
        rest := rest - {ip};
        if buckets[ip].lastAccess < now - 2 * window {
          buckets := buckets - {ip};
        }
      }
    }
  }
}
