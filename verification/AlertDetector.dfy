/**
 The alert detector of internal/alert/detector.go: tumbling-window counts with a threshold, a
 cooldown, a bounded key space and reclamation of dead counters. Times count from Go's zero
 time, so a zero `silentUntil` has always lapsed.
 */
module AlertDetector {
  import opened Common

  datatype Rule = Rule(name: string, threshold: int, window: int, cooldown: int, severity: int, breach: bool) {
    predicate Valid() {
      name != "" && threshold > 0 && window > 0
    }
  }

  datatype Counter = Counter(count: int, openedAt: int, silentUntil: int, deadAfter: int)

  datatype Alert = Alert(rule: string, eventType: string, scope: string, key: string,
                         count: int, window: int, severity: int, breach: bool, at: int)

  const RULE_SATURATED := "detector-saturated"
  const SATURATION_COOLDOWN := 15 * 60 * 1_000_000_000
  const DEFAULT_MAX_KEYS := 4096

  /** One call of count: an event of one rule under one scope and identity. */
  datatype Event = Event(now: int, rule: Rule, eventType: string, scope: string, key: string)

  const NUL: char := 0 as char

  /** The counter key: rule, scope and identity, joined by the one character none of them holds. */
  function KeyOf(ev: Event): string {
    ev.rule.name + [NUL] + ev.scope + [NUL] + ev.key
  }

  datatype State = State(maxKeys: nat, counters: map<string, Counter>, saturatedUntil: int)

  // ------------------------------------------------------------------ one counter

  function NewCounter(now: int): Counter {
    Counter(0, now, 0, 0)
  }

  /** Counts one event; the second component is the count of the alert it raises, if any. */
  function Tick(c: Counter, now: int, r: Rule): (Counter, Option<int>) {
    var c1 := if now - c.openedAt >= r.window then c.(count := 0, openedAt := now) else c;
    var c2 := c1.(count := c1.count + 1, deadAfter := now + r.window);
    if now < c2.silentUntil || c2.count < r.threshold then (c2, None)
    else (Counter(0, now, now + r.cooldown, if now + r.cooldown > c2.deadAfter then now + r.cooldown else c2.deadAfter),
          Some(c2.count))
  }

  // ------------------------------------------------------------------ the whole detector

  function Reclaimed(m: map<string, Counter>, now: int): map<string, Counter> {
    map k | k in m && now < m[k].deadAfter :: m[k]
  }

  function Roomy(s: State, now: int): State {
    if |s.counters| < s.maxKeys then s else s.(counters := Reclaimed(s.counters, now))
  }

  predicate Admits(s: State, ev: Event) {
    KeyOf(ev) in s.counters || |Roomy(s, ev.now).counters| < s.maxKeys
  }

  function Saturate(s: State, ev: Event): (State, Option<Alert>) {
    if ev.now < s.saturatedUntil then (s, None)
    else (s.(saturatedUntil := ev.now + SATURATION_COOLDOWN),
          Some(Alert(RULE_SATURATED, ev.eventType, ev.scope, "n/a", s.maxKeys,
                     ev.rule.window, ev.rule.severity, false, ev.now)))
  }

  function AlertFor(ev: Event, n: int): Alert {
    Alert(ev.rule.name, ev.eventType, ev.scope, ev.key, n, ev.rule.window, ev.rule.severity, ev.rule.breach, ev.now)
  }

  /** Advances a counter the detector holds. */
  function Advance(s: State, ev: Event): (State, Option<Alert>)
    requires KeyOf(ev) in s.counters
  {
    var (c, raised) := Tick(s.counters[KeyOf(ev)], ev.now, ev.rule);
    (s.(counters := s.counters[KeyOf(ev) := c]),
     match raised case None => None case Some(n) => Some(AlertFor(ev, n)))
  }

  /** count: the detector's whole step. */
  function Count(s: State, ev: Event): (State, Option<Alert>) {
    var k := KeyOf(ev);
    if k in s.counters then Advance(s, ev)
    else
      var s' := Roomy(s, ev.now);
      if !Admits(s, ev) then Saturate(s', ev)
      else Advance(s'.(counters := s'.counters[k := NewCounter(ev.now)]), ev)
  }

  /** The counters an admitted event finds: all of them, or those left by reclamation when its key is new. */
  function Found(s: State, ev: Event): map<string, Counter> {
    if KeyOf(ev) in s.counters then s.counters else Roomy(s, ev.now).counters
  }

  /** The counter an admitted event advances. */
  function Mine(s: State, ev: Event): Counter {
    if KeyOf(ev) in s.counters then s.counters[KeyOf(ev)] else NewCounter(ev.now)
  }

  function Raised(ev: Event, n: Option<int>): Option<Alert> {
    match n case None => None case Some(c) => Some(AlertFor(ev, c))
  }

  lemma CountAdmitted(s: State, ev: Event)
    requires Admits(s, ev)
    ensures Count(s, ev).0 == s.(counters := Found(s, ev)[KeyOf(ev) := Tick(Mine(s, ev), ev.now, ev.rule).0])
    ensures Count(s, ev).1 == Raised(ev, Tick(Mine(s, ev), ev.now, ev.rule).1)
  {
    var k, m := KeyOf(ev), Found(s, ev);
    var c := Tick(Mine(s, ev), ev.now, ev.rule).0;
    assert m[k := NewCounter(ev.now)][k := c] == m[k := c];
  }

  lemma CountRefused(s: State, ev: Event)
    requires !Admits(s, ev)
    ensures Count(s, ev).0.counters == Found(s, ev) && Count(s, ev).0.maxKeys == s.maxKeys
    ensures Count(s, ev).1.Some? ==> Count(s, ev).1.value.rule == RULE_SATURATED
  {
  }

  ghost predicate Bounded(s: State) {
    s.maxKeys >= 1 && |s.counters| <= s.maxKeys
  }

  lemma ReclaimedShrinks(m: map<string, Counter>, now: int)
    ensures |Reclaimed(m, now)| <= |m|
  {
    SubsetSize(Reclaimed(m, now).Keys, m.Keys);
  }

  /** No event, whatever its key, takes the map over its bound. */
  lemma CountKeepsBound(s: State, ev: Event)
    requires Bounded(s)
    ensures Bounded(Count(s, ev).0)
  {
    ReclaimedShrinks(s.counters, ev.now);
    var k, s1 := KeyOf(ev), Roomy(s, ev.now);
    if k !in s.counters && Admits(s, ev) {
      assert |s1.counters[k := NewCounter(ev.now)]| <= |s1.counters| + 1;
    }
  }

  /** Distinct (rule, scope, identity) triples never share a counter. */
  lemma KeysAreDistinct(a: Event, b: Event)
    requires NUL !in a.rule.name && NUL !in b.rule.name && NUL !in a.scope && NUL !in b.scope
    requires KeyOf(a) == KeyOf(b)
    ensures a.rule.name == b.rule.name && a.scope == b.scope && a.key == b.key
  {
    var x, y := a.scope + [NUL] + a.key, b.scope + [NUL] + b.key;
    assert KeyOf(a) == a.rule.name + [NUL] + x && KeyOf(b) == b.rule.name + [NUL] + y;
    SplitAtNul(a.rule.name, x, b.rule.name, y);
    SplitAtNul(a.scope, a.key, b.scope, b.key);
  }

  lemma SplitAtNul(x: string, y: string, u: string, v: string)
    requires NUL !in x && NUL !in u && x + [NUL] + y == u + [NUL] + v
    ensures x == u && y == v
  {
    var s, t := x + [NUL] + y, u + [NUL] + v;
    assert forall i :: 0 <= i < |x| ==> s[i] == x[i] && x[i] in x;
    assert forall i :: 0 <= i < |u| ==> t[i] == u[i] && u[i] in u;
    assert s[|x|] == NUL && t[|u|] == NUL;
    assert s[..|x|] == x && t[..|u|] == u && s[|x| + 1..] == y && t[|u| + 1..] == v;
  }
}

/** The Detector object: fields under one lock, methods as the source writes them. */
module AlertDetectorObject {
  import opened Common
  import opened AlertDetector

  class Detector {
    const maxKeys: nat
    var counters: map<string, Counter>
    var saturatedUntil: int

    ghost function View(): State
      reads this
    {
      State(maxKeys, counters, saturatedUntil)
    }

    constructor (keys: int)
      ensures Bounded(View()) && counters == map[] && saturatedUntil == 0
      ensures maxKeys == if keys < 1 then 4096 else keys
    {
      maxKeys := if keys < 1 then DEFAULT_MAX_KEYS else keys;
      counters, saturatedUntil := map[], 0;
    }

    /** makeRoom: deletes dead counters while looping over the map, only when the map is full. */
    method MakeRoom(now: int) returns (ok: bool)
      modifies this`counters
      ensures View() == Roomy(old(View()), now) && ok == (|counters| < maxKeys)
      ensures |old(counters)| < maxKeys ==> counters == old(counters)
      ensures |old(counters)| >= maxKeys ==>
        forall k :: k in counters <==> k in old(counters) && now < old(counters)[k].deadAfter
    {
      if |counters| < maxKeys {
        return true;
      }
      var rest := counters.Keys;
      while rest != {}
        invariant rest <= old(counters).Keys && rest <= counters.Keys && counters.Keys <= old(counters).Keys
        invariant forall k :: k in counters ==> counters[k] == old(counters)[k]
        invariant forall k :: k in old(counters) && k !in rest ==> (k in counters <==> now < old(counters)[k].deadAfter)
        decreases rest
      {
        var k :| k in rest;
        rest := rest - {k};
        if !(now < counters[k].deadAfter) {
          counters := counters - {k};
        }
      }
      assert counters == Reclaimed(old(counters), now);
      ok := |counters| < maxKeys;
    }

    method ReportSaturation(ev: Event) returns (raised: Option<Alert>)
      modifies this`saturatedUntil
      ensures (View(), raised) == Saturate(old(View()), ev)
    {
      if ev.now < saturatedUntil {
        return None;
      }
      saturatedUntil := ev.now + SATURATION_COOLDOWN;
      raised := Some(Alert(RULE_SATURATED, ev.eventType, ev.scope, "n/a", maxKeys, ev.rule.window, ev.rule.severity,
                           false, ev.now));
    }

    /** count: advances one counter and reports the alert it raises. */
    method CountEvent(ev: Event) returns (raised: Option<Alert>)
      requires Bounded(View())
      modifies this
      ensures (View(), raised) == Count(old(View()), ev) && Bounded(View())
    {
      CountKeepsBound(View(), ev);
      ghost var s := View();
      if Admits(s, ev) { CountAdmitted(s, ev); }
      var k := KeyOf(ev);
      if k !in counters {
        var ok := MakeRoom(ev.now);
        if !ok {
          raised := ReportSaturation(ev);
          return;
        }
        counters := counters[k := NewCounter(ev.now)];
      }
      var c, observed := Bump(counters[k], ev.now, ev.rule);
      counters := counters[k := c];
      assert counters == Found(s, ev)[k := c];
      raised := if observed.Some? then Some(AlertFor(ev, observed.value)) else None;
    }

    /** The counter arithmetic of count, statement by statement. */
    static method Bump(counter: Counter, now: int, r: Rule) returns (c: Counter, raised: Option<int>)
      ensures (c, raised) == Tick(counter, now, r)
    {
      c := counter;
      if now - c.openedAt >= r.window {
        c := c.(count := 0, openedAt := now);
      }
      c := c.(count := c.count + 1, deadAfter := now + r.window);
      if now < c.silentUntil || c.count < r.threshold {
        return c, None;
      }
      raised := Some(c.count);
      c := c.(silentUntil := now + r.cooldown, count := 0, openedAt := now);
      if c.silentUntil > c.deadAfter {
        c := c.(deadAfter := c.silentUntil);
      }
    }

    /** Observe: counts both identities of an event, skipping empty ones; an invalid rule is ignored. */
    method Observe(now: int, r: Rule, eventType: string, subject: string, source: string) returns (raised: seq<Alert>)
      requires Bounded(View())
      modifies this
      ensures Bounded(View())
      ensures !r.Valid() ==> View() == old(View()) && raised == []
      ensures r.Valid() ==>
        var bySubject := if subject == "" then (old(View()), None)
                         else Count(old(View()), Event(now, r, eventType, "subject", subject));
        var bySource := if source == "" then (bySubject.0, None)
                        else Count(bySubject.0, Event(now, r, eventType, "source", source));
        && View() == bySource.0
        && raised == (if bySubject.1.Some? then [bySubject.1.value] else [])
                   + (if bySource.1.Some? then [bySource.1.value] else [])
    {
      raised := [];
      if !r.Valid() {
        return;
      }
      if subject != "" {
        var a := CountEvent(Event(now, r, eventType, "subject", subject));
        if a.Some? {
          raised := raised + [a.value];
        }
      }
      if source != "" {
        var a := CountEvent(Event(now, r, eventType, "source", source));
        if a.Some? {
          raised := raised + [a.value];
        }
      }
    }
  }
}
