/**
 The bridge's flag store (cmd/bridge/state.go): flagged addresses in memory, their persisted
 text form, and the reload that rebuilds one from the other. RFC 3339 formatting is a parameter:
 any formatter that ignores fractions of a second and writes no '|', and any parser that inverts it.
 */
module FlagStore {
  import opened Common
  import opened Decimal

  const SECOND := 1_000_000_000

  datatype Clock = Clock(format: int -> string, parse: string -> Option<int>)

  /** The instant cut to the second, which is what RFC 3339 without fractions keeps. */
  function ToSecond(t: int): int {
    t - t % SECOND
  }

  ghost predicate Faithful(k: Clock) {
    forall t :: '|' !in k.format(t) && k.parse(k.format(t)) == Some(ToSecond(t)) && k.format(ToSecond(t)) == k.format(t)
  }

  // ------------------------------------------------------------------ the codec

  /** reason|score|timestamp. */
  function Encode(k: Clock, reason: string, score: int, at: int): string {
    reason + "|" + FormatInt(score) + "|" + k.format(at)
  }

  /** strings.LastIndex(s, "|"), or -1. */
  function LastPipe(s: string): (i: int)
    ensures -1 <= i < |s|
  {
    if s == "" then -1
    else if s[|s| - 1] == '|' then |s| - 1
    else LastPipe(s[..|s| - 1])
  }

  datatype Parsed = Parsed(reason: string, score: int, flaggedAt: int)

  /** parseFlagValue: None without two separators; text that is no number scores 0, text that is no time dates from
      Go's zero time. */
  function Parse(k: Clock, val: string): Option<Parsed> {
    var tsSep := LastPipe(val);
    if tsSep < 1 then None
    else
      var scoreSep := LastPipe(val[..tsSep]);
      if scoreSep < 0 then None
      else
        var at := k.parse(val[tsSep + 1..]);
        Some(Parsed(val[..scoreSep], ScanInt(val[scoreSep + 1..tsSep]), if at.Some? then at.value else 0))
  }

  lemma {:induction false} LastPipeAt(a: string, b: string, s: string)
    requires '|' !in b && s == a + "|" + b
    ensures LastPipe(s) == |a|
  {
    if b != "" {
      var n := |b| - 1;
      assert s[..|s| - 1] == a + "|" + b[..n] && s[|s| - 1] == b[n];
      LastPipeAt(a, b[..n], s[..|s| - 1]);
    }
  }

  /** Parsing an encoded flag gives back the reason, pipes and all, the score, and the time to the second. */
  lemma CodecRoundTrip(k: Clock, reason: string, score: int, at: int)
    requires Faithful(k)
    ensures Parse(k, Encode(k, reason, score, at)) == Some(Parsed(reason, score, ToSecond(at)))
  {
    var digits, stamp := FormatInt(score), k.format(at);
    var head := reason + "|" + digits;
    var val := Encode(k, reason, score, at);
    assert val == head + "|" + stamp;
    LastPipeAt(head, stamp, val);
    FormatIntHasNoPipe(score);
    LastPipeAt(reason, digits, head);
    IntRoundTrip(score);
    assert val[..|head|] == head && val[|head| + 1..] == stamp;
    assert val[..|reason|] == reason && val[|reason| + 1..|head|] == digits;
  }

  /** Two places of a text that hold pipes, the second its last and the first the last before it. */
  ghost predicate LastTwo(val: string, a: int, b: int) {
    && 0 <= a < b < |val| && val[a] == '|' && val[b] == '|'
    && (forall j :: a < j < b ==> val[j] != '|') && forall j :: b < j < |val| ==> val[j] != '|'
  }

  lemma PipesOf(val: string) returns (a: int, b: int)
    ensures b == LastPipe(val) && (b >= 1 ==> a == LastPipe(val[..b]))
    ensures if b >= 1 && a >= 0 then LastTwo(val, a, b)
            else forall i, j :: 0 <= i < j < |val| ==> !(val[i] == '|' && val[j] == '|')
  {
    b, a := LastPipe(val), -1;
    LastPipeIsLast(val);
    if b >= 1 {
      a := LastPipe(val[..b]);
      LastPipeIsLast(val[..b]);
    }
  }

  /** What parsing makes of any text: cut at its last two pipes, or nothing when there are not two. */
  lemma ParseSplits(k: Clock, val: string) returns (a: int, b: int)
    ensures match Parse(k, val)
      case None => forall i, j :: 0 <= i < j < |val| ==> !(val[i] == '|' && val[j] == '|')
      case Some(p) =>
        && LastTwo(val, a, b) && p.reason == val[..a] && p.score == ScanInt(val[a + 1..b])
        && p.flaggedAt == match k.parse(val[b + 1..]) case None => 0 case Some(t) => t
  {
    a, b := PipesOf(val);
  }

  lemma {:induction false} LastPipeIsLast(s: string)
    ensures var i := LastPipe(s); (i >= 0 ==> s[i] == '|') && forall j :: i < j < |s| ==> s[j] != '|'
  {
    if s != "" && s[|s| - 1] != '|' {
      LastPipeIsLast(s[..|s| - 1]);
    }
  }

  // ------------------------------------------------------------------ the store and its persisted form

  datatype Entry = Entry(reason: string, score: int, flaggedAt: int, expiresAt: int)

  const PREFIX := "bridge:flag:"

  function Key(ip: string): string {
    PREFIX + ip
  }

  /** strings.TrimPrefix. */
  function Unkey(key: string): string {
    if PREFIX <= key then key[|PREFIX|..] else key
  }

  lemma UnkeyKey(ip: string)
    ensures Unkey(Key(ip)) == ip
  {
  }

  /** redis keys carry the values the client wrote; it drops a key on its own once its whole-second TTL is over. */
  datatype Store = Store(flags: map<string, Entry>, redis: map<string, string>, ttl: int)

  datatype Step =
    | Flag(ip: string, reason: string, score: int, now: int)
    | Unflag(ip: string, now: int)
    | Reap(now: int)
    | RedisDrops(ip: string, now: int)
    | Restart(loaded: map<string, Entry>, now: int)     // a new process, with what it loaded

  function EntryFor(reason: string, score: int, now: int, ttl: int): Entry {
    Entry(reason, score, now, now + ttl)
  }

  function Reaped(flags: map<string, Entry>, now: int): map<string, Entry> {
    map ip | ip in flags && !(now > flags[ip].expiresAt) :: flags[ip]
  }

  function Apply(k: Clock, s: Store, t: Step): Store {
    match t
    case Flag(ip, reason, score, now) =>
      s.(flags := s.flags[ip := EntryFor(reason, score, now, s.ttl)],
         redis := s.redis[Key(ip) := Encode(k, reason, score, now)])
    case Unflag(ip, _) =>
      if ip in s.flags then s.(flags := s.flags - {ip}, redis := s.redis - {Key(ip)}) else s
    case Reap(now) => s.(flags := Reaped(s.flags, now))
    case RedisDrops(ip, _) => s.(redis := s.redis - {Key(ip)})
    case Restart(loaded, _) => s.(flags := loaded)
  }

  predicate IsFlagged(flags: map<string, Entry>, ip: string, now: int) {
    ip in flags && now < flags[ip].expiresAt
  }

  /** A persisted value belongs to the flag in memory, or to one reaped after it expired. */
  ghost predicate Synced(k: Clock, s: Store, t: int) {
    && (forall ip :: ip in s.flags ==>
          s.flags[ip].flaggedAt <= t && s.flags[ip].expiresAt == s.flags[ip].flaggedAt + s.ttl)
    && (forall key :: key in s.redis ==> PREFIX <= key)
    && (forall ip :: Key(ip) in s.redis && ip in s.flags ==>
          s.redis[Key(ip)] == Encode(k, s.flags[ip].reason, s.flags[ip].score, s.flags[ip].flaggedAt))
    && (forall ip :: Key(ip) in s.redis && ip !in s.flags ==> Stale(k, s.redis[Key(ip)], s.ttl, t))
  }

  /** An encoding of some flag that had expired by t. */
  ghost predicate Stale(k: Clock, val: string, ttl: int, t: int) {
    exists reason, score, at :: val == Encode(k, reason, score, at) && at + ttl <= t
  }

  lemma KeyInjective(a: string, b: string)
    ensures Key(a) == Key(b) <==> a == b
  {
    UnkeyKey(a);
    UnkeyKey(b);
  }

  lemma StaleLater(k: Clock, val: string, ttl: int, t: int, now: int)
    requires Stale(k, val, ttl, t) && t <= now
    ensures Stale(k, val, ttl, now)
  {
    var reason, score, at :| val == Encode(k, reason, score, at) && at + ttl <= t;
    assert at + ttl <= now;
  }

  // ------------------------------------------------------------------ reload

  /** What loadFromRedis makes of one persisted value. */
  function Reloaded(k: Clock, val: string, ttl: int, now: int): Option<Entry> {
    match Parse(k, val)
    case None => None
    case Some(p) =>
      if now < p.flaggedAt + ttl then Some(Entry(p.reason, p.score, p.flaggedAt, p.flaggedAt + ttl)) else None
  }

  /** loaded is what a restart at `now` builds from redis. */
  ghost predicate Loads(k: Clock, redis: map<string, string>, ttl: int, now: int, loaded: map<string, Entry>) {
    && (forall ip :: ip in loaded ==> Key(ip) in redis && Reloaded(k, redis[Key(ip)], ttl, now) == Some(loaded[ip]))
    && (forall ip :: Key(ip) in redis && Reloaded(k, redis[Key(ip)], ttl, now).Some? ==> ip in loaded)
  }

  /** The same for the keys read so far. */
  ghost predicate LoadsFrom(k: Clock, redis: map<string, string>, ttl: int, now: int, loaded: map<string, Entry>,
                            keys: seq<string>) {
    && (forall ip :: ip in loaded ==> Key(ip) in redis && Reloaded(k, redis[Key(ip)], ttl, now) == Some(loaded[ip]))
    && (forall ip :: Key(ip) in keys && Key(ip) in redis && Reloaded(k, redis[Key(ip)], ttl, now).Some? ==>
          ip in loaded)
  }

  lemma LoadStep(k: Clock, redis: map<string, string>, ttl: int, now: int, loaded: map<string, Entry>,
                 keys: seq<string>, ip: string, e: Option<Entry>)
    requires LoadsFrom(k, redis, ttl, now, loaded, keys)
    requires Key(ip) in redis && e == Reloaded(k, redis[Key(ip)], ttl, now)
    ensures LoadsFrom(k, redis, ttl, now, if e.Some? then loaded[ip := e.value] else loaded, keys + [Key(ip)])
  {
    forall x ensures Key(x) == Key(ip) <==> x == ip {
      KeyInjective(x, ip);
    }
  }

  lemma LoadsAll(k: Clock, redis: map<string, string>, ttl: int, now: int, loaded: map<string, Entry>,
                 keys: seq<string>)
    requires LoadsFrom(k, redis, ttl, now, loaded, keys) && forall key :: key in redis ==> key in keys
    ensures Loads(k, redis, ttl, now, loaded)
  {
  }

  lemma KeyUnkey(key: string)
    requires PREFIX <= key
    ensures Key(Unkey(key)) == key
  {
  }

  lemma ReloadedEncoding(k: Clock, reason: string, score: int, at: int, ttl: int, now: int)
    requires Faithful(k)
    ensures Reloaded(k, Encode(k, reason, score, at), ttl, now)
      == if now < ToSecond(at) + ttl then Some(Entry(reason, score, ToSecond(at), ToSecond(at) + ttl)) else None
  {
    CodecRoundTrip(k, reason, score, at);
  }

  /** A restart never invents a flag: every reloaded one was in force, with the same reason and score, and ends at most
      a second before it would have. */
  lemma ReloadInventsNothing(k: Clock, s: Store, t: int, now: int, loaded: map<string, Entry>, ip: string)
    requires Faithful(k) && Synced(k, s, t) && t <= now && Loads(k, s.redis, s.ttl, now, loaded) && ip in loaded
    ensures IsFlagged(s.flags, ip, now) && IsFlagged(loaded, ip, now)
    ensures loaded[ip].reason == s.flags[ip].reason && loaded[ip].score == s.flags[ip].score
    ensures s.flags[ip].expiresAt - SECOND < loaded[ip].expiresAt <= s.flags[ip].expiresAt
    ensures loaded[ip].flaggedAt == ToSecond(s.flags[ip].flaggedAt)
    ensures loaded[ip].expiresAt == loaded[ip].flaggedAt + s.ttl
  {
    var val := s.redis[Key(ip)];
    assert Reloaded(k, val, s.ttl, now) == Some(loaded[ip]);
    if ip in s.flags {
      var e := s.flags[ip];
      ReloadedEncoding(k, e.reason, e.score, e.flaggedAt, s.ttl, now);
    } else {
      StaleIsNotReloaded(k, val, s.ttl, t, now);
    }
  }

  lemma StaleIsNotReloaded(k: Clock, val: string, ttl: int, t: int, now: int)
    requires Faithful(k) && Stale(k, val, ttl, t) && t <= now
    ensures Reloaded(k, val, ttl, now) == None
  {
    var reason, score, at :| val == Encode(k, reason, score, at) && at + ttl <= t;
    ReloadedEncoding(k, reason, score, at, ttl, now);
  }

  /** ... and loses none that redis still holds and that has a second or more left. */
  lemma ReloadLosesNothing(k: Clock, s: Store, t: int, now: int, loaded: map<string, Entry>, ip: string)
    requires Faithful(k) && Synced(k, s, t) && t <= now && Loads(k, s.redis, s.ttl, now, loaded)
    requires ip in s.flags && now + SECOND <= s.flags[ip].expiresAt && Key(ip) in s.redis
    ensures IsFlagged(loaded, ip, now)
  {
    var e := s.flags[ip];
    ReloadedEncoding(k, e.reason, e.score, e.flaggedAt, s.ttl, now);
    assert s.redis[Key(ip)] == Encode(k, e.reason, e.score, e.flaggedAt);
  }

  /** The second is lost once: what a restart loaded, a later restart loads unchanged. */
  lemma SecondRestartLosesNothing(k: Clock, s: Store, t: int, now: int, loaded: map<string, Entry>,
                                  now': int, loaded': map<string, Entry>, ip: string)
    requires Faithful(k) && Synced(k, s, t) && t <= now <= now' && Loads(k, s.redis, s.ttl, now, loaded)
    requires Loads(k, s.redis, s.ttl, now', loaded') && ip in loaded && now' < loaded[ip].expiresAt
    ensures ip in loaded' && loaded'[ip] == loaded[ip]
  {
    ReloadInventsNothing(k, s, t, now, loaded, ip);
    var e := s.flags[ip];
    ReloadedEncoding(k, e.reason, e.score, e.flaggedAt, s.ttl, now');
  }

  // ------------------------------------------------------------------ every run, restarts included

  /** The expiry SET gives a key: the TTL in whole seconds. */
  function Lease(ttl: int): int {
    ToSecond(ttl)
  }

  /** A restart loads what redis holds at that moment, and redis drops a flag's key only once its lease is over. */
  ghost predicate Legal(k: Clock, s: Store, step: Step) {
    && (step.Restart? ==> Loads(k, s.redis, s.ttl, step.now, step.loaded))
    && (step.RedisDrops? && step.ip in s.flags ==> step.now >= s.flags[step.ip].flaggedAt + Lease(s.ttl))
  }

  /** Every flag in memory is persisted until its lease is over. */
  ghost predicate Persisted(s: Store, t: int) {
    forall ip :: ip in s.flags ==> Key(ip) in s.redis || t >= s.flags[ip].flaggedAt + Lease(s.ttl)
  }

  lemma StepKeepsPersisted(k: Clock, s: Store, t: int, step: Step)
    requires Persisted(s, t) && t <= step.now && Legal(k, s, step)
    ensures Persisted(Apply(k, s, step), step.now)
  {
    var s' := Apply(k, s, step);
    forall ip | ip in s'.flags ensures Key(ip) in s'.redis || step.now >= s'.flags[ip].flaggedAt + Lease(s'.ttl) {
      if step.Flag? || step.Unflag? || step.RedisDrops? { KeyInjective(ip, step.ip); }
    }
  }

  lemma {:induction false} RunKeepsPersisted(k: Clock, s: Store, t: int, ts: seq<Step>)
    requires Persisted(s, t) && Timed(ts, t) && AllLegal(k, s, ts)
    ensures Persisted(Run(k, s, ts), Clocked(ts, t))
    decreases |ts|
  {
    if ts != [] {
      StepKeepsPersisted(k, s, t, ts[0]);
      assert Timed(ts[1..], ts[0].now);
      RunKeepsPersisted(k, Apply(k, s, ts[0]), ts[0].now, ts[1..]);
    }
  }

  /** After any run with any number of restarts, and a TTL in whole seconds, a restart brings a flag back if and only if
      it has time left counted from the second it was made in. */
  lemma ReloadIff(k: Clock, ttl: int, ts: seq<Step>, t: int, now: int, loaded: map<string, Entry>, ip: string)
    requires Faithful(k) && ttl % SECOND == 0 && Timed(ts, t) && AllLegal(k, Store(map[], map[], ttl), ts)
    requires Clocked(ts, t) <= now
    requires var s := Run(k, Store(map[], map[], ttl), ts); ip in s.flags && Loads(k, s.redis, s.ttl, now, loaded)
    ensures var s := Run(k, Store(map[], map[], ttl), ts);
      IsFlagged(loaded, ip, now) <==> now < ToSecond(s.flags[ip].flaggedAt) + s.ttl
  {
    var s0 := Store(map[], map[], ttl);
    var s := Run(k, s0, ts);
    RunKeepsSynced(k, s0, t, ts);
    RunKeepsPersisted(k, s0, t, ts);
    RunKeepsTtl(k, s0, ts);
    var e := s.flags[ip];
    ReloadedEncoding(k, e.reason, e.score, e.flaggedAt, s.ttl, now);
    if Key(ip) in s.redis {
      assert s.redis[Key(ip)] == Encode(k, e.reason, e.score, e.flaggedAt);
    }
  }

  lemma {:induction false} RunKeepsTtl(k: Clock, s: Store, ts: seq<Step>)
    ensures Run(k, s, ts).ttl == s.ttl
    decreases |ts|
  {
    if ts != [] {
      RunKeepsTtl(k, Apply(k, s, ts[0]), ts[1..]);
    }
  }

  lemma EncodesToSecond(k: Clock, reason: string, score: int, at: int)
    requires Faithful(k)
    ensures Encode(k, reason, score, ToSecond(at)) == Encode(k, reason, score, at)
  {
  }

  /** What is in redis but was not loaded had expired, to the second. */
  lemma SkippedIsStale(k: Clock, val: string, reason: string, score: int, at: int, ttl: int, now: int)
    requires Faithful(k) && val == Encode(k, reason, score, at) && Reloaded(k, val, ttl, now) == None
    ensures Stale(k, val, ttl, now)
  {
    ReloadedEncoding(k, reason, score, at, ttl, now);
    EncodesToSecond(k, reason, score, at);
    assert val == Encode(k, reason, score, ToSecond(at)) && ToSecond(at) + ttl <= now;
  }

  lemma RestartKeepsSynced(k: Clock, s: Store, t: int, loaded: map<string, Entry>, now: int)
    requires Faithful(k) && Synced(k, s, t) && t <= now && Loads(k, s.redis, s.ttl, now, loaded)
    ensures Synced(k, s.(flags := loaded), now)
  {
    forall ip | ip in loaded
      ensures loaded[ip].flaggedAt <= now && loaded[ip].expiresAt == loaded[ip].flaggedAt + s.ttl
      ensures Key(ip) in s.redis ==>
        s.redis[Key(ip)] == Encode(k, loaded[ip].reason, loaded[ip].score, loaded[ip].flaggedAt)
    {
      ReloadInventsNothing(k, s, t, now, loaded, ip);
      var e := s.flags[ip];
      EncodesToSecond(k, e.reason, e.score, e.flaggedAt);
    }
    forall ip | Key(ip) in s.redis && ip !in loaded ensures Stale(k, s.redis[Key(ip)], s.ttl, now) {
      if ip in s.flags {
        var e := s.flags[ip];
        SkippedIsStale(k, s.redis[Key(ip)], e.reason, e.score, e.flaggedAt, s.ttl, now);
      } else {
        StaleLater(k, s.redis[Key(ip)], s.ttl, t, now);
      }
    }
  }

  lemma StepKeepsSynced(k: Clock, s: Store, t: int, step: Step)
    requires Faithful(k) && Synced(k, s, t) && t <= step.now && Legal(k, s, step)
    ensures Synced(k, Apply(k, s, step), step.now)
  {
    if step.Restart? {
      RestartKeepsSynced(k, s, t, step.loaded, step.now);
    } else {
      OtherStepKeepsSynced(k, s, t, step);
    }
  }

  lemma OtherStepKeepsSynced(k: Clock, s: Store, t: int, step: Step)
    requires Synced(k, s, t) && t <= step.now && !step.Restart?
    ensures Synced(k, Apply(k, s, step), step.now)
  {
    var s' := Apply(k, s, step);
    forall ip | Key(ip) in s'.redis && ip !in s'.flags ensures Stale(k, s'.redis[Key(ip)], s'.ttl, step.now) {
      if step.Flag? || step.Unflag? { KeyInjective(ip, step.ip); }
      if ip in s.flags {
        var e := s.flags[ip];
        assert s.redis[Key(ip)] == Encode(k, e.reason, e.score, e.flaggedAt);
      } else {
        StaleLater(k, s.redis[Key(ip)], s.ttl, t, step.now);
      }
    }
    forall ip | Key(ip) in s'.redis && ip in s'.flags
      ensures s'.redis[Key(ip)] == Encode(k, s'.flags[ip].reason, s'.flags[ip].score, s'.flags[ip].flaggedAt)
    {
      if step.Flag? || step.Unflag? { KeyInjective(ip, step.ip); }
    }
  }

  ghost predicate Timed(ts: seq<Step>, t: int) {
    && (forall i :: 0 <= i < |ts| ==> t <= ts[i].now)
    && (forall i, j :: 0 <= i < j < |ts| ==> ts[i].now <= ts[j].now)
  }

  ghost function Run(k: Clock, s: Store, ts: seq<Step>): Store
    decreases |ts|
  {
    if ts == [] then s else Run(k, Apply(k, s, ts[0]), ts[1..])
  }

  ghost function Clocked(ts: seq<Step>, t: int): int {
    if ts == [] then t else ts[|ts| - 1].now
  }

  ghost predicate AllLegal(k: Clock, s: Store, ts: seq<Step>)
    decreases |ts|
  {
    ts == [] || (Legal(k, s, ts[0]) && AllLegal(k, Apply(k, s, ts[0]), ts[1..]))
  }

  /** Along any run, through any number of restarts, what redis holds is the flag in memory or one that has expired. */
  lemma {:induction false} RunKeepsSynced(k: Clock, s: Store, t: int, ts: seq<Step>)
    requires Faithful(k) && Synced(k, s, t) && Timed(ts, t) && AllLegal(k, s, ts)
    ensures Synced(k, Run(k, s, ts), Clocked(ts, t))
    decreases |ts|
  {
    if ts != [] {
      StepKeepsSynced(k, s, t, ts[0]);
      assert Timed(ts[1..], ts[0].now);
      RunKeepsSynced(k, Apply(k, s, ts[0]), ts[0].now, ts[1..]);
    }
  }

  // ------------------------------------------------------------------ lifted flags stay lifted

  /** Unflag lifts one address's flag, in memory and in redis, and leaves every other as it was. */
  lemma UnflagLifts(k: Clock, s: Store, ip: string, now: int)
    ensures var s' := Apply(k, s, Unflag(ip, now));
      && ip !in s'.flags && (ip in s.flags ==> Key(ip) !in s'.redis)
      && forall x :: x != ip ==>
           && (x in s'.flags <==> x in s.flags) && (x in s.flags ==> s'.flags[x] == s.flags[x])
           && (Key(x) in s'.redis <==> Key(x) in s.redis) && (Key(x) in s.redis ==> s'.redis[Key(x)] == s.redis[Key(x)])
  {
    forall x ensures Key(x) == Key(ip) <==> x == ip {
      KeyInjective(x, ip);
    }
  }

  /** An address without a flag gets none from any run, restarts included, that does not flag it. */
  lemma {:induction false} StaysUnflagged(k: Clock, s: Store, t: int, ts: seq<Step>, ip: string)
    requires Faithful(k) && Synced(k, s, t) && Timed(ts, t) && AllLegal(k, s, ts) && ip !in s.flags
    requires forall i :: 0 <= i < |ts| ==> !(ts[i].Flag? && ts[i].ip == ip)
    ensures ip !in Run(k, s, ts).flags
    decreases |ts|
  {
    if ts != [] {
      if ts[0].Restart? && ip in ts[0].loaded {
        ReloadInventsNothing(k, s, t, ts[0].now, ts[0].loaded, ip);
        assert false;
      }
      StepKeepsSynced(k, s, t, ts[0]);
      assert Timed(ts[1..], ts[0].now);
      StaysUnflagged(k, Apply(k, s, ts[0]), ts[0].now, ts[1..], ip);
    }
  }

  /** After an Unflag no later restart brings the flag back, whatever else happens, until the address is
      flagged anew. */
  lemma UnflagIsFinal(k: Clock, s: Store, t: int, ip: string, now: int, ts: seq<Step>)
    requires Faithful(k) && Synced(k, s, t) && t <= now && Timed(ts, now)
    requires AllLegal(k, Apply(k, s, Unflag(ip, now)), ts)
    requires forall i :: 0 <= i < |ts| ==> !(ts[i].Flag? && ts[i].ip == ip)
    ensures ip !in Run(k, Apply(k, s, Unflag(ip, now)), ts).flags
  {
    StepKeepsSynced(k, s, t, Unflag(ip, now));
    StaysUnflagged(k, Apply(k, s, Unflag(ip, now)), now, ts, ip);
  }

  // ------------------------------------------------------------------ what a run's steps say of an address

  /** The flag an address got last, if it was not lifted since, and whether a restart has come in between. */
  datatype Mark = NoMark | Mark(reason: string, score: int, at: int, restarted: bool)

  ghost function Latest(ts: seq<Step>, ip: string): Mark
    decreases |ts|
  {
    if ts == [] then NoMark
    else
      var rest, last := ts[..|ts| - 1], ts[|ts| - 1];
      if last.Flag? && last.ip == ip then Mark(last.reason, last.score, last.now, false)
      else if last.Unflag? && last.ip == ip then NoMark
      else if last.Restart? && Latest(rest, ip).Mark? then Latest(rest, ip).(restarted := true)
      else Latest(rest, ip)
  }

  /** A flag counts from the moment it was made; after a restart, from the whole second that moment was in. */
  ghost function Since(m: Mark): int
    requires m.Mark?
  {
    if m.restarted then ToSecond(m.at) else m.at
  }

  /** Memory holds the marked flag, or has let it go because its time was up. */
  ghost predicate Marked(s: Store, ip: string, m: Mark, t: int) {
    && (m.NoMark? ==> ip !in s.flags)
    && (m.Mark? && ip in s.flags ==> s.flags[ip] == Entry(m.reason, m.score, Since(m), Since(m) + s.ttl))
    && (m.Mark? && ip !in s.flags ==> Since(m) + s.ttl <= t)
  }

  lemma RestartKeepsMarked(k: Clock, s: Store, t: int, loaded: map<string, Entry>, now: int, ip: string, m: Mark)
    requires Faithful(k) && Synced(k, s, t) && Persisted(s, t) && s.ttl % SECOND == 0 && t <= now
    requires Loads(k, s.redis, s.ttl, now, loaded) && Marked(s, ip, m, t)
    ensures Marked(s.(flags := loaded), ip, if m.Mark? then m.(restarted := true) else m, now)
  {
    if ip in s.flags {
      assert m.Mark? && s.flags[ip].flaggedAt == Since(m);
      RestartReads(k, s, t, loaded, now, ip);
      assert ToSecond(Since(m)) == Since(m.(restarted := true)) by { WholeSeconds(m.at); }
    } else if ip in loaded {
      ReloadInventsNothing(k, s, t, now, loaded, ip);
      assert false;
    } else if m.Mark? {
      assert Since(m.(restarted := true)) <= Since(m) by { WholeSeconds(m.at); }
    }
  }

  lemma WholeSeconds(at: int)
    ensures ToSecond(at) == at - at % 1_000_000_000 <= at && ToSecond(ToSecond(at)) == ToSecond(at)
  {
  }

  /** What a restart makes of a flag in memory: the same flag from its whole second on, or nothing once that is over. */
  lemma RestartReads(k: Clock, s: Store, t: int, loaded: map<string, Entry>, now: int, ip: string)
    requires Faithful(k) && Synced(k, s, t) && Persisted(s, t) && s.ttl % SECOND == 0 && t <= now
    requires Loads(k, s.redis, s.ttl, now, loaded) && ip in s.flags
    ensures var e := s.flags[ip];
      if ip in loaded then loaded[ip] == Entry(e.reason, e.score, ToSecond(e.flaggedAt), ToSecond(e.flaggedAt) + s.ttl)
      else ToSecond(e.flaggedAt) + s.ttl <= now
  {
    var e := s.flags[ip];
    WholeSeconds(e.flaggedAt);
    if ip in loaded {
      ReloadInventsNothing(k, s, t, now, loaded, ip);
    } else if Key(ip) in s.redis {
      assert s.redis[Key(ip)] == Encode(k, e.reason, e.score, e.flaggedAt);
      ReloadedEncoding(k, e.reason, e.score, e.flaggedAt, s.ttl, now);
    }
  }

  lemma {:induction false} RunSnoc(k: Clock, s: Store, t: int, ts: seq<Step>, last: Step)
    requires Timed(ts + [last], t) && AllLegal(k, s, ts + [last])
    ensures Timed(ts, t) && AllLegal(k, s, ts) && Legal(k, Run(k, s, ts), last) && Clocked(ts, t) <= last.now
    ensures Run(k, s, ts + [last]) == Apply(k, Run(k, s, ts), last)
    decreases |ts|
  {
    forall i | 0 <= i < |ts| ensures ts[i] == (ts + [last])[i] {
    }
    if ts == [] {
      assert [last][1..] == [];
    } else {
      assert (ts + [last])[1..] == ts[1..] + [last];
      RunSnoc(k, Apply(k, s, ts[0]), ts[0].now, ts[1..], last);
    }
  }

  lemma {:induction false} RunIsMarked(k: Clock, ttl: int, ts: seq<Step>, t: int, ip: string)
    requires Faithful(k) && ttl % SECOND == 0 && Timed(ts, t) && AllLegal(k, Store(map[], map[], ttl), ts)
    ensures Marked(Run(k, Store(map[], map[], ttl), ts), ip, Latest(ts, ip), Clocked(ts, t))
    decreases |ts|
  {
    if ts != [] {
      var rest, last := ts[..|ts| - 1], ts[|ts| - 1];
      var s0 := Store(map[], map[], ttl);
      var s := Run(k, s0, rest);
      assert ts == rest + [last];
      RunSnoc(k, s0, t, rest, last);
      RunIsMarked(k, ttl, rest, t, ip);
      RunKeepsTtl(k, s0, rest);
      if last.Restart? {
        RunKeepsSynced(k, s0, t, rest);
        RunKeepsPersisted(k, s0, t, rest);
        RestartKeepsMarked(k, s, Clocked(rest, t), last.loaded, last.now, ip, Latest(rest, ip));
      }
    }
  }

  /** After any run from an empty store, reaps, lost keys and restarts included, an address is flagged if and only if it
      was flagged, not lifted since, and the TTL has not run out, a restart having cost the flag the part of a second it
      was made in. TTLs are whole seconds. */
  lemma FlaggedIff(k: Clock, ttl: int, ts: seq<Step>, t: int, ip: string, now: int)
    requires Faithful(k) && ttl % SECOND == 0 && Timed(ts, t) && AllLegal(k, Store(map[], map[], ttl), ts)
    requires Clocked(ts, t) <= now
    ensures var m, flags := Latest(ts, ip), Run(k, Store(map[], map[], ttl), ts).flags;
      && (IsFlagged(flags, ip, now) <==>
            m.Mark? && now < (if m.restarted then m.at - m.at % 1_000_000_000 else m.at) + ttl)
      && (IsFlagged(flags, ip, now) ==> flags[ip].reason == m.reason && flags[ip].score == m.score)
  {
    RunIsMarked(k, ttl, ts, t, ip);
    RunKeepsTtl(k, Store(map[], map[], ttl), ts);
  }

  // ------------------------------------------------------------------ the object

  class Flags {
    var flags: map<string, Entry>
    var redis: map<string, string>
    const ttl: int
    const clock: Clock

    ghost function View(): Store
      reads this
    {
      Store(flags, redis, ttl)
    }

    /** A new process over what redis holds: keys is what SCAN returned. */
    constructor (clock: Clock, ttl: int, persisted: map<string, string>, keys: seq<string>, now: int)
      requires forall key :: key in persisted <==> key in keys
      requires forall key :: key in persisted ==> PREFIX <= key
      ensures this.clock == clock && this.ttl == ttl && redis == persisted
      ensures Loads(clock, persisted, ttl, now, flags)
    {
      this.clock, this.ttl, redis := clock, ttl, persisted;
      var loaded := LoadFromRedis(clock, ttl, persisted, keys, now);
      flags := loaded;
    }

    /** loadFromRedis: reads the scanned keys one by one and keeps the flags still in force. */
    static method LoadFromRedis(clock: Clock, ttl: int, persisted: map<string, string>, keys: seq<string>, now: int)
      returns (flags: map<string, Entry>)
      requires forall key :: key in persisted <==> key in keys
      requires forall key :: key in persisted ==> PREFIX <= key
      ensures Loads(clock, persisted, ttl, now, flags)
    {
      flags := map[];
      for i := 0 to |keys|
        invariant LoadsFrom(clock, persisted, ttl, now, flags, keys[..i])
      {
        assert keys[i] in keys;
        var ip := Unkey(keys[i]);
        KeyUnkey(keys[i]);
        var e := ReadOne(clock, persisted[keys[i]], ttl, now);
        LoadStep(clock, persisted, ttl, now, flags, keys[..i], ip, e);
        assert keys[..i + 1] == keys[..i] + [keys[i]];
        if e.Some? {
          flags := flags[ip := e.value];
        }
      }
      assert keys[..|keys|] == keys;
      LoadsAll(clock, persisted, ttl, now, flags, keys);
    }

    /** One persisted value: skipped when malformed or already over. */
    static method ReadOne(clock: Clock, val: string, ttl: int, now: int) returns (e: Option<Entry>)
      ensures e == Reloaded(clock, val, ttl, now)
    {
      var parsed := Parse(clock, val);
      if parsed.None? {
        return None;
      }
      var p := parsed.value;
      var entry := Entry(p.reason, p.score, p.flaggedAt, p.flaggedAt + ttl);
      e := if now < entry.expiresAt then Some(entry) else None;
    }

    method FlagIP(ip: string, reason: string, score: int, now: int)
      modifies this
      ensures View() == Apply(clock, old(View()), Flag(ip, reason, score, now))
      ensures ip in flags && flags[ip] == Entry(reason, score, now, now + ttl)
      ensures forall x :: x != ip ==> (x in flags <==> x in old(flags)) && (x in flags ==> flags[x] == old(flags)[x])
      ensures ttl > 0 ==> IsFlagged(flags, ip, now)
    {
      flags := flags[ip := Entry(reason, score, now, now + ttl)];
      redis := redis[Key(ip) := Encode(clock, reason, score, now)];
    }

    method UnflagIP(ip: string, now: int) returns (was: bool)
      modifies this
      ensures View() == Apply(clock, old(View()), Unflag(ip, now)) && was == (ip in old(flags))
      ensures ip !in flags && (was ==> Key(ip) !in redis)
      ensures forall x :: x != ip ==> (x in flags <==> x in old(flags)) && (x in flags ==> flags[x] == old(flags)[x])
    {
      if ip !in flags {
        return false;
      }
      flags := flags - {ip};
      redis := redis - {Key(ip)};
      return true;
    }

    method ReapExpired(now: int)
      modifies this`flags
      ensures View() == Apply(clock, old(View()), Reap(now))
      ensures forall ip :: IsFlagged(flags, ip, now) <==> IsFlagged(old(flags), ip, now)
      ensures forall ip :: ip in flags <==> ip in old(flags) && now <= old(flags)[ip].expiresAt
    {
      var rest := flags.Keys;
      while rest != {}
        invariant rest <= flags.Keys <= old(flags).Keys
        invariant forall ip :: ip in flags ==> flags[ip] == old(flags)[ip]
        invariant forall ip :: ip in old(flags) && ip !in rest ==> (ip in flags <==> !(now > old(flags)[ip].expiresAt))
        decreases rest
      {
        var ip :| ip in rest;
        rest := rest - {ip};
        if now > flags[ip].expiresAt {
          flags := flags - {ip};
        }
      }
    }
  }
}
