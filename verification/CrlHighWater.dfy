/**
 Client certificate revocation in cmd/admin-gateway/clientauth.go: revocation lists are re-read
 on every handshake, and a high-water mark per issuer keeps an older list from being believed
 after a newer one. Times count from Go's zero time. Parsing and signature checks are facts
 about a file: what list it holds and whether a configured CA signed it.
 */
module CrlHighWater {
  import opened Common

  datatype Crl = Crl(issuer: string, number: Option<int>, thisUpdate: nat, nextUpdate: Option<int>, revoked: seq<int>)
  datatype Cert = Cert(issuer: string, serial: int)

  /** One configured path as a handshake finds it. */
  datatype File = Unreadable | Holding(crl: Crl, signed: bool)

  /** The newest number and thisUpdate accepted from one issuer. */
  datatype Mark = Mark(number: Option<int>, thisUpdate: nat)

  type Marks = map<string, Mark>

  const CLOCK_SKEW := 5 * 60 * 1_000_000_000

  // ------------------------------------------------------------------ one list

  predicate InWindow(c: Crl, now: int) {
    c.thisUpdate <= now + CLOCK_SKEW && c.nextUpdate.Some? && now <= c.nextUpdate.value
  }

  predicate Usable(f: File, now: int) {
    f.Holding? && f.signed && InWindow(f.crl, now)
  }

  predicate IsRollback(m: Mark, c: Crl) {
    || (c.number.Some? && m.number.Some? && c.number.value < m.number.value)
    || c.thisUpdate < m.thisUpdate
  }

  function Raise(m: Mark, c: Crl): Mark {
    Mark(if c.number.Some? && (m.number.None? || c.number.value > m.number.value) then c.number else m.number,
         if c.thisUpdate > m.thisUpdate then c.thisUpdate else m.thisUpdate)
  }

  /** admit: the new marks, or None when the list is a rollback. */
  function Admit(marks: Marks, c: Crl): Option<Marks> {
    var mark := if c.issuer in marks then marks[c.issuer] else Mark(None, 0);
    if c.issuer in marks && IsRollback(mark, c) then None
    else Some(marks[c.issuer := Raise(mark, c)])
  }

  // ------------------------------------------------------------------ one handshake

  predicate HasIssuer(crls: seq<Crl>, issuer: string) {
    exists i :: 0 <= i < |crls| && crls[i].issuer == issuer
  }

  lemma HasIssuerAppend(crls: seq<Crl>, c: Crl, x: string)
    ensures HasIssuer(crls + [c], x) <==> HasIssuer(crls, x) || x == c.issuer
  {
    if HasIssuer(crls, x) {
      var i :| 0 <= i < |crls| && crls[i].issuer == x;
      assert (crls + [c])[i] == crls[i];
    }
    assert (crls + [c])[|crls|] == c;
  }

  /** loadCRLs from some point on: the marks it leaves behind, and the lists unless it fails. Marks raised before a
      failure stay raised. */
  function Load(marks: Marks, crls: seq<Crl>, files: seq<File>, now: int): (Marks, Option<seq<Crl>>)
    decreases |files|
  {
    if files == [] then (marks, Some(crls))
    else if !Usable(files[0], now) then (marks, None)
    else
      var c := files[0].crl;
      if HasIssuer(crls, c.issuer) then (marks, None)
      else match Admit(marks, c)
        case None => (marks, None)
        case Some(raised) => Load(raised, crls + [c], files[1..], now)
  }

  predicate Lists(c: Crl, cert: Cert) {
    c.issuer == cert.issuer && cert.serial in c.revoked
  }

  /** Some certificate of the chain appears on a list of its own issuer. */
  predicate Revoked(crls: seq<Crl>, chain: seq<Cert>) {
    exists i, j :: 0 <= i < |chain| && 0 <= j < |crls| && Lists(crls[j], chain[i])
  }

  datatype Handshake = Handshake(files: seq<File>, chain: seq<Cert>, now: int)
  datatype Verdict = Passed | RefusedRevoked | RefusedLoad

  function Check(marks: Marks, h: Handshake): (Marks, Verdict) {
    if h.files == [] then (marks, Passed)
    else match Load(marks, [], h.files, h.now)
      case (m, None) => (m, RefusedLoad)
      case (m, Some(crls)) => (m, if Revoked(crls, h.chain) then RefusedRevoked else Passed)
  }

  // ------------------------------------------------------------------ what a handshake asks of its files

  /** A file a handshake at `now` may use: readable, signed, dated at most five minutes ahead, with a nextUpdate that
      has not passed, and no step back from its issuer's mark. */
  ghost predicate InOrder(marks: Marks, f: File, now: int) {
    && f.Holding? && f.signed
    && f.crl.thisUpdate <= now + 300_000_000_000
    && f.crl.nextUpdate.Some? && now <= f.crl.nextUpdate.value
    && (f.crl.issuer in marks ==>
          var m := marks[f.crl.issuer];
          m.thisUpdate <= f.crl.thisUpdate
          && (m.number.Some? && f.crl.number.Some? ==> m.number.value <= f.crl.number.value))
  }

  /** ... and all of them together: each in order, and one list an issuer. */
  ghost predicate AllInOrder(marks: Marks, files: seq<File>, now: int) {
    && (forall i :: 0 <= i < |files| ==> InOrder(marks, files[i], now))
    && (forall i, j :: 0 <= i < j < |files| && files[i].Holding? && files[j].Holding? ==>
          files[i].crl.issuer != files[j].crl.issuer)
  }

  ghost predicate NoneLoadedYet(crls: seq<Crl>, files: seq<File>) {
    forall i :: 0 <= i < |files| && files[i].Holding? ==> !HasIssuer(crls, files[i].crl.issuer)
  }

  /** The lists the files hold. */
  ghost function ListsOf(files: seq<File>): seq<Crl>
    requires forall i :: 0 <= i < |files| ==> files[i].Holding?
  {
    seq(|files|, i requires 0 <= i < |files| => files[i].crl)
  }

  /** The rest of a load, with marks0 the marks it began with: lists of other issuers do not touch a mark. */
  lemma {:induction false} LoadIff(marks0: Marks, marks: Marks, crls: seq<Crl>, files: seq<File>, now: int)
    requires forall x :: !HasIssuer(crls, x) ==> (x in marks <==> x in marks0) && (x in marks ==> marks[x] == marks0[x])
    ensures Load(marks, crls, files, now).1.Some? <==> AllInOrder(marks0, files, now) && NoneLoadedYet(crls, files)
    ensures Load(marks, crls, files, now).1.Some? ==> Load(marks, crls, files, now).1.value == crls + ListsOf(files)
    decreases |files|
  {
    if files == [] {
      assert crls + [] == crls;
    } else if Usable(files[0], now) && !HasIssuer(crls, files[0].crl.issuer) && Admit(marks, files[0].crl).Some? {
      var c, rest := files[0].crl, files[1..];
      forall x ensures HasIssuer(crls + [c], x) <==> HasIssuer(crls, x) || x == c.issuer {
        HasIssuerAppend(crls, c, x);
      }
      LoadIff(marks0, Admit(marks, c).value, crls + [c], rest, now);
      FirstFile(marks0, crls, files, now);
      if AllInOrder(marks0, files, now) {
        assert crls + [c] + ListsOf(rest) == crls + ListsOf(files);
      }
    } else {
      assert !(AllInOrder(marks0, files, now) && NoneLoadedYet(crls, files)) by {
        assert AllInOrder(marks0, files, now) ==> InOrder(marks0, files[0], now);
      }
    }
  }

  lemma FirstFile(marks0: Marks, crls: seq<Crl>, files: seq<File>, now: int)
    requires files != [] && InOrder(marks0, files[0], now) && !HasIssuer(crls, files[0].crl.issuer)
    ensures AllInOrder(marks0, files, now) && NoneLoadedYet(crls, files)
      <==> AllInOrder(marks0, files[1..], now) && NoneLoadedYet(crls + [files[0].crl], files[1..])
  {
    var c, rest := files[0].crl, files[1..];
    forall x ensures HasIssuer(crls + [c], x) <==> HasIssuer(crls, x) || x == c.issuer {
      HasIssuerAppend(crls, c, x);
    }
    if AllInOrder(marks0, rest, now) && NoneLoadedYet(crls + [c], rest) {
      forall i | 0 <= i < |files| ensures InOrder(marks0, files[i], now) {
        assert i > 0 ==> files[i] == rest[i - 1];
      }
      forall i, j | 0 <= i < j < |files| && files[i].Holding? && files[j].Holding?
        ensures files[i].crl.issuer != files[j].crl.issuer
      {
        assert files[j] == rest[j - 1] && (i > 0 ==> files[i] == rest[i - 1]);
      }
      forall i | 0 <= i < |files| && files[i].Holding? ensures !HasIssuer(crls, files[i].crl.issuer) {
        assert i > 0 ==> files[i] == rest[i - 1];
      }
    }
  }

  /** loadCRLs succeeds if and only if every file is in order and no two are from one issuer, and then returns the list
      each file holds. */
  lemma LoadsIff(marks: Marks, files: seq<File>, now: int)
    ensures Load(marks, [], files, now).1.Some? <==> AllInOrder(marks, files, now)
    ensures Load(marks, [], files, now).1.Some? ==> Load(marks, [], files, now).1.value == ListsOf(files)
  {
    LoadIff(marks, marks, [], files, now);
    assert forall fs: seq<Crl> :: [] + fs == fs;
  }

  /** Some certificate of the chain is on a list of its own issuer among the files. */
  ghost predicate OnAList(files: seq<File>, chain: seq<Cert>) {
    exists i, j :: 0 <= i < |chain| && 0 <= j < |files| && files[j].Holding?
      && files[j].crl.issuer == chain[i].issuer && chain[i].serial in files[j].crl.revoked
  }

  /** checkRevocation's verdict, over the files and the chain alone. */
  lemma VerdictIff(marks: Marks, h: Handshake)
    ensures var v := Check(marks, h).1;
      && (v == RefusedLoad <==> h.files != [] && !AllInOrder(marks, h.files, h.now))
      && (v == RefusedRevoked <==> h.files != [] && AllInOrder(marks, h.files, h.now) && OnAList(h.files, h.chain))
  {
    LoadsIff(marks, h.files, h.now);
    if AllInOrder(marks, h.files, h.now) {
      var crls := ListsOf(h.files);
      if OnAList(h.files, h.chain) {
        var i, j :| 0 <= i < |h.chain| && 0 <= j < |h.files| && h.files[j].Holding?
          && h.files[j].crl.issuer == h.chain[i].issuer && h.chain[i].serial in h.files[j].crl.revoked;
        assert Lists(crls[j], h.chain[i]);
      }
      if Revoked(crls, h.chain) {
        var i, j :| 0 <= i < |h.chain| && 0 <= j < |crls| && Lists(crls[j], h.chain[i]);
        assert h.files[j].crl == crls[j];
      }
    }
  }

  class HighWater {
    var marks: Marks

    constructor ()
      ensures marks == map[]
    {
      marks := map[];
    }

    method AdmitList(crl: Crl) returns (ok: bool)
      modifies this
      ensures ok == Admit(old(marks), crl).Some?
      ensures marks == if ok then Admit(old(marks), crl).value else old(marks)
      ensures !ok <==>
        && crl.issuer in old(marks)
        && (crl.thisUpdate < old(marks)[crl.issuer].thisUpdate
            || (crl.number.Some? && old(marks)[crl.issuer].number.Some?
                && crl.number.value < old(marks)[crl.issuer].number.value))
      ensures ok ==> crl.issuer in marks && marks[crl.issuer].thisUpdate == crl.thisUpdate
      ensures ok && crl.number.Some? ==> marks[crl.issuer].number == crl.number
      ensures ok && crl.number.None? ==>
        marks[crl.issuer].number == if crl.issuer in old(marks) then old(marks)[crl.issuer].number else None
      ensures forall x :: x != crl.issuer ==>
        (x in marks <==> x in old(marks)) && (x in marks ==> marks[x] == old(marks)[x])
    {
      var mark := if crl.issuer in marks then marks[crl.issuer] else Mark(None, 0);
      if crl.issuer in marks {
        if crl.number.Some? && mark.number.Some? && crl.number.value < mark.number.value {
          return false;
        }
        if crl.thisUpdate < mark.thisUpdate {
          return false;
        }
      }
      if crl.number.Some? && (mark.number.None? || crl.number.value > mark.number.value) {
        mark := mark.(number := crl.number);
      }
      if crl.thisUpdate > mark.thisUpdate {
        mark := mark.(thisUpdate := crl.thisUpdate);
      }
      marks := marks[crl.issuer := mark];
      ok := true;
    }

    method LoadCRLs(files: seq<File>, now: int) returns (ok: bool, crls: seq<Crl>)
      modifies this
      ensures (marks, if ok then Some(crls) else None) == Load(old(marks), [], files, now)
      ensures ok <==> AllInOrder(old(marks), files, now)
    {
      LoadsIff(marks, files, now);
      crls := [];
      var issuers: set<string> := {};
      for i := 0 to |files|
        invariant Load(old(marks), [], files, now) == Load(marks, crls, files[i..], now)
        invariant forall x :: x in issuers <==> HasIssuer(crls, x)
      {
        assert files[i..][0] == files[i] && files[i..][1..] == files[i + 1..];
        if !Usable(files[i], now) {
          return false, crls;
        }
        var crl := files[i].crl;
        if crl.issuer in issuers {
          return false, crls;
        }
        var admitted := AdmitList(crl);
        if !admitted {
          return false, crls;
        }
        issuers := issuers + {crl.issuer};
        forall x {
          HasIssuerAppend(crls, crl, x);
        }
        crls := crls + [crl];
      }
      ok := true;
    }

    method CheckRevocation(files: seq<File>, chain: seq<Cert>, now: int) returns (v: Verdict)
      modifies this
      ensures (marks, v) == Check(old(marks), Handshake(files, chain, now))
      ensures v == RefusedLoad <==> files != [] && !AllInOrder(old(marks), files, now)
      ensures v == RefusedRevoked <==> files != [] && AllInOrder(old(marks), files, now) && OnAList(files, chain)
    {
      VerdictIff(marks, Handshake(files, chain, now));
      if |files| == 0 {
        return Passed;
      }
      var ok, crls := LoadCRLs(files, now);
      if !ok {
        return RefusedLoad;
      }
      for i := 0 to |chain|
        invariant !Revoked(crls, chain[..i])
      {
        for j := 0 to |crls|
          invariant forall k :: 0 <= k < j ==> !Lists(crls[k], chain[i])
        {
          if crls[j].issuer == chain[i].issuer && chain[i].serial in crls[j].revoked {
            assert Lists(crls[j], chain[i]);
            return RefusedRevoked;
          }
        }
        assert chain[..i + 1] == chain[..i] + [chain[i]];
      }
      assert chain[..|chain|] == chain;
      v := Passed;
    }
  }

  // ------------------------------------------------------------------ marks only rise

  ghost predicate NumberAtMost(x: Option<int>, y: Option<int>) {
    x.Some? ==> y.Some? && x.value <= y.value
  }

  /** The marks dominate a list: no list older than it can be admitted any more. */
  ghost predicate Remembers(marks: Marks, c: Crl) {
    c.issuer in marks && NumberAtMost(c.number, marks[c.issuer].number) && c.thisUpdate <= marks[c.issuer].thisUpdate
  }

  /** d is no step back from c. */
  ghost predicate NoStepBack(c: Crl, d: Crl) {
    c.issuer == d.issuer ==>
      c.thisUpdate <= d.thisUpdate && (c.number.Some? && d.number.Some? ==> c.number.value <= d.number.value)
  }

  lemma AdmitRemembers(marks: Marks, c: Crl)
    requires Admit(marks, c).Some?
    ensures Remembers(Admit(marks, c).value, c)
    ensures forall d :: Remembers(marks, d) ==> Remembers(Admit(marks, c).value, d) && NoStepBack(d, c)
  {
  }

  // ------------------------------------------------------------------ handshakes side by side

  /** One handshake: paths still to read, lists loaded so far, and the chain to judge. */
  datatype Session =
    | Loading(left: nat, crls: seq<Crl>, chain: seq<Cert>)
    | Ended(verdict: Verdict, crls: seq<Crl>, chain: seq<Cert>)

  /** admitted lists every list admit has let through, in order. */
  datatype Sys = Sys(marks: Marks, sessions: map<nat, Session>, admitted: seq<Crl>)

  function Init(): Sys {
    Sys(map[], map[], [])
  }

  /** Handshakes run concurrently and only admit is locked: each file is read, and its list admitted, as a step of its
      own, with whatever the file holds at that moment. */
  datatype Step =
    | Start(h: nat, paths: nat, chain: seq<Cert>)
    | Read(h: nat, file: File, now: int)
    | Judge(h: nat)

  predicate Enabled(s: Sys, t: Step) {
    match t
    case Start(h, _, _) => h !in s.sessions
    case Read(h, _, _) => h in s.sessions && s.sessions[h].Loading? && s.sessions[h].left > 0
    case Judge(h) => h in s.sessions && s.sessions[h].Loading? && s.sessions[h].left == 0
  }

  function Move(s: Sys, h: nat, w: Session): Sys {
    s.(sessions := s.sessions[h := w])
  }

  function DoRead(s: Sys, h: nat, file: File, now: int): Sys
    requires Enabled(s, Read(h, file, now))
  {
    var w := s.sessions[h];
    var refused := Move(s, h, Ended(RefusedLoad, w.crls, w.chain));
    if !Usable(file, now) || HasIssuer(w.crls, file.crl.issuer) then refused
    else match Admit(s.marks, file.crl)
      case None => refused
      case Some(raised) =>
        Move(s, h, Loading(w.left - 1, w.crls + [file.crl], w.chain))
          .(marks := raised, admitted := s.admitted + [file.crl])
  }

  function Apply(s: Sys, t: Step): Sys
    requires Enabled(s, t)
  {
    match t
    case Start(h, paths, chain) =>
      Move(s, h, if paths == 0 then Ended(Passed, [], chain) else Loading(paths, [], chain))
    case Read(h, file, now) => DoRead(s, h, file, now)
    case Judge(h) =>
      var w := s.sessions[h];
      Move(s, h, Ended(if Revoked(w.crls, w.chain) then RefusedRevoked else Passed, w.crls, w.chain))
  }

  ghost predicate Executes(s: Sys, ts: seq<Step>, s': Sys)
    decreases |ts|
  {
    if ts == [] then s' == s else Enabled(s, ts[0]) && Executes(Apply(s, ts[0]), ts[1..], s')
  }

  // ------------------------------------------------------------------ an uninterrupted handshake is such a run

  lemma ExecutesCons(s: Sys, t: Step, ts: seq<Step>, s': Sys)
    requires Enabled(s, t) && Executes(Apply(s, t), ts, s')
    ensures Executes(s, [t] + ts, s')
  {
    assert ([t] + ts)[1..] == ts;
  }

  lemma {:induction false} LoadIsRun(s: Sys, h: nat, files: seq<File>, now: int) returns (ts: seq<Step>, s': Sys)
    requires h in s.sessions && s.sessions[h].Loading? && s.sessions[h].left == |files|
    ensures Executes(s, ts, s') && h in s'.sessions && s'.sessions[h].Ended?
    ensures var r := Load(s.marks, s.sessions[h].crls, files, now);
      && s'.marks == r.0
      && s'.sessions[h].verdict ==
         (match r.1
          case None => RefusedLoad
          case Some(crls) => if Revoked(crls, s.sessions[h].chain) then RefusedRevoked else Passed)
    decreases |files|
  {
    if files == [] {
      s' := Apply(s, Judge(h));
      ExecutesCons(s, Judge(h), [], s');
      ts := [Judge(h)] + [];
    } else {
      var t := Read(h, files[0], now);
      var mid := Apply(s, t);
      if mid.sessions[h].Ended? {
        s' := mid;
        ExecutesCons(s, t, [], s');
        ts := [t] + [];
      } else {
        var us;
        us, s' := LoadIsRun(mid, h, files[1..], now);
        ExecutesCons(s, t, us, s');
        ts := [t] + us;
      }
    }
  }

  /** checkRevocation with no other handshake in between is a run of the machine, with its marks and verdict. */
  lemma CheckIsRun(s: Sys, h: nat, hs: Handshake) returns (ts: seq<Step>, s': Sys)
    requires h !in s.sessions
    ensures Executes(s, ts, s') && h in s'.sessions && s'.sessions[h].Ended?
    ensures (s'.marks, s'.sessions[h].verdict) == Check(s.marks, hs)
  {
    var t := Start(h, |hs.files|, hs.chain);
    var mid := Apply(s, t);
    if hs.files == [] {
      s' := mid;
      ExecutesCons(s, t, [], s');
      ts := [t] + [];
    } else {
      var us;
      us, s' := LoadIsRun(mid, h, hs.files, hs.now);
      ExecutesCons(s, t, us, s');
      ts := [t] + us;
    }
  }

  // ------------------------------------------------------------------ admissions never go back

  ghost predicate NeverBack(cs: seq<Crl>) {
    forall i, j :: 0 <= i < j < |cs| ==> NoStepBack(cs[i], cs[j])
  }

  ghost predicate MarksInv(s: Sys) {
    && (forall i :: 0 <= i < |s.admitted| ==> Remembers(s.marks, s.admitted[i]))
    && NeverBack(s.admitted)
  }

  lemma StepKeepsMarks(s: Sys, t: Step)
    requires MarksInv(s) && Enabled(s, t)
    ensures MarksInv(Apply(s, t))
  {
    if t.Read? && Apply(s, t).admitted != s.admitted {
      AdmitRemembers(s.marks, t.file.crl);
    }
  }

  lemma {:induction false} RunKeepsMarks(s: Sys, ts: seq<Step>, s': Sys)
    requires MarksInv(s) && Executes(s, ts, s')
    ensures MarksInv(s')
    decreases |ts|
  {
    if ts != [] {
      StepKeepsMarks(s, ts[0]);
      RunKeepsMarks(Apply(s, ts[0]), ts[1..], s');
    }
  }

  /** In every interleaving of handshakes, failed ones included, the lists admitted from one issuer never go back in
      thisUpdate, nor in number where both carry one. */
  lemma AdmissionsNeverGoBack(ts: seq<Step>, s: Sys)
    requires Executes(Init(), ts, s)
    ensures NeverBack(s.admitted)
  {
    RunKeepsMarks(Init(), ts, s);
  }

  // ------------------------------------------------------------------ every list was in its window when read

  /** Step t reads list c for session h, inside c's window. */
  ghost predicate ReadsInWindow(t: Step, h: nat, c: Crl) {
    && t.Read? && t.h == h && t.file == Holding(c, true)
    && c.thisUpdate <= t.now + 300_000_000_000 && c.nextUpdate.Some? && t.now <= c.nextUpdate.value
  }

  lemma {:induction false} LoadedInWindow(s: Sys, ts: seq<Step>, s': Sys, h: nat, i: nat) returns (k: nat)
    requires Executes(s, ts, s') && h in s'.sessions && i < |s'.sessions[h].crls|
    requires h in s.sessions ==> |s.sessions[h].crls| <= i
    ensures k < |ts| && ReadsInWindow(ts[k], h, s'.sessions[h].crls[i])
    decreases |ts|
  {
    if ts == [] {
      assert false;
    } else {
      var mid := Apply(s, ts[0]);
      if h in mid.sessions && i < |mid.sessions[h].crls| {
        KeepsItsLists(mid, ts[1..], s', h);
        k := 0;
      } else {
        k := LoadedInWindow(mid, ts[1..], s', h, i);
        k := k + 1;
      }
    }
  }

  /** In every run each list a handshake has loaded was read by it from a signed file at a time inside the list's
      window: dated no more than five minutes ahead and not past its nextUpdate. */
  lemma EveryListInWindow(ts: seq<Step>, s: Sys, h: nat, i: nat) returns (k: nat)
    requires Executes(Init(), ts, s) && h in s.sessions && i < |s.sessions[h].crls|
    ensures k < |ts| && ReadsInWindow(ts[k], h, s.sessions[h].crls[i])
  {
    k := LoadedInWindow(Init(), ts, s, h, i);
  }

  // ------------------------------------------------------------------ once revoked, refused ever after

  /** There is a time at which the list is in its window. */
  predicate CanBeUsed(c: Crl) {
    c.nextUpdate.Some? && c.thisUpdate - CLOCK_SKEW <= c.nextUpdate.value
  }

  /** Among the usable lists an issuer ever signed, one that is no step back from another revokes no fewer serials. */
  ghost predicate Sound(issued: set<Crl>, issuer: string) {
    forall c, d ::
      (c in issued && d in issued && c.issuer == d.issuer == issuer
       && CanBeUsed(c) && CanBeUsed(d) && NoStepBack(c, d)) ==>
        forall x :: x in c.revoked ==> x in d.revoked
  }

  /** Every list of this issuer is numbered, and a higher number revokes no fewer serials. */
  ghost predicate NumbersGrow(issued: set<Crl>, issuer: string) {
    && (forall c :: c in issued && c.issuer == issuer ==> c.number.Some?)
    && (forall c, d :: c in issued && d in issued && c.issuer == issuer && d.issuer == issuer
                       && c.number.Some? && d.number.Some? && c.number.value <= d.number.value ==>
                         forall x :: x in c.revoked ==> x in d.revoked)
  }

  /** Numbered or not, a list dated no earlier revokes no fewer serials. */
  ghost predicate DatesGrow(issued: set<Crl>, issuer: string) {
    forall c, d ::
      c in issued && d in issued && c.issuer == d.issuer == issuer && c.thisUpdate <= d.thisUpdate ==>
        forall x :: x in c.revoked ==> x in d.revoked
  }

  /** Either discipline is enough. */
  lemma SoundIfGrowing(issued: set<Crl>, issuer: string)
    requires NumbersGrow(issued, issuer) || DatesGrow(issued, issuer)
    ensures Sound(issued, issuer)
  {
    forall c, d | c in issued && d in issued && c.issuer == d.issuer == issuer && NoStepBack(c, d)
      ensures forall x :: x in c.revoked ==> x in d.revoked
    {
      assert c.thisUpdate <= d.thisUpdate;
    }
  }

  /** Signed files hold lists the CA issued. */
  ghost predicate Genuine(ts: seq<Step>, issued: set<Crl>) {
    forall i :: 0 <= i < |ts| && ts[i].Read? && ts[i].file.Holding? && ts[i].file.signed ==> ts[i].file.crl in issued
  }

  /** What a session has loaded was issued, usable and is remembered, and none has passed a chain its lists revoke. */
  ghost predicate SessionInv(marks: Marks, w: Session, issued: set<Crl>) {
    && (forall i :: 0 <= i < |w.crls| ==> w.crls[i] in issued && CanBeUsed(w.crls[i]) && Remembers(marks, w.crls[i]))
    && (w.Ended? && w.verdict == Passed ==> !Revoked(w.crls, w.chain))
  }

  ghost predicate SessionsInv(s: Sys, issued: set<Crl>) {
    forall h :: h in s.sessions ==> SessionInv(s.marks, s.sessions[h], issued)
  }

  lemma StepKeepsSessions(s: Sys, t: Step, issued: set<Crl>)
    requires SessionsInv(s, issued) && Enabled(s, t) && Genuine([t], issued)
    ensures SessionsInv(Apply(s, t), issued)
  {
    var s' := Apply(s, t);
    assert [t][0] == t;
    if s'.admitted != s.admitted {
      AdmitRemembers(s.marks, t.file.crl);
    }
    forall h | h in s'.sessions ensures SessionInv(s'.marks, s'.sessions[h], issued) {
      if h in s.sessions {
        assert SessionInv(s.marks, s.sessions[h], issued);
      }
    }
  }

  lemma {:induction false} RunKeepsSessions(s: Sys, ts: seq<Step>, s': Sys, issued: set<Crl>)
    requires SessionsInv(s, issued) && Executes(s, ts, s') && Genuine(ts, issued)
    ensures SessionsInv(s', issued)
    decreases |ts|
  {
    if ts != [] {
      assert Genuine([ts[0]], issued) && Genuine(ts[1..], issued);
      StepKeepsSessions(s, ts[0], issued);
      RunKeepsSessions(Apply(s, ts[0]), ts[1..], s', issued);
    }
  }

  /** The marks remember c, and every session not in `before` has loaded nothing of c's issuer that steps back from
      c. */
  ghost predicate SinceInv(s: Sys, before: set<nat>, c: Crl) {
    && Remembers(s.marks, c)
    && forall h :: h in s.sessions && h !in before ==>
         forall i :: 0 <= i < |s.sessions[h].crls| ==> NoStepBack(c, s.sessions[h].crls[i])
  }

  lemma StepKeepsSince(s: Sys, t: Step, before: set<nat>, c: Crl)
    requires SinceInv(s, before, c) && Enabled(s, t) && (t.Start? ==> t.h !in before)
    ensures SinceInv(Apply(s, t), before, c)
  {
    if Apply(s, t).admitted != s.admitted {
      AdmitRemembers(s.marks, t.file.crl);
    }
  }

  lemma {:induction false} RunKeepsSince(s: Sys, ts: seq<Step>, s': Sys, before: set<nat>, c: Crl)
    requires SinceInv(s, before, c) && Executes(s, ts, s') && before <= s.sessions.Keys
    ensures SinceInv(s', before, c)
    decreases |ts|
  {
    if ts != [] {
      StepKeepsSince(s, ts[0], before, c);
      RunKeepsSince(Apply(s, ts[0]), ts[1..], s', before, c);
    }
  }

  /** Once any handshake has loaded a list that revokes cert, no handshake started after that passes a chain with cert
      while it still has a list of cert's issuer, whatever is swapped in and however handshakes interleave; nor does
      the one that loaded it. */
  lemma RevokedStaysRevoked(us: seq<Step>, s: Sys, ts: seq<Step>, s': Sys, issued: set<Crl>,
                            a: nat, j: nat, cert: Cert, b: nat)
    requires Executes(Init(), us, s) && Executes(s, ts, s') && Genuine(us, issued) && Genuine(ts, issued)
    requires a in s.sessions && j < |s.sessions[a].crls| && Lists(s.sessions[a].crls[j], cert)
    requires Sound(issued, cert.issuer)
    requires b in s'.sessions && cert in s'.sessions[b].chain
    requires b == a || (b !in s.sessions && HasIssuer(s'.sessions[b].crls, cert.issuer))
    ensures !(s'.sessions[b].Ended? && s'.sessions[b].verdict == Passed)
  {
    RunKeepsSessions(Init(), us, s, issued);
    RunKeepsSessions(s, ts, s', issued);
    var c, w := s.sessions[a].crls[j], s'.sessions[b];
    var n :| 0 <= n < |w.chain| && w.chain[n] == cert;
    assert SessionInv(s.marks, s.sessions[a], issued) && SessionInv(s'.marks, w, issued);
    if b == a {
      KeepsItsLists(s, ts, s', a);
      assert Lists(w.crls[j], w.chain[n]);
    } else {
      RunKeepsSince(s, ts, s', s.sessions.Keys, c);
      var i :| 0 <= i < |w.crls| && w.crls[i].issuer == cert.issuer;
      assert NoStepBack(c, w.crls[i]);
      assert Lists(w.crls[i], w.chain[n]);
    }
  }

  lemma {:induction false} KeepsItsLists(s: Sys, ts: seq<Step>, s': Sys, h: nat)
    requires Executes(s, ts, s') && h in s.sessions
    ensures h in s'.sessions && s.sessions[h].crls <= s'.sessions[h].crls && s'.sessions[h].chain == s.sessions[h].chain
    decreases |ts|
  {
    if ts != [] {
      KeepsItsLists(Apply(s, ts[0]), ts[1..], s', h);
    }
  }

  /** A handshake that starts after a list revoking a certificate was loaded, and has a list of that issuer itself,
      never passes a chain with that certificate, in any run over the issued lists whose clock does not go back. */
  ghost predicate StaysRevoked(issued: set<Crl>, issuer: string) {
    forall us, s, ts, s', a, j, cert, b ::
      (Revoking(us, s, issued, a, j, cert) && cert.issuer == issuer
       && Later(s, ts, s', issued, cert, b) && Forward(us + ts)) ==>
        !(s'.sessions[b].Ended? && s'.sessions[b].verdict == Passed)
  }

  ghost predicate Forward(ts: seq<Step>) {
    forall i, j :: 0 <= i < j < |ts| && ts[i].Read? && ts[j].Read? ==> ts[i].now <= ts[j].now
  }

  /** Session a of the state us leads to has loaded, as its j-th, a list that revokes cert. */
  ghost predicate Revoking(us: seq<Step>, s: Sys, issued: set<Crl>, a: nat, j: nat, cert: Cert) {
    && Executes(Init(), us, s) && Genuine(us, issued)
    && a in s.sessions && j < |s.sessions[a].crls| && Lists(s.sessions[a].crls[j], cert)
  }

  /** Session b, started after s, has cert in its chain and a list of its issuer. */
  ghost predicate Later(s: Sys, ts: seq<Step>, s': Sys, issued: set<Crl>, cert: Cert, b: nat) {
    && Executes(s, ts, s') && Genuine(ts, issued)
    && b !in s.sessions && b in s'.sessions
    && cert in s'.sessions[b].chain && HasIssuer(s'.sessions[b].crls, cert.issuer)
  }

  /** The first moment a list may be used. */
  function FirstUse(c: Crl): int {
    c.thisUpdate - CLOCK_SKEW
  }

  ghost predicate AllAt(ts: seq<Step>, now: int) {
    forall i :: 0 <= i < |ts| && ts[i].Read? ==> ts[i].now == now
  }

  /** One whole handshake over a single file, from its start to its verdict. */
  lemma OneFileRun(s: Sys, h: nat, c: Crl, chain: seq<Cert>) returns (ts: seq<Step>, s': Sys)
    requires h !in s.sessions && CanBeUsed(c) && Admit(s.marks, c).Some?
    ensures Executes(s, ts, s') && Genuine(ts, {c}) && AllAt(ts, FirstUse(c)) && s'.marks == Admit(s.marks, c).value
    ensures s'.sessions == s.sessions[h := Ended(if Revoked([c], chain) then RefusedRevoked else Passed, [c], chain)]
  {
    var t0, t1, t2 := Start(h, 1, chain), Read(h, Holding(c, true), FirstUse(c)), Judge(h);
    var s1 := Apply(s, t0);
    var s2 := Apply(s1, t1);
    assert [] + [c] == [c] && s2.sessions[h] == Loading(0, [c], chain);
    s' := Apply(s2, t2);
    ExecutesCons(s2, t2, [], s');
    ExecutesCons(s1, t1, [t2] + [], s');
    ExecutesCons(s, t0, [t1] + ([t2] + []), s');
    ts := [t0] + ([t1] + ([t2] + []));
  }

  /** Two usable lists, the second no step back, that revokes less: a run that un-revokes. */
  lemma UnrevokingRun(c: Crl, d: Crl, x: int) returns (us: seq<Step>, s: Sys, ts: seq<Step>, s': Sys)
    requires CanBeUsed(c) && CanBeUsed(d) && c.issuer == d.issuer && NoStepBack(c, d)
    requires x in c.revoked && x !in d.revoked
    ensures Executes(Init(), us, s) && Genuine(us, {c}) && Executes(s, ts, s') && Genuine(ts, {d}) && Forward(us + ts)
    ensures s.sessions == map[0 := Ended(RefusedRevoked, [c], [Cert(c.issuer, x)])]
    ensures s'.sessions == s.sessions[1 := Ended(Passed, [d], [Cert(c.issuer, x)])]
  {
    var chain := [Cert(c.issuer, x)];
    us, s := OneFileRun(Init(), 0, c, chain);
    assert Lists([c][0], chain[0]);
    assert !Revoked([d], chain);
    ts, s' := OneFileRun(s, 1, d, chain);
  }

  lemma UnsoundUnrevokes(issued: set<Crl>, c: Crl, d: Crl, x: int)
    requires c in issued && d in issued && CanBeUsed(c) && CanBeUsed(d) && c.issuer == d.issuer && NoStepBack(c, d)
    requires x in c.revoked && x !in d.revoked
    ensures !StaysRevoked(issued, c.issuer)
  {
    var us, s, ts, s' := UnrevokingRun(c, d, x);
    var cert := Cert(c.issuer, x);
    assert Revoking(us, s, issued, 0, 0, cert);
    assert s'.sessions[1].crls[0].issuer == c.issuer && s'.sessions[1].chain[0] == cert;
    assert Later(s, ts, s', issued, cert, 1);
  }

  /** The exact condition: revocations last, over every interleaving and every swap of the files, if and only if a
      usable list that is no step back from another revokes no fewer serials. */
  lemma StaysRevokedIff(issued: set<Crl>, issuer: string)
    ensures StaysRevoked(issued, issuer) <==> Sound(issued, issuer)
  {
    if Sound(issued, issuer) {
      forall us, s, ts, s', a, j, cert, b
        | Revoking(us, s, issued, a, j, cert) && cert.issuer == issuer
          && Later(s, ts, s', issued, cert, b) && Forward(us + ts)
        ensures !(s'.sessions[b].Ended? && s'.sessions[b].verdict == Passed)
      {
        RevokedStaysRevoked(us, s, ts, s', issued, a, j, cert, b);
      }
    } else {
      var c, d :| c in issued && d in issued && c.issuer == d.issuer == issuer && CanBeUsed(c) && CanBeUsed(d)
                  && NoStepBack(c, d) && exists x :: x in c.revoked && x !in d.revoked;
      var x :| x in c.revoked && x !in d.revoked;
      UnsoundUnrevokes(issued, c, d, x);
    }
  }

  /** An unnumbered list of the same second un-revokes what a numbered one revoked. */
  lemma UnnumberedTieUnrevokes(issuer: string, at: nat, serial: int) returns (ts: seq<Step>, s: Sys)
    ensures Executes(Init(), ts, s) && 0 in s.sessions && 1 in s.sessions
    ensures s.sessions[0].Ended? && s.sessions[0].verdict == RefusedRevoked
    ensures s.sessions[1].Ended? && s.sessions[1].verdict == Passed && s.sessions[1].chain == s.sessions[0].chain
    ensures HasIssuer(s.sessions[1].crls, issuer)
  {
    var newer, tie := Crl(issuer, Some(5), at, Some(at), [serial]), Crl(issuer, None, at, Some(at), []);
    var us, s0, vs;
    us, s0, vs, s := UnrevokingRun(newer, tie, serial);
    ts := us + vs;
    ExecutesAppend(Init(), us, s0, vs, s);
    assert s.sessions[1].crls[0].issuer == issuer;
  }

  lemma {:induction false} ExecutesAppend(s: Sys, ts: seq<Step>, mid: Sys, us: seq<Step>, s': Sys)
    requires Executes(s, ts, mid) && Executes(mid, us, s')
    ensures Executes(s, ts + us, s')
    decreases |ts|
  {
    if ts == [] {
      assert [] + us == us;
    } else {
      assert (ts + us)[1..] == ts[1..] + us;
      ExecutesAppend(Apply(s, ts[0]), ts[1..], mid, us, s');
    }
  }
}
