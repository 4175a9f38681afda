/**
 First boot of the admin plane (internal/cli/cli.go): every replica runs InitAdminToken at every
 start, racing for one row of auth.admin_config. A boot is named by a number that also stands
 for the token it would mint and for that token's hash; tokens are random and the hash is
 collision-free, so distinct boots mean distinct tokens and distinct hashes.
 */
module AdminToken {
  import opened Common

  /** How far one boot has come. Any boot may crash at any point, which is simply to take no further step. */
  datatype Phase =
    | Started
    | SawEmpty        // Get answered "", truthfully or because it failed
    | Won             // ClaimIfAbsent returned its own hash
    | Undelivered     // Deliver failed; the claim is still to be withdrawn
    | Delivered
    | Refused         // Deliver failed and Delete has been tried
    | Stopped         // found a hash, lost the claim, or met an error

  datatype Sys = Sys(
    register: Option<nat>,       // admin_token_hash
    phase: map<nat, Phase>,
    delivered: set<nat>,         // tokens an operator has been handed
    mounted: set<nat>            // boots with ADMIN_TOKEN_FILE mounted
  )

  function Init(mounted: set<nat>): Sys {
    Sys(None, map[], {}, mounted)
  }

  datatype Step =
    | Boot(b: nat)
    | Get(b: nat, fails: bool)
    | Claim(b: nat, fails: bool, applied: bool)    // a failed claim may have been applied
    | Deliver(b: nat, ok: bool)
    | Withdraw(b: nat, fails: bool, applied: bool) // a failed delete may have been applied
    | Provision(b: nat, fails: bool, applied: bool) // the mounted-file branch: Set, which may fail and yet be applied

  predicate At(s: Sys, b: nat, p: Phase) {
    b in s.phase && s.phase[b] == p
  }

  predicate Enabled(s: Sys, t: Step) {
    match t
    case Boot(b) => b !in s.phase
    case Get(b, _) => At(s, b, Started)
    case Claim(b, fails, applied) => At(s, b, SawEmpty) && b !in s.mounted
    case Deliver(b, _) => At(s, b, Won)
    case Withdraw(b, fails, applied) => At(s, b, Undelivered)
    case Provision(b, _, _) => At(s, b, SawEmpty) && b in s.mounted
  }

  /** ClaimIfAbsent: the row keeps its incumbent. */
  function Claimed(register: Option<nat>, b: nat): Option<nat> {
    if register.None? then Some(b) else register
  }

  function Move(s: Sys, b: nat, p: Phase): Sys {
    s.(phase := s.phase[b := p])
  }

  function Apply(s: Sys, t: Step): Sys
    requires Enabled(s, t)
  {
    match t
    case Boot(b) => Move(s, b, Started)
    case Get(b, fails) => Move(s, b, if fails || s.register.None? then SawEmpty else Stopped)
    case Claim(b, fails, applied) =>
      var s' := if !fails || applied then s.(register := Claimed(s.register, b)) else s;
      Move(s', b, if !fails && s'.register == Some(b) then Won else Stopped)
    case Deliver(b, ok) =>
      if ok then Move(s.(delivered := s.delivered + {b}), b, Delivered) else Move(s, b, Undelivered)
    case Withdraw(b, fails, applied) => Move(if !fails || applied then s.(register := None) else s, b, Refused)
    case Provision(b, fails, applied) => Move(if !fails || applied then s.(register := Some(b)) else s, b, Stopped)
  }

  ghost predicate Executes(s: Sys, ts: seq<Step>, s': Sys)
    decreases |ts|
  {
    if ts == [] then s' == s else Enabled(s, ts[0]) && Executes(Apply(s, ts[0]), ts[1..], s')
  }

  ghost predicate Reachable(s: Sys, mounted: set<nat>) {
    exists ts :: Executes(Init(mounted), ts, s)
  }

  /** Whoever holds the claim, or has handed out its token, owns the row. */
  ghost predicate Inv(s: Sys) {
    && s.mounted == {}
    && (forall b: nat :: At(s, b, Won) || At(s, b, Undelivered) ==> s.register == Some(b))
    && (forall b: nat :: b in s.delivered ==> At(s, b, Delivered) && s.register == Some(b))
    && (forall b: nat :: At(s, b, Delivered) ==> b in s.delivered)
    && (forall b: nat :: s.register == Some(b) ==> b in s.phase && !At(s, b, Started) && !At(s, b, SawEmpty))
  }

  lemma StepKeepsInv(s: Sys, t: Step)
    requires Inv(s) && Enabled(s, t)
    ensures Inv(Apply(s, t))
  {
    match t
    case Claim(b, fails, applied) =>
    case Deliver(b, ok) =>
    case Withdraw(b, fails, applied) =>
    case _ =>
  }

  lemma {:induction false} RunKeepsInv(s: Sys, ts: seq<Step>, s': Sys)
    requires Inv(s) && Executes(s, ts, s')
    ensures Inv(s')
    decreases |ts|
  {
    if ts != [] {
      StepKeepsInv(s, ts[0]);
      RunKeepsInv(Apply(s, ts[0]), ts[1..], s');
    }
  }

  /** b has won the claim and not withdrawn it. */
  predicate Holds(s: Sys, b: nat) {
    At(s, b, Won) || At(s, b, Undelivered) || At(s, b, Delivered)
  }

  /** Whatever files are mounted, one boot at most holds the claim, and while one does the row is not empty. */
  ghost predicate OneHolder(s: Sys) {
    && (forall a: nat, b: nat :: Holds(s, a) && Holds(s, b) ==> a == b)
    && (forall b: nat :: Holds(s, b) ==> s.register.Some?)
    && (forall b: nat :: b in s.delivered ==> At(s, b, Delivered))
    && (forall b: nat :: s.register == Some(b) ==> b in s.phase && !At(s, b, Started) && !At(s, b, SawEmpty))
  }

  lemma StepKeepsOneHolder(s: Sys, t: Step)
    requires OneHolder(s) && Enabled(s, t)
    ensures OneHolder(Apply(s, t))
  {
    var s' := Apply(s, t);
    forall b: nat | Holds(s', b) ensures s'.register.Some? && (b == t.b || Holds(s, b)) {
      assert b != t.b ==> Holds(s, b) && s.phase[b] == s'.phase[b];
      assert t.Deliver? || t.Withdraw? ==> Holds(s, t.b);
    }
    forall a: nat, b: nat | Holds(s', a) && Holds(s', b) ensures a == b {
      assert Holds(s', t.b) ==> Holds(s, t.b) || s.register.None?;
    }
    forall b: nat | b in s'.delivered ensures At(s', b, Delivered) {
      assert b in s.delivered ==> At(s, b, Delivered);
    }
  }

  lemma {:induction false} RunKeepsOneHolder(s: Sys, ts: seq<Step>, s': Sys)
    requires OneHolder(s) && Executes(s, ts, s')
    ensures OneHolder(s')
    decreases |ts|
  {
    if ts != [] {
      StepKeepsOneHolder(s, ts[0]);
      RunKeepsOneHolder(Apply(s, ts[0]), ts[1..], s');
    }
  }

  /** Whatever the interleaving, the failures, the crash points and the mounted files, at most one minted token ever
      reaches an operator; with no file mounted its hash is the one stored. */
  lemma AtMostOneDelivered(s: Sys, mounted: set<nat>)
    requires Reachable(s, mounted)
    ensures forall a, b :: a in s.delivered && b in s.delivered ==> a == b
    ensures mounted == {} ==> forall b :: b in s.delivered ==> s.register == Some(b)
  {
    var ts :| Executes(Init(mounted), ts, s);
    RunKeepsOneHolder(Init(mounted), ts, s);
    assert forall b :: b in s.delivered ==> Holds(s, b);
    if mounted == {} {
      RunKeepsInv(Init({}), ts, s);
    }
  }

  /** From delivery on the delivered token stays in force, through every later step of every replica. */
  lemma {:induction false} DeliveredStaysInForce(s: Sys, ts: seq<Step>, s': Sys, b: nat)
    requires Inv(s) && b in s.delivered && Executes(s, ts, s')
    ensures b in s'.delivered && s'.register == Some(b)
    decreases |ts|
  {
    if ts != [] {
      StepKeepsInv(s, ts[0]);
      DeliveredStaysInForce(Apply(s, ts[0]), ts[1..], s', b);
    }
  }

  /** A withdrawal only ever removes the withdrawing boot's own hash, never another's, and never a delivered one. */
  lemma WithdrawsOnlyItsOwn(s: Sys, b: nat, fails: bool, applied: bool)
    requires Reachable(s, {}) && Enabled(s, Withdraw(b, fails, applied))
    ensures s.register == Some(b) && s.delivered == {} && s.mounted == {} && b in s.phase
    ensures !fails ==> Apply(s, Withdraw(b, fails, applied)).register == None
  {
    var ts :| Executes(Init({}), ts, s);
    RunKeepsInv(Init({}), ts, s);
  }

  /** A later boot on an empty row mints, claims and delivers: nothing an earlier boot left behind stops it. */
  lemma LaterBootMints(s: Sys, b: nat) returns (s': Sys)
    requires s.register == None && b !in s.phase && b !in s.mounted
    ensures Executes(s, [Boot(b), Get(b, false), Claim(b, false, true), Deliver(b, true)], s')
    ensures s'.register == Some(b) && s'.delivered == s.delivered + {b}
  {
    var s1 := Apply(s, Boot(b));
    var s2 := Apply(s1, Get(b, false));
    var s3 := Apply(s2, Claim(b, false, true));
    s' := Apply(s3, Deliver(b, true));
    Prepend(s', [], s', s3, Deliver(b, true));
    var t3 := [Deliver(b, true)] + [];
    Prepend(s3, t3, s', s2, Claim(b, false, true));
    var t2 := [Claim(b, false, true)] + t3;
    Prepend(s2, t2, s', s1, Get(b, false));
    var t1 := [Get(b, false)] + t2;
    Prepend(s1, t1, s', s, Boot(b));
    assert [Boot(b)] + t1 == [Boot(b), Get(b, false), Claim(b, false, true), Deliver(b, true)];
  }

  /** A failed delivery whose withdrawal succeeds leaves the deployment able to mint: the next boot gets a token in
      force. */
  lemma FailedDeliveryIsRecoverable(s: Sys, b: nat, next: nat) returns (s': Sys, ts: seq<Step>)
    requires Reachable(s, {}) && Enabled(s, Withdraw(b, false, true)) && next !in s.phase
    ensures Executes(Apply(s, Withdraw(b, false, true)), ts, s')
    ensures s'.delivered == {next} && s'.register == Some(next)
  {
    WithdrawsOnlyItsOwn(s, b, false, true);
    ts := [Boot(next), Get(next, false), Claim(next, false, true), Deliver(next, true)];
    s' := LaterBootMints(Apply(s, Withdraw(b, false, true)), next);
  }

  /** The window the ordering opens: while a boot that holds the row takes no further step (it crashed before
      delivering, or its claim failed after taking effect), no other boot delivers anything, however many start. */
  lemma {:induction false} CrashedWinnerBlocks(s: Sys, ts: seq<Step>, s': Sys, b: nat)
    requires Inv(s) && s.register == Some(b) && s.delivered == {} && Executes(s, ts, s')
    requires forall i :: 0 <= i < |ts| ==> ts[i].b != b
    ensures s'.register == Some(b) && s'.delivered == {}
    decreases |ts|
  {
    if ts != [] {
      StepKeepsInv(s, ts[0]);
      CrashedWinnerBlocks(Apply(s, ts[0]), ts[1..], s', b);
    }
  }

  /** A replica with a token file mounted overwrites the row of a boot that already holds it, whether that boot has
      delivered its token or is about to withdraw it. */
  lemma MountedFileDisplaces(mounted: set<nat>, m: nat, b: nat, ok: bool) returns (s: Sys)
    requires m in mounted && b !in mounted
    ensures Reachable(s, mounted) && s.register == Some(m)
    ensures if ok then b in s.delivered else At(s, b, Undelivered)
  {
    var s0 := Init(mounted);
    var s1 := Apply(s0, Boot(b));
    var s2 := Apply(s1, Get(b, false));
    var s3 := Apply(s2, Boot(m));
    var s4 := Apply(s3, Get(m, false));
    var s5 := Apply(s4, Claim(b, false, true));
    var s6 := Apply(s5, Deliver(b, ok));
    s := Apply(s6, Provision(m, false, true));
    Prepend(s, [], s, s6, Provision(m, false, true));
    Prepend(s6, [Provision(m, false, true)], s, s5, Deliver(b, ok));
    var t5 := [Deliver(b, ok)] + [Provision(m, false, true)];
    Prepend(s5, t5, s, s4, Claim(b, false, true));
    var t4 := [Claim(b, false, true)] + t5;
    Prepend(s4, t4, s, s3, Get(m, false));
    var t3 := [Get(m, false)] + t4;
    Prepend(s3, t3, s, s2, Boot(m));
    var t2 := [Boot(m)] + t3;
    Prepend(s2, t2, s, s1, Get(b, false));
    var t1 := [Get(b, false)] + t2;
    Prepend(s1, t1, s, s0, Boot(b));
  }

  /** In every reachable state a delivered token is the one in force. */
  ghost predicate DeliveredInForce(mounted: set<nat>) {
    forall s, b :: Reachable(s, mounted) && b in s.delivered ==> s.register == Some(b)
  }

  /** In every reachable state a boot about to withdraw finds its own hash in the row. */
  ghost predicate WithdrawsOwn(mounted: set<nat>) {
    forall s, b: nat :: Reachable(s, mounted) && At(s, b, Undelivered) ==> s.register == Some(b)
  }

  lemma Fresh(xs: set<nat>) returns (b: nat)
    ensures b !in xs
  {
    b := 0;
    var left := xs;
    while b in xs
      invariant forall x :: x in xs && x >= b ==> x in left
      decreases |left|
    {
      left := left - {b};
      b := b + 1;
    }
  }

  lemma FileBreaksBoth(mounted: set<nat>, m: nat, b: nat)
    requires m in mounted && b !in mounted
    ensures !DeliveredInForce(mounted) && !WithdrawsOwn(mounted)
  {
    var s := MountedFileDisplaces(mounted, m, b, true);
    assert Reachable(s, mounted) && b in s.delivered && s.register != Some(b);
    var s' := MountedFileDisplaces(mounted, m, b, false);
    assert Reachable(s', mounted) && At(s', b, Undelivered) && s'.register != Some(b);
  }

  /** Both hold exactly when no replica has a token file mounted. */
  lemma InForceIffNoFile(mounted: set<nat>)
    ensures DeliveredInForce(mounted) <==> mounted == {}
    ensures WithdrawsOwn(mounted) <==> mounted == {}
  {
    if mounted == {} {
      forall s, ts | Executes(Init({}), ts, s) ensures Inv(s) {
        RunKeepsInv(Init({}), ts, s);
      }
    } else {
      var b := Fresh(mounted);
      forall m | m in mounted ensures !DeliveredInForce(mounted) && !WithdrawsOwn(mounted) {
        FileBreaksBoth(mounted, m, b);
      }
      assert exists m :: m in mounted;
    }
  }

  lemma Prepend(s: Sys, ts: seq<Step>, s': Sys, before: Sys, t: Step)
    requires Enabled(before, t) && Apply(before, t) == s && Executes(s, ts, s')
    ensures Executes(before, [t] + ts, s')
  {
    assert ([t] + ts)[1..] == ts;
  }

  // ------------------------------------------------------------------ InitAdminToken itself

  lemma {:induction false} Append(s: Sys, ts: seq<Step>, mid: Sys, t: Step)
    requires Executes(s, ts, mid) && Enabled(mid, t)
    ensures Executes(s, ts + [t], Apply(mid, t))
    decreases |ts|
  {
    if ts == [] {
      assert [] + [t] == [t] && [t][1..] == [];
    } else {
      assert (ts + [t])[1..] == ts[1..] + [t];
      Append(Apply(s, ts[0]), ts[1..], mid, t);
    }
  }

  /** How the database answers one call. */
  datatype Reply = Works | Fails | FailsApplied

  /** The answer to call n of those scripted; a call beyond the script works. */
  function Nth(answers: seq<Reply>, n: nat): Reply {
    if n < |answers| then answers[n] else Works
  }

  /** The admin_config row, and the machine's state it is part of. */
  class AdminConfig {
    var row: Option<nat>           // None is the empty hash
    var answers: seq<Reply>
    ghost var sys: Sys
    ghost var history: seq<Step>

    /** The row is the machine's, whose state was reached by the steps taken so far. */
    ghost predicate Valid()
      reads this
    {
      row == sys.register && Executes(Init(sys.mounted), history, sys)
    }

    constructor (answers: seq<Reply>, ghost mounted: set<nat>)
      ensures Valid() && row == None && this.answers == answers && sys == Init(mounted)
    {
      row, this.answers := None, answers;
      sys, history := Init(mounted), [];
    }

    /** Advances the machine by one step. */
    ghost method Take(t: Step)
      requires Executes(Init(sys.mounted), history, sys) && Enabled(sys, t)
      modifies this`sys, this`history
      ensures sys == Apply(old(sys), t) && history == old(history) + [t]
      ensures sys.mounted == old(sys).mounted && Executes(Init(sys.mounted), history, sys)
    {
      Append(Init(sys.mounted), history, sys, t);
      history := history + [t];
      sys := Apply(sys, t);
    }

    method Answer() returns (r: Reply)
      modifies this`answers
      ensures r == Nth(old(answers), 0) && forall n: nat :: Nth(answers, n) == Nth(old(answers), n + 1)
    {
      if answers == [] {
        return Works;
      }
      r, answers := answers[0], answers[1..];
    }

    /** Get: an error is read as an empty row. */
    method Get(ghost b: nat) returns (value: Option<nat>)
      requires Valid() && At(sys, b, Started)
      modifies this`answers, this`sys, this`history
      ensures Valid() && old(history) <= history && forall n: nat :: Nth(answers, n) == Nth(old(answers), n + 1)
      ensures value == if Nth(old(answers), 0) == Works then row else None
      ensures sys == Move(old(sys), b, if value == None then SawEmpty else Stopped)
    {
      var r := Answer();
      value := if r == Works then row else None;
      Take(Step.Get(b, r != Works));
    }

    method Set(b: nat) returns (ok: bool)
      requires Valid() && At(sys, b, SawEmpty) && b in sys.mounted
      modifies this
      ensures Valid() && old(history) <= history
      ensures ok == (Nth(old(answers), 0) == Works)
      ensures row == if Nth(old(answers), 0) == Fails then old(row) else Some(b)
      ensures sys == Move(old(sys).(register := row), b, Stopped)
    {
      var r := Answer();
      ok := r == Works;
      if r != Fails { row := Some(b); }
      Take(Provision(b, r != Works, r == FailsApplied));
    }

    /** Records b when the row is empty and returns what the row holds afterwards. */
    method ClaimIfAbsent(b: nat) returns (ok: bool, stored: Option<nat>)
      requires Valid() && At(sys, b, SawEmpty) && b !in sys.mounted
      modifies this
      ensures Valid() && old(history) <= history && forall n: nat :: Nth(answers, n) == Nth(old(answers), n + 1)
      ensures ok == (Nth(old(answers), 0) == Works) && (ok ==> stored == row)
      ensures row == if Nth(old(answers), 0) != Fails && old(row) == None then Some(b) else old(row)
      ensures sys == Move(old(sys).(register := row), b, if ok && row == Some(b) then Won else Stopped)
    {
      var r := Answer();
      ok := r == Works;
      if r != Fails && row == None { row := Some(b); }
      stored := row;
      Take(Claim(b, r != Works, r == FailsApplied));
    }

    method Delete(ghost b: nat) returns (ok: bool)
      requires Valid() && At(sys, b, Undelivered)
      modifies this
      ensures Valid() && old(history) <= history
      ensures ok == (Nth(old(answers), 0) == Works)
      ensures row == if Nth(old(answers), 0) == Fails then old(row) else None
      ensures sys == Move(old(sys).(register := row), b, Refused)
    {
      var r := Answer();
      ok := r == Works;
      if r != Fails { row := None; }
      Take(Withdraw(b, r != Works, r == FailsApplied));
    }

    /** Hands the token over: the sink's answer. */
    ghost method Handing(b: nat, ok: bool)
      requires Valid() && At(sys, b, Won)
      modifies this`sys, this`history
      ensures Valid() && old(history) <= history && sys == Apply(old(sys), Deliver(b, ok))
    {
      Take(Deliver(b, ok));
    }
  }

  datatype Outcome = AlreadySet | TakenFromFile | MintedByAnother | HandedOver | RefusedBoot | Error

  /** What InitAdminToken owes its caller: the outcome and the row it leaves, by what the row held, whether a file is
      mounted, whether the sink works, and how the database answered its calls in order. */
  ghost predicate Owes(outcome: Outcome, before: Option<nat>, after: Option<nat>, b: nat, mounted: bool,
                       sinkWorks: bool, first: Reply, second: Reply, third: Reply) {
    var found := first == Works && before.Some?;
    var mints := !found && !mounted && second == Works && before == None;
    && (outcome == AlreadySet <==> found)
    && (outcome == TakenFromFile <==> !found && mounted && second == Works)
    && (outcome == Error <==> !found && second != Works)
    && (outcome == MintedByAnother <==> !found && !mounted && second == Works && before.Some?)
    && (outcome == HandedOver <==> mints && sinkWorks)
    && (outcome == RefusedBoot <==> mints && !sinkWorks)
    && after == if found then before
                else if mounted then (if second == Fails then before else Some(b))
                else if mints && !sinkWorks then (if third == Fails then Some(b) else None)
                else if second != Fails && before == None then Some(b)
                else before
  }

  /** InitAdminToken by boot b, whose minted token's hash, and mounted token's if it has one, b also names. The call
      is a run of the machine. */
  method InitAdminToken(cfg: AdminConfig, b: nat, fileErr: bool, mounted: bool, sinkWorks: bool)
    returns (outcome: Outcome)
    requires cfg.Valid() && b !in cfg.sys.phase && (mounted <==> b in cfg.sys.mounted)
    modifies cfg
    ensures cfg.Valid() && old(cfg.history) <= cfg.history
    ensures fileErr ==> outcome == Error && cfg.row == old(cfg.row)
    ensures !fileErr ==>
      Owes(outcome, old(cfg.row), cfg.row, b, mounted, sinkWorks,
           Nth(old(cfg.answers), 0), Nth(old(cfg.answers), 1), Nth(old(cfg.answers), 2))
    ensures !fileErr && (forall n: nat :: Nth(old(cfg.answers), n) == Works) ==>
      && (outcome == AlreadySet <==> old(cfg.row).Some?)
      && (outcome == TakenFromFile <==> old(cfg.row) == None && mounted)
      && (outcome == HandedOver <==> old(cfg.row) == None && !mounted && sinkWorks)
      && (outcome == RefusedBoot <==> old(cfg.row) == None && !mounted && !sinkWorks)
      && cfg.row == if old(cfg.row).Some? then old(cfg.row) else if mounted || sinkWorks then Some(b) else None
    ensures outcome == RefusedBoot && cfg.row == Some(b) ==> Nth(old(cfg.answers), 2) == Fails
    ensures cfg.sys.delivered == old(cfg.sys.delivered) + if outcome == HandedOver then {b} else {}
  {
    RunKeepsOneHolder(Init(cfg.sys.mounted), cfg.history, cfg.sys);
    if fileErr {
      return Error;
    }
    cfg.Take(Boot(b));
    var existing := cfg.Get(b);
    if existing != None {
      return AlreadySet;
    }
    if mounted {
      var ok := cfg.Set(b);
      return if ok then TakenFromFile else Error;
    }
    var ok, claimed := cfg.ClaimIfAbsent(b);
    if !ok {
      return Error;
    }
    if claimed != Some(b) {
      return MintedByAnother;
    }
    cfg.Handing(b, sinkWorks);
    if !sinkWorks {
      var withdrawn := cfg.Delete(b);
      return RefusedBoot;
    }
    return HandedOver;
  }
}
