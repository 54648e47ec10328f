/** The scheduler lease of a project: a lock directory with crash recovery, step by step (apps/cli/src/schedule.ts). */
module ScheduleLease {
  import opened Options

  type Pid = nat

  const MALFORMED_LOCK_GRACE_MS: nat := 30_000

  /** A directory: when it was made, by whom, and the owner recorded in it. */
  datatype Dir = Dir(made: nat, maker: Pid, owner: Option<Pid>)

  /** Where a process is in `acquireScheduleLease`. */
  datatype Phase =
    | Idle
    /** Made the lease directory; its owner file is not written yet. */
    | Claiming
    | Holding
    /** Found a lease directory, and is about to make the recovery directory. */
    | Busy
    /** Found a recovery directory, and is about to look at its age. */
    | RecoveryBusy
    /** Renamed a stale recovery directory away, and is about to make its own. */
    | RecoveryRenamed
    /** Made the recovery directory; from here to Leaving it is its own. */
    | Recovering
    /** Renamed a stale lease directory away. */
    | LeaseRenamed
    | Reclaiming
    /** Holds the lease, and is about to remove the recovery directory. */
    | HoldingLeaving
    /** Gave up, and is about to remove the recovery directory. */
    | Leaving
    | Dead

  datatype State = State(now: nat, lease: Option<Dir>, recovery: Option<Dir>, procs: map<Pid, Phase>)

  function PhaseOf(s: State, p: Pid): Phase {
    if p in s.procs then s.procs[p] else Idle
  }

  function Enter(s: State, p: Pid, phase: Phase): State {
    s.(procs := s.procs[p := phase])
  }

  predicate Alive(s: State, p: Pid) { !PhaseOf(s, p).Dead? }

  predicate Fresh(s: State, d: Dir) { s.now - d.made < MALFORMED_LOCK_GRACE_MS }

  function Made(s: State, p: Pid): Option<Dir> { Some(Dir(s.now, p, None)) }

  /** `writeFileSync(join(leasePath, "owner.json"), …)` goes to whatever directory is there. */
  function WriteOwner(s: State, p: Pid, next: Phase, failed: Phase): State {
    if s.lease.None? then Enter(s, p, failed)
    else Enter(s, p, next).(lease := Some(s.lease.value.(owner := Some(p))))
  }

  /** The next step of a process that is not at rest. */
  function Act(s: State, p: Pid): State {
    match PhaseOf(s, p)
    case Idle => if s.lease.None? then Enter(s, p, Claiming).(lease := Made(s, p)) else Enter(s, p, Busy)
    case Claiming => WriteOwner(s, p, Holding, Idle)
    case Busy =>
      if s.recovery.None? then Enter(s, p, Recovering).(recovery := Made(s, p)) else Enter(s, p, RecoveryBusy)
    case RecoveryBusy =>
      if s.recovery.None? || Fresh(s, s.recovery.value) then Enter(s, p, Idle)
      else Enter(s, p, RecoveryRenamed).(recovery := None)
    case RecoveryRenamed =>
      if s.recovery.None? then Enter(s, p, Recovering).(recovery := Made(s, p)) else Enter(s, p, Idle)
    case Recovering =>
      if s.lease.None? then Enter(s, p, Leaving)
      else
        var d := s.lease.value;
        if (if d.owner.Some? then Alive(s, d.owner.value) else Fresh(s, d)) then Enter(s, p, Leaving)
        else Enter(s, p, LeaseRenamed).(lease := None)
    case LeaseRenamed =>
      if s.lease.None? then Enter(s, p, Reclaiming).(lease := Made(s, p)) else Enter(s, p, Leaving)
    case Reclaiming => WriteOwner(s, p, HoldingLeaving, Leaving)
    case HoldingLeaving => Enter(s, p, Holding).(recovery := None)
    case Leaving => Enter(s, p, Idle).(recovery := None)
    case Holding => s
    case Dead => s
  }

  datatype Step = Go(p: Pid) | Release(p: Pid) | Crash(p: Pid) | Tick(ms: nat)

  function Next(s: State, step: Step): State {
    match step
    case Go(p) => Act(s, p)
    case Release(p) =>
      if !PhaseOf(s, p).Holding? then s
      else if s.lease.Some? && s.lease.value.owner == Some(p) then Enter(s, p, Idle).(lease := None)
      else Enter(s, p, Idle)
    case Crash(p) => Enter(s, p, Dead)
    case Tick(ms) => s.(now := s.now + ms)
  }

  predicate Claims(f: Phase) { f.Claiming? || f.Reclaiming? }
  predicate Holds(f: Phase) { f.Holding? || f.HoldingLeaving? }
  predicate OwnsRecovery(f: Phase) {
    f.Recovering? || f.LeaseRenamed? || f.Reclaiming? || f.HoldingLeaving? || f.Leaving?
  }

  /** A live process writes its owner file, and finishes a recovery, within the grace period. */
  ghost predicate Timely(s: State) {
    forall p: Pid ::
      && (Claims(PhaseOf(s, p)) && s.lease.Some? ==> Fresh(s, s.lease.value))
      && (OwnsRecovery(PhaseOf(s, p)) && s.recovery.Some? ==> Fresh(s, s.recovery.value))
  }

  ghost predicate Allowed(s: State, step: Step) {
    step.Tick? ==> Timely(Next(s, step))
  }

  /** What process `p` can rely on, and what others can rely on about it. */
  ghost predicate Sane(s: State, p: Pid) {
    var f := PhaseOf(s, p);
    && (Claims(f) ==> s.lease.Some? && s.lease.value.maker == p && s.lease.value.owner.None? && Fresh(s, s.lease.value))
    && (Holds(f) ==> s.lease.Some? && s.lease.value.maker == p && s.lease.value.owner == Some(p))
    && (OwnsRecovery(f) ==> s.recovery.Some? && s.recovery.value.maker == p && Fresh(s, s.recovery.value))
  }

  ghost predicate Inv(s: State) {
    && (forall p: Pid :: Sane(s, p))
    && (s.lease.Some? ==>
         var d := s.lease.value;
         && d.made <= s.now
         && (d.owner.Some? ==> d.owner == Some(d.maker))
         && (Alive(s, d.maker) ==> Holds(PhaseOf(s, d.maker)) || Claims(PhaseOf(s, d.maker))))
    && (s.recovery.Some? ==>
         && s.recovery.value.made <= s.now
         && (Alive(s, s.recovery.value.maker) ==> OwnsRecovery(PhaseOf(s, s.recovery.value.maker))))
  }

  /** A step of `p` leaves what every other process relies on. */
  lemma ActSane(s: State, p: Pid, q: Pid)
    requires Inv(s)
    ensures Sane(Act(s, p), q)
  {
    assert Sane(s, p) && Sane(s, q);
  }

  lemma ActInv(s: State, p: Pid)
    requires Inv(s)
    ensures Inv(Act(s, p))
  {
    assert Sane(s, p);
    forall q: Pid ensures Sane(Act(s, p), q) {
      ActSane(s, p, q);
    }
  }

  lemma ReleaseInv(s: State, p: Pid)
    requires Inv(s)
    ensures Inv(Next(s, Release(p)))
  {
    assert Sane(s, p);
    forall q: Pid ensures Sane(Next(s, Release(p)), q) {
      assert Sane(s, q);
    }
  }

  /** Every step keeps the invariant. */
  lemma NextInv(s: State, step: Step)
    requires Inv(s) && Allowed(s, step)
    ensures Inv(Next(s, step))
  {
    hide Act;
    match step
    case Go(p) => ActInv(s, p);
    case Release(p) => ReleaseInv(s, p);
    case Crash(p) =>
      forall q: Pid ensures Sane(Next(s, step), q) { assert Sane(s, q); }
    case Tick(ms) =>
      forall q: Pid ensures Sane(Next(s, step), q) { assert Sane(s, q); }
  }

  function Run(s: State, steps: seq<Step>): State
    decreases steps
  {
    if steps == [] then s else Run(Next(s, steps[0]), steps[1..])
  }

  ghost predicate AllAllowed(s: State, steps: seq<Step>)
    decreases steps
  {
    steps == [] || (Allowed(s, steps[0]) && AllAllowed(Next(s, steps[0]), steps[1..]))
  }

  lemma {:induction false} RunInv(s: State, steps: seq<Step>)
    requires Inv(s) && AllAllowed(s, steps)
    ensures Inv(Run(s, steps))
    decreases steps
  {
    hide Inv, Next;
    if steps != [] {
      NextInv(s, steps[0]);
      RunInv(Next(s, steps[0]), steps[1..]);
    }
  }

  const START := State(0, None, None, map[])

  /** In every run, whatever crashes and whoever recovers: at most one live process holds the lease. */
  lemma MutualExclusion(steps: seq<Step>, p: Pid, q: Pid)
    requires AllAllowed(START, steps)
    requires Holds(PhaseOf(Run(START, steps), p)) && Holds(PhaseOf(Run(START, steps), q))
    ensures p == q
  {
    RunInv(START, steps);
    var s := Run(START, steps);
    assert Sane(s, p) && Sane(s, q);
  }

  // ---- recovery -------------------------------------------------------------------------------------------

  function Acts(s: State, p: Pid, n: nat): State
    decreases n
  {
    if n == 0 then s else Acts(Act(s, p), p, n - 1)
  }

  /** What a crash leaves behind is old enough to be taken over, and its maker is gone. */
  ghost predicate Abandoned(s: State) {
    && (s.lease.Some? ==> !Alive(s, s.lease.value.maker) && (s.lease.value.owner.None? ==> !Fresh(s, s.lease.value)))
    && (s.recovery.Some? ==> !Alive(s, s.recovery.value.maker) && !Fresh(s, s.recovery.value))
  }

  /**
   * From any reachable state in which the lease and the recovery directory, if there are any, were left by crashed
   * processes and the grace period is over: a process that now runs alone gets the lease, in a bounded number of steps.
   */
  lemma SoloRecovery(steps: seq<Step>, p: Pid) returns (n: nat)
    requires AllAllowed(START, steps)
    requires Abandoned(Run(START, steps)) && PhaseOf(Run(START, steps), p).Idle?
    ensures n <= 10 && PhaseOf(Acts(Run(START, steps), p, n), p).Holding?
    ensures Acts(Run(START, steps), p, n).lease == Some(Dir(Run(START, steps).now, p, Some(p)))
  {
    RunInv(START, steps);
    n := FromIdle(Run(START, steps), p);
  }

  /** What a process alone can take over: a dead owner's lease, or one without an owner that is old enough. */
  predicate Takeable(s: State) {
    && (s.lease.Some? ==>
         if s.lease.value.owner.Some? then !Alive(s, s.lease.value.owner.value) else !Fresh(s, s.lease.value))
    && (s.recovery.Some? ==> !Fresh(s, s.recovery.value))
  }

  lemma FromIdle(s: State, p: Pid) returns (n: nat)
    requires Takeable(s) && PhaseOf(s, p).Idle?
    ensures n <= 10 && PhaseOf(Acts(s, p, n), p).Holding? && Acts(s, p, n).lease == Some(Dir(s.now, p, Some(p)))
  {
    if s.lease.None? {
      n := 2;
      assert Acts(s, p, 2) == Act(Act(s, p), p);
    } else {
      var busy := Act(s, p);
      var recovering: State, k: nat;
      if s.recovery.None? {
        recovering, k := Act(busy, p), 2;
      } else {
        recovering, k := Act(Act(Act(busy, p), p), p), 4;
      }
      assert Acts(s, p, k) == recovering;
      assert recovering == s.(recovery := Made(s, p), procs := recovering.procs);
      n := k + 5;
      FromRecovering(recovering, p);
      ActsAdd(s, p, k, 5);
    }
  }

  lemma FromRecovering(s: State, p: Pid)
    requires PhaseOf(s, p).Recovering? && s.lease.Some?
    requires if s.lease.value.owner.Some? then !Alive(s, s.lease.value.owner.value) else !Fresh(s, s.lease.value)
    ensures PhaseOf(Acts(s, p, 5), p).Holding? && Acts(s, p, 5).lease == Some(Dir(s.now, p, Some(p)))
  {
    var renamed := Act(s, p);
    var reclaiming := Act(renamed, p);
    var holding := Act(reclaiming, p);
    assert Acts(s, p, 4) == Act(holding, p);
  }

  lemma {:induction false} ActsAdd(s: State, p: Pid, j: nat, k: nat)
    ensures Acts(s, p, j + k) == Acts(Acts(s, p, j), p, k)
    decreases j
  {
    hide Act;
    if j > 0 { ActsAdd(Act(s, p), p, j - 1, k); }
  }

  // ---- giving up ------------------------------------------------------------------------------------------

  /** A process running alone takes a lease that nobody has in two steps. */
  lemma FreeIsTaken(s: State, p: Pid)
    requires s.lease.None? && PhaseOf(s, p).Idle?
    ensures PhaseOf(Acts(s, p, 2), p).Holding? && Acts(s, p, 2).lease == Some(Dir(s.now, p, Some(p)))
    ensures Acts(s, p, 2).recovery == s.recovery
  {
    assert Acts(s, p, 2) == Act(Act(s, p), p);
  }

  /**
   * From any reachable state in which another process is alive and has the lease, or is about to have it: a process
   * running alone gives up within six steps. It leaves the lease as it was at every step, and in the end no recovery
   * directory, unless somebody else's that is fresh.
   */
  lemma GivesUp(steps: seq<Step>, p: Pid, q: Pid) returns (n: nat)
    requires AllAllowed(START, steps) && p != q && PhaseOf(Run(START, steps), p).Idle?
    requires Holds(PhaseOf(Run(START, steps), q)) || Claims(PhaseOf(Run(START, steps), q))
    ensures
      var s := Run(START, steps);
      var end := Acts(s, p, n);
      && 3 <= n <= 6 && PhaseOf(end, p).Idle? && !PhaseOf(Acts(s, p, n - 1), p).Idle?
      && (forall k :: 0 <= k <= n ==> Acts(s, p, k).lease == s.lease)
      && (end.recovery.None? || (end.recovery == s.recovery && Fresh(s, s.recovery.value)))
  {
    RunInv(START, steps);
    var s := Run(START, steps);
    assert Sane(s, q);
    var busy := Act(s, p);
    if s.recovery.None? {
      n := 4;
      Refused(Act(busy, p), p);
      assert Acts(s, p, 4) == Acts(Act(busy, p), p, 2) && Acts(s, p, 3) == Acts(Act(busy, p), p, 1);
      assert Acts(s, p, 2) == Act(busy, p) && Acts(s, p, 1) == busy && Acts(s, p, 0) == s;
    } else {
      var other := Act(busy, p);
      var next := Act(other, p);
      assert Acts(s, p, 3) == next && Acts(s, p, 2) == other && Acts(s, p, 1) == busy && Acts(s, p, 0) == s;
      if Fresh(s, s.recovery.value) {
        n := 3;
      } else {
        n := 6;
        Refused(Act(next, p), p);
        assert Acts(s, p, 6) == Acts(Act(next, p), p, 2) && Acts(s, p, 5) == Acts(Act(next, p), p, 1);
        assert Acts(s, p, 4) == Act(next, p);
      }
    }
  }

  /** A recovering process that finds the lease taken removes its recovery directory, and nothing else. */
  lemma Refused(s: State, p: Pid)
    requires PhaseOf(s, p).Recovering? && s.lease.Some?
    requires if s.lease.value.owner.Some? then Alive(s, s.lease.value.owner.value) else Fresh(s, s.lease.value)
    ensures Acts(s, p, 1) == Enter(s, p, Leaving) && Acts(s, p, 2) == Enter(s, p, Idle).(recovery := None)
  {
    assert Acts(s, p, 2) == Act(Act(s, p), p);
    assert Enter(Enter(s, p, Leaving), p, Idle) == Enter(s, p, Idle);
  }

  // ---- what the grace period is for -----------------------------------------------------------------------

  lemma RunFirst(s: State, step: Step, rest: seq<Step>)
    ensures Run(s, [step] + rest) == Run(Next(s, step), rest)
    ensures AllAllowed(s, [step] + rest) ==> Allowed(s, step) && AllAllowed(Next(s, step), rest)
  {
    assert ([step] + rest)[1..] == rest;
  }

  lemma RunNothing(s: State)
    ensures Run(s, []) == s
  {
  }

  /** `n` steps of one process. */
  function Turns(p: Pid, n: nat): seq<Step> {
    if n == 0 then [] else [Go(p)] + Turns(p, n - 1)
  }

  lemma {:induction false} RunTurns(s: State, p: Pid, n: nat, rest: seq<Step>)
    ensures Run(s, Turns(p, n) + rest) == Run(Acts(s, p, n), rest)
    decreases n
  {
    hide Run, Act;
    if n == 0 {
      assert Turns(p, 0) + rest == rest;
    } else {
      assert Turns(p, n) + rest == [Go(p)] + (Turns(p, n - 1) + rest);
      RunFirst(s, Go(p), Turns(p, n - 1) + rest);
      RunTurns(Act(s, p), p, n - 1, rest);
    }
  }

  lemma {:induction false} ActsKeepOthers(s: State, p: Pid, n: nat, q: Pid)
    requires p != q
    ensures PhaseOf(Acts(s, p, n), q) == PhaseOf(s, q)
    decreases n
  {
    if n > 0 {
      assert PhaseOf(Act(s, p), q) == PhaseOf(s, q);
      ActsKeepOthers(Act(s, p), p, n - 1, q);
    }
  }

  /** A late claimer can be overtaken, and then writes its owner file into the lease of the process that overtook it. */
  lemma Overtaken(s: State, p: Pid, q: Pid) returns (more: seq<Step>)
    requires p != q && Claims(PhaseOf(s, p)) && PhaseOf(s, q).Idle?
    requires s.lease.Some? && s.lease.value.owner.None? && !Fresh(s, s.lease.value)
    requires s.recovery.Some? ==> s.recovery.value.made <= s.now
    ensures Holds(PhaseOf(Run(s, more), p)) && Holds(PhaseOf(Run(s, more), q))
  {
    hide Run, Acts;
    var wait := Tick(MALFORMED_LOCK_GRACE_MS);
    var waited := Next(s, wait);
    var n := FromIdle(waited, q);
    var taken := Acts(waited, q, n);
    ActsKeepOthers(waited, q, n, p);
    more := [wait] + (Turns(q, n) + ([Go(p)] + []));
    RunFirst(s, wait, Turns(q, n) + ([Go(p)] + []));
    RunTurns(waited, q, n, [Go(p)] + []);
    RunFirst(taken, Go(p), []);
    RunNothing(Next(taken, Go(p)));
  }

  /**
   * Whenever a live process that made the lease directory is later than the grace period with its owner file, another
   * process can come to share the lease with it: from every such state some run leads to two holders.
   */
  lemma GraceIsNeeded(steps: seq<Step>, ms: nat, p: Pid, q: Pid) returns (more: seq<Step>)
    requires AllAllowed(START, steps) && p != q
    requires
      var late := Next(Run(START, steps), Tick(ms));
      && Claims(PhaseOf(late, p)) && PhaseOf(late, q).Idle?
      && late.lease.Some? && !Fresh(late, late.lease.value)
    ensures
      var end := Run(Next(Run(START, steps), Tick(ms)), more);
      Holds(PhaseOf(end, p)) && Holds(PhaseOf(end, q))
  {
    hide Run, AllAllowed;
    RunInv(START, steps);
    var s := Run(START, steps);
    assert Sane(s, p);
    more := Overtaken(Next(s, Tick(ms)), p, q);
  }

  /** Such a state is reached at once. */
  lemma LateClaimer(p: Pid)
    ensures
      var late := Next(Run(START, [Go(p)]), Tick(MALFORMED_LOCK_GRACE_MS));
      && AllAllowed(START, [Go(p)])
      && Claims(PhaseOf(late, p)) && late.lease.Some? && !Fresh(late, late.lease.value)
  {
    assert [Go(p)][1..] == [];
    assert Run(START, [Go(p)]) == Next(START, Go(p));
  }
}
