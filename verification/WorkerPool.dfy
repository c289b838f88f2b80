/** The supervisor of examples/server/server.c as a state machine: the parent's steps interleaved with the deaths of
    workers, fork failures, interrupted waits and a SIGTERM at any moment. */
module WorkerPool {

  const WORKER_COUNT: nat := 4

  /** Where the parent is. `Respawning` runs from the return of wait() through the scan for the dead worker's slot. */
  datatype Phase =
    Booting | LoopHead | Waiting | Respawning(gone: int, next: nat) | Signalling(next: nat) | Draining | Stopped

  /** `workers` is the pid array, as far as it is filled; `running` and `zombies` are the kernel's un-reaped children;
      `signalled` is every pid the parent has sent SIGTERM to. */
  datatype State = State(phase: Phase, workers: seq<int>, running: set<int>, zombies: set<int>, stopping: bool,
                         signalled: set<int>)
  {
    function Children(): set<int> {
      running + zombies
    }
  }

  /** What happens in one step; `pid` is fork's answer, negative on failure. */
  datatype Event =
    | Die(pid: int)
    | Terminate
    | Boot(pid: int)
    | Check
    | Reap(pid: int)
    | Interrupted
    | NoChildren
    | SkipSlot
    | Respawn(pid: int)
    | Kill
    | DoneSignalling

  /** fork() fails with -1 or returns a pid no un-reaped child has; a reaped pid may come back. */
  predicate ForkAnswer(s: State, pid: int) {
    pid == -1 || (pid > 0 && pid !in s.Children())
  }

  function Spawned(s: State, pid: int): set<int> {
    if pid > 0 then s.running + {pid} else s.running
  }

  predicate Enabled(s: State, e: Event) {
    match e
    case Die(pid) => pid in s.running
    case Terminate => true
    case Boot(pid) => s.phase.Booting? && |s.workers| < WORKER_COUNT && ForkAnswer(s, pid)
    case Check => s.phase.LoopHead? || (s.phase.Booting? && |s.workers| == WORKER_COUNT)
    case Reap(pid) => (s.phase.Waiting? || s.phase.Draining?) && pid in s.zombies
    case Interrupted => s.phase.Waiting? || s.phase.Draining?
    case NoChildren => (s.phase.Waiting? || s.phase.Draining?) && s.Children() == {}
    case SkipSlot => s.phase.Respawning? && (s.phase.next >= |s.workers| || s.workers[s.phase.next] != s.phase.gone)
    case Respawn(pid) =>
      s.phase.Respawning? && s.phase.next < |s.workers| && s.workers[s.phase.next] == s.phase.gone && ForkAnswer(s, pid)
    case Kill => s.phase.Signalling? && s.phase.next < |s.workers|
    case DoneSignalling => s.phase.Signalling? && s.phase.next >= |s.workers|
  }

  function Step(s: State, e: Event): State
    requires Enabled(s, e)
  {
    match e
    case Die(pid) => s.(running := s.running - {pid}, zombies := s.zombies + {pid})
    case Terminate => s.(stopping := true)
    case Boot(pid) => s.(workers := s.workers + [pid], running := Spawned(s, pid))
    case Check => s.(phase := if s.stopping then Signalling(0) else Waiting)
    case Reap(pid) =>
      s.(zombies := s.zombies - {pid}, phase := if s.phase.Waiting? then Respawning(pid, 0) else Draining)
    case Interrupted => s.(phase := if s.phase.Waiting? then LoopHead else Draining)
    case NoChildren => s.(phase := if s.phase.Waiting? then Signalling(0) else Stopped)
    case SkipSlot =>
      s.(phase := if s.phase.next >= |s.workers| then LoopHead else Respawning(s.phase.gone, s.phase.next + 1))
    case Respawn(pid) => s.(workers := s.workers[s.phase.next := pid], running := Spawned(s, pid), phase := LoopHead)
    case Kill =>
      var pid := s.workers[s.phase.next];
      s.(signalled := if pid > 0 then s.signalled + {pid} else s.signalled, phase := Signalling(s.phase.next + 1))
    case DoneSignalling => s.(phase := Draining)
  }

  // ---- the invariant ----

  ghost function Positives(workers: seq<int>): set<int> {
    set i | 0 <= i < |workers| && workers[i] > 0 :: workers[i]
  }

  ghost predicate Distinct(workers: seq<int>) {
    forall i, j :: 0 <= i < j < |workers| && workers[i] > 0 ==> workers[i] != workers[j]
  }

  ghost predicate Inv(s: State) {
    && |s.workers| <= WORKER_COUNT && (!s.phase.Booting? ==> |s.workers| == WORKER_COUNT)
    && Distinct(s.workers)
    && (forall i :: 0 <= i < |s.workers| ==> s.workers[i] > 0 || s.workers[i] == -1)
    && s.running !! s.zombies
    && match s.phase {
      case Booting => Positives(s.workers) == s.Children() && s.signalled == {}
      case LoopHead => Positives(s.workers) == s.Children() && s.signalled == {}
      case Waiting => Positives(s.workers) == s.Children() && s.signalled == {}
      case Respawning(gone, next) =>
        && gone > 0 && gone !in s.Children() && s.signalled == {}
        && Positives(s.workers) == s.Children() + {gone}
        && next < WORKER_COUNT && gone !in s.workers[..next]
      case Signalling(next) =>
        && Positives(s.workers) == s.Children()
        && next <= WORKER_COUNT && s.signalled == Positives(s.workers[..next])
      case Draining => s.Children() <= Positives(s.workers) == s.signalled
      case Stopped => s.Children() == {} && Positives(s.workers) == s.signalled
    }
  }

  lemma {:induction false} PositivesGrow(workers: seq<int>, pid: int)
    ensures Positives(workers + [pid]) == Positives(workers) + if pid > 0 then {pid} else {}
  {
    var more := workers + [pid];
    assert more[|workers|] == pid;
    assert forall i :: 0 <= i < |workers| ==> more[i] == workers[i];
  }

  lemma {:induction false} PositivesReplace(workers: seq<int>, i: nat, pid: int)
    requires i < |workers| && workers[i] > 0 && Distinct(workers)
    ensures Positives(workers[i := pid]) == Positives(workers) - {workers[i]} + if pid > 0 then {pid} else {}
  {
    var more := workers[i := pid];
    assert more[i] == pid;
    forall x | x in Positives(workers) - {workers[i]}
      ensures x in Positives(more)
    {
      var j :| 0 <= j < |workers| && workers[j] == x;
      assert more[j] == x;
    }
  }

  lemma {:induction false} BootKeeps(s: State, pid: int)
    requires Inv(s) && Enabled(s, Boot(pid))
    ensures Inv(Step(s, Boot(pid)))
  {
    PositivesGrow(s.workers, pid);
    assert forall i :: 0 <= i < |s.workers| && s.workers[i] > 0 ==> s.workers[i] in Positives(s.workers);
    hide Positives;
  }

  lemma {:induction false} ReapKeeps(s: State, pid: int)
    requires Inv(s) && Enabled(s, Reap(pid))
    ensures Inv(Step(s, Reap(pid)))
  {
    assert s.phase.Waiting? ==> pid > 0;
    hide Positives;
  }

  lemma {:induction false} SkipKeeps(s: State)
    requires Inv(s) && Enabled(s, SkipSlot)
    ensures Inv(Step(s, SkipSlot))
  {
    var gone, next := s.phase.gone, s.phase.next;
    assert gone in Positives(s.workers);
    var i :| 0 <= i < |s.workers| && s.workers[i] == gone;
    hide Positives;
    forall j | 0 <= j < next
      ensures s.workers[j] != gone
    {
      assert s.workers[..next][j] == s.workers[j];
    }
    assert s.workers[..next + 1] == s.workers[..next] + [s.workers[next]];
  }

  lemma {:induction false} DistinctReplace(workers: seq<int>, i: nat, pid: int)
    requires i < |workers| && Distinct(workers) && pid !in Positives(workers)
    ensures Distinct(workers[i := pid])
  {
    assert forall j :: 0 <= j < |workers| && workers[j] > 0 ==> workers[j] in Positives(workers);
    hide Positives;
  }

  lemma {:induction false} RespawnKeeps(s: State, pid: int)
    requires Inv(s) && Enabled(s, Respawn(pid))
    ensures Inv(Step(s, Respawn(pid)))
  {
    var workers, next := s.workers, s.phase.next;
    PositivesReplace(workers, next, pid);
    if pid == workers[next] {
      assert workers[next := pid] == workers;
    } else {
      if pid <= 0 {
        OnlyPositive(workers, pid);
      }
      DistinctReplace(workers, next, pid);
    }
    hide Positives, Distinct;
  }

  lemma {:induction false} OnlyPositive(workers: seq<int>, pid: int)
    requires pid <= 0
    ensures pid !in Positives(workers)
  {
  }

  lemma {:induction false} KillKeeps(s: State)
    requires Inv(s) && Enabled(s, Kill)
    ensures Inv(Step(s, Kill))
  {
    hide Positives;
    var next := s.phase.next;
    assert s.workers[..next + 1] == s.workers[..next] + [s.workers[next]];
    PositivesGrow(s.workers[..next], s.workers[next]);
  }

  lemma {:induction false} QuietKeeps(s: State, e: Event)
    requires Inv(s) && Enabled(s, e)
    requires e.Die? || e.Terminate? || e.Check? || e.Interrupted? || e.NoChildren? || e.DoneSignalling?
    ensures Inv(Step(s, e))
  {
    assert Positives(s.workers[..0]) == {};
    hide Positives;
    assert s.workers[..|s.workers|] == s.workers;
    assert e.Die? ==> Step(s, e).Children() == s.Children();
  }

  lemma {:induction false} InvHolds(s: State, e: Event)
    requires Inv(s) && Enabled(s, e)
    ensures Inv(Step(s, e))
  {
    hide Inv, Enabled, Step;
    match e {
      case Boot(pid) => BootKeeps(s, pid);
      case Reap(pid) => ReapKeeps(s, pid);
      case SkipSlot => SkipKeeps(s);
      case Respawn(pid) => RespawnKeeps(s, pid);
      case Kill => KillKeeps(s);
      case _ => QuietKeeps(s, e);
    }
  }

  // ---- runs ----

  datatype Outcome = Impossible | At(state: State)

  /** The state after a sequence of events. */
  function Run(s: State, es: seq<Event>): Outcome {
    if es == [] then At(s) else
      var before := Run(s, es[..|es| - 1]);
      if before.Impossible? || !Enabled(before.state, es[|es| - 1]) then Impossible
      else At(Step(before.state, es[|es| - 1]))
  }

  /** The parent as it enters the boot loop. */
  const START := State(Booting, [], {}, {}, false, {})

  lemma {:induction false} StartHolds()
    ensures Inv(START)
  {
  }

  lemma {:induction false} RunKeeps(s: State, es: seq<Event>)
    requires Inv(s) && Run(s, es).At?
    ensures Inv(Run(s, es).state)
  {
    hide Inv, Enabled, Step;
    if es != [] {
      RunKeeps(s, es[..|es| - 1]);
      InvHolds(Run(s, es[..|es| - 1]).state, es[|es| - 1]);
    }
  }

  function LostSlots(workers: seq<int>): nat {
    if workers == [] then 0 else LostSlots(workers[..|workers| - 1]) + if workers[|workers| - 1] == -1 then 1 else 0
  }

  lemma {:induction false} SlotCount(workers: seq<int>)
    requires Distinct(workers) && forall i :: 0 <= i < |workers| ==> workers[i] > 0 || workers[i] == -1
    ensures |Positives(workers)| + LostSlots(workers) == |workers|
  {
    if workers != [] {
      var n := |workers| - 1;
      SlotCount(workers[..n]);
      assert workers == workers[..n] + [workers[n]];
      PositivesGrow(workers[..n], workers[n]);
      LastIsNew(workers);
      hide Positives, Distinct;
    }
  }

  lemma {:induction false} LastIsNew(workers: seq<int>)
    requires workers != [] && Distinct(workers)
    ensures workers[|workers| - 1] !in Positives(workers[..|workers| - 1])
  {
  }

  predicate FailedFork(e: Event) {
    e == Boot(-1) || e == Respawn(-1)
  }

  /** How many forks failed in a run. */
  function FailedForks(es: seq<Event>): nat {
    if es == [] then 0 else FailedForks(es[..|es| - 1]) + if FailedFork(es[|es| - 1]) then 1 else 0
  }

  lemma {:induction false} LostReplaced(workers: seq<int>, i: nat, pid: int)
    requires i < |workers| && workers[i] != -1
    ensures LostSlots(workers[i := pid]) == LostSlots(workers) + if pid == -1 then 1 else 0
  {
    var n := |workers| - 1;
    if i < n {
      LostReplaced(workers[..n], i, pid);
      assert workers[i := pid][..n] == workers[..n][i := pid];
    } else {
      assert workers[i := pid][..n] == workers[..n];
    }
  }

  lemma {:induction false} StepLoses(s: State, e: Event)
    requires Inv(s) && Enabled(s, e)
    ensures LostSlots(Step(s, e).workers) == LostSlots(s.workers) + if FailedFork(e) then 1 else 0
  {
    hide Positives, Distinct;
    match e {
      case Boot(pid) => assert (s.workers + [pid])[..|s.workers|] == s.workers;
      case Respawn(pid) => LostReplaced(s.workers, s.phase.next, pid);
      case _ =>
    }
  }

  /** A slot is lost by a failed fork and by nothing else, and never found again. */
  lemma {:induction false} EveryFailureLosesASlot(es: seq<Event>)
    requires Run(START, es).At?
    ensures LostSlots(Run(START, es).state.workers) == FailedForks(es)
  {
    hide Inv, Enabled, Step, FailedFork;
    if es != [] {
      var n := |es| - 1;
      EveryFailureLosesASlot(es[..n]);
      StartHolds();
      RunKeeps(START, es[..n]);
      StepLoses(Run(START, es[..n]).state, es[n]);
    }
  }

  /** Over every interleaving: at the head of the loop and in wait(), the positive entries are exactly the un-reaped
      children, and children and failed forks add up to the pool size; so the pool is full exactly when no fork has
      failed yet. Never are there more children than slots. */
  lemma {:induction false} PoolIsExact(es: seq<Event>)
    requires Run(START, es).At?
    ensures var s := Run(START, es).state;
      && |s.Children()| <= WORKER_COUNT
      && (s.phase.LoopHead? || s.phase.Waiting? ==>
            && Positives(s.workers) == s.Children()
            && |s.Children()| + FailedForks(es) == WORKER_COUNT)
  {
    RunKeeps(START, es);
    EveryFailureLosesASlot(es);
    var s := Run(START, es).state;
    SlotCount(s.workers);
    hide Positives, LostSlots, Run, FailedForks;
    assert s.Children() <= Positives(s.workers);
    SubsetSize(s.Children(), Positives(s.workers));
  }

  lemma {:induction false} SubsetSize<T>(a: set<T>, b: set<T>)
    requires a <= b
    ensures |a| <= |b|
  {
    assert b == a + (b - a);
  }

  /** A SIGTERM only ever goes to an un-reaped child. */
  lemma {:induction false} KillsOnlyChildren(es: seq<Event>)
    requires Run(START, es).At? && Enabled(Run(START, es).state, Kill)
    ensures var s := Run(START, es).state;
      var pid := s.workers[s.phase.next];
      pid > 0 ==> pid in s.Children()
  {
    RunKeeps(START, es);
    var s := Run(START, es).state;
    assert s.workers[s.phase.next] > 0 ==> s.workers[s.phase.next] in Positives(s.workers);
  }

  /** From the first shutdown step on, the pid array is frozen. */
  lemma {:induction false} ShutdownFreezes(s: State, es: seq<Event>)
    requires s.phase.Signalling? && Run(s, es).At?
    ensures var t := Run(s, es).state;
      t.workers == s.workers && (t.phase.Signalling? || t.phase.Draining? || t.phase.Stopped?)
  {
    if es != [] {
      ShutdownFreezes(s, es[..|es| - 1]);
    }
  }

  /** Shutdown is complete: every child that is un-reaped when shutdown begins has been signalled before the final loop,
      and when the parent leaves that loop no child is left. */
  lemma {:induction false} ShutdownIsComplete(es: seq<Event>, fs: seq<Event>)
    requires Run(START, es).At? && Run(START, es).state.phase == Signalling(0)
    requires Run(Run(START, es).state, fs).At?
    ensures var s := Run(START, es).state;
      var t := Run(s, fs).state;
      && (t.phase.Draining? || t.phase.Stopped? ==> s.Children() <= t.signalled)
      && (t.phase.Stopped? ==> t.Children() == {})
  {
    RunKeeps(START, es);
    var s := Run(START, es).state;
    RunKeeps(s, fs);
    ShutdownFreezes(s, fs);
  }

  /** A slot lost to a failed fork is lost for good: the pool only shrinks. */
  lemma {:induction false} LostSlotsStayLost(s: State, es: seq<Event>, i: nat)
    requires Inv(s) && |s.workers| == WORKER_COUNT && i < WORKER_COUNT && s.workers[i] == -1 && Run(s, es).At?
    ensures |Run(s, es).state.workers| == WORKER_COUNT && Run(s, es).state.workers[i] == -1
  {
    hide Positives;
    if es != [] {
      LostSlotsStayLost(s, es[..|es| - 1], i);
      RunKeeps(s, es[..|es| - 1]);
    }
  }

  /** Four boots, a death and a failed respawn. */
  const UNLUCKY: seq<Event> := [Boot(1), Boot(2), Boot(3), Boot(4), Check, Die(2), Reap(2), SkipSlot, Respawn(-1)]

  lemma {:induction false} RunStep(s: State, es: seq<Event>, e: Event)
    ensures Run(s, es + [e]) ==
            if Run(s, es).Impossible? || !Enabled(Run(s, es).state, e) then Impossible
            else At(Step(Run(s, es).state, e))
  {
    assert (es + [e])[..|es|] == es;
  }

  lemma {:induction false} UnluckyRun()
    ensures Run(START, UNLUCKY) == At(State(LoopHead, [1, -1, 3, 4], {1, 3, 4}, {}, false, {}))
  {
    hide Run;
    var booted := [Boot(1), Boot(2), Boot(3), Boot(4)];
    UnluckyBoot();
    var es5, es6, es7, es8 := booted + [Check], booted + [Check] + [Die(2)], booted + [Check, Die(2)] + [Reap(2)],
      booted + [Check, Die(2), Reap(2)] + [SkipSlot];
    RunStep(START, booted, Check);
    RunStep(START, es5, Die(2));
    assert es6 + [Reap(2)] == es7;
    RunStep(START, es6, Reap(2));
    assert es7 + [SkipSlot] == es8;
    RunStep(START, es7, SkipSlot);
    assert es8 + [Respawn(-1)] == UNLUCKY;
    RunStep(START, es8, Respawn(-1));
  }

  lemma {:induction false} UnluckyPair()
    ensures Run(START, [Boot(1), Boot(2)]) == At(START.(workers := [1, 2], running := {1, 2}))
  {
    assert Run(START, []) == At(START);
    hide Run;
    assert [] + [Boot(1)] == [Boot(1)] && [Boot(1)] + [Boot(2)] == [Boot(1), Boot(2)];
    RunStep(START, [], Boot(1));
    RunStep(START, [Boot(1)], Boot(2));
  }

  lemma {:induction false} UnluckyBoot()
    ensures Run(START, [Boot(1), Boot(2), Boot(3), Boot(4)]) ==
            At(START.(workers := [1, 2, 3, 4], running := {1, 2, 3, 4}))
  {
    hide Run;
    var two := [Boot(1), Boot(2)];
    UnluckyPair();
    RunStep(START, two, Boot(3));
    RunStep(START, two + [Boot(3)], Boot(4));
    assert two + [Boot(3)] + [Boot(4)] == [Boot(1), Boot(2), Boot(3), Boot(4)];
  }

  /** The pool shrinks for good: after this run the parent serves on with three workers, and whatever happens next it
      never waits with four. */
  lemma {:induction false} PoolShrinks(es: seq<Event>)
    requires Run(START, UNLUCKY + es).At?
    ensures Run(START, UNLUCKY).At? && Run(START, UNLUCKY).state.phase.LoopHead?
    ensures var s := Run(START, UNLUCKY + es).state;
      s.phase.LoopHead? || s.phase.Waiting? ==> |s.Children()| < WORKER_COUNT
  {
    hide Run, FailedForks;
    UnluckyRun();
    PoolIsExact(UNLUCKY + es);
    FailuresStay(UNLUCKY, es);
    UnluckyFailure();
  }

  lemma {:induction false} UnluckyFailure()
    ensures FailedForks(UNLUCKY) > 0
  {
  }

  lemma {:induction false} FailuresStay(es: seq<Event>, fs: seq<Event>)
    ensures FailedForks(es + fs) >= FailedForks(es)
  {
    if fs == [] {
      assert es + fs == es;
    } else {
      FailuresStay(es, fs[..|fs| - 1]);
      assert (es + fs)[..|es + fs| - 1] == es + fs[..|fs| - 1];
    }
  }

  // ---- what the parent does, over several steps ----

  ghost predicate LeavesForAReason(s: State) {
    s.phase.Signalling? || s.phase.Draining? || s.phase.Stopped? ==> s.stopping || s.Children() == {}
  }

  /** The parent gives up serving only on a SIGTERM or when it has no children left. */
  lemma {:induction false} StopsForAReason(es: seq<Event>)
    requires Run(START, es).At?
    ensures LeavesForAReason(Run(START, es).state)
  {
    if es != [] {
      StopsForAReason(es[..|es| - 1]);
    }
  }

  ghost predicate PastServing(s: State) {
    s.stopping && (s.phase.LoopHead? || s.phase.Signalling? || s.phase.Draining? || s.phase.Stopped?)
  }

  /** Once it is back at the head of its loop after a SIGTERM, it neither waits there again nor forks. */
  lemma {:induction false} StoppingIsFinal(s: State, es: seq<Event>)
    requires PastServing(s) && Run(s, es).At?
    ensures PastServing(Run(s, es).state) && Run(s, es).state.workers == s.workers
  {
    if es != [] {
      StoppingIsFinal(s, es[..|es| - 1]);
    }
  }

  /** Without a SIGTERM it goes on serving: from the head of the loop it waits, an interrupted wait brings it back, and
      only the kernel's answer that there are no children ends the loop. */
  lemma {:induction false} GoesOnServing(s: State)
    requires s.phase.LoopHead? && !s.stopping
    ensures Run(s, [Check]) == At(s.(phase := Waiting))
    ensures Run(s.(phase := Waiting), [Interrupted]) == At(s)
    ensures s.Children() == {} ==> Run(s.(phase := Waiting), [NoChildren]) == At(s.(phase := Signalling(0)))
  {
    assert forall e: Event :: [e][..0] == [];
  }

  function Skips(n: nat): seq<Event> {
    if n == 0 then [] else Skips(n - 1) + [SkipSlot]
  }

  lemma {:induction false} SkipRun(s: State, gone: int, n: nat)
    requires s.phase == Respawning(gone, 0) && n <= |s.workers| && Run(s, Skips(n)).At?
    ensures Run(s, Skips(n)) == At(s.(phase := Respawning(gone, n)))
    ensures forall j :: 0 <= j < n ==> s.workers[j] != gone
  {
    if n > 0 {
      assert Skips(n)[..|Skips(n)| - 1] == Skips(n - 1);
      SkipRun(s, gone, n - 1);
    }
  }

  /** The scan for a reaped pid never runs off the pid array: over every interleaving, the pid is in one of the slots
      the scan has yet to look at, and in no other slot. */
  lemma {:induction false} ScanFinds(es: seq<Event>)
    requires Run(START, es).At? && Run(START, es).state.phase.Respawning?
    ensures var s := Run(START, es).state;
      exists i :: s.phase.next <= i < |s.workers| && s.workers[i] == s.phase.gone &&
        forall j :: 0 <= j < |s.workers| && j != i ==> s.workers[j] != s.phase.gone
  {
    StartHolds();
    RunKeeps(START, es);
    hide Run;
    var s := Run(START, es).state;
    var gone, next := s.phase.gone, s.phase.next;
    assert gone in Positives(s.workers);
    hide Positives;
    assert gone in s.workers && s.workers == s.workers[..next] + s.workers[next..];
    var i :| 0 <= i < |s.workers[next..]| && s.workers[next..][i] == gone;
    assert s.workers[next + i] == gone;
  }

  /** A reaped worker is replaced in its own slot, and no other slot changes; then the parent is back at the head of
      its loop. */
  lemma {:induction false} RespawnRefills(s: State, gone: int, n: nat, pid: int)
    requires s.phase.Waiting? && n <= |s.workers|
    requires Run(s, [Reap(gone)]).At? && Run(Run(s, [Reap(gone)]).state, Skips(n) + [Respawn(pid)]).At?
    ensures n < |s.workers| && s.workers[n] == gone
    ensures var t := Run(Run(s, [Reap(gone)]).state, Skips(n) + [Respawn(pid)]).state;
      && t.phase.LoopHead? && t.workers == s.workers[n := pid] && t.stopping == s.stopping
      && (pid > 0 ==> t.running == s.running + {pid}) && (pid <= 0 ==> t.running == s.running)
  {
    assert [Reap(gone)][..0] == [];
    var reaped := Run(s, [Reap(gone)]).state;
    assert reaped == s.(zombies := s.zombies - {gone}, phase := Respawning(gone, 0));
    RunStep(reaped, Skips(n), Respawn(pid));
    SkipRun(reaped, gone, n);
  }
}
