/** The wait group never hangs: no wakeup is lost, some thread can always go on, and every program comes to its end. */
module WaitGroupProgress {
  import opened WaitGroup
  import opened WaitGroupInvariant
  import opened WaitGroupSteps

  // ---------- No lost wakeup, no deadlock ----------

  /** While the owner is blocked, a countdown is still to come or the broadcast that ends the wait is about to be made. */
  lemma NoLostWakeup(prog: seq<Cmd>, actions: seq<Action>, runner: Runner)
    requires WellFormed(prog) && Run(Initial(prog), actions, runner).Some?
    requires Run(Initial(prog), actions, runner).value.owner.Blocked?
    ensures var s := Run(Initial(prog), actions, runner).value;
            exists i | 0 <= i < |s.tasks| :: Pending(s.tasks[i]) || Broadcaster(s.tasks[i])
  {
    RunKeepsInv(prog, actions, runner);
    var s := Run(Initial(prog), actions, runner).value;
    if s.group.remaining > 0 {
      PendingExists(s.tasks);
    }
  }

  /** The thread that holds the mutex is not waiting for anything. */
  lemma HolderCanStep(s: State, runner: Runner)
    requires Inv(s, runner) && s.lock.Thread?
    ensures WorkerStep(s, s.lock.i, runner).Some?
  {
    assert WorkerHolds(s.tasks[s.lock.i].worker);
  }

  /** A worker that has not exited can go on, or the thread that holds the mutex can. */
  lemma WorkerCanStep(s: State, i: nat, runner: Runner)
    requires Inv(s, runner) && i < |s.tasks| && !s.tasks[i].worker.Absent? && !s.tasks[i].worker.Exited?
    requires !OwnerHolds(s.owner)
    ensures exists j: nat :: WorkerStep(s, j, runner).Some?
  {
    if s.tasks[i].worker.WantsLock? && s.lock != Nobody {
      HolderCanStep(s, runner);
    } else {
      assert WorkerStep(s, i, runner).Some?;
    }
  }

  /** While the owner is blocked, a worker can go on. */
  lemma BlockedMeansWork(s: State, runner: Runner)
    requires Inv(s, runner) && s.owner.Blocked?
    ensures exists j: nat :: WorkerStep(s, j, runner).Some?
  {
    if s.group.remaining > 0 {
      PendingExists(s.tasks);
      var i :| 0 <= i < |s.tasks| && Pending(s.tasks[i]);
      hide Inv, WorkerStep;
      WorkerCanStep(s, i, runner);
    } else {
      var i :| 0 <= i < |s.tasks| && Broadcaster(s.tasks[i]);
      hide Inv, WorkerStep;
      WorkerCanStep(s, i, runner);
    }
  }

  /** Without a spurious wakeup somebody can always go on, until the owner's program is over. */
  lemma NoDeadlock(s: State, runner: Runner)
    requires Inv(s, runner) && !Finished(s)
    ensures OwnerStep(s).Some? || exists j: nat :: WorkerStep(s, j, runner).Some?
  {
    hide Inv, OwnerStep, WorkerStep;
    match s.owner {
      case Blocked => BlockedMeansWork(s, runner);
      case GoLock => LockIsReleased(s, runner);
      case GoFailLock => LockIsReleased(s, runner);
      case WaitLock => LockIsReleased(s, runner);
      case WaitJoin(i) => JoinComes(s, i, runner);
      case FreeJoin(i) => JoinComes(s, i, runner);
      case _ => OwnerGoesOn(s, runner);
    }
  }

  /** Away from the mutex, the condition variable and the joins the owner can always go on. */
  lemma OwnerGoesOn(s: State, runner: Runner)
    requires Inv(s, runner) && !Finished(s) && !s.owner.Blocked? && !s.owner.WaitJoin? && !s.owner.FreeJoin?
    requires !s.owner.GoLock? && !s.owner.GoFailLock? && !s.owner.WaitLock?
    ensures OwnerStep(s).Some?
  {
    hide InvLock, InvCount, InvTasks, InvBlocked, InvWaited, InvLive, WellFormed, GoArgs, Grown, Stored, Counted, Join;
  }

  lemma LockIsReleased(s: State, runner: Runner)
    requires Inv(s, runner) && (s.owner.GoLock? || s.owner.GoFailLock? || s.owner.WaitLock?)
    ensures OwnerStep(s).Some? || exists j: nat :: WorkerStep(s, j, runner).Some?
  {
    if s.lock != Nobody {
      HolderCanStep(s, runner);
    }
  }

  lemma JoinComes(s: State, i: nat, runner: Runner)
    requires Inv(s, runner) && (s.owner == WaitJoin(i) || s.owner == FreeJoin(i))
    ensures OwnerStep(s).Some? || exists j: nat :: WorkerStep(s, j, runner).Some?
  {
    if i < s.group.count {
      SlotHolds(s, i);
      assert TaskOk(s.tasks[i], runner, false);
      if s.tasks[i].joinable && !s.tasks[i].worker.Exited? {
        WorkerCanStep(s, i, runner);
      }
    }
  }

  // ---------- The measure ----------

  /** How many steps a worker can still make; the broadcast pays for the owner's return to the mutex. */
  function Left(w: Worker): nat {
    match w
    case Absent => 0
    case Starting => 9
    case Running => 8
    case WantsLock => 7
    case Counting => 6
    case Broadcasting => 5
    case Unlocking => 2
    case Leaving => 1
    case Exited => 0
  }

  function WorkersLeft(ts: seq<Task>): nat {
    if ts == [] then 0 else WorkersLeft(ts[..|ts| - 1]) + Left(ts[|ts| - 1].worker)
  }

  /** How many steps the owner can still make in its command, over a table of at most n slots. */
  function OwnerLeft(o: Owner, n: nat): int {
    match o
    case Idle => 0
    case GoLock => 32
    case GoGrow => 31
    case GoStore => 30
    case GoCount => 29
    case GoUnlock => 28
    case GoContext => 27
    case GoCreate => 26
    case GoMark => 1
    case GoFailFree => 5
    case GoFailLock => 4
    case GoFailCount => 3
    case GoFailUnlock => 2
    case GoFailMark => 1
    case WaitLock => n + 6
    case WaitTest => n + 5
    case Blocked => n + 4
    case WaitUnlock => n + 3
    case WaitJoin(i) => n + 1 - i
    case FreeJoin(i) => 2 * (n - i) + 5
    case FreeTask(i) => 2 * (n - i) + 4
    case FreeTable => 4
    case FreeLock => 3
    case FreeGroup => 2
  }

  /** More than any single command takes. */
  function PerCommand(n: nat): nat {
    2 * n + 40
  }

  function Measure(s: State): int {
    var n := |s.prog|;
    (n - s.pc - (if s.owner == Idle then 0 else 1)) * PerCommand(n) + OwnerLeft(s.owner, n) + WorkersLeft(s.tasks)
  }

  lemma {:induction false} WorkersLeftUpdate(ts: seq<Task>, i: nat, t: Task)
    requires i < |ts|
    ensures WorkersLeft(ts[i := t]) == WorkersLeft(ts) - Left(ts[i].worker) + Left(t.worker)
    decreases |ts|
  {
    var n := |ts| - 1;
    if i < n {
      WorkersLeftUpdate(ts[..n], i, t);
      assert ts[i := t][..n] == ts[..n][i := t];
    } else {
      assert ts[i := t][..n] == ts[..n];
    }
  }

  lemma WorkersLeftAppend(ts: seq<Task>, t: Task)
    ensures WorkersLeft(ts + [t]) == WorkersLeft(ts) + Left(t.worker)
  {
    assert (ts + [t])[..|ts|] == ts;
  }

  /** There are no more tasks than `wg_go` commands. */
  lemma {:induction false} GoArgsBound(prog: seq<Cmd>)
    ensures |GoArgs(prog)| <= |prog|
  {
    if prog != [] {
      GoArgsBound(prog[..|prog| - 1]);
    }
  }

  lemma CountBound(s: State)
    requires InvArgs(s) && InvTable(s)
    ensures s.group.count <= |s.prog|
    ensures InWait(s.owner) || InDestroy(s.owner) ==> s.group.count < |s.prog|
  {
    GoArgsBound(Issued(s));
    hide GoArgs;
  }

  lemma MeasureNonNegative(s: State)
    requires InvArgs(s) && InvTable(s)
    ensures Measure(s) >= 0
  {
    CountBound(s);
    hide GoArgs, WorkersLeft;
    var k := |s.prog| - s.pc - (if s.owner == Idle then 0 else 1);
    TimesNonNegative(k, PerCommand(|s.prog|));
    assert OwnerLeft(s.owner, |s.prog|) >= 0;
  }

  lemma TimesNonNegative(a: nat, b: nat)
    ensures a * b >= 0
  {
  }

  // ---------- Every step but a spurious wakeup makes the measure smaller ----------

  /** A step of a worker takes more from it than it can give to an owner that it wakes. */
  lemma MoveDrops(s: State, s': State, i: nat, runner: Runner)
    requires Moved(s, s', i, runner)
    ensures s'.prog == s.prog && s'.pc == s.pc && (s'.owner == Idle <==> s.owner == Idle)
    ensures var n := |s.prog|;
            Left(s'.tasks[i].worker) + OwnerLeft(s'.owner, n) < Left(s.tasks[i].worker) + OwnerLeft(s.owner, n)
  {
    if s'.owner != s.owner {
      assert s.owner.Blocked? && s'.owner.WaitLock? && s.tasks[i].worker.Broadcasting?;
    }
    hide OwnerLeft;
    if s'.owner != s.owner {
      WakeLeft(|s.prog|);
    }
  }

  lemma WakeLeft(n: nat)
    ensures OwnerLeft(WaitLock, n) == OwnerLeft(Blocked, n) + 2
  {
  }

  lemma WorkerDrops(s: State, i: nat, runner: Runner)
    requires WorkerStep(s, i, runner).Some?
    ensures Measure(WorkerStep(s, i, runner).value) < Measure(s)
  {
    WorkerMoves(s, i, runner);
    var s' := WorkerStep(s, i, runner).value;
    assert i < |s.tasks| && s'.tasks == s.tasks[i := s'.tasks[i]];
    MoveDrops(s, s', i, runner);
    hide WorkerStep, Moved, WorkersLeft, OwnerLeft, Left, Measure;
    WorkersLeftUpdate(s.tasks, i, s'.tasks[i]);
    SameFactor(s, s');
  }

  /** States at the same place of the same program compare by what is left in the command. */
  lemma SameFactor(s: State, s': State)
    requires s'.prog == s.prog && s'.pc == s.pc && (s'.owner == Idle <==> s.owner == Idle)
    ensures Measure(s') - Measure(s) == OwnerLeft(s'.owner, |s.prog|) - OwnerLeft(s.owner, |s.prog|)
                                        + WorkersLeft(s'.tasks) - WorkersLeft(s.tasks)
  {
    hide WorkersLeft, OwnerLeft, PerCommand;
  }

  /** The owner starts one thread where `pthread_create` succeeds, and no step of its own runs a thread. */
  lemma OwnerKeepsWorkers(s: State)
    requires OwnerStep(s).Some? && (s.owner.GoCreate? && s.tasks != [] ==> s.tasks[|s.tasks| - 1].worker.Absent?)
    ensures WorkersLeft(OwnerStep(s).value.tasks) == WorkersLeft(s.tasks) + (if s.owner.GoCreate? then 9 else 0)
  {
    OwnerTasks(s);
    hide OwnerStep, WorkersLeft, LastAfter;
    if s.owner.Idle? {
      if s.prog[s.pc].Go? {
        WorkersLeftAppend(s.tasks, NewTask(s.prog[s.pc].args));
      }
    } else if AtLast(s.owner) {
      LastKeepsWorkers(s);
    } else {
      SameWorkers(s.tasks, OwnerStep(s).value.tasks);
    }
  }

  lemma LastKeepsWorkers(s: State)
    requires AtLast(s.owner) && s.tasks != [] && (s.owner.GoCreate? ==> s.tasks[|s.tasks| - 1].worker.Absent?)
    ensures var last := |s.tasks| - 1;
            var ts' := s.tasks[last := LastAfter(s, s.tasks[last])];
            WorkersLeft(ts') == WorkersLeft(s.tasks) + (if s.owner.GoCreate? then 9 else 0)
  {
    var last := |s.tasks| - 1;
    WorkersLeftUpdate(s.tasks, last, LastAfter(s, s.tasks[last]));
    hide WorkersLeft;
  }

  lemma {:induction false} SameWorkers(ts: seq<Task>, ts': seq<Task>)
    requires |ts| == |ts'| && forall i | 0 <= i < |ts| :: ts'[i].worker == ts[i].worker
    ensures WorkersLeft(ts') == WorkersLeft(ts)
  {
    if ts != [] {
      SameWorkers(ts[..|ts| - 1], ts'[..|ts| - 1]);
    }
  }

  /** Inside a command the owner's own part drops, by more than a new thread costs. */
  lemma OwnerLeftDrops(s: State)
    requires OwnerStep(s).Some? && s.owner != Idle && OwnerStep(s).value.owner != Idle && s.group.count <= |s.prog|
    requires s.owner.FreeJoin? ==> s.owner.i <= s.group.count
    ensures var n := |s.prog|;
            OwnerLeft(OwnerStep(s).value.owner, n) + (if s.owner.GoCreate? then 9 else 0) < OwnerLeft(s.owner, n)
    ensures OwnerStep(s).value.prog == s.prog && OwnerStep(s).value.pc == s.pc
  {
    if InGo(s.owner) {
      GoLeftDrops(s);
    } else if (s.owner.WaitJoin? || s.owner.FreeJoin?) && s.owner.i < s.group.count {
      JoinIsStep(s);
      JoinWork(s, s.owner.i, s.owner.WaitJoin?, AfterJoin(s.owner));
      hide OwnerStep, Join;
    } else {
      RestLeftDrops(s);
    }
  }

  lemma GoLeftDrops(s: State)
    requires OwnerStep(s).Some? && InGo(s.owner) && OwnerStep(s).value.owner != Idle
    ensures var n := |s.prog|;
            OwnerLeft(OwnerStep(s).value.owner, n) + (if s.owner.GoCreate? then 9 else 0) < OwnerLeft(s.owner, n)
    ensures OwnerStep(s).value.prog == s.prog && OwnerStep(s).value.pc == s.pc
  {
    hide Grown, Stored, Counted;
  }

  lemma RestLeftDrops(s: State)
    requires OwnerStep(s).Some? && !InGo(s.owner) && s.owner != Idle && OwnerStep(s).value.owner != Idle
    requires s.group.count <= |s.prog|
    requires s.owner.WaitJoin? || s.owner.FreeJoin? ==> s.owner.i >= s.group.count
    requires s.owner.FreeJoin? ==> s.owner.i <= s.group.count
    ensures OwnerLeft(OwnerStep(s).value.owner, |s.prog|) < OwnerLeft(s.owner, |s.prog|)
    ensures OwnerStep(s).value.prog == s.prog && OwnerStep(s).value.pc == s.pc
  {
    if InWait(s.owner) {
      WaitShape(s);
    } else {
      DestroyShape(s);
    }
    hide OwnerStep;
  }

  lemma WaitShape(s: State)
    requires InWait(s.owner) && OwnerStep(s).Some? && (s.owner.WaitJoin? ==> s.owner.i >= s.group.count)
    ensures var s' := OwnerStep(s).value;
            && s'.prog == s.prog && s'.pc == (if s.owner.WaitJoin? then s.pc + 1 else s.pc)
            && match s.owner
               case WaitLock => s'.owner == WaitTest
               case WaitTest => s'.owner == Blocked || s'.owner == WaitUnlock
               case WaitUnlock => s'.owner == WaitJoin(0)
               case _ => s'.owner == Idle
  {
  }

  lemma DestroyShape(s: State)
    requires InDestroy(s.owner) && OwnerStep(s).Some? && (s.owner.FreeJoin? ==> s.owner.i >= s.group.count)
    ensures var s' := OwnerStep(s).value;
            && s'.prog == s.prog && s'.pc == (if s.owner.FreeGroup? then s.pc + 1 else s.pc)
            && match s.owner
               case FreeJoin(_) => s'.owner == FreeTable
               case FreeTask(i) => s'.owner == FreeJoin(i + 1)
               case FreeTable => s'.owner == FreeLock
               case FreeLock => s'.owner == FreeGroup
               case _ => s'.owner == Idle
  {
  }

  /** Beginning a command costs less than the command's allowance. */
  lemma BeginDrops(s: State)
    requires OwnerStep(s).Some? && s.owner == Idle
    ensures Measure(OwnerStep(s).value) < Measure(s)
  {
    var s', n := OwnerStep(s).value, |s.prog|;
    BeginShape(s);
    OwnerKeepsWorkers(s);
    hide OwnerStep, WorkersLeft;
    BeginLeft(s'.owner, n);
    hide OwnerLeft, PerCommand;
    var k := n - s.pc - 1;
    OneCommandLess(k, PerCommand(n));
  }

  lemma BeginLeft(o: Owner, n: nat)
    requires o == GoLock || o == WaitLock || o == FreeJoin(0)
    ensures 0 <= OwnerLeft(o, n) < PerCommand(n) && OwnerLeft(Idle, n) == 0
  {
  }

  lemma OneCommandLess(k: int, c: int)
    ensures (k + 1) * c == k * c + c
  {
  }

  /** What ends a command. */
  lemma EndShape(s: State)
    requires OwnerStep(s).Some? && s.owner != Idle && OwnerStep(s).value.owner == Idle
    ensures OwnerStep(s).value.pc == s.pc + 1 && OwnerStep(s).value.prog == s.prog && !s.owner.GoCreate?
  {
    hide Grown, Stored, Counted, Join;
    if (s.owner.WaitJoin? || s.owner.FreeJoin?) && s.owner.i < s.group.count {
      JoinIsStep(s);
      JoinWork(s, s.owner.i, s.owner.WaitJoin?, AfterJoin(s.owner));
    }
  }

  /** A command that ends had something left. */
  lemma EndDrops(s: State)
    requires OwnerStep(s).Some? && s.owner != Idle && OwnerStep(s).value.owner == Idle && s.group.count <= |s.prog|
    requires s.owner.WaitJoin? ==> s.owner.i <= s.group.count
    ensures Measure(OwnerStep(s).value) < Measure(s)
  {
    EndShape(s);
    var s', n := OwnerStep(s).value, |s.prog|;
    hide OwnerStep;
    OwnerKeepsWorkers(s);
    assert OwnerLeft(s.owner, n) > 0 && OwnerLeft(s'.owner, n) == 0;
    hide OwnerStep, WorkersLeft, OwnerLeft, PerCommand;
  }

  lemma OwnerDrops(s: State, runner: Runner)
    requires Inv(s, runner) && OwnerStep(s).Some?
    ensures Measure(OwnerStep(s).value) < Measure(s)
  {
    var s' := OwnerStep(s).value;
    CountBound(s);
    if s.owner == Idle {
      BeginDrops(s);
    } else if s'.owner == Idle {
      EndDrops(s);
    } else {
      OwnerKeepsWorkers(s);
      OwnerLeftDrops(s);
      SameFactor(s, s');
      hide Measure, OwnerStep, Inv;
    }
  }

  lemma FailDrops(s: State)
    requires CreateFails(s).Some?
    ensures Measure(CreateFails(s).value) < Measure(s)
  {
    hide WorkersLeft;
    SameFactor(s, CreateFails(s).value);
  }

  lemma WakeCosts(s: State)
    requires WakeUp(s).Some?
    ensures Measure(WakeUp(s).value) == Measure(s) + 2
  {
    hide WorkersLeft;
    SameFactor(s, WakeUp(s).value);
  }

  /** How many spurious wakeups a run has. */
  function Wakes(actions: seq<Action>): nat {
    if actions == [] then 0 else Wakes(actions[..|actions| - 1]) + (if actions[|actions| - 1].Wake? then 1 else 0)
  }

  lemma StepMeasure(s: State, a: Action, runner: Runner)
    requires Inv(s, runner) && Next(s, a, runner).Some?
    ensures Measure(Next(s, a, runner).value) <= Measure(s) + (if a.Wake? then 2 else -1)
  {
    hide Measure, Inv, OwnerStep, WorkerStep, CreateFails, WakeUp;
    match a {
      case Own => OwnerDrops(s, runner);
      case Fail => FailDrops(s);
      case Wake => WakeCosts(s);
      case Work(i) => WorkerDrops(s, i, runner);
    }
  }

  /** A run of n commands with w spurious wakeups has at most n * (2 * n + 40) + 3 * w steps. */
  lemma {:induction false} RunIsBounded(prog: seq<Cmd>, actions: seq<Action>, runner: Runner)
    requires WellFormed(prog) && Run(Initial(prog), actions, runner).Some?
    ensures |actions| + Measure(Run(Initial(prog), actions, runner).value)
         <= |prog| * (2 * |prog| + 40) + 3 * Wakes(actions)
    decreases |actions|
  {
    if actions == [] {
      assert Measure(Initial(prog)) == |prog| * PerCommand(|prog|);
    } else {
      var n := |actions| - 1;
      RunIsBounded(prog, actions[..n], runner);
      RunKeepsInv(prog, actions[..n], runner);
      StepMeasure(Run(Initial(prog), actions[..n], runner).value, actions[n], runner);
      hide Measure, Inv, Next, Initial;
    }
  }

  /**
   So, if the runners return, every program comes to its end: a run is finite but for spurious wakeups, and a run that
   cannot go on without one has finished the program.
   */
  lemma EveryProgramFinishes(prog: seq<Cmd>, actions: seq<Action>, runner: Runner)
    requires WellFormed(prog) && Run(Initial(prog), actions, runner).Some?
    ensures |actions| <= |prog| * (2 * |prog| + 40) + 3 * Wakes(actions)
    ensures var s := Run(Initial(prog), actions, runner).value;
            Finished(s) || OwnerStep(s).Some? || exists j: nat :: WorkerStep(s, j, runner).Some?
  {
    RunKeepsInv(prog, actions, runner);
    RunIsBounded(prog, actions, runner);
    var s := Run(Initial(prog), actions, runner).value;
    MeasureNonNegative(s);
    if !Finished(s) {
      NoDeadlock(s, runner);
    }
  }
}
