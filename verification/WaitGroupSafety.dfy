/** What the wait group promises in every run: results as if the tasks had run one after the other, and safe lifetimes. */
module WaitGroupSafety {
  import opened Wrappers
  import opened Values
  import opened WaitGroup
  import opened WaitGroupContext
  import opened WaitGroupInvariant
  import opened WaitGroupSteps

  // ---------- Sequential execution ----------

  /** Running the calls one after the other; a call whose thread could not be created leaves nothing. */
  function Sequential(calls: seq<Value>, created: seq<bool>, runner: Runner): seq<Option<Outcome>>
    requires |calls| == |created|
  {
    if calls == [] then []
    else
      var last := |calls| - 1;
      Sequential(calls[..last], created[..last], runner) + [if created[last] then Some(runner(calls[last])) else None]
  }

  lemma {:induction false} SequentialAt(calls: seq<Value>, created: seq<bool>, runner: Runner, i: nat)
    requires |calls| == |created| && i < |calls|
    ensures |Sequential(calls, created, runner)| == |calls|
    ensures Sequential(calls, created, runner)[i] == if created[i] then Some(runner(calls[i])) else None
    decreases |calls|
  {
    var last := |calls| - 1;
    SequentialSize(calls, created, runner);
    SequentialSize(calls[..last], created[..last], runner);
    if i < last {
      SequentialAt(calls[..last], created[..last], runner, i);
    }
  }

  lemma {:induction false} SequentialSize(calls: seq<Value>, created: seq<bool>, runner: Runner)
    requires |calls| == |created|
    ensures |Sequential(calls, created, runner)| == |calls|
  {
    if calls != [] {
      var last := |calls| - 1;
      SequentialSize(calls[..last], created[..last], runner);
    }
  }

  /** Which calls got a thread. */
  function Created(s: State): seq<bool> {
    seq(|s.tasks|, i requires 0 <= i < |s.tasks| => !s.tasks[i].worker.Absent?)
  }

  /** What the slots hold. */
  function Results(s: State): seq<Option<Outcome>> {
    seq(|s.tasks|, i requires 0 <= i < |s.tasks| => s.tasks[i].outcome)
  }

  /** `wg_wait` is about to return. */
  predicate WaitReturns(s: State) {
    s.owner == WaitJoin(s.group.count)
  }

  /** Nothing is pending, so every worker has passed its countdown. */
  lemma AllSignalled(s: State, i: nat, runner: Runner)
    requires InvCount(s) && InvWaited(s) && (s.owner.WaitUnlock? || s.owner.WaitJoin?) && i < |s.tasks|
    ensures !Pending(s.tasks[i])
  {
    PendingNone(s.tasks, i);
  }

  /**
   The wait loop is left only when every runner that got a thread has returned: it ran once, on the arguments of its own
   call, and its outcome is stored.
   */
  lemma WaitLoopExit(prog: seq<Cmd>, actions: seq<Action>, i: nat, runner: Runner)
    requires WellFormed(prog) && Run(Initial(prog), actions, runner).Some?
    requires var s := Run(Initial(prog), actions, runner).value;
             s.owner.WaitUnlock? && i < |s.tasks| && !s.tasks[i].worker.Absent?
    ensures var s := Run(Initial(prog), actions, runner).value;
            s.group.remaining == 0 && s.tasks[i].runs == 1 && s.tasks[i].outcome == Some(runner(s.tasks[i].args))
  {
    RunKeepsInv(prog, actions, runner);
    var s := Run(Initial(prog), actions, runner).value;
    hide Run;
    AllSignalled(s, i, runner);
    assert TaskOk(s.tasks[i], runner, false);
  }

  /**
   When `wg_wait` returns, whatever the interleaving was, every thread that was created ran its task once, has ended and
   was joined; slot i belongs to the i-th `wg_go` call; and the slots hold what running the calls in order leaves.
   */
  lemma WaitRefinesSequential(prog: seq<Cmd>, actions: seq<Action>, runner: Runner)
    requires WellFormed(prog) && Run(Initial(prog), actions, runner).Some?
    requires WaitReturns(Run(Initial(prog), actions, runner).value)
    ensures var s := Run(Initial(prog), actions, runner).value;
            && s.group.remaining == 0 && s.pc <= |s.prog|
            && |s.tasks| == s.group.count == |GoArgs(s.prog[..s.pc])| <= |s.group.table|
            && (forall i | 0 <= i < s.group.count :: s.group.table[i] == Some(i))
            && (forall i | 0 <= i < |s.tasks| && !s.tasks[i].worker.Absent? ::
                  s.tasks[i].worker.Exited? && s.tasks[i].runs == 1 && s.tasks[i].joins == 1)
            && Results(s) == Sequential(GoArgs(s.prog[..s.pc]), Created(s), runner)
  {
    RunKeepsInv(prog, actions, runner);
    WaitStateIsSequential(Run(Initial(prog), actions, runner).value, runner);
  }

  lemma WaitStateIsSequential(s: State, runner: Runner)
    requires Inv(s, runner) && WaitReturns(s)
    ensures s.group.remaining == 0 && s.pc <= |s.prog|
    ensures |s.tasks| == s.group.count == |GoArgs(s.prog[..s.pc])| <= |s.group.table|
    ensures forall i | 0 <= i < s.group.count :: s.group.table[i] == Some(i)
    ensures forall i | 0 <= i < |s.tasks| && !s.tasks[i].worker.Absent? ::
              s.tasks[i].worker.Exited? && s.tasks[i].runs == 1 && s.tasks[i].joins == 1
    ensures Results(s) == Sequential(GoArgs(s.prog[..s.pc]), Created(s), runner)
  {
    hide GoArgs, Sequential, PendingCount;
    var calls, created := GoArgs(s.prog[..s.pc]), Created(s);
    SequentialSize(calls, created, runner);
    forall i | 0 <= i < |s.tasks|
      ensures Results(s)[i] == Sequential(calls, created, runner)[i]
      ensures !s.tasks[i].worker.Absent? ==> s.tasks[i].worker.Exited? && s.tasks[i].runs == 1 && s.tasks[i].joins == 1
    {
      assert TaskOk(s.tasks[i], runner, false);
      AllSignalled(s, i, runner);
      SequentialAt(calls, created, runner, i);
    }
  }

  // ---------- Slots ----------

  /** No slot has moved. */
  ghost predicate TableStable(g: Group<nat>, g': Group<nat>) {
    && g.count <= g'.count && |g.table| <= |g'.table|
    && forall i | 0 <= i < g.count && i < |g.table| :: g'.table[i] == g.table[i]
  }

  /** No task has changed its arguments, run backwards, or lost what it produced. */
  ghost predicate TasksStable(ts: seq<Task>, ts': seq<Task>) {
    && |ts| <= |ts'|
    && forall i | 0 <= i < |ts| ::
         && ts'[i].args == ts[i].args && ts'[i].runs >= ts[i].runs
         && (ts[i].outcome.Some? && ts[i].runs == ts'[i].runs ==> ts'[i].outcome == ts[i].outcome)
  }

  ghost predicate Stable(s: State, s': State) {
    TableStable(s.group, s'.group) && TasksStable(s.tasks, s'.tasks)
  }

  lemma ChangeIsStable(s: State)
    requires ChangesGroup(s.owner) && OwnerStep(s).Some?
    ensures TableStable(s.group, OwnerStep(s).value.group)
  {
  }

  lemma OwnerTableStable(s: State)
    requires OwnerStep(s).Some?
    ensures TableStable(s.group, OwnerStep(s).value.group)
  {
    hide OwnerStep;
    if ChangesGroup(s.owner) {
      ChangeIsStable(s);
    } else {
      OwnerGroup(s);
    }
  }

  /** The owner neither runs a task nor touches its arguments or its outcome. */
  lemma OwnerTasksStable(s: State)
    requires OwnerStep(s).Some?
    ensures TasksStable(s.tasks, OwnerStep(s).value.tasks)
  {
    OwnerTasks(s);
    hide OwnerStep, LastAfter;
    var ts' := OwnerStep(s).value.tasks;
    if AtLast(s.owner) && !s.owner.Idle? {
      LastKeeps(s, s.tasks[|s.tasks| - 1]);
    }
    forall i | 0 <= i < |s.tasks|
      ensures ts'[i].args == s.tasks[i].args && ts'[i].runs == s.tasks[i].runs && ts'[i].outcome == s.tasks[i].outcome
    {
      if !s.owner.Idle? && !AtLast(s.owner) {
        assert SameWork(s.tasks[i], ts'[i]);
      }
    }
  }

  lemma LastKeeps(s: State, t: Task)
    ensures var t' := LastAfter(s, t); t'.args == t.args && t'.runs == t.runs && t'.outcome == t.outcome
  {
  }

  /** Growing the table moves no slot, and no step takes back what a task has or what a slot holds. */
  lemma StepIsStable(s: State, a: Action, runner: Runner)
    requires Next(s, a, runner).Some?
    ensures Stable(s, Next(s, a, runner).value)
  {
    match a {
      case Own =>
        OwnerTableStable(s);
        OwnerTasksStable(s);
        hide OwnerStep, TableStable, TasksStable;
      case Work(i) =>
        WorkerMoves(s, i, runner);
        hide WorkerStep;
      case _ =>
    }
  }

  lemma {:induction false} RunIsStable(s: State, actions: seq<Action>, runner: Runner)
    requires Run(s, actions, runner).Some?
    ensures Stable(s, Run(s, actions, runner).value)
    decreases |actions|
  {
    if actions != [] {
      var n := |actions| - 1;
      RunIsStable(s, actions[..n], runner);
      StepIsStable(Run(s, actions[..n], runner).value, actions[n], runner);
      hide Next;
    }
  }

  lemma {:induction false} RunKeepsInvFrom(s: State, actions: seq<Action>, runner: Runner)
    requires Inv(s, runner) && Run(s, actions, runner).Some?
    ensures Inv(Run(s, actions, runner).value, runner)
    decreases |actions|
  {
    if actions != [] {
      var n := |actions| - 1;
      RunKeepsInvFrom(s, actions[..n], runner);
      StepKeepsInv(Run(s, actions[..n], runner).value, actions[n], runner);
    }
    hide Inv, Next;
  }

  /** From any reachable state on: what a task has produced, its arguments and its slot stay for good. */
  lemma OutcomesStay(prog: seq<Cmd>, before: seq<Action>, after: seq<Action>, i: nat, runner: Runner)
    requires WellFormed(prog) && Run(Initial(prog), before, runner).Some?
    requires var s := Run(Initial(prog), before, runner).value;
             Run(s, after, runner).Some? && i < |s.tasks| && s.tasks[i].outcome.Some?
    ensures var s := Run(Initial(prog), before, runner).value;
            var s' := Run(s, after, runner).value;
            && i < |s'.tasks| && s'.tasks[i].outcome == s.tasks[i].outcome && s'.tasks[i].args == s.tasks[i].args
            && (i < s.group.count ==> i < |s'.group.table| && s'.group.table[i] == Some(i))
  {
    RunKeepsInv(prog, before, runner);
    var s := Run(Initial(prog), before, runner).value;
    RunKeepsInvFrom(s, after, runner);
    RunIsStable(s, after, runner);
    var s' := Run(s, after, runner).value;
    hide Run;
    assert TaskOk(s.tasks[i], runner, Marking(s, i)) && TaskOk(s'.tasks[i], runner, Marking(s', i));
  }

  // ---------- Mutual exclusion ----------

  function ThreadOf(a: Action): Holder {
    match a
    case Work(i) => Thread(i)
    case _ => Main
  }

  /** Only the thread that holds the mutex changes the counter or the table. */
  lemma GuardedByLock(s: State, a: Action, runner: Runner)
    requires Inv(s, runner) && Next(s, a, runner).Some? && Next(s, a, runner).value.group != s.group
    ensures s.lock == ThreadOf(a)
  {
    hide OwnerStep, WorkerStep, InvArgs, InvTable, InvCount, InvTasks, InvBlocked, InvWaited, InvLive, WellFormed;
    match a {
      case Own => OwnerGuarded(s);
      case Work(i) => WorkerGuarded(s, i, runner);
      case _ =>
    }
  }

  lemma OwnerGuarded(s: State)
    requires InvLock(s) && OwnerStep(s).Some? && OwnerStep(s).value.group != s.group
    ensures s.lock == Main
  {
    hide OwnerStep;
    if !ChangesGroup(s.owner) {
      OwnerGroup(s);
    }
  }

  lemma WorkerGuarded(s: State, i: nat, runner: Runner)
    requires InvLock(s) && WorkerStep(s, i, runner).Some? && WorkerStep(s, i, runner).value.group != s.group
    ensures s.lock == Thread(i)
  {
    WorkerMoves(s, i, runner);
    hide WorkerStep;
  }

  // ---------- Lifetimes ----------

  /** `TheLock` stands for the mutex and its condition variable, which live and die together. */
  datatype Resource = TheGroup | TheLock | TheTable | TheTask(i: nat) | TheContext(i: nat)

  predicate IsLive(s: State, r: Resource) {
    match r
    case TheGroup => s.groupLive
    case TheLock => s.lockLive
    case TheTable => s.tableLive
    case TheTask(i) => i < |s.tasks| && s.tasks[i].live
    case TheContext(i) => i < |s.tasks| && s.tasks[i].context
  }

  /** The task of the current `wg_go`. */
  function Current(s: State): set<Resource> {
    if s.tasks == [] then {} else {TheTask(|s.tasks| - 1)}
  }

  /** The memory that the next step of the owner reads, writes or frees. */
  function OwnerTouches(s: State): set<Resource> {
    match s.owner
    case Idle => {}
    case GoLock => {TheGroup, TheLock}
    case GoGrow => {TheGroup, TheTable}
    case GoStore => {TheGroup, TheTable} + Current(s)
    case GoCount => {TheGroup}
    case GoUnlock => {TheGroup, TheLock}
    case GoContext => {}
    case GoCreate => {TheGroup} + Current(s)
    case GoMark => Current(s)
    case GoFailFree => if s.tasks == [] then {} else {TheContext(|s.tasks| - 1)}
    case GoFailLock => {TheGroup, TheLock}
    case GoFailCount => {TheGroup}
    case GoFailUnlock => {TheGroup, TheLock}
    case GoFailMark => Current(s)
    case WaitLock => {TheGroup, TheLock}
    case WaitTest => {TheGroup, TheLock}
    case Blocked => {TheGroup, TheLock}
    case WaitUnlock => {TheGroup, TheLock}
    case WaitJoin(i) => if i < s.group.count then {TheGroup, TheTable, TheTask(i)} else {TheGroup}
    case FreeJoin(i) => if i < s.group.count then {TheGroup, TheTable, TheTask(i)} else {TheGroup}
    case FreeTask(i) => {TheTask(i)}
    case FreeTable => {TheGroup, TheTable}
    case FreeLock => {TheGroup, TheLock}
    case FreeGroup => {TheGroup}
  }

  function WorkerTouches(s: State, i: nat): set<Resource> {
    if i >= |s.tasks| then {}
    else match s.tasks[i].worker
      case Starting => {TheContext(i)}
      case Running => {TheGroup, TheTask(i)}
      case WantsLock => {TheGroup, TheLock}
      case Counting => {TheGroup}
      case Broadcasting => {TheGroup, TheLock}
      case Unlocking => {TheGroup, TheLock}
      case _ => {}
  }

  function Touches(s: State, a: Action): set<Resource> {
    match a
    case Work(i) => WorkerTouches(s, i)
    case _ => OwnerTouches(s)
  }

  /** While a worker has work left nothing of the group is freed. */
  lemma WorkerKeepsAlive(s: State, i: nat, runner: Runner)
    requires Inv(s, runner) && i < |s.tasks| && !s.tasks[i].worker.Absent? && !s.tasks[i].worker.Exited?
    ensures s.groupLive && s.lockLive && s.tableLive && s.tasks[i].live
  {
    assert TaskOk(s.tasks[i], runner, Marking(s, i));
  }

  lemma OwnerUsesLiveMemory(s: State, r: Resource, runner: Runner)
    requires Inv(s, runner) && InvContext(s) && !Finished(s) && r in OwnerTouches(s)
    ensures IsLive(s, r)
  {
    assert !Destroyed(s) by {
      if s.owner == Idle {
        NotDestroyed(s);
      }
    }
    if s.owner.GoFailFree? && s.tasks != [] {
      assert ContextOk(s.tasks[|s.tasks| - 1], Holding);
    }
    hide InvArgs, InvLock, InvCount, InvTasks, InvBlocked, InvWaited, InvContext, WellFormed, Destroyed, ContextOk;
  }

  lemma WorkerUsesLiveMemory(s: State, i: nat, r: Resource, runner: Runner)
    requires Inv(s, runner) && InvContext(s) && r in WorkerTouches(s, i)
    ensures IsLive(s, r)
  {
    if i < |s.tasks| {
      assert ContextOk(s.tasks[i], TaskPhase(s, i));
      hide Inv, InvContext, TaskPhase;
      if !s.tasks[i].worker.Absent? && !s.tasks[i].worker.Exited? {
        WorkerKeepsAlive(s, i, runner);
      }
    }
  }

  /** No step of any thread reads, writes or frees memory that has been freed, with or without a wait before. */
  lemma UsesLiveMemory(prog: seq<Cmd>, actions: seq<Action>, a: Action, r: Resource, runner: Runner)
    requires WellFormed(prog) && Run(Initial(prog), actions, runner).Some?
    requires var s := Run(Initial(prog), actions, runner).value; Next(s, a, runner).Some? && r in Touches(s, a)
    ensures IsLive(Run(Initial(prog), actions, runner).value, r)
  {
    RunKeepsInv(prog, actions, runner);
    RunKeepsContext(prog, actions, runner);
    var s := Run(Initial(prog), actions, runner).value;
    hide Run, Inv, InvContext, OwnerTouches, WorkerTouches, IsLive;
    if a.Work? {
      WorkerUsesLiveMemory(s, a.i, r, runner);
    } else {
      StepMeansUnfinished(s, a, runner);
      OwnerUsesLiveMemory(s, r, runner);
    }
  }

  lemma StepMeansUnfinished(s: State, a: Action, runner: Runner)
    requires !a.Work? && Next(s, a, runner).Some?
    ensures !Finished(s)
  {
  }

  /** The mutex is destroyed while nobody holds it, and nobody waits for it or for the condition. */
  lemma LockDestroyedUnheld(prog: seq<Cmd>, actions: seq<Action>, runner: Runner)
    requires WellFormed(prog) && Run(Initial(prog), actions, runner).Some?
    requires Run(Initial(prog), actions, runner).value.owner.FreeLock?
    ensures var s := Run(Initial(prog), actions, runner).value;
            && s.lock == Nobody
            && forall i | 0 <= i < |s.tasks| :: s.tasks[i].worker.Absent? || s.tasks[i].worker.Exited?
  {
    RunKeepsInv(prog, actions, runner);
    var s := Run(Initial(prog), actions, runner).value;
    hide Run;
    forall i | 0 <= i < |s.tasks|
      ensures s.tasks[i].worker.Absent? || s.tasks[i].worker.Exited?
    {
      assert !s.tasks[i].live;
      assert TaskOk(s.tasks[i], runner, false);
    }
  }

  /** No thread is ever joined twice; when the group has been destroyed every thread has been joined. */
  lemma JoinedOnce(prog: seq<Cmd>, actions: seq<Action>, i: nat, runner: Runner)
    requires WellFormed(prog) && Run(Initial(prog), actions, runner).Some?
    requires i < |Run(Initial(prog), actions, runner).value.tasks|
    ensures var s := Run(Initial(prog), actions, runner).value;
            && s.tasks[i].joins <= 1 && (s.tasks[i].worker.Absent? ==> s.tasks[i].joins == 0)
            && (!s.groupLive && !s.tasks[i].worker.Absent? ==> s.tasks[i].joins == 1 && s.tasks[i].runs == 1)
  {
    RunKeepsInv(prog, actions, runner);
    var s := Run(Initial(prog), actions, runner).value;
    assert TaskOk(s.tasks[i], runner, Marking(s, i));
  }

  /** The counter is never negative: it counts the registered tasks that have neither signalled nor been rolled back. */
  lemma RemainingCounts(prog: seq<Cmd>, actions: seq<Action>, runner: Runner)
    requires WellFormed(prog) && Run(Initial(prog), actions, runner).Some?
    ensures var s := Run(Initial(prog), actions, runner).value;
            s.group.remaining == PendingCount(s.tasks) + (if OwnerPending(s.owner) then 1 else 0) >= 0
  {
    RunKeepsInv(prog, actions, runner);
  }
}
