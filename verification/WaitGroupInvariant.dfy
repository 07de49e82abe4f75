/** What every step of the wait group keeps, and so every reachable state has. */
module WaitGroupInvariant {
  import opened Wrappers
  import opened WaitGroup
  import opened WaitGroupSteps

  // ---------- The parts of the invariant ----------

  predicate InGo(o: Owner) {
    o.GoLock? || o.GoGrow? || o.GoStore? || o.GoCount? || o.GoUnlock? || o.GoContext? || o.GoCreate?
    || o.GoMark? || o.GoFailFree? || o.GoFailLock? || o.GoFailCount? || o.GoFailUnlock? || o.GoFailMark?
  }

  predicate InWait(o: Owner) {
    o.WaitLock? || o.WaitTest? || o.Blocked? || o.WaitUnlock? || o.WaitJoin?
  }

  predicate InDestroy(o: Owner) {
    o.FreeJoin? || o.FreeTask? || o.FreeTable? || o.FreeLock? || o.FreeGroup?
  }

  /** Between allocating the task and storing it in the table. */
  predicate BeforeStore(o: Owner) {
    o.GoLock? || o.GoGrow? || o.GoStore?
  }

  /** The owner is where its program says. */
  predicate InvProgram(s: State) {
    && s.pc <= |s.prog|
    && (s.owner != Idle ==> s.pc < |s.prog|)
    && (InGo(s.owner) ==> s.prog[s.pc].Go?)
    && (InWait(s.owner) ==> s.prog[s.pc].Wait?)
    && (InDestroy(s.owner) ==> s.prog[s.pc].Destroy?)
  }

  /** The tasks of the commands so far. */
  function Issued(s: State): seq<Cmd>
    requires InvProgram(s)
  {
    if InGo(s.owner) then s.prog[..s.pc + 1] else s.prog[..s.pc]
  }

  ghost predicate InvArgs(s: State) {
    && InvProgram(s)
    && |s.tasks| == |GoArgs(Issued(s))|
    && forall i | 0 <= i < |s.tasks| :: s.tasks[i].args == GoArgs(Issued(s))[i]
  }

  /** Slot i of the table holds task i. */
  ghost predicate InvTable(s: State) {
    && |s.tasks| == s.group.count + (if BeforeStore(s.owner) then 1 else 0)
    && s.group.count <= |s.group.table|
    && (s.owner.GoStore? ==> s.group.count < |s.group.table|)
    && (InGo(s.owner) ==> s.tasks != [])
    && (s.owner.WaitJoin? ==> s.owner.i <= s.group.count)
    && (s.owner.FreeJoin? ==> s.owner.i <= s.group.count)
    && (s.owner.FreeTask? ==> s.owner.i < s.group.count)
    && forall i | 0 <= i < s.group.count :: s.group.table[i] == Some(i) && s.tasks[i].slot == i
  }

  predicate OwnerHolds(o: Owner) {
    o.GoGrow? || o.GoStore? || o.GoCount? || o.GoUnlock? || o.GoFailCount? || o.GoFailUnlock?
    || o.WaitTest? || o.WaitUnlock?
  }

  predicate WorkerHolds(w: Worker) {
    w.Counting? || w.Broadcasting? || w.Unlocking?
  }

  /** The mutex is held by exactly the thread that is between its lock and its unlock. */
  ghost predicate InvLock(s: State) {
    && (s.lock == Main <==> OwnerHolds(s.owner))
    && (s.lock.Thread? ==> s.lock.i < |s.tasks|)
    && forall i | 0 <= i < |s.tasks| :: WorkerHolds(s.tasks[i].worker) <==> s.lock == Thread(i)
  }

  /** A worker that exists and has not yet counted itself down. */
  predicate Pending(t: Task) {
    t.worker.Starting? || t.worker.Running? || t.worker.WantsLock? || t.worker.Counting?
  }

  function PendingCount(ts: seq<Task>): nat {
    if ts == [] then 0 else PendingCount(ts[..|ts| - 1]) + (if Pending(ts[|ts| - 1]) then 1 else 0)
  }

  /** The owner has counted a task up whose thread it has neither created nor rolled back. */
  predicate OwnerPending(o: Owner) {
    o.GoUnlock? || o.GoContext? || o.GoCreate? || o.GoFailFree? || o.GoFailLock? || o.GoFailCount?
  }

  /** `remaining` is the number of registered tasks that have neither signalled nor been rolled back. */
  ghost predicate InvCount(s: State) {
    s.group.remaining == PendingCount(s.tasks) + (if OwnerPending(s.owner) then 1 else 0)
  }

  predicate HasRun(w: Worker) {
    !w.Absent? && !w.Starting? && !w.Running?
  }

  /** One task: it ran once or not at all, with its own arguments, and it was joined at most once, at its end. */
  ghost predicate TaskOk(t: Task, runner: Runner, marking: bool) {
    && (if HasRun(t.worker) then t.runs == 1 && t.outcome == Some(runner(t.args)) else t.runs == 0 && t.outcome == None)
    && (t.worker.Absent? ==> !t.joinable && t.joins == 0)
    && t.joins <= 1 && (t.joins == 1 ==> t.worker.Exited?)
    && (!t.worker.Absent? ==> t.joinable || t.joins == 1 || marking)
    && (t.joinable && t.joins == 1 ==> !t.live || marking)
    && (!t.live ==> t.worker.Absent? || t.joins == 1)
  }

  /** The task that the owner is at: the one that `wg_go` creates, or the one that `wg_destroy` is about to free. */
  predicate Marking(s: State, i: nat) {
    (s.owner.GoMark? && i + 1 == |s.tasks|) || (s.owner.FreeTask? && i == s.owner.i)
  }

  ghost predicate InvTasks(s: State, runner: Runner) {
    && (forall i | 0 <= i < |s.tasks| :: TaskOk(s.tasks[i], runner, Marking(s, i)))
    && (InGo(s.owner) && !s.owner.GoMark? && s.tasks != [] ==> s.tasks[|s.tasks| - 1].worker.Absent?)
    && (s.owner.GoMark? && s.tasks != [] ==> !s.tasks[|s.tasks| - 1].worker.Absent? && s.tasks[|s.tasks| - 1].joins == 0)
    && (s.owner.FreeTask? && s.owner.i < |s.tasks| ==>
          s.tasks[s.owner.i].worker.Absent? || s.tasks[s.owner.i].joins == 1)
  }

  predicate Broadcaster(t: Task) {
    t.worker.Broadcasting?
  }

  /** No lost wakeup: while the owner is blocked, somebody still has to count down, or is about to broadcast. */
  ghost predicate InvBlocked(s: State) {
    s.owner.Blocked? ==> s.group.remaining > 0 || exists i | 0 <= i < |s.tasks| :: Broadcaster(s.tasks[i])
  }

  /** After the wait loop nothing remains, and the join loop has joined what it has passed. */
  ghost predicate InvWaited(s: State) {
    && (s.owner.WaitUnlock? || s.owner.WaitJoin? ==> s.group.remaining == 0)
    && (s.owner.WaitJoin? ==> forall j | 0 <= j < s.owner.i && j < |s.tasks| :: !s.tasks[j].joinable)
  }

  /** The group has been destroyed. */
  predicate Destroyed(s: State) {
    s.owner.Idle? && 0 < s.pc <= |s.prog| && s.prog[s.pc - 1].Destroy?
  }

  /** How many tasks `wg_destroy` has freed. */
  function Freed(s: State): nat {
    match s.owner
    case FreeJoin(i) => i
    case FreeTask(i) => i
    case _ => if s.owner.FreeTable? || s.owner.FreeLock? || s.owner.FreeGroup? || Destroyed(s) then |s.tasks| else 0
  }

  /** What is live: nothing is freed before `wg_destroy`, which frees the tasks first and the group last. */
  ghost predicate InvLive(s: State) {
    && Freed(s) <= |s.tasks|
    && (forall i | 0 <= i < |s.tasks| :: s.tasks[i].live <==> i >= Freed(s))
    && (s.tableLive <==> !s.owner.FreeLock? && !s.owner.FreeGroup? && !Destroyed(s))
    && (s.lockLive <==> !s.owner.FreeGroup? && !Destroyed(s))
    && (s.groupLive <==> !Destroyed(s))
  }

  ghost predicate Inv(s: State, runner: Runner) {
    && WellFormed(s.prog)
    && InvArgs(s) && InvTable(s) && InvLock(s) && InvCount(s) && InvTasks(s, runner)
    && InvBlocked(s) && InvWaited(s) && InvLive(s)
  }

  lemma InitialInv(prog: seq<Cmd>, runner: Runner)
    requires WellFormed(prog)
    ensures Inv(Initial(prog), runner)
  {
  }

  // ---------- Counting ----------

  lemma {:induction false} PendingUpdate(ts: seq<Task>, i: nat, t: Task)
    requires i < |ts|
    ensures PendingCount(ts[i := t])
         == PendingCount(ts) - (if Pending(ts[i]) then 1 else 0) + (if Pending(t) then 1 else 0)
    decreases |ts|
  {
    var n := |ts| - 1;
    if i < n {
      PendingUpdate(ts[..n], i, t);
      assert ts[i := t][..n] == ts[..n][i := t];
    } else {
      assert ts[i := t][..n] == ts[..n];
    }
  }

  lemma PendingAppend(ts: seq<Task>, t: Task)
    ensures PendingCount(ts + [t]) == PendingCount(ts) + (if Pending(t) then 1 else 0)
  {
    assert (ts + [t])[..|ts|] == ts;
  }

  lemma {:induction false} PendingExists(ts: seq<Task>)
    requires PendingCount(ts) > 0
    ensures exists i | 0 <= i < |ts| :: Pending(ts[i])
  {
    var n := |ts| - 1;
    if !Pending(ts[n]) {
      PendingExists(ts[..n]);
      var i :| 0 <= i < n && Pending(ts[..n][i]);
      assert Pending(ts[i]);
    }
  }

  lemma {:induction false} PendingNone(ts: seq<Task>, i: nat)
    requires PendingCount(ts) == 0 && i < |ts|
    ensures !Pending(ts[i])
    decreases |ts|
  {
    var n := |ts| - 1;
    if i < n {
      PendingNone(ts[..n], i);
    }
  }

  lemma PendingPositive(ts: seq<Task>, i: nat)
    requires i < |ts| && Pending(ts[i])
    ensures PendingCount(ts) > 0
  {
    if PendingCount(ts) == 0 {
      PendingNone(ts, i);
    }
  }

  // ---------- Worker steps ----------

  /** What a step of worker i can change: its own task, the mutex, `remaining`, and an owner that it wakes. */
  ghost predicate Moved(s: State, s': State, i: nat, runner: Runner) {
    && i < |s.tasks| == |s'.tasks| && s'.tasks == s.tasks[i := s'.tasks[i]]
    && s' == s.(tasks := s'.tasks, lock := s'.lock, group := s.group.(remaining := s'.group.remaining),
                owner := s'.owner)
    && var t, t' := s.tasks[i], s'.tasks[i];
    && t' == t.(worker := t'.worker, outcome := t'.outcome, runs := t'.runs, context := t'.context,
                contextFrees := t'.contextFrees)
    && match t.worker
       case Starting => t' == ContextFreed(t).(worker := Running) && SameSync(s, s')
       case Running =>
         t' == t.(worker := WantsLock, outcome := Some(runner(t.args)), runs := t.runs + 1) && SameSync(s, s')
       case WantsLock =>
         && t' == t.(worker := Counting) && s.lock == Nobody && s'.lock == Thread(i)
         && s'.owner == s.owner && s'.group == s.group
       case Counting =>
         && t' == t.(worker := if s'.group.remaining == 0 then Broadcasting else Unlocking)
         && s'.group.remaining == s.group.remaining - 1 && s'.lock == s.lock && s'.owner == s.owner
       case Broadcasting =>
         && t' == t.(worker := Unlocking) && s'.lock == s.lock && s'.group == s.group
         && s'.owner == if s.owner == Blocked then WaitLock else s.owner
       case Unlocking =>
         t' == t.(worker := Leaving) && s'.lock == Nobody && s'.owner == s.owner && s'.group == s.group
       case Leaving => t' == t.(worker := Exited) && SameSync(s, s')
       case _ => false
  }

  ghost predicate SameSync(s: State, s': State) {
    s'.lock == s.lock && s'.group == s.group && s'.owner == s.owner
  }

  lemma MovesToCounting(s: State, i: nat, runner: Runner)
    requires WorkerStep(s, i, runner).Some?
    requires var w := s.tasks[i].worker; w.Starting? || w.Running? || w.WantsLock?
    ensures Moved(s, WorkerStep(s, i, runner).value, i, runner)
  {
  }

  lemma MovesFromCounting(s: State, i: nat, runner: Runner)
    requires WorkerStep(s, i, runner).Some?
    requires var w := s.tasks[i].worker; w.Counting? || w.Broadcasting?
    ensures Moved(s, WorkerStep(s, i, runner).value, i, runner)
  {
  }

  lemma MovesToExit(s: State, i: nat, runner: Runner)
    requires WorkerStep(s, i, runner).Some?
    requires var w := s.tasks[i].worker; w.Unlocking? || w.Leaving?
    ensures Moved(s, WorkerStep(s, i, runner).value, i, runner)
  {
  }

  lemma CanMove(s: State, i: nat, runner: Runner)
    requires WorkerStep(s, i, runner).Some?
    ensures i < |s.tasks| && !s.tasks[i].worker.Absent? && !s.tasks[i].worker.Exited?
  {
  }

  lemma WorkerMoves(s: State, i: nat, runner: Runner)
    requires WorkerStep(s, i, runner).Some?
    ensures Moved(s, WorkerStep(s, i, runner).value, i, runner)
  {
    CanMove(s, i, runner);
    hide WorkerStep, Moved;
    match s.tasks[i].worker {
      case Counting => MovesFromCounting(s, i, runner);
      case Broadcasting => MovesFromCounting(s, i, runner);
      case Unlocking => MovesToExit(s, i, runner);
      case Leaving => MovesToExit(s, i, runner);
      case _ => MovesToCounting(s, i, runner);
    }
  }

  lemma WorkerKeepsCount(s: State, s': State, i: nat, runner: Runner)
    requires InvCount(s) && Moved(s, s', i, runner)
    ensures InvCount(s')
  {
    PendingUpdate(s.tasks, i, s'.tasks[i]);
    hide PendingCount;
  }

  lemma WorkerKeepsTasks(s: State, s': State, i: nat, runner: Runner)
    requires InvTasks(s, runner) && Moved(s, s', i, runner)
    ensures InvTasks(s', runner)
  {
    hide TaskOk;
    assert TaskOk(s.tasks[i], runner, Marking(s, i));
    WorkerKeepsTask(s, s', i, runner);
  }

  lemma WorkerKeepsTask(s: State, s': State, i: nat, runner: Runner)
    requires i < |s.tasks| && TaskOk(s.tasks[i], runner, Marking(s, i)) && Moved(s, s', i, runner)
    ensures TaskOk(s'.tasks[i], runner, Marking(s', i))
  {
  }

  lemma WorkerKeepsLock(s: State, s': State, i: nat, runner: Runner)
    requires InvLock(s) && Moved(s, s', i, runner)
    ensures InvLock(s')
  {
  }

  lemma WorkerKeepsArgs(s: State, s': State, i: nat, runner: Runner)
    requires InvArgs(s) && Moved(s, s', i, runner)
    ensures InvArgs(s')
  {
    hide GoArgs;
  }

  lemma WorkerKeepsTable(s: State, s': State, i: nat, runner: Runner)
    requires InvTable(s) && Moved(s, s', i, runner)
    ensures InvTable(s')
  {
  }

  lemma WorkerKeepsLive(s: State, s': State, i: nat, runner: Runner)
    requires InvLive(s) && Moved(s, s', i, runner)
    ensures InvLive(s')
  {
    assert Freed(s') == Freed(s) && Destroyed(s') == Destroyed(s);
    hide Freed, Destroyed;
  }

  lemma WorkerKeepsWaits(s: State, s': State, i: nat, runner: Runner)
    requires InvBlocked(s) && InvWaited(s) && InvCount(s) && Moved(s, s', i, runner)
    ensures InvBlocked(s') && InvWaited(s')
  {
    if Pending(s.tasks[i]) {
      PendingPositive(s.tasks, i);
    }
    hide PendingCount;
    if s'.owner.Blocked? {
      if s'.tasks[i].worker.Broadcasting? {
        assert Broadcaster(s'.tasks[i]);
      } else if k :| 0 <= k < |s.tasks| && Broadcaster(s.tasks[k]) {
        assert Broadcaster(s'.tasks[k]);
      }
    }
  }

  lemma WorkerKeepsInv(s: State, i: nat, runner: Runner)
    requires Inv(s, runner) && WorkerStep(s, i, runner).Some?
    ensures Inv(WorkerStep(s, i, runner).value, runner)
  {
    WorkerMoves(s, i, runner);
    var s' := WorkerStep(s, i, runner).value;
    assert s'.prog == s.prog;
    hide WorkerStep, Moved, InvArgs, InvTable, InvLock, InvCount, InvTasks, InvBlocked, InvWaited, InvLive, WellFormed;
    WorkerKeepsArgs(s, s', i, runner);
    WorkerKeepsTable(s, s', i, runner);
    WorkerKeepsLock(s, s', i, runner);
    WorkerKeepsCount(s, s', i, runner);
    WorkerKeepsTasks(s, s', i, runner);
    WorkerKeepsWaits(s, s', i, runner);
    WorkerKeepsLive(s, s', i, runner);
  }

  // ---------- Owner steps ----------

  /** Steps at the mutex, at the counter and at the wait queue: the tasks and the table stay as they are. */
  predicate AtSync(o: Owner) {
    o.GoLock? || o.GoCount? || o.GoUnlock? || o.GoFailLock? || o.GoFailCount? || o.GoFailUnlock?
    || o.WaitLock? || o.WaitTest? || o.WaitUnlock?
  }

  /** Steps that touch no task, and begin or end no work on one, keep what is known about the tasks. */
  lemma SameTasks(s: State, s': State, runner: Runner)
    requires InvTasks(s, runner) && s'.tasks == s.tasks
    requires !s.owner.GoMark? && !s'.owner.GoMark? && !s.owner.FreeTask? && !s'.owner.FreeTask?
    requires InGo(s'.owner) ==> InGo(s.owner)
    ensures InvTasks(s', runner)
  {
    hide TaskOk;
    assert forall i | 0 <= i < |s.tasks| :: !Marking(s, i) && !Marking(s', i);
  }

  /** A step inside `wg_go` or inside `wg_wait` that changes no task and no slot. */
  ghost predicate SyncStep(s: State, s': State) {
    && s' == s.(owner := s'.owner, lock := s'.lock, group := s.group.(remaining := s'.group.remaining))
    && ((InGo(s.owner) && InGo(s'.owner) && BeforeStore(s.owner) == BeforeStore(s'.owner) && !s'.owner.GoStore?)
        || (InWait(s.owner) && InWait(s'.owner) && (s'.owner.WaitJoin? ==> s'.owner.i == 0)))
  }

  lemma SyncKeepsArgs(s: State, s': State)
    requires InvArgs(s) && SyncStep(s, s')
    ensures InvArgs(s')
  {
    hide GoArgs;
  }

  lemma SyncKeepsTable(s: State, s': State)
    requires InvTable(s) && SyncStep(s, s')
    ensures InvTable(s')
  {
  }

  lemma SyncKeepsLive(s: State, s': State)
    requires InvLive(s) && SyncStep(s, s')
    ensures InvLive(s')
  {
    assert Freed(s) == 0 == Freed(s') && !Destroyed(s) && !Destroyed(s');
  }

  lemma KeepSync(s: State, runner: Runner)
    requires Inv(s, runner) && AtSync(s.owner) && OwnerStep(s).Some?
    ensures Inv(OwnerStep(s).value, runner)
  {
    var s' := OwnerStep(s).value;
    SyncShape(s);
    SyncKeepsLock(s);
    SyncKeepsCount(s);
    hide OwnerStep, InvArgs, InvTable, InvTasks, InvLock, InvCount, InvBlocked, InvWaited, InvLive, WellFormed;
    assert SyncStep(s, s');
    SyncKeepsArgs(s, s');
    SyncKeepsTable(s, s');
    SyncKeepsLive(s, s');
    SameTasks(s, s', runner);
  }

  lemma SyncKeepsCount(s: State)
    requires InvCount(s) && InvBlocked(s) && InvWaited(s) && AtSync(s.owner) && OwnerStep(s).Some?
    ensures var s' := OwnerStep(s).value; InvCount(s') && InvBlocked(s') && InvWaited(s')
  {
    SyncShape(s);
    hide OwnerStep, PendingCount;
  }

  lemma SyncKeepsLock(s: State)
    requires InvLock(s) && AtSync(s.owner) && OwnerStep(s).Some?
    ensures InvLock(OwnerStep(s).value)
  {
    SyncShape(s);
    hide OwnerStep;
  }

  /** What the steps of `AtSync` do. */
  lemma SyncShape(s: State)
    requires AtSync(s.owner) && OwnerStep(s).Some?
    ensures var s' := OwnerStep(s).value;
            && s' == s.(owner := s'.owner, lock := s'.lock, group := s.group.(remaining := s'.group.remaining))
            && match s.owner
               case GoLock => s.lock == Nobody && s'.lock == Main && s'.owner == GoGrow && s'.group == s.group
               case GoCount => s'.lock == s.lock && s'.owner == GoUnlock && s'.group.remaining == s.group.remaining + 1
               case GoUnlock => s'.lock == Nobody && s'.owner == GoContext && s'.group == s.group
               case GoFailLock => s.lock == Nobody && s'.lock == Main && s'.owner == GoFailCount && s'.group == s.group
               case GoFailCount =>
                 s'.lock == s.lock && s'.owner == GoFailUnlock && s'.group.remaining == s.group.remaining - 1
               case GoFailUnlock => s'.lock == Nobody && s'.owner == GoFailMark && s'.group == s.group
               case WaitLock => s.lock == Nobody && s'.lock == Main && s'.owner == WaitTest && s'.group == s.group
               case WaitTest =>
                 && s'.group == s.group
                 && if s.group.remaining > 0 then s'.lock == Nobody && s'.owner == Blocked
                    else s'.lock == s.lock && s'.owner == WaitUnlock
               case _ => s'.lock == Nobody && s'.owner == WaitJoin(0) && s'.group == s.group
  {
  }

  lemma KeepWake(s: State, runner: Runner)
    requires Inv(s, runner) && WakeUp(s).Some?
    ensures Inv(WakeUp(s).value, runner)
  {
    var s' := WakeUp(s).value;
    hide PendingCount, InvArgs, InvTable, InvTasks, InvLive, WellFormed;
    SyncKeepsArgs(s, s');
    SyncKeepsTable(s, s');
    SyncKeepsLive(s, s');
    SameTasks(s, s', runner);
  }

  lemma KeepFail(s: State, runner: Runner)
    requires Inv(s, runner) && CreateFails(s).Some?
    ensures Inv(CreateFails(s).value, runner)
  {
    var s' := CreateFails(s).value;
    hide PendingCount, InvArgs, InvTable, InvTasks, InvLive, WellFormed;
    SyncKeepsArgs(s, s');
    SyncKeepsTable(s, s');
    SyncKeepsLive(s, s');
    SameTasks(s, s', runner);
  }

  lemma KeepGrow(s: State, runner: Runner)
    requires Inv(s, runner) && s.owner == GoGrow && OwnerStep(s).Some?
    ensures Inv(OwnerStep(s).value, runner)
  {
    SameTasks(s, OwnerStep(s).value, runner);
    hide PendingCount, GoArgs, InvTasks;
  }

  /** Storing the task: slot `count` gets it, and the slots before keep theirs. */
  ghost predicate StoreStep(s: State, s': State) {
    && s.owner == GoStore && s.tasks != [] && s.group.count < |s.group.table|
    && var last := |s.tasks| - 1;
    s' == s.(tasks := s.tasks[last := s.tasks[last].(slot := s.group.count)], group := Stored(s.group, last),
             owner := GoCount)
  }

  lemma StoreKeepsArgs(s: State, s': State)
    requires InvArgs(s) && StoreStep(s, s')
    ensures InvArgs(s')
  {
    hide GoArgs;
  }

  lemma StoreKeepsTable(s: State, s': State)
    requires InvTable(s) && StoreStep(s, s')
    ensures InvTable(s') && InvBlocked(s') && InvWaited(s')
  {
  }

  lemma StoreKeepsLive(s: State, s': State)
    requires InvLive(s) && StoreStep(s, s')
    ensures InvLive(s')
  {
    assert Freed(s) == 0 == Freed(s') && !Destroyed(s) && !Destroyed(s');
  }

  lemma StoreKeepsCount(s: State, s': State)
    requires InvCount(s) && StoreStep(s, s')
    ensures InvCount(s')
  {
    PendingUpdate(s.tasks, |s.tasks| - 1, s'.tasks[|s.tasks| - 1]);
    hide PendingCount;
  }

  lemma KeepStore(s: State, runner: Runner)
    requires Inv(s, runner) && s.owner == GoStore && OwnerStep(s).Some?
    ensures Inv(OwnerStep(s).value, runner)
  {
    StoreShape(s);
    hide OwnerStep;
    var s', last := OwnerStep(s).value, |s.tasks| - 1;
    assert StoreStep(s, s');
    assert TaskOk(s.tasks[last], runner, false);
    assert TaskOk(s'.tasks[last], runner, false) && s'.tasks[last].worker.Absent?;
    hide InvArgs, InvTable, InvLive, InvLock, InvCount, InvTasks, WellFormed, InvBlocked, InvWaited, TaskOk;
    StoreKeepsArgs(s, s');
    StoreKeepsTable(s, s');
    StoreKeepsLive(s, s');
    StoreKeepsCount(s, s');
    LastTaskKeepsTasks(s, s', runner);
    OneTaskKeepsLock(s, s', last);
  }

  /** A step on the last task alone. */
  lemma LastTaskKeepsTasks(s: State, s': State, runner: Runner)
    requires InvTasks(s, runner) && InGo(s.owner) && s.tasks != []
    requires |s'.tasks| == |s.tasks| && s'.tasks == s.tasks[|s.tasks| - 1 := s'.tasks[|s.tasks| - 1]]
    requires TaskOk(s'.tasks[|s.tasks| - 1], runner, s'.owner.GoMark?)
    requires s'.owner == Idle || (InGo(s'.owner) && !s'.owner.GoMark? && s'.tasks[|s.tasks| - 1].worker.Absent?)
          || (s'.owner.GoMark? && !s'.tasks[|s.tasks| - 1].worker.Absent? && s'.tasks[|s.tasks| - 1].joins == 0)
    ensures InvTasks(s', runner)
  {
    hide TaskOk;
    forall i | 0 <= i < |s.tasks|
      ensures TaskOk(s'.tasks[i], runner, Marking(s', i))
    {
      assert TaskOk(s.tasks[i], runner, Marking(s, i));
    }
  }

  /** A task that does not hold the mutex, before or after, says nothing about who does. */
  lemma OneTaskKeepsLock(s: State, s': State, i: nat)
    requires InvLock(s) && i < |s.tasks| == |s'.tasks| && s'.tasks == s.tasks[i := s'.tasks[i]]
    requires s'.lock == s.lock && OwnerHolds(s'.owner) == OwnerHolds(s.owner)
    requires WorkerHolds(s.tasks[i].worker) == WorkerHolds(s'.tasks[i].worker)
    ensures InvLock(s')
  {
  }

  /** A step of `wg_go` on the last task, behind the table: nothing but that task and the owner changes. */
  ghost predicate LastStep(s: State, s': State) {
    && InGo(s.owner) && !BeforeStore(s.owner) && s.tasks != [] && |s'.tasks| == |s.tasks|
    && var last := |s.tasks| - 1;
    && s'.tasks == s.tasks[last := s'.tasks[last]]
    && var t := s'.tasks[last];
    && t == s.tasks[last].(worker := t.worker, joinable := t.joinable, context := t.context,
                           contextFrees := t.contextFrees)
    && ((InGo(s'.owner) && !BeforeStore(s'.owner) && s' == s.(tasks := s'.tasks, owner := s'.owner))
        || s' == s.(tasks := s'.tasks, owner := Idle, pc := s.pc + 1))
  }

  lemma LastStepKeepsArgs(s: State, s': State)
    requires InvArgs(s) && LastStep(s, s')
    ensures InvArgs(s')
  {
    hide GoArgs;
  }

  lemma LastStepKeepsTable(s: State, s': State)
    requires InvTable(s) && LastStep(s, s')
    ensures InvTable(s') && InvBlocked(s') && InvWaited(s')
  {
  }

  lemma LastStepKeepsLive(s: State, s': State)
    requires InvProgram(s) && InvLive(s) && LastStep(s, s')
    ensures InvLive(s')
  {
    assert Freed(s) == 0 && !Destroyed(s') && Freed(s') == 0;
  }

  lemma LastStepKeepsCount(s: State, s': State)
    requires InvCount(s) && LastStep(s, s')
    requires (if Pending(s'.tasks[|s.tasks| - 1]) then 1 else 0) + (if OwnerPending(s'.owner) then 1 else 0)
          == (if Pending(s.tasks[|s.tasks| - 1]) then 1 else 0) + (if OwnerPending(s.owner) then 1 else 0)
    ensures InvCount(s')
  {
    PendingUpdate(s.tasks, |s.tasks| - 1, s'.tasks[|s.tasks| - 1]);
    hide PendingCount;
  }

  lemma LastBefore(s: State, runner: Runner)
    requires InvTasks(s, runner) && InvLive(s) && InGo(s.owner) && s.tasks != []
    ensures var t := s.tasks[|s.tasks| - 1];
            && TaskOk(t, runner, s.owner.GoMark?) && t.live
            && if s.owner.GoMark? then !t.worker.Absent? && t.joins == 0 else t.worker.Absent?
  {
    assert TaskOk(s.tasks[|s.tasks| - 1], runner, Marking(s, |s.tasks| - 1));
  }

  /** What `wg_go` does to its task behind the table leaves it as a task has to be. */
  lemma LastAfterOk(s: State, t: Task, runner: Runner)
    requires AtLast(s.owner) && !s.owner.GoStore? && TaskOk(t, runner, s.owner.GoMark?) && t.live
    requires if s.owner.GoMark? then !t.worker.Absent? && t.joins == 0 else t.worker.Absent?
    ensures var t' := LastAfter(s, t);
            && TaskOk(t', runner, s.owner.GoCreate?)
            && (if s.owner.GoCreate? then t'.worker.Starting? && t'.joins == 0 else t'.worker == t.worker)
  {
  }

  lemma LastStepKeepsInv(s: State, s': State, runner: Runner)
    requires Inv(s, runner) && LastStep(s, s') && s.owner != GoStore && s'.owner.GoMark? == s.owner.GoCreate?
    requires var t, t' := s.tasks[|s.tasks| - 1], s'.tasks[|s.tasks| - 1];
             && TaskOk(t', runner, s'.owner.GoMark?)
             && (if s'.owner.GoMark? then t.worker.Absent? && t'.worker.Starting? && t'.joins == 0
                 else t'.worker == t.worker && (s'.owner == Idle || t'.worker.Absent?))
    requires OwnerHolds(s'.owner) == OwnerHolds(s.owner)
    requires OwnerPending(s.owner) == (OwnerPending(s'.owner) || s'.owner.GoMark?)
    ensures Inv(s', runner)
  {
    hide InvArgs, InvTable, InvLive, InvLock, InvCount, InvTasks, WellFormed, InvBlocked, InvWaited, TaskOk;
    LastStepKeepsArgs(s, s');
    LastStepKeepsTable(s, s');
    assert InvProgram(s) by { ArgsHaveProgram(s); }
    LastStepKeepsLive(s, s');
    LastStepKeepsCount(s, s');
    LastTaskKeepsTasks(s, s', runner);
    OneTaskKeepsLock(s, s', |s.tasks| - 1);
  }

  lemma ArgsHaveProgram(s: State)
    requires InvArgs(s)
    ensures InvProgram(s)
  {
  }

  lemma LastMove(s: State)
    requires AtLast(s.owner) && s.owner != GoStore && OwnerStep(s).Some?
    ensures var s' := OwnerStep(s).value;
            && LastStep(s, s') && s'.tasks[|s.tasks| - 1] == LastAfter(s, s.tasks[|s.tasks| - 1])
            && s'.owner.GoMark? == s.owner.GoCreate? && OwnerHolds(s'.owner) == OwnerHolds(s.owner)
            && OwnerPending(s.owner) == (OwnerPending(s'.owner) || s'.owner.GoMark?)
            && (EndsGo(s.owner) <==> s'.owner == Idle)
  {
    LastShape(s);
    LastKeepsThread(s, s.tasks[|s.tasks| - 1]);
    hide OwnerStep, LastAfter;
  }

  lemma LastKeepsThread(s: State, t: Task)
    requires AtLast(s.owner) && s.owner != GoStore
    ensures var t' := LastAfter(s, t);
            t' == t.(worker := t'.worker, joinable := t'.joinable, context := t'.context,
                     contextFrees := t'.contextFrees)
  {
  }

  /** The steps of `wg_go` behind its critical section: the block for the thread, the thread, and the end. */
  lemma KeepLast(s: State, runner: Runner)
    requires Inv(s, runner) && AtLast(s.owner) && s.owner != GoStore && OwnerStep(s).Some?
    ensures Inv(OwnerStep(s).value, runner)
  {
    LastMove(s);
    assert InGo(s.owner) && s.tasks != [];
    LastBefore(s, runner);
    LastAfterOk(s, s.tasks[|s.tasks| - 1], runner);
    hide OwnerStep, Inv, TaskOk, LastStep, LastAfter, OwnerHolds, OwnerPending;
    LastStepKeepsInv(s, OwnerStep(s).value, runner);
  }

  // ---------- Commands ----------

  lemma IssuedOneMore(prog: seq<Cmd>, pc: nat)
    requires pc < |prog|
    ensures GoArgs(prog[..pc + 1]) == if prog[pc].Go? then GoArgs(prog[..pc]) + [prog[pc].args] else GoArgs(prog[..pc])
  {
    assert prog[..pc + 1][..pc] == prog[..pc];
  }

  lemma NotDestroyed(s: State)
    requires WellFormed(s.prog) && s.owner == Idle && s.pc < |s.prog|
    ensures !Destroyed(s)
  {
  }

  /** Beginning `wg_go`: a task of its own, not yet in the table. */
  ghost predicate BeginGoStep(s: State, s': State) {
    && s.owner == Idle && s.pc < |s.prog| && s.prog[s.pc].Go?
    && s' == s.(tasks := s.tasks + [NewTask(s.prog[s.pc].args)], owner := GoLock)
  }

  lemma BeginGoKeepsArgs(s: State, s': State)
    requires InvArgs(s) && BeginGoStep(s, s')
    ensures InvArgs(s')
  {
    var n, args := |s.tasks|, s.prog[s.pc].args;
    IssuedOneMore(s.prog, s.pc);
    assert GoArgs(Issued(s')) == GoArgs(Issued(s)) + [args] && |s'.tasks| == n + 1 && s'.tasks[n].args == args;
    hide GoArgs, Issued;
    forall i | 0 <= i < n
      ensures s'.tasks[i].args == GoArgs(Issued(s'))[i]
    {
      assert s'.tasks[i] == s.tasks[i];
    }
  }

  lemma BeginGoKeepsTable(s: State, s': State)
    requires InvTable(s) && BeginGoStep(s, s')
    ensures InvTable(s') && InvBlocked(s') && InvWaited(s')
  {
  }

  lemma BeginGoKeepsLive(s: State, s': State)
    requires InvLive(s) && BeginGoStep(s, s') && !Destroyed(s)
    ensures InvLive(s')
  {
    assert Freed(s) == 0 == Freed(s') && !Destroyed(s');
  }

  lemma BeginGoKeepsCount(s: State, s': State)
    requires InvCount(s) && BeginGoStep(s, s')
    ensures InvCount(s')
  {
    var t := NewTask(s.prog[s.pc].args);
    assert s'.tasks == s.tasks + [t] && !Pending(t);
    hide PendingCount, BeginGoStep;
    PendingAppend(s.tasks, t);
  }

  lemma BeginGoKeepsLock(s: State, s': State)
    requires InvLock(s) && BeginGoStep(s, s')
    ensures InvLock(s')
  {
    forall i | 0 <= i < |s'.tasks|
      ensures WorkerHolds(s'.tasks[i].worker) <==> s'.lock == Thread(i)
    {
      if i < |s.tasks| {
        assert s'.tasks[i] == s.tasks[i];
      }
    }
  }

  lemma KeepBeginGo(s: State, runner: Runner)
    requires Inv(s, runner) && s.owner == Idle && s.pc < |s.prog| && s.prog[s.pc].Go? && OwnerStep(s).Some?
    ensures Inv(OwnerStep(s).value, runner)
  {
    var s' := OwnerStep(s).value;
    assert BeginGoStep(s, s');
    NotDestroyed(s);
    hide OwnerStep, InvArgs, InvTable, InvLive, InvLock, InvCount, InvTasks, WellFormed, InvBlocked, InvWaited;
    BeginGoKeepsArgs(s, s');
    BeginGoKeepsTable(s, s');
    BeginGoKeepsLive(s, s');
    BeginGoKeepsCount(s, s');
    BeginGoKeepsLock(s, s');
    NewTaskKeepsTasks(s, s', runner);
  }

  lemma NewTaskKeepsTasks(s: State, s': State, runner: Runner)
    requires InvTasks(s, runner) && s.owner == Idle && s'.owner == GoLock
    requires |s'.tasks| == |s.tasks| + 1 && s'.tasks[..|s.tasks|] == s.tasks
    requires s'.tasks[|s.tasks|] == NewTask(s'.tasks[|s.tasks|].args)
    ensures InvTasks(s', runner)
  {
    forall i | 0 <= i < |s'.tasks|
      ensures TaskOk(s'.tasks[i], runner, Marking(s', i))
    {
      if i < |s.tasks| {
        assert s'.tasks[i] == s.tasks[i] && TaskOk(s.tasks[i], runner, Marking(s, i));
      }
    }
  }

  /** Beginning `wg_wait` or `wg_destroy`. */
  lemma KeepBeginOther(s: State, runner: Runner)
    requires Inv(s, runner) && s.owner == Idle && s.pc < |s.prog| && !s.prog[s.pc].Go? && OwnerStep(s).Some?
    ensures Inv(OwnerStep(s).value, runner)
  {
    NotDestroyed(s);
    SameTasks(s, OwnerStep(s).value, runner);
    hide PendingCount, GoArgs, InvTasks, WellFormed;
  }

  /** The end of `wg_wait`. */
  ghost predicate WaitEndStep(s: State, s': State) {
    s.owner.WaitJoin? && s' == s.(pc := s.pc + 1, owner := Idle)
  }

  lemma WaitEndKeepsArgs(s: State, s': State)
    requires InvArgs(s) && WaitEndStep(s, s')
    ensures InvArgs(s')
  {
    IssuedOneMore(s.prog, s.pc);
    hide GoArgs;
  }

  lemma WaitEndKeepsTable(s: State, s': State)
    requires InvTable(s) && InvLock(s) && InvCount(s) && WaitEndStep(s, s')
    ensures InvTable(s') && InvLock(s') && InvCount(s') && InvBlocked(s') && InvWaited(s')
  {
    hide PendingCount;
  }

  lemma WaitEndKeepsLive(s: State, s': State)
    requires InvProgram(s) && InvLive(s) && WaitEndStep(s, s')
    ensures InvLive(s')
  {
    assert Freed(s) == 0 == Freed(s') && !Destroyed(s) && !Destroyed(s');
  }

  lemma KeepWaitEnd(s: State, runner: Runner)
    requires Inv(s, runner) && s.owner.WaitJoin? && s.owner.i == s.group.count && OwnerStep(s).Some?
    ensures Inv(OwnerStep(s).value, runner)
  {
    var s' := OwnerStep(s).value;
    assert WaitEndStep(s, s');
    hide OwnerStep, InvArgs, InvTable, InvLive, InvLock, InvCount, InvTasks, WellFormed, InvBlocked, InvWaited;
    WaitEndKeepsArgs(s, s');
    WaitEndKeepsTable(s, s');
    WaitEndKeepsLive(s, s');
    SameTasks(s, s', runner);
  }

  // ---------- Joining and freeing ----------

  lemma SlotHolds(s: State, i: nat)
    requires InvTable(s) && !BeforeStore(s.owner) && i < s.group.count
    ensures TaskIn(s, i) == Some(i) && i < |s.tasks|
  {
  }

  /** Everything but the tasks' own states, over a step of `wg_wait` or `wg_destroy` on task i. */
  lemma OneTaskKeepsRest(s: State, s': State, i: nat, runner: Runner)
    requires InvArgs(s) && InvTable(s) && InvLock(s) && InvCount(s)
    requires i < |s.tasks| == |s'.tasks| && s'.tasks == s.tasks[i := s'.tasks[i]]
    requires s' == s.(tasks := s'.tasks, owner := s'.owner)
    requires var t := s'.tasks[i]; t == s.tasks[i].(joinable := t.joinable, joins := t.joins, live := t.live)
    requires (s.owner.WaitJoin? && s'.owner.WaitJoin? && s'.owner.i <= s.group.count)
          || (s.owner.FreeJoin? && s'.owner.FreeTask? && s'.owner.i < s.group.count)
          || (s.owner.FreeTask? && s'.owner.FreeJoin? && s'.owner.i <= s.group.count)
    ensures InvArgs(s') && InvTable(s') && InvLock(s') && InvCount(s')
  {
    OneTaskKeepsTable(s, s', i);
    PendingUpdate(s.tasks, i, s'.tasks[i]);
    hide InvArgs, InvTable, PendingCount;
    OneTaskKeepsLock(s, s', i);
    hide InvLock;
  }

  lemma OneTaskKeepsTable(s: State, s': State, i: nat)
    requires InvArgs(s) && InvTable(s) && i < |s.tasks| == |s'.tasks| && s'.tasks == s.tasks[i := s'.tasks[i]]
    requires s' == s.(tasks := s'.tasks, owner := s'.owner)
    requires s'.tasks[i].args == s.tasks[i].args && s'.tasks[i].slot == s.tasks[i].slot
    requires (s.owner.WaitJoin? && s'.owner.WaitJoin? && s'.owner.i <= s.group.count)
          || (s.owner.FreeJoin? && s'.owner.FreeTask? && s'.owner.i < s.group.count)
          || (s.owner.FreeTask? && s'.owner.FreeJoin? && s'.owner.i <= s.group.count)
    ensures InvArgs(s') && InvTable(s')
  {
    hide GoArgs;
  }

  /** A task that the owner has joined, where it had to be. */
  function AfterJoining(t: Task, unmark: bool): Task {
    if t.joinable then t.(joinable := !unmark, joins := t.joins + 1) else t
  }

  lemma JoinAt(s: State)
    requires InvTable(s) && (s.owner.WaitJoin? || s.owner.FreeJoin?) && s.owner.i < s.group.count && OwnerStep(s).Some?
    ensures s.owner.i < |s.tasks|
    ensures var t := s.tasks[s.owner.i];
            && (t.joinable ==> t.worker.Exited?)
            && OwnerStep(s).value == s.(tasks := s.tasks[s.owner.i := AfterJoining(t, s.owner.WaitJoin?)],
                                        owner := AfterJoin(s.owner))
  {
    SlotHolds(s, s.owner.i);
    JoinIsStep(s);
    assert s.tasks[s.owner.i := s.tasks[s.owner.i]] == s.tasks;
    hide OwnerStep, InvTable;
  }

  lemma KeepWaitJoin(s: State, runner: Runner)
    requires Inv(s, runner) && s.owner.WaitJoin? && s.owner.i < s.group.count && OwnerStep(s).Some?
    ensures Inv(OwnerStep(s).value, runner)
  {
    var s', i := OwnerStep(s).value, s.owner.i;
    JoinAt(s);
    hide OwnerStep;
    assert TaskOk(s.tasks[i], runner, Marking(s, i));
    OneTaskKeepsRest(s, s', i, runner);
    JoinedTask(s.tasks[i], s'.tasks[i], runner);
    hide InvArgs, InvTable, InvLock, InvCount, InvTasks, InvBlocked, InvWaited, InvLive, TaskOk, WellFormed;
    WaitJoinKeepsTasks(s, s', runner);
    WaitJoinKeepsLive(s, s');
  }

  /** One turn of the loop of `wg_wait`. */
  ghost predicate WaitJoinStep(s: State, s': State) {
    && s.owner.WaitJoin? && s.owner.i < |s.tasks|
    && s' == s.(tasks := s.tasks[s.owner.i := AfterJoining(s.tasks[s.owner.i], true)], owner := WaitJoin(s.owner.i + 1))
  }

  lemma WaitJoinKeepsTasks(s: State, s': State, runner: Runner)
    requires InvTasks(s, runner) && WaitJoinStep(s, s') && TaskOk(s'.tasks[s.owner.i], runner, false)
    ensures InvTasks(s', runner)
  {
    hide TaskOk;
    forall k | 0 <= k < |s'.tasks|
      ensures TaskOk(s'.tasks[k], runner, Marking(s', k))
    {
      assert TaskOk(s.tasks[k], runner, Marking(s, k));
    }
  }

  lemma WaitJoinKeepsLive(s: State, s': State)
    requires InvWaited(s) && InvLive(s) && WaitJoinStep(s, s')
    ensures InvWaited(s') && InvBlocked(s') && InvLive(s')
  {
    assert Freed(s) == 0 == Freed(s') && !Destroyed(s) && !Destroyed(s');
  }

  lemma JoinedTask(t: Task, t': Task, runner: Runner)
    requires TaskOk(t, runner, false)
    requires (!t.joinable && t' == t)
          || (t.joinable && t.joins == 0 && t.worker.Exited? && t' == t.(joinable := false, joins := 1))
    ensures TaskOk(t', runner, false)
  {
  }

  /** `wg_destroy` joins what has not been joined. */
  lemma KeepFreeJoin(s: State, runner: Runner)
    requires Inv(s, runner) && s.owner.FreeJoin? && s.owner.i < s.group.count && OwnerStep(s).Some?
    ensures Inv(OwnerStep(s).value, runner)
  {
    var s', i := OwnerStep(s).value, s.owner.i;
    JoinAt(s);
    hide OwnerStep;
    assert TaskOk(s.tasks[i], runner, false) && s.tasks[i].live;
    OneTaskKeepsRest(s, s', i, runner);
    JoinedAtEnd(s.tasks[i], s'.tasks[i], runner);
    hide InvArgs, InvTable, InvLock, InvCount, TaskOk, WellFormed;
  }

  lemma JoinedAtEnd(t: Task, t': Task, runner: Runner)
    requires TaskOk(t, runner, false) && t.live && t' == AfterJoining(t, false) && (t.joinable ==> t.worker.Exited?)
    ensures TaskOk(t', runner, true) && (t'.worker.Absent? || t'.joins == 1)
  {
  }

  /** It frees a task whose thread is joined, or that never had one. */
  lemma KeepFreeTask(s: State, runner: Runner)
    requires Inv(s, runner) && s.owner.FreeTask? && OwnerStep(s).Some?
    ensures Inv(OwnerStep(s).value, runner)
  {
    var s', i := OwnerStep(s).value, s.owner.i;
    SlotHolds(s, i);
    assert TaskOk(s.tasks[i], runner, true);
    OneTaskKeepsRest(s, s', i, runner);
    assert TaskOk(s'.tasks[i], runner, false);
    hide InvArgs, InvTable, InvLock, InvCount, TaskOk, WellFormed, OwnerStep;
  }

  /** The rest of `wg_destroy` frees the table and the mutex. */
  ghost predicate FreeRestStep(s: State, s': State) {
    && s' == s.(owner := s'.owner, tableLive := s'.tableLive, lockLive := s'.lockLive)
    && match s.owner
       case FreeJoin(i) =>
         i == s.group.count && s'.owner == FreeTable && s'.tableLive == s.tableLive && s'.lockLive == s.lockLive
       case FreeTable => s'.owner == FreeLock && !s'.tableLive && s'.lockLive == s.lockLive
       case FreeLock => s'.owner == FreeGroup && !s'.lockLive && s'.tableLive == s.tableLive
       case _ => false
  }

  lemma FreeRestShape(s: State)
    requires s.owner == FreeJoin(s.group.count) || s.owner.FreeTable? || s.owner.FreeLock?
    requires OwnerStep(s).Some?
    ensures FreeRestStep(s, OwnerStep(s).value)
  {
  }

  lemma FreeRestKeepsTable(s: State, s': State)
    requires InvArgs(s) && InvTable(s) && InvLock(s) && InvCount(s) && FreeRestStep(s, s')
    ensures InvArgs(s') && InvTable(s') && InvLock(s') && InvCount(s') && InvBlocked(s') && InvWaited(s')
  {
    hide PendingCount, GoArgs;
  }

  lemma FreeRestKeepsLive(s: State, s': State)
    requires InvProgram(s) && InvTable(s) && InvLive(s) && FreeRestStep(s, s')
    ensures InvLive(s')
  {
    assert Freed(s) == |s.tasks| == Freed(s') && !Destroyed(s) && !Destroyed(s');
  }

  lemma KeepFreeRest(s: State, runner: Runner)
    requires Inv(s, runner) && OwnerStep(s).Some?
    requires s.owner == FreeJoin(s.group.count) || s.owner.FreeTable? || s.owner.FreeLock?
    ensures Inv(OwnerStep(s).value, runner)
  {
    var s' := OwnerStep(s).value;
    FreeRestShape(s);
    ArgsHaveProgram(s);
    hide OwnerStep, InvArgs, InvTable, InvLive, InvLock, InvCount, InvTasks, WellFormed, InvBlocked, InvWaited;
    FreeRestKeepsTable(s, s');
    FreeRestKeepsLive(s, s');
    SameTasks(s, s', runner);
  }

  /** The end of `wg_destroy`. */
  ghost predicate DestroyEndStep(s: State, s': State) {
    s.owner.FreeGroup? && s' == s.(pc := s.pc + 1, owner := Idle, groupLive := false)
  }

  lemma DestroyEndKeepsArgs(s: State, s': State)
    requires InvArgs(s) && InvLock(s) && InvCount(s) && DestroyEndStep(s, s')
    ensures InvArgs(s') && InvLock(s') && InvCount(s')
  {
    IssuedOneMore(s.prog, s.pc);
    hide PendingCount, GoArgs;
  }

  lemma DestroyEndKeepsLive(s: State, s': State)
    requires InvProgram(s) && InvTable(s) && InvLive(s) && DestroyEndStep(s, s')
    ensures InvTable(s') && InvLive(s') && InvBlocked(s') && InvWaited(s')
  {
    assert Destroyed(s') && Freed(s') == Freed(s);
  }

  lemma KeepDestroyEnd(s: State, runner: Runner)
    requires Inv(s, runner) && s.owner.FreeGroup? && OwnerStep(s).Some?
    ensures Inv(OwnerStep(s).value, runner)
  {
    var s' := OwnerStep(s).value;
    assert DestroyEndStep(s, s');
    hide OwnerStep, InvArgs, InvTable, InvLive, InvLock, InvCount, InvTasks, WellFormed, InvBlocked, InvWaited;
    DestroyEndKeepsArgs(s, s');
    DestroyEndKeepsLive(s, s');
    SameTasks(s, s', runner);
  }

  // ---------- Every step, every run ----------

  lemma OwnerKeepsInv(s: State, runner: Runner)
    requires Inv(s, runner) && OwnerStep(s).Some?
    ensures Inv(OwnerStep(s).value, runner)
  {
    match s.owner {
      case Idle =>
        if s.prog[s.pc].Go? {
          KeepBeginGo(s, runner);
        } else {
          KeepBeginOther(s, runner);
        }
      case GoGrow => KeepGrow(s, runner);
      case GoStore => KeepStore(s, runner);
      case GoContext => KeepLast(s, runner);
      case GoCreate => KeepLast(s, runner);
      case GoFailFree => KeepLast(s, runner);
      case GoMark => KeepLast(s, runner);
      case GoFailMark => KeepLast(s, runner);
      case WaitJoin(i) =>
        if i < s.group.count {
          KeepWaitJoin(s, runner);
        } else {
          KeepWaitEnd(s, runner);
        }
      case FreeJoin(i) =>
        if i < s.group.count {
          KeepFreeJoin(s, runner);
        } else {
          KeepFreeRest(s, runner);
        }
      case FreeTask(_) => KeepFreeTask(s, runner);
      case FreeTable => KeepFreeRest(s, runner);
      case FreeLock => KeepFreeRest(s, runner);
      case FreeGroup => KeepDestroyEnd(s, runner);
      case _ => KeepSync(s, runner);
    }
  }

  /** Every step of every thread keeps the invariant, failing thread creation and spurious wakeups included. */
  lemma StepKeepsInv(s: State, a: Action, runner: Runner)
    requires Inv(s, runner) && Next(s, a, runner).Some?
    ensures Inv(Next(s, a, runner).value, runner)
  {
    hide Inv, OwnerStep, WorkerStep, CreateFails, WakeUp;
    match a {
      case Own => OwnerKeepsInv(s, runner);
      case Fail => KeepFail(s, runner);
      case Wake => KeepWake(s, runner);
      case Work(i) => WorkerKeepsInv(s, i, runner);
    }
  }

  /** So every state of every run of every program has it. */
  lemma {:induction false} RunKeepsInv(prog: seq<Cmd>, actions: seq<Action>, runner: Runner)
    requires WellFormed(prog) && Run(Initial(prog), actions, runner).Some?
    ensures Inv(Run(Initial(prog), actions, runner).value, runner)
    decreases |actions|
  {
    hide Inv, Next, Initial;
    if actions == [] {
      InitialInv(prog, runner);
    } else {
      var n := |actions| - 1;
      RunKeepsInv(prog, actions[..n], runner);
      StepKeepsInv(Run(Initial(prog), actions[..n], runner).value, actions[n], runner);
    }
  }
}
