/**
 The block through which `wg_go` hands a task to its thread: allocated by the owner, read and freed by the thread, or
 freed by the owner where no thread could be created.
 */
module WaitGroupContext {
  import opened WaitGroup
  import opened WaitGroupSteps
  import opened WaitGroupInvariant

  datatype Phase = Before | Holding | Over

  /** How far the owner is with the block of the task that it has allocated last. */
  function PhaseOf(o: Owner): Phase {
    if o.GoCreate? || o.GoFailFree? then Holding
    else if InGo(o) && !o.GoMark? && !o.GoFailLock? && !o.GoFailCount? && !o.GoFailUnlock? && !o.GoFailMark? then Before
    else Over
  }

  /** The block of a task: not yet there, there, or freed once. */
  predicate ContextOk(t: Task, phase: Phase) {
    if t.worker.Starting? || phase.Holding? then t.context && t.contextFrees == 0
    else if phase.Before? then !t.context && t.contextFrees == 0
    else !t.context && t.contextFrees == 1
  }

  function TaskPhase(s: State, i: nat): Phase {
    if i + 1 == |s.tasks| then PhaseOf(s.owner) else Over
  }

  ghost predicate InvContext(s: State) {
    forall i | 0 <= i < |s.tasks| :: ContextOk(s.tasks[i], TaskPhase(s, i))
  }

  /** Away from the task that it allocated the owner's place says nothing about the block. */
  lemma PhaseKept(s: State)
    requires OwnerStep(s).Some? && !s.owner.Idle? && !AtLast(s.owner)
    ensures PhaseOf(OwnerStep(s).value.owner) == PhaseOf(s.owner)
  {
    if AtSlot(s.owner) {
      SlotPhase(s);
    } else {
      NextPhase(s);
    }
    hide OwnerStep, PhaseOf;
  }

  lemma SlotPhase(s: State)
    requires OwnerStep(s).Some? && AtSlot(s.owner)
    ensures PhaseOf(OwnerStep(s).value.owner) == PhaseOf(s.owner) == Over
  {
    if !s.owner.FreeTask? && s.owner.i < s.group.count {
      JoinIsStep(s);
      JoinWork(s, s.owner.i, s.owner.WaitJoin?, AfterJoin(s.owner));
      hide OwnerStep, Join;
    }
  }

  lemma NextPhase(s: State)
    requires OwnerStep(s).Some? && !s.owner.Idle? && !AtLast(s.owner) && !AtSlot(s.owner)
    ensures PhaseOf(OwnerStep(s).value.owner) == PhaseOf(s.owner)
  {
    if InGo(s.owner) {
      GoPhase(s);
    } else {
      RestPhase(s);
    }
    hide OwnerStep, PhaseOf;
  }

  lemma GoPhase(s: State)
    requires OwnerStep(s).Some? && InGo(s.owner) && !AtLast(s.owner)
    ensures PhaseOf(OwnerStep(s).value.owner) == PhaseOf(s.owner)
  {
    hide Grown, Stored, Counted;
  }

  lemma RestPhase(s: State)
    requires OwnerStep(s).Some? && !s.owner.Idle? && !InGo(s.owner) && !AtSlot(s.owner)
    ensures PhaseOf(OwnerStep(s).value.owner) == PhaseOf(s.owner)
  {
  }

  lemma BeginContext(s: State)
    requires InvContext(s) && s.owner.Idle? && OwnerStep(s).Some?
    ensures InvContext(OwnerStep(s).value)
  {
    BeginShape(s);
    hide OwnerStep;
    var s' := OwnerStep(s).value;
    forall i | 0 <= i < |s'.tasks|
      ensures ContextOk(s'.tasks[i], TaskPhase(s', i))
    {
      if i < |s.tasks| {
        assert s'.tasks[i] == s.tasks[i] && ContextOk(s.tasks[i], Over);
      }
    }
  }

  /** The owner's own steps on its last task. */
  lemma LastPhase(s: State)
    requires AtLast(s.owner) && OwnerStep(s).Some? && s.tasks != []
    requires var t := s.tasks[|s.tasks| - 1];
             ContextOk(t, PhaseOf(s.owner)) && (!s.owner.GoMark? ==> t.worker.Absent?)
    ensures ContextOk(LastAfter(s, s.tasks[|s.tasks| - 1]), PhaseOf(OwnerStep(s).value.owner))
  {
    if s.owner.GoStore? {
      StoreShape(s);
    } else {
      LastShape(s);
    }
    hide OwnerStep, Stored;
  }

  lemma LastContext(s: State)
    requires InvContext(s) && AtLast(s.owner) && OwnerStep(s).Some?
    requires s.tasks != [] && !s.owner.GoMark? ==> s.tasks[|s.tasks| - 1].worker.Absent?
    ensures InvContext(OwnerStep(s).value)
  {
    LastTasks(s);
    var s', last := OwnerStep(s).value, |s.tasks| - 1;
    assert ContextOk(s.tasks[last], TaskPhase(s, last));
    LastPhase(s);
    hide OwnerStep, LastAfter, PhaseOf, ContextOk;
    forall i | 0 <= i < |s'.tasks|
      ensures ContextOk(s'.tasks[i], TaskPhase(s', i))
    {
      assert ContextOk(s.tasks[i], TaskPhase(s, i));
    }
  }

  lemma OtherContext(s: State)
    requires InvContext(s) && !s.owner.Idle? && !AtLast(s.owner) && OwnerStep(s).Some?
    ensures InvContext(OwnerStep(s).value)
  {
    OwnerTasks(s);
    PhaseKept(s);
    hide OwnerStep, PhaseOf;
    var s' := OwnerStep(s).value;
    forall i | 0 <= i < |s'.tasks|
      ensures ContextOk(s'.tasks[i], TaskPhase(s', i))
    {
      assert ContextOk(s.tasks[i], TaskPhase(s, i)) && SameWork(s.tasks[i], s'.tasks[i]);
    }
  }

  /** A thread reads and frees its own block, once, before anything else. */
  lemma WorkerContext(s: State, s': State, i: nat, runner: Runner)
    requires InvContext(s) && Moved(s, s', i, runner)
    requires InGo(s.owner) && !s.owner.GoMark? && s.tasks != [] ==> s.tasks[|s.tasks| - 1].worker.Absent?
    ensures InvContext(s')
  {
    assert PhaseOf(s'.owner) == PhaseOf(s.owner) && (PhaseOf(s.owner) != Over ==> InGo(s.owner) && !s.owner.GoMark?);
    assert !s.tasks[i].worker.Absent? && ContextOk(s.tasks[i], TaskPhase(s, i));
    assert ContextOk(s'.tasks[i], TaskPhase(s', i));
    hide Moved, PhaseOf, ContextOk, InGo;
    forall k | 0 <= k < |s'.tasks|
      ensures ContextOk(s'.tasks[k], TaskPhase(s', k))
    {
      if k != i {
        assert ContextOk(s.tasks[k], TaskPhase(s, k));
      }
    }
  }

  lemma StepKeepsContext(s: State, a: Action, runner: Runner)
    requires Inv(s, runner) && InvContext(s) && Next(s, a, runner).Some?
    ensures InvContext(Next(s, a, runner).value)
  {
    hide OwnerStep, WorkerStep, InvContext, InvArgs, InvTable, InvLock, InvCount, InvBlocked, InvWaited, InvLive;
    match a {
      case Own =>
        if s.owner.Idle? {
          BeginContext(s);
        } else if AtLast(s.owner) {
          LastContext(s);
        } else {
          OtherContext(s);
        }
      case Work(i) =>
        WorkerMoves(s, i, runner);
        WorkerContext(s, WorkerStep(s, i, runner).value, i, runner);
      case _ => SamePhase(s, Next(s, a, runner).value);
    }
  }

  lemma SamePhase(s: State, s': State)
    requires InvContext(s) && s'.tasks == s.tasks && PhaseOf(s'.owner) == PhaseOf(s.owner)
    ensures InvContext(s')
  {
    hide PhaseOf, ContextOk;
    forall i | 0 <= i < |s'.tasks|
      ensures ContextOk(s'.tasks[i], TaskPhase(s', i))
    {
      assert ContextOk(s.tasks[i], TaskPhase(s, i));
    }
  }

  lemma {:induction false} RunKeepsContext(prog: seq<Cmd>, actions: seq<Action>, runner: Runner)
    requires WellFormed(prog) && Run(Initial(prog), actions, runner).Some?
    ensures InvContext(Run(Initial(prog), actions, runner).value)
    decreases |actions|
  {
    if actions != [] {
      var n := |actions| - 1;
      RunKeepsContext(prog, actions[..n], runner);
      RunKeepsInv(prog, actions[..n], runner);
      StepKeepsContext(Run(Initial(prog), actions[..n], runner).value, actions[n], runner);
      hide Inv, InvContext, Next, Initial;
    }
  }

  /**
   In every run the block of every task is freed at most once, by its thread as soon as that has read it or by the owner
   where there is no thread; once the group is gone none is left.
   */
  lemma ContextFreedOnce(prog: seq<Cmd>, actions: seq<Action>, i: nat, runner: Runner)
    requires WellFormed(prog) && Run(Initial(prog), actions, runner).Some?
    requires i < |Run(Initial(prog), actions, runner).value.tasks|
    ensures var s := Run(Initial(prog), actions, runner).value;
            var t := s.tasks[i];
            && t.contextFrees <= 1 && !(t.context && t.contextFrees == 1)
            && (t.worker.Starting? ==> t.context)
            && (!t.worker.Absent? && !t.worker.Starting? ==> t.contextFrees == 1)
            && (!s.groupLive ==> t.contextFrees == 1)
  {
    RunKeepsContext(prog, actions, runner);
    RunKeepsInv(prog, actions, runner);
    var s := Run(Initial(prog), actions, runner).value;
    hide Run;
    assert ContextOk(s.tasks[i], TaskPhase(s, i));
    assert TaskOk(s.tasks[i], runner, Marking(s, i));
  }
}
