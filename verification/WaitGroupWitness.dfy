/** A run in which the only thread cannot be created: its slot ends with neither a result nor an error. */
module WaitGroupWitness {
  import opened Wrappers
  import opened Values
  import opened WaitGroup
  import opened WaitGroupSafety

  const PROGRAM := [Go(Null), Wait]

  /** A state of the run, once the task is there. */
  function Place(pc: nat, owner: Owner, lock: Holder, g: Group<nat>, t: Task): State {
    State(PROGRAM, pc, owner, lock, g, [t], true, true, true)
  }

  const EMPTY: Group<nat> := Group(0, 0, [])

  /** The group with the one slot taken. */
  function OneSlot(remaining: int): Group<nat> {
    Group(remaining, 1, [Some(0)] + seq(7, _ => None))
  }

  /** One step more. */
  lemma Take(s: State, actions: seq<Action>, cur: State, a: Action, runner: Runner)
    returns (more: seq<Action>, next: State)
    requires Run(s, actions, runner) == Some(cur) && Next(cur, a, runner).Some?
    ensures next == Next(cur, a, runner).value && Run(s, more, runner) == Some(next)
  {
    more, next := actions + [a], Next(cur, a, runner).value;
    assert more[..|actions|] == actions;
    hide Next;
  }

  /** The task: new, with its context block, and in the end. */
  const FRESH := NewTask(Null)
  const HELD := FRESH.(context := true)
  const FAILED := ContextFreed(HELD)

  lemma FirstSlot()
    ensures var g := Grown(EMPTY);
            g.count == 0 && |g.table| == 8 && Stored(g, 0) == OneSlot(0)
    ensures Counted(OneSlot(0), 1) == OneSlot(1) && Counted(OneSlot(1), -1) == OneSlot(0)
  {
  }

  lemma Begins()
    ensures OwnerStep(Initial(PROGRAM)) == Some(Place(0, GoLock, Nobody, EMPTY, FRESH))
    ensures OwnerStep(Place(1, Idle, Nobody, OneSlot(0), FAILED)) == Some(Place(1, WaitLock, Nobody, OneSlot(0), FAILED))
  {
    assert [] + [FRESH] == [FRESH];
    hide OneSlot;
  }

  lemma Grows()
    ensures OwnerStep(Place(0, GoLock, Nobody, EMPTY, FRESH)) == Some(Place(0, GoGrow, Main, EMPTY, FRESH))
    ensures OwnerStep(Place(0, GoGrow, Main, EMPTY, FRESH)) == Some(Place(0, GoStore, Main, Grown(EMPTY), FRESH))
  {
    hide Grown;
  }

  lemma Stores(g: Group<nat>, t: Task)
    requires g.count == 0 && |g.table| > 0 && t.slot == 0
    ensures OwnerStep(Place(0, GoStore, Main, g, t)) == Some(Place(0, GoCount, Main, Stored(g, 0), t))
  {
    assert [t][0 := t.(slot := 0)] == [t];
  }

  lemma StoresFirst()
    ensures OwnerStep(Place(0, GoStore, Main, Grown(EMPTY), FRESH)) == Some(Place(0, GoCount, Main, OneSlot(0), FRESH))
  {
    FirstSlot();
    Stores(Grown(EMPTY), FRESH);
    hide OwnerStep, Place, Grown, Stored, OneSlot;
  }

  lemma Counts(t: Task)
    ensures OwnerStep(Place(0, GoCount, Main, OneSlot(0), t)) == Some(Place(0, GoUnlock, Main, OneSlot(1), t))
    ensures OwnerStep(Place(0, GoFailCount, Main, OneSlot(1), t)) == Some(Place(0, GoFailUnlock, Main, OneSlot(0), t))
  {
    FirstSlot();
    hide OneSlot, Counted;
  }

  lemma Unlocks(g: Group<nat>, t: Task)
    ensures OwnerStep(Place(0, GoUnlock, Main, g, t)) == Some(Place(0, GoContext, Nobody, g, t))
    ensures OwnerStep(Place(0, GoFailLock, Nobody, g, t)) == Some(Place(0, GoFailCount, Main, g, t))
    ensures OwnerStep(Place(0, GoFailUnlock, Main, g, t)) == Some(Place(0, GoFailMark, Nobody, g, t))
  {
  }

  lemma Contexts(g: Group<nat>)
    ensures OwnerStep(Place(0, GoContext, Nobody, g, FRESH)) == Some(Place(0, GoCreate, Nobody, g, HELD))
    ensures CreateFails(Place(0, GoCreate, Nobody, g, HELD)) == Some(Place(0, GoFailFree, Nobody, g, HELD))
    ensures OwnerStep(Place(0, GoFailFree, Nobody, g, HELD)) == Some(Place(0, GoFailLock, Nobody, g, FAILED))
  {
    assert [FRESH][0 := HELD] == [HELD] && [HELD][0 := FAILED] == [FAILED];
  }

  lemma Ends(g: Group<nat>)
    ensures OwnerStep(Place(0, GoFailMark, Nobody, g, FAILED)) == Some(Place(1, Idle, Nobody, g, FAILED))
  {
    assert [FAILED][0 := FAILED] == [FAILED];
  }

  lemma Waits(g: Group<nat>)
    requires g.remaining == 0
    ensures OwnerStep(Place(1, WaitLock, Nobody, g, FAILED)) == Some(Place(1, WaitTest, Main, g, FAILED))
    ensures OwnerStep(Place(1, WaitTest, Main, g, FAILED)) == Some(Place(1, WaitUnlock, Main, g, FAILED))
    ensures OwnerStep(Place(1, WaitUnlock, Main, g, FAILED)) == Some(Place(1, WaitJoin(0), Nobody, g, FAILED))
  {
  }

  lemma Skips()
    ensures OwnerStep(Place(1, WaitJoin(0), Nobody, OneSlot(0), FAILED))
         == Some(Place(1, WaitJoin(1), Nobody, OneSlot(0), FAILED))
  {
  }

  lemma ToCreate(runner: Runner) returns (actions: seq<Action>)
    ensures Run(Initial(PROGRAM), actions, runner) == Some(Place(0, GoCreate, Nobody, OneSlot(1), HELD))
  {
    Begins();
    Grows();
    StoresFirst();
    Counts(FRESH);
    Unlocks(OneSlot(1), FRESH);
    Contexts(OneSlot(1));
    var s, cur := Initial(PROGRAM), Initial(PROGRAM);
    actions := [];
    assert Run(s, actions, runner) == Some(s);
    hide Run, OwnerStep, CreateFails, Initial, Place, OneSlot, Grown, Stored, Counted, NewTask, ContextFreed;
    actions, cur := Take(s, actions, cur, Own, runner);
    actions, cur := Take(s, actions, cur, Own, runner);
    actions, cur := Take(s, actions, cur, Own, runner);
    actions, cur := Take(s, actions, cur, Own, runner);
    actions, cur := Take(s, actions, cur, Own, runner);
    actions, cur := Take(s, actions, cur, Own, runner);
    actions, cur := Take(s, actions, cur, Own, runner);
  }

  /** `wg_go`, whose thread cannot be created. */
  lemma GoFails(runner: Runner) returns (actions: seq<Action>)
    ensures Run(Initial(PROGRAM), actions, runner) == Some(Place(1, Idle, Nobody, OneSlot(0), FAILED))
  {
    Contexts(OneSlot(1));
    Unlocks(OneSlot(1), FAILED);
    Counts(FAILED);
    Unlocks(OneSlot(0), FAILED);
    Ends(OneSlot(0));
    actions := ToCreate(runner);
    var s, cur := Initial(PROGRAM), Place(0, GoCreate, Nobody, OneSlot(1), HELD);
    hide Run, OwnerStep, CreateFails, Initial, Place, OneSlot, NewTask, ContextFreed;
    actions, cur := Take(s, actions, cur, Fail, runner);
    actions, cur := Take(s, actions, cur, Own, runner);
    actions, cur := Take(s, actions, cur, Own, runner);
    actions, cur := Take(s, actions, cur, Own, runner);
    actions, cur := Take(s, actions, cur, Own, runner);
    actions, cur := Take(s, actions, cur, Own, runner);
  }

  /** The program runs to the return of `wg_wait`, and its slot holds neither a result nor an error. */
  lemma FailedSlotIsEmpty(runner: Runner) returns (actions: seq<Action>)
    ensures WellFormed(PROGRAM) && Run(Initial(PROGRAM), actions, runner).Some?
    ensures var s := Run(Initial(PROGRAM), actions, runner).value; WaitReturns(s) && Results(s) == [None]
  {
    Begins();
    Waits(OneSlot(0));
    Skips();
    LastPlace();
    actions := GoFails(runner);
    var s, cur := Initial(PROGRAM), Place(1, Idle, Nobody, OneSlot(0), FAILED);
    hide Run, OwnerStep, Initial, Place, OneSlot, ContextFreed, Results, WaitReturns;
    actions, cur := Take(s, actions, cur, Own, runner);
    actions, cur := Take(s, actions, cur, Own, runner);
    actions, cur := Take(s, actions, cur, Own, runner);
    actions, cur := Take(s, actions, cur, Own, runner);
    actions, cur := Take(s, actions, cur, Own, runner);
  }

  lemma LastPlace()
    ensures WaitReturns(Place(1, WaitJoin(1), Nobody, OneSlot(0), FAILED))
    ensures Results(Place(1, WaitJoin(1), Nobody, OneSlot(0), FAILED)) == [None]
  {
  }
}
