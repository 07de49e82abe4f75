/** The steps of the wait group, sorted by what they change: the shapes that the proofs about all steps go by. */
module WaitGroupSteps {
  import opened WaitGroup

  /** Steps on the task that the current `wg_go` has allocated. */
  predicate AtLast(o: Owner) {
    o.GoStore? || o.GoContext? || o.GoCreate? || o.GoMark? || o.GoFailFree? || o.GoFailMark?
  }

  /** Steps on the task in slot i of the table. */
  predicate AtSlot(o: Owner) {
    o.WaitJoin? || o.FreeJoin? || o.FreeTask?
  }

  /** Steps that end a command. */
  predicate EndsGo(o: Owner) {
    o.GoMark? || o.GoFailMark?
  }

  /** What `wg_go` does to its task. */
  function LastAfter(s: State, t: Task): Task {
    match s.owner
    case GoStore => t.(slot := s.group.count)
    case GoContext => t.(context := true)
    case GoCreate => t.(worker := Starting)
    case GoMark => t.(joinable := true)
    case GoFailFree => ContextFreed(t)
    case _ => t.(joinable := false)
  }

  /** The thread, the arguments, the outcome and the context of a task are as they were. */
  predicate SameWork(t: Task, t': Task) {
    t' == t.(slot := t'.slot, joinable := t'.joinable, joins := t'.joins, live := t'.live)
  }

  /** Where the owner goes on once it has joined the task in a slot. */
  function AfterJoin(o: Owner): Owner
    requires o.WaitJoin? || o.FreeJoin?
  {
    if o.WaitJoin? then WaitJoin(o.i + 1) else FreeTask(o.i)
  }

  lemma BeginShape(s: State)
    requires s.owner.Idle? && OwnerStep(s).Some?
    ensures s.pc < |s.prog|
    ensures OwnerStep(s).value == match s.prog[s.pc]
                                  case Go(args) => s.(tasks := s.tasks + [NewTask(args)], owner := GoLock)
                                  case Wait => s.(owner := WaitLock)
                                  case Destroy => s.(owner := FreeJoin(0))
  {
  }

  lemma StoreShape(s: State)
    requires s.owner.GoStore? && OwnerStep(s).Some?
    ensures s.tasks != [] && s.group.count < |s.group.table|
    ensures var last := |s.tasks| - 1;
            OwnerStep(s).value == s.(tasks := s.tasks[last := LastAfter(s, s.tasks[last])],
                                     group := Stored(s.group, last), owner := GoCount)
  {
  }

  lemma ContextShape(s: State)
    requires (s.owner.GoContext? || s.owner.GoFailFree?) && OwnerStep(s).Some?
    ensures s.tasks != []
    ensures var last := |s.tasks| - 1;
            OwnerStep(s).value == s.(tasks := s.tasks[last := LastAfter(s, s.tasks[last])],
                                     owner := if s.owner.GoContext? then GoCreate else GoFailLock)
  {
  }

  lemma CreateShape(s: State)
    requires s.owner.GoCreate? && OwnerStep(s).Some?
    ensures s.tasks != []
    ensures var last := |s.tasks| - 1;
            OwnerStep(s).value == s.(tasks := s.tasks[last := LastAfter(s, s.tasks[last])], owner := GoMark)
  {
  }

  lemma GoEndShape(s: State)
    requires EndsGo(s.owner) && OwnerStep(s).Some?
    ensures s.tasks != []
    ensures var last := |s.tasks| - 1;
            OwnerStep(s).value == s.(tasks := s.tasks[last := LastAfter(s, s.tasks[last])], owner := Idle, pc := s.pc + 1)
  {
  }

  /** Where `wg_go` goes on behind a step on its task. */
  function LastNext(o: Owner): Owner {
    match o
    case GoContext => GoCreate
    case GoCreate => GoMark
    case GoFailFree => GoFailLock
    case _ => Idle
  }

  lemma LastShape(s: State)
    requires AtLast(s.owner) && s.owner != GoStore && OwnerStep(s).Some?
    ensures s.tasks != []
    ensures var last := |s.tasks| - 1;
            OwnerStep(s).value == s.(tasks := s.tasks[last := LastAfter(s, s.tasks[last])], owner := LastNext(s.owner),
                                     pc := if EndsGo(s.owner) then s.pc + 1 else s.pc)
  {
    hide OwnerStep, LastAfter;
    if s.owner.GoCreate? {
      CreateShape(s);
    } else if EndsGo(s.owner) {
      GoEndShape(s);
    } else {
      ContextShape(s);
    }
  }

  lemma LastTasks(s: State)
    requires AtLast(s.owner) && OwnerStep(s).Some?
    ensures s.tasks != []
    ensures OwnerStep(s).value.tasks == s.tasks[|s.tasks| - 1 := LastAfter(s, s.tasks[|s.tasks| - 1])]
  {
    hide OwnerStep, LastAfter, Stored;
    if s.owner.GoStore? {
      StoreShape(s);
    } else {
      LastShape(s);
    }
  }

  lemma JoinWork(s: State, slot: nat, unmark: bool, owner: Owner)
    requires Join(s, slot, unmark, owner).Some?
    ensures var s' := Join(s, slot, unmark, owner).value;
            && s' == s.(tasks := s'.tasks, owner := owner) && |s'.tasks| == |s.tasks|
            && forall i | 0 <= i < |s.tasks| :: SameWork(s.tasks[i], s'.tasks[i])
  {
  }

  lemma FreeWork(s: State)
    requires s.owner.FreeTask? && OwnerStep(s).Some?
    ensures var s' := OwnerStep(s).value;
            && |s'.tasks| == |s.tasks| && forall i | 0 <= i < |s.tasks| :: SameWork(s.tasks[i], s'.tasks[i])
  {
  }

  lemma JoinIsStep(s: State)
    requires (s.owner.WaitJoin? || s.owner.FreeJoin?) && s.owner.i < s.group.count
    ensures OwnerStep(s)
         == Join(s, s.owner.i, s.owner.WaitJoin?, AfterJoin(s.owner))
  {
  }

  lemma JoinIsOver(s: State)
    requires (s.owner.WaitJoin? || s.owner.FreeJoin?) && s.owner.i >= s.group.count
    ensures OwnerStep(s).Some? && OwnerStep(s).value.tasks == s.tasks
  {
  }

  lemma SlotTasks(s: State)
    requires AtSlot(s.owner) && OwnerStep(s).Some?
    ensures |OwnerStep(s).value.tasks| == |s.tasks|
    ensures forall i | 0 <= i < |s.tasks| :: SameWork(s.tasks[i], OwnerStep(s).value.tasks[i])
  {
    hide OwnerStep, Join;
    if s.owner.FreeTask? {
      FreeWork(s);
    } else if s.owner.i < s.group.count {
      JoinIsStep(s);
      JoinWork(s, s.owner.i, s.owner.WaitJoin?, AfterJoin(s.owner));
    } else {
      JoinIsOver(s);
    }
  }

  lemma OtherTasks(s: State)
    requires !s.owner.Idle? && !AtLast(s.owner) && !AtSlot(s.owner) && OwnerStep(s).Some?
    ensures OwnerStep(s).value.tasks == s.tasks
  {
    hide Grown, Stored, Counted, Join, LastTask;
  }

  /** Everything that the owner does to the tasks, in one place. */
  lemma OwnerTasks(s: State)
    requires OwnerStep(s).Some?
    ensures var ts, ts' := s.tasks, OwnerStep(s).value.tasks;
            if s.owner.Idle? then
              s.pc < |s.prog| && ts' == if s.prog[s.pc].Go? then ts + [NewTask(s.prog[s.pc].args)] else ts
            else if AtLast(s.owner) then ts != [] && ts' == ts[|ts| - 1 := LastAfter(s, ts[|ts| - 1])]
            else |ts'| == |ts| && forall i | 0 <= i < |ts| :: SameWork(ts[i], ts'[i])
  {
    hide OwnerStep, LastAfter;
    if s.owner.Idle? {
      BeginShape(s);
    } else if AtLast(s.owner) {
      LastTasks(s);
    } else if AtSlot(s.owner) {
      SlotTasks(s);
    } else {
      OtherTasks(s);
    }
  }

  /** The statements that change the counter or the table. */
  predicate ChangesGroup(o: Owner) {
    o.GoGrow? || o.GoStore? || o.GoCount? || o.GoFailCount?
  }

  lemma JoinKeepsGroup(s: State, slot: nat, unmark: bool, owner: Owner)
    requires Join(s, slot, unmark, owner).Some?
    ensures Join(s, slot, unmark, owner).value.group == s.group
  {
  }

  lemma OwnerGroup(s: State)
    requires OwnerStep(s).Some? && !ChangesGroup(s.owner)
    ensures OwnerStep(s).value.group == s.group
  {
    hide Grown, Stored, Counted, Join;
    if (s.owner.WaitJoin? || s.owner.FreeJoin?) && s.owner.i < s.group.count {
      JoinIsStep(s);
      JoinKeepsGroup(s, s.owner.i, s.owner.WaitJoin?, AfterJoin(s.owner));
    }
  }
}
