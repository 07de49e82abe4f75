/**
 The record behind a wait group, updated in place: the statements that run under the mutex, and the join loop. Each is
 the step, or the few steps, of the machine that `WaitGroup` names.
 */
module WaitGroupRecord {
  import opened Wrappers
  import opened WaitGroup
  import opened WaitGroupInvariant

  /** What the owner keeps in a `task_t`. `joins` counts the calls of `pthread_join`. */
  class TaskCell {
    var slot: nat
    var joinable: bool
    ghost var joins: nat

    constructor ()
      ensures slot == 0 && !joinable && joins == 0
    {
      slot, joinable, joins := 0, false, 0;
    }
  }

  /** A NULL pointer is an empty slot. */
  function Pointers(cells: seq<TaskCell?>): (r: seq<Option<TaskCell>>)
    ensures |r| == |cells|
    ensures forall i | 0 <= i < |cells| :: r[i] == PointerTo(cells[i])
  {
    if cells == [] then [] else Pointers(cells[..|cells| - 1]) + [PointerTo(cells[|cells| - 1])]
  }

  function PointerTo(t: TaskCell?): Option<TaskCell> {
    if t == null then None else Some(t)
  }

  // ---------- The join loop of the machine ----------

  /** The owner's steps from a place in the join loop of `wg_wait` to its end, if it need not wait for a thread. */
  function Joined(s: State): Option<State>
    decreases if s.owner.WaitJoin? then s.group.count - s.owner.i else 0
  {
    if !s.owner.WaitJoin? || s.owner.i >= s.group.count then Some(s)
    else
      match Join(s, s.owner.i, true, WaitJoin(s.owner.i + 1))
      case None => None
      case Some(s') => Joined(s')
  }

  function JoinedTasks(ts: seq<Task>, from: nat, to: nat): seq<Task> {
    seq(|ts|, i requires 0 <= i < |ts| => if from <= i < to then AfterJoining(ts[i], true) else ts[i])
  }

  /** Slot i holds task i, and the threads that are still to be joined have exited. */
  ghost predicate CanJoin(s: State) {
    && s.owner.WaitJoin? && s.owner.i <= s.group.count <= |s.group.table| && s.group.count <= |s.tasks|
    && (forall i | 0 <= i < s.group.count :: s.group.table[i] == Some(i))
    && forall i | s.owner.i <= i < s.group.count && s.tasks[i].joinable :: s.tasks[i].worker.Exited?
  }

  lemma {:induction false} JoinedEffect(s: State)
    requires CanJoin(s)
    ensures Joined(s)
         == Some(s.(tasks := JoinedTasks(s.tasks, s.owner.i, s.group.count), owner := WaitJoin(s.group.count)))
    decreases s.group.count - s.owner.i
  {
    var i := s.owner.i;
    if i == s.group.count {
      assert JoinedTasks(s.tasks, i, i) == s.tasks;
    } else {
      var s' := s.(tasks := s.tasks[i := AfterJoining(s.tasks[i], true)], owner := WaitJoin(i + 1));
      assert s.tasks[i := s.tasks[i]] == s.tasks;
      assert Join(s, i, true, WaitJoin(i + 1)) == Some(s');
      JoinedEffect(s');
      assert JoinedTasks(s'.tasks, i + 1, s.group.count) == JoinedTasks(s.tasks, i, s.group.count);
    }
  }

  function Owns(n: nat): seq<Action> {
    seq(n, _ => Own)
  }

  lemma {:induction false} RunFirst(s: State, a: Action, rest: seq<Action>, runner: Runner)
    requires Next(s, a, runner).Some?
    ensures Run(s, [a] + rest, runner) == Run(Next(s, a, runner).value, rest, runner)
    decreases |rest|
  {
    hide Next;
    if rest == [] {
      assert [a] + rest == [a] && [a][..0] == [];
    } else {
      var n := |rest| - 1;
      assert ([a] + rest)[..|rest|] == [a] + rest[..n];
      RunFirst(s, a, rest[..n], runner);
    }
  }

  /** The loop is a run of the machine in which only the owner moves. */
  lemma {:induction false} JoinedIsRun(s: State, runner: Runner)
    requires CanJoin(s)
    ensures Run(s, Owns(s.group.count - s.owner.i), runner) == Joined(s)
    decreases s.group.count - s.owner.i
  {
    var i, n := s.owner.i, s.group.count - s.owner.i;
    if n > 0 {
      var s' := s.(tasks := s.tasks[i := AfterJoining(s.tasks[i], true)], owner := WaitJoin(i + 1));
      assert s.tasks[i := s.tasks[i]] == s.tasks;
      assert Next(s, Own, runner) == Some(s');
      hide Next, Run;
      RunFirst(s, Own, Owns(n - 1), runner);
      assert Owns(n) == [Own] + Owns(n - 1);
      JoinedIsRun(s', runner);
    }
  }

  class GroupRecord {
    var remaining: int
    var tasks: array?<TaskCell?>
    var count: nat
    var cap: nat

    constructor ()
      ensures Valid() && View() == Group(0, 0, [])
      ensures tasks == null
    {
      remaining, tasks, count, cap := 0, null, 0, 0;
    }

    ghost predicate Valid()
      reads this
    {
      (tasks == null <==> cap == 0) && (tasks != null ==> tasks.Length == cap) && count <= cap
    }

    /** The fields as the machine sees them. */
    ghost function View(): Group<TaskCell>
      requires Valid()
      reads this, tasks
    {
      Group(remaining, count, if tasks == null then [] else Pointers(tasks[..]))
    }

    /** `grow`. */
    method Grow()
      requires Valid()
      modifies this
      ensures Valid() && View() == Grown(old(View()))
      ensures fresh(tasks) && count < cap
      ensures cap == (if old(cap) == 0 then 8 else old(cap) * 2) && count == old(count) && remaining == old(remaining)
      ensures forall i | 0 <= i < old(cap) :: tasks[i] == old(tasks[i])
    {
      var newCap := if cap == 0 then 8 else cap * 2;
      var newTasks := new TaskCell?[newCap](_ => null);
      forall i | 0 <= i < cap {
        newTasks[i] := tasks[i];
      }
      tasks, cap := newTasks, newCap;
    }

    /** The critical section of `wg_go`. */
    method Register(task: TaskCell)
      requires Valid()
      modifies this, tasks, task`slot
      ensures Valid() && task.slot == old(count)
      ensures var before := old(View());
              var room := if before.count == |before.table| then Grown(before) else before;
              room.count < |room.table| && View() == Counted(Stored(room, task), 1)
      ensures count == old(count) + 1 && remaining == old(remaining) + 1 && task.slot == old(count)
      ensures tasks != null && count <= tasks.Length && tasks[old(count)] == task
      ensures forall i | 0 <= i < old(count) :: tasks[i] == old(tasks[i])
    {
      if count == cap {
        Grow();
      }
      task.slot := count;
      tasks[count] := task;
      count := count + 1;
      remaining := remaining + 1;
    }

    /** The critical section that follows a failed `pthread_create`; it wakes nobody. */
    method RollBack()
      requires Valid()
      modifies this`remaining
      ensures Valid() && View() == Counted(old(View()), -1) && remaining == old(remaining) - 1
    {
      remaining := remaining - 1;
    }

    /** `wg_signal_done`, under the mutex: whether it broadcasts. */
    method SignalDone() returns (wake: bool)
      requires Valid()
      modifies this`remaining
      ensures Valid() && View() == Counted(old(View()), -1)
      ensures remaining == old(remaining) - 1 && (wake <==> remaining == 0)
    {
      remaining := remaining - 1;
      wake := remaining == 0;
    }

    /** The slots that are in use. */
    ghost function Cells(): seq<TaskCell?>
      requires Valid()
      reads this, tasks
    {
      if tasks == null then [] else tasks[..count]
    }

    /** The loop of `wg_wait`: every joinable task is joined once and is not joinable afterwards. */
    method JoinAll()
      requires Valid()
      requires forall i, j | 0 <= i < j < |Cells()| && Cells()[i] != null :: Cells()[i] != Cells()[j]
      modifies Cells()
      ensures Valid() && Cells() == old(Cells()) && View() == old(View())
      ensures forall i | 0 <= i < |Cells()| && Cells()[i] != null ::
                var t := Cells()[i];
                !t.joinable && t.joins == old(t.joins) + (if old(t.joinable) then 1 else 0) && t.slot == old(t.slot)
    {
      var i := 0;
      ghost var cells := Cells();
      while i < count
        invariant 0 <= i <= count == |cells| && Cells() == cells
        invariant forall j | 0 <= j < i && cells[j] != null ::
                    !cells[j].joinable && cells[j].slot == old(cells[j].slot)
                    && cells[j].joins == old(cells[j].joins) + (if old(cells[j].joinable) then 1 else 0)
        invariant forall j | i <= j < count && cells[j] != null ::
                    cells[j].joinable == old(cells[j].joinable) && cells[j].joins == old(cells[j].joins)
                    && cells[j].slot == old(cells[j].slot)
      {
        var t := tasks[i];
        assert t == cells[i];
        if t != null && t.joinable {
          t.joins := t.joins + 1;
          t.joinable := false;
        }
        i := i + 1;
      }
    }

    /** The record is what a state of the machine looks like in memory. */
    ghost predicate Shows(s: State)
      requires Valid()
      reads this, tasks, Cells()
    {
      && remaining == s.group.remaining && count == s.group.count && cap == |s.group.table| && count <= |s.tasks|
      && (forall i, j | 0 <= i < j < |Cells()| && Cells()[i] != null :: Cells()[i] != Cells()[j])
      && forall i | 0 <= i < |Cells()| ::
           && s.group.table[i] == Some(i) && Cells()[i] != null
           && var t := Cells()[i];
           t.slot == s.tasks[i].slot && t.joinable == s.tasks[i].joinable && t.joins == s.tasks[i].joins
    }

    /** The end of `wg_wait`: from where the machine is at its join loop, the record shows where the machine ends up. */
    method WaitJoins(ghost s: State, ghost runner: Runner)
      requires Valid() && Shows(s) && CanJoin(s) && s.owner == WaitJoin(0)
      modifies Cells()
      ensures Valid() && Joined(s).Some? && Shows(Joined(s).value)
      ensures Run(s, Owns(count), runner) == Joined(s) && Joined(s).value.owner == WaitJoin(count)
    {
      JoinedEffect(s);
      JoinedIsRun(s, runner);
      hide Run, Joined;
      JoinAll();
    }

    /** `wg_get`: NULL behind the last slot. */
    method Get(slot: nat) returns (t: TaskCell?)
      requires Valid()
      ensures t == if slot < |Cells()| then Cells()[slot] else null
    {
      t := if slot >= count then null else tasks[slot];
    }
  }
}
