/**
 core/waitgroup.c as a step machine: one owner thread that runs a program of `wg_go`, `wg_wait` and `wg_destroy`, and one
 worker thread for every task whose `pthread_create` succeeded. A step is one access to the mutex, the condition
 variable or a thread, or one statement between two of them; every interleaving of the steps is a run.
 */
module WaitGroup {
  import opened Wrappers
  import opened Values

  /** What the runner leaves in its task: a result, or an error. */
  datatype Outcome = Outcome(ok: bool, result: Value, error: Value)

  /** The task runner, as a function of the task's arguments that writes nothing but its task. */
  type Runner = Value -> Outcome

  datatype Cmd = Go(args: Value) | Wait | Destroy

  datatype Worker =
    | Absent        // no thread was created, or not yet
    | Starting      // `worker_thread` has not yet read and freed its context
    | Running       // about to call the runner
    | WantsLock     // in `wg_signal_done`, before the mutex
    | Counting      // holds the mutex, before `--remaining`
    | Broadcasting  // holds the mutex, `remaining` has just become 0
    | Unlocking     // holds the mutex, before the unlock
    | Leaving       // before `return NULL`
    | Exited

  datatype Owner =
    | Idle
    | GoLock | GoGrow | GoStore | GoCount | GoUnlock | GoContext | GoCreate | GoMark
    | GoFailFree | GoFailLock | GoFailCount | GoFailUnlock | GoFailMark
    | WaitLock | WaitTest | Blocked | WaitUnlock | WaitJoin(i: nat)
    | FreeJoin(i: nat) | FreeTask(i: nat) | FreeTable | FreeLock | FreeGroup

  datatype Holder = Nobody | Main | Thread(i: nat)

  /**
   A task: its memory and its thread. `runs` and `joins` count what happened to it. `context` says whether the block with
   the two pointers for its thread is allocated, and `contextFrees` how often it was freed.
   */
  datatype Task = Task(args: Value, slot: nat, live: bool, worker: Worker, joinable: bool,
                       outcome: Option<Outcome>, runs: nat, joins: nat, context: bool, contextFrees: nat)

  /** The task that `wg_go` allocates. */
  function NewTask(args: Value): Task {
    Task(args, 0, true, Absent, false, None, 0, 0, false, 0)
  }

  /** The fields of `wait_group_t` that the mutex guards; the capacity is the length of the table. */
  datatype Group<T> = Group(remaining: int, count: nat, table: seq<Option<T>>)

  datatype State = State(prog: seq<Cmd>, pc: nat, owner: Owner, lock: Holder, group: Group<nat>, tasks: seq<Task>,
                         tableLive: bool, lockLive: bool, groupLive: bool)

  // ---------- The critical sections ----------

  /** `grow`: the old slots, and room behind them. */
  function Grown<T>(g: Group<T>): Group<T> {
    var cap := if |g.table| == 0 then 8 else |g.table| * 2;
    g.(table := g.table + seq(cap - |g.table|, _ => None))
  }

  function Stored<T>(g: Group<T>, task: T): Group<T>
    requires g.count < |g.table|
  {
    g.(table := g.table[g.count := Some(task)], count := g.count + 1)
  }

  function Counted<T>(g: Group<T>, change: int): Group<T> {
    g.(remaining := g.remaining + change)
  }

  // ---------- The owner ----------

  /** The command is over. */
  function Return(s: State): State {
    s.(pc := s.pc + 1, owner := Idle)
  }

  function Begin(s: State): Option<State> {
    if s.pc >= |s.prog| then None
    else match s.prog[s.pc]
      case Go(args) =>
        Some(s.(tasks := s.tasks + [NewTask(args)], owner := GoLock))
      case Wait => Some(s.(owner := WaitLock))
      case Destroy => Some(s.(owner := FreeJoin(0)))
  }

  /** Taking the mutex, once it is free. */
  function Acquire(s: State, owner: Owner): Option<State> {
    if s.lock == Nobody then Some(s.(lock := Main, owner := owner)) else None
  }

  function ContextFreed(t: Task): Task {
    t.(context := false, contextFrees := t.contextFrees + 1)
  }

  /** A step of the task that the current `wg_go` has allocated. */
  function LastTask(s: State, t: Task): State
    requires s.tasks != []
  {
    s.(tasks := s.tasks[|s.tasks| - 1 := t])
  }

  /** The task in a slot of the table. */
  function TaskIn(s: State, i: nat): Option<nat> {
    if i < |s.group.table| && s.group.table[i].Some? && s.group.table[i].value < |s.tasks| then s.group.table[i]
    else None
  }

  /** `pthread_join`, if the task in slot i is joinable: possible once the thread has exited. */
  function Join(s: State, i: nat, unmark: bool, owner: Owner): Option<State> {
    match TaskIn(s, i)
    case None => Some(s.(owner := owner))
    case Some(id) =>
      var t := s.tasks[id];
      if !t.joinable then Some(s.(owner := owner))
      else if t.worker != Exited then None
      else Some(s.(tasks := s.tasks[id := t.(joinable := !unmark, joins := t.joins + 1)], owner := owner))
  }

  /** The next step of the owner, or None while it has to wait. Of the two ends of `pthread_create` this is success. */
  function OwnerStep(s: State): Option<State> {
    match s.owner
    case Idle => Begin(s)
    case GoLock => Acquire(s, GoGrow)
    case GoGrow =>
      Some(s.(group := if s.group.count == |s.group.table| then Grown(s.group) else s.group, owner := GoStore))
    case GoStore =>
      if s.tasks == [] || s.group.count >= |s.group.table| then None
      else
        var id := |s.tasks| - 1;
        Some(LastTask(s, s.tasks[id].(slot := s.group.count)).(group := Stored(s.group, id), owner := GoCount))
    case GoCount => Some(s.(group := Counted(s.group, 1), owner := GoUnlock))
    case GoUnlock => Some(s.(lock := Nobody, owner := GoContext))
    case GoContext =>
      if s.tasks == [] then None
      else Some(LastTask(s, s.tasks[|s.tasks| - 1].(context := true)).(owner := GoCreate))
    case GoCreate =>
      if s.tasks == [] then None
      else Some(LastTask(s, s.tasks[|s.tasks| - 1].(worker := Starting)).(owner := GoMark))
    case GoMark =>
      if s.tasks == [] then None else Some(Return(LastTask(s, s.tasks[|s.tasks| - 1].(joinable := true))))
    case GoFailFree =>
      if s.tasks == [] then None
      else Some(LastTask(s, ContextFreed(s.tasks[|s.tasks| - 1])).(owner := GoFailLock))
    case GoFailLock => Acquire(s, GoFailCount)
    case GoFailCount => Some(s.(group := Counted(s.group, -1), owner := GoFailUnlock))
    case GoFailUnlock => Some(s.(lock := Nobody, owner := GoFailMark))
    case GoFailMark =>
      if s.tasks == [] then None else Some(Return(LastTask(s, s.tasks[|s.tasks| - 1].(joinable := false))))
    case WaitLock => Acquire(s, WaitTest)
    case WaitTest =>
      if s.group.remaining > 0 then Some(s.(lock := Nobody, owner := Blocked)) else Some(s.(owner := WaitUnlock))
    case Blocked => None
    case WaitUnlock => Some(s.(lock := Nobody, owner := WaitJoin(0)))
    case WaitJoin(i) => if i < s.group.count then Join(s, i, true, WaitJoin(i + 1)) else Some(Return(s))
    case FreeJoin(i) => if i < s.group.count then Join(s, i, false, FreeTask(i)) else Some(s.(owner := FreeTable))
    case FreeTask(i) => (
      match TaskIn(s, i)
      case None => Some(s.(owner := FreeJoin(i + 1)))
      case Some(id) => Some(s.(tasks := s.tasks[id := s.tasks[id].(live := false)], owner := FreeJoin(i + 1))))
    case FreeTable => Some(s.(tableLive := false, owner := FreeLock))
    case FreeLock => Some(s.(lockLive := false, owner := FreeGroup))
    case FreeGroup => Some(Return(s.(groupLive := false)))
  }

  /** The other end of `pthread_create`. */
  function CreateFails(s: State): Option<State> {
    if s.owner == GoCreate then Some(s.(owner := GoFailFree)) else None
  }

  /** `pthread_cond_wait` returns for no reason; it takes the mutex again before the loop tests again. */
  function WakeUp(s: State): Option<State> {
    if s.owner == Blocked then Some(s.(owner := WaitLock)) else None
  }

  // ---------- The workers ----------

  function WithWorker(s: State, i: nat, w: Worker): State
    requires i < |s.tasks|
  {
    s.(tasks := s.tasks[i := s.tasks[i].(worker := w)])
  }

  /** The next step of worker i, or None while it has to wait, or if there is no such thread. */
  function WorkerStep(s: State, i: nat, runner: Runner): Option<State> {
    if i >= |s.tasks| then None
    else
      var t := s.tasks[i];
      match t.worker
      case Absent => None
      case Starting => Some(s.(tasks := s.tasks[i := ContextFreed(t).(worker := Running)]))
      case Running =>
        Some(s.(tasks := s.tasks[i := t.(worker := WantsLock, outcome := Some(runner(t.args)), runs := t.runs + 1)]))
      case WantsLock => if s.lock == Nobody then Some(WithWorker(s, i, Counting).(lock := Thread(i))) else None
      case Counting =>
        var g := Counted(s.group, -1);
        Some(WithWorker(s, i, if g.remaining == 0 then Broadcasting else Unlocking).(group := g))
      case Broadcasting =>
        Some(WithWorker(s, i, Unlocking).(owner := if s.owner == Blocked then WaitLock else s.owner))
      case Unlocking => Some(WithWorker(s, i, Leaving).(lock := Nobody))
      case Leaving => Some(WithWorker(s, i, Exited))
      case Exited => None
  }

  // ---------- Runs ----------

  datatype Action = Own | Fail | Wake | Work(i: nat)

  function Next(s: State, a: Action, runner: Runner): Option<State> {
    match a
    case Own => OwnerStep(s)
    case Fail => CreateFails(s)
    case Wake => WakeUp(s)
    case Work(i) => WorkerStep(s, i, runner)
  }

  /** A run: the state after these actions, if they can follow each other. */
  function Run(s: State, actions: seq<Action>, runner: Runner): Option<State> {
    if actions == [] then Some(s)
    else
      match Run(s, actions[..|actions| - 1], runner)
      case None => None
      case Some(before) => Next(before, actions[|actions| - 1], runner)
  }

  /** After `wg_create`. */
  function Initial(prog: seq<Cmd>): State {
    State(prog, 0, Idle, Nobody, Group(0, 0, []), [], true, true, true)
  }

  /** The group is destroyed at most once, and not used afterwards. */
  ghost predicate WellFormed(prog: seq<Cmd>) {
    forall i | 0 <= i < |prog| - 1 :: prog[i] != Destroy
  }

  /** The owner has run its whole program. */
  predicate Finished(s: State) {
    s.owner == Idle && s.pc == |s.prog|
  }

  /** The arguments of the `wg_go` calls of a program, in order. */
  function GoArgs(prog: seq<Cmd>): seq<Value> {
    if prog == [] then []
    else
      var before, last := GoArgs(prog[..|prog| - 1]), prog[|prog| - 1];
      if last.Go? then before + [last.args] else before
  }
}
