/** The round-robin scheduler over eight task slots, as functions on its state. */
module Scheduling {
  import opened Wrappers

  const MAX_TASKS: nat := 8

  datatype TaskState = Unused | Ready | Running | Sleeping | Zombie

  /** `frame` is the saved interrupt frame, `pd` the page directory, `stack` the kernel stack;
      0 is NULL in all three. */
  datatype Task = Task(id: nat, state: TaskState, frame: nat, pd: nat, stack: nat)

  /** `loaded` is the page directory in use, `dirs` the page directories not freed, `stacks`
      the kernel stacks of tasks not freed. */
  datatype Sched = Sched(tasks: seq<Task>, current: Option<nat>, index: nat, nextId: nat, active: nat, loaded: nat, dirs: set<nat>, stacks: set<nat>)

  // ----- helpers of the scheduler ----------------------------------------------------------

  /** First unused slot from `i` on, MAX_TASKS if there is none. */
  function FirstFree(ts: seq<Task>, i: nat): (r: nat)
    requires i <= |ts|
    ensures i <= r <= |ts| && (r < |ts| ==> ts[r].state == Unused) && forall k :: i <= k < r ==> ts[k].state != Unused
    decreases |ts| - i
  {
    if i == |ts| || ts[i].state == Unused then i else FirstFree(ts, i + 1)
  }

  function FindById(ts: seq<Task>, id: nat, i: nat): (r: nat)
    requires i <= |ts|
    ensures i <= r <= |ts| && (r < |ts| ==> ts[r].state != Unused && ts[r].id == id)
    ensures forall k :: i <= k < r ==> ts[k].state == Unused || ts[k].id != id
    decreases |ts| - i
  {
    if i == |ts| || (ts[i].state != Unused && ts[i].id == id) then i else FindById(ts, id, i + 1)
  }

  /** `destroy_task`: the directory is freed unless it is the one in use. */
  function Destroy(s: Sched, i: nat): (s': Sched)
    requires i < |s.tasks|
    ensures |s'.tasks| == |s.tasks| && s'.current == s.current
  {
    var t := s.tasks[i];
    if t.state == Unused then s
    else
      var frees := t.pd != 0 && t.pd != s.loaded;
      s.(tasks := s.tasks[i := Task(t.id, Unused, 0, if frees then 0 else t.pd, 0)],
         dirs := if frees then s.dirs - {t.pd} else s.dirs,
         stacks := if t.stack != 0 then s.stacks - {t.stack} else s.stacks,
         active := if s.active > 0 then s.active - 1 else 0)
  }

  /** `reap_zombies` from slot `i` on. */
  function Reap(s: Sched, i: nat): (s': Sched)
    requires i <= |s.tasks|
    ensures |s'.tasks| == |s.tasks| && s'.current == s.current
    decreases |s.tasks| - i
  {
    if i == |s.tasks| then s
    else if s.current != Some(i) && s.tasks[i].state == Zombie then Reap(Destroy(s, i), i + 1)
    else Reap(s, i + 1)
  }

  /** The slot `n` places after `index`, around the table. */
  function Ahead(index: nat, n: nat): (i: nat)
    ensures i < MAX_TASKS
  {
    (index + n) % MAX_TASKS
  }

  /** `pick_next_task` with `left` slots still to look at: the new index and whether it is ready. */
  function Pick(ts: seq<Task>, index: nat, left: nat): (nat, bool)
    requires |ts| == MAX_TASKS
    decreases left
  {
    if left == 0 then (index, false)
    else
      var i := Ahead(index, 1);
      if ts[i].state == Ready then (i, true) else Pick(ts, i, left - 1)
  }

  // ----- the entry points ------------------------------------------------------------------

  /** Spawning in the first free slot; `pd` is 0 for a kernel task and a fresh directory for a
      user task. Stack 0 means that some allocation failed and was undone. */
  function Spawn(s: Sched, frame: nat, pd: nat, stack: nat): (Sched, Option<nat>)
    requires |s.tasks| == MAX_TASKS
  {
    var i := FirstFree(s.tasks, 0);
    if i == MAX_TASKS || stack == 0 then (s, None)
    else (s.(tasks := s.tasks[i := Task(s.nextId, Ready, frame, pd, stack)], nextId := s.nextId + 1, active := s.active + 1,
             dirs := if pd == 0 then s.dirs else s.dirs + {pd}, stacks := s.stacks + {stack}), Some(s.nextId))
  }

  /** `sched_kill`: task 0 and unknown identifiers are refused, the running task becomes a zombie. */
  function Kill(s: Sched, id: nat): (Sched, bool)
    requires |s.tasks| == MAX_TASKS
  {
    if id == 0 then (s, false)
    else
      var i := FindById(s.tasks, id, 0);
      if i == MAX_TASKS then (s, false)
      else if s.current == Some(i) then (s.(tasks := s.tasks[i := s.tasks[i].(state := Zombie)]), true)
      else if s.tasks[i].state == Zombie then (s, true)
      else (Destroy(s, i), true)
  }

  /** The end of a task's trampoline: the running task becomes a zombie. */
  function Exit(s: Sched): Sched
    requires |s.tasks| == MAX_TASKS && (s.current.Some? ==> s.current.value < MAX_TASKS)
  {
    if s.current.None? then s
    else s.(tasks := s.tasks[s.current.value := s.tasks[s.current.value].(state := Zombie)])
  }

  /** Saving the interrupted task, or removing it if it is a zombie. */
  function Suspend(s: Sched, frame: nat): (s': Sched)
    requires |s.tasks| == MAX_TASKS && s.current.Some? && s.current.value < MAX_TASKS
    ensures |s'.tasks| == MAX_TASKS && (s'.current.Some? ==> s'.current == s.current)
  {
    var c := s.current.value;
    match s.tasks[c].state
    case Running => s.(tasks := s.tasks[c := s.tasks[c].(frame := frame, state := Ready)])
    case Zombie => Destroy(s, c).(current := None)
    case _ => s
  }

  /** Running the task in slot `i`, whose saved frame the processor resumes with. */
  function Dispatch(s: Sched, i: nat, frame: nat): (Sched, nat)
    requires |s.tasks| == MAX_TASKS && i < MAX_TASKS
  {
    var t := s.tasks[i];
    var resume := if t.frame == 0 then frame else t.frame;
    (s.(tasks := s.tasks[i := t.(state := Running, frame := resume)], current := Some(i),
        loaded := if t.pd != 0 then t.pd else s.loaded), resume)
  }

  /** The rest of a tick once the interrupted task is put away and zombies are gone. */
  function Choose(s: Sched, frame: nat): (Sched, nat)
    requires |s.tasks| == MAX_TASKS && (s.current.Some? ==> s.current.value < MAX_TASKS)
  {
    var (i, found) := Pick(s.tasks, s.index, MAX_TASKS);
    var s1 := s.(index := i);
    if found && i < MAX_TASKS then Dispatch(s1, i, frame)
    else if s1.current.Some? && s1.tasks[s1.current.value].state == Ready then Dispatch(s1, s1.current.value, frame)
    else
      var c := if s1.current.Some? then s1.current.value else 0;
      var t := s1.tasks[c];
      (s1.(current := Some(c), tasks := s1.tasks[c := t.(state := Running, frame := if t.frame == 0 then frame else t.frame)]), frame)
  }

  /** `sched_tick`: the new state and the frame to resume with. */
  function Tick(s: Sched, frame: nat): (Sched, nat)
    requires |s.tasks| == MAX_TASKS && (s.current.Some? ==> s.current.value < MAX_TASKS)
  {
    if s.current.None? then (s, frame)
    else if s.active <= 1 then
      var c := s.current.value;
      if s.tasks[c].state == Zombie then (Destroy(s, c).(current := None), frame)
      else (s.(tasks := s.tasks[c := s.tasks[c].(frame := frame, state := Running)]), frame)
    else Choose(Reap(Suspend(s, frame), 0), frame)
  }

  // ----- the invariant ---------------------------------------------------------------------

  function Occupied(t: Task): bool { t.state != Unused }

  function Count(ts: seq<Task>): nat {
    if ts == [] then 0 else (if Occupied(ts[0]) then 1 else 0) + Count(ts[1..])
  }

  /** Every occupied slot but the current one is ready with a saved frame. */
  ghost predicate SlotsOk(s: Sched) {
    && |s.tasks| == MAX_TASKS && s.index < MAX_TASKS && s.current == Some(s.index)
    && (s.tasks[s.index].state == Running || s.tasks[s.index].state == Zombie)
    && (forall i :: 0 <= i < MAX_TASKS && i != s.index && Occupied(s.tasks[i]) ==> s.tasks[i].state == Ready && s.tasks[i].frame != 0)
    && s.tasks[0].state != Unused && s.tasks[0].state != Zombie
    && s.active == Count(s.tasks)
  }

  /** Slot 0 is task 0 and identifiers are unique and below the counter. */
  ghost predicate IdsOk(s: Sched) {
    && |s.tasks| > 0 && s.tasks[0].id == 0 && s.nextId > 0
    && (forall i :: 0 < i < |s.tasks| && Occupied(s.tasks[i]) ==> 0 < s.tasks[i].id < s.nextId)
    && (forall i, j :: 0 <= i < j < |s.tasks| && Occupied(s.tasks[i]) && Occupied(s.tasks[j]) ==> s.tasks[i].id != s.tasks[j].id)
  }

  /** The directory in use and those of all tasks are not freed, and no two tasks share one. */
  ghost predicate DirsOk(s: Sched) {
    && s.loaded in s.dirs
    && (forall i :: 0 <= i < |s.tasks| && Occupied(s.tasks[i]) && s.tasks[i].pd != 0 ==> s.tasks[i].pd in s.dirs)
    && (forall i, j :: 0 <= i < j < |s.tasks| && Occupied(s.tasks[i]) && Occupied(s.tasks[j]) && s.tasks[i].pd != 0 ==> s.tasks[i].pd != s.tasks[j].pd)
  }

  /** A running task that has a directory runs in it. */
  ghost predicate RunsInOwn(s: Sched) {
    s.index < |s.tasks| && (s.tasks[s.index].pd != 0 ==> s.loaded == s.tasks[s.index].pd)
  }

  ghost predicate SchedInv(s: Sched)
    ensures SchedInv(s) ==> |s.tasks| == MAX_TASKS && s.index < MAX_TASKS && s.current == Some(s.index)
  {
    |s.tasks| == MAX_TASKS && SlotsOk(s) && IdsOk(s) && DirsOk(s) && RunsInOwn(s)
  }

  lemma {:induction false} CountUpdate(ts: seq<Task>, i: nat, t: Task)
    requires i < |ts|
    ensures Count(ts[i := t]) == Count(ts) - (if Occupied(ts[i]) then 1 else 0) + (if Occupied(t) then 1 else 0)
    decreases |ts|
  {
    var ts' := ts[i := t];
    if i == 0 {
      assert ts'[1..] == ts[1..];
    } else {
      assert ts'[1..] == ts[1..][i - 1 := t];
      CountUpdate(ts[1..], i - 1, t);
    }
  }

  lemma {:induction false} CountPositive(ts: seq<Task>, i: nat)
    requires i < |ts| && Occupied(ts[i])
    ensures Count(ts) >= 1
    decreases |ts|
  {
    if i > 0 {
      CountPositive(ts[1..], i - 1);
    }
  }

  /** With two slots occupied more than one task is active. */
  lemma CountTwo(ts: seq<Task>, i: nat, j: nat)
    requires i < j < |ts| && Occupied(ts[i]) && Occupied(ts[j])
    ensures Count(ts) >= 2
  {
    CountUpdate(ts, i, ts[i].(state := Unused));
    CountPositive(ts[i := ts[i].(state := Unused)], j);
  }

  // ----- every step keeps the invariant ----------------------------------------------------

  /** The state `sched_init` sets up, in directory `pd`. */
  function Initial(pd: nat, dirs: set<nat>): Sched {
    Sched([Task(0, Running, 0, pd, 0)] + seq(MAX_TASKS - 1, _ => Task(0, Unused, 0, 0, 0)), Some(0), 0, 1, 1, pd, dirs, {})
  }

  lemma InitialInv(pd: nat, dirs: set<nat>)
    requires pd in dirs
    ensures SchedInv(Initial(pd, dirs))
  {
    var ts := Initial(pd, dirs).tasks;
    assert ts[1..] == seq(MAX_TASKS - 1, _ => Task(0, Unused, 0, 0, 0));
    NoneOccupied(ts[1..]);
  }

  lemma {:induction false} NoneOccupied(ts: seq<Task>)
    requires forall i :: 0 <= i < |ts| ==> !Occupied(ts[i])
    ensures Count(ts) == 0
    decreases |ts|
  {
    if ts != [] {
      NoneOccupied(ts[1..]);
    }
  }

  lemma SpawnKeeps(s: Sched, frame: nat, pd: nat, stack: nat)
    requires SchedInv(s) && frame != 0 && (pd != 0 ==> pd !in s.dirs)
    ensures SchedInv(Spawn(s, frame, pd, stack).0)
  {
    var i := FirstFree(s.tasks, 0);
    if i < MAX_TASKS {
      CountUpdate(s.tasks, i, Task(s.nextId, Ready, frame, pd, stack));
    }
  }

  lemma DestroyKeeps(s: Sched, i: nat)
    requires SchedInv(s) && 0 < i < MAX_TASKS && i != s.index
    ensures SchedInv(Destroy(s, i))
  {
    if Occupied(s.tasks[i]) {
      CountUpdate(s.tasks, i, Destroy(s, i).tasks[i]);
      CountPositive(s.tasks, i);
    }
  }

  lemma KillKeeps(s: Sched, id: nat)
    requires SchedInv(s)
    ensures SchedInv(Kill(s, id).0)
  {
    if id != 0 {
      var i := FindById(s.tasks, id, 0);
      if i < MAX_TASKS {
        if s.current == Some(i) {
          CountUpdate(s.tasks, i, s.tasks[i].(state := Zombie));
        } else {
          DestroyKeeps(s, i);
        }
      }
    }
  }

  /** Only spawned tasks run through the trampoline, so task 0 never exits. */
  lemma ExitKeeps(s: Sched)
    requires SchedInv(s) && s.index != 0
    ensures SchedInv(Exit(s))
  {
    CountUpdate(s.tasks, s.index, s.tasks[s.index].(state := Zombie));
  }

  // ----- the tick --------------------------------------------------------------------------

  lemma AheadStep(index: nat, k: nat)
    requires k >= 1
    ensures Ahead(Ahead(index, 1), k - 1) == Ahead(index, k)
  {
  }

  /** The scan stops at the first ready slot; it gets there no later than any ready slot does. */
  lemma {:induction false} PickFinds(ts: seq<Task>, index: nat, left: nat, m: nat) returns (n: nat)
    requires |ts| == MAX_TASKS && 1 <= m <= left && ts[Ahead(index, m)].state == Ready
    ensures 1 <= n <= m && Pick(ts, index, left) == (Ahead(index, n), true)
    ensures ts[Ahead(index, n)].state == Ready && forall k :: 1 <= k < n ==> ts[Ahead(index, k)].state != Ready
    decreases left
  {
    hide Ahead;
    var i := Ahead(index, 1);
    n := 1;
    if ts[i].state != Ready {
      AheadStep(index, m);
      var n' := PickFinds(ts, i, left - 1, m - 1);
      n := n' + 1;
      AheadStep(index, n);
      forall k | 1 <= k < n ensures ts[Ahead(index, k)].state != Ready {
        AheadStep(index, k);
      }
    }
  }

  /** How many places slot `j` is after `index`, 1 to 8. */
  function Distance(index: nat, j: nat): (n: nat)
    requires index < MAX_TASKS && j < MAX_TASKS
    ensures 1 <= n <= MAX_TASKS && Ahead(index, n) == j
  {
    if j > index then j - index else j + MAX_TASKS - index
  }

  /** Between suspending one task and dispatching the next: all tasks are ready, none is lost. */
  ghost predicate AllReady(s: Sched) {
    && |s.tasks| == MAX_TASKS && s.index < MAX_TASKS && (s.current == None || s.current == Some(s.index))
    && (forall i :: 0 <= i < MAX_TASKS && Occupied(s.tasks[i]) ==> s.tasks[i].state == Ready && s.tasks[i].frame != 0)
    && s.tasks[0].state == Ready && s.active == Count(s.tasks) && IdsOk(s) && DirsOk(s)
  }

  lemma SuspendReadies(s: Sched, frame: nat)
    requires SchedInv(s) && frame != 0
    ensures AllReady(Suspend(s, frame)) && Suspend(s, frame).index == s.index
  {
    hide Count;
    var c := s.index;
    CountPositive(s.tasks, c);
    CountUpdate(s.tasks, c, Suspend(s, frame).tasks[c]);
  }

  lemma {:induction false} NothingToReap(s: Sched, i: nat)
    requires i <= |s.tasks| && forall k :: 0 <= k < |s.tasks| ==> s.tasks[k].state != Zombie
    ensures Reap(s, i) == s
    decreases |s.tasks| - i
  {
    if i < |s.tasks| {
      NothingToReap(s, i + 1);
    }
  }

  lemma DispatchKeeps(s: Sched, i: nat, frame: nat)
    requires AllReady(s) && i < MAX_TASKS && s.tasks[i].state == Ready
    ensures var r := Dispatch(s.(index := i), i, frame); SchedInv(r.0) && r.1 == s.tasks[i].frame && r.0.index == i
  {
    CountUpdate(s.tasks, i, s.tasks[i].(state := Running));
    assert s.tasks[i].(frame := s.tasks[i].frame) == s.tasks[i];
  }

  /** What a tick does when several tasks are active: it dispatches the first ready slot after the
      current one; the "no next task" branch is never taken. */
  lemma TickDispatches(s: Sched, frame: nat) returns (n: nat)
    requires SchedInv(s) && frame != 0 && s.active > 1
    ensures var s1 := Suspend(s, frame);
            && 1 <= n <= MAX_TASKS && AllReady(s1) && s1.tasks[Ahead(s.index, n)].state == Ready
            && Tick(s, frame) == Dispatch(s1.(index := Ahead(s.index, n)), Ahead(s.index, n), frame)
            && (forall k :: 1 <= k < n ==> s1.tasks[Ahead(s.index, k)].state != Ready)
  {
    var s1 := Suspend(s, frame);
    SuspendReadies(s, frame);
    NothingToReap(s1, 0);
    n := PickFinds(s1.tasks, s1.index, MAX_TASKS, Distance(s1.index, 0));
  }

  /** Alone, the running task is resumed where it was. */
  lemma TickAlone(s: Sched, frame: nat)
    requires SchedInv(s) && s.active <= 1
    ensures s.index == 0 && s.tasks[0].state == Running
    ensures Tick(s, frame) == (s.(tasks := s.tasks[0 := s.tasks[0].(frame := frame)]), frame)
  {
    if s.index != 0 {
      CountTwo(s.tasks, 0, s.index);
    }
  }

  lemma TickKeeps(s: Sched, frame: nat)
    requires SchedInv(s) && frame != 0
    ensures SchedInv(Tick(s, frame).0)
  {
    if s.active > 1 {
      var n := TickDispatches(s, frame);
      DispatchKeeps(Suspend(s, frame), Ahead(s.index, n), frame);
    } else {
      TickAlone(s, frame);
      CountUpdate(s.tasks, 0, s.tasks[0].(frame := frame));
    }
  }

  // ----- runs ------------------------------------------------------------------------------

  datatype Event = Spawned(frame: nat, pd: nat, stack: nat) | Killed(id: nat) | Exited | Ticked(frame: nat)

  /** Frames are real, new directories and stacks are new, and only a spawned task reaches its end. */
  ghost predicate Allowed(s: Sched, e: Event) {
    match e
    case Spawned(frame, pd, stack) => frame != 0 && (pd != 0 ==> pd !in s.dirs) && stack !in s.stacks
    case Killed(_) => true
    case Exited => s.index != 0
    case Ticked(frame) => frame != 0
  }

  function Step(s: Sched, e: Event): Sched
    requires |s.tasks| == MAX_TASKS && (s.current.Some? ==> s.current.value < MAX_TASKS)
  {
    match e
    case Spawned(frame, pd, stack) => Spawn(s, frame, pd, stack).0
    case Killed(id) => Kill(s, id).0
    case Exited => Exit(s)
    case Ticked(frame) => Tick(s, frame).0
  }

  lemma StepKeeps(s: Sched, e: Event)
    requires SchedInv(s) && Allowed(s, e)
    ensures SchedInv(Step(s, e))
  {
    match e
    case Spawned(frame, pd, stack) => SpawnKeeps(s, frame, pd, stack);
    case Killed(id) => KillKeeps(s, id);
    case Exited => ExitKeeps(s);
    case Ticked(frame) => TickKeeps(s, frame);
  }

  ghost predicate AllAllowed(s: Sched, es: seq<Event>)
    requires SchedInv(s)
    decreases |es|
  {
    es == [] || (Allowed(s, es[0]) && SchedInv(Step(s, es[0])) && AllAllowed(Step(s, es[0]), es[1..]))
  }

  ghost function Run(s: Sched, es: seq<Event>): Sched
    requires SchedInv(s) && AllAllowed(s, es)
    decreases |es|
  {
    if es == [] then s else Run(Step(s, es[0]), es[1..])
  }

  // ----- a task resumes where it stopped ---------------------------------------------------

  /** By task identifier, the frame the task must be resumed with: where it was last interrupted
      while running, or its initial frame. */
  type Contexts = map<nat, nat>

  function Remember(s: Sched, ctx: Contexts, e: Event): Contexts
    requires SchedInv(s)
  {
    match e
    case Spawned(frame, _, stack) => if FirstFree(s.tasks, 0) < MAX_TASKS && stack != 0 then ctx[s.nextId := frame] else ctx
    case Ticked(frame) => if s.tasks[s.index].state == Running then ctx[s.tasks[s.index].id := frame] else ctx
    case _ => ctx
  }

  /** Every task that is not running has its context saved. */
  ghost predicate Remembered(s: Sched, ctx: Contexts) {
    |s.tasks| == MAX_TASKS && forall i :: 0 <= i < MAX_TASKS && i != s.index && Occupied(s.tasks[i]) ==>
      s.tasks[i].id in ctx && s.tasks[i].frame == ctx[s.tasks[i].id]
  }

  /** A tick resumes the chosen task with its context. */
  lemma TickResumes(s: Sched, ctx: Contexts, frame: nat)
    requires SchedInv(s) && Remembered(s, ctx) && frame != 0
    ensures var (s', resume) := Tick(s, frame);
            var ctx' := Remember(s, ctx, Ticked(frame));
            && SchedInv(s') && Remembered(s', ctx') && s'.tasks[s'.index].state == Running
            && s'.tasks[s'.index].id in ctx' && resume == ctx'[s'.tasks[s'.index].id]
  {
    TickKeeps(s, frame);
    if s.active > 1 {
      var n := TickDispatches(s, frame);
      SuspendRemembers(s, ctx, frame);
      DispatchKeeps(Suspend(s, frame), Ahead(s.index, n), frame);
    } else {
      TickAlone(s, frame);
    }
  }

  lemma SuspendRemembers(s: Sched, ctx: Contexts, frame: nat)
    requires SchedInv(s) && Remembered(s, ctx)
    ensures var s1, ctx' := Suspend(s, frame), Remember(s, ctx, Ticked(frame));
            forall i :: 0 <= i < MAX_TASKS && Occupied(s1.tasks[i]) ==> s1.tasks[i].id in ctx' && s1.tasks[i].frame == ctx'[s1.tasks[i].id]
  {
  }

  lemma StepRemembers(s: Sched, ctx: Contexts, e: Event)
    requires SchedInv(s) && Remembered(s, ctx) && Allowed(s, e)
    ensures SchedInv(Step(s, e)) && Remembered(Step(s, e), Remember(s, ctx, e))
  {
    StepKeeps(s, e);
    if e.Ticked? {
      TickResumes(s, ctx, e.frame);
    }
  }

  ghost function RememberAll(s: Sched, ctx: Contexts, es: seq<Event>): Contexts
    requires SchedInv(s) && AllAllowed(s, es)
    decreases |es|
  {
    if es == [] then ctx else RememberAll(Step(s, es[0]), Remember(s, ctx, es[0]), es[1..])
  }

  /** Over every run of spawns, kills, exits and ticks the invariant holds, and the next tick
      resumes some task exactly where it was last interrupted, or at its start. */
  lemma {:induction false} EveryRunResumes(s: Sched, ctx: Contexts, es: seq<Event>, frame: nat)
    requires SchedInv(s) && Remembered(s, ctx) && AllAllowed(s, es) && frame != 0
    ensures var s1, ctx1 := Run(s, es), RememberAll(s, ctx, es);
            && SchedInv(s1) && Remembered(s1, ctx1)
            && var (s2, resume) := Tick(s1, frame);
               var ctx2 := Remember(s1, ctx1, Ticked(frame));
               |s2.tasks| == MAX_TASKS && s2.index < MAX_TASKS && s2.tasks[s2.index].id in ctx2 && resume == ctx2[s2.tasks[s2.index].id]
    decreases |es|
  {
    hide Step, Tick, Remember, Remembered, Allowed;
    if es == [] {
      TickResumes(s, ctx, frame);
    } else {
      StepRemembers(s, ctx, es[0]);
      EveryRunResumes(Step(s, es[0]), Remember(s, ctx, es[0]), es[1..], frame);
    }
  }

  // ----- directories nobody holds ----------------------------------------------------------

  /** Directory `pd` is allocated but belongs to no task. */
  ghost predicate Orphan(s: Sched, pd: nat) {
    pd != 0 && pd in s.dirs && forall i :: 0 <= i < |s.tasks| && Occupied(s.tasks[i]) ==> s.tasks[i].pd != pd
  }

  /** Destroying a task frees its directory exactly when it is not the one in use. */
  lemma DestroyFreesIff(s: Sched, i: nat)
    requires SchedInv(s) && i < MAX_TASKS && Occupied(s.tasks[i]) && s.tasks[i].pd != 0
    ensures s.tasks[i].pd !in Destroy(s, i).dirs <==> s.tasks[i].pd != s.loaded
    ensures Orphan(Destroy(s, i), s.tasks[i].pd) <==> s.tasks[i].pd == s.loaded
  {
  }

  /** The steps that orphan `pd`: a tick that finds its owner a zombie, and a kill of its owner
      while another task runs in it. */
  ghost predicate Orphans(s: Sched, e: Event, pd: nat)
    requires SchedInv(s)
  {
    match e
    case Ticked(_) => pd != 0 && s.tasks[s.index].state == Zombie && s.tasks[s.index].pd == pd
    case Killed(id) =>
      var i := FindById(s.tasks, id, 0);
      id != 0 && i < MAX_TASKS && i != s.index && s.tasks[i].pd == pd == s.loaded && pd != 0
    case _ => false
  }

  lemma TickOrphansIff(s: Sched, frame: nat, pd: nat)
    requires SchedInv(s) && frame != 0
    ensures Orphan(Tick(s, frame).0, pd) <==> Orphan(s, pd) || Orphans(s, Ticked(frame), pd)
  {
    if s.active > 1 {
      var n := TickDispatches(s, frame);
      SuspendOrphansIff(s, frame, pd);
      DispatchSameHolders(Suspend(s, frame), Ahead(s.index, n), frame, pd);
    } else {
      TickAlone(s, frame);
      assert forall i :: 0 <= i < MAX_TASKS ==> Tick(s, frame).0.tasks[i].pd == s.tasks[i].pd;
    }
  }

  lemma SuspendOrphansIff(s: Sched, frame: nat, pd: nat)
    requires SchedInv(s)
    ensures Orphan(Suspend(s, frame), pd) <==> Orphan(s, pd) || Orphans(s, Ticked(frame), pd)
  {
    if s.tasks[s.index].state == Zombie {
      DestroyOrphansIff(s, s.index, pd);
    } else {
      assert forall i :: 0 <= i < MAX_TASKS ==> Suspend(s, frame).tasks[i].pd == s.tasks[i].pd;
    }
  }

  lemma DispatchSameHolders(s: Sched, i: nat, frame: nat, pd: nat)
    requires AllReady(s) && i < MAX_TASKS && s.tasks[i].state == Ready
    ensures Orphan(Dispatch(s.(index := i), i, frame).0, pd) <==> Orphan(s, pd)
  {
    var s' := Dispatch(s.(index := i), i, frame).0;
    assert forall k :: 0 <= k < MAX_TASKS ==> s'.tasks[k].pd == s.tasks[k].pd && Occupied(s'.tasks[k]) == Occupied(s.tasks[k]);
  }

  lemma KillOrphansIff(s: Sched, id: nat, pd: nat)
    requires SchedInv(s)
    ensures Orphan(Kill(s, id).0, pd) <==> Orphan(s, pd) || Orphans(s, Killed(id), pd)
  {
    var i := FindById(s.tasks, id, 0);
    if id != 0 && i < MAX_TASKS {
      if i == s.index {
        assert forall k :: 0 <= k < MAX_TASKS ==> Kill(s, id).0.tasks[k].pd == s.tasks[k].pd;
      } else {
        DestroyOrphansIff(s, i, pd);
      }
    }
  }

  lemma DestroyOrphansIff(s: Sched, i: nat, pd: nat)
    requires SchedInv(s) && i < MAX_TASKS && Occupied(s.tasks[i])
    ensures Orphan(Destroy(s, i), pd) <==> Orphan(s, pd) || (pd != 0 && s.tasks[i].pd == pd == s.loaded)
  {
    var s' := Destroy(s, i);
    assert forall k :: 0 <= k < MAX_TASKS && k != i ==> s'.tasks[k] == s.tasks[k];
    assert !Occupied(s'.tasks[i]);
    if s.tasks[i].pd == pd && pd != 0 {
      assert forall k :: 0 <= k < MAX_TASKS && k != i && Occupied(s.tasks[k]) ==> s.tasks[k].pd != pd;
    }
  }

  /** A step leaves a directory without owner exactly if it had none or the step is one of those
      above: what is orphaned stays so. */
  lemma OrphanStepIff(s: Sched, e: Event, pd: nat)
    requires SchedInv(s) && Allowed(s, e)
    ensures Orphan(Step(s, e), pd) <==> Orphan(s, pd) || Orphans(s, e, pd)
  {
    match e
    case Spawned(_, _, _) =>
      var i := FirstFree(s.tasks, 0);
      if i < MAX_TASKS && e.stack != 0 {
        var s' := Step(s, e);
        assert forall k :: 0 <= k < MAX_TASKS && k != i ==> s'.tasks[k] == s.tasks[k];
        assert Occupied(s'.tasks[i]) && s'.tasks[i].pd == e.pd;
      }
    case Killed(id) => KillOrphansIff(s, id, pd);
    case Exited =>
      assert forall k :: 0 <= k < MAX_TASKS ==> Step(s, e).tasks[k].pd == s.tasks[k].pd;
    case Ticked(frame) => TickOrphansIff(s, frame, pd);
  }

  /** Some step of the run orphans `pd`. */
  ghost predicate RunOrphans(s: Sched, es: seq<Event>, pd: nat)
    requires SchedInv(s) && AllAllowed(s, es)
    decreases |es|
  {
    es != [] && (Orphans(s, es[0], pd) || RunOrphans(Step(s, es[0]), es[1..], pd))
  }

  /** Over every run, a directory ends up allocated without owner exactly if it started so or some
      step orphaned it; nothing ever frees it again. */
  lemma {:induction false} OrphanRunIff(s: Sched, es: seq<Event>, pd: nat)
    requires SchedInv(s) && AllAllowed(s, es)
    ensures Orphan(Run(s, es), pd) <==> Orphan(s, pd) || RunOrphans(s, es, pd)
    decreases |es|
  {
    hide Step, Allowed, Orphan, Orphans;
    if es != [] {
      OrphanStepIff(s, es[0], pd);
      OrphanRunIff(Step(s, es[0]), es[1..], pd);
    }
  }

  /** The shortest way to lose a directory: a user task is spawned, runs, exits, and the next tick
      leaves its directory allocated for ever. */
  lemma ExitLosesDirectory(s: Sched, frame: nat, es: seq<Event>)
    requires SchedInv(s) && s.index != 0 && s.tasks[s.index].pd != 0 && frame != 0
    requires AllAllowed(s, [Exited, Ticked(frame)] + es)
    ensures Orphan(Run(s, [Exited, Ticked(frame)] + es), s.tasks[s.index].pd)
  {
    var run, pd := [Exited, Ticked(frame)] + es, s.tasks[s.index].pd;
    var s1 := Step(s, Exited);
    assert run[1..] == [Ticked(frame)] + es;
    assert Orphans(s1, run[1..][0], pd);
    OrphanRunIff(s, run, pd);
  }

  // ----- stacks ----------------------------------------------------------------------------

  ghost predicate HasStack(s: Sched, x: nat) {
    exists i :: 0 <= i < |s.tasks| && Occupied(s.tasks[i]) && s.tasks[i].stack == x
  }

  /** The stacks not freed are exactly those of the tasks, and no two tasks share one. */
  ghost predicate StacksOk(s: Sched) {
    && (forall x :: x in s.stacks ==> x != 0 && HasStack(s, x))
    && (forall i :: 0 <= i < |s.tasks| && Occupied(s.tasks[i]) && s.tasks[i].stack != 0 ==> s.tasks[i].stack in s.stacks)
    && (forall i, j :: 0 <= i < j < |s.tasks| && Occupied(s.tasks[i]) && Occupied(s.tasks[j]) && s.tasks[i].stack != 0 ==> s.tasks[i].stack != s.tasks[j].stack)
  }

  ghost predicate SameStacks(s: Sched, s': Sched) {
    && s'.stacks == s.stacks && |s'.tasks| == |s.tasks|
    && (forall i :: 0 <= i < |s.tasks| ==> Occupied(s'.tasks[i]) == Occupied(s.tasks[i]) && s'.tasks[i].stack == s.tasks[i].stack)
  }

  lemma SameStacksOk(s: Sched, s': Sched)
    requires StacksOk(s) && SameStacks(s, s')
    ensures StacksOk(s')
  {
    forall x | x in s'.stacks ensures HasStack(s', x) {
      assert HasStack(s, x);
      var i :| 0 <= i < |s.tasks| && Occupied(s.tasks[i]) && s.tasks[i].stack == x;
      assert Occupied(s'.tasks[i]) && s'.tasks[i].stack == x;
    }
  }

  lemma DestroyKeepsStacks(s: Sched, i: nat)
    requires StacksOk(s) && i < |s.tasks|
    ensures StacksOk(Destroy(s, i))
  {
    if Occupied(s.tasks[i]) {
      var s' := Destroy(s, i);
      assert forall k :: 0 <= k < |s.tasks| && k != i ==> s'.tasks[k] == s.tasks[k];
      forall x | x in s'.stacks ensures HasStack(s', x) {
        assert HasStack(s, x);
        var k :| 0 <= k < |s.tasks| && Occupied(s.tasks[k]) && s.tasks[k].stack == x;
        assert k != i && s'.tasks[k] == s.tasks[k];
      }
    }
  }

  lemma SpawnKeepsStacks(s: Sched, frame: nat, pd: nat, stack: nat)
    requires SchedInv(s) && StacksOk(s) && stack !in s.stacks
    ensures StacksOk(Spawn(s, frame, pd, stack).0)
  {
    var i := FirstFree(s.tasks, 0);
    if i < MAX_TASKS && stack != 0 {
      var s' := Spawn(s, frame, pd, stack).0;
      assert forall k :: 0 <= k < MAX_TASKS && k != i ==> s'.tasks[k] == s.tasks[k];
      assert Occupied(s'.tasks[i]) && s'.tasks[i].stack == stack;
      forall x | x in s.stacks ensures HasStack(s', x) {
        assert HasStack(s, x);
        var k :| 0 <= k < MAX_TASKS && Occupied(s.tasks[k]) && s.tasks[k].stack == x;
        assert s'.tasks[k] == s.tasks[k];
      }
    }
  }

  lemma TickKeepsStacks(s: Sched, frame: nat)
    requires SchedInv(s) && StacksOk(s) && frame != 0
    ensures StacksOk(Tick(s, frame).0)
  {
    if s.active > 1 {
      var n := TickDispatches(s, frame);
      var s1 := Suspend(s, frame);
      if s.tasks[s.index].state == Zombie {
        DestroyKeepsStacks(s, s.index);
        SameStacksOk(Destroy(s, s.index), s1);
      } else {
        SameStacksOk(s, s1);
      }
      SameStacksOk(s1, Tick(s, frame).0);
    } else {
      TickAlone(s, frame);
      SameStacksOk(s, Tick(s, frame).0);
    }
  }

  /** Over every run the stacks not freed are exactly those of the tasks: none is lost, none is
      freed while its task exists. */
  lemma {:induction false} EveryRunKeepsStacks(s: Sched, es: seq<Event>)
    requires SchedInv(s) && StacksOk(s) && AllAllowed(s, es)
    ensures StacksOk(Run(s, es))
    decreases |es|
  {
    if es != [] {
      var e := es[0];
      match e {
        case Spawned(frame, pd, stack) => SpawnKeepsStacks(s, frame, pd, stack);
        case Killed(id) => KillKeepsStacks(s, id);
        case Exited => SameStacksOk(s, Step(s, e));
        case Ticked(frame) => TickKeepsStacks(s, frame);
      }
      EveryRunKeepsStacks(Step(s, e), es[1..]);
    }
  }

  lemma KillKeepsStacks(s: Sched, id: nat)
    requires SchedInv(s) && StacksOk(s)
    ensures StacksOk(Kill(s, id).0)
  {
    var i := FindById(s.tasks, id, 0);
    if id != 0 && i < MAX_TASKS {
      if i == s.index {
        SameStacksOk(s, Kill(s, id).0);
      } else {
        DestroyKeepsStacks(s, i);
      }
    }
  }

  // ----- bounded waiting -------------------------------------------------------------------

  /** Task `id` waits in slot `j`. */
  ghost predicate Waiting(s: Sched, j: nat, id: nat) {
    SchedInv(s) && j < MAX_TASKS && j != s.index && s.tasks[j].id == id && s.tasks[j].state == Ready
  }

  ghost predicate RunningIn(s: Sched, j: nat, id: nat) {
    SchedInv(s) && s.index == j && s.tasks[j].id == id && s.tasks[j].state == Running
  }

  lemma TickNearer(s: Sched, j: nat, id: nat, frame: nat)
    requires Waiting(s, j, id) && frame != 0
    ensures var s' := Tick(s, frame).0;
            RunningIn(s', j, id) || (Waiting(s', j, id) && Distance(s'.index, j) < Distance(s.index, j))
  {
    TickKeeps(s, frame);
    if j < s.index {
      CountTwo(s.tasks, j, s.index);
    } else {
      CountTwo(s.tasks, s.index, j);
    }
    var d := Distance(s.index, j);
    var n := TickDispatches(s, frame);
    assert n <= d;
    NearerBy(s.index, j, n);
  }

  lemma NearerBy(index: nat, j: nat, n: nat)
    requires index < MAX_TASKS && j < MAX_TASKS && j != index && 1 <= n <= Distance(index, j)
    ensures Ahead(index, n) == j <==> n == Distance(index, j)
    ensures n < Distance(index, j) ==> Distance(Ahead(index, n), j) == Distance(index, j) - n
  {
  }

  /** No step but a kill of the task itself moves it away from running, and every tick brings it nearer. */
  lemma WaitStep(s: Sched, e: Event, j: nat, id: nat)
    requires Waiting(s, j, id) && Allowed(s, e) && e != Killed(id)
    ensures var s' := Step(s, e);
            || RunningIn(s', j, id)
            || (Waiting(s', j, id) && Distance(s'.index, j) <= Distance(s.index, j) - (if e.Ticked? then 1 else 0))
  {
    StepKeeps(s, e);
    if e.Ticked? {
      TickNearer(s, j, id, e.frame);
    }
  }

  function Ticks(es: seq<Event>): nat {
    if es == [] then 0 else (if es[0].Ticked? then 1 else 0) + Ticks(es[1..])
  }

  /** A ready task that is not killed runs after at most seven ticks, whatever else happens. */
  lemma {:induction false} BoundedWaiting(s: Sched, es: seq<Event>, j: nat, id: nat) returns (k: nat)
    requires Waiting(s, j, id) && AllAllowed(s, es) && Killed(id) !in es && Ticks(es) >= Distance(s.index, j)
    ensures Distance(s.index, j) <= MAX_TASKS - 1
    ensures k <= |es| && AllAllowed(s, es[..k]) && RunningIn(Run(s, es[..k]), j, id)
    ensures Ticks(es[..k]) <= Distance(s.index, j)
    decreases |es|
  {
    hide Step, Allowed, SchedInv;
    assert Distance(s.index, j) <= MAX_TASKS - 1 by { WaitingIsNear(s, j, id); }
    var s' := Step(s, es[0]);
    WaitStep(s, es[0], j, id);
    if RunningIn(s', j, id) {
      k := 1;
      RunOne(s, es);
    } else {
      assert forall e :: e in es[1..] ==> e in es;
      var k' := BoundedWaiting(s', es[1..], j, id);
      k := k' + 1;
      assert es[..k][1..] == es[1..][..k'];
    }
  }

  lemma WaitingIsNear(s: Sched, j: nat, id: nat)
    requires Waiting(s, j, id)
    ensures s.index < MAX_TASKS && Distance(s.index, j) <= MAX_TASKS - 1
  {
  }

  lemma RunOne(s: Sched, es: seq<Event>)
    requires SchedInv(s) && es != [] && AllAllowed(s, es)
    ensures AllAllowed(s, es[..1]) && Run(s, es[..1]) == Step(s, es[0]) && Ticks(es[..1]) <= 1
  {
    assert es[..1][1..] == [];
  }
}

/** The scheduler's table in memory, and the interrupt path that drives it. */
module TaskTable {
  import opened Wrappers
  import opened Scheduling

  class Scheduler {
    const tasks: array<Task>
    var current: Option<nat>
    var index: nat
    var nextId: nat
    var active: nat
    var loaded: nat
    ghost var dirs: set<nat>
    ghost var stacks: set<nat>

    ghost predicate Valid()
      reads this, tasks
    {
      tasks.Length == MAX_TASKS && SchedInv(Snapshot())
    }

    ghost function Snapshot(): Sched
      reads this, tasks
    {
      Sched(tasks[..], current, index, nextId, active, loaded, dirs, stacks)
    }

    /** `sched_init` in directory `pd`. */
    constructor (pd: nat, ghost dirs: set<nat>)
      requires pd in dirs
      ensures Valid() && Snapshot() == Initial(pd, dirs) && fresh(tasks)
    {
      tasks := new Task[MAX_TASKS](_ => Task(0, Unused, 0, 0, 0));
      current, index, nextId, active, loaded := Some(0), 0, 1, 1, pd;
      this.dirs, stacks := dirs, {};
      new;
      tasks[0] := Task(0, Running, 0, pd, 0);
      InitialInv(pd, dirs);
      assert tasks[..] == Initial(pd, dirs).tasks;
    }

    method FindFreeSlot() returns (slot: int)
      requires tasks.Length == MAX_TASKS
      ensures var r := FirstFree(tasks[..], 0); slot == if r == MAX_TASKS then -1 else r
    {
      for i := 0 to MAX_TASKS
        invariant FirstFree(tasks[..], 0) == FirstFree(tasks[..], i)
      {
        if tasks[i].state == Unused {
          return i;
        }
      }
      slot := -1;
    }

    method FindTaskById(id: nat) returns (slot: int)
      requires tasks.Length == MAX_TASKS
      ensures var r := FindById(tasks[..], id, 0); slot == if r == MAX_TASKS then -1 else r
    {
      for i := 0 to MAX_TASKS
        invariant FindById(tasks[..], id, 0) == FindById(tasks[..], id, i)
      {
        if tasks[i].state != Unused && tasks[i].id == id {
          return i;
        }
      }
      slot := -1;
    }

    /** `destroy_task`. */
    method DestroyTask(i: nat)
      requires tasks.Length == MAX_TASKS && i < MAX_TASKS
      modifies this`active, this`dirs, this`stacks, tasks
      ensures Snapshot() == Destroy(old(Snapshot()), i)
    {
      var t := tasks[i];
      if t.state == Unused {
        return;
      }
      if t.stack != 0 {
        stacks := stacks - {t.stack};
        tasks[i] := tasks[i].(stack := 0);
      }
      if t.pd != 0 && t.pd != loaded {
        dirs := dirs - {t.pd};
        tasks[i] := tasks[i].(pd := 0);
      }
      tasks[i] := tasks[i].(state := Unused, frame := 0);
      if active != 0 {
        active := active - 1;
      }
    }

    /** `reap_zombies`. */
    method ReapZombies()
      requires tasks.Length == MAX_TASKS
      modifies this`active, this`dirs, this`stacks, tasks
      ensures Snapshot() == Reap(old(Snapshot()), 0)
    {
      for i := 0 to MAX_TASKS
        invariant Reap(old(Snapshot()), 0) == Reap(Snapshot(), i)
      {
        if current != Some(i) && tasks[i].state == Zombie {
          DestroyTask(i);
        }
      }
    }

    /** The scan of `pick_next_task`. */
    method PickNext() returns (found: bool)
      requires tasks.Length == MAX_TASKS
      modifies this`index
      ensures (index, found) == Pick(tasks[..], old(index), MAX_TASKS)
    {
      for n := 0 to MAX_TASKS
        invariant Pick(tasks[..], old(index), MAX_TASKS) == Pick(tasks[..], index, MAX_TASKS - n)
      {
        index := (index + 1) % MAX_TASKS;
        if tasks[index].state == Ready {
          return true;
        }
      }
      found := false;
    }

    /** `spawn_task` and `sched_spawn_user`; `stack` is what the stack allocation returned, `frame`
        the initial frame, `pd` 0 or the new directory. */
    method SpawnTask(frame: nat, pd: nat, stack: nat) returns (id: int)
      requires Valid() && frame != 0 && (pd != 0 ==> pd !in dirs)
      modifies this, tasks
      ensures Valid() && Snapshot() == Spawn(old(Snapshot()), frame, pd, stack).0
      ensures var r := Spawn(old(Snapshot()), frame, pd, stack).1; id == if r.None? then -1 else r.value
    {
      ghost var s := Snapshot();
      SpawnKeeps(s, frame, pd, stack);
      var slot := FindFreeSlot();
      if slot < 0 {
        return -1;
      }
      if stack == 0 {
        return -1;
      }
      tasks[slot] := Task(nextId, Ready, frame, pd, stack);
      id := nextId;
      nextId := nextId + 1;
      active := active + 1;
      if pd != 0 {
        dirs := dirs + {pd};
      }
      stacks := stacks + {stack};
      assert Snapshot() == Spawn(s, frame, pd, stack).0;
    }

    /** `sched_kill`. */
    method KillTask(id: nat) returns (ok: bool)
      requires Valid()
      modifies this, tasks
      ensures Valid() && (Snapshot(), ok) == Kill(old(Snapshot()), id)
    {
      ghost var s := Snapshot();
      KillKeeps(s, id);
      hide SchedInv;
      if id == 0 {
        return false;
      }
      var slot := FindTaskById(id);
      if slot < 0 {
        return false;
      }
      if current == Some(slot) {
        tasks[slot] := tasks[slot].(state := Zombie);
        return true;
      }
      if tasks[slot].state == Zombie {
        return true;
      }
      DestroyTask(slot);
      ok := true;
    }

    /** Saving the interrupted task, or destroying it if it is a zombie. */
    method SuspendCurrent(frame: nat)
      requires tasks.Length == MAX_TASKS && current.Some? && current.value < MAX_TASKS
      modifies this, tasks
      ensures Snapshot() == Suspend(old(Snapshot()), frame)
    {
      var c := current.value;
      if tasks[c].state == Running {
        tasks[c] := tasks[c].(frame := frame, state := Ready);
      } else if tasks[c].state == Zombie {
        DestroyTask(c);
        current := None;
      }
    }

    /** Making slot `i` the running task. */
    method DispatchSlot(i: nat, frame: nat) returns (resume: nat)
      requires tasks.Length == MAX_TASKS && i < MAX_TASKS
      modifies this, tasks
      ensures (Snapshot(), resume) == Dispatch(old(Snapshot()), i, frame)
    {
      current := Some(i);
      tasks[i] := tasks[i].(state := Running);
      if tasks[i].pd != 0 {
        loaded := tasks[i].pd;
      }
      resume := tasks[i].frame;
      if tasks[i].frame == 0 {
        tasks[i] := tasks[i].(frame := frame);
        resume := frame;
      }
      assert tasks[..] == old(tasks[..])[i := old(tasks[i]).(state := Running, frame := resume)];
    }

    /** `pick_next_task` and what follows it in `sched_tick`. */
    method ChooseNext(frame: nat) returns (resume: nat)
      requires tasks.Length == MAX_TASKS && (current.Some? ==> current.value < MAX_TASKS)
      modifies this, tasks
      ensures (Snapshot(), resume) == Choose(old(Snapshot()), frame)
    {
      hide Pick, Dispatch;
      var found := PickNext();
      if found && index < MAX_TASKS {
        resume := DispatchSlot(index, frame);
      } else if current.Some? && tasks[current.value].state == Ready {
        resume := DispatchSlot(current.value, frame);
      } else {
        if current.None? {
          current := Some(0);
        }
        var c := current.value;
        ghost var t := tasks[c];
        tasks[c] := tasks[c].(state := Running);
        if tasks[c].frame == 0 {
          tasks[c] := tasks[c].(frame := frame);
        }
        assert tasks[..] == old(tasks[..])[c := t.(state := Running, frame := if t.frame == 0 then frame else t.frame)];
        resume := frame;
      }
    }

    /** `sched_tick`, with all its branches. */
    method SchedTick(frame: nat) returns (resume: nat)
      requires tasks.Length == MAX_TASKS && (current.Some? ==> current.value < MAX_TASKS)
      modifies this, tasks
      ensures tasks.Length == MAX_TASKS && (Snapshot(), resume) == Tick(old(Snapshot()), frame)
    {
      if current.None? {
        return frame;
      }
      var c := current.value;
      if active <= 1 {
        if tasks[c].state == Zombie {
          DestroyTask(c);
          current := None;
          return frame;
        }
        tasks[c] := tasks[c].(frame := frame, state := Running);
        return frame;
      }
      hide Suspend, Reap, Choose;
      SuspendCurrent(frame);
      ReapZombies();
      resume := ChooseNext(frame);
    }
  }

  /** The timer interrupt: `timer_callback` inside `isr_dispatch`. */
  class Interrupts {
    const sched: Scheduler
    var override: nat
    var ticks: nat

    constructor (sched: Scheduler)
      ensures this.sched == sched && override == 0 && ticks == 0
    {
      this.sched := sched;
      override, ticks := 0, 0;
    }

    /** `interrupt_request_frame_switch`. */
    method RequestFrameSwitch(frame: nat)
      modifies this`override
      ensures override == if frame != 0 then frame else old(override)
    {
      if frame != 0 {
        override := frame;
      }
    }

    /** `timer_callback`. */
    method TimerCallback(frame: nat)
      requires sched.Valid() && frame != 0
      modifies this, sched, sched.tasks
      ensures sched.Valid() && ticks == old(ticks) + 1 && sched.Snapshot() == Tick(old(sched.Snapshot()), frame).0
      ensures var next := Tick(old(sched.Snapshot()), frame).1;
              override == if next != 0 && next != frame then next else old(override)
    {
      ghost var s := sched.Snapshot();
      TickKeeps(s, frame);
      hide SchedInv;
      ticks := ticks + 1;
      var next := sched.SchedTick(frame);
      if next != 0 && next != frame {
        RequestFrameSwitch(next);
      }
    }

    /** `isr_dispatch` of the timer vector. No override is left behind for the next interrupt; so
        the processor resumes with exactly the frame the scheduler chose, which could fail only if
        a stale override met a tick that changes nothing. */
    method DispatchTimer(frame: nat) returns (resume: nat)
      requires sched.Valid() && frame != 0
      modifies this, sched, sched.tasks
      ensures sched.Valid() && override == 0 && ticks == old(ticks) + 1
      ensures sched.Snapshot() == Tick(old(sched.Snapshot()), frame).0
      ensures var next := Tick(old(sched.Snapshot()), frame).1;
              resume == next <==> old(override) == 0 || next != frame || old(override) == frame
    {
      ResumesSomething(sched.Snapshot(), frame);
      TimerCallback(frame);
      resume := if override != 0 then override else frame;
      override := 0;
    }
  }

  /** A tick never resumes with NULL. */
  lemma ResumesSomething(s: Sched, frame: nat)
    requires SchedInv(s) && frame != 0
    ensures Tick(s, frame).1 != 0
  {
    if s.active > 1 {
      var n := TickDispatches(s, frame);
      DispatchKeeps(Suspend(s, frame), Ahead(s.index, n), frame);
    } else {
      TickAlone(s, frame);
    }
  }
}
