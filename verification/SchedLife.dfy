/** The lives of tasks: what a spawn and a kill do to the table, and that a task exists exactly
    from its spawn until it is killed or exits. */
module TaskLives {
  import opened Wrappers
  import opened Scheduling

  /** Slot `i` holds task `id`. */
  ghost predicate HoldsTask(s: Sched, i: nat, id: nat) {
    i < |s.tasks| && Occupied(s.tasks[i]) && s.tasks[i].id == id
  }

  ghost predicate HasTask(s: Sched, id: nat) { exists i: nat :: HoldsTask(s, i, id) }

  /** Slot `i` is the same, or the only one that is not. */
  ghost predicate OnlySlot(s: Sched, s': Sched, i: nat) {
    |s'.tasks| == |s.tasks| && forall k :: 0 <= k < |s.tasks| && k != i ==> s'.tasks[k] == s.tasks[k]
  }

  ghost predicate SameCursor(s: Sched, s': Sched) {
    s'.current == s.current && s'.index == s.index && s'.loaded == s.loaded
  }

  // ----- spawn and kill --------------------------------------------------------------------

  /** A spawn succeeds exactly when a slot is unused and a stack was to be had. The new task then has
      an identifier no task had before, and is ready with the frame, directory and stack given; no
      other slot changes. */
  lemma SpawnIff(s: Sched, frame: nat, pd: nat, stack: nat)
    requires SchedInv(s)
    ensures var (s', r) := Spawn(s, frame, pd, stack);
            && (r.Some? <==> stack != 0 && exists i :: 0 <= i < MAX_TASKS && !Occupied(s.tasks[i]))
            && (r.None? ==> s' == s)
            && (r.Some? ==> SameCursor(s, s') && r.value > 0 && !HasTask(s, r.value) && r.value < s'.nextId && exists i: nat ::
                  && i < MAX_TASKS && !Occupied(s.tasks[i]) && OnlySlot(s, s', i)
                  && s'.tasks[i] == Task(r.value, Ready, frame, pd, stack))
  {
    var (s', r) := Spawn(s, frame, pd, stack);
    var i := FirstFree(s.tasks, 0);
    if r.Some? {
      assert OnlySlot(s, s', i);
    }
  }

  /** A kill succeeds exactly when the identifier is that of a task other than task 0. The running
      task becomes a zombie, any other leaves its slot; no other slot changes. */
  lemma KillIff(s: Sched, id: nat)
    requires SchedInv(s)
    ensures var (s', ok) := Kill(s, id);
            && (ok <==> id != 0 && HasTask(s, id))
            && (!ok ==> s' == s)
            && (ok ==> SameCursor(s, s') && exists i: nat ::
                  && HoldsTask(s, i, id) && OnlySlot(s, s', i)
                  && if i == s.index then s'.tasks[i] == s.tasks[i].(state := Zombie) else !Occupied(s'.tasks[i]) && !HasTask(s', id))
  {
    var (s', ok) := Kill(s, id);
    var i := FindById(s.tasks, id, 0);
    if ok {
      assert HoldsTask(s, i, id) && OnlySlot(s, s', i);
      assert i != s.index ==> forall k: nat :: !HoldsTask(s', k, id);
    } else if HasTask(s, id) {
      var k: nat :| HoldsTask(s, k, id);
    }
  }

  // ----- lives over runs -------------------------------------------------------------------

  /** Task `id` exists and has not come to its end. */
  ghost predicate Healthy(s: Sched, id: nat) {
    exists i: nat :: HoldsTask(s, i, id) && s.tasks[i].state != Zombie
  }

  /** The steps that end task `id`: a kill, and its own exit. */
  ghost predicate Ends(s: Sched, e: Event, id: nat) {
    match e
    case Killed(k) => k == id && id != 0
    case Exited => HoldsTask(s, s.index, id)
    case _ => false
  }

  lemma KillHealthy(s: Sched, k: nat, id: nat)
    requires SchedInv(s)
    ensures Healthy(Kill(s, k).0, id) <==> Healthy(s, id) && !(k == id && id != 0)
  {
    hide Kill;
    KillIff(s, k);
    var (s', ok) := Kill(s, k);
    if ok {
      var j: nat :| HoldsTask(s, j, k) && OnlySlot(s, s', j)
        && if j == s.index then s'.tasks[j] == s.tasks[j].(state := Zombie) else !Occupied(s'.tasks[j]);
      SlotHealthy(s, s', j, id);
    }
  }

  /** A slot that ends takes exactly its own task with it. */
  lemma SlotHealthy(s: Sched, s': Sched, j: nat, id: nat)
    requires SchedInv(s) && j < MAX_TASKS && Occupied(s.tasks[j]) && OnlySlot(s, s', j)
    requires s'.tasks[j].state == Zombie || !Occupied(s'.tasks[j])
    ensures Healthy(s', id) <==> Healthy(s, id) && s.tasks[j].id != id
  {
    if Healthy(s', id) {
      var i: nat :| HoldsTask(s', i, id) && s'.tasks[i].state != Zombie;
      assert i != j && HoldsTask(s, i, id);
    }
    if Healthy(s, id) && s.tasks[j].id != id {
      var i: nat :| HoldsTask(s, i, id) && s.tasks[i].state != Zombie;
      assert i != j && HoldsTask(s', i, id);
    }
  }

  /** Tasks are the same, one by one, zombies and states apart. */
  ghost predicate SameHealth(s: Sched, s': Sched) {
    && |s'.tasks| == |s.tasks|
    && forall k :: 0 <= k < |s.tasks| ==>
         && (Occupied(s'.tasks[k]) && s'.tasks[k].state != Zombie <==> Occupied(s.tasks[k]) && s.tasks[k].state != Zombie)
         && (Occupied(s'.tasks[k]) ==> s'.tasks[k].id == s.tasks[k].id)
  }

  lemma SameHealthy(s: Sched, s': Sched, id: nat)
    requires SameHealth(s, s')
    ensures Healthy(s', id) <==> Healthy(s, id)
  {
    if Healthy(s', id) {
      var i: nat :| HoldsTask(s', i, id) && s'.tasks[i].state != Zombie;
      assert HoldsTask(s, i, id);
    }
    if Healthy(s, id) {
      var i: nat :| HoldsTask(s, i, id) && s.tasks[i].state != Zombie;
      assert HoldsTask(s', i, id);
    }
  }

  /** After a tick there is no zombie left, and every other task is still there. */
  lemma TickHealth(s: Sched, frame: nat)
    requires SchedInv(s) && frame != 0
    ensures SameHealth(s, Tick(s, frame).0)
    ensures forall k :: 0 <= k < MAX_TASKS ==> Tick(s, frame).0.tasks[k].state != Zombie
  {
    if s.active > 1 {
      var n := TickDispatches(s, frame);
    } else {
      TickAlone(s, frame);
    }
  }

  /** A tick loads the directory of the task it resumes, and leaves the loaded one if that has none. */
  lemma TickLoads(s: Sched, frame: nat)
    requires SchedInv(s) && frame != 0
    ensures var s' := Tick(s, frame).0;
            && s'.index < |s'.tasks| && s'.tasks[s'.index].state == Running
            && s'.loaded == if s'.tasks[s'.index].pd != 0 then s'.tasks[s'.index].pd else s.loaded
  {
    if s.active > 1 {
      var n := TickDispatches(s, frame);
    } else {
      TickAlone(s, frame);
    }
  }

  lemma SpawnHealthy(s: Sched, frame: nat, pd: nat, stack: nat, id: nat)
    requires SchedInv(s) && id < s.nextId
    ensures Healthy(Spawn(s, frame, pd, stack).0, id) <==> Healthy(s, id)
  {
    var s' := Spawn(s, frame, pd, stack).0;
    var j := FirstFree(s.tasks, 0);
    if Healthy(s', id) {
      var i: nat :| HoldsTask(s', i, id) && s'.tasks[i].state != Zombie;
      assert HoldsTask(s, i, id);
    }
    if Healthy(s, id) {
      var i: nat :| HoldsTask(s, i, id) && s.tasks[i].state != Zombie;
      assert HoldsTask(s', i, id);
    }
  }

  /** A task lives on through exactly the steps that do not end it. */
  lemma HealthyStepIff(s: Sched, e: Event, id: nat)
    requires SchedInv(s) && Allowed(s, e) && id < s.nextId
    ensures Healthy(Step(s, e), id) <==> Healthy(s, id) && !Ends(s, e, id)
    ensures id < Step(s, e).nextId
  {
    match e
    case Spawned(frame, pd, stack) => SpawnHealthy(s, frame, pd, stack, id);
    case Killed(k) => KillHealthy(s, k, id);
    case Exited => SlotHealthy(s, Exit(s), s.index, id);
    case Ticked(frame) =>
      TickHealth(s, frame);
      SameHealthy(s, Tick(s, frame).0, id);
      TickCounter(s, frame);
  }

  lemma TickCounter(s: Sched, frame: nat)
    requires SchedInv(s) && frame != 0
    ensures Tick(s, frame).0.nextId == s.nextId
  {
    if s.active > 1 {
      var n := TickDispatches(s, frame);
    }
  }

  /** Some step of the run ends task `id`. */
  ghost predicate RunEnds(s: Sched, es: seq<Event>, id: nat)
    requires SchedInv(s) && AllAllowed(s, es)
    decreases |es|
  {
    es != [] && (Ends(s, es[0], id) || RunEnds(Step(s, es[0]), es[1..], id))
  }

  /** Over every run, a task is there and not a zombie exactly if it was and no step ended it: none
      is lost, and none comes back. */
  lemma {:induction false} HealthyRunIff(s: Sched, es: seq<Event>, id: nat)
    requires SchedInv(s) && AllAllowed(s, es) && id < s.nextId
    ensures Healthy(Run(s, es), id) <==> Healthy(s, id) && !RunEnds(s, es, id)
    decreases |es|
  {
    hide Step, Allowed, Healthy, Ends;
    if es != [] {
      HealthyStepIff(s, es[0], id);
      HealthyRunIff(Step(s, es[0]), es[1..], id);
    }
  }

  /** No slot holds task `id`, and no later task will get its identifier. */
  ghost predicate Gone(s: Sched, id: nat) { id < s.nextId && !HasTask(s, id) }

  /** Task `id` is a zombie, or not there at all. */
  ghost predicate Ended(s: Sched, id: nat) { id < s.nextId && !Healthy(s, id) }

  lemma EndedStep(s: Sched, e: Event, id: nat)
    requires SchedInv(s) && Allowed(s, e) && Ended(s, id)
    ensures Ended(Step(s, e), id) && (e.Ticked? ==> Gone(Step(s, e), id))
  {
    hide Step, Healthy;
    HealthyStepIff(s, e, id);
    if e.Ticked? && HasTask(Step(s, e), id) {
      var i: nat :| HoldsTask(Step(s, e), i, id);
      NoZombie(s, e.frame, i);
      HealthyAt(Step(s, e), i, id);
    }
  }

  lemma NoZombie(s: Sched, frame: nat, i: nat)
    requires SchedInv(s) && frame != 0
    ensures i < MAX_TASKS ==> Step(s, Ticked(frame)).tasks[i].state != Zombie
    ensures |Step(s, Ticked(frame)).tasks| == MAX_TASKS
  {
    TickHealth(s, frame);
  }

  lemma HealthyAt(s: Sched, i: nat, id: nat)
    requires HoldsTask(s, i, id) && s.tasks[i].state != Zombie
    ensures Healthy(s, id)
  {
  }

  lemma GoneStep(s: Sched, e: Event, id: nat)
    requires SchedInv(s) && Allowed(s, e) && Gone(s, id)
    ensures Gone(Step(s, e), id)
  {
    if e.Ticked? {
      EndedStep(s, e, id);
    } else if i: nat :| HoldsTask(Step(s, e), i, id) {
      assert HoldsTask(s, i, id);
    }
  }

  lemma {:induction false} EndedRun(s: Sched, es: seq<Event>, id: nat)
    requires SchedInv(s) && AllAllowed(s, es) && Ended(s, id) && (Gone(s, id) || Ticks(es) >= 1)
    ensures Gone(Run(s, es), id)
    decreases |es|
  {
    hide Step, Allowed, Healthy, HasTask;
    if es != [] {
      EndedStep(s, es[0], id);
      if Gone(s, id) {
        GoneStep(s, es[0], id);
      }
      EndedRun(Step(s, es[0]), es[1..], id);
    }
  }

  /** Once a task was killed or exited and one tick has passed, it is in no slot and never runs again,
      whatever else happens before and after the tick. */
  lemma EndedForGood(s: Sched, e: Event, es: seq<Event>, id: nat)
    requires SchedInv(s) && HasTask(s, id) && Ends(s, e, id) && AllAllowed(s, [e] + es) && Ticks(es) >= 1
    ensures var s' := Run(s, [e] + es); Gone(s', id) && (s'.index < |s'.tasks| ==> s'.tasks[s'.index].id != id)
  {
    var run := [e] + es;
    assert run[0] == e && run[1..] == es;
    KnownId(s, id);
    HealthyStepIff(s, e, id);
    EndedRun(Step(s, e), es, id);
    StaysValid(Step(s, e), es);
    var s' := Run(s, run);
    assert Occupied(s'.tasks[s'.index]);
    if s'.tasks[s'.index].id == id {
      assert HoldsTask(s', s'.index, id);
    }
  }

  lemma KnownId(s: Sched, id: nat)
    requires SchedInv(s) && HasTask(s, id)
    ensures id < s.nextId
  {
    var i: nat :| HoldsTask(s, i, id);
  }

  lemma {:induction false} StaysValid(s: Sched, es: seq<Event>)
    requires SchedInv(s) && AllAllowed(s, es)
    ensures SchedInv(Run(s, es))
    decreases |es|
  {
    if es != [] {
      StaysValid(Step(s, es[0]), es[1..]);
    }
  }
}
