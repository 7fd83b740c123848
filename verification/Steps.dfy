/** Each step of a run, spelled out, with what the code that performs it relies on. */
module Steps {
  import opened Common
  import opened Sched
  import opened Syscalls
  import opened Processes
  import opened Runs

  /** What schedule relies on: the lists' heads are tasks, and with an empty queue the current task runs. */
  predicate Schedulable(k: K)
  {
    && k.current in k.mem
    && (k.rq == [] ==> k.head == NULL && k.mem[k.current].state == Running)
    && (k.rq != [] ==> k.head in k.mem && k.head != NULL
                       && var k1 := Dequeued(k); (k1.tail == NULL || k1.tail in k1.mem) && k.head in PutBack(k1).mem)
  }

  lemma CanSchedule(k: K)
    requires Lists(k) && PlacesBut(k, NULL) && k.mem[k.current].state != Ready
    ensures Schedulable(k)
  {
    if k.rq == [] {
      EmptyQueueMeansIdle(k);
    } else {
      DequeuedLists(k);
      DequeuedCurrent(k);
      PutBackMem(Dequeued(k));
    }
  }

  lemma BlockSchedules(k: K, want: nat)
    requires Stable(k) && k.current != k.boot
    ensures Schedulable(BlockedAny(k, want))
  {
    SleepOk(k, want);
    CanSchedule(BlockedAny(k, want));
  }

  lemma ExitSchedules(k: K, status: int)
    requires Stable(k) && k.current != k.boot
    ensures Tidy(Died(k, status)) && Schedulable(ExitWoken(k, status))
  {
    DiedLists(k, status);
    ExitWokenOk(k, status);
    CanSchedule(ExitWoken(k, status));
  }

  lemma TailIsTask(k: K)
    requires Lists(k)
    ensures k.tail == NULL || k.tail in k.mem
  {
    if k.rq != [] { assert k.rq[|k.rq| - 1] in k.mem; }
  }

  /** The lists of k are well formed, folded: OpenLists unfolds it. */
  ghost predicate Tidy(k: K)
  {
    forall u {:trigger Is(u, k)} :: Is(u, k) ==> Lists(u)
  }

  lemma OpenLists(k: K)
    requires Tidy(k)
    ensures Lists(k)
  {
    assert Is(k, k);
  }

  lemma StepGood(s: Sys, e: Event)
    requires Good(s) && Enabled(s, e)
    ensures Good(Step(s, e))
  {
    StepKeeps(s, e);
  }

  lemma TickIs(s: Sys)
    requires Good(s)
    ensures Schedulable(s.k) && Enabled(s, Tick) && Good(Step(s, Tick))
    ensures Step(s, Tick) ==
            if Switches(s) then s.(k := Scheduled(s.k), ticks := 0, need := false) else s.(ticks := s.ticks + 1)
  {
    Open(s);
    CanSchedule(s.k);
    StepGood(s, Tick);
  }

  lemma StartIs(s: Sys)
    requires Good(s) && Enabled(s, Start)
    ensures Schedulable(s.k) && Good(Step(s, Start)) && Step(s, Start) == s.(k := Scheduled(s.k))
  {
    Open(s);
    CanSchedule(s.k);
    StepGood(s, Start);
  }

  lemma ExitIs(s: Sys, code: nat)
    requires Good(s) && Enabled(s, Exit(code))
    ensures var st := ToInt32(code);
            && AllIn(s.k.bl, s.k.mem) && Tidy(Died(s.k, st)) && Schedulable(ExitWoken(s.k, st))
            && Good(Step(s, Exit(code)))
            && Step(s, Exit(code)) ==
               s.(k := Scheduled(ExitWoken(s.k, st)), exits := s.exits[s.k.mem[s.k.current].pid := st])
  {
    Open(s);
    ExitSchedules(s.k, ToInt32(code));
    StepGood(s, Exit(code));
  }

  lemma ForkIs(s: Sys, at: nat)
    requires Good(s) && Enabled(s, Fork(at))
    ensures var k' := Spawned(s.k, at, s.k.mem[s.k.current].pid);
            && (s.k.tail == NULL || s.k.tail in s.k.mem) && Good(Step(s, Fork(at))) && Step(s, Fork(at)) == s.(k := k')
            && at in k'.mem && k'.mem[at].pid == s.k.nextPid
  {
    Open(s);
    TailIsTask(s.k);
    SpawnedTasks(s.k, at, s.k.mem[s.k.current].pid);
    StepGood(s, Fork(at));
  }

  lemma CreateIs(s: Sys, at: nat)
    requires Good(s) && Enabled(s, Create(at))
    ensures (s.k.tail == NULL || s.k.tail in s.k.mem) && Good(Step(s, Create(at)))
    ensures Step(s, Create(at)) == s.(k := Spawned(s.k, at, 0))
  {
    Open(s);
    TailIsTask(s.k);
    StepGood(s, Create(at));
  }

  lemma WaitIs(s: Sys, want: nat)
    requires Good(s) && Enabled(s, Wait(want))
    ensures Tidy(s.k) && AllIn(s.k.reg, s.k.mem) && Schedulable(BlockedAny(s.k, want)) && Good(Step(s, Wait(want)))
    ensures Found(s.k, want) != NULL ==> Step(s, Wait(want)) == ReturnStep(s, Found(s.k, want))
    ensures Found(s.k, want) != NULL ==> s.k.mem[Found(s.k, want)].pid != NULL
    ensures Found(s.k, want) == NULL ==> Step(s, Wait(want)) == s.(k := Scheduled(BlockedAny(s.k, want)))
  {
    Open(s);
    BlockSchedules(s.k, want);
    StepGood(s, Wait(want));
  }

  /** The search of a later pass, uninterrupted, finds the first zombie in registry order. */
  lemma LookIs(s: Sys, z: nat)
    requires Good(s) && s.k.current in s.k.mem && s.k.mem[s.k.current].want.Waiting? && s.k.current != s.k.boot
    requires AllIn(s.k.reg, s.k.mem) && z == Found(s.k, s.k.mem[s.k.current].want.pid)
    ensures var want := s.k.mem[s.k.current].want.pid;
            && Enabled(s, Look(z)) && Good(Step(s, Look(z)))
            && (z != NULL ==> Step(s, Look(z)) == ReturnStep(s, z) && s.k.mem[z].pid != NULL)
            && (z == NULL ==> Step(s, Look(z)) == s.(k := Noted(s.k, want)))
  {
    Open(s);
    FoundIff(s.k, s.k.mem[s.k.current].want.pid);
    StepGood(s, Look(z));
  }

  lemma CanLook(s: Sys)
    requires Good(s)
    ensures Tidy(s.k) && AllIn(s.k.reg, s.k.mem)
  {
    Open(s);
  }

  lemma PartIs(s: Sys, e: Event)
    requires Good(s) && Enabled(s, e) && (e.Mark? || e.Push?)
    ensures var want := s.k.mem[s.k.current].want.pid;
            && Good(Step(s, e))
            && Step(s, e) == s.(k := if e.Mark? then Marking(s.k, want) else Pushing(s.k, want))
  {
    StepGood(s, e);
  }

  lemma CallIs(s: Sys)
    requires Good(s) && Enabled(s, Call)
    ensures var want := s.k.mem[s.k.current].want.pid;
            && Schedulable(Calling(s.k, want)) && Good(Step(s, Call))
            && Step(s, Call) == s.(k := Scheduled(Calling(s.k, want)))
  {
    Open(s);
    CallingOk(s.k, s.k.mem[s.k.current].want.pid);
    CanSchedule(Calling(s.k, s.k.mem[s.k.current].want.pid));
    StepGood(s, Call);
  }
}
