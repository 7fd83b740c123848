/** Two runs in which a wakeup is lost. A parent waits for its second child, is woken by the first one
    and looks in vain. In one run it is preempted before it blocks again, the second child exits
    meanwhile and finds nobody to wake, and then the parent blocks. In the other it is preempted between
    the two writes of task_block_any, and the second child cannot find it either
    (core/cpu/syscall.c:109-124, core/cpu/sched.c:73-103 and 170). */
module LostWakeup {
  import opened Common
  import opened Sched
  import opened Syscalls
  import opened Processes
  import opened Runs
  import opened Steps

  /** What matters of a task here. */
  datatype Brief = Brief(pid: nat, ppid: nat, state: State, want: Want)

  function BriefOf(t: Tcb): Brief { Brief(t.pid, t.ppid, t.state, t.want) }

  // Addresses: the bootstrap task at 1, the parent at 2, its children at 3 and 4.

  ghost predicate Facts(s: Sys, cur: nat, rq: seq<nat>, bl: seq<nat>, a: Brief, b: Brief, c: Brief)
  {
    && Good(s) && s.k.current == cur && s.k.rq == rq && s.k.bl == bl && s.k.boot == 1 && s.ticks == 0 && !s.need
    && s.k.mem.Keys == {1, 2, 3, 4} && s.k.mem[1].want == NotWaiting && s.k.mem[1].state != Zombie
    && BriefOf(s.k.mem[2]) == a && BriefOf(s.k.mem[3]) == b && BriefOf(s.k.mem[4]) == c
    && forall t :: t in s.k.mem ==> s.k.mem[t].blockOn == 0
  }

  /** The state of task t when cur gives way to next. */
  function Turn(b: Brief, t: nat, cur: nat, next: nat): Brief
  {
    if t == cur then b.(state := Ready) else if t == next then b.(state := Running) else b
  }

  /** So far every mark was clear, and no tick struck. */
  ghost predicate Quiet(ss: seq<Sys>, es: seq<Event>)
  {
    |ss| == |es| + 1 && ClearMarks(ss, es, |es|) && Unstruck(ss, es, |es|)
  }

  lemma MarksGrow(ss: seq<Sys>, es: seq<Event>, s: Sys, e: Event)
    requires |ss| == |es| + 1
    ensures ClearMarks(ss + [s], es + [e], |es| + 1) <==>
            ClearMarks(ss, es, |es|) && (e.Mark? ==> Clear(ss[|es|]))
  {
    var tt, fs := ss + [s], es + [e];
    assert fs[|es|] == e && tt[|es|] == ss[|es|];
    forall i {:trigger es[i]} | 0 <= i < |es| ensures fs[i] == es[i] && tt[i] == ss[i] {
    }
  }

  lemma StrikesGrow(ss: seq<Sys>, es: seq<Event>, s: Sys, e: Event)
    requires |ss| == |es| + 1
    ensures Unstruck(ss + [s], es + [e], |es| + 1) <==> Unstruck(ss, es, |es|) && !Strikes(ss[|es|], e)
  {
    var tt, fs := ss + [s], es + [e];
    assert fs[|es|] == e && tt[|es|] == ss[|es|];
    forall i {:trigger es[i]} | 0 <= i < |es| ensures fs[i] == es[i] && tt[i] == ss[i] {
    }
  }

  /** A run grows by one event. */
  lemma Go(ss: seq<Sys>, es: seq<Event>, e: Event) returns (tt: seq<Sys>, fs: seq<Event>)
    requires Run(ss, es) && Good(ss[|es|]) && Enabled(ss[|es|], e)
    ensures Run(tt, fs) && |fs| == |es| + 1 && tt[|fs|] == Step(ss[|es|], e)
    ensures ClearMarks(tt, fs, |fs|) <==> ClearMarks(ss, es, |es|) && (e.Mark? ==> Clear(ss[|es|]))
    ensures Unstruck(tt, fs, |fs|) <==> Unstruck(ss, es, |es|) && !Strikes(ss[|es|], e)
  {
    var s := Step(ss[|es|], e);
    MarksGrow(ss, es, s, e);
    StrikesGrow(ss, es, s, e);
    RunGrows(ss, es, s, e);
    tt, fs := ss + [s], es + [e];
  }

  lemma RunGrows(ss: seq<Sys>, es: seq<Event>, s: Sys, e: Event)
    requires Run(ss, es) && Follows(ss[|es|], e, s)
    ensures Run(ss + [s], es + [e])
  {
    var tt, fs := ss + [s], es + [e];
    forall i {:trigger fs[i]} | 0 <= i < |fs| ensures Follows(tt[i], fs[i], tt[i + 1]) {
      if i < |es| { assert fs[i] == es[i] && Follows(ss[i], es[i], ss[i + 1]); }
    }
  }

  /** k' is k after a switch to its first queued task; `last` holds the previous one if it goes on running. */
  ghost predicate Switch(k: K, k': K, last: seq<nat>)
  {
    && k.rq != [] && k'.current == k.rq[0] && k'.rq == k.rq[1..] + last && k'.bl == k.bl && k'.boot == k.boot
    && k'.mem.Keys == k.mem.Keys && (forall t :: t in k.mem ==> k'.mem[t].blockOn == k.mem[t].blockOn)
    && forall t :: t in k.mem ==>
       BriefOf(k'.mem[t]) == Turn(BriefOf(k.mem[t]), t, if last == [] then NULL else last[0], k.rq[0])
  }

  /** The request of a task inside a late task_block_any. */
  predicate Inside(w: Want) { w.Marked? || w.Pushed? }

  /** schedule from a running task. */
  lemma Switched(s: Sys)
    requires Good(s) && s.k.rq != [] && s.k.current in s.k.mem && !Inside(s.k.mem[s.k.current].want)
    ensures Schedulable(s.k) && Switch(s.k, Scheduled(s.k), [s.k.current])
  {
    Open(s);
    var k := s.k;
    CanSchedule(k);
    ScheduledStable(k);
    ScheduledTasks(k);
    ScheduledFields(k);
    BothPlaces(k, Scheduled(k));
  }

  lemma BothPlaces(k: K, k': K)
    requires PlacesBut(k, NULL) && PlacesBut(k', NULL) && NULL !in k.mem && NULL !in k'.mem && k.rq != []
    requires k.rq[0] in k.mem
    requires k'.mem.Keys == k.mem.Keys && k'.current == k.rq[0] && k.current in k'.rq
    requires k'.mem[k'.current].state == Running
    ensures k'.mem[k.current].state == Ready && k.rq[0] != k.current
  {
    assert InPlace(k', k.current);
  }

  /** schedule from a task that has blocked or exited. */
  lemma SwitchedOff(k: K)
    requires Lists(k) && PlacesBut(k, NULL) && Pids(k) && k.rq != []
    requires k.mem[k.current].state == Blocked || k.mem[k.current].state == Zombie
    ensures Schedulable(k) && Switch(k, Scheduled(k), [])
  {
    CanSchedule(k);
    ScheduledFields(k);
    ScheduledLists(k);
    ScheduledPlaces(k);
    ScheduledTasks(k);
    assert InPlace(k, k.rq[0]) && k.rq[0] in k.rq && k.rq[0] in k.mem;
    Turns(k.mem, Scheduled(k).mem, k.current, k.rq[0]);
  }

  /** Only the next task has changed. */
  lemma Turns(m: Mem, n: Mem, cur: nat, next: nat)
    requires SameTasks(m, n) && cur in m && next in m && cur != next && n[next].state == Running
    requires n[cur].state == m[cur].state
    requires forall t :: t in m && t != cur && t != next ==> n[t].state == m[t].state
    ensures forall t :: t in m ==> n[t].blockOn == m[t].blockOn
    ensures NULL !in m ==> forall t :: t in m ==> BriefOf(n[t]) == Turn(BriefOf(m[t]), t, NULL, next)
  {
  }

  /** task_block_any. */
  lemma SleptFacts(s: Sys, want: nat)
    requires Good(s) && s.k.current in s.k.mem && s.k.current != s.k.boot && s.k.rq != []
    requires !Inside(s.k.mem[s.k.current].want)
    ensures var k1 := BlockedAny(s.k, want); Schedulable(k1) && Switch(k1, Scheduled(k1), [])
  {
    Open(s);
    SleepOk(s.k, want);
    SwitchedOff(BlockedAny(s.k, want));
  }

  /** k1 is k after the wakeups of an exit: the tasks in `woken` are ready and queued. */
  ghost predicate WokenAs(k: K, k1: K, woken: seq<nat>, asleep: seq<nat>)
  {
    && k.current in k.mem && k1.rq == k.rq + woken && k1.bl == asleep && k1.boot == k.boot && k1.mem.Keys == k.mem.Keys
    && (forall t :: t in k.mem ==> k1.mem[t].blockOn == k.mem[t].blockOn)
    && (forall t :: t in k.mem ==> BriefOf(k1.mem[t]) == BriefOf(k.mem[t]).(state := k1.mem[t].state))
    && (forall t :: t in k.mem && t != k.current && t !in woken ==> k1.mem[t].state == k.mem[t].state)
    && (forall t :: t in woken ==> t in k.mem && k1.mem[t].state == Ready) && k1.mem[k.current].state == Zombie
  }

  lemma {:induction false} ExitFacts(s: Sys, woken: seq<nat>, asleep: seq<nat>)
    requires Good(s) && s.k.current in s.k.mem && s.k.current != s.k.boot && AllIn(s.k.bl, s.k.mem)
    requires !Inside(s.k.mem[s.k.current].want)
    requires var m := Died(s.k, 0).mem;
             AllIn(s.k.bl, m) && woken == Woken(m, s.k.bl, m[s.k.current].pid, m[s.k.current].ppid)
             && asleep == Asleep(m, s.k.bl, m[s.k.current].pid, m[s.k.current].ppid)
    ensures WokenAs(s.k, ExitWoken(s.k, 0), woken, asleep)
  {
    Open(s);
    ExitWakes(s.k, 0);
    ExitWokenOk(s.k, 0);
    WokenFacts(s.k, ExitWoken(s.k, 0), woken, asleep);
  }

  lemma {:induction false} WokenFacts(k: K, k1: K, woken: seq<nat>, asleep: seq<nat>)
    requires PlacesBut(k, NULL) && PlacesBut(k1, NULL) && NULL !in k.mem && NULL !in k1.mem && AllIn(k1.rq, k1.mem)
    requires k1.rq == k.rq + woken && k1.bl == asleep && k1.boot == k.boot && k.current in k1.mem
    requires k1.mem[k.current].state == Zombie
    requires SameTasks(Died(k, 0).mem, k1.mem)
    requires forall t :: t in k.mem && t != k.current ==>
               k1.mem[t].state == k.mem[t].state || (k.mem[t].state == Blocked && k1.mem[t].state == Ready)
    ensures WokenAs(k, k1, woken, asleep)
  {
    WokenStates(k, k1, woken);
    DiedBriefs(k.mem, Died(k, 0).mem, k1.mem, k.current);
  }

  lemma DiedBriefs(m: Mem, m0: Mem, m1: Mem, cur: nat)
    requires cur in m && m0 == m[cur := m[cur].(state := Zombie, exitStatus := 0)] && SameTasks(m0, m1)
    ensures m1.Keys == m.Keys && forall t :: t in m ==> m1[t].blockOn == m[t].blockOn
    ensures forall t :: t in m ==> BriefOf(m1[t]) == BriefOf(m[t]).(state := m1[t].state)
  {
  }

  lemma ExitSwitch(s: Sys)
    requires Good(s) && s.k.current in s.k.mem && s.k.current != s.k.boot && AllIn(s.k.bl, s.k.mem)
    requires !Inside(s.k.mem[s.k.current].want)
    requires ExitWoken(s.k, 0).rq != []
    ensures var k1 := ExitWoken(s.k, 0); Schedulable(k1) && Switch(k1, Scheduled(k1), [])
  {
    Open(s);
    ExitWokenOk(s.k, 0);
    SwitchedOff(ExitWoken(s.k, 0));
  }

  lemma WokenStates(k: K, k1: K, woken: seq<nat>)
    requires PlacesBut(k, NULL) && PlacesBut(k1, NULL) && NULL !in k.mem && NULL !in k1.mem && k1.mem.Keys == k.mem.Keys
    requires k1.rq == k.rq + woken
    requires AllIn(k1.rq, k1.mem)
    requires forall t :: t in k.mem && t != k.current ==>
               k1.mem[t].state == k.mem[t].state || (k.mem[t].state == Blocked && k1.mem[t].state == Ready)
    ensures forall t :: t in woken ==> t in k.mem && k1.mem[t].state == Ready
    ensures forall t :: t in k.mem && t != k.current && t !in woken ==> k1.mem[t].state == k.mem[t].state
  {
    forall t | t in woken ensures t in k.mem && k1.mem[t].state == Ready {
      assert t in k1.rq && InPlace(k1, t);
    }
    forall t | t in k.mem && t != k.current && t !in woken ensures k1.mem[t].state == k.mem[t].state {
      assert InPlace(k, t) && InPlace(k1, t);
    }
  }

  /** Two ticks switch from cur to the first task in the queue. */
  lemma TwoTicks(s: Sys, cur: nat, next: nat, q: seq<nat>, bl: seq<nat>, a: Brief, b: Brief, c: Brief)
    requires Facts(s, cur, [next] + q, bl, a, b, c) && cur in s.k.mem && !Inside(s.k.mem[cur].want)
    ensures Enabled(s, Tick) && Good(Step(s, Tick)) && Enabled(Step(s, Tick), Tick)
    ensures !Strikes(s, Tick) && !Strikes(Step(s, Tick), Tick)
    ensures var s2 := Step(Step(s, Tick), Tick);
            Facts(s2, next, q + [cur], bl, Turn(a, 2, cur, next), Turn(b, 3, cur, next), Turn(c, 4, cur, next))
  {
    TickIs(s);
    var s1 := Step(s, Tick);
    assert s1.k == s.k && s.k.rq[1..] == q;
    Switched(s1);
    TickIs(s1);
  }

  // ---------- The family ----------

  const A := Brief(2, 0, Running, NotWaiting)
  const B := Brief(3, 2, Ready, NotWaiting)
  const C := Brief(4, 2, Ready, NotWaiting)

  lemma SpawnFacts(s: Sys, at: nat, ppid: nat, t: nat)
    requires Good(s) && at != NULL && at !in s.k.mem && t in s.k.mem
    ensures var k' := Spawned(s.k, at, ppid);
            && k'.rq == s.k.rq + [at] && k'.bl == s.k.bl && k'.current == s.k.current && k'.boot == s.k.boot
            && k'.mem.Keys == s.k.mem.Keys + {at} && k'.nextPid == s.k.nextPid + 1
            && BriefOf(k'.mem[t]) == BriefOf(s.k.mem[t]) && k'.mem[t].blockOn == s.k.mem[t].blockOn
            && BriefOf(k'.mem[at]) == Brief(s.k.nextPid, ppid, Ready, NotWaiting) && k'.mem[at].blockOn == 0
  {
    Open(s);
    SpawnedLists(s.k, at, ppid);
    SpawnedTasks(s.k, at, ppid);
  }

  /** The bootstrap task and the parent, of which cur runs and the other is queued. */
  ghost predicate Couple(s: Sys, cur: nat, other: nat, a: Brief)
  {
    && Good(s) && s.k.current == cur && s.k.rq == [other] && s.k.bl == [] && s.k.boot == 1 && s.ticks == 0 && !s.need
    && s.k.mem.Keys == {1, 2} && s.k.nextPid == 3
    && s.k.mem[1].want == NotWaiting && s.k.mem[1].state != Zombie && s.k.mem[1].blockOn == 0
    && BriefOf(s.k.mem[2]) == a && s.k.mem[2].blockOn == 0
  }

  lemma Started(s: Sys)
    requires Couple(s, 1, 2, A.(state := Ready))
    ensures Enabled(s, Start) && Couple(Step(s, Start), 2, 1, A)
  {
    assert s.k.rq[1..] == [];
    Switched(s);
    StartIs(s);
    ScheduledFields(s.k);
  }

  lemma Created(s: Sys)
    requires s == Boot(1)
    ensures Good(s) && Enabled(s, Create(2)) && Couple(Step(s, Create(2)), 1, 2, A.(state := Ready))
  {
    BootOk(1);
    SpawnFacts(s, 2, 0, 1);
    CreateIs(s, 2);
  }

  /** The bootstrap task starts the parent. */
  lemma Parent() returns (ss: seq<Sys>, es: seq<Event>)
    ensures Run(ss, es) && Quiet(ss, es) && Couple(ss[|es|], 2, 1, A)
  {
    ss, es := [Boot(1)], [];
    Created(ss[0]);
    ss, es := Go(ss, es, Create(2));
    Started(ss[|es|]);
    ss, es := Go(ss, es, Start);
  }

  /** The parent forks twice. */
  lemma Family() returns (ss: seq<Sys>, es: seq<Event>)
    ensures Run(ss, es) && Quiet(ss, es) && Facts(ss[|es|], 2, [1, 3, 4], [], A, B, C)
  {
    ss, es := Parent();
    var s := ss[|es|];
    SpawnFacts(s, 3, 2, 1);
    SpawnFacts(s, 3, 2, 2);
    ForkIs(s, 3);
    ss, es := Go(ss, es, Fork(3));
    var s1 := ss[|es|];
    SpawnFacts(s1, 4, 2, 1);
    SpawnFacts(s1, 4, 2, 2);
    SpawnFacts(s1, 4, 2, 3);
    ForkIs(s1, 4);
    ss, es := Go(ss, es, Fork(4));
    assert s.k.rq + [3] + [4] == [1, 3, 4];
  }

  // ---------- The steps that matter ----------

  /** The parent waits for its second child and blocks. */
  lemma ParentWaits(s: Sys)
    requires Facts(s, 2, [1, 3, 4], [], A, B, C)
    ensures Enabled(s, Wait(4))
    ensures Facts(Step(s, Wait(4)), 1, [3, 4], [2], A.(state := Blocked, want := Waiting(4)), B, C)
  {
    WaitIs(s, 4);
    assert Found(s.k, 4) == NULL;
    SleptFacts(s, 4);
    assert [1, 3, 4][1..] + [] == [3, 4];
  }

  /** The first child exits and wakes the parent. */
  lemma FirstExits(s: Sys)
    requires Facts(s, 3, [4, 1], [2], A.(state := Blocked, want := Waiting(4)), B.(state := Running), C)
    ensures Enabled(s, Exit(0))
    ensures Facts(Step(s, Exit(0)), 4, [1, 2], [], A.(state := Ready, want := Waiting(4)), B.(state := Zombie),
            C.(state := Running))
  {
    ExitIs(s, 0);
    OnlyWaiter(Died(s.k, 0).mem, 2, 3, 2);
    ExitFacts(s, [2], []);
    ExitSwitch(s);
    assert [4, 1] + [2] == [4, 1, 2] && [4, 1, 2][1..] + [] == [1, 2];
  }

  lemma OnlyWaiter(m: Mem, t: nat, pid: nat, ppid: nat)
    requires t in m && m[t].blockOn == 0 && m[t].pid == ppid
    ensures AllIn([t], m) && Woken(m, [t], pid, ppid) == [t] && Asleep(m, [t], pid, ppid) == []
  {
    assert [t][1..] == [];
  }

  /** The parent looks for its second child in vain. */
  lemma ParentLooks(s: Sys)
    requires Facts(s, 2, [4, 1], [], A.(want := Waiting(4)), B.(state := Zombie), C)
    ensures Enabled(s, Look(NULL))
    ensures Facts(Step(s, Look(NULL)), 2, [4, 1], [], A.(want := Looked(4)), B.(state := Zombie), C)
  {
    CanLook(s);
    assert Found(s.k, 4) == NULL;
    LookIs(s, NULL);
  }

  /** The second child exits while nobody is blocked. */
  lemma SecondExits(s: Sys)
    requires Facts(s, 4, [1, 2], [], A.(state := Ready, want := Looked(4)), B.(state := Zombie), C.(state := Running))
    ensures Enabled(s, Exit(0))
    ensures Facts(Step(s, Exit(0)), 1, [2], [], A.(state := Ready, want := Looked(4)), B.(state := Zombie),
            C.(state := Zombie))
  {
    ExitIs(s, 0);
    ExitFacts(s, [], []);
    ExitSwitch(s);
    assert [1, 2] + [] == [1, 2] && [1, 2][1..] + [] == [2];
  }

  /** The parent marks itself although its child is a zombie. */
  lemma ParentSleeps(s: Sys)
    requires Facts(s, 2, [1], [], A.(want := Looked(4)), B.(state := Zombie), C.(state := Zombie))
    ensures Enabled(s, Mark) && !NoLostWakeup(Step(s, Mark).k) && !Clear(s)
  {
    var s' := Step(s, Mark);
    assert Wanted(s.k.mem[4], 2, 4) && Wanted(s'.k.mem[4], 2, 4);
    assert s'.k.mem[2].state == Blocked && !Unserved(s'.k.mem, 2);
  }

  lemma GoTwice(ss: seq<Sys>, es: seq<Event>) returns (tt: seq<Sys>, fs: seq<Event>)
    requires Run(ss, es) && Good(ss[|es|]) && Enabled(ss[|es|], Tick)
    requires Good(Step(ss[|es|], Tick)) && Enabled(Step(ss[|es|], Tick), Tick)
    requires Quiet(ss, es) && !Strikes(ss[|es|], Tick) && !Strikes(Step(ss[|es|], Tick), Tick)
    ensures Run(tt, fs) && |fs| == |es| + 2 && tt[|fs|] == Step(Step(ss[|es|], Tick), Tick) && Quiet(tt, fs)
  {
    tt, fs := Go(ss, es, Tick);
    tt, fs := Go(tt, fs, Tick);
  }

  /** The first child exits, and the parent looks for the second in vain. */
  lemma LooksInVain() returns (ss: seq<Sys>, es: seq<Event>)
    ensures Run(ss, es) && Facts(ss[|es|], 2, [4, 1], [], A.(want := Looked(4)), B.(state := Zombie), C)
    ensures Quiet(ss, es)
  {
    ss, es := Family();
    ParentWaits(ss[|es|]);
    ss, es := Go(ss, es, Wait(4));
    var a := A.(state := Blocked, want := Waiting(4));
    TwoTicks(ss[|es|], 1, 3, [4], [2], a, B, C);
    ss, es := GoTwice(ss, es);
    assert [4] + [1] == [4, 1];
    FirstExits(ss[|es|]);
    ss, es := Go(ss, es, Exit(0));
    ss, es := WokenInVain(ss, es);
  }

  /** There is a run that loses a wakeup although no tick strikes. */
  lemma WakeupIsLost() returns (ss: seq<Sys>, es: seq<Event>)
    ensures Run(ss, es) && !NoLostWakeup(ss[|es|].k) && Unstruck(ss, es, |es|) && !ClearMarks(ss, es, |es|)
  {
    ss, es := LooksInVain();
    ss, es := ExitUnseen(ss, es);
  }

  /** And there is one that loses a wakeup although every mark is clear. */
  lemma StrikeIsLost() returns (ss: seq<Sys>, es: seq<Event>)
    ensures Run(ss, es) && !NoLostWakeup(ss[|es|].k) && ClearMarks(ss, es, |es|) && !Unstruck(ss, es, |es|)
  {
    ss, es := LooksInVain();
    ParentMarks(ss[|es|]);
    ss, es := Go(ss, es, Mark);
    TicksStrike(ss[|es|]);
    ss, es := Go(ss, es, Tick);
    ss, es := Go(ss, es, Tick);
    ExitUnheardOf(ss[|es|]);
    ss, es := Go(ss, es, Exit(0));
  }

  /** The parent marks itself, with no zombie there that it waits for. */
  lemma ParentMarks(s: Sys)
    requires Facts(s, 2, [4, 1], [], A.(want := Looked(4)), B.(state := Zombie), C)
    ensures Enabled(s, Mark) && Clear(s)
    ensures Facts(Step(s, Mark), 2, [4, 1], [], A.(state := Blocked, want := Marked(4)), B.(state := Zombie), C)
  {
    StepGood(s, Mark);
    assert forall z :: z in s.k.mem ==> !Wanted(s.k.mem[z], 2, 4);
  }

  /** Two ticks later it is off the processor and on no list. */
  lemma TicksStrike(s: Sys)
    requires Facts(s, 2, [4, 1], [], A.(state := Blocked, want := Marked(4)), B.(state := Zombie), C)
    ensures Enabled(s, Tick) && !Strikes(s, Tick) && Good(Step(s, Tick)) && Enabled(Step(s, Tick), Tick)
    ensures Strikes(Step(s, Tick), Tick)
    ensures Facts(Step(Step(s, Tick), Tick), 4, [1], [], A.(state := Blocked, want := Marked(4)),
                  B.(state := Zombie), C.(state := Running))
  {
    TickIs(s);
    var s1 := Step(s, Tick);
    assert s1.k == s.k && s.k.rq[1..] == [1];
    SwitchedAway(s1);
    TickIs(s1);
  }

  lemma SwitchedAway(s: Sys)
    requires Good(s) && s.k.rq != [] && s.k.current in s.k.mem && s.k.mem[s.k.current].state == Blocked
    ensures Schedulable(s.k) && Switch(s.k, Scheduled(s.k), [])
  {
    Open(s);
    SwitchedOff(s.k);
  }

  /** The second child exits, and the stranded parent sleeps on a zombie. */
  lemma ExitUnheardOf(s: Sys)
    requires Facts(s, 4, [1], [], A.(state := Blocked, want := Marked(4)), B.(state := Zombie), C.(state := Running))
    ensures Enabled(s, Exit(0)) && !NoLostWakeup(Step(s, Exit(0)).k)
  {
    ExitIs(s, 0);
    ExitFacts(s, [], []);
    ExitSwitch(s);
    var s' := Step(s, Exit(0));
    assert Wanted(s'.k.mem[4], 2, 4);
    assert s'.k.mem[2].state == Blocked && !Unserved(s'.k.mem, 2);
  }

  /** The parent's turn comes; it looks in vain. */
  lemma WokenInVain(ss: seq<Sys>, es: seq<Event>) returns (tt: seq<Sys>, fs: seq<Event>)
    requires Run(ss, es) && Quiet(ss, es)
    requires Facts(ss[|es|], 4, [1, 2], [], A.(state := Ready, want := Waiting(4)), B.(state := Zombie),
                   C.(state := Running))
    ensures Run(tt, fs) && Quiet(tt, fs)
    ensures Facts(tt[|fs|], 2, [4, 1], [], A.(want := Looked(4)), B.(state := Zombie), C)
  {
    var a, b := A.(state := Ready, want := Waiting(4)), B.(state := Zombie);
    assert [1, 2] == [1] + [2] && [2] + [4] == [2, 4];
    TwoTicks(ss[|es|], 4, 1, [2], [], a, b, C.(state := Running));
    tt, fs := GoTwice(ss, es);
    assert [2, 4] == [2] + [4] && [4] + [1] == [4, 1];
    TwoTicks(tt[|fs|], 1, 2, [4], [], a, b, C);
    tt, fs := GoTwice(tt, fs);
    ParentLooks(tt[|fs|]);
    tt, fs := Go(tt, fs, Look(NULL));
  }

  /** Its second child exits while it is on the run queue. */
  lemma ChildGone(ss: seq<Sys>, es: seq<Event>) returns (tt: seq<Sys>, fs: seq<Event>)
    requires Run(ss, es) && Quiet(ss, es)
    requires Facts(ss[|es|], 2, [4, 1], [], A.(want := Looked(4)), B.(state := Zombie), C)
    ensures Run(tt, fs) && Quiet(tt, fs)
    ensures Facts(tt[|fs|], 1, [2], [], A.(state := Ready, want := Looked(4)), B.(state := Zombie),
                  C.(state := Zombie))
  {
    var a, b := A.(want := Looked(4)), B.(state := Zombie);
    assert [4, 1] == [4] + [1] && [1] + [2] == [1, 2];
    TwoTicks(ss[|es|], 2, 4, [1], [], a, b, C);
    tt, fs := GoTwice(ss, es);
    SecondExits(tt[|fs|]);
    tt, fs := Go(tt, fs, Exit(0));
  }

  /** Then it blocks. */
  lemma ExitUnseen(ss: seq<Sys>, es: seq<Event>) returns (tt: seq<Sys>, fs: seq<Event>)
    requires Run(ss, es) && Quiet(ss, es)
    requires Facts(ss[|es|], 2, [4, 1], [], A.(want := Looked(4)), B.(state := Zombie), C)
    ensures Run(tt, fs) && !NoLostWakeup(tt[|fs|].k) && Unstruck(tt, fs, |fs|) && !ClearMarks(tt, fs, |fs|)
  {
    tt, fs := ChildGone(ss, es);
    assert [2] == [2] + [] && [] + [1] == [1];
    TwoTicks(tt[|fs|], 1, 2, [], [], A.(state := Ready, want := Looked(4)), B.(state := Zombie), C.(state := Zombie));
    tt, fs := GoTwice(tt, fs);
    ParentSleeps(tt[|fs|]);
    tt, fs := Go(tt, fs, Mark);
  }
}
