/** Every run of the scheduler: what holds in the states it reaches, and when a wakeup is lost. */
module Runs {
  import opened Common
  import opened Sched
  import opened Syscalls
  import opened Processes

  /** What happens next: a timer tick; a system call of the running task up to its call of schedule,
      which an interrupt gate shields from ticks; one of the four parts of a later pass of wait4, which
      runs with interrupts enabled (core/cpu/sched.c:170), so that ticks may come before and between
      them; or, from the bootstrap task, the start of a task at a fresh address and the call of schedule
      in sched_start. Look names the zombie that the search found, if any: a tick inside the search can
      change which of several it is. schedule itself is taken to be uninterrupted, although Call and
      Start call it with interrupts enabled (core/cpu/sched.c:170, core/kmain.c:103). */
  datatype Event =
    | Tick | Yield | Exit(code: nat) | Fork(at: nat) | Wait(want: nat)
    | Look(z: nat) | Mark | Push | Call
    | Create(at: nat) | Start

  /** The bootstrap task idles once it has started the others. A task that comes back inside wait4
      looks; one that has looked in vain marks itself, links itself and calls schedule. */
  ghost predicate Enabled(s: Sys, e: Event)
  {
    && s.k.current in s.k.mem
    && var me := s.k.mem[s.k.current];
       match e
       case Tick => true
       case Start => s.k.current == s.k.boot
       case Create(at) => s.k.current == s.k.boot && at != NULL && at !in s.k.mem
       case Look(z) => s.k.current != s.k.boot && me.want.Waiting? && Finds(s.k.mem, me.pid, me.want.pid, z)
       case Mark => s.k.current != s.k.boot && me.want.Looked?
       case Push => me.want.Marked?
       case Call => me.want.Pushed?
       case Fork(at) => s.k.current != s.k.boot && me.want.NotWaiting? && at != NULL && at !in s.k.mem
       case _ => s.k.current != s.k.boot && me.want.NotWaiting?
  }

  /** A search may end with z. */
  ghost predicate Finds(m: Mem, ppid: nat, want: nat, z: nat)
  {
    if z == NULL then NoneWanted(m, ppid, want) else z in m && Wanted(m[z], ppid, want)
  }

  /** The invariant of s, folded: Open unfolds it. */
  ghost predicate Good(s: Sys)
  {
    forall u {:trigger Is(u, s)} :: Is(u, s) ==> SysInv(u)
  }

  lemma Open(s: Sys)
    requires Good(s)
    ensures SysInv(s)
  {
    assert Is(s, s);
  }

  lemma Close(s: Sys)
    requires SysInv(s)
    ensures Good(s)
  {
  }

  ghost function StartStep(s: Sys): Sys
    requires Steady(s.k)
  {
    ScheduledStable(s.k);
    s.(k := Scheduled(s.k))
  }

  lemma StartKeeps(s: Sys)
    requires SysInv(s)
    ensures SysInv(StartStep(s)) && LosesNone(s.k, StartStep(s).k)
  {
    ScheduledSettled(s.k);
    SettledKeeps(s, StartStep(s));
  }

  ghost function Step(s: Sys, e: Event): Sys
    requires Good(s) && Enabled(s, e)
  {
    Open(s);
    var me := s.k.mem[s.k.current];
    match e
    case Tick => TickStep(s)
    case Yield => s.(ticks := 0, need := true)
    case Exit(code) => ExitStep(s, code)
    case Fork(at) => s.(k := Spawned(s.k, at, me.pid))
    case Wait(want) => WaitStep(s, want)
    case Look(z) => LookStep(s, me.want.pid, z)
    case Mark => s.(k := Marking(s.k, me.want.pid))
    case Push => s.(k := Pushing(s.k, me.want.pid))
    case Call => CallStep(s, me.want.pid)
    case Create(at) => s.(k := Spawned(s.k, at, 0))
    case Start => StartStep(s)
  }

  /** No zombie exists that the current task, which is inside wait4, asks for. */
  ghost predicate Clear(s: Sys)
  {
    && s.k.current in s.k.mem
    && var me := s.k.mem[s.k.current]; !me.want.NotWaiting? && NoneWanted(s.k.mem, me.pid, me.want.pid)
  }

  /** What it takes for the event to lose no wakeup. */
  ghost predicate Careful(s: Sys, e: Event)
  {
    s.k.current in s.k.mem && (e.Mark? ==> Clear(s)) && (e.Exit? ==> Hears(s.k))
  }

  lemma {:induction false} StepKeeps(s: Sys, e: Event)
    requires Good(s) && Enabled(s, e)
    ensures Good(Step(s, e))
    ensures NoLostWakeup(s.k) ==> (NoLostWakeup(Step(s, e).k) <==> Careful(s, e))
  {
    if MaySwitch(e) { SwitchKeeps(s, e); } else { StayKeeps(s, e); }
  }

  /** The event may call schedule. */
  predicate MaySwitch(e: Event) { e.Tick? || e.Exit? || e.Wait? || e.Call? || e.Start? }

  lemma {:induction false} SwitchKeeps(s: Sys, e: Event)
    requires Good(s) && Enabled(s, e) && MaySwitch(e)
    ensures Good(Step(s, e))
    ensures NoLostWakeup(s.k) ==> (NoLostWakeup(Step(s, e).k) <==> Careful(s, e))
  {
    Open(s);
    match e
    case Tick => TickKeeps(s);
    case Exit(code) => ExitKeeps(s, code);
    case Wait(want) => WaitKeeps(s, want);
    case Call => CallKeeps(s, s.k.mem[s.k.current].want.pid);
    case Start => StartKeeps(s);
  }

  lemma {:induction false} StayKeeps(s: Sys, e: Event)
    requires Good(s) && Enabled(s, e) && !MaySwitch(e)
    ensures Good(Step(s, e))
    ensures NoLostWakeup(s.k) ==> (NoLostWakeup(Step(s, e).k) <==> Careful(s, e))
  {
    match e
    case Yield => Open(s);
    case Fork(at) => SpawnGood(s, at, s.k.mem[s.k.current].pid);
    case Look(z) => LookGood(s, z);
    case Mark => MarkGood(s);
    case Push => PushGood(s);
    case Create(at) => SpawnGood(s, at, 0);
  }

  lemma SpawnGood(s: Sys, at: nat, ppid: nat)
    requires Good(s) && s.k.current in s.k.mem && at != NULL && at !in s.k.mem
    requires s.k.current == s.k.boot || s.k.mem[s.k.current].want.NotWaiting?
    ensures Good(s.(k := Spawned(s.k, at, ppid))) && LosesNone(s.k, Spawned(s.k, at, ppid))
  {
    Open(s);
    SpawnKeeps(s, at, ppid);
  }

  lemma {:induction false} LookGood(s: Sys, z: nat)
    requires Good(s) && Enabled(s, Look(z))
    ensures Good(Step(s, Look(z))) && LosesNone(s.k, Step(s, Look(z)).k)
  {
    Open(s);
    LookKeeps(s, s.k.mem[s.k.current].want.pid, z);
  }

  lemma {:induction false} MarkGood(s: Sys)
    requires Good(s) && Enabled(s, Mark)
    ensures Good(Step(s, Mark))
    ensures NoLostWakeup(s.k) ==> (NoLostWakeup(Step(s, Mark).k) <==> Clear(s))
  {
    Open(s);
    MarkKeeps(s, s.k.mem[s.k.current].want.pid);
  }

  lemma {:induction false} PushGood(s: Sys)
    requires Good(s) && Enabled(s, Push)
    ensures Good(Step(s, Push)) && LosesNone(s.k, Step(s, Push).k)
  {
    Open(s);
    assert InPlace(s.k, s.k.current);
    PushKeeps(s, s.k.mem[s.k.current].want.pid);
  }

  lemma {:induction false} WaitKeeps(s: Sys, want: nat)
    requires SysInv(s) && Stable(s.k) && s.k.current != s.k.boot
    ensures SysInv(WaitStep(s, want)) && LosesNone(s.k, WaitStep(s, want).k)
  {
    var z := Found(s.k, want);
    if z != NULL {
      ReapKeeps(s, z);
    } else {
      SleepKeeps(s, want);
      if NoLostWakeup(s.k) { SleepLosesNoneIff(s, want); }
    }
  }

  lemma {:induction false} LookKeeps(s: Sys, want: nat, z: nat)
    requires SysInv(s) && Stable(s.k) && (z != NULL ==> z in s.k.mem && s.k.mem[z].state == Zombie)
    ensures SysInv(LookStep(s, want, z)) && LosesNone(s.k, LookStep(s, want, z).k)
  {
    if z != NULL { ReapKeeps(s, z); } else { NotedOk(s, want); }
  }

  /** task_init and sched_init: the bootstrap task runs, with pid 1. */
  function Boot(at: nat): Sys
  {
    Sys(K(map[at := Tcb(1, 0, Running, 0, 0, NULL, NULL, NotWaiting)], NULL, NULL, 0, NULL, at, at, at, 2, [], [], [at],
          map[1 := at]),
        0, false, map[], [])
  }

  lemma BootOk(at: nat)
    requires at != NULL
    ensures Good(Boot(at)) && NoLostWakeup(Boot(at).k)
  {
    assert InPlace(Boot(at).k, at);
    Close(Boot(at));
  }

  /** The events es happened in order, each when it was enabled, and led through the states ss. */
  ghost predicate Run(ss: seq<Sys>, es: seq<Event>)
  {
    && |ss| == |es| + 1 && ss[0].k.boot != NULL && ss[0] == Boot(ss[0].k.boot)
    && forall i {:trigger es[i]} :: 0 <= i < |es| ==> Follows(ss[i], es[i], ss[i + 1])
  }

  ghost predicate Follows(s: Sys, e: Event, s': Sys)
  {
    Good(s) && Enabled(s, e) && s' == Step(s, e)
  }

  lemma FollowsKeeps(s: Sys, e: Event, s': Sys)
    requires Follows(s, e, s')
    ensures Good(s') && Recorded(s, e, s')
  {
    StepKeeps(s, e);
    StepRecords(s, e);
  }

  /** Every state of every run keeps the invariant. */
  lemma RunKeeps(ss: seq<Sys>, es: seq<Event>, n: nat)
    requires Run(ss, es) && n <= |es|
    ensures Good(ss[n])
  {
    if n == 0 {
      BootOk(ss[0].k.boot);
    } else {
      FollowsKeeps(ss[n - 1], es[n - 1], ss[n]);
    }
  }

  // ---------- Where tasks are ----------

  /** The one running task is current; a ready task is on the run queue and a blocked one on the blocked
      list, once each, and an exited one on neither. A task inside task_block_any is blocked although it
      is current, and on the blocked list as soon as it has linked itself. */
  ghost predicate Placed(k: K, t: nat)
    requires t in k.mem
  {
    var mid := t == k.current && Blocking(k);
    && (k.mem[t].state == Running <==> t == k.current && !mid)
    && multiset(k.rq)[t] == (if k.mem[t].state == Ready then 1 else 0)
    && multiset(k.bl)[t] == (if k.mem[t].state == Blocked && !(mid && k.mem[t].want.Marked?) then 1 else 0)
  }

  ghost predicate AllPlaced(k: K)
  {
    && (forall t :: t in k.mem ==> Placed(k, t))
    && k.size == |k.rq| && (k.rq == [] ==> k.current == k.boot)
  }

  ghost predicate NoneStranded(k: K)
  {
    forall t :: !Stranded(k, t)
  }

  lemma PlacedIff(k: K, t: nat)
    requires Steady(k) && t in k.mem
    ensures Placed(k, t) <==> !Stranded(k, t)
  {
    assert InPlace(k, t) && InPlace(k, k.current);
    Occurs(k.rq, t);
    Occurs(k.bl, t);
  }

  lemma AllPlacedIff(k: K)
    requires Steady(k)
    ensures AllPlaced(k) <==> NoneStranded(k)
  {
    forall t | t in k.mem ensures Placed(k, t) <==> !Stranded(k, t) {
      PlacedIff(k, t);
    }
    if k.rq == [] { EmptyQueueMeansIdle(k); }
  }

  lemma {:induction false} Occurs(s: seq<nat>, t: nat)
    requires Distinct(s)
    ensures multiset(s)[t] == if t in s then 1 else 0
  {
    if s != [] {
      var r := s[..|s| - 1];
      Occurs(r, t);
      assert s == r + [s[|s| - 1]];
    }
  }

  /** A tick that switches tasks comes between the two writes of task_block_any. */
  ghost predicate Strikes(s: Sys, e: Event)
  {
    e.Tick? && Switches(s) && s.k.current in s.k.mem && s.k.mem[s.k.current].want.Marked?
  }

  /** A step leaves the requests of all tasks but the current one alone. */
  ghost predicate OwnWant(k: K, k': K)
  {
    forall t :: t in k'.mem && t != k.current ==>
      if t in k.mem then k'.mem[t].want == k.mem[t].want else k'.mem[t].want.NotWaiting?
  }

  /** What a step does to the requests of tasks. */
  ghost predicate Asks(s: Sys, e: Event, s': Sys)
  {
    && OwnWant(s.k, s'.k) && s.k.current in s.k.mem && s.k.current in s'.k.mem
    && (s'.k.mem[s.k.current].want.Marked? && s'.k.current != s.k.current <==> Strikes(s, e))
    && (s'.k.mem[s.k.current].want.Marked? ==> e.Mark? || (e.Tick? && s.k.mem[s.k.current].want.Marked?))
  }

  lemma {:induction false} StepWants(s: Sys, e: Event)
    requires Good(s) && Enabled(s, e)
    ensures Asks(s, e, Step(s, e))
  {
    match e
    case Tick => TickWants(s);
    case Exit(code) => ExitWants(s, code);
    case Wait(want) => WaitWants(s, want);
    case Call => CallWants(s);
    case Start => StartWants(s);
    case Fork(at) => SpawnWants(s, e, at, s.k.mem[s.k.current].pid);
    case Create(at) => SpawnWants(s, e, at, 0);
    case _ => OwnWants(s, e);
  }

  lemma {:induction false} OwnWants(s: Sys, e: Event)
    requires Good(s) && Enabled(s, e) && (e.Yield? || e.Look? || e.Mark? || e.Push?)
    ensures Asks(s, e, Step(s, e))
  {
  }

  lemma {:induction false} SpawnWants(s: Sys, e: Event, at: nat, ppid: nat)
    requires Good(s) && Enabled(s, e) && (e.Fork? || e.Create?) && at != NULL && at !in s.k.mem
    ensures Asks(s, e, s.(k := Spawned(s.k, at, ppid)))
  {
    Open(s);
    assert InPlace(s.k, s.k.current);
    SpawnedWants(s.k, at, ppid);
  }

  lemma SpawnedWants(k: K, at: nat, ppid: nat)
    requires Lists(k) && k.current in k.mem && at != NULL && at !in k.mem
    ensures var k' := Spawned(k, at, ppid);
            && OwnWant(k, k') && k'.current == k.current && k.current in k'.mem
            && k'.mem[k.current].want == k.mem[k.current].want
  {
    SpawnedLists(k, at, ppid);
    SpawnedTasks(k, at, ppid);
  }

  lemma WantsThrough(m: Mem, m0: Mem, m1: Mem, m2: Mem, cur: nat)
    requires cur in m && cur in m0 && m0 == m[cur := m0[cur]] && SameTasks(m0, m1) && SameTasks(m1, m2)
    ensures m2.Keys == m.Keys && m2[cur].want == m0[cur].want
    ensures forall t :: t in m2 && t != cur ==> m2[t].want == m[t].want
  {
  }

  lemma {:induction false} TickWants(s: Sys)
    requires Good(s) && Enabled(s, Tick)
    ensures Asks(s, Tick, Step(s, Tick))
  {
    Open(s);
    if Switches(s) {
      SwitchWants(s.k);
      assert Step(s, Tick).k == Scheduled(s.k);
    }
  }

  lemma SwitchWants(k: K)
    requires Steady(k)
    ensures (k.rq != [] ==> k.head in k.mem) && k.current in Scheduled(k).mem
    ensures OwnWant(k, Scheduled(k)) && Scheduled(k).mem[k.current].want == k.mem[k.current].want
    ensures k.mem[k.current].want.Marked? ==> Scheduled(k).current != k.current
  {
    MarkedGivesWay(k);
    ScheduledTasks(k);
    WantsThrough(k.mem, k.mem, k.mem, Scheduled(k).mem, k.current);
  }

  lemma MarkedGivesWay(k: K)
    requires Steady(k)
    ensures k.rq != [] ==> k.head in k.mem && k.head != k.current
    ensures k.mem[k.current].want.Marked? ==> k.rq != []
  {
    assert InPlace(k, k.current);
    if k.rq == [] {
      EmptyQueueMeansIdle(k);
    } else {
      assert k.rq[0] in k.rq && k.rq[0] in k.mem && InPlace(k, k.rq[0]);
    }
  }

  lemma {:induction false} StartWants(s: Sys)
    requires Good(s) && Enabled(s, Start)
    ensures Asks(s, Start, Step(s, Start))
  {
    Open(s);
    assert InPlace(s.k, s.k.current);
    SwitchWants(s.k);
  }

  lemma {:induction false} ExitWants(s: Sys, code: nat)
    requires Good(s) && Enabled(s, Exit(code))
    ensures Asks(s, Exit(code), Step(s, Exit(code)))
  {
    Open(s);
    var k0, k1 := Died(s.k, ToInt32(code)), ExitWoken(s.k, ToInt32(code));
    ExitWokenOk(s.k, ToInt32(code));
    ScheduledTasks(k1);
    WantsThrough(s.k.mem, k0.mem, k1.mem, Scheduled(k1).mem, s.k.current);
    assert Step(s, Exit(code)).k == Scheduled(k1);
  }

  lemma {:induction false} WaitWants(s: Sys, want: nat)
    requires Good(s) && Enabled(s, Wait(want))
    ensures Asks(s, Wait(want), Step(s, Wait(want)))
  {
    Open(s);
    if Found(s.k, want) == NULL { SleepWants(s.k, want); }
  }

  lemma SleepWants(k: K, want: nat)
    requires Stable(k) && k.current != k.boot
    ensures var k1 := BlockedAny(k, want);
            && (k1.rq != [] ==> k1.head in k1.mem) && k.current in Scheduled(k1).mem
            && OwnWant(k, Scheduled(k1)) && Scheduled(k1).mem[k.current].want == Waiting(want)
  {
    var k1 := BlockedAny(k, want);
    SleepOk(k, want);
    ScheduledTasks(k1);
    WantsThrough(k.mem, k1.mem, k1.mem, Scheduled(k1).mem, k.current);
  }

  lemma {:induction false} CallWants(s: Sys)
    requires Good(s) && Enabled(s, Call)
    ensures Asks(s, Call, Step(s, Call))
  {
    Open(s);
    var want := s.k.mem[s.k.current].want.pid;
    var k1 := Calling(s.k, want);
    CallingOk(s.k, want);
    ScheduledTasks(k1);
    WantsThrough(s.k.mem, k1.mem, k1.mem, Scheduled(k1).mem, s.k.current);
    assert Step(s, Call).k == Scheduled(k1);
  }

  lemma {:induction false} StepStrands(s: Sys, e: Event)
    requires Good(s) && Enabled(s, e)
    ensures NoneStranded(s.k) ==> (NoneStranded(Step(s, e).k) <==> !Strikes(s, e))
  {
    StepWants(s, e);
    var k, k' := s.k, Step(s, e).k;
    if NoneStranded(k) {
      forall t | t != k.current ensures !Stranded(k', t) {
        if t in k.mem { assert !Stranded(k, t); }
      }
      assert Stranded(k', k.current) <==> Strikes(s, e);
    }
  }

  ghost predicate Unstruck(ss: seq<Sys>, es: seq<Event>, n: nat)
    requires n <= |es| < |ss|
  {
    forall i {:trigger es[i]} :: 0 <= i < n ==> !Strikes(ss[i], es[i])
  }

  ghost predicate NoneStrandedYet(ss: seq<Sys>, n: nat)
    requires n < |ss|
  {
    forall i :: 0 <= i <= n ==> NoneStranded(ss[i].k)
  }

  lemma {:induction false} StrandedIff(ss: seq<Sys>, es: seq<Event>, n: nat)
    requires Run(ss, es) && n <= |es|
    ensures NoneStrandedYet(ss, n) <==> Unstruck(ss, es, n)
  {
    if n > 0 {
      var m := n - 1;
      StrandedIff(ss, es, m);
      assert Follows(ss[m], es[m], ss[n]);
      StepStrands(ss[m], es[m]);
      assert NoneStrandedYet(ss, n) <==> NoneStrandedYet(ss, m) && NoneStranded(ss[n].k);
    }
  }

  /** Up to any point of any run every task has been where its state says exactly when no tick switched
      tasks between the two writes of a late task_block_any. */
  lemma TasksAreInPlaceIff(ss: seq<Sys>, es: seq<Event>, n: nat)
    requires Run(ss, es) && n <= |es|
    ensures (forall i :: 0 <= i <= n ==> AllPlaced(ss[i].k)) <==> Unstruck(ss, es, n)
  {
    forall i | 0 <= i <= n ensures AllPlaced(ss[i].k) <==> NoneStranded(ss[i].k) {
      RunKeeps(ss, es, i);
      Open(ss[i]);
      AllPlacedIff(ss[i].k);
    }
    StrandedIff(ss, es, n);
  }

  /** In every reachable state whatsoever, only stranded tasks are out of place; an empty queue means
      that the bootstrap task runs. */
  lemma OnlyStrandedOutOfPlace(ss: seq<Sys>, es: seq<Event>, n: nat, t: nat)
    requires Run(ss, es) && n <= |es| && t in ss[n].k.mem
    ensures var k := ss[n].k;
            && (Placed(k, t) <==> !Stranded(k, t)) && k.size == |k.rq| && (k.rq == [] ==> k.current == k.boot)
            && (Stranded(k, t) ==> k.mem[t].state == Blocked && t !in k.rq && t !in k.bl)
  {
    RunKeeps(ss, es, n);
    Open(ss[n]);
    PlacedIff(ss[n].k, t);
    assert InPlace(ss[n].k, t);
    if ss[n].k.rq == [] { EmptyQueueMeansIdle(ss[n].k); }
  }

  // ---------- Wakeups ----------

  ghost predicate AllAwake(ss: seq<Sys>, n: nat)
    requires n < |ss|
  {
    forall i :: 0 <= i <= n ==> NoLostWakeup(ss[i].k)
  }

  /** Up to n, a task marked itself only when no zombie that it asked for was there, and none exited
      that a stranded task asked for. */
  ghost predicate AllCareful(ss: seq<Sys>, es: seq<Event>, n: nat)
    requires n <= |es| < |ss|
  {
    forall i {:trigger es[i]} :: 0 <= i < n ==> Careful(ss[i], es[i])
  }

  /** Up to any point of any run no task has slept on a zombie that it asked for exactly when no late
      pass of wait4 blocked while one was there and no task exited that a stranded one asked for. */
  lemma {:induction false} NoLostWakeupIff(ss: seq<Sys>, es: seq<Event>, n: nat)
    requires Run(ss, es) && n <= |es|
    ensures AllAwake(ss, n) <==> AllCareful(ss, es, n)
  {
    if n == 0 {
      BootOk(ss[0].k.boot);
    } else {
      var m := n - 1;
      NoLostWakeupIff(ss, es, m);
      assert Follows(ss[m], es[m], ss[n]);
      StepKeeps(ss[m], es[m]);
      assert AllAwake(ss, n) <==> AllAwake(ss, m) && NoLostWakeup(ss[n].k);
      assert AllCareful(ss, es, n) <==> AllCareful(ss, es, m) && Careful(ss[m], es[m]);
    }
  }

  ghost predicate ClearMarks(ss: seq<Sys>, es: seq<Event>, n: nat)
    requires n <= |es| < |ss|
  {
    forall i {:trigger es[i]} :: 0 <= i < n && es[i].Mark? ==> Clear(ss[i])
  }

  /** Every blocked task can be woken by the child it waits for: it is on the blocked list or about to
      be, and no such child is a zombie already. */
  ghost predicate Safe(k: K) { NoLostWakeup(k) && NoneStranded(k) }

  /** That holds up to any point of any run exactly when every late pass blocked with no zombie that it
      asked for there, and no tick switched tasks between its two writes. */
  lemma SleepersAreSafeIff(ss: seq<Sys>, es: seq<Event>, n: nat)
    requires Run(ss, es) && n <= |es|
    ensures (forall i :: 0 <= i <= n ==> Safe(ss[i].k)) <==> ClearMarks(ss, es, n) && Unstruck(ss, es, n)
  {
    StrandedIff(ss, es, n);
    NoLostWakeupIff(ss, es, n);
    if NoneStrandedYet(ss, n) { CarefulIff(ss, es, n); }
    assert (forall i :: 0 <= i <= n ==> Safe(ss[i].k)) <==> AllAwake(ss, n) && NoneStrandedYet(ss, n);
  }

  lemma CarefulIff(ss: seq<Sys>, es: seq<Event>, n: nat)
    requires Run(ss, es) && n <= |es| && NoneStrandedYet(ss, n)
    ensures AllCareful(ss, es, n) <==> ClearMarks(ss, es, n)
  {
    forall i {:trigger es[i]} | 0 <= i < n
      ensures Careful(ss[i], es[i]) <==> (es[i].Mark? ==> Clear(ss[i]))
    {
      assert Follows(ss[i], es[i], ss[i + 1]) && NoneStranded(ss[i].k);
    }
  }

  /** Nothing comes between the parts of a pass. */
  ghost predicate Undisturbed(es: seq<Event>)
  {
    && (forall i {:trigger es[i]} :: 0 <= i < |es| && es[i].Mark? ==> i > 0 && es[i - 1].Look?)
    && (forall i {:trigger es[i]} :: 0 <= i < |es| - 1 && es[i].Mark? ==> es[i + 1].Push?)
  }

  /** A look that is followed by a mark found nothing. */
  lemma {:induction false} LookThenMark(s: Sys, z: nat, s': Sys)
    requires Follows(s, Look(z), s') && Enabled(s', Mark)
    ensures Clear(s')
  {
    Open(s);
    var me := s.k.mem[s.k.current];
    assert s' == LookStep(s, me.want.pid, z);
    assert z == NULL;
    forall c | c in s'.k.mem ensures !Wanted(s'.k.mem[c], me.pid, me.want.pid) {
      assert !Wanted(s.k.mem[c], me.pid, me.want.pid);
    }
  }

  /** With the passes of wait4 atomic, no task sleeps while a zombie child that it asked for exists. */
  lemma NoTaskSleepsOnAZombie(ss: seq<Sys>, es: seq<Event>, n: nat, t: nat, z: nat)
    requires Run(ss, es) && Undisturbed(es) && n <= |es|
    requires t in ss[n].k.mem && z in ss[n].k.mem && ss[n].k.mem[t].state == Blocked
    ensures var m := ss[n].k.mem;
            && !m[t].want.NotWaiting?
            && !(m[z].state == Zombie && m[z].ppid == m[t].pid && (m[t].want.pid == ANY || m[t].want.pid == m[z].pid))
  {
    UndisturbedIsSafe(ss, es, n);
    SleepersAreSafeIff(ss, es, n);
    assert Safe(ss[n].k) && Unserved(ss[n].k.mem, t);
    assert !Wanted(ss[n].k.mem[z], ss[n].k.mem[t].pid, ss[n].k.mem[t].want.pid);
  }

  lemma UndisturbedIsSafe(ss: seq<Sys>, es: seq<Event>, n: nat)
    requires Run(ss, es) && Undisturbed(es) && n <= |es|
    ensures ClearMarks(ss, es, n) && Unstruck(ss, es, n)
  {
    forall i {:trigger es[i]} | 0 <= i < n && es[i].Mark? ensures Clear(ss[i]) {
      assert Follows(ss[i], es[i], ss[i + 1]) && Follows(ss[i - 1], es[i - 1], ss[i]);
      LookThenMark(ss[i - 1], es[i - 1].z, ss[i]);
    }
    forall i {:trigger es[i]} | 0 <= i < n ensures !Strikes(ss[i], es[i]) {
      NoStrike(ss, es, i);
    }
  }

  /** A marked current task has just marked itself, so that the next event is not a tick. */
  lemma {:induction false} NoStrike(ss: seq<Sys>, es: seq<Event>, n: nat)
    requires Run(ss, es) && Undisturbed(es) && n < |es|
    ensures !Strikes(ss[n], es[n])
  {
    FreshMark(ss, es, n);
    assert n > 0 && es[n - 1].Mark? ==> es[n].Push?;
  }

  lemma {:induction false} FreshMark(ss: seq<Sys>, es: seq<Event>, n: nat)
    requires Run(ss, es) && Undisturbed(es) && n <= |es|
    ensures NoneStranded(ss[n].k) && ss[n].k.current in ss[n].k.mem
    ensures ss[n].k.mem[ss[n].k.current].want.Marked? ==> n > 0 && es[n - 1].Mark?
  {
    if n > 0 {
      var m := n - 1;
      FreshMark(ss, es, m);
      assert Follows(ss[m], es[m], ss[n]);
      StepWants(ss[m], es[m]);
      StepStrands(ss[m], es[m]);
      RunKeeps(ss, es, n);
      Open(ss[n]);
      assert m > 0 && es[m - 1].Mark? ==> es[m].Push?;
      if ss[n].k.current != ss[m].k.current { FreshMarkNext(ss[m].k, ss[n].k); }
    }
  }

  lemma FreshMarkNext(k: K, k': K)
    requires OwnWant(k, k') && NoneStranded(k) && k'.current in k'.mem && k'.current != k.current
    ensures !k'.mem[k'.current].want.Marked?
  {
    if k'.current in k.mem { assert !Stranded(k, k'.current); }
  }

  // ---------- What wait4 returns ----------

  /** A pass of wait4 returns this pid and status. */
  ghost predicate Returns(s: Sys, e: Event, s': Sys, pid: nat, status: int)
  {
    (e.Wait? || e.Look?) && s'.reaped == s.reaped + [(pid, status)]
  }

  /** The running task, with this pid, exits with this status. */
  ghost predicate Exits(s: Sys, e: Event, pid: nat, status: int)
  {
    e.Exit? && s.k.current in s.k.mem && s.k.mem[s.k.current].pid == pid && ToInt32(e.code) == status
  }

  /** What a step adds to the record of returns and of exits. */
  ghost predicate Recorded(s: Sys, e: Event, s': Sys)
  {
    && (s'.reaped == s.reaped || ((e.Wait? || e.Look?) && |s'.reaped| == |s.reaped| + 1 && s.reaped <= s'.reaped))
    && (s'.exits == s.exits
        || (e.Exit? && s.k.current in s.k.mem && s'.exits == s.exits[s.k.mem[s.k.current].pid := ToInt32(e.code)]))
  }

  lemma {:induction false} StepRecords(s: Sys, e: Event)
    requires Good(s) && Enabled(s, e)
    ensures Recorded(s, e, Step(s, e))
  {
    match e
    case Exit(code) => ExitRecords(s, code);
    case Wait(want) => WaitRecords(s, want);
    case _ =>
  }

  lemma {:induction false} ExitRecords(s: Sys, code: nat)
    requires Good(s) && Enabled(s, Exit(code))
    ensures Recorded(s, Exit(code), Step(s, Exit(code)))
  {
    Open(s);
    assert Step(s, Exit(code)) == ExitStep(s, code);
  }

  lemma {:induction false} WaitRecords(s: Sys, want: nat)
    requires Good(s) && Enabled(s, Wait(want))
    ensures Recorded(s, Wait(want), Step(s, Wait(want)))
  {
    Open(s);
    assert Step(s, Wait(want)) == WaitStep(s, want);
  }

  ghost predicate Records(ss: seq<Sys>, es: seq<Event>)
  {
    && |ss| == |es| + 1 && ss[0].exits == map[]
    && forall i {:trigger es[i]} :: 0 <= i < |es| ==> Recorded(ss[i], es[i], ss[i + 1])
  }

  lemma RunRecords(ss: seq<Sys>, es: seq<Event>)
    requires Run(ss, es)
    ensures Records(ss, es)
  {
    forall i {:trigger es[i]} | 0 <= i < |es| ensures Recorded(ss[i], es[i], ss[i + 1]) {
      FollowsKeeps(ss[i], es[i], ss[i + 1]);
    }
  }

  /** The record of returns only grows. */
  lemma {:induction false} RecordGrows(ss: seq<Sys>, es: seq<Event>, i: nat, j: nat)
    requires Records(ss, es) && i <= j <= |es|
    ensures ss[i].reaped <= ss[j].reaped
    decreases j - i
  {
    if i < j {
      assert Recorded(ss[j - 1], es[j - 1], ss[j]);
      RecordGrows(ss, es, i, j - 1);
    }
  }

  /** A recorded exit happened. */
  lemma {:induction false} ExitHappened(ss: seq<Sys>, es: seq<Event>, n: nat, pid: nat)
    requires Records(ss, es) && n <= |es| && pid in ss[n].exits
    ensures exists i :: 0 <= i < n && Exits(ss[i], es[i], pid, ss[n].exits[pid])
  {
    if n > 0 {
      var s, e := ss[n - 1], es[n - 1];
      assert Recorded(s, e, ss[n]);
      if !Exits(s, e, pid, ss[n].exits[pid]) {
        assert pid in s.exits && s.exits[pid] == ss[n].exits[pid];
        ExitHappened(ss, es, n - 1, pid);
      }
    }
  }

  /** wait4 returns a pid only after that task exited, and with the status it exited with. */
  lemma ReturnedAfterExit(ss: seq<Sys>, es: seq<Event>, n: nat, pid: nat, status: int)
    requires Run(ss, es) && n < |es| && Returns(ss[n], es[n], ss[n + 1], pid, status)
    ensures exists i :: 0 <= i < n && Exits(ss[i], es[i], pid, status)
  {
    RunRecords(ss, es);
    RunKeeps(ss, es, n + 1);
    Open(ss[n + 1]);
    ReturnExited(ss[n], es[n], ss[n + 1], pid, status);
    ExitHappened(ss, es, n, pid);
  }

  lemma ReturnExited(s: Sys, e: Event, s': Sys, pid: nat, status: int)
    requires Returns(s, e, s', pid, status) && History(s') && Recorded(s, e, s')
    ensures pid in s.exits && s.exits[pid] == status
  {
    assert s'.reaped[|s.reaped|] == (pid, status);
  }

  lemma RunReturnedOnce(ss: seq<Sys>, es: seq<Event>, n: nat)
    requires Run(ss, es) && n <= |es|
    ensures ReturnedOnce(ss[n].reaped)
  {
    RunKeeps(ss, es, n);
    Open(ss[n]);
  }

  /** wait4 returns each pid at most once over a run. */
  lemma ReturnedAtMostOnce(ss: seq<Sys>, es: seq<Event>, i: nat, j: nat, pid: nat, st: int, st': int)
    requires Run(ss, es) && i < j < |es|
    requires Returns(ss[i], es[i], ss[i + 1], pid, st)
    ensures !Returns(ss[j], es[j], ss[j + 1], pid, st')
  {
    RunRecords(ss, es);
    RunReturnedOnce(ss, es, j + 1);
    RecordedAtMostOnce(ss, es, i, j, pid, st, st');
  }

  lemma RecordedAtMostOnce(ss: seq<Sys>, es: seq<Event>, i: nat, j: nat, pid: nat, st: int, st': int)
    requires Records(ss, es) && i < j < |es| && ReturnedOnce(ss[j + 1].reaped)
    requires Returns(ss[i], es[i], ss[i + 1], pid, st)
    ensures !Returns(ss[j], es[j], ss[j + 1], pid, st')
  {
    RecordGrows(ss, es, i + 1, j);
    NotTwice(ss[i].reaped, ss[j].reaped, ss[j + 1].reaped, (pid, st), (pid, st'));
  }

  lemma NotTwice(before: seq<(nat, int)>, later: seq<(nat, int)>, r: seq<(nat, int)>, a: (nat, int), b: (nat, int))
    requires ReturnedOnce(r) && before + [a] <= later && a.0 == b.0
    ensures r != later + [b]
  {
    var s := later + [b];
    assert s[|before|] == a && s[|later|] == b;
  }
}
