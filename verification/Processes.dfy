/** The steps of fork, exit and wait4 and of the timer, and what each of them keeps. A system call
    enters through an interrupt gate, so its body up to its call of schedule is one step. A task that
    has blocked in wait4 comes back with interrupts enabled (core/cpu/sched.c:170): each later pass of
    the loop is a step that looks for a child, one that writes the state (core/cpu/sched.c:76-77), one
    that links the task into the blocked list (lines 78-79) and one that calls schedule. */
module Processes {
  import opened Common
  import opened Sched
  import opened Syscalls

  /** The scheduler, the tick counters, and a record of exits and of what wait4 returned. */
  datatype Sys = Sys(k: K, ticks: nat, need: bool, exits: map<nat, int>, reaped: seq<(nat, int)>)

  /** (int)rdi: the low 32 bits, signed. */
  function ToInt32(n: nat): (i: int)
    ensures -0x8000_0000 <= i < 0x8000_0000 && (i - n) % 0x1_0000_0000 == 0
  {
    var x := n % 0x1_0000_0000;
    if x < 0x8000_0000 then x else x - 0x1_0000_0000
  }

  /** The task is a zombie that a wait4 of ppid for `want` takes. */
  predicate Wanted(z: Tcb, ppid: nat, want: nat)
  {
    z.state == Zombie && z.ppid == ppid && (want == ANY || z.pid == want)
  }

  /** task_find_zombie: the first such task in registry order, or NULL. */
  function FindZombie(m: Mem, reg: seq<nat>, ppid: nat, want: nat): (z: nat)
    requires AllIn(reg, m)
    ensures z != NULL ==> z in reg && z in m && Wanted(m[z], ppid, want)
  {
    if reg == [] then NULL
    else if reg[0] != NULL && Wanted(m[reg[0]], ppid, want) then reg[0]
    else
      assert reg[0] in m && forall i :: 0 <= i < |reg[1..]| ==> reg[1..][i] == reg[i + 1];
      FindZombie(m, reg[1..], ppid, want)
  }

  lemma {:induction false} NoZombie(m: Mem, reg: seq<nat>, ppid: nat, want: nat)
    requires AllIn(reg, m) && NULL !in m && FindZombie(m, reg, ppid, want) == NULL
    ensures forall z :: z in reg && z in m ==> !Wanted(m[z], ppid, want)
  {
    if reg != [] {
      assert reg[0] in m;
      NoZombie(m, reg[1..], ppid, want);
      assert reg == [reg[0]] + reg[1..];
    }
  }

  /** SYS_exit before it wakes anyone. */
  function Died(k: K, status: int): K
    requires k.current in k.mem
  {
    k.(mem := k.mem[k.current := k.mem[k.current].(state := Zombie, exitStatus := status)])
  }

  /** A new task at the head of the registry, with the next pid. */
  function Registered(k: K, at: nat, ppid: nat): K
  {
    k.(mem := k.mem[at := Tcb(k.nextPid, ppid, Ready, 0, 0, NULL, k.all, NotWaiting)],
       all := at, reg := [at] + k.reg, nextPid := k.nextPid + 1, byPid := k.byPid[k.nextPid := at])
  }

  /** do_fork and user_task_create: the new task is registered, numbered and queued. */
  function Spawned(k: K, at: nat, ppid: nat): K
  {
    Enqueued(Registered(k, at, ppid), at)
  }

  /** The wait4 call returns and leaves z to be freed. */
  function Reaped(k: K, z: nat): K
    requires k.current in k.mem && z in k.mem
  {
    var m := k.mem[z := k.mem[z].(state := Dead)];
    k.(mem := m[k.current := m[k.current].(want := NotWaiting)])
  }

  // ---------- What every run keeps ----------

  /** No zombie is there that a wait4 of ppid for `want` takes. */
  ghost predicate NoneWanted(m: Mem, ppid: nat, want: nat)
  {
    forall z :: z in m ==> !Wanted(m[z], ppid, want)
  }

  /** A blocked task is inside wait4, and no zombie that it wants exists. */
  ghost predicate NoLostWakeup(k: K)
  {
    forall t :: t in k.mem ==> k.mem[t].blockOn == 0 && (k.mem[t].state == Blocked ==> Unserved(k.mem, t))
  }

  ghost predicate Unserved(m: Mem, t: nat)
    requires t in m
  {
    !m[t].want.NotWaiting? && NoneWanted(m, m[t].pid, m[t].want.pid)
  }

  /** Zombies carry the status they exited with; a pid that wait4 has returned belongs to a dead task. */
  ghost predicate History(s: Sys)
  {
    && (forall t :: t in s.k.mem && s.k.mem[t].state == Zombie ==>
       s.k.mem[t].pid in s.exits && s.exits[s.k.mem[t].pid] == s.k.mem[t].exitStatus)
    && (forall t :: t in s.k.mem && s.k.mem[t].pid in s.exits ==>
       s.k.mem[t].state == Zombie || s.k.mem[t].state == Dead)
    && (forall i :: 0 <= i < |s.reaped| ==> s.reaped[i].0 in s.exits && s.exits[s.reaped[i].0] == s.reaped[i].1)
    && (forall i, t :: 0 <= i < |s.reaped| && t in s.k.mem && s.k.mem[t].pid == s.reaped[i].0 ==>
       s.k.mem[t].state == Dead)
    && (forall p :: p in s.exits ==> p < s.k.nextPid)
  }

  /** No pid is returned twice. */
  ghost predicate ReturnedOnce(reaped: seq<(nat, int)>)
  {
    forall i, j :: 0 <= i < j < |reaped| ==> reaped[i].0 != reaped[j].0
  }

  /** What every step keeps, whatever comes between the passes of wait4. */
  ghost predicate SysInv(s: Sys)
  {
    Steady(s.k) && History(s) && ReturnedOnce(s.reaped) && s.ticks < TIME_SLICE
  }

  /** The step from k to k' loses no wakeup. */
  ghost predicate LosesNone(k: K, k': K) { NoLostWakeup(k) ==> NoLostWakeup(k') }

  /** States change between ready and running only. */
  ghost predicate Settled(m: Mem, n: Mem)
  {
    && SameTasks(m, n)
    && forall t :: t in m ==> n[t].state == m[t].state || (Awake(m[t].state) && Awake(n[t].state))
  }

  predicate Awake(st: State) { st == Ready || st == Running }

  lemma ScheduledSettled(k: K)
    requires Lists(k) && PlacesBut(k, NULL) && Pids(k) && k.mem[k.current].state != Ready
    ensures k.rq != [] ==> k.head in k.mem
    ensures Stable(Scheduled(k)) && Settled(k.mem, Scheduled(k).mem) && Scheduled(k).nextPid == k.nextPid
  {
    ScheduledStable(k);
    ScheduledTasks(k);
    ScheduledFields(k);
    if k.rq != [] {
      BothAwake(k, Scheduled(k));
      SettledOf(k.mem, Scheduled(k).mem, k.current, Scheduled(k).current);
    }
  }

  lemma BothAwake(k: K, k': K)
    requires NULL !in k.mem && PlacesBut(k, NULL) && PlacesBut(k', NULL) && k'.mem.Keys == k.mem.Keys && k.rq != []
    requires k'.current == k.rq[0] && NULL !in k'.mem
    requires k'.rq == k.rq[1..] + if k.mem[k.current].state == Running then [k.current] else []
    requires k'.mem[k'.current].state == Running && k'.current in k.mem
    ensures Awake(k.mem[k'.current].state) && (k.mem[k.current].state == Running ==> Awake(k'.mem[k.current].state))
  {
    assert InPlace(k, k'.current);
    if k.mem[k.current].state == Running {
      assert k.current in k'.rq && InPlace(k', k.current);
    }
  }

  lemma SettledOf(m: Mem, n: Mem, current: nat, next: nat)
    requires SameTasks(m, n) && current in m && next in m
    requires forall t :: t in m && t != current && t != next ==> n[t].state == m[t].state
    requires m[current].state != Running ==> n[current].state == m[current].state
    requires Awake(m[next].state) && n[next].state == Running
    requires (m[current].state == Running ==> Awake(n[current].state))
    ensures Settled(m, n)
  {
  }

  lemma SettledKeeps(s: Sys, s': Sys)
    requires History(s) && Settled(s.k.mem, s'.k.mem) && s'.k.nextPid == s.k.nextPid && s'.exits == s.exits
    requires s'.reaped == s.reaped
    ensures (NoLostWakeup(s.k) <==> NoLostWakeup(s'.k)) && History(s')
  {
    if NoLostWakeup(s.k) { SettledUnserved(s.k, s'.k); }
    if NoLostWakeup(s'.k) { SettledUnserved(s'.k, s.k); }
    SettledHistory(s, s');
  }

  lemma SettledHistory(s: Sys, s': Sys)
    requires History(s) && Settled(s.k.mem, s'.k.mem) && s'.k.nextPid == s.k.nextPid && s'.exits == s.exits
    requires s'.reaped == s.reaped
    ensures History(s')
  {
  }

  lemma SettledUnserved(k: K, k': K)
    requires NoLostWakeup(k) && Settled(k.mem, k'.mem)
    ensures NoLostWakeup(k')
  {
    forall t | t in k'.mem ensures k'.mem[t].blockOn == 0 && (k'.mem[t].state == Blocked ==> Unserved(k'.mem, t)) {
      if k'.mem[t].state == Blocked { assert Unserved(k.mem, t); }
    }
  }

  // ---------- Steps ----------

  /** A timer tick: the second one of a slice, or the first after a yield, switches tasks. */
  ghost predicate Switches(s: Sys) { s.need || s.ticks + 1 >= TIME_SLICE }

  ghost function TickStep(s: Sys): Sys
    requires Steady(s.k)
  {
    if !Switches(s) then s.(ticks := s.ticks + 1)
    else
      ScheduledStable(s.k);
      s.(k := Scheduled(s.k), ticks := 0, need := false)
  }

  lemma TickKeeps(s: Sys)
    requires SysInv(s)
    ensures SysInv(TickStep(s)) && LosesNone(s.k, TickStep(s).k)
  {
    if Switches(s) {
      ScheduledSettled(s.k);
      SettledKeeps(s, TickStep(s));
    }
  }

  /** The exit of the current task, before schedule. */
  ghost function ExitWoken(k: K, status: int): K
    requires k.current in k.mem && AllIn(k.bl, k.mem)
  {
    WakeFrom(Died(k, status), 0, k.mem[k.current].pid, k.mem[k.current].ppid)
  }

  lemma DiedLists(k: K, status: int)
    requires Lists(k) && k.current in k.mem
    ensures Lists(Died(k, status))
  {
    var n := Died(k, status).mem;
    ChainKeep(k.mem, n, k.head, k.rq);
    ChainKeep(k.mem, n, k.blocked, k.bl);
    ChainAllKeep(k.mem, n, k.all, k.reg);
  }

  lemma DiedOk(k: K, status: int)
    requires Stable(k) && k.current != k.boot
    ensures Lists(Died(k, status)) && PlacesBut(Died(k, status), NULL) && Pids(Died(k, status))
  {
    DiedLists(k, status);
    forall t | t in Died(k, status).mem ensures InPlace(Died(k, status), t) {
      assert InPlace(k, t);
    }
  }

  lemma ExitWokenOk(k: K, status: int)
    requires Stable(k) && k.current != k.boot
    ensures var k' := ExitWoken(k, status);
            && Lists(k') && PlacesBut(k', NULL) && Pids(k') && k'.current == k.current && k'.nextPid == k.nextPid
            && k'.boot == k.boot
            && SameTasks(Died(k, status).mem, k'.mem) && k'.mem[k.current].state == Zombie
            && (forall t :: t in k.mem && t != k.current ==>
               k'.mem[t].state == k.mem[t].state || (k.mem[t].state == Blocked && k'.mem[t].state == Ready))
  {
    DiedOk(k, status);
    WakeFromLists(Died(k, status), 0, k.mem[k.current].pid, k.mem[k.current].ppid);
    WakeFromTasks(Died(k, status), 0, k.mem[k.current].pid, k.mem[k.current].ppid);
    DiedStates(k, ExitWoken(k, status), status);
  }

  lemma DiedStates(k: K, k': K, status: int)
    requires k.current in k.mem && SameTasks(Died(k, status).mem, k'.mem)
    requires var m := Died(k, status).mem;
             forall t :: t in m ==> k'.mem[t].state == m[t].state || (m[t].state == Blocked && k'.mem[t].state == Ready)
    ensures k'.mem[k.current].state == Zombie
    ensures forall t :: t in k.mem && t != k.current ==>
            k'.mem[t].state == k.mem[t].state || (k.mem[t].state == Blocked && k'.mem[t].state == Ready)
  {
  }

  /** The waiters of the exiting task go to the back of the run queue, and no other task does. */
  lemma ExitWakes(k: K, status: int)
    requires Stable(k) && k.current != k.boot
    ensures AllIn(k.bl, Died(k, status).mem)
    ensures var k' := ExitWoken(k, status);
            && k'.rq == k.rq + Woken(Died(k, status).mem, k.bl, k.mem[k.current].pid, k.mem[k.current].ppid)
            && k'.bl == Asleep(Died(k, status).mem, k.bl, k.mem[k.current].pid, k.mem[k.current].ppid)
  {
    var k1 := Died(k, status);
    DiedOk(k, status);
    WakeFromQueues(k1, 0, k.mem[k.current].pid, k.mem[k.current].ppid);
    assert k1.bl[0..] == k1.bl && k1.bl[..0] == [];
  }

  lemma ExitAsleep(k: K, status: int, t: nat)
    requires Stable(k) && k.current != k.boot && t in k.mem
    ensures t in ExitWoken(k, status).mem
    ensures ExitWoken(k, status).mem[t].state == Blocked && !k.mem[t].want.Marked? ==>
            !Matches(k.mem[t], k.mem[k.current].pid, k.mem[k.current].ppid)
  {
    ExitWokenOk(k, status);
    ExitWakes(k, status);
    AsleepDoNotMatch(Died(k, status).mem, k.bl, k.mem[k.current].pid, k.mem[k.current].ppid);
    assert InPlace(ExitWoken(k, status), t);
  }

  ghost function ExitStep(s: Sys, code: nat): Sys
    requires Stable(s.k) && s.k.current != s.k.boot
  {
    var status := ToInt32(code);
    ExitWokenOk(s.k, status);
    ScheduledStable(ExitWoken(s.k, status));
    s.(k := Scheduled(ExitWoken(s.k, status)), exits := s.exits[s.k.mem[s.k.current].pid := status])
  }

  /** Task t is blocked and on no list, and is not about to link itself: nothing will ever wake it. */
  predicate Stranded(k: K, t: nat) { t in k.mem && t != k.current && k.mem[t].want.Marked? }

  /** No stranded task asks for the current one. */
  ghost predicate Hears(k: K)
    requires k.current in k.mem
  {
    var me := k.mem[k.current];
    forall t :: Stranded(k, t) ==>
      !(me.ppid == k.mem[t].pid && (k.mem[t].want.pid == ANY || me.pid == k.mem[t].want.pid))
  }

  /** The exit leaves no parent asleep that is on the blocked list: the waiters of the new zombie are
      awake. It does leave one that is stranded. */
  lemma ExitWokenKeeps(s: Sys, status: int)
    requires SysInv(s) && Stable(s.k) && s.k.current != s.k.boot
    ensures var k' := ExitWoken(s.k, status);
            && (NoLostWakeup(s.k) ==> (NoLostWakeup(k') <==> Hears(s.k)))
            && History(Sys(k', s.ticks, s.need, s.exits[s.k.mem[s.k.current].pid := status], s.reaped))
  {
    ExitWokenOk(s.k, status);
    if NoLostWakeup(s.k) {
      if Hears(s.k) { ExitUnserved(s.k, status); } else { ExitUnheard(s.k, status); }
    }
    ExitHistory(s, ExitWoken(s.k, status), status);
  }

  lemma ExitUnheard(k: K, status: int)
    requires Stable(k) && k.current != k.boot && !Hears(k)
    ensures !NoLostWakeup(ExitWoken(k, status))
  {
    var t :| Stranded(k, t)
      && k.mem[k.current].ppid == k.mem[t].pid
      && (k.mem[t].want.pid == ANY || k.mem[k.current].pid == k.mem[t].want.pid);
    var k' := ExitWoken(k, status);
    ExitWokenOk(k, status);
    assert InPlace(k, t) && InPlace(k', t);
    assert Wanted(k'.mem[k.current], k'.mem[t].pid, k'.mem[t].want.pid);
  }

  lemma ExitUnserved(k: K, status: int)
    requires Stable(k) && NoLostWakeup(k) && k.current != k.boot && Hears(k)
    ensures NoLostWakeup(ExitWoken(k, status))
  {
    ExitWokenOk(k, status);
    forall t | t in ExitWoken(k, status).mem
      ensures ExitWoken(k, status).mem[t].blockOn == 0
      ensures (ExitWoken(k, status).mem[t].state == Blocked ==> Unserved(ExitWoken(k, status).mem, t))
    {
      ExitAsleep(k, status, t);
      AsleepUnserved(k, ExitWoken(k, status), status, t);
    }
  }

  lemma AsleepUnserved(k: K, k': K, status: int, t: nat)
    requires k.current in k.mem && NoLostWakeup(k) && SameTasks(Died(k, status).mem, k'.mem) && t in k'.mem
    requires k'.mem[k.current].state == Zombie
    requires forall z :: z in k.mem && z != k.current ==>
             k'.mem[z].state == k.mem[z].state || (k.mem[z].state == Blocked && k'.mem[z].state == Ready)
    requires k'.mem[t].state == Blocked && !k.mem[t].want.Marked? ==>
               !Matches(k.mem[t], k.mem[k.current].pid, k.mem[k.current].ppid)
    requires Hears(k)
    ensures k'.mem[t].blockOn == 0 && (k'.mem[t].state == Blocked ==> Unserved(k'.mem, t))
  {
    if k'.mem[t].state == Blocked {
      assert Unserved(k.mem, t);
      StillUnserved(k, k', status, t);
    }
  }

  lemma StillUnserved(k: K, k': K, status: int, t: nat)
    requires k.current in k.mem && SameTasks(Died(k, status).mem, k'.mem) && t in k.mem && t != k.current
    requires Unserved(k.mem, t)
    requires !Matches(k.mem[t], k.mem[k.current].pid, k.mem[k.current].ppid) || Stranded(k, t)
    requires Hears(k) && k.mem[t].blockOn == 0
    requires forall z :: z in k.mem && z != k.current ==> k'.mem[z].state == Zombie ==> k.mem[z].state == Zombie
    ensures Unserved(k'.mem, t)
  {
    forall z | z in k'.mem ensures !Wanted(k'.mem[z], k'.mem[t].pid, k'.mem[t].want.pid) {
      assert !Wanted(k.mem[z], k.mem[t].pid, k.mem[t].want.pid);
    }
  }

  lemma ExitHistory(s: Sys, k': K, status: int)
    requires History(s) && Pids(s.k) && s.k.current in s.k.mem && s.k.mem[s.k.current].state == Running
    requires SameTasks(Died(s.k, status).mem, k'.mem) && k'.mem[s.k.current].state == Zombie
    requires k'.nextPid == s.k.nextPid
    requires forall t :: t in s.k.mem && t != s.k.current ==>
             k'.mem[t].state == s.k.mem[t].state || (s.k.mem[t].state == Blocked && k'.mem[t].state == Ready)
    ensures History(Sys(k', s.ticks, s.need, s.exits[s.k.mem[s.k.current].pid := status], s.reaped))
  {
    var pid := s.k.mem[s.k.current].pid;
    forall t | t in s.k.mem && s.k.mem[t].pid == pid ensures t == s.k.current {
      assert s.k.byPid[pid] == t;
    }
    assert pid !in s.exits;
  }

  lemma ExitKeeps(s: Sys, code: nat)
    requires SysInv(s) && Stable(s.k) && s.k.current != s.k.boot
    ensures SysInv(ExitStep(s, code))
    ensures NoLostWakeup(s.k) ==> (NoLostWakeup(ExitStep(s, code).k) <==> Hears(s.k))
  {
    var status := ToInt32(code);
    var k1 := ExitWoken(s.k, status);
    ExitWokenOk(s.k, status);
    ExitWokenKeeps(s, status);
    ScheduledSettled(k1);
    SettledKeeps(Sys(k1, s.ticks, s.need, s.exits[s.k.mem[s.k.current].pid := status], s.reaped), ExitStep(s, code));
  }

  // ---------- fork ----------

  lemma RegisteredLists(k: K, at: nat, ppid: nat)
    requires Lists(k) && k.current in k.mem && at != NULL && at !in k.mem
    ensures Lists(Registered(k, at, ppid)) && at !in k.rq && at !in k.bl
  {
    var n := Registered(k, at, ppid).mem;
    ChainKeep(k.mem, n, k.head, k.rq);
    ChainKeep(k.mem, n, k.blocked, k.bl);
    assert at !in k.reg;
    RegistryPrepend(k.mem, n, k.all, k.reg, at);
  }

  lemma RegistryPrepend(m: Mem, n: Mem, first: nat, s: seq<nat>, t: nat)
    requires AllIn(s, m) && ChainAll(m, first, s) && Distinct(s) && t !in s && t in n && n[t].nextAll == first
    requires forall i :: 0 <= i < |s| ==> s[i] in n && n[s[i]].nextAll == m[s[i]].nextAll
    ensures AllIn([t] + s, n) && ChainAll(n, t, [t] + s) && Distinct([t] + s)
  {
  }

  lemma SpawnedLists(k: K, at: nat, ppid: nat)
    requires Lists(k) && k.current in k.mem && at != NULL && at !in k.mem
    ensures Lists(Spawned(k, at, ppid)) && Spawned(k, at, ppid).rq == k.rq + [at]
    ensures Spawned(k, at, ppid).current == k.current
  {
    RegisteredLists(k, at, ppid);
    EnqueuedLists(Registered(k, at, ppid), at);
  }

  /** Every other task is as before. */
  lemma SpawnedTasks(k: K, at: nat, ppid: nat)
    requires Lists(k) && k.current in k.mem && at != NULL && at !in k.mem
    ensures var k' := Spawned(k, at, ppid);
            && k'.mem.Keys == k.mem.Keys + {at} && k'.nextPid == k.nextPid + 1 && k'.byPid == k.byPid[k.nextPid := at]
            && k'.boot == k.boot && k'.bl == k.bl
            && (forall t :: t in k.mem ==> k'.mem[t] == k.mem[t].(next := k'.mem[t].next))
            && k'.mem[at] == Tcb(k.nextPid, ppid, Ready, 0, 0, NULL, k.all, NotWaiting)
  {
    if k.rq != [] { assert k.rq[|k.rq| - 1] in k.mem; }
    EnqueuedMem(Registered(k, at, ppid), at);
  }

  lemma SpawnedOk(k: K, at: nat, ppid: nat)
    requires Stable(k) && at != NULL && at !in k.mem
    ensures Stable(Spawned(k, at, ppid))
  {
    SpawnedLists(k, at, ppid);
    SpawnedTasks(k, at, ppid);
    SpawnedPlaces(k, Spawned(k, at, ppid), at);
  }

  lemma SpawnedPlaces(k: K, k': K, at: nat)
    requires NULL !in k.mem && PlacesBut(k, NULL) && Pids(k) && at !in k.mem && at != NULL
    requires k'.mem.Keys == k.mem.Keys + {at} && k.mem[k.current].state == Running
    requires at !in k.rq && at !in k.bl && k'.rq == k.rq + [at] && k'.bl == k.bl && k'.current == k.current
    requires k'.boot == k.boot
    requires k'.nextPid == k.nextPid + 1 && k'.byPid == k.byPid[k.nextPid := at]
    requires (forall t :: t in k.mem ==> k'.mem[t] == k.mem[t].(next := k'.mem[t].next)) && k'.mem[at].state == Ready
    requires k'.mem[at].pid == k.nextPid && k.nextPid > 0 && k'.mem[at].want.NotWaiting?
    ensures PlacesBut(k', NULL) && Pids(k') && k'.mem[k'.current].state == Running
  {
    forall t | t in k'.mem ensures InPlace(k', t) {
      if t != at { assert InPlace(k, t); }
    }
  }

  lemma SpawnKeeps(s: Sys, at: nat, ppid: nat)
    requires SysInv(s) && Stable(s.k) && at != NULL && at !in s.k.mem
    ensures SysInv(s.(k := Spawned(s.k, at, ppid))) && LosesNone(s.k, Spawned(s.k, at, ppid))
  {
    SpawnedOk(s.k, at, ppid);
    SpawnedTasks(s.k, at, ppid);
    SpawnedHistory(s, Spawned(s.k, at, ppid), at);
  }

  lemma SpawnedHistory(s: Sys, k': K, at: nat)
    requires History(s) && at !in s.k.mem && k'.mem.Keys == s.k.mem.Keys + {at} && k'.nextPid == s.k.nextPid + 1
    requires (forall t :: t in s.k.mem ==> k'.mem[t] == s.k.mem[t].(next := k'.mem[t].next))
    requires k'.mem[at].state == Ready && k'.mem[at].pid == s.k.nextPid && k'.mem[at].blockOn == 0
    ensures LosesNone(s.k, k') && History(s.(k := k'))
  {
    if NoLostWakeup(s.k) {
      forall t | t in k'.mem ensures k'.mem[t].blockOn == 0 && (k'.mem[t].state == Blocked ==> Unserved(k'.mem, t)) {
        if t != at && k'.mem[t].state == Blocked { assert Unserved(s.k.mem, t); }
      }
    }
  }

  // ---------- wait4 ----------

  /** wait4 finds the zombie z and returns it. */
  function ReturnStep(s: Sys, z: nat): Sys
    requires s.k.current in s.k.mem && z in s.k.mem
  {
    s.(k := Reaped(s.k, z), reaped := s.reaped + [(s.k.mem[z].pid, s.k.mem[z].exitStatus)])
  }

  /** task_block_any. */
  ghost function SleepStep(s: Sys, want: nat): Sys
    requires Stable(s.k) && s.k.current != s.k.boot
  {
    SleepOk(s.k, want);
    ScheduledStable(BlockedAny(s.k, want));
    s.(k := Scheduled(BlockedAny(s.k, want)))
  }

  lemma SleepOk(k: K, want: nat)
    requires Stable(k) && k.current != k.boot
    ensures var k' := BlockedAny(k, want);
            Lists(k') && PlacesBut(k', NULL) && Pids(k') && k'.mem[k'.current].state == Blocked
              && k'.nextPid == k.nextPid
  {
    assert InPlace(k, k.current);
    BlockedLists(k, want);
    BlockedPlaces(k, want);
  }

  /** The zombie that a pass of the current task for `want` finds, or NULL. */
  function Found(k: K, want: nat): (z: nat)
    requires k.current in k.mem && AllIn(k.reg, k.mem)
    ensures z != NULL ==> z in k.mem && Wanted(k.mem[z], k.mem[k.current].pid, want)
  {
    FindZombie(k.mem, k.reg, k.mem[k.current].pid, want)
  }

  /** The first pass of wait4: it returns a zombie child, or blocks. */
  ghost function WaitStep(s: Sys, want: nat): Sys
    requires Stable(s.k) && s.k.current != s.k.boot
  {
    var z := Found(s.k, want);
    if z != NULL then ReturnStep(s, z) else SleepStep(s, want)
  }

  /** The current task has looked for `want` in vain. */
  function Noted(k: K, want: nat): K
    requires k.current in k.mem
  {
    k.(mem := k.mem[k.current := k.mem[k.current].(want := Looked(want))])
  }

  /** The search of a later pass: it found the zombie z, or nothing. */
  function LookStep(s: Sys, want: nat, z: nat): Sys
    requires s.k.current in s.k.mem && (z != NULL ==> z in s.k.mem)
  {
    if z != NULL then ReturnStep(s, z) else s.(k := Noted(s.k, want))
  }

  lemma ReapedOk(k: K, z: nat)
    requires Stable(k) && z in k.mem && k.mem[z].state == Zombie
    ensures Stable(Reaped(k, z))
  {
    ReapedLists(k, z);
    ReapedPlaces(k, z);
  }

  lemma ReapedLists(k: K, z: nat)
    requires Lists(k) && z in k.mem && k.current in k.mem
    ensures Lists(Reaped(k, z))
  {
    var k' := Reaped(k, z);
    ChainKeep(k.mem, k'.mem, k.head, k.rq);
    ChainKeep(k.mem, k'.mem, k.blocked, k.bl);
    ChainAllKeep(k.mem, k'.mem, k.all, k.reg);
  }

  lemma ReapedPlaces(k: K, z: nat)
    requires NULL !in k.mem && PlacesBut(k, NULL) && Pids(k) && z in k.mem && k.mem[z].state == Zombie
    requires k.mem[k.current].state == Running
    ensures PlacesBut(Reaped(k, z), NULL) && Pids(Reaped(k, z)) && Reaped(k, z).mem[k.current].state == Running
  {
    forall t | t in Reaped(k, z).mem ensures InPlace(Reaped(k, z), t) {
      assert InPlace(k, t);
    }
  }

  lemma ReapKeeps(s: Sys, z: nat)
    requires SysInv(s) && Stable(s.k) && z in s.k.mem && s.k.mem[z].state == Zombie
    ensures SysInv(ReturnStep(s, z)) && LosesNone(s.k, ReturnStep(s, z).k)
  {
    ReapedOk(s.k, z);
    if NoLostWakeup(s.k) { ReapedUnserved(s.k, z); }
    ReapHistory(s, z);
  }

  lemma ReapedUnserved(k: K, z: nat)
    requires NoLostWakeup(k) && z in k.mem && k.current in k.mem && k.mem[k.current].state == Running
    requires k.mem[z].state == Zombie
    ensures NoLostWakeup(Reaped(k, z))
  {
    var k' := Reaped(k, z);
    forall t | t in k'.mem ensures k'.mem[t].blockOn == 0 && (k'.mem[t].state == Blocked ==> Unserved(k'.mem, t)) {
      if k'.mem[t].state == Blocked { assert Unserved(k.mem, t); }
    }
  }

  lemma ReapHistory(s: Sys, z: nat)
    requires History(s) && ReturnedOnce(s.reaped) && Pids(s.k) && z in s.k.mem && s.k.mem[z].state == Zombie
    requires s.k.current in s.k.mem
    ensures History(ReturnStep(s, z)) && ReturnedOnce(ReturnStep(s, z).reaped)
  {
    var pid := s.k.mem[z].pid;
    forall t | t in s.k.mem && s.k.mem[t].pid == pid ensures t == z {
      assert s.k.byPid[pid] == t;
    }
  }

  /** Blocking keeps the invariant whether or not a child has become a zombie meanwhile. */
  lemma SleepKeeps(s: Sys, want: nat)
    requires SysInv(s) && Stable(s.k) && s.k.current != s.k.boot
    ensures SysInv(SleepStep(s, want)) && LosesNone(BlockedAny(s.k, want), SleepStep(s, want).k)
  {
    SleepOk(s.k, want);
    BlockedHistory(s, want);
    ScheduledSettled(BlockedAny(s.k, want));
    SettledKeeps(s.(k := BlockedAny(s.k, want)), SleepStep(s, want));
  }

  /** The search is in vain exactly when no such zombie is there. */
  lemma FoundIff(k: K, want: nat)
    requires Lists(k) && k.current in k.mem
    ensures Found(k, want) == NULL <==> NoneWanted(k.mem, k.mem[k.current].pid, want)
  {
    if Found(k, want) == NULL { NoZombie(k.mem, k.reg, k.mem[k.current].pid, want); }
  }

  /** Blocking loses no wakeup exactly when no zombie that the caller wants exists at that moment. */
  lemma {:induction false} SleepLosesNoneIff(s: Sys, want: nat)
    requires SysInv(s) && Stable(s.k) && NoLostWakeup(s.k) && s.k.current != s.k.boot
    ensures NoLostWakeup(SleepStep(s, want).k) <==> Found(s.k, want) == NULL
  {
    SleepKeeps(s, want);
    if Found(s.k, want) == NULL {
      BlockedUnserved(s.k, want);
    } else {
      SleepOnZombie(s.k, want, Found(s.k, want));
    }
  }

  /** A caller that blocks although the zombie z is there sleeps, and z stays. */
  lemma SleepOnZombie(k: K, want: nat, z: nat)
    requires Stable(k) && k.current != k.boot && z in k.mem && Wanted(k.mem[z], k.mem[k.current].pid, want)
    ensures Lists(BlockedAny(k, want)) && PlacesBut(BlockedAny(k, want), NULL)
    ensures BlockedAny(k, want).rq != [] ==> BlockedAny(k, want).head in BlockedAny(k, want).mem
    ensures !NoLostWakeup(Scheduled(BlockedAny(k, want)))
  {
    var k1 := BlockedAny(k, want);
    SleepOk(k, want);
    ScheduledSettled(k1);
    SleepsOn(k.mem, k1.mem, Scheduled(k1).mem, k.current, z, want);
  }

  lemma SleepsOn(m: Mem, m1: Mem, m2: Mem, t: nat, z: nat, want: nat)
    requires t in m && t in m1 && z in m && Wanted(m[z], m[t].pid, want) && z != t && m1 == m[t := m1[t]]
    requires m1[t].state == Blocked && m1[t].pid == m[t].pid && m1[t].want == Waiting(want) && Settled(m1, m2)
    ensures t in m2 && m2[t].state == Blocked && !Unserved(m2, t)
  {
    assert Wanted(m2[z], m2[t].pid, m2[t].want.pid);
  }

  lemma NotedOk(s: Sys, want: nat)
    requires SysInv(s) && Stable(s.k)
    ensures SysInv(s.(k := Noted(s.k, want))) && LosesNone(s.k, Noted(s.k, want))
  {
    NotedLists(s.k, want);
    NotedPlaces(s.k, want);
    NotedHistory(s, want);
  }

  lemma NotedLists(k: K, want: nat)
    requires Lists(k) && k.current in k.mem
    ensures Lists(Noted(k, want))
  {
    var n := Noted(k, want).mem;
    ChainKeep(k.mem, n, k.head, k.rq);
    ChainKeep(k.mem, n, k.blocked, k.bl);
    ChainAllKeep(k.mem, n, k.all, k.reg);
  }

  lemma NotedPlaces(k: K, want: nat)
    requires NULL !in k.mem && PlacesBut(k, NULL) && Pids(k) && k.mem[k.current].state == Running
    ensures PlacesBut(Noted(k, want), NULL) && Pids(Noted(k, want)) && Noted(k, want).mem[k.current].state == Running
  {
    forall t | t in Noted(k, want).mem ensures InPlace(Noted(k, want), t) {
      assert InPlace(k, t);
    }
  }

  lemma NotedHistory(s: Sys, want: nat)
    requires History(s) && s.k.current in s.k.mem && s.k.mem[s.k.current].state == Running
    ensures History(s.(k := Noted(s.k, want))) && LosesNone(s.k, Noted(s.k, want))
  {
    var k' := Noted(s.k, want);
    if NoLostWakeup(s.k) {
      forall t | t in k'.mem ensures k'.mem[t].blockOn == 0 && (k'.mem[t].state == Blocked ==> Unserved(k'.mem, t)) {
        if k'.mem[t].state == Blocked { assert Unserved(s.k.mem, t); }
      }
    }
  }

  // ---------- task_block_any in a later pass ----------

  /** The state and block_on are written. */
  function Marking(k: K, want: nat): K
    requires k.current in k.mem
  {
    k.(mem := k.mem[k.current := k.mem[k.current].(state := Blocked, blockOn := 0, want := Marked(want))])
  }

  /** The task is linked in front of the blocked list. */
  function Pushing(k: K, want: nat): K
    requires k.current in k.mem
  {
    k.(mem := k.mem[k.current := k.mem[k.current].(next := k.blocked, want := Pushed(want))],
       blocked := k.current, bl := [k.current] + k.bl)
  }

  /** The task calls schedule, from which it will return into the next pass. */
  function Calling(k: K, want: nat): K
    requires k.current in k.mem
  {
    k.(mem := k.mem[k.current := k.mem[k.current].(want := Waiting(want))])
  }

  /** Undisturbed, the three are what the first pass does at once. */
  lemma BlockInThree(k: K, want: nat)
    requires k.current in k.mem
    ensures Calling(Pushing(Marking(k, want), want), want) == BlockedAny(k, want)
  {
  }

  /** The record is about zombies and dead tasks only. */
  predicate SameEnd(a: Tcb, b: Tcb)
  {
    && a.pid == b.pid && a.exitStatus == b.exitStatus
    && (a.state == Zombie <==> b.state == Zombie) && (a.state == Dead <==> b.state == Dead)
  }

  lemma QuietHistory(s: Sys, k': K)
    requires History(s) && k'.mem.Keys == s.k.mem.Keys && k'.nextPid == s.k.nextPid
    requires forall t :: t in s.k.mem ==> SameEnd(s.k.mem[t], k'.mem[t])
    ensures History(s.(k := k'))
  {
    forall t | t in k'.mem ensures SameEnd(s.k.mem[t], k'.mem[t]) {
    }
  }

  lemma MarkKeeps(s: Sys, want: nat)
    requires SysInv(s) && Stable(s.k) && s.k.current != s.k.boot
    ensures SysInv(s.(k := Marking(s.k, want)))
    ensures NoLostWakeup(s.k) ==>
              (NoLostWakeup(Marking(s.k, want)) <==> NoneWanted(s.k.mem, s.k.mem[s.k.current].pid, want))
  {
    if NoLostWakeup(s.k) { MarkingUnserved(s.k, want); }
    QuietHistory(s, Marking(s.k, want));
    MarkingSteady(s.k, want);
  }

  lemma MarkingSteady(k: K, want: nat)
    requires Stable(k) && k.current != k.boot
    ensures Steady(Marking(k, want))
  {
    MarkingLists(k, want);
    MarkingPlaces(k, want);
  }

  lemma MarkingLists(k: K, want: nat)
    requires Lists(k) && k.current in k.mem
    ensures Lists(Marking(k, want))
  {
    var n := Marking(k, want).mem;
    ChainKeep(k.mem, n, k.head, k.rq);
    ChainKeep(k.mem, n, k.blocked, k.bl);
    ChainAllKeep(k.mem, n, k.all, k.reg);
  }

  lemma MarkingPlaces(k: K, want: nat)
    requires Stable(k) && k.current != k.boot
    ensures PlacesBut(Marking(k, want), NULL) && Pids(Marking(k, want))
  {
    forall t | t in Marking(k, want).mem ensures InPlace(Marking(k, want), t) {
      assert InPlace(k, t);
    }
  }

  lemma MarkingUnserved(k: K, want: nat)
    requires k.current in k.mem && k.mem[k.current].state == Running && NoLostWakeup(k)
    ensures NoLostWakeup(Marking(k, want)) <==> NoneWanted(k.mem, k.mem[k.current].pid, want)
  {
    var m, n := k.mem, Marking(k, want).mem;
    forall z | z in m ensures forall p, w :: Wanted(n[z], p, w) <==> Wanted(m[z], p, w) {
    }
    forall t | t in n && t != k.current && n[t].state == Blocked ensures Unserved(n, t) {
      assert Unserved(m, t);
    }
    assert Unserved(n, k.current) <==> NoneWanted(m, m[k.current].pid, want);
  }

  lemma PushKeeps(s: Sys, want: nat)
    requires SysInv(s) && Blocking(s.k) && s.k.mem[s.k.current].want == Marked(want)
    ensures SysInv(s.(k := Pushing(s.k, want))) && LosesNone(s.k, Pushing(s.k, want))
  {
    PushingQuiet(s, want);
    PushingSteady(s.k, want);
  }

  lemma PushingQuiet(s: Sys, want: nat)
    requires History(s) && s.k.current in s.k.mem && s.k.mem[s.k.current].want == Marked(want)
    ensures History(s.(k := Pushing(s.k, want))) && LosesNone(s.k, Pushing(s.k, want))
  {
    QuietHistory(s, Pushing(s.k, want));
    if NoLostWakeup(s.k) { SameUnserved(s.k, Pushing(s.k, want)); }
  }

  lemma PushingSteady(k: K, want: nat)
    requires Steady(k) && Blocking(k) && k.mem[k.current].want == Marked(want)
    ensures Steady(Pushing(k, want))
  {
    PushingLists(k, want);
    PushingPlaces(k, want);
  }

  lemma PushingLists(k: K, want: nat)
    requires Lists(k) && k.current in k.mem && InPlace(k, k.current) && k.mem[k.current].want.Marked?
    ensures Lists(Pushing(k, want))
  {
    var n := Pushing(k, want).mem;
    ChainKeep(k.mem, n, k.head, k.rq);
    ChainPrepend(k.mem, n, k.blocked, k.bl, k.current);
    ChainAllKeep(k.mem, n, k.all, k.reg);
  }

  lemma PushingPlaces(k: K, want: nat)
    requires NULL !in k.mem && PlacesBut(k, NULL) && Pids(k) && k.mem[k.current].want.Marked?
    ensures PlacesBut(Pushing(k, want), NULL) && Pids(Pushing(k, want))
  {
    assert InPlace(k, k.current);
    forall t | t in Pushing(k, want).mem ensures InPlace(Pushing(k, want), t) {
      assert InPlace(k, t);
    }
  }

  /** Requests and states are the same. */
  lemma SameUnserved(k: K, k': K)
    requires NoLostWakeup(k) && k'.mem.Keys == k.mem.Keys
    requires forall t :: t in k.mem ==> SameRequest(k.mem[t], k'.mem[t])
    ensures NoLostWakeup(k')
  {
    forall t | t in k'.mem && k'.mem[t].state == Blocked ensures Unserved(k'.mem, t) {
      assert SameRequest(k.mem[t], k'.mem[t]) && Unserved(k.mem, t);
      forall z | z in k'.mem ensures !Wanted(k'.mem[z], k'.mem[t].pid, k'.mem[t].want.pid) {
        assert SameRequest(k.mem[z], k'.mem[z]);
      }
    }
    forall t | t in k'.mem ensures k'.mem[t].blockOn == 0 {
      assert SameRequest(k.mem[t], k'.mem[t]);
    }
  }

  predicate SameRequest(a: Tcb, b: Tcb)
  {
    && a.pid == b.pid && a.ppid == b.ppid && a.state == b.state && a.blockOn == b.blockOn
    && a.want.NotWaiting? == b.want.NotWaiting? && (!a.want.NotWaiting? ==> a.want.pid == b.want.pid)
  }

  ghost function CallStep(s: Sys, want: nat): Sys
    requires Steady(s.k) && s.k.mem[s.k.current].want == Pushed(want)
  {
    CallingOk(s.k, want);
    ScheduledStable(Calling(s.k, want));
    s.(k := Scheduled(Calling(s.k, want)))
  }

  lemma CallingOk(k: K, want: nat)
    requires Steady(k) && k.mem[k.current].want == Pushed(want)
    ensures var k' := Calling(k, want);
            && Lists(k') && PlacesBut(k', NULL) && Pids(k') && k'.mem[k'.current].state != Ready
            && k'.nextPid == k.nextPid
  {
    CallingLists(k, want);
    forall t | t in Calling(k, want).mem ensures InPlace(Calling(k, want), t) {
      assert InPlace(k, t);
    }
  }

  lemma CallingLists(k: K, want: nat)
    requires Lists(k) && k.current in k.mem
    ensures Lists(Calling(k, want))
  {
    var n := Calling(k, want).mem;
    ChainKeep(k.mem, n, k.head, k.rq);
    ChainKeep(k.mem, n, k.blocked, k.bl);
    ChainAllKeep(k.mem, n, k.all, k.reg);
  }

  lemma CallKeeps(s: Sys, want: nat)
    requires SysInv(s) && s.k.mem[s.k.current].want == Pushed(want)
    ensures SysInv(CallStep(s, want)) && LosesNone(s.k, CallStep(s, want).k)
  {
    CallingOk(s.k, want);
    CallingKeeps(s, want);
    ScheduledSettled(Calling(s.k, want));
    SettledKeeps(s.(k := Calling(s.k, want)), CallStep(s, want));
  }

  lemma CallingKeeps(s: Sys, want: nat)
    requires History(s) && s.k.current in s.k.mem && s.k.mem[s.k.current].want == Pushed(want)
    ensures History(s.(k := Calling(s.k, want))) && LosesNone(s.k, Calling(s.k, want))
  {
    QuietHistory(s, Calling(s.k, want));
    if NoLostWakeup(s.k) { SameUnserved(s.k, Calling(s.k, want)); }
  }

  lemma {:induction false} BlockedUnserved(k: K, want: nat)
    requires NULL !in k.mem && AllIn(k.reg, k.mem) && (forall t :: t in k.mem ==> t in k.reg) && NoLostWakeup(k)
    requires k.current in k.mem
    requires FindZombie(k.mem, k.reg, k.mem[k.current].pid, want) == NULL
    ensures NoLostWakeup(BlockedAny(k, want))
  {
    var k1 := BlockedAny(k, want);
    NoZombie(k.mem, k.reg, k.mem[k.current].pid, want);
    forall t | t in k1.mem ensures k1.mem[t].blockOn == 0 && (k1.mem[t].state == Blocked ==> Unserved(k1.mem, t)) {
      if k1.mem[t].state == Blocked && t != k.current { assert Unserved(k.mem, t); }
    }
  }

  lemma BlockedHistory(s: Sys, want: nat)
    requires History(s) && Pids(s.k) && s.k.current in s.k.mem && s.k.mem[s.k.current].state == Running
    ensures History(s.(k := BlockedAny(s.k, want)))
  {
  }
}
