/** What the events do to tasks, in the fields of the tasks: who wakes, who is returned, who comes into
    being and who runs next (core/cpu/syscall.c, core/cpu/fork.c, core/cpu/sched.c). */
module Calls {
  import opened Common
  import opened Sched
  import opened Syscalls
  import opened Processes
  import opened Runs
  import opened Steps

  /** A task that is not inside task_block_any runs. */
  lemma IsStable(s: Sys)
    requires Good(s) && s.k.current in s.k.mem
    requires !s.k.mem[s.k.current].want.Marked? && !s.k.mem[s.k.current].want.Pushed?
    ensures Stable(s.k)
  {
    Open(s);
  }

  // ---------- exit ----------

  /** The blocked tasks that wait for any child and have pid ppid, or wait for pid. */
  ghost function Waiters(k: K, pid: nat, ppid: nat): set<nat>
  {
    set t | t in k.bl && t in k.mem && ((k.mem[t].blockOn == 0 && k.mem[t].pid == ppid) || k.mem[t].blockOn == pid)
  }

  /** Those that wait for the current task. */
  ghost function Callers(k: K): set<nat>
    requires k.current in k.mem
  {
    Waiters(k, k.mem[k.current].pid, k.mem[k.current].ppid)
  }

  /** The elements of s in the set, in order, and the others. */
  ghost function Only(s: seq<nat>, those: set<nat>): seq<nat>
  {
    if s == [] then [] else (if s[0] in those then [s[0]] else []) + Only(s[1..], those)
  }

  ghost function Others(s: seq<nat>, those: set<nat>): seq<nat>
  {
    if s == [] then [] else (if s[0] in those then [] else [s[0]]) + Others(s[1..], those)
  }

  lemma {:induction false} OnlyIs(s: seq<nat>, those: set<nat>)
    ensures forall t :: t in Only(s, those) <==> t in s && t in those
    ensures forall t :: t in Others(s, those) <==> t in s && t !in those
  {
    if s != [] {
      OnlyIs(s[1..], those);
      assert s == [s[0]] + s[1..];
    }
  }

  lemma {:induction false} WokenIs(m: Mem, s: seq<nat>, pid: nat, ppid: nat, those: set<nat>)
    requires AllIn(s, m)
    requires forall i :: 0 <= i < |s| ==>
               (s[i] in those <==> (m[s[i]].blockOn == 0 && m[s[i]].pid == ppid) || m[s[i]].blockOn == pid)
    ensures Woken(m, s, pid, ppid) == Only(s, those) && Asleep(m, s, pid, ppid) == Others(s, those)
  {
    if s != [] {
      assert s[0] in m;
      WokenIs(m, s[1..], pid, ppid, those);
    }
  }

  /** task_wakeup_children moves exactly the waiters to the end of the run queue, in the order of the
      blocked list, and leaves the others there in theirs. */
  lemma {:induction false} WakeupMovesWaiters(k: K, pid: nat, ppid: nat)
    requires Lists(k)
    ensures var k' := WakeFrom(k, 0, pid, ppid);
            k'.rq == k.rq + Only(k.bl, Waiters(k, pid, ppid)) && k'.bl == Others(k.bl, Waiters(k, pid, ppid))
  {
    WakeFromQueues(k, 0, pid, ppid);
    assert k.bl[0..] == k.bl && k.bl[..0] == [];
    WokenIs(k.mem, k.bl, pid, ppid, Waiters(k, pid, ppid));
  }

  /** Where the blocked tasks are after the wakeups and the switch. */
  ghost predicate WokeExactly(k: K, k': K)
    requires k.current in k.mem
  {
    && k.rq != [] && k'.current == k.rq[0]
    && k'.rq == k.rq[1..] + Only(k.bl, Callers(k)) && k'.bl == Others(k.bl, Callers(k))
    && forall t :: t in k.bl ==>
         && t in k.mem && t in k'.mem
         && (k'.mem[t].state == Ready && t in k'.rq <==> t in Callers(k))
         && (t !in Callers(k) ==> k'.mem[t].state == k.mem[t].state && t in k'.bl)
  }

  /** An exit queues exactly the callers, in the order of the blocked list, behind the tasks that were
      ready; every other blocked task stays as it is, in its order. The next task runs. */
  lemma {:induction false} ExitWakesCallers(s: Sys, code: nat, s': Sys)
    requires Follows(s, Exit(code), s')
    ensures s.k.current in s.k.mem && WokeExactly(s.k, s'.k)
  {
    ExitIs(s, code);
    IsStable(s);
    var status := ToInt32(code);
    ExitQueues(s.k, status);
    ExitSwitches(s.k, status);
    AfterExit(s.k, ExitWoken(s.k, status), s'.k);
  }

  lemma {:induction false} ExitSwitches(k: K, status: int)
    requires Stable(k) && k.current != k.boot
    ensures var k1 := ExitWoken(k, status);
            && k1.current in k1.mem && (k1.rq != [] ==> k1.head in k1.mem)
            && Switched(k, k1, Scheduled(k1))
  {
    var k1 := ExitWoken(k, status);
    ExitWokenOk(k, status);
    ScheduledStable(k1);
    ScheduledFields(k1);
    ScheduledTasks(k1);
    WantsThrough(k.mem, Died(k, status).mem, k1.mem, Scheduled(k1).mem, k.current);
  }

  /** The task that left is not queued again. */
  ghost predicate Switched(k: K, k1: K, k': K)
  {
    && Stable(k') && k'.bl == k1.bl && (k1.rq != [] ==> k'.current == k1.rq[0] && k'.rq == k1.rq[1..])
    && k'.mem.Keys == k.mem.Keys
  }

  lemma {:induction false} ExitQueues(k: K, status: int)
    requires Stable(k) && k.current != k.boot
    ensures var k1 := ExitWoken(k, status);
            k1.rq == k.rq + Only(k.bl, Callers(k)) && k1.bl == Others(k.bl, Callers(k)) && k.rq != []
  {
    var k0 := Died(k, status);
    DiedLists(k, status);
    assert InPlace(k, k.current) && InPlace(k, k.boot);
    WakeupMovesWaiters(k0, k.mem[k.current].pid, k.mem[k.current].ppid);
    assert Waiters(k0, k.mem[k.current].pid, k.mem[k.current].ppid) == Callers(k);
  }

  lemma {:induction false} AfterExit(k: K, k1: K, k': K)
    requires Stable(k) && k1.rq == k.rq + Only(k.bl, Callers(k)) && k1.bl == Others(k.bl, Callers(k)) && k.rq != []
    requires Switched(k, k1, k')
    ensures WokeExactly(k, k')
  {
    OnlyIs(k.bl, Callers(k));
    RestOf(k.rq, Only(k.bl, Callers(k)));
    forall t | t in k.bl
      ensures t in k.mem && t in k'.mem
      ensures k'.mem[t].state == Ready && t in k'.rq <==> t in Callers(k)
      ensures t !in Callers(k) ==> k'.mem[t].state == k.mem[t].state && t in k'.bl
    {
      BlockedTask(k, k', t, t in Callers(k));
    }
  }

  lemma RestOf(a: seq<nat>, b: seq<nat>)
    requires a != []
    ensures (a + b)[0] == a[0] && (a + b)[1..] == a[1..] + b && forall t :: t in b ==> t in a[1..] + b
  {
  }

  lemma BlockedTask(k: K, k': K, t: nat, woken: bool)
    requires Lists(k) && PlacesBut(k, NULL) && NULL !in k'.mem && PlacesBut(k', NULL) && t in k.bl
    requires k'.mem.Keys == k.mem.Keys && if woken then t in k'.rq else t in k'.bl
    ensures t in k.mem && t in k'.mem
    ensures k'.mem[t].state == Ready && t in k'.rq <==> woken
    ensures !woken ==> k'.mem[t].state == k.mem[t].state
  {
    assert t in k.mem && InPlace(k, t) && InPlace(k', t);
  }

  /** The current task is left as a zombie with its pid and parent and the given status; every other task
      that neither was blocked nor runs next keeps all but its link. */
  ghost predicate LeftAs(k: K, k': K, status: int)
  {
    && k.current in k.mem && k'.mem.Keys == k.mem.Keys
    && k'.mem[k.current] == k.mem[k.current].(state := Zombie, exitStatus := status, next := k'.mem[k.current].next)
    && forall t :: t in k.mem && t != k.current && t !in k.bl && t != k'.current ==>
                     k'.mem[t] == k.mem[t].(next := k'.mem[t].next)
  }

  /** An exit leaves the current task as a zombie with the low 32 bits of the code, signed. */
  lemma {:induction false} ExitLeavesZombie(s: Sys, code: nat, s': Sys) returns (status: int)
    requires Follows(s, Exit(code), s')
    ensures LeftAs(s.k, s'.k, status)
    ensures -0x8000_0000 <= status < 0x8000_0000 && (status - code) % 0x1_0000_0000 == 0
  {
    status := ToInt32(code);
    ExitLeft(s, code, s');
  }

  lemma {:induction false} ExitLeft(s: Sys, code: nat, s': Sys)
    requires Follows(s, Exit(code), s')
    ensures LeftAs(s.k, s'.k, ToInt32(code))
  {
    ExitIs(s, code);
    IsStable(s);
    ZombieLeft(s.k, ToInt32(code));
  }

  lemma {:induction false} ZombieLeft(k: K, status: int)
    requires Stable(k) && k.current != k.boot
    ensures var k1 := ExitWoken(k, status);
            && k1.current in k1.mem && (k1.rq != [] ==> k1.head in k1.mem)
            && LeftAs(k, Scheduled(k1), status)
  {
    var k1 := ExitWoken(k, status);
    ExitWokenOk(k, status);
    ScheduledTasks(k1);
    WantsThrough(k.mem, Died(k, status).mem, k1.mem, Scheduled(k1).mem, k.current);
    OthersKeep(k, Died(k, status), k1, Scheduled(k1), status);
  }

  lemma OthersKeep(k: K, k0: K, k1: K, k': K, status: int)
    requires NULL !in k.mem && PlacesBut(k, NULL) && k.current in k.mem && k0 == Died(k, status)
    requires SameTasks(k0.mem, k1.mem) && SameTasks(k1.mem, k'.mem) && k1.current == k.current
    requires k1.mem[k.current].state == Zombie && NULL !in k1.mem && PlacesBut(k1, NULL)
    requires forall t :: t in k.mem && t != k.current ==>
               k1.mem[t].state == k.mem[t].state || (k.mem[t].state == Blocked && k1.mem[t].state == Ready)
    requires forall t :: t in k1.mem && t != k1.current && t != k'.current ==> k'.mem[t].state == k1.mem[t].state
    requires k'.mem[k.current].state == Zombie
    ensures LeftAs(k, k', status)
  {
    forall t | t in k.mem && t != k.current && t !in k.bl && t != k'.current
      ensures k'.mem[t] == k.mem[t].(next := k'.mem[t].next)
    {
      assert InPlace(k, t) && InPlace(k1, t);
    }
  }

  // ---------- wait4 ----------

  /** z is a zombie child of the task with the given pid that a wait4 for `want` asks for. */
  predicate AskedFor(pid: nat, z: Tcb, want: nat)
  {
    z.state == Zombie && z.ppid == pid && (want == 0xFFFF_FFFF_FFFF_FFFF || z.pid == want)
  }

  /** z is returned to the current task: its pid and status are handed over, it is dead, and nothing else
      changes. */
  ghost predicate HandsOver(s: Sys, s': Sys, z: nat)
  {
    && z in s.k.mem && s.k.current in s.k.mem && z != s.k.current
    && s' == s.(k := s'.k, reaped := s.reaped + [(s.k.mem[z].pid, s.k.mem[z].exitStatus)])
    && s'.k == s.k.(mem := s'.k.mem) && s'.k.mem.Keys == s.k.mem.Keys
    && s'.k.mem[z] == s.k.mem[z].(state := Dead)
    && s'.k.mem[s.k.current] == s.k.mem[s.k.current].(want := NotWaiting)
    && forall t :: t in s.k.mem && t != z && t != s.k.current ==> s'.k.mem[t] == s.k.mem[t]
  }

  ghost predicate NoneAsked(s: Sys, want: nat)
    requires s.k.current in s.k.mem
  {
    forall z :: z in s.k.mem ==> !AskedFor(s.k.mem[s.k.current].pid, s.k.mem[z], want)
  }

  /** Of the children asked for, element i of the registry was registered last. */
  ghost predicate Newest(m: Mem, reg: seq<nat>, pid: nat, want: nat, i: nat)
    requires AllIn(reg, m)
  {
    && i < |reg| && AskedFor(pid, m[reg[i]], want)
    && forall j :: 0 <= j < i ==> !AskedFor(pid, m[reg[j]], want)
  }

  /** The search ends with the newest of them, or with NULL if there is none. */
  ghost predicate EndsWith(m: Mem, reg: seq<nat>, pid: nat, want: nat, z: nat)
    requires AllIn(reg, m)
  {
    if z == NULL then forall j :: 0 <= j < |reg| ==> !AskedFor(pid, m[reg[j]], want)
    else exists i: nat :: Newest(m, reg, pid, want, i) && z == reg[i]
  }

  /** The first pass of wait4 hands over the newest child asked for if there is one; if there is none, and
      only then, the caller sleeps in front of the blocked list. */
  lemma {:induction false} WaitReturnsIff(s: Sys, want: nat, s': Sys)
    requires Follows(s, Wait(want), s')
    ensures s.k.current in s.k.mem && AllIn(s.k.reg, s.k.mem)
    ensures s'.reaped == s.reaped <==> NoneAsked(s, want)
    ensures NoneAsked(s, want) ==> SleepsInFront(s.k, s'.k, want)
    ensures !NoneAsked(s, want) ==> exists i: nat ::
              Newest(s.k.mem, s.k.reg, s.k.mem[s.k.current].pid, want, i) && HandsOver(s, s', s.k.reg[i])
  {
    WaitIs(s, want);
    IsStable(s);
    NoneFoundIff(s, want);
    var z := Found(s.k, want);
    if z != NULL {
      SearchEndsWith(s.k.mem, s.k.reg, s.k.mem[s.k.current].pid, want);
      ReturnHandsOver(s, z);
    } else {
      Sleeps(s.k, want);
    }
  }

  lemma {:induction false} NoneFoundIff(s: Sys, want: nat)
    requires Stable(s.k)
    ensures NoneAsked(s, want) <==> Found(s.k, want) == NULL
  {
    FoundIff(s.k, want);
    assert NoneAsked(s, want) <==> NoneWanted(s.k.mem, s.k.mem[s.k.current].pid, want);
  }

  lemma ReturnHandsOver(s: Sys, z: nat)
    requires s.k.current in s.k.mem && z in s.k.mem && z != s.k.current
    ensures HandsOver(s, ReturnStep(s, z), z)
  {
  }

  ghost predicate SleepsInFront(k: K, k': K, want: nat)
  {
    && k.current in k'.mem && k'.bl == [k.current] + k.bl
    && k'.mem[k.current].state == Blocked && k'.mem[k.current].want == Waiting(want)
  }

  /** A later pass that finds z hands it over, and z is a child asked for; one that finds nothing does so
      exactly when there is no such child, and changes nothing else. */
  lemma {:induction false} LookReturnsIff(s: Sys, z: nat, s': Sys)
    requires Follows(s, Look(z), s')
    ensures s.k.current in s.k.mem && s.k.mem[s.k.current].want.Waiting?
    ensures var me := s.k.mem[s.k.current];
            && (z == NULL <==> NoneAsked(s, me.want.pid)) && (z == NULL <==> s'.reaped == s.reaped)
            && (z != NULL ==> z in s.k.mem && AskedFor(me.pid, s.k.mem[z], me.want.pid) && HandsOver(s, s', z))
            && (z == NULL ==> s' == s.(k := s.k.(mem := s.k.mem[s.k.current := me.(want := Looked(me.want.pid))])))
  {
    IsStable(s);
    LookIsStep(s, z);
    if z != NULL { ReturnHandsOver(s, z); }
  }

  lemma {:induction false} LookIsStep(s: Sys, z: nat)
    requires Good(s) && Enabled(s, Look(z))
    ensures z != NULL ==> z in s.k.mem
    ensures Step(s, Look(z)) == LookStep(s, s.k.mem[s.k.current].want.pid, z)
  {
  }

  /** task_find_zombie, by recursion. */
  lemma {:induction false} SearchEndsWith(m: Mem, reg: seq<nat>, pid: nat, want: nat)
    requires AllIn(reg, m) && NULL !in m
    ensures EndsWith(m, reg, pid, want, FindZombie(m, reg, pid, want))
  {
    if reg != [] {
      assert reg[0] in m;
      var rest, z := reg[1..], FindZombie(m, reg, pid, want);
      SearchEndsWith(m, rest, pid, want);
      if AskedFor(pid, m[reg[0]], want) {
        assert Newest(m, reg, pid, want, 0);
      } else if z != NULL {
        var i: nat :| Newest(m, rest, pid, want, i) && z == rest[i];
        assert Newest(m, reg, pid, want, i + 1) && z == reg[i + 1];
      } else {
        assert forall j :: 0 < j < |reg| ==> reg[j] == rest[j - 1];
      }
    }
  }

  lemma {:induction false} Sleeps(k: K, want: nat)
    requires Stable(k) && k.current != k.boot
    ensures var k1 := BlockedAny(k, want);
            && (k1.rq != [] ==> k1.head in k1.mem) && SleepsInFront(k, Scheduled(k1), want)
  {
    var k1 := BlockedAny(k, want);
    SleepOk(k, want);
    ScheduledTasks(k1);
    ScheduledFields(k1);
    WantsThrough(k.mem, k1.mem, k1.mem, Scheduled(k1).mem, k.current);
  }

  // ---------- fork ----------

  /** A new task at `at` has the next pid, which no task has, and the given parent; it is ready, last in the
      queue and first in the registry. Every other task keeps all but its link. */
  ghost predicate Spawns(k: K, k': K, at: nat, ppid: nat)
  {
    && at !in k.mem && k'.mem.Keys == k.mem.Keys + {at} && k'.nextPid == k.nextPid + 1
    && k'.mem[at].pid == k.nextPid && k'.mem[at].ppid == ppid && k'.mem[at].state == Ready
    && k'.mem[at].want == NotWaiting && (forall t :: t in k.mem ==> k.mem[t].pid != k'.mem[at].pid)
    && k'.rq == k.rq + [at] && k'.reg == [at] + k.reg && k'.bl == k.bl && k'.current == k.current
    && forall t :: t in k.mem ==> k'.mem[t] == k.mem[t].(next := k'.mem[t].next)
  }

  lemma SpawnedSpawns(k: K, at: nat, ppid: nat)
    requires Stable(k) && at != NULL && at !in k.mem
    ensures Spawns(k, Spawned(k, at, ppid), at, ppid)
  {
    SpawnedLists(k, at, ppid);
    SpawnedTasks(k, at, ppid);
    SpawnedRegistry(k, at, ppid);
  }

  /** The child of a fork has the caller as its parent. */
  lemma {:induction false} ForkMakesChild(s: Sys, at: nat, s': Sys)
    requires Follows(s, Fork(at), s')
    ensures s.k.current in s.k.mem && Spawns(s.k, s'.k, at, s.k.mem[s.k.current].pid)
  {
    ForkIs(s, at);
    IsStable(s);
    SpawnedSpawns(s.k, at, s.k.mem[s.k.current].pid);
  }

  lemma SpawnedRegistry(k: K, at: nat, ppid: nat)
    ensures Spawned(k, at, ppid).reg == [at] + k.reg
  {
  }

  // ---------- The timer ----------

  /** The head of the queue runs, and the task that ran goes to its end, if it still runs. */
  ghost predicate TakesTurn(k: K, k': K)
  {
    && k.current in k.mem && k.rq != [] && k'.current == k.rq[0] && k'.bl == k.bl
    && k'.rq == k.rq[1..] + if k.mem[k.current].state == Running then [k.current] else []
  }

  /** A tick takes the processor away when a yield has asked for it or the tick is the second of the slice;
      otherwise it only counts. */
  lemma {:induction false} TickSwitchesIff(s: Sys, s': Sys)
    requires Follows(s, Tick, s')
    ensures s.need || s.ticks == 1 ==> s'.ticks == 0 && !s'.need
    ensures s.need || s.ticks == 1 ==> if s.k.rq == [] then s'.k == s.k else TakesTurn(s.k, s'.k)
    ensures !(s.need || s.ticks == 1) ==> s' == s.(ticks := 1)
  {
    TickIs(s);
    Open(s);
    ScheduledStable(s.k);
    ScheduledFields(s.k);
  }

  /** After a yield the next tick switches. */
  lemma {:induction false} YieldGivesWay(s: Sys, s1: Sys, s2: Sys)
    requires Follows(s, Yield, s1) && Follows(s1, Tick, s2)
    ensures s1.k == s.k && (s.k.rq != [] ==> TakesTurn(s.k, s2.k))
  {
    TickSwitchesIff(s1, s2);
  }
}
