/** The scheduler as it runs: list heads, counters and task structures updated in place, each call
    proved equal to the step it stands for (core/cpu/sched.c, core/cpu/task.c, and the exit, fork,
    wait4 and yield arms of core/cpu/syscall.c). */
module Kernel {
  import opened Common
  import opened Sched
  import opened Syscalls
  import opened Processes
  import opened Runs
  import opened Steps
  import C = Calls

  class Kernel {
    /** Task structures by address. */
    var mem: Mem
    var head: nat
    var tail: nat
    var size: int
    var blocked: nat
    var all: nat
    var current: nat
    var boot: nat
    var nextPid: nat
    var ticks: nat
    var need: bool
    /** The lists that the links spell out, and the record of exits and returns. */
    ghost var rq: seq<nat>
    ghost var bl: seq<nat>
    ghost var reg: seq<nat>
    ghost var byPid: map<nat, nat>
    ghost var exits: map<nat, int>
    ghost var reaped: seq<(nat, int)>

    ghost function S(): K
      reads this
    {
      K(mem, head, tail, size, blocked, all, current, boot, nextPid, rq, bl, reg, byPid)
    }

    ghost function State(): Sys
      reads this
    {
      Sys(S(), ticks, need, exits, reaped)
    }

    /** task_init and sched_init. */
    constructor (at: nat)
      requires at != NULL
      ensures State() == Boot(at) && Good(State())
    {
      mem := map[at := Tcb(1, 0, Running, 0, 0, NULL, NULL, NotWaiting)];
      head, tail, size, blocked := NULL, NULL, 0, NULL;
      all, current, boot, nextPid := at, at, at, 2;
      ticks, need := 0, false;
      rq, bl, reg, byPid, exits, reaped := [], [], [at], map[1 := at], map[], [];
      new;
      BootOk(at);
    }

    /** sched_enqueue. */
    method Enqueue(t: nat)
      requires t in mem && (tail == NULL || tail in mem)
      modifies this`mem, this`head, this`tail, this`size, this`rq
      ensures S() == Enqueued(old(S()), t)
    {
      mem := mem[t := mem[t].(next := NULL)];
      if tail != NULL {
        mem := mem[tail := mem[tail].(next := t)];
      } else {
        head := t;
      }
      tail := t;
      size := size + 1;
      rq := rq + [t];
    }

    /** dequeue. */
    method Dequeue(ghost k: K) returns (t: nat)
      requires k == S() && (if k.rq == [] then k.head == NULL else k.head in k.mem && k.head != NULL)
      modifies this`mem, this`head, this`tail, this`size, this`rq
      ensures k.rq == [] ==> t == NULL && S() == k
      ensures k.rq != [] ==> t == k.head && t in k.mem && t != NULL && S() == Dequeued(k)
    {
      t := head;
      if t == NULL { return; }
      head := mem[t].next;
      if head == NULL { tail := NULL; }
      mem := mem[t := mem[t].(next := NULL)];
      size := size - 1;
      rq := rq[1..];
    }

    /** schedule, up to the switch. */
    method Schedule(ghost k: K)
      requires k == S() && Schedulable(k)
      modifies this`mem, this`head, this`tail, this`size, this`rq, this`current
      ensures S() == Scheduled(k)
    {
      var next := Dequeue(k);
      if next == NULL {
        // the halting branch is not reached
        assert mem[current].state == Running;
        return;
      }
      RequeueCurrent(Dequeued(k));
      SwitchTo(PutBack(Dequeued(k)), next);
    }

    method RequeueCurrent(ghost k: K)
      requires k == S() && k.current in k.mem && (k.tail == NULL || k.tail in k.mem)
      modifies this`mem, this`head, this`tail, this`size, this`rq
      ensures S() == PutBack(k)
    {
      if mem[current].state == Running {
        mem := mem[current := mem[current].(state := Ready)];
        Enqueue(current);
      }
    }

    method SwitchTo(ghost k: K, next: nat)
      requires k == S() && next in k.mem
      modifies this`mem, this`current
      ensures S() == SetState(k, next, Running).(current := next)
    {
      mem := mem[next := mem[next].(state := Running)];
      current := next;
    }

    /** task_block_any. */
    method BlockAny(ghost k: K, want: nat)
      requires k == S() && k.current in k.mem && Schedulable(BlockedAny(k, want))
      modifies this`mem, this`head, this`tail, this`size, this`rq, this`blocked, this`bl, this`current
      ensures S() == Scheduled(BlockedAny(k, want))
    {
      PushBlocked(k, want);
      Schedule(BlockedAny(k, want));
    }

    method PushBlocked(ghost k: K, want: nat)
      requires k == S() && k.current in k.mem
      modifies this`mem, this`blocked, this`bl
      ensures S() == BlockedAny(k, want)
    {
      mem := mem[current := mem[current].(state := Blocked, blockOn := 0, next := blocked, want := Waiting(want))];
      blocked := current;
      bl := [current] + bl;
    }

    /** *pp = t->next: the slot before element i of the blocked list is `blocked` or the link of prev. */
    method Unlink(ghost k: K, ghost i: nat, prev: nat, t: nat)
      requires k == S() && AllIn(k.bl, k.mem) && NULL !in k.mem && i < |k.bl| && t == k.bl[i] && prev == Before(k.bl, i)
      modifies this`mem, this`blocked, this`bl
      ensures S() == Unlinked(k, i)
    {
      assert k.bl[i] in k.mem;
      assert i > 0 ==> k.bl[i - 1] in k.mem;
      if prev == NULL {
        blocked := mem[t].next;
      } else {
        mem := mem[prev := mem[prev].(next := mem[t].next)];
      }
      mem := mem[t := mem[t].(next := NULL)];
      bl := bl[..i] + bl[i + 1..];
    }

    method Wake(ghost k: K, ghost i: nat, prev: nat, t: nat)
      requires k == S() && Lists(k) && i < |k.bl| && t == k.bl[i] && prev == Before(k.bl, i)
      modifies this`mem, this`head, this`tail, this`size, this`rq, this`blocked, this`bl
      ensures S() == WokeOne(k, i)
    {
      UnlinkedTask(k, i);
      Unlink(k, i, prev, t);
      mem := mem[t := mem[t].(state := Ready)];
      Enqueue(t);
    }

    /** task_wakeup_children: pp is the slot after prev, or `blocked` when prev is NULL. */
    method WakeupChildren(ghost k: K, pid: nat, ppid: nat)
      requires k == S() && Tidy(k) && AllIn(k.bl, k.mem)
      modifies this`mem, this`head, this`tail, this`size, this`rq, this`blocked, this`bl
      ensures S() == WakeFrom(k, 0, pid, ppid)
      ensures rq == k.rq + C.Only(k.bl, C.Waiters(k, pid, ppid)) && bl == C.Others(k.bl, C.Waiters(k, pid, ppid))
    {
      OpenLists(k);
      C.WakeupMovesWaiters(k, pid, ppid);
      var prev, t := NULL, blocked;
      ghost var i, x := 0, k;
      while t != NULL
        invariant x == S() && Lists(x) && i <= |x.bl| && prev == Before(x.bl, i) && t == SlotAt(x, i)
        invariant WakeFrom(k, 0, pid, ppid) == WakeFrom(x, i, pid, ppid)
        decreases |x.bl| - i
      {
        SlotIsTask(x, i);
        if Matches(mem[t], pid, ppid) {
          WokeOneLists(x, i);
          WokeOneFields(x, i);
          WokeOneKeys(x, i);
          Wake(x, i, prev, t);
          BeforeSame(x.bl, WokeOne(x, i).bl, i);
          x := WokeOne(x, i);
        } else {
          prev := t;
          i := i + 1;
        }
        SlotIsNext(x, i);
        t := if prev == NULL then blocked else mem[prev].next;
      }
      SlotIsTask(x, i);
    }

    /** task_find_zombie. */
    method FindZombieTask(ghost k: K, ppid: nat, want: nat) returns (z: nat)
      requires k == S() && Tidy(k) && AllIn(k.reg, k.mem)
      ensures z == FindZombie(k.mem, k.reg, ppid, want) && C.EndsWith(k.mem, k.reg, ppid, want, z)
    {
      z := Search(k, ppid, want);
      OpenLists(k);
      C.SearchEndsWith(k.mem, k.reg, ppid, want);
    }

    /** Its loop. */
    method Search(ghost k: K, ppid: nat, want: nat) returns (z: nat)
      requires k == S() && Tidy(k) && AllIn(k.reg, k.mem)
      ensures z == FindZombie(k.mem, k.reg, ppid, want)
    {
      OpenLists(k);
      z := all;
      ghost var i := 0;
      assert k.reg[0..] == k.reg;
      while z != NULL
        invariant i <= |k.reg| && z == RegistrySlot(k, i)
        invariant AllIn(k.reg[i..], k.mem)
        invariant FindZombie(k.mem, k.reg, ppid, want) == FindZombie(k.mem, k.reg[i..], ppid, want)
        decreases |k.reg| - i
      {
        RegistryIsTask(k, i);
        assert k.reg[i..][1..] == k.reg[i + 1..];
        if mem[z].state == Zombie && mem[z].ppid == ppid && (want == ANY || mem[z].pid == want) { return; }
        z := mem[z].nextAll;
        i := i + 1;
      }
      RegistryIsTask(k, i);
    }

    /** SYS_exit after its message: a zombie, whose waiters wake. */
    method LeaveForGood(ghost k: K, status: int)
      requires k == S() && k.current in k.mem && AllIn(k.bl, k.mem) && Tidy(Died(k, status))
      requires Schedulable(ExitWoken(k, status))
      modifies this`mem, this`head, this`tail, this`size, this`rq, this`blocked, this`bl, this`current
      ensures S() == Scheduled(ExitWoken(k, status))
    {
      var pid, ppid := mem[current].pid, mem[current].ppid;
      Leave(k, status);
      WakeupChildren(Died(k, status), pid, ppid);
      Schedule(ExitWoken(k, status));
    }

    method Leave(ghost k: K, status: int)
      requires k == S() && k.current in k.mem
      modifies this`mem
      ensures S() == Died(k, status)
    {
      mem := mem[current := mem[current].(exitStatus := status)];
      mem := mem[current := mem[current].(state := Zombie)];
    }

    /** task_register, task_alloc_pid and sched_enqueue for a new task at `at`. */
    method Spawn(ghost k: K, at: nat, ppid: nat)
      requires k == S() && (k.tail == NULL || k.tail in k.mem)
      modifies this`mem, this`head, this`tail, this`size, this`rq, this`all, this`reg, this`nextPid, this`byPid
      ensures S() == Spawned(k, at, ppid)
    {
      var t := Tcb(0, ppid, Ready, 0, 0, NULL, NULL, NotWaiting);
      t := t.(nextAll := all);
      all := at;
      t := t.(pid := nextPid);
      mem := mem[at := t];
      reg := [at] + reg;
      byPid := byPid[nextPid := at];
      nextPid := nextPid + 1;
      Enqueue(at);
    }

    /** wait4 returns z. */
    method Return(ghost k: K, z: nat) returns (pid: nat, status: int)
      requires k == S() && z in k.mem && k.current in k.mem
      modifies this`mem, this`reaped
      ensures S() == Reaped(k, z) && pid == k.mem[z].pid && status == k.mem[z].exitStatus
      ensures reaped == old(reaped) + [(pid, status)]
    {
      pid, status := mem[z].pid, mem[z].exitStatus;
      reaped := reaped + [(pid, status)];
      mem := mem[z := mem[z].(state := Dead)];
      mem := mem[current := mem[current].(want := NotWaiting)];
    }

    /** The test of sched_tick: the second tick of a slice is due, and so is the first after a yield. */
    method CountTick() returns (due: bool)
      modifies this`ticks, this`need
      ensures due <==> old(need) || old(ticks) + 1 >= TIME_SLICE
      ensures if due then ticks == 0 && !need else ticks == old(ticks) + 1 && need == old(need)
    {
      if !need {
        ticks := ticks + 1;
        if ticks < TIME_SLICE { return false; }
      }
      need := false;
      ticks := 0;
      return true;
    }

    // ---------- What happens from outside: each call is one step ----------

    /** sched_tick. */
    method Tick()
      requires Good(State())
      modifies this
      ensures Good(old(State())) && Enabled(old(State()), Event.Tick)
      ensures State() == Step(old(State()), Event.Tick) && Good(State())
    {
      ghost var s := State();
      TickIs(s);
      var due := CountTick();
      if due { Schedule(s.k); }
    }

    /** task_yield. */
    method Yield()
      requires Good(State()) && Enabled(State(), Event.Yield)
      modifies this
      ensures State() == Step(old(State()), Event.Yield) && Good(State())
    {
      StepGood(State(), Event.Yield);
      ticks := 0;
      need := true;
    }

    /** SYS_exit. */
    method Exit(code: nat)
      requires Good(State()) && Enabled(State(), Event.Exit(code))
      modifies this
      ensures State() == Step(old(State()), Event.Exit(code)) && Good(State())
      ensures C.WokeExactly(old(S()), S())
    {
      ghost var s := State();
      C.ExitWakesCallers(s, code, Step(s, Event.Exit(code)));
      var status := ToInt32(code);
      ExitIs(s, code);
      exits := exits[mem[current].pid := status];
      LeaveForGood(s.k, status);
    }

    /** do_fork, for the task structure at the address that kzalloc gave, or NULL: the child's pid is the
        next one. */
    method Fork(at: nat) returns (pid: nat)
      requires Good(State()) && (at != NULL ==> Enabled(State(), Event.Fork(at)))
      modifies this
      ensures at == NULL ==> pid == NULL && State() == old(State())
      ensures at != NULL ==> State() == Step(old(State()), Event.Fork(at)) && Good(State())
      ensures at != NULL ==> at in mem && pid == mem[at].pid == old(nextPid)
    {
      if at == NULL { return NULL; }
      ghost var s := State();
      ForkIs(s, at);
      Spawn(s.k, at, mem[current].pid);
      pid := mem[at].pid;
    }

    /** user_task_create. */
    method Create(at: nat)
      requires Good(State()) && Enabled(State(), Event.Create(at))
      modifies this
      ensures State() == Step(old(State()), Event.Create(at)) && Good(State())
    {
      ghost var s := State();
      CreateIs(s, at);
      Spawn(s.k, at, 0);
    }

    /** sched_start. */
    method Start()
      requires Good(State()) && Enabled(State(), Event.Start)
      modifies this
      ensures State() == Step(old(State()), Event.Start) && Good(State())
    {
      ghost var s := State();
      StartIs(s);
      Schedule(s.k);
    }

    /** The first pass of SYS_wait4: the pid it returns and its status, or NULL when it blocks. */
    method Wait4(want: nat) returns (pid: nat, status: int)
      requires Good(State()) && Enabled(State(), Wait(want))
      modifies this
      ensures State() == Step(old(State()), Wait(want)) && Good(State())
      ensures reaped == if pid != NULL then old(reaped) + [(pid, status)] else old(reaped)
    {
      ghost var s := State();
      WaitIs(s, want);
      var z := FindZombieTask(s.k, mem[current].pid, want);
      pid, status := NULL, 0;
      if z != NULL {
        pid, status := Return(s.k, z);
      } else {
        BlockAny(s.k, want);
      }
    }

    /** The search of a later pass of SYS_wait4: it returns, or goes on to block. */
    method LookAgain() returns (pid: nat, status: int, ghost found: nat)
      requires Good(State()) && current in mem && mem[current].want.Waiting? && current != boot
      modifies this
      ensures Enabled(old(State()), Look(found))
      ensures State() == Step(old(State()), Look(found)) && Good(State())
      ensures reaped == if pid != NULL then old(reaped) + [(pid, status)] else old(reaped)
    {
      ghost var s := State();
      var want := mem[current].want.pid;
      CanLook(s);
      var z := FindZombieTask(s.k, mem[current].pid, want);
      LookIs(s, z);
      found := z;
      pid, status := NULL, 0;
      if z != NULL {
        pid, status := Return(s.k, z);
      } else {
        mem := mem[current := mem[current].(want := Looked(want))];
      }
    }

    /** task_block_any in a later pass: the state. */
    method MarkAgain()
      requires Good(State()) && Enabled(State(), Mark)
      modifies this
      ensures State() == Step(old(State()), Mark) && Good(State())
    {
      PartIs(State(), Mark);
      var want := mem[current].want.pid;
      mem := mem[current := mem[current].(state := Blocked, want := Marked(want))];
      mem := mem[current := mem[current].(blockOn := 0)];
    }

    /** The link. */
    method PushAgain()
      requires Good(State()) && Enabled(State(), Push)
      modifies this
      ensures State() == Step(old(State()), Push) && Good(State())
    {
      PartIs(State(), Push);
      var want := mem[current].want.pid;
      mem := mem[current := mem[current].(next := blocked, want := Pushed(want))];
      blocked := current;
      bl := [current] + bl;
    }

    /** The call of schedule, which returns into the next pass. */
    method CallAgain()
      requires Good(State()) && Enabled(State(), Call)
      modifies this
      ensures State() == Step(old(State()), Call) && Good(State())
    {
      ghost var s := State();
      var want := mem[current].want.pid;
      CallIs(s);
      mem := mem[current := mem[current].(want := Waiting(want))];
      Schedule(Calling(s.k, want));
    }
  }

  lemma UnlinkedTask(k: K, i: nat)
    requires Lists(k) && i < |k.bl|
    ensures var k1 := Unlinked(k, i);
            k.bl[i] in k1.mem && (k1.tail == NULL || k1.tail in k1.mem)
  {
    TailIsTask(k);
    assert k.bl[i] in k.mem;
  }

  ghost function Before(s: seq<nat>, i: nat): nat
    requires i <= |s|
  {
    if i == 0 then NULL else s[i - 1]
  }

  lemma BeforeSame(s: seq<nat>, r: seq<nat>, i: nat)
    requires i < |s| && r == s[..i] + s[i + 1..]
    ensures Before(r, i) == Before(s, i)
  {
  }

  lemma SlotIsNext(k: K, i: nat)
    requires Lists(k) && i <= |k.bl|
    ensures var p := Before(k.bl, i);
            (p != NULL ==> p in k.mem) && SlotAt(k, i) == if p == NULL then k.blocked else k.mem[p].next
  {
    if i > 0 { assert k.bl[i - 1] in k.mem; }
  }

  /** What the slot before element i of the blocked list holds. */
  ghost function SlotAt(k: K, i: nat): nat
    requires Lists(k) && i <= |k.bl|
  {
    if i == 0 then k.blocked else (assert k.bl[i - 1] in k.mem; k.mem[k.bl[i - 1]].next)
  }

  lemma SlotIsTask(k: K, i: nat)
    requires Lists(k) && i <= |k.bl|
    ensures if i < |k.bl| then SlotAt(k, i) == k.bl[i] && k.bl[i] in k.mem && k.bl[i] != NULL else SlotAt(k, i) == NULL
  {
    if i < |k.bl| { assert k.bl[i] in k.mem; }
    if i > 0 { assert k.bl[i - 1] in k.mem; }
  }

  ghost function RegistrySlot(k: K, i: nat): nat
    requires Lists(k) && i <= |k.reg|
  {
    if i == 0 then k.all else (assert k.reg[i - 1] in k.mem; k.mem[k.reg[i - 1]].nextAll)
  }

  lemma RegistryIsTask(k: K, i: nat)
    requires Lists(k) && i <= |k.reg|
    ensures if i < |k.reg| then RegistrySlot(k, i) == k.reg[i] && k.reg[i] in k.mem && k.reg[i] != NULL
            else RegistrySlot(k, i) == NULL
  {
    if i < |k.reg| { assert k.reg[i] in k.mem; }
    if i > 0 { assert k.reg[i - 1] in k.mem; }
  }
}
