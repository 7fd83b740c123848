/** Tasks, the run queue and the list of blocked tasks (core/cpu/sched.c, core/cpu/task.c). Task
    structures live in a memory indexed by address; both lists run through the same link field. */
module Sched {
  import opened Common

  datatype State = Ready | Running | Dead | Zombie | Blocked

  /** The wait4 call a task is in, if any: the request in its saved frame, and how far a later pass of
      the loop has got: it has looked in vain, has marked itself blocked, or has linked itself into the
      blocked list and is about to call schedule. */
  datatype Want = NotWaiting | Waiting(pid: nat) | Looked(pid: nat) | Marked(pid: nat) | Pushed(pid: nat)

  /** (u64)-1 in wait4: any child. */
  const ANY: nat := 0xFFFF_FFFF_FFFF_FFFF

  const TIME_SLICE: nat := 2

  /** struct task. */
  datatype Tcb = Tcb(pid: nat, ppid: nat, state: State, exitStatus: int, blockOn: nat, next: nat, nextAll: nat,
                     want: Want)

  type Mem = map<nat, Tcb>

  ghost predicate AllIn(s: seq<nat>, m: Mem)
  {
    forall i :: 0 <= i < |s| ==> s[i] in m
  }

  /** The list that starts at `first` and runs through `next` is s. */
  ghost predicate Chain(m: Mem, first: nat, s: seq<nat>)
    requires AllIn(s, m)
  {
    && (s == [] ==> first == NULL)
    && (s != [] ==> first == s[0] && m[s[|s| - 1]].next == NULL)
    && (forall i :: 0 <= i < |s| - 1 ==> m[s[i]].next == s[i + 1])
  }

  /** The same for the registry and `nextAll`. */
  ghost predicate ChainAll(m: Mem, first: nat, s: seq<nat>)
    requires AllIn(s, m)
  {
    && (s == [] ==> first == NULL)
    && (s != [] ==> first == s[0] && m[s[|s| - 1]].nextAll == NULL)
    && (forall i :: 0 <= i < |s| - 1 ==> m[s[i]].nextAll == s[i + 1])
  }

  /** Lists are kept by writes that leave their links alone. */
  lemma ChainKeep(m: Mem, n: Mem, first: nat, s: seq<nat>)
    requires AllIn(s, m) && Chain(m, first, s)
    requires forall i :: 0 <= i < |s| ==> s[i] in n && n[s[i]].next == m[s[i]].next
    ensures AllIn(s, n) && Chain(n, first, s)
  {
  }

  lemma ChainAllKeep(m: Mem, n: Mem, first: nat, s: seq<nat>)
    requires AllIn(s, m) && ChainAll(m, first, s)
    requires forall i :: 0 <= i < |s| ==> s[i] in n && n[s[i]].nextAll == m[s[i]].nextAll
    ensures AllIn(s, n) && ChainAll(n, first, s)
  {
  }

  /** Linking t behind the last element. */
  lemma ChainAppend(m: Mem, n: Mem, first: nat, s: seq<nat>, t: nat)
    requires AllIn(s, m) && Chain(m, first, s) && Distinct(s) && t !in s
    requires t in n && n[t].next == NULL
    requires forall i :: 0 <= i < |s| - 1 ==> s[i] in n && n[s[i]].next == m[s[i]].next
    requires s != [] ==> s[|s| - 1] in n && n[s[|s| - 1]].next == t
    ensures AllIn(s + [t], n) && Chain(n, if s == [] then t else first, s + [t]) && Distinct(s + [t])
  {
  }

  /** Unlinking the first element. */
  lemma ChainRest(m: Mem, n: Mem, first: nat, s: seq<nat>)
    requires AllIn(s, m) && Chain(m, first, s) && Distinct(s) && s != [] && NULL !in m
    requires forall i :: 1 <= i < |s| ==> s[i] in n && n[s[i]].next == m[s[i]].next
    ensures AllIn(s[1..], n) && Chain(n, m[first].next, s[1..]) && Distinct(s[1..]) && s[0] !in s[1..]
    ensures m[first].next == NULL <==> |s| == 1
  {
    assert s[0] in m;
    if |s| > 1 { assert s[1] in m; }
  }

  /** The state of the scheduler: task memory, the list heads, the lists themselves, and who has which pid. */
  datatype K = K(mem: Mem, head: nat, tail: nat, size: int, blocked: nat, all: nat, current: nat, boot: nat,
                 nextPid: nat, rq: seq<nat>, bl: seq<nat>, reg: seq<nat>, byPid: map<nat, nat>)

  /** The lists are well formed and disjoint. */
  ghost predicate Lists(k: K)
  {
    && NULL !in k.mem && AllIn(k.rq, k.mem) && AllIn(k.bl, k.mem) && AllIn(k.reg, k.mem)
    && Chain(k.mem, k.head, k.rq) && Chain(k.mem, k.blocked, k.bl) && ChainAll(k.mem, k.all, k.reg)
    && k.tail == (if k.rq == [] then NULL else k.rq[|k.rq| - 1])
    && k.size == |k.rq|
    && Distinct(k.rq) && Distinct(k.bl) && Distinct(k.reg)
    && (forall j :: 0 <= j < |k.bl| ==> k.bl[j] !in k.rq)
    && (forall t :: t in k.mem ==> t in k.reg)
  }

  /** Where a task is follows from its state, for all tasks but one in transit. */
  ghost predicate PlacesBut(k: K, but: nat)
  {
    && k.current in k.mem && k.boot in k.mem
    && (forall t :: t in k.mem && t != but ==> InPlace(k, t))
    && (but in k.mem ==> but !in k.rq && but !in k.bl)
    && (k.mem[k.boot].state == Ready || k.mem[k.boot].state == Running)
  }

  /** A task that has marked itself and not linked itself yet is blocked, and on no list. */
  ghost predicate InPlace(k: K, t: nat)
    requires t in k.mem
  {
    && (t in k.rq <==> k.mem[t].state == Ready)
    && (t in k.bl <==> k.mem[t].state == Blocked && !k.mem[t].want.Marked?)
    && (k.mem[t].state == Running ==> t == k.current)
    && (k.mem[t].want.Marked? ==> k.mem[t].state == Blocked)
  }

  ghost predicate Pids(k: K)
  {
    forall t :: t in k.mem ==> 0 < k.mem[t].pid < k.nextPid && k.mem[t].pid in k.byPid && k.byPid[k.mem[t].pid] == t
  }

  /** One task runs, and it is `current`. */
  ghost predicate Stable(k: K)
  {
    Lists(k) && PlacesBut(k, NULL) && Pids(k) && k.mem[k.current].state == Running
  }

  /** The current task is inside task_block_any in a later pass of wait4. */
  predicate Blocking(k: K)
  {
    && k.current in k.mem && k.mem[k.current].state == Blocked
    && (k.mem[k.current].want.Marked? || k.mem[k.current].want.Pushed?)
  }

  /** What holds between steps. */
  ghost predicate Steady(k: K)
  {
    Lists(k) && PlacesBut(k, NULL) && Pids(k) && (k.mem[k.current].state == Running || Blocking(k))
  }

  /** sched_enqueue. */
  function Enqueued(k: K, t: nat): K
    requires t in k.mem
  {
    var m := k.mem[t := k.mem[t].(next := NULL)];
    if k.tail != NULL && k.tail in m then
      k.(mem := m[k.tail := m[k.tail].(next := t)], tail := t, size := k.size + 1, rq := k.rq + [t])
    else
      k.(mem := m, head := t, tail := t, size := k.size + 1, rq := k.rq + [t])
  }

  /** Memory changed in links only. */
  ghost predicate OnlyLinks(m: Mem, n: Mem)
  {
    m.Keys == n.Keys && forall t :: t in m ==> n[t] == m[t].(next := n[t].next)
  }

  lemma EnqueuedMem(k: K, t: nat)
    requires t in k.mem && (k.tail == NULL || k.tail in k.mem) && t != k.tail
    ensures OnlyLinks(k.mem, Enqueued(k, t).mem)
    ensures var n := Enqueued(k, t).mem;
            && n[t].next == NULL && (k.tail != NULL ==> n[k.tail].next == t)
            && forall x :: x in k.mem && x != t && x != k.tail ==> n[x] == k.mem[x]
  {
  }

  lemma EnqueuedLists(k: K, t: nat)
    requires Lists(k) && t in k.mem && t !in k.rq && t !in k.bl
    ensures Lists(Enqueued(k, t)) && OnlyLinks(k.mem, Enqueued(k, t).mem)
  {
    var k' := Enqueued(k, t);
    EnqueuedMem(k, t);
    if k.rq != [] { assert k.rq[|k.rq| - 1] in k.mem; }
    ChainAppend(k.mem, k'.mem, k.head, k.rq, t);
    ChainKeep(k.mem, k'.mem, k.blocked, k.bl);
    ChainAllKeep(k.mem, k'.mem, k.all, k.reg);
  }

  /** dequeue, on a queue that is not empty. */
  function Dequeued(k: K): K
    requires k.head in k.mem && k.rq != []
  {
    var t := k.head;
    var h := k.mem[t].next;
    k.(mem := k.mem[t := k.mem[t].(next := NULL)], head := h, tail := if h == NULL then NULL else k.tail,
       size := k.size - 1, rq := k.rq[1..])
  }

  lemma DequeuedLists(k: K)
    requires Lists(k) && k.rq != []
    ensures k.head in k.mem && k.head == k.rq[0] && Lists(Dequeued(k)) && OnlyLinks(k.mem, Dequeued(k).mem)
    ensures k.head !in Dequeued(k).rq && k.head !in k.bl
  {
    assert k.rq[0] in k.mem;
    var k' := Dequeued(k);
    ChainRest(k.mem, k'.mem, k.head, k.rq);
    ChainKeep(k.mem, k'.mem, k.blocked, k.bl);
    ChainAllKeep(k.mem, k'.mem, k.all, k.reg);
  }

  /** Unlinking element i of a list: the slot before it takes its link. */
  lemma ChainRemove(m: Mem, n: Mem, first: nat, s: seq<nat>, i: nat)
    requires AllIn(s, m) && Chain(m, first, s) && Distinct(s) && i < |s| && NULL !in m
    requires forall j :: 0 <= j < |s| && j != i && j != i - 1 ==> s[j] in n && n[s[j]].next == m[s[j]].next
    requires i > 0 ==> s[i - 1] in n && n[s[i - 1]].next == m[s[i]].next
    ensures var r := s[..i] + s[i + 1..];
            AllIn(r, n) && Chain(n, if i == 0 then m[first].next else first, r) && Distinct(r) && s[i] !in r
  {
    var r := s[..i] + s[i + 1..];
    assert forall j :: 0 <= j < |r| ==> r[j] == if j < i then s[j] else s[j + 1];
    forall j | 0 <= j < |r| - 1 ensures n[r[j]].next == r[j + 1] {
      if j + 1 == i { assert m[s[i]].next == s[i + 1]; }
    }
  }

  function SetState(k: K, t: nat, st: State): K
    requires t in k.mem
  {
    k.(mem := k.mem[t := k.mem[t].(state := st)])
  }

  lemma SetStateLists(k: K, t: nat, st: State)
    requires Lists(k) && t in k.mem
    ensures Lists(SetState(k, t, st))
  {
    var n := SetState(k, t, st).mem;
    ChainKeep(k.mem, n, k.head, k.rq);
    ChainKeep(k.mem, n, k.blocked, k.bl);
    ChainAllKeep(k.mem, n, k.all, k.reg);
  }

  /** schedule, up to and including the switch. */
  function Scheduled(k: K): K
    requires k.current in k.mem && (k.rq != [] ==> k.head in k.mem)
  {
    if k.rq == [] then k
    else
      SetState(PutBack(Dequeued(k)), k.head, Running).(current := k.head)
  }

  /** The task that ran goes to the back of the queue; one that blocked or exited does not. */
  function PutBack(k: K): K
    requires k.current in k.mem
  {
    if k.mem[k.current].state == Running then Enqueued(SetState(k, k.current, Ready), k.current) else k
  }

  /** The idle task never blocks or exits: with an empty queue it is the one that runs, so
      schedule's halting branch is not reached. */
  lemma EmptyQueueMeansIdle(k: K)
    requires PlacesBut(k, NULL) && NULL !in k.mem && k.rq == []
    ensures k.current == k.boot && k.mem[k.boot].state == Running
  {
    assert InPlace(k, k.boot);
  }

  /** The next task runs; the previous one, if it was running, is last in the queue. */
  lemma ScheduledStable(k: K)
    requires Lists(k) && PlacesBut(k, NULL) && Pids(k) && k.mem[k.current].state != Ready
    ensures k.rq != [] ==> k.head in k.mem
    ensures var k' := Scheduled(k);
            && Stable(k')
            && (k.rq != [] ==> k'.current == k.rq[0])
            && (k.rq != [] ==> k'.rq == k.rq[1..] + if k.mem[k.current].state == Running then [k.current] else [])
  {
    if k.rq == [] {
      EmptyQueueMeansIdle(k);
    } else {
      ScheduledLists(k);
      ScheduledPlaces(k);
      ScheduledPids(k);
    }
  }

  lemma ScheduledLists(k: K)
    requires Lists(k) && PlacesBut(k, NULL) && k.mem[k.current].state != Ready && k.rq != []
    ensures k.head in k.mem && Lists(Scheduled(k))
    ensures Scheduled(k).current == k.rq[0]
    ensures Scheduled(k).rq == k.rq[1..] + if k.mem[k.current].state == Running then [k.current] else []
  {
    DequeuedLists(k);
    DequeuedCurrent(k);
    PutBackLists(Dequeued(k));
    SwitchLists(PutBack(Dequeued(k)), k.head);
  }

  lemma SwitchLists(k: K, next: nat)
    requires Lists(k) && next in k.mem
    ensures Lists(SetState(k, next, Running).(current := next))
  {
    SetStateLists(k, next, Running);
  }

  lemma ScheduledPlaces(k: K)
    requires Lists(k) && PlacesBut(k, NULL) && k.mem[k.current].state != Ready && k.rq != []
    ensures k.head in k.mem && PlacesBut(Scheduled(k), NULL) && Scheduled(k).mem[Scheduled(k).current].state == Running
  {
    DequeuedLists(k);
    DequeuedCurrent(k);
    DequeuedPlaces(k);
    assert InPlace(k, k.head);
    SwitchedPlaces(Dequeued(k), k.head);
  }

  lemma SwitchedPlaces(k: K, next: nat)
    requires PlacesBut(k, next) && next in k.mem && k.current in k.mem && k.current != next && NULL !in k.mem
    requires !k.mem[next].want.Marked?
    requires (k.tail == NULL || k.tail in k.mem) && k.current != k.tail
    ensures next in PutBack(k).mem
    ensures var k' := SetState(PutBack(k), next, Running).(current := next);
            PlacesBut(k', NULL) && k'.mem[next].state == Running
  {
    PutBackPlaces(k, next);
    PutBackMem(k);
    SwitchPlaces(PutBack(k), next);
  }

  lemma ScheduledPids(k: K)
    requires Lists(k) && PlacesBut(k, NULL) && Pids(k) && k.mem[k.current].state != Ready && k.rq != []
    ensures k.head in k.mem && Pids(Scheduled(k))
  {
    ScheduledTasks(k);
    ScheduledFields(k);
    SamePids(k, Scheduled(k));
  }

  lemma SamePids(k: K, k': K)
    requires Pids(k) && SameTasks(k.mem, k'.mem) && k'.nextPid == k.nextPid && k'.byPid == k.byPid
    ensures Pids(k')
  {
  }

  /** Scheduling changes nothing of a task but its link and, for the two tasks involved, its state. */
  lemma ScheduledTasks(k: K)
    requires Lists(k) && PlacesBut(k, NULL) && k.mem[k.current].state != Ready
    ensures k.rq != [] ==> k.head in k.mem
    ensures var k' := Scheduled(k);
            && SameTasks(k.mem, k'.mem)
            && (forall t :: t in k.mem && t != k.current && t != k'.current ==> k'.mem[t].state == k.mem[t].state)
            && (k.mem[k.current].state != Running ==> k'.mem[k.current].state == k.mem[k.current].state)
  {
    if k.rq != [] {
      DequeuedLists(k);
      DequeuedCurrent(k);
      PutBackMem(Dequeued(k));
      SwitchMem(k.mem, Dequeued(k).mem, PutBack(Dequeued(k)).mem, k.current, k.head);
    }
  }

  lemma SwitchMem(m0: Mem, m1: Mem, m2: Mem, current: nat, next: nat)
    requires OnlyLinks(m0, m1) && SameTasks(m1, m2) && next in m0 && current in m0 && next != current
    requires forall t :: t in m1 && t != current ==> m2[t].state == m1[t].state
    requires m1[current].state != Running ==> m2[current].state == m1[current].state
    ensures var m3 := m2[next := m2[next].(state := Running)];
            && SameTasks(m0, m3) && (forall t :: t in m0 && t != current && t != next ==> m3[t].state == m0[t].state)
            && (m0[current].state != Running ==> m3[current].state == m0[current].state)
  {
  }

  /** schedule leaves the blocked list, the registry and the pids alone. */
  lemma ScheduledFields(k: K)
    requires k.current in k.mem && (k.rq != [] ==> k.head in k.mem)
    ensures var k' := Scheduled(k);
            && k'.bl == k.bl && k'.blocked == k.blocked && k'.boot == k.boot && k'.nextPid == k.nextPid
            && k'.reg == k.reg && k'.all == k.all && k'.byPid == k.byPid
            && (k.rq != [] ==> k'.current == k.head && k'.rq == PutBack(Dequeued(k)).rq)
  {
  }

  lemma DequeuedCurrent(k: K)
    requires Lists(k) && PlacesBut(k, NULL) && k.rq != [] && k.head in k.mem && k.mem[k.current].state != Ready
    ensures var k1 := Dequeued(k);
            && k.current != k.head && k1.current == k.current && k.current !in k.rq
            && (k1.tail == NULL || k1.tail in k1.mem) && k1.tail != k.current
            && OnlyLinks(k.mem, k1.mem) && (k.mem[k.current].state == Running ==> k.current !in k.bl)
  {
    DequeuedLists(k);
    assert InPlace(k, k.current) && InPlace(k, k.head);
    assert k.rq[|k.rq| - 1] in k.rq && k.rq[|k.rq| - 1] in k.mem;
  }

  lemma PutBackMem(k: K)
    requires k.current in k.mem && (k.tail == NULL || k.tail in k.mem) && k.tail != k.current
    ensures SameTasks(k.mem, PutBack(k).mem)
    ensures forall t :: t in k.mem && t != k.current ==> PutBack(k).mem[t].state == k.mem[t].state
    ensures k.mem[k.current].state != Running ==> PutBack(k).mem[k.current].state == k.mem[k.current].state
  {
    EnqueuedMem(SetState(k, k.current, Ready), k.current);
  }

  lemma PutBackLists(k: K)
    requires Lists(k) && k.current in k.mem && k.current !in k.rq
    requires (k.mem[k.current].state == Running ==> k.current !in k.bl)
    ensures Lists(PutBack(k)) && PutBack(k).rq == k.rq + if k.mem[k.current].state == Running then [k.current] else []
  {
    if k.mem[k.current].state == Running {
      SetStateLists(k, k.current, Ready);
      EnqueuedLists(SetState(k, k.current, Ready), k.current);
    }
  }

  /** Tasks keep their identity: memory changes in states and links only. */
  ghost predicate SameTasks(m: Mem, n: Mem)
  {
    m.Keys == n.Keys && forall t :: t in m ==> n[t] == m[t].(next := n[t].next, state := n[t].state)
  }

  lemma DequeuedPlaces(k: K)
    requires Lists(k) && PlacesBut(k, NULL) && k.rq != [] && k.head in k.mem && k.head == k.rq[0]
    ensures PlacesBut(Dequeued(k), k.head)
  {
    DequeuedLists(k);
    var k' := Dequeued(k);
    assert k.rq == [k.head] + k'.rq;
    forall t | t in k'.mem && t != k.head ensures InPlace(k', t) {
      assert InPlace(k, t);
    }
    assert InPlace(k, k.boot);
  }

  lemma PutBackPlaces(k: K, next: nat)
    requires PlacesBut(k, next) && k.current in k.mem && k.current != next && (k.tail == NULL || k.tail in k.mem)
    requires k.current != k.tail
    ensures PlacesBut(PutBack(k), next) && PutBack(k).mem[k.current].state != Running
  {
    if k.mem[k.current].state == Running {
      var k0 := SetState(k, k.current, Ready);
      var k' := Enqueued(k0, k.current);
      EnqueuedMem(k0, k.current);
      forall t | t in k'.mem && t != next ensures InPlace(k', t) {
        assert InPlace(k, t) && InPlace(k, k.current);
      }
    }
  }

  lemma SwitchPlaces(k: K, next: nat)
    requires PlacesBut(k, next) && next in k.mem && k.current in k.mem && NULL !in k.mem
    requires (k.current == next || k.mem[k.current].state != Running) && !k.mem[next].want.Marked?
    ensures PlacesBut(SetState(k, next, Running).(current := next), NULL)
  {
    var k' := SetState(k, next, Running).(current := next);
    forall t | t in k'.mem ensures InPlace(k', t) {
      if t != next { assert InPlace(k, t); }
    }
  }
}
