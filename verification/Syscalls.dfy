/** fork, exit and wait4 (core/cpu/syscall.c, core/cpu/fork.c) and the blocking and waking of
    core/cpu/sched.c:72-103, as functions of the scheduler state. */
module Syscalls {
  import opened Common
  import opened Sched

  /** task_block_any, up to its call of schedule: the caller goes to the head of the blocked list. */
  function BlockedAny(k: K, want: nat): K
    requires k.current in k.mem
  {
    k.(mem := k.mem[k.current :=
                 k.mem[k.current].(state := Blocked, blockOn := 0, next := k.blocked, want := Waiting(want))],
       blocked := k.current, bl := [k.current] + k.bl)
  }

  lemma ChainPrepend(m: Mem, n: Mem, first: nat, s: seq<nat>, t: nat)
    requires AllIn(s, m) && Chain(m, first, s) && Distinct(s) && t !in s && t in n && n[t].next == first
    requires forall i :: 0 <= i < |s| ==> s[i] in n && n[s[i]].next == m[s[i]].next
    ensures AllIn([t] + s, n) && Chain(n, t, [t] + s) && Distinct([t] + s)
  {
  }

  lemma BlockedLists(k: K, want: nat)
    requires Lists(k) && k.current in k.mem && k.current !in k.rq && k.current !in k.bl
    ensures Lists(BlockedAny(k, want))
  {
    var n := BlockedAny(k, want).mem;
    ChainKeep(k.mem, n, k.head, k.rq);
    ChainPrepend(k.mem, n, k.blocked, k.bl, k.current);
    ChainAllKeep(k.mem, n, k.all, k.reg);
  }

  lemma BlockedPlaces(k: K, want: nat)
    requires Stable(k) && k.current != k.boot
    ensures PlacesBut(BlockedAny(k, want), NULL) && Pids(BlockedAny(k, want))
  {
    var k' := BlockedAny(k, want);
    forall t | t in k'.mem ensures InPlace(k', t) {
      assert InPlace(k, t);
    }
  }

  /** The test of task_wakeup_children for a blocked task. */
  predicate Matches(t: Tcb, pid: nat, ppid: nat)
  {
    (t.blockOn == 0 && t.pid == ppid) || t.blockOn == pid
  }

  /** *pp = t->next; t->next = NULL, for element i of the blocked list. */
  function Unlinked(k: K, i: nat): K
    requires i < |k.bl| && AllIn(k.bl, k.mem)
  {
    var t := k.bl[i];
    var after := k.mem[t].next;
    var bl := k.bl[..i] + k.bl[i + 1..];
    if i == 0 then
      k.(mem := k.mem[t := k.mem[t].(next := NULL)], blocked := after, bl := bl)
    else
      var p := k.bl[i - 1];
      var m := k.mem[p := k.mem[p].(next := after)];
      k.(mem := m[t := m[t].(next := NULL)], bl := bl)
  }

  lemma UnlinkedMem(k: K, i: nat)
    requires i < |k.bl| && AllIn(k.bl, k.mem) && Distinct(k.bl)
    ensures var n := Unlinked(k, i).mem;
            && OnlyLinks(k.mem, n)
            && (forall x :: x in k.mem && x != k.bl[i] && (i > 0 ==> x != k.bl[i - 1]) ==> n[x] == k.mem[x])
            && (i > 0 ==> n[k.bl[i - 1]].next == k.mem[k.bl[i]].next)
  {
  }

  /** Removing element i from a list apart from q leaves it apart from q. */
  lemma RemovedApart(s: seq<nat>, q: seq<nat>, i: nat)
    requires i < |s| && forall j :: 0 <= j < |s| ==> s[j] !in q
    ensures var r := s[..i] + s[i + 1..]; forall j :: 0 <= j < |r| ==> r[j] !in q
    ensures forall j :: 0 <= j < |q| ==> q[j] !in s
  {
    var r := s[..i] + s[i + 1..];
    forall j | 0 <= j < |r| ensures r[j] !in q {
      assert r[j] == if j < i then s[j] else s[j + 1];
    }
  }

  lemma UnlinkedLists(k: K, i: nat)
    requires Lists(k) && i < |k.bl|
    ensures Lists(Unlinked(k, i)) && k.bl[i] !in Unlinked(k, i).bl && k.bl[i] !in k.rq
  {
    UnlinkedMem(k, i);
    RemovedApart(k.bl, k.rq, i);
    UnlinkedChains(k, Unlinked(k, i).mem, i);
  }

  lemma UnlinkedChains(k: K, n: Mem, i: nat)
    requires Lists(k) && i < |k.bl| && OnlyLinks(k.mem, n) && (forall j :: 0 <= j < |k.rq| ==> k.rq[j] !in k.bl)
    requires forall x :: x in k.mem && x != k.bl[i] && (i > 0 ==> x != k.bl[i - 1]) ==> n[x] == k.mem[x]
    requires i > 0 ==> n[k.bl[i - 1]].next == k.mem[k.bl[i]].next
    ensures AllIn(k.rq, n) && Chain(n, k.head, k.rq) && AllIn(k.reg, n) && ChainAll(n, k.all, k.reg)
    ensures var r := k.bl[..i] + k.bl[i + 1..];
            && AllIn(r, n) && Chain(n, if i == 0 then k.mem[k.blocked].next else k.blocked, r)
            && Distinct(r) && k.bl[i] !in r
  {
    ChainRemove(k.mem, n, k.blocked, k.bl, i);
    ChainKeep(k.mem, n, k.head, k.rq);
    ChainAllKeep(k.mem, n, k.all, k.reg);
  }

  /** One waiter becomes ready. */
  function WokeOne(k: K, i: nat): K
    requires i < |k.bl| && AllIn(k.bl, k.mem)
  {
    Enqueued(SetState(Unlinked(k, i), k.bl[i], Ready), k.bl[i])
  }

  lemma WokeOneLists(k: K, i: nat)
    requires Lists(k) && i < |k.bl|
    ensures Lists(WokeOne(k, i))
  {
    UnlinkedLists(k, i);
    SetStateLists(Unlinked(k, i), k.bl[i], Ready);
    EnqueuedLists(SetState(Unlinked(k, i), k.bl[i], Ready), k.bl[i]);
  }

  lemma WokeOneFields(k: K, i: nat)
    requires i < |k.bl| && AllIn(k.bl, k.mem)
    ensures var k' := WokeOne(k, i);
            && k'.rq == k.rq + [k.bl[i]] && k'.bl == k.bl[..i] + k.bl[i + 1..]
            && k'.current == k.current && k'.boot == k.boot && k'.nextPid == k.nextPid && k'.byPid == k.byPid
            && k'.reg == k.reg && k'.all == k.all
  {
  }

  lemma WokeOneMem(k: K, i: nat)
    requires Lists(k) && i < |k.bl|
    ensures var n := WokeOne(k, i).mem;
            && SameTasks(k.mem, n) && n[k.bl[i]].state == Ready
            && forall t :: t in k.mem && t != k.bl[i] ==> n[t].state == k.mem[t].state
  {
    UnlinkedMem(k, i);
    var k1 := SetState(Unlinked(k, i), k.bl[i], Ready);
    if k.rq != [] { assert k.rq[|k.rq| - 1] in k.mem && k.bl[i] !in k.rq; }
    EnqueuedMem(k1, k.bl[i]);
    WakeMem(k.mem, Unlinked(k, i).mem, Enqueued(k1, k.bl[i]).mem, k.bl[i]);
  }

  lemma WakeMem(m0: Mem, m1: Mem, m3: Mem, t: nat)
    requires t in m0 && OnlyLinks(m0, m1) && OnlyLinks(m1[t := m1[t].(state := Ready)], m3)
    ensures SameTasks(m0, m3) && m3[t].state == Ready && forall u :: u in m0 && u != t ==> m3[u].state == m0[u].state
  {
  }

  lemma WokeOnePlaces(k: K, i: nat)
    requires Lists(k) && PlacesBut(k, NULL) && Pids(k) && i < |k.bl|
    ensures PlacesBut(WokeOne(k, i), NULL) && Pids(WokeOne(k, i))
  {
    var k' := WokeOne(k, i);
    WokeOneFields(k, i);
    WokeOneMem(k, i);
    SamePids(k, k');
    UnlinkedLists(k, i);
    MovedPlaces(k, k', i);
  }

  lemma MovedPlaces(k: K, k': K, i: nat)
    requires NULL !in k.mem && PlacesBut(k, NULL) && i < |k.bl| && k.bl[i] in k.mem && SameTasks(k.mem, k'.mem)
    requires k'.rq == k.rq + [k.bl[i]] && k'.bl == k.bl[..i] + k.bl[i + 1..] && k.bl[i] !in k'.bl
    requires k'.current == k.current && k'.boot == k.boot
    requires k'.mem[k.bl[i]].state == Ready
    requires forall t :: t in k.mem && t != k.bl[i] ==> k'.mem[t].state == k.mem[t].state
    ensures PlacesBut(k', NULL)
  {
    assert k.bl == k.bl[..i] + [k.bl[i]] + k.bl[i + 1..];
    assert InPlace(k, k.boot) && InPlace(k, k.bl[i]);
    forall t | t in k'.mem ensures InPlace(k', t) {
      assert InPlace(k, t);
    }
  }

  lemma WokeOneKeys(k: K, i: nat)
    requires i < |k.bl| && AllIn(k.bl, k.mem)
    ensures WokeOne(k, i).mem.Keys == k.mem.Keys && AllIn(WokeOne(k, i).bl, WokeOne(k, i).mem)
  {
  }

  /** task_wakeup_children from element i of the blocked list on. */
  function WakeFrom(k: K, i: nat, pid: nat, ppid: nat): K
    requires AllIn(k.bl, k.mem)
    decreases |k.bl| - i
  {
    if i >= |k.bl| then k
    else if Matches(k.mem[k.bl[i]], pid, ppid) then
      WokeOneKeys(k, i);
      WakeFrom(WokeOne(k, i), i, pid, ppid)
    else WakeFrom(k, i + 1, pid, ppid)
  }

  lemma {:induction false} WakeFromLists(k: K, i: nat, pid: nat, ppid: nat)
    requires Lists(k)
    ensures var k' := WakeFrom(k, i, pid, ppid);
            Lists(k') && k'.current == k.current && k'.boot == k.boot && k'.nextPid == k.nextPid && k'.byPid == k.byPid
              && k'.reg == k.reg
    decreases |k.bl| - i
  {
    if i < |k.bl| {
      if Matches(k.mem[k.bl[i]], pid, ppid) {
        WokeOneKeys(k, i);
        WokeOneLists(k, i);
        WokeOneFields(k, i);
        WakeFromLists(WokeOne(k, i), i, pid, ppid);
      } else {
        WakeFromLists(k, i + 1, pid, ppid);
      }
    }
  }

  /** The tasks of s that an exit of pid with parent ppid wakes, in order, and those it does not. */
  ghost function Woken(m: Mem, s: seq<nat>, pid: nat, ppid: nat): seq<nat>
    requires AllIn(s, m)
  {
    if s == [] then [] else (if Matches(m[s[0]], pid, ppid) then [s[0]] else []) + Woken(m, s[1..], pid, ppid)
  }

  ghost function Asleep(m: Mem, s: seq<nat>, pid: nat, ppid: nat): seq<nat>
    requires AllIn(s, m)
  {
    if s == [] then [] else (if Matches(m[s[0]], pid, ppid) then [] else [s[0]]) + Asleep(m, s[1..], pid, ppid)
  }

  /** The loop moves exactly the matching waiters to the back of the run queue, in list order. */
  lemma {:induction false} WakeFromQueues(k: K, i: nat, pid: nat, ppid: nat)
    requires Lists(k) && i <= |k.bl|
    ensures var k' := WakeFrom(k, i, pid, ppid);
            k'.rq == k.rq + Woken(k.mem, k.bl[i..], pid, ppid)
              && k'.bl == k.bl[..i] + Asleep(k.mem, k.bl[i..], pid, ppid)
    decreases |k.bl| - i, 1
  {
    if i == |k.bl| {
      assert k.bl[i..] == [] && k.bl[..i] == k.bl;
    } else {
      WaitersAt(k.mem, k.bl, i, pid, ppid);
      if Matches(k.mem[k.bl[i]], pid, ppid) {
        WakeFromQueuesMatch(k, i, pid, ppid);
        Regroup(k.rq, k.bl[i], Woken(k.mem, k.bl[i + 1..], pid, ppid));
      } else {
        WakeFromQueues(k, i + 1, pid, ppid);
        AsleepNext(k.bl, i, Asleep(k.mem, k.bl[i + 1..], pid, ppid));
      }
    }
  }

  lemma {:induction false} WaitersAt(m: Mem, s: seq<nat>, i: nat, pid: nat, ppid: nat)
    requires AllIn(s, m) && i < |s|
    ensures Woken(m, s[i..], pid, ppid) ==
            if Matches(m[s[i]], pid, ppid) then [s[i]] + Woken(m, s[i + 1..], pid, ppid)
            else Woken(m, s[i + 1..], pid, ppid)
    ensures Asleep(m, s[i..], pid, ppid) ==
            if Matches(m[s[i]], pid, ppid) then Asleep(m, s[i + 1..], pid, ppid)
            else [s[i]] + Asleep(m, s[i + 1..], pid, ppid)
  {
    assert s[i..][1..] == s[i + 1..];
  }

  lemma AsleepNext(s: seq<nat>, i: nat, rest: seq<nat>)
    requires i < |s|
    ensures s[..i + 1] + rest == s[..i] + ([s[i]] + rest)
  {
    assert s[..i + 1] == s[..i] + [s[i]];
    Regroup(s[..i], s[i], rest);
  }

  lemma {:induction false} WakeFromQueuesMatch(k: K, i: nat, pid: nat, ppid: nat)
    requires Lists(k) && i < |k.bl| && Matches(k.mem[k.bl[i]], pid, ppid)
    ensures var k' := WakeFrom(k, i, pid, ppid);
            k'.rq == k.rq + [k.bl[i]] + Woken(k.mem, k.bl[i + 1..], pid, ppid)
              && k'.bl == k.bl[..i] + Asleep(k.mem, k.bl[i + 1..], pid, ppid)
    decreases |k.bl| - i, 0
  {
    var k1 := WokeOne(k, i);
    WokeOneKeys(k, i);
    WokeOneLists(k, i);
    WokeOneFields(k, i);
    WokeOneMem(k, i);
    WakeFromQueues(k1, i, pid, ppid);
    assert k1.bl[i..] == k.bl[i + 1..] && k1.bl[..i] == k.bl[..i];
    SameWaiters(k.mem, k1.mem, k.bl[i + 1..], pid, ppid);
  }

  lemma {:induction false} SameWaiters(m: Mem, n: Mem, s: seq<nat>, pid: nat, ppid: nat)
    requires AllIn(s, m) && AllIn(s, n) && SameTasks(m, n)
    ensures Woken(n, s, pid, ppid) == Woken(m, s, pid, ppid) && Asleep(n, s, pid, ppid) == Asleep(m, s, pid, ppid)
  {
    if s != [] {
      assert s[0] in m && s[0] in n;
      SameWaiters(m, n, s[1..], pid, ppid);
    }
  }

  /** Woken tasks are ready; everything else about every task is as before. */
  lemma {:induction false} WakeFromTasks(k: K, i: nat, pid: nat, ppid: nat)
    requires Lists(k) && PlacesBut(k, NULL) && Pids(k)
    ensures var k' := WakeFrom(k, i, pid, ppid);
            && PlacesBut(k', NULL) && Pids(k') && SameTasks(k.mem, k'.mem)
            && (forall t :: t in k.mem ==>
               k'.mem[t].state == k.mem[t].state || (k.mem[t].state == Blocked && k'.mem[t].state == Ready))
    decreases |k.bl| - i
  {
    if i < |k.bl| {
      if Matches(k.mem[k.bl[i]], pid, ppid) {
        WokeOneKeys(k, i);
        WokeOneLists(k, i);
        WokeOneFields(k, i);
        WokeOneMem(k, i);
        WokeOnePlaces(k, i);
        assert InPlace(k, k.bl[i]);
        WakeFromTasks(WokeOne(k, i), i, pid, ppid);
        WokenTwice(k.mem, WokeOne(k, i).mem, WakeFrom(WokeOne(k, i), i, pid, ppid).mem, k.bl[i]);
      } else {
        WakeFromTasks(k, i + 1, pid, ppid);
      }
    }
  }

  lemma WokenTwice(m0: Mem, m1: Mem, m2: Mem, t: nat)
    requires SameTasks(m0, m1) && SameTasks(m1, m2) && t in m0 && m0[t].state == Blocked && m1[t].state == Ready
    requires forall u :: u in m0 && u != t ==> m1[u].state == m0[u].state
    requires forall u :: u in m1 ==> m2[u].state == m1[u].state || (m1[u].state == Blocked && m2[u].state == Ready)
    ensures SameTasks(m0, m2)
    ensures forall u :: u in m0 ==> m2[u].state == m0[u].state || (m0[u].state == Blocked && m2[u].state == Ready)
  {
  }

  /** Whoever still sleeps does not match. */
  lemma {:induction false} AsleepDoNotMatch(m: Mem, s: seq<nat>, pid: nat, ppid: nat)
    requires AllIn(s, m)
    ensures forall t :: t in Asleep(m, s, pid, ppid) ==> t in s && t in m && !Matches(m[t], pid, ppid)
  {
    if s != [] {
      assert s[0] in m;
      AsleepDoNotMatch(m, s[1..], pid, ppid);
    }
  }
}
