/** Bounded waiting: how soon a queued task runs, whatever the others do (core/cpu/sched.c:24-53,
    123-166, 180-197). */
module Fairness {
  import opened Common
  import opened Sched
  import opened Syscalls
  import opened Processes
  import opened Runs

  /** The step calls schedule. */
  ghost predicate Schedules(s: Sys, e: Event)
    requires Good(s) && s.k.current in s.k.mem
  {
    Open(s);
    match e
    case Tick => Switches(s)
    case Wait(want) => Found(s.k, want) == NULL
    case Exit(_) => true
    case Call => true
    case Start => true
    case _ => false
  }

  /** A call of schedule runs the head of the queue; nothing else shortens the queue, and what is
      queued meanwhile goes behind. */
  ghost predicate Moved(s: Sys, calls: bool, s': Sys)
  {
    s.k.rq != [] ==>
      if calls then s'.k.current == s.k.rq[0] && s.k.rq[1..] <= s'.k.rq
      else s'.k.current == s.k.current && s.k.rq <= s'.k.rq
  }

  lemma ScheduledMoves(k: K, q: seq<nat>)
    requires Lists(k) && PlacesBut(k, NULL) && Pids(k) && k.mem[k.current].state != Ready && q <= k.rq && q != []
    ensures k.head in k.mem && Scheduled(k).current == q[0] && q[1..] <= Scheduled(k).rq
  {
    ScheduledStable(k);
    assert q[1..] <= k.rq[1..];
  }

  lemma {:induction false} ExitMoves(s: Sys, code: nat)
    requires Stable(s.k) && s.k.current != s.k.boot
    ensures Moved(s, true, ExitStep(s, code))
  {
    var status := ToInt32(code);
    ExitWokenOk(s.k, status);
    ExitWakes(s.k, status);
    if s.k.rq != [] { ScheduledMoves(ExitWoken(s.k, status), s.k.rq); }
  }

  lemma SleepMoves(s: Sys, want: nat)
    requires Stable(s.k) && s.k.current != s.k.boot
    ensures Moved(s, true, SleepStep(s, want))
  {
    SleepOk(s.k, want);
    if s.k.rq != [] { ScheduledMoves(BlockedAny(s.k, want), s.k.rq); }
  }

  lemma CallMoves(s: Sys, want: nat)
    requires Steady(s.k) && s.k.mem[s.k.current].want == Pushed(want)
    ensures Moved(s, true, CallStep(s, want))
  {
    CallingOk(s.k, want);
    if s.k.rq != [] { ScheduledMoves(Calling(s.k, want), s.k.rq); }
  }

  lemma {:induction false} StepMoves(s: Sys, e: Event)
    requires Good(s) && Enabled(s, e)
    ensures Moved(s, Schedules(s, e), Step(s, e))
  {
    Open(s);
    match e
    case Tick => if Switches(s) && s.k.rq != [] { ScheduledMoves(s.k, s.k.rq); }
    case Exit(code) => ExitMoves(s, code);
    case Wait(want) => if Found(s.k, want) == NULL { SleepMoves(s, want); }
    case Call => CallMoves(s, s.k.mem[s.k.current].want.pid);
    case Start => if s.k.rq != [] { ScheduledMoves(s.k, s.k.rq); }
    case Fork(at) => SpawnedLists(s.k, at, s.k.mem[s.k.current].pid);
    case Create(at) => SpawnedLists(s.k, at, 0);
    case _ =>
  }

  /** Ticks left until a tick calls schedule. */
  ghost function Left(s: Sys): int { if s.need then 1 else TIME_SLICE - s.ticks }

  /** Ticks count down to a call of schedule, and nothing else puts it off. */
  ghost predicate Clocked(s: Sys, e: Event, calls: bool, s': Sys)
  {
    && 1 <= Left(s) && 1 <= Left(s') <= TIME_SLICE
    && (if e.Tick? then calls || Left(s') < Left(s) else Left(s') <= Left(s))
  }

  lemma {:induction false} StepClocked(s: Sys, e: Event)
    requires Good(s) && Enabled(s, e)
    ensures Clocked(s, e, Schedules(s, e), Step(s, e))
  {
    Open(s);
    match e
    case Tick =>
    case Yield =>
    case Exit(code) => assert Step(s, e) == ExitStep(s, code);
    case Wait(want) => assert Step(s, e) == WaitStep(s, want);
    case Call => assert Step(s, e) == CallStep(s, s.k.mem[s.k.current].want.pid);
    case Start => assert Step(s, e) == StartStep(s);
    case _ =>
  }

  /** calls[i] says whether step i calls schedule. */
  ghost predicate Scheduling(ss: seq<Sys>, es: seq<Event>, calls: seq<bool>)
  {
    && |calls| == |es| && |ss| == |es| + 1
    && forall i {:trigger es[i]} :: 0 <= i < |es| ==>
         Good(ss[i]) && ss[i].k.current in ss[i].k.mem && calls[i] == Schedules(ss[i], es[i])
  }

  ghost predicate Fair(ss: seq<Sys>, es: seq<Event>, calls: seq<bool>)
  {
    && |calls| == |es| && |ss| == |es| + 1
    && forall i {:trigger calls[i]} :: 0 <= i < |calls| ==>
       Moved(ss[i], calls[i], ss[i + 1]) && Clocked(ss[i], es[i], calls[i], ss[i + 1])
  }

  lemma FairAt(ss: seq<Sys>, es: seq<Event>, calls: seq<bool>, i: nat)
    requires Run(ss, es) && Scheduling(ss, es, calls) && i < |es|
    ensures Moved(ss[i], calls[i], ss[i + 1]) && Clocked(ss[i], es[i], calls[i], ss[i + 1])
  {
    FollowsFair(ss[i], es[i], ss[i + 1]);
  }

  lemma FollowsFair(s: Sys, e: Event, s': Sys)
    requires Follows(s, e, s')
    ensures Moved(s, Schedules(s, e), s') && Clocked(s, e, Schedules(s, e), s')
  {
    StepMoves(s, e);
    StepClocked(s, e);
  }

  lemma RunIsFair(ss: seq<Sys>, es: seq<Event>, calls: seq<bool>)
    requires Run(ss, es) && Scheduling(ss, es, calls)
    ensures Fair(ss, es, calls)
  {
    forall i {:trigger calls[i]} | 0 <= i < |calls|
      ensures Moved(ss[i], calls[i], ss[i + 1]) && Clocked(ss[i], es[i], calls[i], ss[i + 1])
    {
      FairAt(ss, es, calls, i);
    }
  }

  ghost function Count(b: seq<bool>): nat
  {
    if b == [] then 0 else Count(b[..|b| - 1]) + if b[|b| - 1] then 1 else 0
  }

  ghost predicate QueuedAt(s: Sys, p: int, t: nat)
  {
    0 <= p < |s.k.rq| && s.k.rq[p] == t
  }

  lemma {:induction false} Advances(ss: seq<Sys>, es: seq<Event>, calls: seq<bool>, i: nat, j: nat, p: nat, t: nat)
    requires Fair(ss, es, calls) && i <= j <= |es| && QueuedAt(ss[i], p, t)
    ensures Count(calls[i..j]) <= p ==> QueuedAt(ss[j], p - Count(calls[i..j]), t)
    ensures i < j && calls[j - 1] && Count(calls[i..j]) == p + 1 ==> ss[j].k.current == t
    decreases j - i
  {
    if i < j {
      var b := calls[i..j];
      assert b[..|b| - 1] == calls[i..j - 1] && b[|b| - 1] == calls[j - 1];
      Advances(ss, es, calls, i, j - 1, p, t);
      if Count(calls[i..j - 1]) <= p {
        MovesOn(ss[j - 1], calls[j - 1], ss[j], p - Count(calls[i..j - 1]), t);
      }
    }
  }

  lemma MovesOn(s: Sys, calls: bool, s': Sys, p: nat, t: nat)
    requires Moved(s, calls, s') && QueuedAt(s, p, t)
    ensures if !calls then QueuedAt(s', p, t) else if p == 0 then s'.k.current == t else QueuedAt(s', p - 1, t)
  {
    if calls && p > 0 { assert s.k.rq[1..][p - 1] == t; }
  }

  /** A task at position p of the run queue runs after exactly p + 1 calls of schedule: after fewer it
      is still queued, that many places further on, and the last of them switches to it. */
  lemma RunsAfterItsTurn(ss: seq<Sys>, es: seq<Event>, calls: seq<bool>, i: nat, j: nat, p: nat, t: nat)
    requires Run(ss, es) && Scheduling(ss, es, calls) && i <= j <= |es| && QueuedAt(ss[i], p, t)
    ensures Count(calls[i..j]) <= p ==> QueuedAt(ss[j], p - Count(calls[i..j]), t) && ss[j].k.current != t
    ensures i < j && calls[j - 1] && Count(calls[i..j]) == p + 1 ==> ss[j].k.current == t
  {
    RunIsFair(ss, es, calls);
    Advances(ss, es, calls, i, j, p, t);
    if Count(calls[i..j]) <= p { QueuedIsNotCurrent(ss, es, j, p - Count(calls[i..j]), t); }
  }

  lemma QueuedIsNotCurrent(ss: seq<Sys>, es: seq<Event>, j: nat, p: nat, t: nat)
    requires Run(ss, es) && j <= |es| && QueuedAt(ss[j], p, t)
    ensures ss[j].k.current != t
  {
    RunKeeps(ss, es, j);
    Open(ss[j]);
    assert InPlace(ss[j].k, t) && t in ss[j].k.rq;
  }

  ghost function Ticks(es: seq<Event>, i: nat, j: nat): nat
    requires i <= j <= |es|
    decreases j - i
  {
    if i == j then 0 else (if es[i].Tick? then 1 else 0) + Ticks(es, i + 1, j)
  }

  lemma {:induction false} TicksBringItOn(ss: seq<Sys>, es: seq<Event>, calls: seq<bool>, i: nat, j: nat, p: nat,
                                          t: nat)
    requires Fair(ss, es, calls) && i <= j <= |es| && QueuedAt(ss[i], p, t) && 1 <= Left(ss[i])
    requires TIME_SLICE * p + Left(ss[i]) <= Ticks(es, i, j)
    ensures exists m :: i < m <= j && ss[m].k.current == t
    decreases j - i
  {
    if i < j {
      assert calls[i] == calls[i];
      var k := i + 1;
      MovesOn(ss[i], calls[i], ss[k], p, t);
      if calls[i] && p == 0 {
        assert i < k <= j && ss[k].k.current == t;
      } else {
        var p' := if calls[i] then p - 1 else p;
        TicksBringItOn(ss, es, calls, k, j, p', t);
        var m :| k < m <= j && ss[m].k.current == t;
        assert i < m <= j;
      }
    }
  }

  /** Within 2(p + 1) timer ticks the task at position p has run, even if every task before it yields,
      forks, blocks or exits meanwhile. */
  lemma RunsWithinTwoTicksEach(ss: seq<Sys>, es: seq<Event>, i: nat, j: nat, p: nat, t: nat)
    requires Run(ss, es) && i <= j <= |es| && QueuedAt(ss[i], p, t) && Ticks(es, i, j) >= 2 * (p + 1)
    ensures exists m :: i < m <= j && ss[m].k.current == t
  {
    var calls := SchedulingOf(ss, es);
    RunIsFair(ss, es, calls);
    assert calls[i] == calls[i];
    TicksBringItOn(ss, es, calls, i, j, p, t);
  }

  lemma SchedulingOf(ss: seq<Sys>, es: seq<Event>) returns (calls: seq<bool>)
    requires Run(ss, es)
    ensures Scheduling(ss, es, calls)
  {
    calls := seq(|es|, i requires 0 <= i < |es| => (assert Follows(ss[i], es[i], ss[i + 1]); Schedules(ss[i], es[i])));
  }
}
