/** Round robin while processes are being created: who runs next, and exactly when a process runs again. */
module Scheduling {
  import opened Words
  import opened System
  import opened SystemInvariant
  import SystemRuns
  import Access
  import HeapGrowth
  import opened Ownership

  /** The process list by pid, from its head, and the position of the running process. */
  datatype Ring = Ring(pids: seq<u32>, cur: nat)

  datatype Act = Sched | New(pid: u32)

  predicate Valid(r: Ring) {
    r.cur < |r.pids|
  }

  function Do(r: Ring, a: Act): Ring {
    match a
    case Sched => Ring(r.pids, if r.cur + 1 < |r.pids| then r.cur + 1 else 0)
    case New(pid) => Ring([pid] + r.pids, r.cur + 1)
  }

  function DoAll(r: Ring, acts: seq<Act>): Ring
    decreases |acts|
  {
    if acts == [] then r else DoAll(Do(r, acts[0]), acts[1..])
  }

  function Scheds(acts: seq<Act>): nat {
    if acts == [] then 0 else (if acts[0].Sched? then 1 else 0) + Scheds(acts[1..])
  }

  function News(acts: seq<Act>): nat {
    if acts == [] then 0 else (if acts[0].New? then 1 else 0) + News(acts[1..])
  }

  /** Where the process at position k is after the action: creation pushes everybody back by one. */
  function Moved(k: nat, a: Act): nat {
    if a.New? then k + 1 else k
  }

  /** Schedule calls until position k runs, if nothing is created meanwhile. */
  function Ahead(r: Ring, k: nat): int {
    if r.cur < k then k - r.cur else |r.pids| - r.cur + k
  }

  /** The process at position k is not selected by any of the actions. */
  predicate Waiting(r: Ring, k: nat, acts: seq<Act>)
    decreases |acts|
  {
    acts == [] ||
    (var r' := Do(r, acts[0]);
     (acts[0].Sched? ==> r'.cur != k) && Waiting(r', Moved(k, acts[0]), acts[1..]))
  }

  /** Creations that happen before the scan has wrapped past the head on its way to position k. */
  function EarlyNews(r: Ring, k: nat, acts: seq<Act>): nat
    decreases |acts|
  {
    if acts == [] then 0
    else (if acts[0].New? && r.cur >= k then 1 else 0) + EarlyNews(Do(r, acts[0]), Moved(k, acts[0]), acts[1..])
  }

  /** How often the process at position j is selected by the actions. */
  function Turns(r: Ring, j: nat, acts: seq<Act>): nat
    decreases |acts|
  {
    if acts == [] then 0
    else
      var r' := Do(r, acts[0]);
      (if acts[0].Sched? && r'.cur == j then 1 else 0) + Turns(r', Moved(j, acts[0]), acts[1..])
  }

  /** While a process waits, its distance is what it was, plus the early creations, minus the calls made. */
  lemma {:induction false} AheadDuring(r: Ring, k: nat, acts: seq<Act>)
    requires Valid(r) && k < |r.pids| && Waiting(r, k, acts)
    ensures Valid(DoAll(r, acts)) && k + News(acts) < |DoAll(r, acts).pids|
    ensures DoAll(r, acts).pids[k + News(acts)] == r.pids[k]
    ensures Ahead(DoAll(r, acts), k + News(acts)) == Ahead(r, k) + EarlyNews(r, k, acts) - Scheds(acts)
    decreases |acts|
  {
    if acts != [] {
      AheadDuring(Do(r, acts[0]), Moved(k, acts[0]), acts[1..]);
    }
  }

  /** Round robin with creation: a process that has just run, in a list of n, and that has waited through any
      schedule calls and creations since, is the next one selected exactly if n + k - 1 calls have been made,
      where k counts the processes created before the scan wrapped; fewer calls were made otherwise.
      Creations after the wrap do not delay it. */
  lemma NextTurnExactly(r: Ring, acts: seq<Act>)
    requires Valid(r) && Waiting(r, r.cur, acts)
    ensures var r' := DoAll(r, acts);
      var next := Do(r', Sched);
      && Scheds(acts) < |r.pids| + EarlyNews(r, r.cur, acts)
      && r.cur + News(acts) < |r'.pids| && r'.pids[r.cur + News(acts)] == r.pids[r.cur]
      && (next.cur == r.cur + News(acts) <==> Scheds(acts) + 1 == |r.pids| + EarlyNews(r, r.cur, acts))
  {
    AheadDuring(r, r.cur, acts);
  }

  /** The one further from its turn cannot overtake the one nearer to it. */
  lemma {:induction false} NoTurnBefore(r: Ring, k: nat, j: nat, acts: seq<Act>)
    requires Valid(r) && k < |r.pids| && j < |r.pids| && k != j
    requires Waiting(r, k, acts) && Ahead(r, k) < Ahead(r, j)
    ensures Turns(r, j, acts) == 0
    decreases |acts|
  {
    if acts != [] {
      NoTurnBefore(Do(r, acts[0]), Moved(k, acts[0]), Moved(j, acts[0]), acts[1..]);
    }
  }

  /** Between two turns of a process every other process, old or newly created, runs at most once. */
  lemma {:induction false} AtMostOneTurn(r: Ring, k: nat, j: nat, acts: seq<Act>)
    requires Valid(r) && k < |r.pids| && j < |r.pids| && k != j && Waiting(r, k, acts)
    ensures Turns(r, j, acts) <= 1
    decreases |acts|
  {
    if acts != [] {
      var a, r' := acts[0], Do(r, acts[0]);
      if a.Sched? && r'.cur == j {
        NoTurnBefore(r', k, j, acts[1..]);
      } else {
        AtMostOneTurn(r', Moved(k, a), Moved(j, a), acts[1..]);
      }
    }
  }

  // ----- The system schedules like the ring -----

  function PidsOf(procs: seq<Proc>): (r: seq<u32>)
    ensures |r| == |procs| && forall i :: 0 <= i < |r| ==> r[i] == procs[i].pid
  {
    if procs == [] then [] else [procs[0].pid] + PidsOf(procs[1..])
  }

  function RingOf(s: Sys): Ring
    requires HasCurrent(s)
  {
    Ring(PidsOf(s.procs), s.current.value)
  }

  /** What an event does to the ring, if anything. */
  function ActOf(s: Sys, e: Event): seq<Act> {
    match e
    case Tick => [Sched]
    case Create(_) => [New(s.nextPid)]
    case ForkCurrent => [New(s.nextPid)]
    case _ => []
  }

  ghost function ActsOf(s: Sys, es: seq<Event>): seq<Act>
    decreases |es|
  {
    if es == [] then [] else ActOf(s, es[0]) + ActsOf(Step(s, es[0]), es[1..])
  }

  lemma StepIsRingStep(s: Sys, e: Event)
    requires HasCurrent(s)
    ensures HasCurrent(Step(s, e)) && RingOf(Step(s, e)) == DoAll(RingOf(s), ActOf(s, e))
  {}

  lemma {:induction false} DoAllConcat(r: Ring, a: seq<Act>, b: seq<Act>)
    ensures DoAll(r, a + b) == DoAll(DoAll(r, a), b)
    decreases |a|
  {
    if a == [] {
      assert a + b == b;
    } else {
      assert (a + b)[1..] == a[1..] + b;
      DoAllConcat(Do(r, a[0]), a[1..], b);
    }
  }

  /** Over any run the process list and the running process move as the ring does. */
  lemma {:induction false} RunIsRingRun(s: Sys, es: seq<Event>)
    requires HasCurrent(s)
    ensures HasCurrent(Run(s, es)) && RingOf(Run(s, es)) == DoAll(RingOf(s), ActsOf(s, es))
    decreases |es|
  {
    hide Step, RingOf, HasCurrent, ActOf;
    if es != [] {
      StepIsRingStep(s, es[0]);
      RunIsRingRun(Step(s, es[0]), es[1..]);
      DoAllConcat(RingOf(s), ActOf(s, es[0]), ActsOf(Step(s, es[0]), es[1..]));
    }
  }

  /** Hence in the system: if process i has just been selected and has not been selected by the events since,
      the next tick selects it (its pid) exactly if it is tick number n + k, n being the number of processes at
      its last turn and k the number created before the scan wrapped. */
  lemma NoStarvation(s: Sys, es: seq<Event>)
    requires HasCurrent(s) && Waiting(RingOf(s), s.current.value, ActsOf(s, es))
    requires SysInv(s) && !Run(s, es).m.pool.failed
    ensures var acts, s' := ActsOf(s, es), Run(s, es);
      var next := Step(s', Tick);
      && HasCurrent(next)
      && Scheds(acts) < |s.procs| + EarlyNews(RingOf(s), s.current.value, acts)
      && (next.procs[next.current.value].pid == s.procs[s.current.value].pid <==>
          Scheds(acts) + 1 == |s.procs| + EarlyNews(RingOf(s), s.current.value, acts))
  {
    hide Run, ActsOf, Waiting, EarlyNews, Scheds, News, DoAll, PidsOf;
    var acts, s' := ActsOf(s, es), Run(s, es);
    SystemRuns.RunKeeps(s, es);
    RunIsRingRun(s, es);
    NextTurnExactly(RingOf(s), acts);
    StepIsRingStep(s', Tick);
    TickDo(s');
    var next := Step(s', Tick);
    var k := s.current.value + News(acts);
    assert k < |s'.procs| by { AheadDuring(RingOf(s), s.current.value, acts); }
    assert s'.procs[k].pid == s.procs[s.current.value].pid;
  }

  lemma TickDo(s: Sys)
    requires HasCurrent(s)
    ensures HasCurrent(Step(s, Tick)) && Step(s, Tick).procs == s.procs
      && Step(s, Tick).current.value == Do(RingOf(s), Sched).cur
  {}

  // ----- The first turns -----

  /** The first selection is the head of the list; an empty list selects nobody.  Nothing else changes. */
  lemma FirstTick(s: Sys)
    requires s.current.None?
    ensures var s' := Step(s, Tick);
      s' == if s.procs == [] then s
            else Sys(s.m, s.heap, s.handed, s.kernelDir, s.procs, Some(0), s.nextPid)
  {}

  /** While nobody has run, creations push everybody back and nothing else moves the list. */
  lemma {:induction false} BeforeFirstTick(s: Sys, es: seq<Event>, k: nat)
    requires s.current.None? && k < |s.procs| && forall i :: 0 <= i < |es| ==> !es[i].Tick?
    ensures var s' := Run(s, es);
      && s'.current.None? && |s.procs| <= |s'.procs|
      && s'.procs[k + |s'.procs| - |s.procs|] == s.procs[k]
    decreases |es|
  {
    hide Step;
    if es != [] {
      IdleStep(s, es[0]);
      var s1 := Step(s, es[0]);
      BeforeFirstTick(s1, es[1..], k + |s1.procs| - |s.procs|);
    }
  }

  lemma IdleStep(s: Sys, e: Event)
    requires s.current.None? && !e.Tick?
    ensures var s' := Step(s, e);
      s'.current.None? && (s'.procs == s.procs || (|s'.procs| == |s.procs| + 1 && s'.procs[1..] == s.procs))
  {}

  /** Behind the running process, creations do not delay. */
  lemma {:induction false} NoEarlyNews(r: Ring, k: nat, acts: seq<Act>)
    requires Valid(r) && r.cur < k < |r.pids| && Waiting(r, k, acts)
    ensures EarlyNews(r, k, acts) == 0
    decreases |acts|
  {
    if acts != [] {
      NoEarlyNews(Do(r, acts[0]), Moved(k, acts[0]), acts[1..]);
    }
  }

  /** The fairness bound from the start.  Let nobody run yet, process k be anywhere in the list, and `before` be any
      events without a tick; then comes the first tick, and then any events `after` during which process k is not
      selected.  With b creations in `before`, the process is selected first at tick k + b + 1 exactly; creations
      after the first tick do not delay it. */
  lemma FirstTurnExactly(s: Sys, before: seq<Event>, after: seq<Event>, k: nat)
    requires SysInv(s) && s.current.None? && k < |s.procs| && forall i :: 0 <= i < |before| ==> !before[i].Tick?
    requires !Run(Step(Run(s, before), Tick), after).m.pool.failed
    ensures var s1 := Run(s, before);
      && |s.procs| <= |s1.procs|
      && var s2, b := Step(s1, Tick), |s1.procs| - |s.procs|;
      && s2.current == Some(0) && HasCurrent(s2) && s2.procs[k + b] == s.procs[k]
      && (k + b > 0 && Waiting(RingOf(s2), k + b, ActsOf(s2, after)) ==>
            var ticks, next := Scheds(ActsOf(s2, after)), Step(Run(s2, after), Tick);
            && ticks < k + b && HasCurrent(next)
            && (next.procs[next.current.value].pid == s.procs[k].pid <==> ticks + 1 == k + b))
  {
    hide SysInv, Run, ActsOf, Waiting, EarlyNews, Scheds, News, DoAll, PidsOf, Step;
    var s1 := Run(s, before);
    BeforeFirstTick(s, before, k);
    FirstTick(s1);
    var s2, c := Step(s1, Tick), k + |s1.procs| - |s.procs|;
    var acts, s3 := ActsOf(s2, after), Run(s2, after);
    if c > 0 && Waiting(RingOf(s2), c, acts) {
      SystemRuns.RunFails(s2, after);
      SystemRuns.StepFails(s1, Tick);
      SystemRuns.RunKeeps(s, before);
      StepKeeps(s1, Tick);
      SystemRuns.RunKeeps(s2, after);
      RunIsRingRun(s2, after);
      AheadDuring(RingOf(s2), c, acts);
      NoEarlyNews(RingOf(s2), c, acts);
      StepIsRingStep(s3, Tick);
      TickDo(s3);
      SelectedIff(s3, Step(s3, Tick), c + News(acts));
    }
  }

  /** Positions are told apart by pids, and the one at distance 1 is next. */
  lemma SelectedIff(s: Sys, next: Sys, k: nat)
    requires SysInv(s) && HasCurrent(s) && HasCurrent(next) && next.procs == s.procs && k < |s.procs|
    requires next.current.value == Do(RingOf(s), Sched).cur
    ensures Ahead(RingOf(s), k) > 0
    ensures next.procs[next.current.value].pid == s.procs[k].pid <==> Ahead(RingOf(s), k) == 1
  {
    hide Inv, Access.AccessInv, HeapGrowth.Sound;
  }
}
