/** The non-preemptive priority CPU scheduler of utils/queue.py, as values:
    the process records, the Gantt segments, the trace of decisions, and a
    reference run that jumps over idle time in one step. The class `Queue`
    (queue.dfy) runs the same schedule tick by tick and is proved equal to it. */
module Scheduling {
  import opened Errors

  /** A submitted process with the fields the back end keeps for it. */
  datatype Process = Process(
    id: string,
    arrival: int,
    burst: int,
    priority: int,
    remaining: int,
    completion: int,
    waiting: int,
    turnaround: int,
    executed: bool)

  /** One Gantt-chart entry: `process` held the CPU from `start` to `end`. */
  datatype Segment = Segment(process: string, start: int, end: int, priority: int)

  /** The decisions the scheduler records, one per trace line (the wording
      of the lines is not modelled, only what each one reports). */
  datatype Event =
    | Started
    | Idle(time: int)
    | Executing(process: string, time: int, priority: int, burst: int)
    | Completed(process: string, time: int, completion: int, turnaround: int, waiting: int)

  /** What a successful schedule computation returns. The averages of the
      source are kept as integer sums (the division is left out). */
  datatype Report = Report(
    processes: seq<Process>,
    gantt: seq<Segment>,
    steps: seq<Event>,
    totalWaiting: int,
    totalTurnaround: int,
    totalTime: int)

  /** The record `add_process` stores: remaining time equal to the burst,
      no results yet. */
  function NewProcess(id: string, arrival: int, burst: int, priority: int): (p: Process)
    ensures p.id == id && p.arrival == arrival && p.burst == burst && p.priority == priority
    ensures p.remaining == burst && !p.executed
    ensures p.completion == 0 && p.waiting == 0 && p.turnaround == 0
  {
    Process(id, arrival, burst, priority, burst, 0, 0, 0, false)
  }

  /** Two records describe the same submitted process, whatever their results. */
  predicate SameInput(p: Process, q: Process) {
    p.id == q.id && p.arrival == q.arrival && p.burst == q.burst && p.priority == q.priority
  }

  /** The working copy a run starts from: inputs kept, results cleared. */
  function Reset(p: Process): (q: Process)
    ensures SameInput(p, q) && q == NewProcess(p.id, p.arrival, p.burst, p.priority)
  {
    p.(remaining := p.burst, completion := 0, waiting := 0, turnaround := 0, executed := false)
  }

  function ResetAll(ps: seq<Process>): (qs: seq<Process>)
    ensures |qs| == |ps|
    ensures forall i :: 0 <= i < |ps| ==> qs[i] == Reset(ps[i])
  {
    seq(|ps|, i requires 0 <= i < |ps| => Reset(ps[i]))
  }

  /** A process may be selected at time `t`: it has arrived and is unfinished. */
  predicate Eligible(p: Process, t: int) {
    p.arrival <= t && p.remaining > 0
  }

  /** `p` comes strictly before `q` in the order of the pair
      (priority, arrival time): a smaller number is more urgent. */
  predicate Precedes(p: Process, q: Process) {
    p.priority < q.priority || (p.priority == q.priority && p.arrival < q.arrival)
  }

  /** The process selected at time `t`: among the eligible ones, the least
      by (priority, arrival time), and of several such the first in list
      order, as a left-to-right minimum search keeps the earliest of equals. */
  function PickNext(ps: seq<Process>, t: int): (r: Option<nat>)
    ensures r.None? <==> forall i :: 0 <= i < |ps| ==> !Eligible(ps[i], t)
    ensures r.Some? ==> r.value < |ps| && Eligible(ps[r.value], t)
    ensures r.Some? ==> forall j :: 0 <= j < |ps| && Eligible(ps[j], t) ==> !Precedes(ps[j], ps[r.value])
    ensures r.Some? ==> forall j :: 0 <= j < r.value && Eligible(ps[j], t) ==> Precedes(ps[r.value], ps[j])
  {
    if ps == [] then None
    else
      var best := PickNext(ps[..|ps| - 1], t);
      var last := ps[|ps| - 1];
      if Eligible(last, t) && (best.None? || Precedes(last, ps[best.value])) then Some(|ps| - 1)
      else best
  }

  /** Number of unfinished processes. */
  function PendingCount(ps: seq<Process>): (n: nat)
    ensures n <= |ps|
  {
    if ps == [] then 0 else (if ps[0].remaining > 0 then 1 else 0) + PendingCount(ps[1..])
  }

  /** Earliest arrival among the unfinished processes. */
  function MinPendingArrival(ps: seq<Process>): (m: int)
    requires PendingCount(ps) > 0
    ensures exists i :: 0 <= i < |ps| && ps[i].remaining > 0 && ps[i].arrival == m
    ensures forall i :: 0 <= i < |ps| && ps[i].remaining > 0 ==> m <= ps[i].arrival
  {
    if ps[0].remaining > 0 && PendingCount(ps[1..]) == 0 then
      NoPendingLeft(ps[1..]);
      assert forall i :: 1 <= i < |ps| ==> ps[i] == ps[1..][i - 1];
      ps[0].arrival
    else if ps[0].remaining > 0 && ps[0].arrival <= MinPendingArrival(ps[1..]) then
      assert forall i :: 1 <= i < |ps| ==> ps[i] == ps[1..][i - 1];
      ps[0].arrival
    else
      var m := MinPendingArrival(ps[1..]);
      assert forall i :: 1 <= i < |ps| ==> ps[i] == ps[1..][i - 1];
      assert exists i :: 1 <= i < |ps| && ps[i].remaining > 0 && ps[i].arrival == m;
      m
  }

  lemma NoPendingLeft(ps: seq<Process>)
    requires PendingCount(ps) == 0
    ensures forall i :: 0 <= i < |ps| ==> ps[i].remaining <= 0
  {
    if ps != [] {
      NoPendingLeft(ps[1..]);
      assert forall i :: 1 <= i < |ps| ==> ps[i] == ps[1..][i - 1];
    }
  }

  /** Marking process `k` finished removes exactly one unfinished process. */
  lemma {:induction false} PendingDrops(ps: seq<Process>, k: nat, q: Process)
    requires k < |ps| && ps[k].remaining > 0 && q.remaining <= 0
    ensures PendingCount(ps[k := q]) == PendingCount(ps) - 1
  {
    if k > 0 {
      PendingDrops(ps[1..], k - 1, q);
      assert ps[k := q][1..] == ps[1..][k - 1 := q];
    } else {
      assert ps[k := q][1..] == ps[1..];
    }
  }

  /** Every freshly reset process of a runnable list is unfinished. */
  lemma {:induction false} AllPending(ps: seq<Process>)
    requires Runnable(ps)
    ensures PendingCount(ResetAll(ps)) == |ps|
  {
    if ps != [] {
      AllPending(ps[1..]);
      assert ResetAll(ps)[1..] == ResetAll(ps[1..]);
    }
  }

  /** Every burst is positive: the only process lists the scheduler finishes
      (a burst of zero or less is never eligible, so the source's loop would
      not end). */
  predicate Runnable(ps: seq<Process>) {
    forall i :: 0 <= i < |ps| ==> ps[i].burst >= 1
  }

  function Max(a: int, b: int): int {
    if a < b then b else a
  }

  /** The time the next process starts: now, or the next arrival when no
      unfinished process has arrived yet. A process is eligible then. */
  function NextStart(ps: seq<Process>, time: int): (s: int)
    requires PendingCount(ps) > 0
    ensures s >= time
    ensures PickNext(ps, s).Some?
    ensures forall i :: 0 <= i < |ps| && ps[i].remaining > 0 && ps[i].arrival < s ==> s == time
  {
    Max(time, MinPendingArrival(ps))
  }

  /** One `Idle` event per tick the clock advances from `last` to `now`,
      each stamped with the time after the tick. */
  function IdleTicks(last: int, now: int): (es: seq<Event>)
    decreases now - last
    ensures |es| == Max(0, now - last)
    ensures forall j :: 0 <= j < |es| ==> es[j] == Idle(last + 1 + j)
  {
    if now <= last then [] else IdleTicks(last, now - 1) + [Idle(now)]
  }

  /** When nothing can run at `now`, the next start is still ahead, and one
      more idle tick adds one event. */
  lemma IdleTick(ps: seq<Process>, last: int, now: int)
    requires PendingCount(ps) > 0 && last <= now <= NextStart(ps, last) && PickNext(ps, now).None?
    ensures now < NextStart(ps, last)
    ensures IdleTicks(last, now + 1) == IdleTicks(last, now) + [Idle(now + 1)]
  {
    var m := MinPendingArrival(ps);
    var i :| 0 <= i < |ps| && ps[i].remaining > 0 && ps[i].arrival == m;
    assert !Eligible(ps[i], now);
  }

  /** The record of a process once it ran to completion from `start`. */
  function Execute(p: Process, start: int): (q: Process)
    ensures SameInput(p, q) && q.remaining == 0 && q.executed
    ensures q.completion == start + p.burst
    ensures q.turnaround == q.completion - p.arrival
    ensures q.waiting == q.turnaround - p.burst
  {
    var c := start + p.burst;
    p.(remaining := 0, completion := c, turnaround := c - p.arrival, waiting := c - p.arrival - p.burst, executed := true)
  }

  /** A run part-way through: the working copies, the clock, the Gantt chart
      and trace so far, and which process (by position) each segment ran. */
  datatype Run = Run(work: seq<Process>, time: int, gantt: seq<Segment>, steps: seq<Event>, order: seq<nat>)

  /** The reference run: while a process is unfinished, start at `NextStart`,
      run the selected process for its whole burst (no preemption), and go on. */
  function Continue(r: Run): (f: Run)
    ensures |f.work| == |r.work|
    decreases PendingCount(r.work)
  {
    if PendingCount(r.work) == 0 then r else Continue(Step(r))
  }

  /** The whole schedule of a process list, from time 0 on reset copies. */
  function Schedule(ps: seq<Process>): (r: Run)
    ensures |r.work| == |ps|
  {
    Continue(Run(ResetAll(ps), 0, [], [Started], []))
  }

  /** Segment `g` runs `p` once, at or after its arrival, for its whole burst. */
  predicate Ran(p: Process, g: Segment) {
    g.process == p.id && g.priority == p.priority && g.start >= p.arrival && g.end == g.start + p.burst
  }

  /** The end of the segment before the `j`-th, or time 0 for the first. */
  function PrevEnd(gantt: seq<Segment>, j: nat): int
    requires j <= |gantt|
  {
    if j == 0 then 0 else gantt[j - 1].end
  }

  /** The `j`-th selection was fair: no process still waiting at its start
      had a smaller (priority, arrival) pair, and waiting processes with an
      equal pair come later in the list; and the CPU was idle before it only
      if nothing unfinished had arrived. */
  ghost predicate FairChoice(ps: seq<Process>, order: seq<nat>, gantt: seq<Segment>, j: nat)
    requires j < |order| == |gantt| && order[j] < |ps|
  {
    && (forall i :: 0 <= i < |ps| && i !in order[..j + 1] && ps[i].arrival <= gantt[j].start ==>
          !Precedes(ps[i], ps[order[j]]) && (i < order[j] ==> Precedes(ps[order[j]], ps[i])))
    && (gantt[j].start == PrevEnd(gantt, j) ||
        forall i :: 0 <= i < |ps| && i !in order[..j] ==> ps[i].arrival >= gantt[j].start)
  }

  /** The bookkeeping of a run of `ps`: sizes, the unfinished count, and
      which positions have run (each at most once); the others are untouched
      reset copies. */
  ghost predicate Shape(ps: seq<Process>, r: Run) {
    && |r.work| == |ps|
    && |r.gantt| == |r.order|
    && PendingCount(r.work) + |r.order| == |ps|
    && (forall j :: 0 <= j < |r.order| ==> r.order[j] < |ps|)
    && (forall j, j' :: 0 <= j < j' < |r.order| ==> r.order[j] != r.order[j'])
    && (forall i :: 0 <= i < |ps| && i !in r.order ==> r.work[i] == Reset(ps[i]))
  }

  /** The `j`-th segment ran its process whole, after the previous segment
      ended, and its working copy holds that process's results. */
  ghost predicate SegmentOk(ps: seq<Process>, r: Run, j: nat)
    requires Shape(ps, r) && j < |r.order|
  {
    && Ran(ps[r.order[j]], r.gantt[j])
    && r.gantt[j].start >= PrevEnd(r.gantt, j)
    && r.work[r.order[j]] == Execute(Reset(ps[r.order[j]]), r.gantt[j].start)
  }

  /** What holds of a run of `ps` at every step. */
  ghost predicate Partial(ps: seq<Process>, r: Run) {
    && Shape(ps, r)
    && (forall j :: 0 <= j < |r.order| ==> SegmentOk(ps, r, j))
    && (forall j :: 0 <= j < |r.order| ==> FairChoice(ps, r.order, r.gantt, j))
    && r.time == PrevEnd(r.gantt, |r.gantt|)
  }

  /** One selection of the reference run. */
  function Step(r: Run): (r': Run)
    requires PendingCount(r.work) > 0
    ensures PendingCount(r'.work) == PendingCount(r.work) - 1
    ensures |r'.work| == |r.work|
  {
    var start := NextStart(r.work, r.time);
    var k := PickNext(r.work, start).value;
    var p := r.work[k];
    var done := Execute(p, start);
    PendingDrops(r.work, k, done);
    Run(
      r.work[k := done],
      done.completion,
      r.gantt + [Segment(p.id, start, done.completion, p.priority)],
      r.steps + IdleTicks(r.time, start)
        + [Executing(p.id, start, p.priority, p.burst),
           Completed(p.id, done.completion, done.completion, done.turnaround, done.waiting)],
      r.order + [k])
  }

  lemma {:induction false} ContinueKeeps(ps: seq<Process>, r: Run)
    requires Runnable(ps) && Partial(ps, r)
    ensures Partial(ps, Continue(r))
    ensures PendingCount(Continue(r).work) == 0
    decreases PendingCount(r.work)
  {
    if PendingCount(r.work) > 0 {
      assert Continue(r) == Continue(Step(r));
      StepKeeps(ps, r);
      ContinueKeeps(ps, Step(r));
    }
  }

  lemma StepKeeps(ps: seq<Process>, r: Run)
    requires Runnable(ps) && Partial(ps, r) && PendingCount(r.work) > 0
    ensures Partial(ps, Step(r))
  {
    var start := NextStart(r.work, r.time);
    var k := PickNext(r.work, start).value;
    PickedIsWaiting(ps, r, start, k);
    var seg := Segment(ps[k].id, start, start + ps[k].burst, ps[k].priority);
    StepFacts(r, start, k, Reset(ps[k]), seg);
    var r' := Step(r);
    StepShape(ps, r, r', start, k);
    StepSegments(ps, r, r', start, k, seg);
    StepFair(ps, r, r', start, k, seg);
  }

  /** The process a step selects has not run yet. */
  lemma PickedIsWaiting(ps: seq<Process>, r: Run, start: int, k: nat)
    requires Shape(ps, r) && forall j :: 0 <= j < |r.order| ==> SegmentOk(ps, r, j)
    requires k < |r.work| && Eligible(r.work[k], start)
    ensures k !in r.order && r.work[k] == Reset(ps[k])
  {
    forall j | 0 <= j < |r.order|
      ensures r.order[j] != k
    {
      assert SegmentOk(ps, r, j);
    }
  }

  lemma StepFacts(r: Run, start: int, k: nat, p: Process, seg: Segment)
    requires PendingCount(r.work) > 0
    requires start == NextStart(r.work, r.time) && PickNext(r.work, start) == Some(k)
    requires p == r.work[k] && seg == Segment(p.id, start, start + p.burst, p.priority)
    ensures Step(r).order == r.order + [k] && Step(r).gantt == r.gantt + [seg]
    ensures Step(r).work == r.work[k := Execute(p, start)]
    ensures Step(r).time == start + p.burst
  {
  }

  /** The events one step appends: the idle ticks, then the start and the
      completion of the chosen process. */
  lemma StepEvents(r: Run, start: int, k: nat, p: Process)
    requires PendingCount(r.work) > 0
    requires start == NextStart(r.work, r.time) && PickNext(r.work, start) == Some(k)
    requires p == r.work[k]
    ensures Step(r).steps == r.steps + IdleTicks(r.time, start)
      + [Executing(p.id, start, p.priority, p.burst),
         Completed(p.id, start + p.burst, start + p.burst, start + p.burst - p.arrival, start + p.burst - p.arrival - p.burst)]
  {
  }

  lemma StepShape(ps: seq<Process>, r: Run, r': Run, start: int, k: nat)
    requires Runnable(ps) && Shape(ps, r)
    requires k < |ps| && k !in r.order && PendingCount(r'.work) == PendingCount(r.work) - 1
    requires r'.order == r.order + [k] && |r'.gantt| == |r.gantt| + 1
    requires r'.work == r.work[k := Execute(Reset(ps[k]), start)]
    ensures Shape(ps, r')
  {
    forall i | 0 <= i < |ps| && i !in r'.order
      ensures r'.work[i] == Reset(ps[i])
    {
      assert i != k && i !in r.order;
    }
  }

  lemma StepSegments(ps: seq<Process>, r: Run, r': Run, start: int, k: nat, seg: Segment)
    requires Shape(ps, r) && Shape(ps, r')
    requires forall j :: 0 <= j < |r.order| ==> SegmentOk(ps, r, j)
    requires r.time == PrevEnd(r.gantt, |r.gantt|)
    requires k < |ps| && k !in r.order && start >= r.time && ps[k].arrival <= start
    requires seg == Segment(ps[k].id, start, start + ps[k].burst, ps[k].priority)
    requires r'.order == r.order + [k] && r'.gantt == r.gantt + [seg]
    requires r'.work == r.work[k := Execute(Reset(ps[k]), start)]
    requires r'.time == start + ps[k].burst
    ensures forall j :: 0 <= j < |r'.order| ==> SegmentOk(ps, r', j)
    ensures r'.time == PrevEnd(r'.gantt, |r'.gantt|)
  {
    var n := |r.order|;
    forall j | 0 <= j < n + 1
      ensures SegmentOk(ps, r', j)
    {
      if j < n {
        assert SegmentOk(ps, r, j);
        assert r.order[j] != k;
      }
    }
  }

  lemma StepFair(ps: seq<Process>, r: Run, r': Run, start: int, k: nat, seg: Segment)
    requires Runnable(ps) && Shape(ps, r)
    requires forall j :: 0 <= j < |r.order| ==> FairChoice(ps, r.order, r.gantt, j)
    requires r.time == PrevEnd(r.gantt, |r.gantt|)
    requires PendingCount(r.work) > 0
    requires start == NextStart(r.work, r.time) && PickNext(r.work, start) == Some(k)
    requires k !in r.order && r.work[k] == Reset(ps[k])
    requires seg == Segment(ps[k].id, start, start + ps[k].burst, ps[k].priority)
    requires r'.order == r.order + [k] && r'.gantt == r.gantt + [seg]
    ensures forall j :: 0 <= j < |r'.order| ==> FairChoice(ps, r'.order, r'.gantt, j)
  {
    var n := |r.order|;
    forall j | 0 <= j < n
      ensures FairChoice(ps, r'.order, r'.gantt, j)
    {
      FairChoiceKept(ps, r.order, r.gantt, r'.order, r'.gantt, j);
    }
    NewChoiceFair(ps, r, r', start, k, seg);
  }

  /** Appending to a run does not change whether earlier choices were fair. */
  lemma FairChoiceKept(ps: seq<Process>, order: seq<nat>, gantt: seq<Segment>, order': seq<nat>, gantt': seq<Segment>, j: nat)
    requires j < |order| == |gantt| && order[j] < |ps|
    requires |order'| == |gantt'| && order <= order' && gantt <= gantt'
    requires FairChoice(ps, order, gantt, j)
    ensures FairChoice(ps, order', gantt', j)
  {
    assert order'[..j + 1] == order[..j + 1];
    assert order'[..j] == order[..j];
    assert gantt'[j] == gantt[j];
    assert PrevEnd(gantt', j) == PrevEnd(gantt, j);
  }

  lemma NewChoiceFair(ps: seq<Process>, r: Run, r': Run, start: int, k: nat, seg: Segment)
    requires Runnable(ps) && Shape(ps, r)
    requires r.time == PrevEnd(r.gantt, |r.gantt|)
    requires PendingCount(r.work) > 0
    requires start == NextStart(r.work, r.time) && PickNext(r.work, start) == Some(k)
    requires k !in r.order && r.work[k] == Reset(ps[k])
    requires seg == Segment(ps[k].id, start, start + ps[k].burst, ps[k].priority)
    requires r'.order == r.order + [k] && r'.gantt == r.gantt + [seg]
    ensures FairChoice(ps, r'.order, r'.gantt, |r.order|)
  {
    var n := |r.order|;
    assert r'.order[..n] == r.order;
    assert r'.order[..n + 1] == r'.order;
    forall i | 0 <= i < |ps| && i !in r'.order[..n + 1] && ps[i].arrival <= start
      ensures !Precedes(ps[i], ps[k]) && (i < k ==> Precedes(ps[k], ps[i]))
    {
      assert r.work[i] == Reset(ps[i]);
      assert Eligible(r.work[i], start);
    }
    if start != PrevEnd(r'.gantt, n) {
      forall i | 0 <= i < |ps| && i !in r'.order[..n]
        ensures ps[i].arrival >= start
      {
        assert r.work[i] == Reset(ps[i]);
      }
    }
  }

  lemma ScheduleKeeps(ps: seq<Process>)
    requires Runnable(ps)
    ensures Partial(ps, Schedule(ps))
    ensures PendingCount(Schedule(ps).work) == 0
  {
    AllPending(ps);
    ContinueKeeps(ps, Run(ResetAll(ps), 0, [], [Started], []));
  }

  /** Every process runs exactly once: the segments are in one-to-one
      correspondence with the processes, and each runs its process for the
      whole burst, starting no earlier than the process's arrival. */
  lemma EachProcessRunsOnce(ps: seq<Process>)
    requires Runnable(ps)
    ensures var r := Schedule(ps);
      && |r.gantt| == |r.order| == |ps|
      && (forall j :: 0 <= j < |ps| ==> r.order[j] < |ps| && Ran(ps[r.order[j]], r.gantt[j]))
      && (forall j, j' :: 0 <= j < j' < |ps| ==> r.order[j] != r.order[j'])
      && (forall i :: 0 <= i < |ps| ==> i in r.order)
  {
    ScheduleKeeps(ps);
    var r := Schedule(ps);
    NoPendingLeft(r.work);
    forall j | 0 <= j < |ps|
      ensures Ran(ps[r.order[j]], r.gantt[j])
    {
      assert SegmentOk(ps, r, j);
    }
  }

  /** Segments never overlap: each ends no later than any later one starts,
      so start times strictly increase; the first starts at time 0 or later,
      and the clock stops at the end of the last. */
  lemma SegmentsOrdered(ps: seq<Process>)
    requires Runnable(ps)
    ensures var g := Schedule(ps).gantt;
      && (forall j, j' :: 0 <= j < j' < |g| ==> g[j].end <= g[j'].start)
      && (forall j, j' :: 0 <= j < j' < |g| ==> g[j].start < g[j'].start)
      && (|g| > 0 ==> g[0].start >= 0 && Schedule(ps).time == g[|g| - 1].end)
  {
    ScheduleKeeps(ps);
    var r := Schedule(ps);
    var g := r.gantt;
    forall j | 0 <= j < |g|
      ensures g[j].end > g[j].start && g[j].start >= PrevEnd(g, j)
    {
      assert SegmentOk(ps, r, j);
    }
    forall j, j' | 0 <= j < j' < |g|
      ensures g[j].end <= g[j'].start
    {
      EndsBefore(g, j, j');
    }
  }

  lemma {:induction false} EndsBefore(g: seq<Segment>, j: nat, j': nat)
    requires j < j' < |g|
    requires forall m :: 0 <= m < |g| ==> g[m].end > g[m].start && g[m].start >= PrevEnd(g, m)
    ensures g[j].end <= g[j'].start
    decreases j' - j
  {
    if j + 1 < j' {
      EndsBefore(g, j, j' - 1);
      assert g[j' - 1].end <= g[j'].start by { assert PrevEnd(g, j') == g[j' - 1].end; }
    } else {
      assert PrevEnd(g, j') == g[j].end;
    }
  }

  /** The results of every process: inputs unchanged, finished, completion at
      the end of its own segment, turnaround = completion - arrival, waiting
      = turnaround - burst, and waiting is never negative. */
  lemma ScheduleResults(ps: seq<Process>)
    requires Runnable(ps)
    ensures var r := Schedule(ps);
      && |r.work| == |ps| && |r.gantt| == |r.order|
      && forall i :: 0 <= i < |ps| ==>
        && SameInput(r.work[i], ps[i])
        && r.work[i].executed && r.work[i].remaining == 0
        && r.work[i].turnaround == r.work[i].completion - ps[i].arrival
        && r.work[i].waiting == r.work[i].turnaround - ps[i].burst
        && r.work[i].waiting >= 0
        && exists j :: 0 <= j < |r.order| && r.order[j] == i && r.gantt[j].end == r.work[i].completion
  {
    ScheduleKeeps(ps);
    EachProcessRunsOnce(ps);
    var r := Schedule(ps);
    forall i | 0 <= i < |ps|
      ensures SameInput(r.work[i], ps[i]) && r.work[i].executed && r.work[i].remaining == 0
      ensures r.work[i].turnaround == r.work[i].completion - ps[i].arrival
      ensures r.work[i].waiting == r.work[i].turnaround - ps[i].burst && r.work[i].waiting >= 0
      ensures exists j :: 0 <= j < |r.order| && r.order[j] == i && r.gantt[j].end == r.work[i].completion
    {
      assert i in r.order;
      var j :| 0 <= j < |r.order| && r.order[j] == i;
      assert SegmentOk(ps, r, j);
    }
  }

  /** Every selection was the most urgent process that had arrived and was
      still waiting (first in list order among equals), and the CPU idled
      only while nothing unfinished had arrived. */
  lemma SelectionsFair(ps: seq<Process>)
    requires Runnable(ps)
    ensures var r := Schedule(ps);
      |r.order| == |r.gantt| && (forall j :: 0 <= j < |r.order| ==> r.order[j] < |ps|)
      && forall j :: 0 <= j < |r.order| ==> FairChoice(ps, r.order, r.gantt, j)
  {
    ScheduleKeeps(ps);
  }

  /** The schedule depends only on the submitted inputs, never on results
      left by an earlier run. */
  lemma ScheduleOnlyReadsInputs(ps: seq<Process>, qs: seq<Process>)
    requires |ps| == |qs|
    requires forall i :: 0 <= i < |ps| ==> SameInput(ps[i], qs[i])
    ensures Schedule(ps) == Schedule(qs)
  {
    assert ResetAll(ps) == ResetAll(qs);
  }

  /** A stored process with the results of its run copied in; its inputs
      and its remaining time stay as they were. */
  function WithResults(stored: Process, run: Process): (p: Process)
    ensures SameInput(p, stored) && p.remaining == stored.remaining
    ensures p.completion == run.completion && p.turnaround == run.turnaround
    ensures p.waiting == run.waiting && p.executed
  {
    stored.(completion := run.completion, turnaround := run.turnaround, waiting := run.waiting, executed := true)
  }

  /** Results copied back position by position: the `i`-th stored process
      receives the results of the `i`-th working copy. */
  function WriteBack(stored: seq<Process>, work: seq<Process>): (ps: seq<Process>)
    requires |work| == |stored|
    ensures |ps| == |stored|
    ensures forall i :: 0 <= i < |ps| ==> ps[i] == WithResults(stored[i], work[i])
  {
    seq(|stored|, i requires 0 <= i < |stored| => WithResults(stored[i], work[i]))
  }

  /** Position of the first stored process with the given id. */
  function FirstWithId(ps: seq<Process>, id: string): (r: Option<nat>)
    ensures r.None? <==> forall i :: 0 <= i < |ps| ==> ps[i].id != id
    ensures r.Some? ==> r.value < |ps| && ps[r.value].id == id
    ensures r.Some? ==> forall i :: 0 <= i < r.value ==> ps[i].id != id
  {
    if ps == [] then None
    else if ps[0].id == id then Some(0)
    else
      var r := FirstWithId(ps[1..], id);
      if r.None? then None else Some(r.value + 1)
  }

  /** Results copied back as utils/queue.py does it: for each working copy in
      turn, into the FIRST stored process with the same id. */
  function WriteBackById(stored: seq<Process>, work: seq<Process>): (ps: seq<Process>)
    ensures |ps| == |stored|
    decreases |work|
  {
    if work == [] then stored
    else
      var next :=
        match FirstWithId(stored, work[0].id)
        case None => stored
        case Some(j) => stored[j := WithResults(stored[j], work[0])];
      WriteBackById(next, work[1..])
  }

  predicate UniqueIds(ps: seq<Process>) {
    forall i, j :: 0 <= i < j < |ps| ==> ps[i].id != ps[j].id
  }

  /** With unique ids, copying back by id and by position agree. */
  lemma WriteBackByIdAgrees(stored: seq<Process>, work: seq<Process>)
    requires |work| == |stored| && UniqueIds(stored)
    requires forall i :: 0 <= i < |stored| ==> work[i].id == stored[i].id
    ensures WriteBackById(stored, work) == WriteBack(stored, work)
  {
    WriteBackByIdFrom(stored, work, 0, stored);
  }

  lemma {:induction false} WriteBackByIdFrom(stored: seq<Process>, work: seq<Process>, m: nat, cur: seq<Process>)
    requires |work| == |stored| == |cur| && m <= |work| && UniqueIds(stored)
    requires forall i :: 0 <= i < |stored| ==> work[i].id == stored[i].id
    requires forall i :: 0 <= i < m ==> cur[i] == WithResults(stored[i], work[i])
    requires forall i :: m <= i < |stored| ==> cur[i] == stored[i]
    ensures WriteBackById(cur, work[m..]) == WriteBack(stored, work)
    decreases |work| - m
  {
    if m == |work| {
      assert cur == WriteBack(stored, work);
    } else {
      assert work[m..][0] == work[m];
      assert work[m..][1..] == work[m + 1..];
      assert forall i :: 0 <= i < |cur| ==> cur[i].id == stored[i].id;
      assert FirstWithId(cur, work[m].id) == Some(m);
      WriteBackByIdFrom(stored, work, m + 1, cur[m := WithResults(cur[m], work[m])]);
    }
  }

  /** Two processes sharing one id: the source copies the second one's
      results over the first stored process and never marks the second
      stored process as executed. Copying back by position does. */
  lemma DuplicateIdsLoseResults(ps: seq<Process>)
    requires Runnable(ps) && |ps| == 2 && ps[0].id == ps[1].id && !ps[1].executed
    ensures var work := Schedule(ps).work;
      && WriteBackById(ps, work) == [WithResults(ps[0], work[1]), ps[1]]
      && !WriteBackById(ps, work)[1].executed
      && WriteBack(ps, work)[1].executed
  {
    ScheduleResults(ps);
    SharedIdWriteBack(ps, Schedule(ps).work);
  }

  lemma SharedIdWriteBack(ps: seq<Process>, work: seq<Process>)
    requires |ps| == 2 && |work| == 2 && ps[0].id == ps[1].id
    requires work[0].id == ps[0].id && work[1].id == ps[0].id
    ensures WriteBackById(ps, work) == [WithResults(ps[0], work[1]), ps[1]]
  {
    var once := [WithResults(ps[0], work[0]), ps[1]];
    assert FirstWithId(ps, work[0].id) == Some(0);
    assert ps[0 := WithResults(ps[0], work[0])] == once;
    assert WriteBackById(ps, work) == WriteBackById(once, work[1..]);
    assert FirstWithId(once, work[1].id) == Some(0);
    assert work[1..][1..] == [];
  }

  /** The input of the finding: P1 (arrival 0, burst 2, priority 1) and a
      second P1 (arrival 0, burst 3, priority 2). */
  lemma DuplicateIdsExample()
    ensures var ps := [NewProcess("P1", 0, 2, 1), NewProcess("P1", 0, 3, 2)];
      !WriteBackById(ps, Schedule(ps).work)[1].executed
  {
    var ps := [NewProcess("P1", 0, 2, 1), NewProcess("P1", 0, 3, 2)];
    DuplicateIdsLoseResults(ps);
  }

  /** A list with a finished process counts fewer unfinished processes
      than it holds. */
  lemma {:induction false} PendingBelow(ps: seq<Process>, k: nat)
    requires k < |ps| && ps[k].remaining <= 0
    ensures PendingCount(ps) < |ps|
  {
    if k > 0 {
      assert ps[1..][k - 1] == ps[k];
      PendingBelow(ps[1..], k - 1);
    }
  }

  /** The scheduler as written, on a burst of zero or less: after the reset
      the process has no remaining time, so it is never eligible and never
      selected, whatever the clock says. Every selection completes one
      eligible process, so fewer than `|ps|` completions can ever happen and
      the loop condition `completed < total_processes` stays true for ever. */
  lemma NonPositiveBurstNeverRuns(ps: seq<Process>, k: nat)
    requires k < |ps| && ps[k].burst <= 0
    ensures forall t :: !Eligible(ResetAll(ps)[k], t) && PickNext(ResetAll(ps), t) != Some(k)
    ensures PendingCount(ResetAll(ps)) < |ps|
  {
    PendingBelow(ResetAll(ps), k);
  }

  /** The input of the finding: a single process `P1` with burst 0. No
      process is ever available, so the loop only advances the clock. */
  lemma ZeroBurstExample()
    ensures var ps := [NewProcess("P1", 0, 0, 1)];
      && (forall t :: PickNext(ResetAll(ps), t).None?)
      && PendingCount(ResetAll(ps)) < |ps|
  {
    var ps := [NewProcess("P1", 0, 0, 1)];
    NonPositiveBurstNeverRuns(ps, 0);
  }

  function TotalWaiting(ps: seq<Process>): int {
    if ps == [] then 0 else ps[0].waiting + TotalWaiting(ps[1..])
  }

  function TotalTurnaround(ps: seq<Process>): int {
    if ps == [] then 0 else ps[0].turnaround + TotalTurnaround(ps[1..])
  }

  function TotalBurst(ps: seq<Process>): int {
    if ps == [] then 0 else ps[0].burst + TotalBurst(ps[1..])
  }

  lemma {:induction false} TotalsOf(ps: seq<Process>)
    requires forall i :: 0 <= i < |ps| ==> ps[i].turnaround - ps[i].waiting == ps[i].burst && ps[i].waiting >= 0
    ensures TotalTurnaround(ps) - TotalWaiting(ps) == TotalBurst(ps)
    ensures TotalWaiting(ps) >= 0
  {
    if ps != [] {
      TotalsOf(ps[1..]);
    }
  }

  /** After a run is copied back, total turnaround exceeds total waiting by
      exactly the total burst, and total waiting is never negative. */
  lemma ReportTotals(ps: seq<Process>)
    requires Runnable(ps)
    ensures var stored := WriteBack(ps, Schedule(ps).work);
      TotalTurnaround(stored) - TotalWaiting(stored) == TotalBurst(ps) && TotalWaiting(stored) >= 0
  {
    ScheduleResults(ps);
    var stored := WriteBack(ps, Schedule(ps).work);
    TotalsOf(stored);
    SameBursts(stored, ps);
  }

  lemma {:induction false} SameBursts(ps: seq<Process>, qs: seq<Process>)
    requires |ps| == |qs| && forall i :: 0 <= i < |ps| ==> ps[i].burst == qs[i].burst
    ensures TotalBurst(ps) == TotalBurst(qs)
  {
    if ps != [] {
      SameBursts(ps[1..], qs[1..]);
    }
  }

  /** Running the schedule again after its results were copied back gives
      the same run. */
  lemma ScheduleIdempotent(ps: seq<Process>)
    requires Runnable(ps)
    ensures Schedule(WriteBack(ps, Schedule(ps).work)) == Schedule(ps)
  {
    ScheduleResults(ps);
    ScheduleOnlyReadsInputs(WriteBack(ps, Schedule(ps).work), ps);
  }

  /** No preemption: a process that arrives while another runs waits for
      it to finish, however urgent it is. */
  lemma NoPreemption(p1: Process, p2: Process)
    requires p1.burst >= 1 && p2.burst >= 1
    requires 0 <= p1.arrival < p2.arrival < p1.arrival + p1.burst
    ensures var end1 := p1.arrival + p1.burst;
      Schedule([p1, p2]).gantt ==
        [Segment(p1.id, p1.arrival, end1, p1.priority), Segment(p2.id, end1, end1 + p2.burst, p2.priority)]
  {
    var end1 := p1.arrival + p1.burst;
    var seg1 := Segment(p1.id, p1.arrival, end1, p1.priority);
    var seg2 := Segment(p2.id, end1, end1 + p2.burst, p2.priority);
    var r0 := Run(ResetAll([p1, p2]), 0, [], [Started], []);
    assert Schedule([p1, p2]) == Continue(r0);
    var w1 := FirstStepOfTwo(p1, p2, r0);
    var r1 := Step(r0);
    ContinueUnfold(r0);
    SecondStepOfTwo(r1, w1, end1, p2, seg1, seg2);
    ContinueUnfold(r1);
    ContinueDone(Step(r1));
  }

  /** One step of the reference run, spelled out field by field. */
  lemma AdvanceRun(r: Run, start: int, k: nat)
    requires PendingCount(r.work) > 0
    requires start == NextStart(r.work, r.time) && PickNext(r.work, start) == Some(k)
    ensures var p := r.work[k];
      Step(r) == Run(
        r.work[k := Execute(p, start)],
        start + p.burst,
        r.gantt + [Segment(p.id, start, start + p.burst, p.priority)],
        r.steps + IdleTicks(r.time, start)
          + [Executing(p.id, start, p.priority, p.burst),
             Completed(p.id, start + p.burst, start + p.burst, start + p.burst - p.arrival, start + p.burst - p.arrival - p.burst)],
        r.order + [k])
  {
    var p := r.work[k];
    StepFacts(r, start, k, p, Segment(p.id, start, start + p.burst, p.priority));
    StepEvents(r, start, k, p);
  }

  lemma ContinueUnfold(r: Run)
    requires PendingCount(r.work) > 0
    ensures Continue(r) == Continue(Step(r))
  {
  }

  lemma ContinueDone(r: Run)
    requires PendingCount(r.work) == 0
    ensures Continue(r) == r
  {
  }

  lemma FirstStepOfTwo(p1: Process, p2: Process, r0: Run) returns (w1: seq<Process>)
    requires p1.burst >= 1 && p2.burst >= 1
    requires 0 <= p1.arrival < p2.arrival < p1.arrival + p1.burst
    requires r0 == Run(ResetAll([p1, p2]), 0, [], [Started], [])
    ensures PendingCount(r0.work) == 2
    ensures Step(r0).work == w1 && |w1| == 2 && w1[0].remaining == 0 && w1[1] == Reset(p2)
    ensures Step(r0).time == p1.arrival + p1.burst
    ensures Step(r0).gantt == [Segment(p1.id, p1.arrival, p1.arrival + p1.burst, p1.priority)]
  {
    var q1, q2 := Reset(p1), Reset(p2);
    assert r0.work == [q1, q2];
    FirstOfTwo(q1, q2);
    StepFacts(r0, p1.arrival, 0, q1, Segment(p1.id, p1.arrival, p1.arrival + p1.burst, p1.priority));
    w1 := r0.work[0 := Execute(q1, p1.arrival)];
  }

  lemma SecondStepOfTwo(r1: Run, w1: seq<Process>, end1: int, p2: Process, seg1: Segment, seg2: Segment)
    requires r1.work == w1 && |w1| == 2 && w1[0].remaining == 0 && w1[1] == Reset(p2)
    requires p2.burst >= 1 && p2.arrival <= end1 && r1.time == end1 && r1.gantt == [seg1]
    requires seg2 == Segment(p2.id, end1, end1 + p2.burst, p2.priority)
    ensures PendingCount(r1.work) == 1
    ensures PendingCount(Step(r1).work) == 0
    ensures Step(r1).gantt == [seg1, seg2]
  {
    SecondOfTwo(w1, end1);
    StepFacts(r1, end1, 1, w1[1], seg2);
  }

  lemma FirstOfTwo(q1: Process, q2: Process)
    requires q1.remaining >= 1 && q2.remaining >= 1
    requires 0 <= q1.arrival < q2.arrival
    ensures PendingCount([q1, q2]) == 2
    ensures NextStart([q1, q2], 0) == q1.arrival
    ensures PickNext([q1, q2], q1.arrival) == Some(0)
  {
    assert [q1, q2][1..] == [q2];
    assert MinPendingArrival([q1, q2]) == q1.arrival;
    assert !Eligible(q2, q1.arrival);
    assert [q1, q2][..1] == [q1];
    assert PickNext([q1], q1.arrival) == Some(0) by {
      assert [q1][..0] == [];
    }
  }

  lemma SecondOfTwo(w: seq<Process>, t: int)
    requires |w| == 2 && w[0].remaining == 0 && w[1].remaining >= 1 && w[1].arrival <= t
    ensures PendingCount(w) == 1
    ensures NextStart(w, t) == t
    ensures PickNext(w, t) == Some(1)
  {
    assert w[1..] == [w[1]];
    assert w[..1] == [w[0]];
    assert PickNext([w[0]], t) == None by {
      assert [w[0]][..0] == [];
    }
  }
}
