/** The bounded queue of utils/queue.py: one class that is a linear FIFO, a
    circular ring buffer, a double-ended queue or a priority queue according
    to its kind, and that also holds the priority CPU scheduler's state. */
module Queues {
  import opened Errors
  import opened Scheduling

  /** The `queue_type` tag. Any tag other than the three special ones makes
      the class behave as `Linear`. */
  datatype Kind = Linear | Circular | DoubleEnded | Prioritized

  /** One stored element: an empty ring-buffer slot, a plain value, or a
      value with its priority (the priority queue's `{value, priority}`). */
  datatype Cell<T> = Vacant | Plain(value: T) | Ranked(value: T, priority: int)

  /** `priority or 5`: a missing or zero priority becomes 5. */
  function EffectivePriority(priority: Option<int>): (p: int)
    ensures p != 0
    ensures priority.Some? && priority.value != 0 ==> p == priority.value
    ensures priority.None? || priority.value == 0 ==> p == 5
  {
    match priority
    case None => 5
    case Some(x) => if x == 0 then 5 else x
  }

  ghost predicate AllRanked<T>(cs: seq<Cell<T>>) {
    forall i :: 0 <= i < |cs| ==> cs[i].Ranked?
  }

  /** Ranked cells in non-decreasing priority order. */
  ghost predicate SortedByPriority<T>(cs: seq<Cell<T>>)
    requires AllRanked(cs)
  {
    forall i, j :: 0 <= i < j < |cs| ==> cs[i].priority <= cs[j].priority
  }

  /** Where a new element of priority `p` goes: before the first element
      whose priority is strictly larger, so that it follows every element of
      equal priority. */
  function InsertPos<T>(cs: seq<Cell<T>>, p: int): (k: nat)
    requires AllRanked(cs)
    ensures k <= |cs|
    ensures forall i :: 0 <= i < k ==> cs[i].priority <= p
    ensures k < |cs| ==> cs[k].priority > p
  {
    if cs == [] || cs[0].priority > p then 0 else 1 + InsertPos(cs[1..], p)
  }

  /** `x mod m` for 0 <= x < 2m, without division. */
  function Wrap(x: int, m: int): int {
    if x < m then x else x - m
  }

  lemma ModIsWrap(x: int, m: int)
    requires 0 < m && 0 <= x < 2 * m
    ensures x % m == Wrap(x, m)
  {
    if x >= m {
      assert (x - m) % m == x % m;
    }
  }

  /** Distance of slot `k` from slot `front` going forwards round a ring of
      `m` slots. */
  function Offset(k: int, front: int, m: int): int {
    if k >= front then k - front else k - front + m
  }

  /** The slot `i` places after `front` is the one at distance `i`. */
  lemma OffsetOfWrap(front: int, i: int, m: int)
    requires 0 <= front < m && 0 <= i < m
    ensures 0 <= Wrap(front + i, m) < m && Offset(Wrap(front + i, m), front, m) == i
  {
  }

  /** `InsertPos` is the first position whose priority is strictly larger. */
  lemma {:induction false} InsertPosIs<T>(cs: seq<Cell<T>>, p: int, i: nat)
    requires AllRanked(cs) && i <= |cs|
    requires forall j :: 0 <= j < i ==> cs[j].priority <= p
    requires i < |cs| ==> cs[i].priority > p
    ensures InsertPos(cs, p) == i
  {
    if i > 0 {
      InsertPosIs(cs[1..], p, i - 1);
    }
  }

  /** The `n` ring slots from `front` on, in order. */
  function RingSeq<T>(es: seq<Cell<T>>, front: int, n: nat, m: int): (cs: seq<Cell<T>>)
    requires 0 <= front < m == |es| && n <= m
    ensures |cs| == n
  {
    seq(n, i requires 0 <= i < n => es[Wrap(front + i, m)])
  }

  /** Filling the slot after the last one appends to the ring's contents. */
  lemma RingSeqAdd<T>(es: seq<Cell<T>>, front: int, n: nat, m: int, c: Cell<T>)
    requires 0 <= front < m == |es| && n < m
    ensures RingSeq(es[Wrap(front + n, m) := c], front, n + 1, m) == RingSeq(es, front, n, m) + [c]
  {
    var after := RingSeq(es[Wrap(front + n, m) := c], front, n + 1, m);
    var before := RingSeq(es, front, n, m);
    forall i | 0 <= i < n
      ensures after[i] == before[i]
    {
      OffsetOfWrap(front, i, m);
      OffsetOfWrap(front, n, m);
    }
    assert after[n] == c;
  }

  /** Clearing the front slot and stepping past it drops the first element. */
  lemma RingSeqRemove<T>(es: seq<Cell<T>>, front: int, n: nat, m: int)
    requires 0 <= front < m == |es| && 0 < n <= m
    ensures RingSeq(es[front := Vacant], Wrap(front + 1, m), n - 1, m) == RingSeq(es, front, n, m)[1..]
  {
    var after := RingSeq(es[front := Vacant], Wrap(front + 1, m), n - 1, m);
    var before := RingSeq(es, front, n, m);
    forall i | 0 <= i < n - 1
      ensures after[i] == before[i + 1]
    {
      OffsetOfWrap(front, i + 1, m);
      assert Wrap(Wrap(front + 1, m) + i, m) == Wrap(front + (i + 1), m) != front;
    }
  }

  /** The working copies a schedule starts from. */
  method ResetCopies(ps: seq<Process>) returns (work: seq<Process>)
    ensures work == ResetAll(ps)
  {
    work := ps;
    for i := 0 to |work|
      invariant |work| == |ps|
      invariant forall j :: 0 <= j < i ==> work[j] == Reset(ps[j])
      invariant forall j :: i <= j < |work| ==> work[j] == ps[j]
    {
      var p := work[i];
      p := p.(remaining := p.burst, completion := 0, waiting := 0, turnaround := 0, executed := false);
      work := work[i := p];
    }
  }

  lemma AppendAssoc<X>(a: seq<X>, b: seq<X>, c: seq<X>)
    ensures (a + b) + c == a + (b + c)
  {
  }

  class Queue<T> {
    const capacity: int
    const kind: Kind
    var elements: seq<Cell<T>>
    var front: int
    var rear: int
    var count: int

    // priority scheduling
    var processes: seq<Process>
    var gantt: seq<Segment>
    var currentTime: int

    ghost predicate RingValid()
      reads this`elements, this`front, this`rear, this`count
    {
      if capacity <= 0 then
        elements == [] && front == 0 && rear == -1 && count == 0
      else
        && |elements| == capacity
        && 0 <= front < capacity && -1 <= rear < capacity && 0 <= count <= capacity
        && (rear == -1 ==> front == 0 && count == 0)
        && (rear >= 0 ==> Wrap(rear + 1, capacity) == Wrap(front + count, capacity))
        && (forall k :: 0 <= k < capacity ==> elements[k].Vacant? || elements[k].Plain?)
        && (forall k :: 0 <= k < capacity ==> (elements[k].Vacant? <==> Offset(k, front, capacity) >= count))
    }

    ghost predicate ListValid()
      reads this`elements, this`front, this`rear, this`count
    {
      && front == 0
      && count == |elements|
      && (count <= capacity || count == 0)
      && (kind == Prioritized ==> AllRanked(elements) && SortedByPriority(elements) && -1 <= rear < |elements|)
      && (kind != Prioritized ==> rear == |elements| - 1 && forall i :: 0 <= i < |elements| ==> elements[i].Plain?)
    }

    /** The queue's invariant, for its kind. */
    ghost predicate Valid()
      reads this`elements, this`front, this`rear, this`count
    {
      && (kind == Circular ==> RingValid())
      && (kind != Circular ==> ListValid())
    }

    /** The scheduler's invariant: every stored burst is at least one tick. */
    ghost predicate Schedulable()
      reads this`processes
    {
      Runnable(processes)
    }

    /** The queue's contents from front to rear: what `to_list` returns. */
    ghost function Contents(): (cs: seq<Cell<T>>)
      reads this`elements, this`front, this`rear, this`count
      requires Valid()
      ensures |cs| == count
    {
      if kind == Circular then
        if capacity <= 0 then [] else RingSeq(elements, front, count, capacity)
      else
        elements
    }

    constructor (capacity: int, kind: Kind)
      ensures Valid() && Schedulable()
      ensures this.capacity == capacity && this.kind == kind
      ensures Contents() == [] && front == 0 && rear == -1 && count == 0
      ensures kind == Circular ==> elements == seq(if capacity < 0 then 0 else capacity, _ => Vacant)
      ensures processes == [] && gantt == [] && currentTime == 0
    {
      this.capacity := capacity;
      this.kind := kind;
      elements := if kind == Circular then seq(if capacity < 0 then 0 else capacity, _ => Vacant) else [];
      front := 0;
      rear := -1;
      count := 0;
      processes := [];
      gantt := [];
      currentTime := 0;
    }

    method Size() returns (n: int)
      requires Valid()
      ensures n == |Contents()|
      ensures n <= capacity || n == 0
    {
      return count;
    }

    method IsEmpty() returns (b: bool)
      requires Valid()
      ensures b <==> Contents() == []
    {
      return count == 0;
    }

    method IsFull() returns (b: bool)
      requires Valid()
      ensures b <==> |Contents()| >= capacity
    {
      return count >= capacity;
    }

    /** The front element without removing it; None when empty. */
    method Peek() returns (r: Option<Cell<T>>)
      requires Valid()
      ensures Contents() == [] ==> r == None
      ensures Contents() != [] ==> r == Some(Contents()[0]) && r.value != Vacant
    {
      var empty := IsEmpty();
      if empty {
        return None;
      }
      if kind == Circular {
        assert capacity > 0 && Wrap(front + 0, capacity) == front;
        assert Contents()[0] == elements[front];
        assert Offset(front, front, capacity) == 0;
        return Some(elements[front]);
      } else {
        return Some(elements[0]);
      }
    }

    /** Add at the rear; in a priority queue, after every element of the
        same or a smaller priority number. Fails when full. */
    method Enqueue(value: T, priority: Option<int>) returns (r: Result<bool>)
      requires Valid()
      modifies this`elements, this`rear, this`count
      ensures Valid()
      ensures old(count) >= capacity ==>
        r == Err(QueueOverflow) && elements == old(elements) && rear == old(rear) && count == old(count)
      ensures old(count) < capacity ==> r == Ok(true) && count == old(count) + 1
      ensures old(count) < capacity && kind == Prioritized ==>
        var c := Ranked(value, EffectivePriority(priority));
        var k := InsertPos(old(elements), c.priority);
        Contents() == old(Contents())[..k] + [c] + old(Contents())[k..] && rear == old(rear)
      ensures old(count) < capacity && kind != Prioritized ==> Contents() == old(Contents()) + [Plain(value)]
      ensures old(count) < capacity && kind == Circular ==>
        0 <= rear < |old(elements)| && old(elements)[rear].Vacant? && elements == old(elements)[rear := Plain(value)]
    {
      var full := IsFull();
      if full {
        return Err(QueueOverflow);
      }
      if kind == Prioritized {
        RankedEnqueue(Ranked(value, EffectivePriority(priority)));
      } else if kind == Circular {
        RingEnqueue(value);
      } else {
        elements := elements + [Plain(value)];
        rear := |elements| - 1;
        count := count + 1;
      }
      return Ok(true);
    }

    /** The ring-buffer half of `Enqueue`: advance `rear` round the ring,
        fill the slot it lands on, and count the new element. */
    method RingEnqueue(value: T)
      requires Valid() && kind == Circular && count < capacity
      modifies this`elements, this`rear, this`count
      ensures Valid()
      ensures count == old(count) + 1 && 0 <= rear < |old(elements)| && old(elements)[rear].Vacant?
      ensures elements == old(elements)[rear := Plain(value)]
      ensures Contents() == old(Contents()) + [Plain(value)]
    {
      ModIsWrap(rear + 1, capacity);
      OffsetOfWrap(front, count, capacity);
      RingSeqAdd(elements, front, count, capacity, Plain(value));
      rear := (rear + 1) % capacity;
      elements := elements[rear := Plain(value)];
      count := count + 1;
    }

    /** The priority-queue half of `Enqueue`: insert before the first
        element of a strictly larger priority number, and count it. */
    method RankedEnqueue(c: Cell<T>)
      requires Valid() && kind == Prioritized && count < capacity && c.Ranked?
      modifies this`elements, this`count
      ensures Valid() && count == old(count) + 1
      ensures elements == old(elements)[..InsertPos(old(elements), c.priority)] + [c]
        + old(elements)[InsertPos(old(elements), c.priority)..]
    {
      var i := 0;
      while i < |elements| && elements[i].priority <= c.priority
        invariant 0 <= i <= |elements|
        invariant forall j :: 0 <= j < i ==> elements[j].priority <= c.priority
      {
        i := i + 1;
      }
      InsertPosIs(elements, c.priority, i);
      elements := elements[..i] + [c] + elements[i..];
      count := count + 1;
    }

    /** Remove and return the front element. Fails when empty. */
    method Dequeue() returns (r: Result<Cell<T>>)
      requires Valid()
      modifies this`elements, this`front, this`rear, this`count
      ensures Valid()
      ensures old(count) == 0 ==>
        r == Err(QueueUnderflow) && elements == old(elements) && front == old(front) && rear == old(rear) && count == 0
      ensures old(count) > 0 ==>
        r == Ok(old(Contents())[0]) && r.value != Vacant && Contents() == old(Contents())[1..] && count == old(count) - 1
      ensures old(count) > 0 && kind == Circular ==>
        elements == old(elements)[old(front) := Vacant] && front == (old(front) + 1) % capacity && rear == old(rear)
      ensures old(count) > 0 && kind != Circular ==> elements == old(elements)[1..] && rear == |elements| - 1
    {
      var empty := IsEmpty();
      if empty {
        return Err(QueueUnderflow);
      }
      if kind == Circular {
        r := RingDequeue();
      } else {
        var value := elements[0];
        elements := elements[1..];
        rear := if elements != [] then |elements| - 1 else -1;
        count := count - 1;
        r := Ok(value);
      }
    }

    /** The ring-buffer half of `Dequeue`: take the front slot's element,
        clear the slot and step `front` round the ring. */
    method RingDequeue() returns (r: Result<Cell<T>>)
      requires Valid() && kind == Circular && count > 0
      modifies this`elements, this`front, this`count
      ensures Valid()
      ensures r == Ok(old(Contents())[0]) && r.value.Plain?
      ensures Contents() == old(Contents())[1..] && count == old(count) - 1
      ensures elements == old(elements)[old(front) := Vacant] && front == (old(front) + 1) % capacity
    {
      assert Wrap(front + 0, capacity) == front && Offset(front, front, capacity) == 0;
      var value := elements[front];
      ModIsWrap(front + 1, capacity);
      RingSeqRemove(elements, front, count, capacity);
      ghost var oldFront := front;
      elements := elements[front := Vacant];
      front := (front + 1) % capacity;
      count := count - 1;
      forall k | 0 <= k < capacity
        ensures elements[k].Vacant? <==> Offset(k, front, capacity) >= count
      {
        if k != oldFront {
          assert Offset(k, front, capacity) == Offset(k, oldFront, capacity) - 1;
        }
      }
      return Ok(value);
    }

    /** Add at the front of a double-ended queue. */
    method EnqueueFront(value: T) returns (r: Result<bool>)
      requires Valid()
      modifies this`elements, this`rear, this`count
      ensures Valid()
      ensures kind != DoubleEnded ==>
        r == Err(DequeOnly) && elements == old(elements) && rear == old(rear) && count == old(count)
      ensures kind == DoubleEnded && old(count) >= capacity ==>
        r == Err(DequeOverflow) && elements == old(elements) && rear == old(rear) && count == old(count)
      ensures kind == DoubleEnded && old(count) < capacity ==>
        r == Ok(true) && Contents() == [Plain(value)] + old(Contents()) && count == old(count) + 1
    {
      if kind != DoubleEnded {
        return Err(DequeOnly);
      }
      var full := IsFull();
      if full {
        return Err(DequeOverflow);
      }
      elements := [Plain(value)] + elements;
      rear := |elements| - 1;
      count := count + 1;
      return Ok(true);
    }

    /** Remove and return the rear element of a double-ended queue. */
    method DequeueRear() returns (r: Result<Cell<T>>)
      requires Valid()
      modifies this`elements, this`rear, this`count
      ensures Valid()
      ensures kind != DoubleEnded ==>
        r == Err(DequeOnly) && elements == old(elements) && rear == old(rear) && count == old(count)
      ensures kind == DoubleEnded && old(count) == 0 ==>
        r == Err(DequeUnderflow) && elements == old(elements) && rear == old(rear) && count == 0
      ensures kind == DoubleEnded && old(count) > 0 ==>
        r == Ok(old(Contents())[old(count) - 1]) && r.value.Plain?
        && Contents() == old(Contents())[..old(count) - 1] && count == old(count) - 1
    {
      if kind != DoubleEnded {
        return Err(DequeOnly);
      }
      var empty := IsEmpty();
      if empty {
        return Err(DequeUnderflow);
      }
      var value := elements[|elements| - 1];
      elements := elements[..|elements| - 1];
      rear := if elements != [] then |elements| - 1 else -1;
      count := count - 1;
      return Ok(value);
    }

    /** Empty the queue; a ring buffer gets all its slots back. */
    method Clear()
      requires Valid()
      modifies this`elements, this`front, this`rear, this`count
      ensures Valid()
      ensures Contents() == [] && front == 0 && rear == -1 && count == 0
      ensures kind == Circular ==> elements == seq(if capacity < 0 then 0 else capacity, _ => Vacant)
      ensures kind != Circular ==> elements == []
    {
      if kind == Circular {
        elements := seq(if capacity < 0 then 0 else capacity, _ => Vacant);
      } else {
        elements := [];
      }
      front := 0;
      rear := -1;
      count := 0;
    }

    /** The contents from front to rear; a ring buffer is walked slot by
        slot from `front`. */
    method ToList() returns (s: seq<Cell<T>>)
      requires Valid()
      ensures s == Contents()
      ensures forall i :: 0 <= i < |s| ==> s[i] != Vacant
    {
      if kind == Circular {
        s := [];
        var empty := IsEmpty();
        if !empty {
          var current := front;
          for i := 0 to count
            invariant 0 <= current < capacity && current == Wrap(front + i, capacity)
            invariant s == Contents()[..i]
          {
            OffsetOfWrap(front, i, capacity);
            s := s + [elements[current]];
            ModIsWrap(current + 1, capacity);
            current := (current + 1) % capacity;
          }
          assert s == Contents();
        }
        forall i | 0 <= i < |s|
          ensures s[i] != Vacant
        {
          OffsetOfWrap(front, i, capacity);
        }
      } else {
        s := elements;
      }
    }

    /** Record a new process for scheduling. The burst must be at least one
        tick and the priority one of 1, 2, 3, as the submission form
        enforces; with a burst of zero the scheduler would never finish. */
    method AddProcess(id: string, arrival: int, burst: int, priority: int) returns (p: Process)
      requires Schedulable() && burst >= 1 && 1 <= priority <= 3
      modifies this`processes
      ensures Schedulable()
      ensures p == NewProcess(id, arrival, burst, priority) && processes == old(processes) + [p]
    {
      p := NewProcess(id, arrival, burst, priority);
      processes := processes + [p];
    }

    method GetProcesses() returns (ps: seq<Process>)
      ensures ps == processes
    {
      return processes;
    }

    /** Forget every process and the last schedule. */
    method ResetScheduler()
      requires Schedulable()
      modifies this`processes, this`gantt, this`currentTime
      ensures Schedulable()
      ensures processes == [] && gantt == [] && currentTime == 0
    {
      processes := [];
      gantt := [];
      currentTime := 0;
    }

    /** Non-preemptive priority scheduling of the stored processes, tick by
        tick on reset working copies; the results are copied back to the
        stored processes. The run is the reference `Schedule`, so the
        lemmas of module `Scheduling` apply to what it stores. */
    method CalculatePrioritySchedule() returns (r: Result<Report>)
      requires Schedulable()
      modifies this`processes, this`gantt, this`currentTime
      ensures Schedulable()
      ensures old(processes) == [] ==>
        r == Err(NoProcesses) && processes == [] && gantt == old(gantt) && currentTime == old(currentTime)
      ensures old(processes) != [] ==>
        var run := Schedule(old(processes));
        && processes == WriteBack(old(processes), run.work)
        && gantt == run.gantt && currentTime == run.time
        && r == Ok(Report(processes, gantt, run.steps, TotalWaiting(processes), TotalTurnaround(processes), currentTime))
    {
      if processes == [] {
        return Err(NoProcesses);
      }
      currentTime := 0;
      gantt := [];
      var work := ResetCopies(processes);
      var steps;
      work, steps := RunToCompletion(work);
      CopyResults(work);
      r := Ok(Report(processes, gantt, steps, TotalWaiting(processes), TotalTurnaround(processes), currentTime));
    }

    /** The main loop: at each tick, run the most urgent arrived process to
        completion, or let one tick pass idle when none has arrived. */
    method RunToCompletion(reset: seq<Process>) returns (work: seq<Process>, steps: seq<Event>)
      requires Runnable(processes) && reset == ResetAll(processes) && gantt == [] && currentTime == 0
      modifies this`gantt, this`currentTime
      ensures var run := Schedule(processes);
        work == run.work && steps == run.steps && gantt == run.gantt && currentTime == run.time
    {
      work := reset;
      AllPending(processes);
      var completed := 0;
      var total := |work|;
      steps := [Started];
      ghost var target := Schedule(processes);
      // the reference run up to the end of the last completed process
      ghost var done := Run(ResetAll(processes), 0, [], [Started], []);
      while completed < total
        invariant 0 <= completed <= total && completed + PendingCount(work) == total
        invariant Tracking(done, work, steps, gantt, currentTime)
        invariant Continue(done) == target
        decreases total - completed, if PendingCount(work) > 0 then NextStart(work, done.time) - currentTime else 0
      {
        var ran;
        ran, work, steps := Tick(done, work, steps);
        if ran {
          completed := completed + 1;
          ContinueUnfold(done);
          done := Step(done);
        }
      }
      ContinueDone(done);
    }

    /** How the tick-by-tick state relates to the reference run `done`: the
        same working copies and chart, the idle ticks since `done` ended
        recorded, and the clock not past the next start. */
    ghost predicate Tracking(done: Run, work: seq<Process>, steps: seq<Event>, gantt: seq<Segment>, time: int) {
      && done.work == work && done.gantt == gantt && done.time <= time
      && steps == done.steps + IdleTicks(done.time, time)
      && (PendingCount(work) > 0 ==> time <= NextStart(work, done.time))
      && (PendingCount(work) == 0 ==> time == done.time)
    }

    /** One pass of the main loop: either no process has arrived and one
        tick passes idle, or the selected process runs to completion, which
        is one step of the reference run. */
    method Tick(ghost done: Run, work: seq<Process>, steps: seq<Event>)
      returns (ran: bool, work': seq<Process>, steps': seq<Event>)
      requires PendingCount(work) > 0 && Tracking(done, work, steps, gantt, currentTime)
      modifies this`gantt, this`currentTime
      ensures ran ==> Tracking(Step(done), work', steps', gantt, currentTime)
      ensures !ran ==> work' == work && currentTime == old(currentTime) + 1
      ensures !ran ==> Tracking(done, work', steps', gantt, currentTime)
    {
      var next := PickNext(work, currentTime);
      if next.None? {
        steps' := WaitOneTick(work, done.time, done.steps, steps);
        return false, work, steps';
      }
      work', steps' := RunSelected(done, work, next.value, steps);
      ran := true;
    }

    /** No process has arrived: one tick passes idle. */
    method WaitOneTick(ghost work: seq<Process>, ghost last: int, ghost before: seq<Event>, steps: seq<Event>)
      returns (steps': seq<Event>)
      requires PendingCount(work) > 0 && last <= currentTime <= NextStart(work, last)
      requires PickNext(work, currentTime).None?
      requires steps == before + IdleTicks(last, currentTime)
      modifies this`currentTime
      ensures currentTime == old(currentTime) + 1 <= NextStart(work, last)
      ensures steps' == before + IdleTicks(last, currentTime)
    {
      IdleTick(work, last, currentTime);
      currentTime := currentTime + 1;
      AppendAssoc(before, IdleTicks(last, currentTime - 1), [Idle(currentTime)]);
      steps' := steps + [Idle(currentTime)];
    }

    /** The selected process runs to completion: one Gantt segment, the
        clock advanced by its burst, its results recorded in its working
        copy. */
    method RunSelected(ghost done: Run, work: seq<Process>, k: nat, steps: seq<Event>)
      returns (work': seq<Process>, steps': seq<Event>)
      requires done.work == work && done.gantt == gantt && done.time <= currentTime
      requires PendingCount(work) > 0 && currentTime <= NextStart(work, done.time)
      requires PickNext(work, currentTime) == Some(k)
      requires steps == done.steps + IdleTicks(done.time, currentTime)
      modifies this`gantt, this`currentTime
      ensures work' == Step(done).work && gantt == Step(done).gantt && currentTime == Step(done).time
      ensures steps' == Step(done).steps
    {
      assert currentTime == NextStart(work, done.time);
      AdvanceRun(done, currentTime, k);
      var p := work[k];
      ghost var start := currentTime;
      var executing := Executing(p.id, currentTime, p.priority, p.burst);
      steps' := steps + [executing];
      gantt := gantt + [Segment(p.id, currentTime, currentTime + p.burst, p.priority)];
      currentTime := currentTime + p.burst;
      p := p.(completion := currentTime);
      p := p.(turnaround := p.completion - p.arrival);
      p := p.(waiting := p.turnaround - p.burst);
      p := p.(remaining := 0, executed := true);
      assert p == Execute(work[k], start);
      work' := work[k := p];
      var completed := Completed(p.id, currentTime, p.completion, p.turnaround, p.waiting);
      AppendAssoc(steps, [executing], [completed]);
      assert [executing] + [completed] == [executing, completed];
      steps' := steps' + [completed];
    }

    /** Copy each working copy's results into the stored process at the
        same position (the corrected form of the source's copy by id). */
    method CopyResults(work: seq<Process>)
      requires Runnable(processes) && |work| == |processes|
      modifies this`processes
      ensures Runnable(processes) && processes == WriteBack(old(processes), work)
    {
      ghost var stored := processes;
      for i := 0 to |processes|
        invariant |processes| == |work| == |stored|
        invariant forall j :: 0 <= j < i ==> processes[j] == WithResults(stored[j], work[j])
        invariant forall j :: i <= j < |processes| ==> processes[j] == stored[j]
      {
        var p := processes[i];
        p := p.(completion := work[i].completion, turnaround := work[i].turnaround, waiting := work[i].waiting, executed := true);
        processes := processes[i := p];
      }
    }
  }
}
