# Data-structure teaching back end, in Dafny

This project models the computational core of a small Flask application that
teaches data structures. The core has three parts:

- **The bounded multi-mode queue.** `Queue` in `utils/queue.py` is one class
  that acts as a linear FIFO, a circular ring buffer, a deque or a priority
  queue, chosen by its `queue_type`. The same class also holds a
  non-preemptive priority CPU scheduler: `add_process`,
  `calculate_priority_schedule`, `get_processes` and `reset_scheduler`.
- **The bounded stack.** `Stack` in `utils/stack.py` is a LIFO whose capacity
  defaults to 10.
- **The expression engine** in `app.py`. `precedence` and `infix_to_postfix`
  form a shunting-yard converter over an operator `Stack`. `evaluate_postfix`
  is a postfix evaluator over an operand `Stack`.

The files:

| file | module | contents |
|---|---|---|
| `errors.dfy` | `Errors` | one error constructor per exception message; `Option`, `Result` |
| `stack.dfy` | `Stacks` | class `Stack<T>`: a capacity and a `seq` of elements, bottom to top |
| `queue.dfy` | `Queues` | class `Queue<T>` with the queue fields (`elements`, `front`, `rear`, `count`) and the scheduler fields (`processes`, `gantt`, `currentTime`); the tick-by-tick scheduler loop |
| `scheduling.dfy` | `Scheduling` | the process records and a reference run of the scheduler as functions, with the lemmas about it |
| `expressions.dfy` | `Expressions` | the converter and the evaluator: recursive reference functions, the imperative procedures proved equal to them, `split`/`join`, and their properties |
| `expression_theory.dfy` | `ExpressionTheory` | an expression tree and its printing, postfix form and value; proofs that the engine converts and evaluates the printed tree correctly |

Each class method changes only the fields in its `modifies` clause. Its
`ensures` clause gives the whole new state: for the queue, the contents seen
front to rear (`Contents()`); for the stack, the `elements` sequence. The
queue's invariant `Valid()` is kept by every operation. In circular mode this
invariant says:

- `rear` is the slot before `(front + count) mod capacity`;
- the occupied slots are exactly the `count` slots from `front` on;
- every other slot is empty (`None`).

The scheduler loop, `Queue.RunToCompletion`, is proved to compute exactly the
reference run `Scheduling.Schedule`. So the lemmas about `Schedule` apply to
what the class stores. Likewise, `InfixToPostfix` and `EvaluatePostfix` are
proved equal to `ToPostfix`/`Join` and to `Evaluate`/`Split`.

Two behaviours of the source are worth stating up front:

- The scheduler is non-preemptive (docstring at `utils/queue.py:160`): once
  selected, a process runs to completion in the loop at
  `utils/queue.py:183-212`. For instance, `P1` (arrival 0, burst 4,
  priority 2) and `P2` (arrival 2, burst 2, priority 1) give the segments
  `[0,4) [4,6)`, as `Scheduling.NoPreemption` states.
- The priority queue never updates `rear` on enqueue
  (`utils/queue.py:23-36`); only a dequeue resets it to the last index
  (`utils/queue.py:59`).

## Model

| member | source | states |
|---|---|---|
| `Stacks.Stack.constructor` | utils/stack.py:2-4 | a new stack has the given capacity and no elements |
| `Stacks.Stack.Push` | utils/stack.py:6-10 | when `len(elements) >= capacity`: fails with stack overflow and changes nothing; otherwise appends the value and returns true; the size bound is kept |
| `Stacks.Stack.Pop` | utils/stack.py:12-15 | an empty stack fails with stack underflow; otherwise returns the most recently pushed value and removes exactly it |
| `Stacks.Stack.Peek` | utils/stack.py:17-20 | None exactly when empty, otherwise the top element; no state change |
| `Stacks.Stack.Size` | utils/stack.py:22-23 | the number of elements, which never exceeds the capacity (or is 0) |
| `Stacks.Stack.IsEmpty` | utils/stack.py:25-26 | true exactly when there are no elements |
| `Stacks.Stack.IsFull` | utils/stack.py:28-29 | true exactly when the size has reached the capacity |
| `Stacks.Stack.Clear` | utils/stack.py:31-32 | leaves no elements |
| `Stacks.Stack.ToList` | utils/stack.py:34-35 | the contents bottom to top, as a value that later pushes and pops cannot change |
| `Stacks.PushThenPop` | utils/stack.py:6-15 | push then pop on a stack that is not full returns the pushed value and restores the previous contents |
| `Queues.Queue.constructor` | utils/queue.py:3-17 | empty contents, `front == 0`, `rear == -1`, `count == 0`; a circular queue gets `capacity` empty slots; no processes, no chart, time 0 |
| `Queues.EffectivePriority` | utils/queue.py:25 | a missing or zero priority becomes 5; any other is kept |
| `Queues.InsertPos` | utils/queue.py:27-36 | the insertion point has only priorities `<=` the new one before it and a strictly larger one at it |
| `Queues.InsertPosIs` | utils/queue.py:27-36 | that insertion point is unique: any index with those two properties equals it |
| `Queues.Queue.Enqueue` | utils/queue.py:19-47 | full queue: queue overflow, nothing changes; otherwise `count` grows by one; a priority queue inserts before the first strictly larger priority; other kinds append at the rear; in a ring the slot written was empty and no other slot changes |
| `Queues.Queue.RingEnqueue` | utils/queue.py:38-41 | `rear` advances modulo capacity onto an empty slot; only that slot is written; the element is appended to the contents |
| `Queues.Queue.RankedEnqueue` | utils/queue.py:23-36 | the elements stay sorted by priority, and the new one follows every element of equal priority (FIFO among equals) |
| `Queues.RingSeqAdd` | utils/queue.py:38-41 | filling the slot after the last occupied one appends to the ring's contents |
| `Queues.RingSeqRemove` | utils/queue.py:53-56 | clearing the front slot and stepping `front` drops the first element of the contents |
| `Queues.Queue.Dequeue` | utils/queue.py:49-62 | empty: queue underflow, nothing changes; otherwise returns the first element of the contents, leaves the rest in order, decrements `count`; a ring clears the old front slot and advances `front` modulo capacity; the other kinds drop the first element and set `rear` to the last index (`-1` when empty) |
| `Queues.Queue.RingDequeue` | utils/queue.py:53-56 | takes the front slot's element, resets that slot to empty, `front` advances modulo capacity |
| `Queues.Queue.EnqueueFront` | utils/queue.py:64-74 | not a deque: fails, nothing changes; full deque: deque overflow; otherwise the value goes in front of the contents |
| `Queues.Queue.DequeueRear` | utils/queue.py:76-86 | not a deque: fails, nothing changes; empty deque: deque underflow; otherwise returns and removes the last element |
| `Queues.Queue.Peek` | utils/queue.py:88-95 | None when empty, otherwise the front element (never an empty slot); no state change |
| `Queues.Queue.Size` | utils/queue.py:97-98 | the number of elements in the contents, at most the capacity |
| `Queues.Queue.IsEmpty` | utils/queue.py:100-101 | true exactly when the contents are empty |
| `Queues.Queue.IsFull` | utils/queue.py:103-104 | true exactly when the contents have reached the capacity |
| `Queues.Queue.Clear` | utils/queue.py:106-114 | empty contents, `front == 0`, `rear == -1`, `count == 0`; a ring gets all its slots back empty |
| `Queues.Queue.ToList` | utils/queue.py:116-127 | the elements front to rear (a ring walked from `front` modulo capacity), none of them an empty slot |
| `Queues.Queue.AddProcess` | utils/queue.py:143-157 | appends the new record: inputs as given, remaining time equal to the burst, results zero, not executed |
| `Queues.Queue.GetProcesses` | utils/queue.py:247-249 | the stored processes |
| `Queues.Queue.ResetScheduler` | utils/queue.py:251-255 | no processes, no chart, time 0 |
| `Queues.ResetCopies` | utils/queue.py:167-175 | the working copies are the stored processes with results cleared and remaining time reset to the burst |
| `Queues.Queue.CalculatePrioritySchedule` | utils/queue.py:159-245 | no processes: fails with "No processes to schedule" and changes nothing; otherwise chart, clock and trace are those of the reference schedule, the stored processes receive its results, and the report carries them with the total waiting and turnaround times |
| `Queues.Queue.RunToCompletion` | utils/queue.py:177-224 | the tick-by-tick loop ends with exactly the working copies, chart, trace and clock of the reference run |
| `Queues.Queue.Tick` | utils/queue.py:183-218 | one pass of the loop either idles one tick with nothing else changed, or is one step of the reference run |
| `Queues.Queue.WaitOneTick` | utils/queue.py:190-194 | with no eligible process, the clock advances by exactly 1 and one idle event is recorded |
| `Queues.Queue.RunSelected` | utils/queue.py:196-223 | the selected process runs its whole burst as one Gantt segment; its completion, turnaround and waiting are recorded |
| `Queues.Queue.CopyResults` | utils/queue.py:225-232 | each stored process receives only the results of its own run; inputs and remaining time stay |
| `Scheduling.NewProcess` | utils/queue.py:145-155 | the stored record: inputs as given, remaining time = burst, no results |
| `Scheduling.Reset` | utils/queue.py:170-175 | a working copy keeps the inputs and clears the results |
| `Scheduling.PickNext` | utils/queue.py:185-197 | None exactly when no process has arrived unfinished; otherwise an eligible process that no eligible process precedes in (priority, arrival), and that precedes every eligible process earlier in the list (the first among equals) |
| `Scheduling.NextStart` | utils/queue.py:183-194 | the clock after idling: not before now, a process is eligible then, and it is now unless nothing unfinished had arrived |
| `Scheduling.IdleTick` | utils/queue.py:190-194 | while nothing is eligible the next start is still ahead, and one tick adds one idle event |
| `Scheduling.IdleTicks` | utils/queue.py:190-194 | one idle event per tick, stamped with the time after the tick |
| `Scheduling.Execute` | utils/queue.py:211-217 | completion = start + burst, turnaround = completion - arrival, waiting = turnaround - burst, finished, inputs unchanged |
| `Scheduling.Step` | utils/queue.py:183-218 | each selection finishes exactly one unfinished process |
| `Scheduling.PendingDrops` | utils/queue.py:216-218 | finishing a process lowers the unfinished count by one, the loop's measure |
| `Scheduling.AllPending` | utils/queue.py:170-178 | after the reset every process is unfinished |
| `Scheduling.ContinueKeeps` | utils/queue.py:183-224 | the run invariant (shape, each segment, each fair choice) holds to the end, where nothing is unfinished |
| `Scheduling.EachProcessRunsOnce` | utils/queue.py:199-218 | every process gets exactly one Gantt segment, for its whole burst, starting no earlier than its arrival |
| `Scheduling.SegmentsOrdered` | utils/queue.py:204-212 | segments never overlap, start times strictly increase, and the clock ends at the last segment's end |
| `Scheduling.ScheduleResults` | utils/queue.py:211-217 | per process: inputs kept, finished, turnaround = completion - arrival, waiting = turnaround - burst >= 0, completion is the end of its own segment |
| `Scheduling.SelectionsFair` | utils/queue.py:183-197 | every selection was the most urgent arrived, unfinished process (earliest in list among equals), and the CPU idled only when nothing unfinished had arrived |
| `Scheduling.NoPreemption` | utils/queue.py:159-218 | a more urgent process arriving while another runs waits until that one completes |
| `Scheduling.ScheduleOnlyReadsInputs` | utils/queue.py:164-175 | the schedule depends only on the processes' inputs, never on earlier results |
| `Scheduling.ScheduleIdempotent` | utils/queue.py:164-232 | re-running after the results were copied back gives the identical run |
| `Scheduling.ReportTotals` | utils/queue.py:234-236 | total turnaround minus total waiting equals total burst; total waiting is never negative |
| `Scheduling.WithResults` | utils/queue.py:228-232 | only completion, turnaround, waiting and executed change |
| `Scheduling.WriteBack` | utils/queue.py:225-232 | the corrected write-back: position i receives the results of working copy i |
| `Scheduling.FirstWithId` | utils/queue.py:227 | the first stored process with the id, or None exactly when there is none |
| `Scheduling.WriteBackById` | utils/queue.py:225-232 | the write-back as written: each working copy's results go to the first stored process with its id; the list length is kept |
| `Scheduling.WriteBackByIdAgrees` | utils/queue.py:225-232 | with unique ids the write-back by id equals the write-back by position |
| `Scheduling.DuplicateIdsLoseResults` | utils/queue.py:225-232 | with two processes sharing an id, the second stored one is never marked executed by the write-back by id, while the write-back by position marks it |
| `Scheduling.DuplicateIdsExample` | utils/queue.py:225-232 | the concrete input `P1(0,2,1)`, `P1(0,3,2)` leaves the second record unexecuted |
| `Scheduling.PendingBelow` | utils/queue.py:177-187 | a list holding a finished process has fewer unfinished processes than entries |
| `Scheduling.NonPositiveBurstNeverRuns` | utils/queue.py:169-187 | as written, a process whose burst is zero or less is never available at any time, so fewer than all processes can ever complete and `completed < total_processes` never becomes false |
| `Scheduling.ZeroBurstExample` | utils/queue.py:177-193 | a single process with burst 0: no process is available at any time, so the loop only advances the clock |
| `Expressions.Precedence` | app.py:180-185 | 2 exactly for `*` and `/`, 1 exactly for `+` and `-`, 0 for everything else, `(` included |
| `Expressions.RemoveSpaces` | app.py:190 | no U+0020 is left; a text without one is unchanged; with `RemoveSpacesConcat` and `RemoveSpacesChar`: a space is dropped, every other character is kept, in order |
| `Expressions.RemoveSpacesChar` | app.py:190 | one character: a space becomes nothing, any other character is kept |
| `Expressions.RemoveSpacesConcat` | app.py:190 | removing spaces from `a + b` gives what `a` keeps followed by what `b` keeps, so the other characters survive in order |
| `Expressions.DigitRun` | app.py:200-205 | the maximal run of digits starting at the index |
| `Expressions.DigitRunIs` | app.py:200-205 | any maximal digit run found by scanning has exactly that length |
| `Expressions.PopUntilOpenPops` | app.py:212-214 | `)` pops, top first, exactly the characters above the topmost `(` and stops at it or at the bottom |
| `Expressions.PopWhileGeqPops` | app.py:218-221 | an operator pops, top first, exactly the characters above the topmost one binding less tightly |
| `Expressions.FlushPops` | app.py:226-228 | the end of input pops the whole stack, top first |
| `Expressions.InfixToPostfix` | app.py:188-230 | the index loop returns the error of `ToPostfix`, or its tokens joined by single spaces (`Join`) |
| `Expressions.PopToOpen` | app.py:213-214 | the `)` loop pops exactly as the function `PopUntilOpen` does |
| `Expressions.PopBindingAtLeast` | app.py:219-221 | the operator loop pops exactly as the function `PopWhileGeq` does |
| `Expressions.PopAll` | app.py:227-228 | the final loop empties the stack onto the output, top first |
| `Expressions.OperatorStopsAtOpen` | app.py:218-222 | an operator never pops a `(`; it pops exactly the operators above it that bind at least as tightly, so equal precedences come out left to right |
| `Expressions.PopExactly` | app.py:218-221 | popping by precedence removes exactly a top part binding at least as tightly when the element below binds less |
| `Expressions.CloseEmitsUpToOpen` | app.py:212-215 | `)` emits the operators above the nearest `(` top first and discards that `(` |
| `Expressions.UnmatchedCloseUnderflows` | app.py:212-215 | a `)` with no `(` on the stack fails with stack underflow |
| `Expressions.NestingOverflows` | app.py:207-209 | more consecutive `(` than the stack has room for fail with stack overflow |
| `Expressions.OperandsInOrder` | app.py:199-205 | each maximal digit run becomes one output token, numbers leave in input order, and no other token is a number |
| `Expressions.OperandsInDigits` | app.py:199-205 | the digit-run case of the previous row |
| `Expressions.SplitGivesWords` | app.py:234 | every token of `split()` is non-empty and has no whitespace |
| `Expressions.SplitJoin` | app.py:230-234 | splitting the space-joined words gives back exactly those words |
| `Expressions.ConvertGivesWords` | app.py:188-230 | on text without whitespace, every output token is a word |
| `Expressions.PostfixTextSplits` | app.py:230-234 | the text the converter returns splits back into exactly its token list (whitespace other than U+0020 excluded) |
| `Expressions.Calc` | app.py:253-263 | `+ - *` succeed with `operand1 + operand2`, `operand1 - operand2`, `operand1 * operand2`; `/` reports division as outside the model; anything else is an unknown operator |
| `Expressions.EvalOne` | app.py:239-269 | one loop body on the live stack does what the function `EvalToken` says: push a number, or pop operand2 then operand1 and push the result, with the same errors |
| `Expressions.EvaluatePostfix` | app.py:233-274 | the token loop and final pop return exactly `Evaluate` of `Split(expression)` |
| `Expressions.OneStepPerToken` | app.py:238-271 | one step per token; each step is its token applied to the previous step's stack; the last step's stack is the final stack |
| `Expressions.OperatorNeedsTwoOperands` | app.py:248-251 | an operator with fewer than two operands fails with stack underflow |
| `Expressions.UnknownOperatorFails` | app.py:262-263 | any operator other than `+ - * /` fails with an unknown-operator error |
| `Expressions.OperandsOverflow` | app.py:241-243 | more live operands than the capacity fail with stack overflow |
| `Expressions.EmptyInputUnderflows` | app.py:273 | an expression with no tokens fails at the final pop with stack underflow |
| `ExpressionTheory.PendingFacts` | app.py:217-228 | the operators an expression leaves stacked bind at least as tightly as it, fit its depth, and complete its postfix form when popped |
| `ExpressionTheory.ReadExpr` | app.py:196-224 | reading an expression emits its operands and inner operators in postfix order and leaves its pending operators on the stack |
| `ExpressionTheory.ReadNum` | app.py:199-205 | a number is read as one token |
| `ExpressionTheory.ReadGroup` | app.py:207-215 | a parenthesised expression is read as its inner postfix form, with the stack as before |
| `ExpressionTheory.ReadInner` | app.py:207-215 | after its `(`, an inner expression and its `)` emit the inner postfix form and remove the `(` |
| `ExpressionTheory.CloseAfter` | app.py:212-215 | the `)` after an inner expression pops exactly what it left pending, then the `(` |
| `ExpressionTheory.ReadBin` | app.py:217-222 | an operation is read as its left postfix form, then its right operand, leaving its operator pending |
| `ExpressionTheory.ReadLeft` | app.py:217-222 | the operator after a left operand completes the operand's postfix form and is pushed |
| `ExpressionTheory.OperatorAfter` | app.py:217-222 | that operator pops exactly what the left operand left pending |
| `ExpressionTheory.EvalExpr` | app.py:238-266 | evaluating the postfix tokens of an expression pushes its value |
| `ExpressionTheory.EvalBin` | app.py:247-266 | an operation's tokens push its operands' values, then the operator replaces them by their result |
| `ExpressionTheory.ApplyOperator` | app.py:248-266 | an operator token replaces the top two values `a`, `b` by `a op b` |
| `ExpressionTheory.PostfixWords` | app.py:230-234 | postfix tokens are words, so `split()` keeps them whole |
| `ExpressionTheory.ConvertsToPostfix` | app.py:188-230 | the printed text of a well-formed expression converts to its postfix form |
| `ExpressionTheory.EvaluatesToValue` | app.py:233-274 | a division-free expression's postfix form evaluates to its value |
| `ExpressionTheory.Correctness` | app.py:188-274 | end to end, within both stacks' capacity: the conversion is the postfix form, its text splits back into the same tokens, and evaluation gives the expression's value |

## Left out

- The Flask routes, the JSON request and response handling, and the global
  instances in `app.py` are not modelled. Neither are the browser scripts in
  `static/js/`. The only thing taken from the scripts is the submission
  form's validation (burst at least 1, priority 1 to 3). It appears as the
  precondition of `Queues.Queue.AddProcess`; without `burst >= 1` the
  source's scheduler loop would never end (see Findings).
- Floating point is not modelled:
  - the average waiting and turnaround times are modelled as integer sums
    (`Scheduling.TotalWaiting`, `Scheduling.TotalTurnaround`);
  - `/` in `evaluate_postfix` yields the error `DivisionNotModelled` after
    its two operands are popped, instead of a float result or Python's
    division-by-zero error.
- The wording of the trace lines is not modelled. Each line is an `Event`
  that carries the values the line prints. The evaluator's `step` records
  keep the action's values, not its text.
- `get_circular_state`, `get_gantt_chart` and `get_execution_steps` are not
  modelled; they are read-only accessors and formatting.
- A `queue_type` other than the four known tags behaves as linear in the
  source. The model's `Kind` has only the four kinds.
- An empty ring-buffer slot (Python `None`) is the `Vacant` cell. The model
  does not let a stored value itself be `None`.
- `isdigit` accepts only ASCII digits here, and `int()` is modelled on ASCII
  digit strings; other Unicode digits are not modelled.
- The source's objects are stored by reference: `get_processes` and the
  schedule report return the queue's own `processes` and `gantt_chart`
  lists (`utils/queue.py:238-249`); a non-circular `to_list` returns a
  shallow copy whose element objects (the priority queue's dicts) stay
  shared. Dafny sequences are values, so later changes never show through a
  list already returned, and aliasing is not modelled.
- `Expressions.PostfixTextSplits`: this is stated only for expressions whose
  whitespace is U+0020. `replace(" ", "")` keeps tabs and other whitespace,
  which the converter turns into operator tokens that `split()` then drops.
- `Queues.Queue.CopyResults`: the stored processes receive the results of
  the run by position, each from its own working copy. The source writes
  them back by id to the first stored process with that id
  (`utils/queue.py:226-232`). The two agree when ids are unique
  (`Scheduling.WriteBackByIdAgrees`); when ids repeat, the source leaves the
  later duplicate unexecuted and overwrites the first twice, while the model
  marks both executed (see Findings).
- `Queues.Queue.CalculatePrioritySchedule`: it writes back through
  `CopyResults`, so it shares the by-position write-back above and diverges
  from the source in the same way when ids repeat.
- `ExpressionTheory.Correctness`: this is stated only for well-formed
  expression trees without `/` that fit both stacks' capacity. Inputs that
  are not such a printed tree are covered by the error lemmas of
  `Expressions`, not by a value theorem.

## Findings

| source | as written | input that shows it | evidently intended | confidence | as-written member | corrected member |
|---|---|---|---|---|---|---|
| utils/queue.py:226-232 | the results of each working copy are written to the first stored process with the same id | two processes both named `P1`: (arrival 0, burst 2, priority 1) and (arrival 0, burst 3, priority 2) | each stored process receives the results of its own run and is marked executed | not executed | `Scheduling.DuplicateIdsExample` | `Scheduling.WriteBackByIdAgrees` |
| utils/queue.py:183-212 | the loop runs until `completed` reaches the number of processes, but a process is available only while its remaining time is positive, and `add_process` (`app.py:150-157`) accepts any burst | one process `P1` with arrival 0, burst 0, priority 1 | a burst of zero or less is refused before scheduling, so every process runs once and the loop ends | not executed | `Scheduling.ZeroBurstExample` | `Scheduling.EachProcessRunsOnce` |

With the first input above, the source writes the second run's results over the
first record, and the second record is never marked executed
(`Scheduling.WriteBackById`, `Scheduling.DuplicateIdsLoseResults`). The class
copies the results back by position instead (`Scheduling.WriteBack`, used by
`Queues.Queue.CopyResults`). This agrees with the source whenever the ids
are unique.

With the second input, `P1` is never available, so the source's loop
advances the clock for ever (`Scheduling.NonPositiveBurstNeverRuns`). The
model refuses such a burst as the precondition of
`Queues.Queue.AddProcess`, which keeps `Scheduling.Runnable` for the stored
list; under it, every process runs exactly once
(`Scheduling.EachProcessRunsOnce`) and the class's loop ends.
