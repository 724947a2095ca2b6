# Process scheduling simulator: the scheduling engine

This project models the engine of a CPU-scheduling simulator, `simulador.py`.
It covers the process record `Proceso`, the scheduler object
`PlanificadorProcesos`, and that object's three algorithms:

- `fifo`: first come, first served.
- `sjf`: non-preemptive shortest job first.
- `round_robin`: preemptive, with a quantum.

It also models the input rule applied when a process is entered, and the
choice of the best algorithm in `comparar_algoritmos`.

Each algorithm takes the submitted processes, each with a name, an arrival
time and a duration. It returns the finalised records and the trace of CPU
segments `{proceso, inicio, fin}`.

The model is imperative where the source is:

- Each algorithm is a `method` with its loop.
- The clock is a local variable.
- The working copy (`copy.deepcopy`) is a local `seq<Process>` that the loop
  updates record by record.
- `completados`, `pendientes` and `cola` are sequences of indices into that
  copy. A process is identified by its index, which plays the part of Python's
  object identity in the `in` tests.
- The scheduler object is a `class Planner` with the fields `processes` and
  `quantum`.

Each loop is proved against a specification:

- FIFO: its order is the stable sort by arrival.
- SJF: every dispatch is a shortest-job choice among the processes that have
  arrived.
- Round robin:
  - Every slice is `min(quantum, remaining)`.
  - The slices of a process add up to its duration.
  - The response time is set exactly at the first dispatch.
  - The loop always terminates.
  - The states the loop passes through are returned as a ghost run, each
    state one pass after the one before, and there is only one complete run:
    the schedule, down to which process gets each slice, is determined.

Modules:

- `Processes` (processes.dfy): records, segments and the input rule.
- `Indices`: index lists.
- `Arrivals`: the stable arrival order that `sorted` returns.
- `Traces`: sequential traces, makespan, and the CPU time per process.
- `NonPreemptive`: facts shared by FIFO and SJF.
- `FifoScheduler`, `SjfScheduler`, `RoundRobinScheduler`: the three
  algorithms.
- `Planning`: the scheduler object and the quantum entry.
- `Comparison`: the algorithm comparison.

Two behaviours of the code are modelled as written, although a reader might
expect otherwise:

- Round robin never assigns `tiempo_inicio`, so the model leaves `start` as
  the constructor set it. It does not record the first dispatch there; the
  response time records it.
- SJF's tie-break is the code's: `min` returns the first minimum of
  `pendientes`, so ties go to the process that entered the pending list
  first. That is the one admitted at the earlier clock, and within one
  admission pass the one submitted earlier. This is not a rule by arrival
  time.

## Model

| member | source | states |
|---|---|---|
| Processes.NewProcess | simulador.py:11-19 | A new record has the given name, arrival and duration. All of its duration remains, and start, completion and waiting are 0. Its response is the sentinel -1. |
| Processes.Strip | simulador.py:268 | `str.strip()`: the result is the slice of the name between its leading and its trailing whitespace, in Python's whitespace set. It neither starts nor ends with whitespace, and it is empty exactly when the name is all whitespace. |
| Processes.CheckEntry | simulador.py:268-280 | The name is stripped first. An entry is accepted exactly when the stripped name is non-empty, arrival ≥ 0 and duration > 0. A name that is empty or all whitespace is reported first, bad times second. An accepted entry is a freshly constructed, well-formed record carrying the stripped name. |
| Arrivals.ArrivalOrder | simulador.py:37 | The order `sorted` by arrival gives lists every process exactly once. Arrivals are non-decreasing, and equal arrivals keep submission order. |
| Arrivals.StableOrderIsUnique | simulador.py:109 | Any two stable arrival orders of the same processes are equal. So every stable sort, Python's included, yields ArrivalOrder. |
| NonPreemptive.Dispatch | simulador.py:45-48 | A process dispatched at t ≥ arrival gets start t and completion t + duration. Its waiting and response are both t − arrival. Its job fields are unchanged. |
| NonPreemptive.NonPreemptiveSequential | simulador.py:50-56 | One segment per dispatch, each starting no earlier than the previous completion, makes the trace sequential. |
| Traces.SequentialDisjoint | simulador.py:137-141 | In a sequential trace every earlier segment ends before every later one starts. |
| Traces.Makespan | simulador.py:385 | The total completion time bounds every segment's `fin` and equals one of them. |
| Traces.SequentialMakespan | simulador.py:385 | For a sequential trace the makespan is the last segment's `fin`. |
| Traces.BusyWithinSpan | simulador.py:154-157 | A process's CPU time in a sequential trace is at most the span from its first segment's start to its last segment's end. |
| FifoScheduler.Fifo | simulador.py:35-58 | Ensures FifoOutcome: the returned order is the stable arrival order. Every record ran to completion with start = max(previous completion or 0, arrival) and waiting = response = start − arrival ≥ 0. There is exactly one segment per process, in dispatch order, and the trace is sequential. |
| FifoScheduler.RunInOrder | simulador.py:41-56 | The dispatch loop, for any permutation of the processes: each one runs to completion when both the CPU and the process are ready. There is one segment each, and the trace is sequential. |
| SjfScheduler.EarliestArrival | simulador.py:78 | While some process is not completed, the value is the arrival of such a process and no larger than any of their arrivals. |
| SjfScheduler.ShortestAt | simulador.py:83 | The chosen position holds a pending process of least duration, and every earlier position holds a strictly longer one (the first minimum). |
| SjfScheduler.Newcomers | simulador.py:70-74 | A process is admitted exactly when it has arrived by the clock and is neither completed nor pending. Those admitted are in list order. |
| SjfScheduler.Admit | simulador.py:70-74 | The admission loop appends exactly the newcomers to the pending list. |
| SjfScheduler.IdleJump | simulador.py:76-80 | With nothing pending the clock jumps strictly forward, to the earliest arrival of an uncompleted process. Two jumps never follow each other, and the loop invariant holds at the new clock. |
| SjfScheduler.ChoiceIsShortest | simulador.py:83-84 | The choice has arrived and was admitted by the clock. No uncompleted process that has arrived is shorter, and each such process was admitted by then. An equally short one entered the pending list later. |
| SjfScheduler.DispatchShortest | simulador.py:82-98 | The first shortest pending process is removed, run to completion at the clock and appended to `completados`. This keeps the loop invariant. |
| SjfScheduler.Sjf | simulador.py:60-100 | Ensures SjfOutcome: `completados` lists every process once, and each ran to completion. Start = max(previous completion or 0, earliest uncompleted arrival). Each choice is shortest among the arrived uncompleted processes, ties going to the earlier admitted. Every admission stamp is the start time of some dispatch. There is one segment each, and the trace is sequential. |
| SjfScheduler.AdmissionIsFirstDispatch | simulador.py:67-97 | The admission stamps are fixed by the dispatches. A process's stamp is no earlier than its arrival, is a dispatch start, and is no later than any dispatch start at or after its arrival. So it is the earliest dispatch start at or after the arrival. |
| RoundRobinScheduler.SliceLength | simulador.py:132 | The slice is the smaller of quantum and remaining time. It is positive when both are. |
| RoundRobinScheduler.AdmitCursor | simulador.py:114-117 | Where the admission loop stops: every process in line before that point has arrived by the clock, and the one at that point, if any, has not. |
| RoundRobinScheduler.AdmitCursorUnique | simulador.py:144-147 | Only one stopping point has those properties, so the admission after a slice is determined by the clock. |
| RoundRobinScheduler.Admit | simulador.py:114-117 | The queue gains, in arrival order, exactly the next processes in line that have arrived by the clock. The next one in line, if any, has not. It stops where AdmitCursor says. |
| RoundRobinScheduler.InitialInv | simulador.py:104-110 | The loop invariant holds before the first pass. |
| RoundRobinScheduler.AdmitKeepsInv | simulador.py:114-117 | Admission keeps the invariant. Every admitted, uncompleted process is queued, and each process's bookkeeping is kept. |
| RoundRobinScheduler.EmptyQueueMeansArrivalPending | simulador.py:119-123 | An empty queue with processes uncompleted implies a process not yet admitted, so the `continue` always has an arrival to jump to. |
| RoundRobinScheduler.JumpKeepsInv | simulador.py:121-122 | The idle jump moves the clock forward to the next arrival in line and keeps the invariant. |
| RoundRobinScheduler.NoSecondJump | simulador.py:119-123 | After a jump, the next admission takes the process jumped to, so the idle branch is never taken twice in a row. |
| RoundRobinScheduler.Slice | simulador.py:125-158 | One pass with a non-empty queue, as a step relation. The head runs min(quantum, remaining) from the clock and gets its response time at its first dispatch only. The segment is emitted, and arrivals during the slice are queued before the head is requeued. Otherwise the head completes with completion = clock and waiting = completion − arrival − duration. |
| RoundRobinScheduler.SliceKeepsInv | simulador.py:125-158 | A slice keeps the invariant, and the outstanding CPU time strictly decreases. |
| RoundRobinScheduler.SliceOutstanding | simulador.py:132-135 | A slice takes a positive amount off the total remaining time, which never goes negative. |
| RoundRobinScheduler.SentinelMeansUndispatched | simulador.py:128-129 | A process's response is −1 exactly when it has had no segment yet. |
| RoundRobinScheduler.RoundRobin | simulador.py:102-160 | Ensures RoundRobinOutcome. The loop terminates with `completados` listing every process once, in strictly increasing completion order. For every process: remaining 0, slice lengths summing to its duration, response = first segment start − arrival, completion = last segment end, and waiting = completion − arrival − duration with 0 ≤ response ≤ waiting. Each segment is min(quantum, what earlier segments left), starting after arrival, and the trace is sequential. The ghost `runs` is a run of the loop, each state one pass (admission, then idle jump or slice) after the previous, ending in the returned records, order, trace and owners. |
| RoundRobinScheduler.PassDeterministic | simulador.py:112-157 | From a given loop state there is only one state one pass later. |
| RoundRobinScheduler.RunIsUnique | simulador.py:102-160 | Two complete runs from the same processes and quantum are equal, so the returned run, and with it which process gets each slice, is determined. |
| Planning.Planner.constructor | simulador.py:25-27 | A new planner has no processes and quantum 3. |
| Planning.Planner.Add | simulador.py:29-30 | Appends the process; the quantum is unchanged. |
| Planning.Planner.Clear | simulador.py:32-33 | Empties the process list; the quantum is unchanged. |
| Planning.Planner.ReadQuantum | simulador.py:335-338 | Sets the quantum from the entry by the corrected reading EntryQuantum (see Findings), so always to a positive value; the processes are unchanged. |
| Planning.Planner.Fifo | simulador.py:35-58 | FIFO on a copy of the planner's processes, which are left unchanged. Its results satisfy FifoOutcome in full, as FifoScheduler.Fifo states. |
| Planning.Planner.Sjf | simulador.py:60-100 | SJF on a copy. Its results, with the ghost admission stamps, satisfy SjfOutcome in full, as SjfScheduler.Sjf states. |
| Planning.Planner.RoundRobin | simulador.py:102-160 | Round robin on a copy with the planner's quantum. Its results, with the ghost owners and run, satisfy RoundRobinOutcome in full, as RoundRobinScheduler.RoundRobin states. |
| Planning.QuantumAsWritten | simulador.py:445-448 | The quantum entry as the source reads it, here and at lines 335-338: an integer entry, of any sign, is the quantum; an entry that is not an integer gives 3. |
| Planning.EntryQuantum | simulador.py:335-338 | The corrected reading of the quantum entry: always positive. It is the entry itself when the entry is a positive integer, and 3 otherwise. |
| Planning.EntryQuantumAgrees | simulador.py:335-338 | The corrected reading differs from the source's reading exactly on non-positive integers. |
| Planning.NonPositiveQuantumStalls | simulador.py:132-135 | With the quantum the source accepts for an entry ≤ 0, a slice completes nothing, does not shorten the running process's remaining time and does not advance the clock. |
| Comparison.Lowest | simulador.py:477-489 | The chosen algorithm's value is the least of the three. Every algorithm listed before it has a strictly larger value (ties go to FIFO, then SJF). |
| Comparison.TotalWaiting | simulador.py:457 | The sum of the waiting times; not negative when no record waits a negative time. |
| Comparison.TotalResponse | simulador.py:458 | The sum of the response times; not negative when no record has a negative response time. |
| Comparison.Mean | simulador.py:457-458 | The exact mean: times the count it gives back the total. |
| Comparison.MeanMonotone | simulador.py:456-459 | Dividing totals by the same positive count preserves their order, in both directions. |
| Comparison.LowestMeanIsLowestTotal | simulador.py:477-489 | Choosing by means picks the same algorithm as choosing by integer totals. |
| Comparison.NonPreemptiveTotals | simulador.py:456-459 | For FIFO and SJF records, total response equals total waiting and is non-negative. |
| Comparison.PreemptiveTotals | simulador.py:456-459 | For round-robin records, 0 ≤ total response ≤ total waiting. |
| Comparison.FifoTotals | simulador.py:456-459 | FIFO's returned records have equal response and waiting totals, not negative. |
| Comparison.SjfTotals | simulador.py:456-459 | SJF's returned records have equal response and waiting totals, not negative. |
| Comparison.RoundRobinTotals | simulador.py:456-459 | Round robin's returned records have a response total between 0 and the waiting total. |
| Comparison.Summary | simulador.py:456-489 | The report holds each algorithm's totals and the count. For each metric it names the algorithm whose total is lowest, ties to the one listed first, which is the choice the source makes by means. |
| Comparison.CompareAlgorithms | simulador.py:440-489 | With no processes nothing is compared and the quantum is not read. Otherwise the quantum is read and all three algorithms run, leaving the processes unchanged. The three runs are returned as ghost outputs satisfying FifoOutcome, SjfOutcome and RoundRobinOutcome. The report's totals are the totals of exactly those runs' returned records. FIFO and SJF have equal response and waiting totals, and round robin's response total is at most its waiting total. For each metric the named algorithm is the lowest by totals. |

## Left out

- The tkinter interface (`InterfazSimulador`): window layout, entry fields, message boxes, the process list view, and `limpiar_campos`/`limpiar_todo`. It is user-interface code.
- The Gantt chart (`dibujar_gantt`), colours and the random example loader. These are drawing and randomness.
- The text of `mostrar_resultados` and `comparar_algoritmos`. The comparison is modelled on exact totals and exact real means. Float rounding of the averages and the `.2f` formatting are not modelled.
- Parsing of the entry fields with `int(...)`. An entry is an integer, or `None` when it is not one.
- `Proceso.__str__`, which is display only.
- Segment names are not assumed unique. Round robin's model carries a ghost list of which process owns each segment.
- SJF's model carries ghost admission stamps, the clock at which each process entered `pendientes`, to state the tie-break.
- Planning.Planner.RoundRobin, RoundRobinScheduler.RoundRobin and Comparison.CompareAlgorithms require that no input record has been dispatched yet (remaining = duration, response = −1). This always holds for the planner's records: they come from the constructor, and every algorithm runs on a copy.
- RoundRobinScheduler.RoundRobin requires quantum > 0. Without it the source's loop does not terminate (see Findings).

## Findings

| source | as written | input that shows it | evidently intended | confidence | as-written member | corrected member |
|---|---|---|---|---|---|---|
| simulador.py:335-338 | Only a `ValueError` falls back to quantum 3, so an integer entry of 0 or less becomes the quantum. | Quantum entry `0` with one process of duration 1. Every slice then has length 0, the process never completes, and `while len(completados) < len(procesos)` runs forever. A negative entry makes `tiempo_restante` grow instead. | A quantum that is not positive is refused like a non-integer entry, and the default 3 is used. | medium, not executed | Planning.QuantumAsWritten, Planning.NonPositiveQuantumStalls | Planning.EntryQuantum |
