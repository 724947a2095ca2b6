/** The scheduler object (`PlanificadorProcesos`): the list of submitted
    processes and the round-robin quantum, and the three algorithms run on
    that list. Each algorithm works on a copy, so running one leaves the
    planner as it was. */
module Planning {
  import opened Processes
  import opened Indices
  import opened Arrivals
  import opened Traces
  import opened NonPreemptive
  import FifoScheduler
  import SjfScheduler
  import RoundRobinScheduler

  datatype Option<T> = None | Some(value: T)

  /** The quantum a new planner starts with, and the fallback of the entry. */
  const DefaultQuantum: int := 3

  /** The quantum entry as the source reads it (lines 335-338, 445-448):
      `None` is text that is not an integer, which falls back to the
      default; any integer, zero and negatives included, is taken as is. */
  function QuantumAsWritten(entry: Option<int>): (q: int)
    ensures entry.Some? ==> q == entry.value
    ensures entry.None? ==> q == DefaultQuantum
  {
    match entry
    case None => DefaultQuantum
    case Some(q) => q
  }

  /** The quantum entry as evidently intended: a quantum that is not
      positive is refused like one that is not an integer. */
  function EntryQuantum(entry: Option<int>): (q: int)
    ensures q > 0
    ensures entry.Some? && entry.value > 0 ==> q == entry.value
    ensures entry.None? || entry.value <= 0 ==> q == DefaultQuantum
  {
    match entry
    case Some(q) => if q > 0 then q else DefaultQuantum
    case None => DefaultQuantum
  }

  /** The two readings differ exactly on the non-positive entries. */
  lemma EntryQuantumAgrees(entry: Option<int>)
    ensures EntryQuantum(entry) == QuantumAsWritten(entry) <==> entry.None? || entry.value > 0
  {
  }

  /** With a quantum the source lets through, zero or negative, a slice of
      the round-robin loop completes nothing and does not shorten what the
      running process has left, while the clock does not advance: the loop
      `while len(completados) < len(procesos)` never ends. */
  lemma NonPositiveQuantumStalls(entry: Option<int>, ps: seq<Process>, ord: seq<nat>,
                                 work: seq<Process>, queue: seq<nat>, order: seq<nat>, cursor: nat,
                                 clock: int, trace: seq<Segment>, owner: seq<nat>,
                                 work': seq<Process>, queue': seq<nat>, order': seq<nat>, cursor': nat,
                                 clock': int, trace': seq<Segment>, owner': seq<nat>)
    requires entry.Some? && entry.value <= 0
    requires RoundRobinScheduler.SliceStep(ps, QuantumAsWritten(entry), ord, work, queue, order, cursor,
                                           clock, trace, owner,
                                           work', queue', order', cursor', clock', trace', owner')
    requires work[queue[0]].remaining > 0
    ensures order' == order && clock' <= clock
    ensures work'[queue[0]].remaining >= work[queue[0]].remaining
  {
  }

  class Planner {
    /** `procesos`, in submission order. */
    var processes: seq<Process>
    var quantum: int

    constructor ()
      ensures processes == [] && quantum == DefaultQuantum
    {
      processes := [];
      quantum := DefaultQuantum;
    }

    /** `agregar_proceso`. */
    method Add(p: Process)
      modifies this
      ensures processes == old(processes) + [p] && quantum == old(quantum)
    {
      processes := processes + [p];
    }

    /** `limpiar_procesos`. */
    method Clear()
      modifies this
      ensures processes == [] && quantum == old(quantum)
    {
      processes := [];
    }

    /** Reads the quantum entry before an algorithm runs. */
    method ReadQuantum(entry: Option<int>)
      modifies this
      ensures quantum == EntryQuantum(entry) && processes == old(processes)
    {
      quantum := EntryQuantum(entry);
    }

    /** `fifo`: runs first-come-first-served on a copy of the processes. */
    method Fifo() returns (work: seq<Process>, order: seq<nat>, trace: seq<Segment>)
      requires AllWellFormed(processes)
      ensures FifoScheduler.FifoOutcome(processes, work, order, trace)
    {
      work, order, trace := FifoScheduler.Fifo(processes);
    }

    /** `sjf`: runs non-preemptive shortest-job-first on a copy. */
    method Sjf() returns (work: seq<Process>, order: seq<nat>, trace: seq<Segment>, ghost admitted: seq<int>)
      requires AllWellFormed(processes)
      ensures SjfScheduler.SjfOutcome(processes, work, order, trace, admitted)
    {
      work, order, trace, admitted := SjfScheduler.Sjf(processes);
    }

    /** `round_robin`: runs round robin with the planner's quantum on a copy. */
    method RoundRobin() returns (work: seq<Process>, order: seq<nat>, trace: seq<Segment>,
                                 ghost owner: seq<nat>, ghost runs: seq<RoundRobinScheduler.State>)
      requires AllWellFormed(processes) && quantum > 0
      requires forall i :: 0 <= i < |processes| ==> Undispatched(processes[i])
      ensures RoundRobinScheduler.RoundRobinOutcome(processes, quantum, work, order, trace, owner, runs)
    {
      work, order, trace, owner, runs := RoundRobinScheduler.RoundRobin(processes, quantum);
    }
  }
}
