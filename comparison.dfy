/** Comparing the three algorithms on the planner's processes
    (`comparar_algoritmos`): each algorithm's mean waiting and mean response
    time, and for each of the two metrics the algorithm with the lowest
    mean, ties going to the one listed first (FIFO, then SJF, then Round
    Robin). */
module Comparison {
  import opened Processes
  import opened Indices
  import opened NonPreemptive
  import opened Planning
  import FifoScheduler
  import SjfScheduler
  import RoundRobinScheduler

  datatype Algorithm = FIFO | SJF | RoundRobin

  /** The finalised records an algorithm returns, in the order it returns
      them. */
  function Returned(work: seq<Process>, order: seq<nat>): (rs: seq<Process>)
    requires Below(order, |work|)
    ensures |rs| == |order| && forall k :: 0 <= k < |order| ==> rs[k] == work[order[k]]
  {
    seq(|order|, k requires 0 <= k < |order| => work[order[k]])
  }

  /** `sum(p.tiempo_espera for p in procesos)`: not negative when no record
      waits a negative time. */
  function TotalWaiting(rs: seq<Process>): (t: int)
    ensures (forall k :: 0 <= k < |rs| ==> rs[k].waiting >= 0) ==> t >= 0
  {
    if rs == [] then 0
    else
      var front := rs[..|rs| - 1];
      assert forall k :: 0 <= k < |front| ==> front[k] == rs[k];
      TotalWaiting(front) + rs[|rs| - 1].waiting
  }

  /** `sum(p.tiempo_respuesta for p in procesos)`: not negative when no
      record has a negative response time. */
  function TotalResponse(rs: seq<Process>): (t: int)
    ensures (forall k :: 0 <= k < |rs| ==> rs[k].response >= 0) ==> t >= 0
  {
    if rs == [] then 0
    else
      var front := rs[..|rs| - 1];
      assert forall k :: 0 <= k < |front| ==> front[k] == rs[k];
      TotalResponse(front) + rs[|rs| - 1].response
  }

  /** `sum(...) / len(procesos)`, exact: the mean times the count is the
      total. */
  function Mean(total: int, n: nat): (m: real)
    requires n > 0
    ensures m * n as real == total as real
  {
    total as real / n as real
  }

  /** The value the metric takes for algorithm `a`. */
  function ValueOf(a: Algorithm, fifo: real, sjf: real, rr: real): real
  {
    match a
    case FIFO => fifo
    case SJF => sjf
    case RoundRobin => rr
  }

  /** The `if`/`elif`/`else` chain of lines 477-489: the algorithm with the
      lowest value; on a tie the one listed first. */
  function Lowest(fifo: real, sjf: real, rr: real): (a: Algorithm)
    ensures ValueOf(a, fifo, sjf, rr) <= fifo && ValueOf(a, fifo, sjf, rr) <= sjf &&
            ValueOf(a, fifo, sjf, rr) <= rr
    ensures a != FIFO ==> fifo > ValueOf(a, fifo, sjf, rr)
    ensures a == RoundRobin ==> sjf > rr
  {
    if fifo <= sjf && fifo <= rr then FIFO
    else if sjf <= fifo && sjf <= rr then SJF
    else RoundRobin
  }

  /** Dividing by the same positive count keeps the order of the totals. */
  lemma MeanMonotone(t1: int, t2: int, n: nat)
    requires n > 0
    ensures Mean(t1, n) <= Mean(t2, n) <==> t1 <= t2
  {
    var d := n as real;
    assert Mean(t1, n) * d == t1 as real && Mean(t2, n) * d == t2 as real;
    if t1 <= t2 {
      assert Mean(t2, n) * d - Mean(t1, n) * d >= 0.0;
      assert (Mean(t2, n) - Mean(t1, n)) * d >= 0.0;
    } else {
      assert (Mean(t1, n) - Mean(t2, n)) * d > 0.0;
    }
  }

  /** Comparing means, as the source does, chooses the same algorithm as
      comparing integer totals over the same processes. */
  lemma LowestMeanIsLowestTotal(fifo: int, sjf: int, rr: int, n: nat)
    requires n > 0
    ensures Lowest(Mean(fifo, n), Mean(sjf, n), Mean(rr, n)) == Lowest(fifo as real, sjf as real, rr as real)
  {
    MeanMonotone(fifo, sjf, n);
    MeanMonotone(sjf, fifo, n);
    MeanMonotone(fifo, rr, n);
    MeanMonotone(sjf, rr, n);
  }

  /** Where every record's response time equals its waiting time, as FIFO and
      SJF produce, the two totals agree and are not negative. */
  lemma {:induction false} NonPreemptiveTotals(rs: seq<Process>)
    requires forall k :: 0 <= k < |rs| ==> RanToCompletion(rs[k])
    ensures TotalResponse(rs) == TotalWaiting(rs) >= 0
  {
    if rs != [] {
      NonPreemptiveTotals(rs[..|rs| - 1]);
    }
  }

  /** Where every record responds no later than it waits, as round robin
      produces, the total response is between 0 and the total waiting. */
  lemma {:induction false} PreemptiveTotals(rs: seq<Process>)
    requires forall k :: 0 <= k < |rs| ==> 0 <= rs[k].response <= rs[k].waiting
    ensures 0 <= TotalResponse(rs) <= TotalWaiting(rs)
  {
    if rs != [] {
      PreemptiveTotals(rs[..|rs| - 1]);
    }
  }

  /** Total waiting and total response time of one algorithm's records. */
  datatype Totals = Totals(waiting: int, response: int)

  datatype Report = Report(fifo: Totals, sjf: Totals, rr: Totals, count: nat,
                           lowestWaiting: Algorithm, lowestResponse: Algorithm)

  function TotalsOf(rs: seq<Process>): Totals
  {
    Totals(TotalWaiting(rs), TotalResponse(rs))
  }

  /** FIFO's records respond exactly when they start waiting to end, so its
      two totals agree and are not negative. */
  lemma FifoTotals(ps: seq<Process>, work: seq<Process>, order: seq<nat>, trace: seq<Segment>)
    requires FifoScheduler.FifoOutcome(ps, work, order, trace)
    ensures Below(order, |work|)
    ensures TotalResponse(Returned(work, order)) == TotalWaiting(Returned(work, order)) >= 0
  {
    NonPreemptiveTotals(Returned(work, order));
  }

  /** Likewise for shortest job first. */
  lemma SjfTotals(ps: seq<Process>, work: seq<Process>, order: seq<nat>, trace: seq<Segment>,
                  admitted: seq<int>)
    requires SjfScheduler.SjfOutcome(ps, work, order, trace, admitted)
    ensures Below(order, |work|)
    ensures TotalResponse(Returned(work, order)) == TotalWaiting(Returned(work, order)) >= 0
  {
    NonPreemptiveTotals(Returned(work, order));
  }

  /** Round robin's total response is between 0 and its total waiting. */
  lemma RoundRobinTotals(ps: seq<Process>, quantum: int, work: seq<Process>, order: seq<nat>,
                         trace: seq<Segment>, owner: seq<nat>, runs: seq<RoundRobinScheduler.State>)
    requires RoundRobinScheduler.RoundRobinOutcome(ps, quantum, work, order, trace, owner, runs)
    ensures Below(order, |work|)
    ensures 0 <= TotalResponse(Returned(work, order)) <= TotalWaiting(Returned(work, order))
  {
    PreemptiveTotals(Returned(work, order));
  }

  /** The report on three algorithms' records over `n` processes: their
      totals, and for each metric the algorithm with the lowest mean, which
      is the one with the lowest total. */
  function Summary(fifo: seq<Process>, sjf: seq<Process>, rr: seq<Process>, n: nat): (m: Report)
    requires n > 0
    ensures m.fifo == TotalsOf(fifo) && m.sjf == TotalsOf(sjf) && m.rr == TotalsOf(rr) && m.count == n
    ensures m.lowestWaiting == Lowest(m.fifo.waiting as real, m.sjf.waiting as real, m.rr.waiting as real)
    ensures m.lowestResponse == Lowest(m.fifo.response as real, m.sjf.response as real, m.rr.response as real)
  {
    var f := TotalsOf(fifo);
    var s := TotalsOf(sjf);
    var r := TotalsOf(rr);
    LowestMeanIsLowestTotal(f.waiting, s.waiting, r.waiting, n);
    LowestMeanIsLowestTotal(f.response, s.response, r.response, n);
    Report(f, s, r, n,
           Lowest(Mean(f.waiting, n), Mean(s.waiting, n), Mean(r.waiting, n)),
           Lowest(Mean(f.response, n), Mean(s.response, n), Mean(r.response, n)))
  }

  /** `comparar_algoritmos` without the text: with no processes there is
      nothing to compare and the quantum is not read; otherwise the quantum
      is read, the three algorithms run, and for each metric the algorithm
      with the lowest mean is named. The runs themselves are returned as
      ghost outputs, so that the totals can be traced to them. */
  method CompareAlgorithms(planner: Planner, entry: Option<int>)
    returns (r: Option<Report>,
             ghost workF: seq<Process>, ghost orderF: seq<nat>, ghost traceF: seq<Segment>,
             ghost workS: seq<Process>, ghost orderS: seq<nat>, ghost traceS: seq<Segment>,
             ghost admitted: seq<int>,
             ghost workR: seq<Process>, ghost orderR: seq<nat>, ghost traceR: seq<Segment>,
             ghost owner: seq<nat>, ghost runs: seq<RoundRobinScheduler.State>)
    requires AllWellFormed(planner.processes)
    requires forall i :: 0 <= i < |planner.processes| ==> Undispatched(planner.processes[i])
    modifies planner
    ensures planner.processes == old(planner.processes)
    ensures r.None? <==> old(planner.processes) == []
    ensures r.None? ==> planner.quantum == old(planner.quantum)
    ensures r.Some? ==>
      planner.quantum == EntryQuantum(entry) &&
      FifoScheduler.FifoOutcome(planner.processes, workF, orderF, traceF) &&
      SjfScheduler.SjfOutcome(planner.processes, workS, orderS, traceS, admitted) &&
      RoundRobinScheduler.RoundRobinOutcome(planner.processes, planner.quantum, workR, orderR, traceR,
                                            owner, runs) &&
      var m := r.value;
      (m.count == |planner.processes| &&
       m.fifo == TotalsOf(Returned(workF, orderF)) &&
       m.sjf == TotalsOf(Returned(workS, orderS)) &&
       m.rr == TotalsOf(Returned(workR, orderR)) &&
       m.fifo.response == m.fifo.waiting >= 0 && m.sjf.response == m.sjf.waiting >= 0 &&
       0 <= m.rr.response <= m.rr.waiting &&
       m.lowestWaiting == Lowest(m.fifo.waiting as real, m.sjf.waiting as real, m.rr.waiting as real) &&
       m.lowestResponse == Lowest(m.fifo.response as real, m.sjf.response as real, m.rr.response as real))
  {
    if planner.processes == [] {
      return None, [], [], [], [], [], [], [], [], [], [], [], [];
    }
    planner.ReadQuantum(entry);
    var wF, oF, tF := planner.Fifo();
    var wS, oS, tS;
    wS, oS, tS, admitted := planner.Sjf();
    var wR, oR, tR;
    wR, oR, tR, owner, runs := planner.RoundRobin();
    workF, orderF, traceF := wF, oF, tF;
    workS, orderS, traceS := wS, oS, tS;
    workR, orderR, traceR := wR, oR, tR;
    FifoTotals(planner.processes, wF, oF, tF);
    SjfTotals(planner.processes, wS, oS, tS, admitted);
    RoundRobinTotals(planner.processes, planner.quantum, wR, oR, tR, owner, runs);
    r := Some(Summary(Returned(wF, oF), Returned(wS, oS), Returned(wR, oR), |planner.processes|));
  }
}
