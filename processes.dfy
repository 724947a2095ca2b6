/** Process records (`Proceso`) and execution segments, the data the scheduling
    algorithms read and produce. */
module Processes {

  /** One process. The first three fields are the caller's specification; the
      others are filled in by a scheduling algorithm. `response` is -1 until the
      process is first dispatched. */
  datatype Process = Process(
    name: string,
    arrival: int,
    duration: int,
    remaining: int,
    start: int,
    completion: int,
    waiting: int,
    response: int)

  /** The sentinel the record keeps in `response` while it has not run yet. */
  const NotDispatched: int := -1

  /** One entry of the execution trace: `process` held the CPU over the time
      interval [start, finish). */
  datatype Segment = Segment(process: string, start: int, finish: int)

  /** A record as it is right after construction. */
  predicate Initial(p: Process)
  {
    p.remaining == p.duration && p.start == 0 && p.completion == 0 &&
    p.waiting == 0 && p.response == NotDispatched
  }

  /** A record that has not yet been given CPU time: all of its burst remains
      and no response time has been recorded. */
  predicate Undispatched(p: Process)
  {
    p.remaining == p.duration && p.response == NotDispatched
  }

  /** The constructor of a process record. */
  function NewProcess(name: string, arrival: int, duration: int): (p: Process)
    ensures p.name == name && p.arrival == arrival && p.duration == duration
    ensures Initial(p) && Undispatched(p)
  {
    Process(name, arrival, duration, duration, 0, 0, 0, NotDispatched)
  }

  /** The rule a process must satisfy before it is accepted: a non-empty name,
      a non-negative arrival time and a positive duration. */
  predicate WellFormed(p: Process)
  {
    |p.name| > 0 && p.arrival >= 0 && p.duration > 0
  }

  predicate AllWellFormed(ps: seq<Process>)
  {
    forall i :: 0 <= i < |ps| ==> WellFormed(ps[i])
  }

  /** The two rejections of the entry form, in the order they are checked. */
  datatype InputError = MissingName | NonPositiveTimes

  datatype Checked = Accepted(process: Process) | Rejected(error: InputError)

  /** The characters Python's `str.strip()` removes by default: those for
      which `str.isspace()` holds. */
  const Whitespace: set<char> :=
    {'\t', '\n', '\U{0B}', '\U{0C}', '\r', '\U{1C}', '\U{1D}', '\U{1E}', '\U{1F}', ' ',
     '\U{85}', '\U{A0}', '\U{1680}',
     '\U{2000}', '\U{2001}', '\U{2002}', '\U{2003}', '\U{2004}', '\U{2005}', '\U{2006}',
     '\U{2007}', '\U{2008}', '\U{2009}', '\U{200A}',
     '\U{2028}', '\U{2029}', '\U{202F}', '\U{205F}', '\U{3000}'}

  predicate IsSpace(c: char)
  {
    c in Whitespace
  }

  /** Where the run of characters of `ws` that `s` has from `k` on ends. */
  function LeadingEnd(s: string, ws: set<char>, k: nat): (n: nat)
    requires k <= |s|
    ensures k <= n <= |s| && forall m :: k <= m < n ==> s[m] in ws
    ensures n < |s| ==> s[n] !in ws
    decreases |s| - k
  {
    if k < |s| && s[k] in ws then LeadingEnd(s, ws, k + 1) else k
  }

  /** Where the run of characters of `ws` that `s[lo..k]` ends with begins. */
  function TrailingStart(s: string, ws: set<char>, lo: nat, k: nat): (n: nat)
    requires lo <= k <= |s|
    ensures lo <= n <= k && forall m :: n <= m < k ==> s[m] in ws
    ensures n > lo ==> s[n - 1] !in ws
  {
    if k > lo && s[k - 1] in ws then TrailingStart(s, ws, lo, k - 1) else k
  }

  /** `str.strip()`: `s` without its leading and trailing whitespace. The
      result is a slice of `s` with only whitespace outside it, it neither
      starts nor ends with whitespace, and it is empty exactly when `s` is
      all whitespace. */
  function Strip(s: string): (t: string)
    ensures t == [] <==> forall k :: 0 <= k < |s| ==> IsSpace(s[k])
    ensures t != [] ==> !IsSpace(t[0]) && !IsSpace(t[|t| - 1])
    ensures var i := LeadingEnd(s, Whitespace, 0);
      i + |t| <= |s| && t == s[i..i + |t|] &&
      (forall k :: 0 <= k < i ==> IsSpace(s[k])) && (forall k :: i + |t| <= k < |s| ==> IsSpace(s[k]))
  {
    var i := LeadingEnd(s, Whitespace, 0);
    var j := TrailingStart(s, Whitespace, i, |s|);
    assert i < |s| ==> j > i;
    s[i..j]
  }

  /** Validation of an entered process: the name, stripped of surrounding
      whitespace, is checked first, then the two times; an accepted entry
      becomes a freshly constructed record with the stripped name. */
  function CheckEntry(name: string, arrival: int, duration: int): (r: Checked)
    ensures r.Accepted? <==> Strip(name) != [] && arrival >= 0 && duration > 0
    ensures r == Rejected(MissingName) <==> forall k :: 0 <= k < |name| ==> IsSpace(name[k])
    ensures r == Rejected(NonPositiveTimes) <==> Strip(name) != [] && (arrival < 0 || duration <= 0)
    ensures r.Accepted? ==>
      WellFormed(r.process) && Initial(r.process) &&
      r.process.name == Strip(name) && r.process.arrival == arrival && r.process.duration == duration
  {
    var nombre := Strip(name);
    if |nombre| == 0 then Rejected(MissingName)
    else if arrival < 0 || duration <= 0 then Rejected(NonPositiveTimes)
    else Accepted(NewProcess(nombre, arrival, duration))
  }

  /** `q` describes the same job as `p`: an algorithm only ever fills in the
      computed fields of its working copy. */
  predicate SameJob(p: Process, q: Process)
  {
    p.name == q.name && p.arrival == q.arrival && p.duration == q.duration
  }

  function Max(a: int, b: int): int
  {
    if a < b then b else a
  }
}
