/** Per-thread statistics of one query and their merge over all threads
    (OraThread, allocQhist and main of ocimtquery.c). */
module QueryStats {
  import opened Percentiles

  /** One successful execution: total and execute-only time in microseconds, rows fetched. */
  datatype Sample = Sample(elapsed: nat, exec: nat, rows: nat)

  /** What an iteration of the timing loop meets. */
  datatype Outcome = Completed(s: Sample) | ExecuteFails | FetchFails | TimeUp

  /** The sentinels that minima start from: in a thread, and in the merge. */
  const THREAD_MAX: nat := 999999999
  const MERGE_MAX: nat := 9999999999

  /** execs, elapsed (= sumrt), rows, and the two pairs of extremes. */
  datatype Stats = Stats(execs: nat, elapsed: nat, rows: nat, minrt: nat, maxrt: nat,
                         sumexecrt: nat, minexecrt: nat, maxexecrt: nat)

  function Elapsed(): Sample -> nat { (s: Sample) => s.elapsed }
  function Exec(): Sample -> nat { (s: Sample) => s.exec }
  function Rows(): Sample -> nat { (s: Sample) => s.rows }

  function Min(a: nat, b: nat): nat { if a < b then a else b }
  function Max(a: nat, b: nat): nat { if a > b then a else b }

  function SumOf(ss: seq<Sample>, f: Sample -> nat): nat {
    if ss == [] then 0 else SumOf(ss[..|ss| - 1], f) + f(ss[|ss| - 1])
  }

  function MinOf(ss: seq<Sample>, f: Sample -> nat, top: nat): nat {
    if ss == [] then top else Min(f(ss[|ss| - 1]), MinOf(ss[..|ss| - 1], f, top))
  }

  function MaxOf(ss: seq<Sample>, f: Sample -> nat): nat {
    if ss == [] then 0 else Max(f(ss[|ss| - 1]), MaxOf(ss[..|ss| - 1], f))
  }

  /** The statistics of a list of samples. */
  function Summary(ss: seq<Sample>, top: nat): Stats {
    Stats(|ss|, SumOf(ss, Elapsed()), SumOf(ss, Rows()), MinOf(ss, Elapsed(), top), MaxOf(ss, Elapsed()),
          SumOf(ss, Exec()), MinOf(ss, Exec(), top), MaxOf(ss, Exec()))
  }

  function Booked(q: Stats, s: Sample): Stats {
    Stats(q.execs + 1, q.elapsed + s.elapsed, q.rows + s.rows, Min(s.elapsed, q.minrt), Max(s.elapsed, q.maxrt),
          q.sumexecrt + s.exec, Min(s.exec, q.minexecrt), Max(s.exec, q.maxexecrt))
  }

  lemma SummarySnoc(ss: seq<Sample>, s: Sample, top: nat)
    ensures Summary(ss + [s], top) == Booked(Summary(ss, top), s)
  {
    assert (ss + [s])[..|ss|] == ss;
  }

  // ------------------------------------------------------------------------
  // What the reported figures mean
  // ------------------------------------------------------------------------

  lemma {:induction false} MinAtMostTop(ss: seq<Sample>, f: Sample -> nat, top: nat)
    ensures MinOf(ss, f, top) <= top
  {
    if ss != [] {
      MinAtMostTop(ss[..|ss| - 1], f, top);
    }
  }

  ghost predicate IsLeast(ss: seq<Sample>, f: Sample -> nat, m: nat) {
    (exists k :: 0 <= k < |ss| && f(ss[k]) == m) && forall k :: 0 <= k < |ss| ==> m <= f(ss[k])
  }

  ghost predicate IsGreatest(ss: seq<Sample>, f: Sample -> nat, m: nat) {
    (exists k :: 0 <= k < |ss| && f(ss[k]) == m) && forall k :: 0 <= k < |ss| ==> f(ss[k]) <= m
  }

  /** The reported minimum is the least time exactly if some time does not exceed the sentinel. */
  lemma {:induction false} MinimumIff(ss: seq<Sample>, f: Sample -> nat, top: nat)
    ensures IsLeast(ss, f, MinOf(ss, f, top)) <==> exists k :: 0 <= k < |ss| && f(ss[k]) <= top
    ensures (forall k :: 0 <= k < |ss| ==> f(ss[k]) > top) ==> MinOf(ss, f, top) == top
    ensures forall k :: 0 <= k < |ss| ==> MinOf(ss, f, top) <= f(ss[k])
  {
    if ss != [] {
      var front := ss[..|ss| - 1];
      MinimumIff(front, f, top);
      MinAtMostTop(front, f, top);
    }
  }

  lemma {:induction false} MaximumIsGreatest(ss: seq<Sample>, f: Sample -> nat)
    requires ss != []
    ensures IsGreatest(ss, f, MaxOf(ss, f))
  {
    var front := ss[..|ss| - 1];
    if front != [] {
      MaximumIsGreatest(front, f);
    }
    assert ss[|ss| - 1] == ss[|front|];
  }

  function Total(ns: seq<nat>): nat {
    if ns == [] then 0 else Total(ns[..|ns| - 1]) + ns[|ns| - 1]
  }

  lemma {:induction false} SumIsTotal(ss: seq<Sample>, f: Sample -> nat, ns: seq<nat>)
    requires |ns| == |ss| && forall k :: 0 <= k < |ss| ==> ns[k] == f(ss[k])
    ensures SumOf(ss, f) == Total(ns)
  {
    if ss != [] {
      SumIsTotal(ss[..|ss| - 1], f, ns[..|ns| - 1]);
    }
  }

  function Times(ss: seq<Sample>): seq<nat> {
    seq(|ss|, k requires 0 <= k < |ss| => ss[k].elapsed)
  }

  function ExecTimes(ss: seq<Sample>): seq<nat> {
    seq(|ss|, k requires 0 <= k < |ss| => ss[k].exec)
  }

  function RowCounts(ss: seq<Sample>): seq<nat> {
    seq(|ss|, k requires 0 <= k < |ss| => ss[k].rows)
  }

  /** What the reported figures say about all samples. A minimum is only reported if some time does not exceed
      999999999 microseconds. */
  ghost predicate Reports(q: Stats, ss: seq<Sample>) {
    && q.execs == |ss|
    && q.elapsed == Total(Times(ss)) && q.sumexecrt == Total(ExecTimes(ss)) && q.rows == Total(RowCounts(ss))
    && (ss != [] ==> IsGreatest(ss, Elapsed(), q.maxrt) && IsGreatest(ss, Exec(), q.maxexecrt))
    && ((exists k :: 0 <= k < |ss| && ss[k].elapsed <= 999999999) ==> IsLeast(ss, Elapsed(), q.minrt))
    && ((exists k :: 0 <= k < |ss| && ss[k].exec <= 999999999) ==> IsLeast(ss, Exec(), q.minexecrt))
  }

  lemma SummaryReports(ss: seq<Sample>, top: nat)
    requires ss != [] ==> top == THREAD_MAX
    ensures Reports(Summary(ss, top), ss)
  {
    if ss != [] {
      MaximumIsGreatest(ss, Elapsed());
      MaximumIsGreatest(ss, Exec());
    }
    MinimumIff(ss, Elapsed(), top);
    MinimumIff(ss, Exec(), top);
    SumIsTotal(ss, Elapsed(), Times(ss));
    SumIsTotal(ss, Exec(), ExecTimes(ss));
    SumIsTotal(ss, Rows(), RowCounts(ss));
    assert forall k :: 0 <= k < |ss| ==> Elapsed()(ss[k]) == ss[k].elapsed && Exec()(ss[k]) == ss[k].exec;
  }

  // ------------------------------------------------------------------------
  // Recording
  // ------------------------------------------------------------------------

  /** The samples of a thread: a failed execution is skipped, a failed fetch or the
      time limit ends the loop. */
  function Recorded(outcomes: seq<Outcome>): seq<Sample> {
    if outcomes == [] then []
    else
      match outcomes[0]
      case Completed(s) => [s] + Recorded(outcomes[1..])
      case ExecuteFails => Recorded(outcomes[1..])
      case FetchFails => []
      case TimeUp => []
  }

  lemma {:induction false} RecordedSplits(outcomes: seq<Outcome>, i: nat)
    requires i <= |outcomes| && forall k :: 0 <= k < i ==> outcomes[k].Completed? || outcomes[k].ExecuteFails?
    ensures Recorded(outcomes) == Recorded(outcomes[..i]) + Recorded(outcomes[i..])
    decreases i
  {
    if i > 0 {
      RecordedSplits(outcomes[1..], i - 1);
      assert outcomes[1..][..i - 1] == outcomes[..i][1..];
      assert outcomes[1..][i - 1..] == outcomes[i..];
    } else {
      assert outcomes[..0] == [] && outcomes[0..] == outcomes;
    }
  }

  lemma RecordedSnoc(outcomes: seq<Outcome>, i: nat)
    requires i < |outcomes| && forall k :: 0 <= k <= i ==> outcomes[k].Completed? || outcomes[k].ExecuteFails?
    ensures outcomes[i].Completed? ==> Recorded(outcomes[..i + 1]) == Recorded(outcomes[..i]) + [outcomes[i].s]
    ensures outcomes[i].ExecuteFails? ==> Recorded(outcomes[..i + 1]) == Recorded(outcomes[..i])
  {
    RecordedSplits(outcomes[..i + 1], i);
    assert outcomes[..i + 1][..i] == outcomes[..i] && outcomes[..i + 1][i..] == [outcomes[i]];
    assert [outcomes[i]][1..] == [];
  }

  lemma SummaryRecorded(outcomes: seq<Outcome>, i: nat)
    requires i < |outcomes| && forall k :: 0 <= k <= i ==> outcomes[k].Completed? || outcomes[k].ExecuteFails?
    ensures Summary(Recorded(outcomes[..i + 1]), THREAD_MAX)
         == var before := Summary(Recorded(outcomes[..i]), THREAD_MAX);
            if outcomes[i].Completed? then Booked(before, outcomes[i].s) else before
  {
    RecordedSnoc(outcomes, i);
    if outcomes[i].Completed? {
      SummarySnoc(Recorded(outcomes[..i]), outcomes[i].s, THREAD_MAX);
    }
  }

  /** qhist_t: counters plus the array of response times, both zero at first. */
  class QueryHistory {
    var execs: nat
    var elapsed: nat
    var rows: nat
    var minrt: nat
    var maxrt: nat
    var sumexecrt: nat
    var minexecrt: nat
    var maxexecrt: nat
    const latency: array<nat>

    function Counters(): Stats
      reads this
    {
      Stats(execs, elapsed, rows, minrt, maxrt, sumexecrt, minexecrt, maxexecrt)
    }

    constructor (iterations: nat)
      ensures Counters() == Summary([], THREAD_MAX)
      ensures fresh(latency) && latency.Length == iterations && forall k :: 0 <= k < iterations ==> latency[k] == 0
    {
      execs, elapsed, rows, maxrt, sumexecrt, maxexecrt := 0, 0, 0, 0, 0, 0;
      minrt, minexecrt := THREAD_MAX, THREAD_MAX;
      latency := new nat[iterations](i => 0);
    }

    method BookExtremes(s: Sample)
      modifies `minrt, `maxrt, `minexecrt, `maxexecrt
      ensures minrt == Min(s.elapsed, old(minrt)) && maxrt == Max(s.elapsed, old(maxrt))
      ensures minexecrt == Min(s.exec, old(minexecrt)) && maxexecrt == Max(s.exec, old(maxexecrt))
    {
      if s.elapsed < minrt { minrt := s.elapsed; }
      if s.elapsed > maxrt { maxrt := s.elapsed; }
      if s.exec < minexecrt { minexecrt := s.exec; }
      if s.exec > maxexecrt { maxexecrt := s.exec; }
    }

    /** Books one successful execution as number i. */
    method Book(i: nat, s: Sample)
      requires i < latency.Length
      modifies this, latency
      ensures Counters() == Booked(old(Counters()), s)
      ensures latency[..] == old(latency[..])[i := s.elapsed]
    {
      execs := execs + 1;
      elapsed := elapsed + s.elapsed;
      rows := rows + s.rows;
      latency[i] := s.elapsed;
      sumexecrt := sumexecrt + s.exec;
      BookExtremes(s);
    }

    /** The timing loop of a query.  The counters summarize the recorded samples, but a response
        time is stored under the number of its iteration, not of its sample. */
    method Time(outcomes: seq<Outcome>) returns (end: nat)
      requires Counters() == Summary([], THREAD_MAX) && |outcomes| <= latency.Length
      requires forall k :: 0 <= k < latency.Length ==> latency[k] == 0
      modifies this, latency
      ensures Counters() == Summary(Recorded(outcomes), THREAD_MAX)
      ensures Reports(Counters(), Recorded(outcomes))
      ensures latency[..] == Latencies(outcomes, latency.Length)
    {
      end := 0;
      while end < |outcomes|
        invariant end <= |outcomes|
        invariant forall k :: 0 <= k < end ==> outcomes[k].Completed? || outcomes[k].ExecuteFails?
        invariant Counters() == Summary(Recorded(outcomes[..end]), THREAD_MAX)
        invariant StoredUpto(outcomes, end, latency[..])
      {
        if outcomes[end].FetchFails? || outcomes[end].TimeUp? {
          break;
        }
        SummaryRecorded(outcomes, end);
        StoredSnoc(outcomes, end, latency[..]);
        if outcomes[end].Completed? {
          Book(end, outcomes[end].s);
        }
        end := end + 1;
      }
      LastIteration(outcomes, end);
      AllStored(outcomes, end, latency[..]);
      SummaryReports(Recorded(outcomes), THREAD_MAX);
    }
  }

  /** Index of the iteration that ends the loop. */
  function LoopEnd(outcomes: seq<Outcome>): nat {
    if outcomes == [] || outcomes[0].FetchFails? || outcomes[0].TimeUp? then 0 else 1 + LoopEnd(outcomes[1..])
  }

  lemma {:induction false} LastIteration(outcomes: seq<Outcome>, end: nat)
    requires end <= |outcomes| && forall k :: 0 <= k < end ==> outcomes[k].Completed? || outcomes[k].ExecuteFails?
    requires end == |outcomes| || outcomes[end].FetchFails? || outcomes[end].TimeUp?
    ensures LoopEnd(outcomes) == end && Recorded(outcomes) == Recorded(outcomes[..end])
    decreases end
  {
    RecordedSplits(outcomes, end);
    assert Recorded(outcomes[end..]) == [];
    if end > 0 {
      LastIteration(outcomes[1..], end - 1);
    }
  }

  /** The array of response times after the loop. */
  function Latencies(outcomes: seq<Outcome>, n: nat): seq<nat> {
    seq(n, k requires 0 <= k =>
      if k < LoopEnd(outcomes) && k < |outcomes| && outcomes[k].Completed? then outcomes[k].s.elapsed else 0)
  }

  /** The cells behind the first i iterations. */
  ghost predicate StoredUpto(outcomes: seq<Outcome>, i: nat, cells: seq<nat>) {
    i <= |outcomes| <= |cells| &&
    forall k :: 0 <= k < |cells| ==>
      cells[k] == if k < i && outcomes[k].Completed? then outcomes[k].s.elapsed else 0
  }

  lemma StoredSnoc(outcomes: seq<Outcome>, i: nat, cells: seq<nat>)
    requires i < |outcomes| && StoredUpto(outcomes, i, cells)
    ensures StoredUpto(outcomes, i + 1, if outcomes[i].Completed? then cells[i := outcomes[i].s.elapsed] else cells)
  {
  }

  lemma AllStored(outcomes: seq<Outcome>, end: nat, cells: seq<nat>)
    requires StoredUpto(outcomes, end, cells) && end == LoopEnd(outcomes)
    ensures cells == Latencies(outcomes, |cells|)
  {
  }

  // ------------------------------------------------------------------------
  // Which response times can be read back
  // ------------------------------------------------------------------------

  function Zeros(n: nat): seq<nat> {
    seq(n, _ => 0)
  }

  lemma {:induction false} RecordedBounds(outcomes: seq<Outcome>)
    ensures |Recorded(outcomes)| <= LoopEnd(outcomes) <= |outcomes|
    ensures forall k :: 0 <= k < LoopEnd(outcomes) ==> outcomes[k].Completed? || outcomes[k].ExecuteFails?
  {
    if outcomes != [] {
      RecordedBounds(outcomes[1..]);
    }
  }

  lemma {:induction false} LoopEndBehind(outcomes: seq<Outcome>, i: nat)
    requires i <= LoopEnd(outcomes) <= |outcomes|
    ensures LoopEnd(outcomes[i..]) == LoopEnd(outcomes) - i
  {
    if i == 0 {
      assert outcomes[0..] == outcomes;
    } else {
      LoopEndBehind(outcomes[1..], i - 1);
      assert outcomes[1..][i - 1..] == outcomes[i..];
    }
  }

  /** The samples of some iterations, and a zero for each of the others. */
  function Filled(ss: seq<Sample>, n: nat): multiset<nat>
    requires |ss| <= n
  {
    multiset(Times(ss)) + multiset(Zeros(n - |ss|))
  }

  lemma FilledGrows(ss: seq<Sample>, n: nat, s: Sample)
    requires |ss| <= n
    ensures Filled(ss + [s], n + 1) == Filled(ss, n) + multiset{s.elapsed}
    ensures Filled(ss, n + 1) == Filled(ss, n) + multiset{0}
  {
    assert Times(ss + [s]) == Times(ss) + [s.elapsed];
    assert Zeros(n + 1 - |ss|) == Zeros(n - |ss|) + [0];
  }

  lemma CellsGrow(outcomes: seq<Outcome>, n: nat, i: nat)
    requires i < LoopEnd(outcomes) <= |outcomes| <= n
    ensures multiset(Latencies(outcomes, n)[..i + 1])
         == multiset(Latencies(outcomes, n)[..i]) +
            multiset{if outcomes[i].Completed? then outcomes[i].s.elapsed else 0}
  {
    var cells := Latencies(outcomes, n);
    assert cells[..i + 1] == cells[..i] + [cells[i]];
  }

  lemma FilledStep(outcomes: seq<Outcome>, i: nat)
    requires i < LoopEnd(outcomes) <= |outcomes| && |Recorded(outcomes[..i])| <= i
    ensures |Recorded(outcomes[..i + 1])| <= i + 1
    ensures Filled(Recorded(outcomes[..i + 1]), i + 1)
         == Filled(Recorded(outcomes[..i]), i) +
            multiset{if outcomes[i].Completed? then outcomes[i].s.elapsed else 0}
  {
    RecordedBounds(outcomes);
    RecordedSnoc(outcomes, i);
    FilledGrows(Recorded(outcomes[..i]), i, if outcomes[i].Completed? then outcomes[i].s else Sample(0, 0, 0));
  }

  /** The first i cells hold the samples of the first i iterations, and zeros for the rest. */
  lemma {:induction false} FrontCells(outcomes: seq<Outcome>, n: nat, i: nat)
    requires i <= LoopEnd(outcomes) <= |outcomes| <= n
    ensures |Recorded(outcomes[..i])| <= i
    ensures multiset(Latencies(outcomes, n)[..i]) == Filled(Recorded(outcomes[..i]), i)
  {
    if i > 0 {
      FrontCells(outcomes, n, i - 1);
      CellsGrow(outcomes, n, i - 1);
      FilledStep(outcomes, i - 1);
    }
  }

  /** No success from iteration `from` on takes any time. */
  ghost predicate NoTimeFrom(outcomes: seq<Outcome>, from: nat) {
    forall k :: from <= k < LoopEnd(outcomes) && k < |outcomes| && outcomes[k].Completed? ==>
      outcomes[k].s.elapsed == 0
  }

  lemma NoTimeStep(outcomes: seq<Outcome>, from: nat)
    requires from < LoopEnd(outcomes) <= |outcomes|
    ensures NoTimeFrom(outcomes, from)
       <==> (outcomes[from].Completed? ==> outcomes[from].s.elapsed == 0) && NoTimeFrom(outcomes, from + 1)
  {
  }

  lemma ZerosCons(x: nat, xs: seq<nat>)
    ensures [x] + xs == Zeros(|xs| + 1) <==> x == 0 && xs == Zeros(|xs|)
  {
    var s := [x] + xs;
    if s == Zeros(|xs| + 1) {
      assert s[0] == 0 && s[1..] == xs;
    }
  }

  lemma TimesConcat(a: seq<Sample>, b: seq<Sample>)
    ensures Times(a + b) == Times(a) + Times(b)
    ensures multiset(Times(a + b)) == multiset(Times(a)) + multiset(Times(b))
  {
    assert Times(a + b) == Times(a) + Times(b);
  }

  lemma RecordedDrop(outcomes: seq<Outcome>, from: nat)
    requires from < LoopEnd(outcomes) <= |outcomes|
    ensures Times(Recorded(outcomes[from..]))
         == (if outcomes[from].Completed? then [outcomes[from].s.elapsed] else [])
          + Times(Recorded(outcomes[from + 1..]))
  {
    RecordedBounds(outcomes);
    var rest := outcomes[from..];
    assert rest[0] == outcomes[from] && rest[1..] == outcomes[from + 1..];
    if rest[0].Completed? {
      TimesConcat([rest[0].s], Recorded(rest[1..]));
      assert Times([rest[0].s]) == [rest[0].s.elapsed];
    } else {
      assert [] + Times(Recorded(rest[1..])) == Times(Recorded(rest[1..]));
    }
  }

  lemma {:induction false} AllZeroIff(outcomes: seq<Outcome>, from: nat)
    requires from <= LoopEnd(outcomes) <= |outcomes|
    ensures var times := Times(Recorded(outcomes[from..])); times == Zeros(|times|) <==> NoTimeFrom(outcomes, from)
    decreases |outcomes| - from
  {
    if from < LoopEnd(outcomes) {
      AllZeroIff(outcomes, from + 1);
      NoTimeStep(outcomes, from);
      RecordedDrop(outcomes, from);
      var times := Times(Recorded(outcomes[from + 1..]));
      if outcomes[from].Completed? {
        ZerosCons(outcomes[from].s.elapsed, times);
      } else {
        assert [] + times == times;
      }
    } else {
      LoopEndBehind(outcomes, from);
      RecordedBounds(outcomes[from..]);
    }
  }

  /** The program reads as many cells as there are samples; a sample of a later iteration is not
      among them, and a zero is read instead. */
  ghost predicate NothingHidden(outcomes: seq<Outcome>) {
    NoTimeFrom(outcomes, |Recorded(outcomes)|)
  }

  function Hidden(outcomes: seq<Outcome>): seq<nat> {
    var m := |Recorded(outcomes)|;
    if m <= |outcomes| then Times(Recorded(outcomes[m..])) else []
  }

  lemma HiddenIff(outcomes: seq<Outcome>)
    ensures NothingHidden(outcomes) <==> Hidden(outcomes) == Zeros(|Hidden(outcomes)|)
  {
    RecordedBounds(outcomes);
    AllZeroIff(outcomes, |Recorded(outcomes)|);
  }

  /** The response times of the first m iterations, which are read back. */
  function Shown(outcomes: seq<Outcome>): seq<nat> {
    var m := |Recorded(outcomes)|;
    if m <= |outcomes| then Times(Recorded(outcomes[..m])) else []
  }

  /** What is read and what was recorded differ in the hidden samples alone. */
  lemma ReadAndRecorded(outcomes: seq<Outcome>, n: nat)
    requires |outcomes| <= n
    ensures |Recorded(outcomes)| <= n
    ensures multiset(Latencies(outcomes, n)[..|Recorded(outcomes)|])
         == multiset(Shown(outcomes)) + multiset(Zeros(|Hidden(outcomes)|))
    ensures multiset(Times(Recorded(outcomes))) == multiset(Shown(outcomes)) + multiset(Hidden(outcomes))
  {
    RecordedBounds(outcomes);
    var m := |Recorded(outcomes)|;
    FrontCells(outcomes, n, m);
    RecordedSplits(outcomes, m);
    TimesConcat(Recorded(outcomes[..m]), Recorded(outcomes[m..]));
  }

  lemma ZerosAlone(s: seq<nat>)
    requires multiset(s) == multiset(Zeros(|s|))
    ensures s == Zeros(|s|)
  {
    forall i | 0 <= i < |s| ensures s[i] == 0 {
      assert s[i] in multiset(s);
    }
  }

  lemma MultisetCancels(a: multiset<nat>, b: multiset<nat>, c: multiset<nat>)
    requires a + b == a + c
    ensures b == c
  {
    assert a + b - a == b && a + c - a == c;
  }

  /** The cells the percentiles read hold exactly the recorded response times (as a collection, which is all the
      percentiles look at) if and only if every success behind as many iterations as there are
      successes took no time at all. */
  lemma ReadBackIff(outcomes: seq<Outcome>, n: nat)
    requires |outcomes| <= n
    ensures |Recorded(outcomes)| <= n
    ensures multiset(Latencies(outcomes, n)[..|Recorded(outcomes)|]) == multiset(Times(Recorded(outcomes)))
       <==> NothingHidden(outcomes)
  {
    ReadAndRecorded(outcomes, n);
    HiddenIff(outcomes);
    var shown, hidden := multiset(Shown(outcomes)), Hidden(outcomes);
    if shown + multiset(Zeros(|hidden|)) == shown + multiset(hidden) {
      MultisetCancels(shown, multiset(Zeros(|hidden|)), multiset(hidden));
      ZerosAlone(hidden);
    }
  }

  // ------------------------------------------------------------------------
  // Merging
  // ------------------------------------------------------------------------

  lemma {:induction false} FoldsConcat(a: seq<Sample>, b: seq<Sample>, f: Sample -> nat, top: nat)
    ensures SumOf(a + b, f) == SumOf(a, f) + SumOf(b, f)
    ensures MinOf(a + b, f, top) == Min(MinOf(a, f, top), MinOf(b, f, top))
    ensures MaxOf(a + b, f) == Max(MaxOf(a, f), MaxOf(b, f))
  {
    if b == [] {
      assert a + b == a;
      MinAtMostTop(a, f, top);
    } else {
      assert (a + b)[..|a + b| - 1] == a + b[..|b| - 1];
      FoldsConcat(a, b[..|b| - 1], f, top);
    }
  }

  /** The initial minimum of the merge only survives if there is no sample at all. */
  function Top(ss: seq<Sample>): nat {
    if ss == [] then MERGE_MAX else THREAD_MAX
  }

  function Flatten(lists: seq<seq<Sample>>): seq<Sample> {
    if lists == [] then [] else Flatten(lists[..|lists| - 1]) + lists[|lists| - 1]
  }

  function MergeStats(t: Stats, q: Stats): Stats {
    if q.execs == 0 then t
    else Stats(t.execs + q.execs, t.elapsed + q.elapsed, t.rows + q.rows,
               Min(q.minrt, t.minrt), Max(q.maxrt, t.maxrt),
               t.sumexecrt + q.sumexecrt, Min(q.minexecrt, t.minexecrt), Max(q.maxexecrt, t.maxexecrt))
  }

  lemma MergeIsSummary(a: seq<Sample>, b: seq<Sample>)
    ensures MergeStats(Summary(a, Top(a)), Summary(b, THREAD_MAX)) == Summary(a + b, Top(a + b))
  {
    if b == [] {
      assert a + b == a;
    } else if a == [] {
      assert a + b == b;
      MinAtMostTop(b, Elapsed(), THREAD_MAX);
      MinAtMostTop(b, Exec(), THREAD_MAX);
    } else {
      FoldsConcat(a, b, Elapsed(), THREAD_MAX);
      FoldsConcat(a, b, Exec(), THREAD_MAX);
      FoldsConcat(a, b, Rows(), THREAD_MAX);
    }
  }

  /** The merge loop of main(): merging the threads' statistics gives the statistics of
      all their samples together. */
  method MergeThreads(threads: seq<Stats>, ghost lists: seq<seq<Sample>>) returns (total: Stats)
    requires |lists| == |threads|
    requires forall t :: 0 <= t < |threads| ==> threads[t] == Summary(lists[t], THREAD_MAX)
    ensures total == Summary(Flatten(lists), Top(Flatten(lists)))
    ensures Reports(total, Flatten(lists))
  {
    total := Stats(0, 0, 0, MERGE_MAX, 0, 0, MERGE_MAX, 0);
    for t := 0 to |threads|
      invariant total == Summary(Flatten(lists[..t]), Top(Flatten(lists[..t])))
    {
      MergeIsSummary(Flatten(lists[..t]), lists[t]);
      assert lists[..t + 1][..t] == lists[..t];
      total := MergeStats(total, threads[t]);
    }
    assert lists[..|threads|] == lists;
    SummaryReports(Flatten(lists), Top(Flatten(lists)));
  }

  // ------------------------------------------------------------------------
  // From the timing loops to the percentiles
  // ------------------------------------------------------------------------

  function SamplesOf(runs: seq<seq<Outcome>>): seq<seq<Sample>> {
    seq(|runs|, t requires 0 <= t < |runs| => Recorded(runs[t]))
  }

  /** The response times of all threads. */
  function AllTimes(runs: seq<seq<Outcome>>): seq<nat> {
    Times(Flatten(SamplesOf(runs)))
  }

  /** What a thread with room for n response times leaves behind. */
  function HistoryOf(outcomes: seq<Outcome>, n: nat): History {
    History(|Recorded(outcomes)|, Latencies(outcomes, n))
  }

  function Histories(runs: seq<seq<Outcome>>, n: nat): seq<History> {
    seq(|runs|, t requires 0 <= t < |runs| => HistoryOf(runs[t], n))
  }

  /** No thread runs more than n iterations. */
  ghost predicate Bounded(runs: seq<seq<Outcome>>, n: nat) {
    forall t :: 0 <= t < |runs| ==> |runs[t]| <= n
  }

  lemma HistoriesValid(runs: seq<seq<Outcome>>, n: nat)
    requires Bounded(runs, n)
    ensures forall t :: 0 <= t < |runs| ==> Histories(runs, n)[t].Valid()
  {
    forall t | 0 <= t < |runs| ensures Histories(runs, n)[t].Valid() {
      RecordedBounds(runs[t]);
    }
  }

  function Join(lists: seq<seq<nat>>): seq<nat> {
    if lists == [] then [] else Join(lists[..|lists| - 1]) + lists[|lists| - 1]
  }

  /** If every list is a sum of two others, so are all of them together. */
  lemma {:induction false} JoinSplits(lists: seq<seq<nat>>, parts: seq<seq<nat>>, others: seq<seq<nat>>)
    requires |lists| == |parts| == |others|
    requires forall t :: 0 <= t < |lists| ==> multiset(lists[t]) == multiset(parts[t]) + multiset(others[t])
    ensures multiset(Join(lists)) == multiset(Join(parts)) + multiset(Join(others))
  {
    if lists != [] {
      var n := |lists| - 1;
      JoinSplits(lists[..n], parts[..n], others[..n]);
      assert multiset(lists[n]) == multiset(parts[n]) + multiset(others[n]);
    }
  }

  lemma ZerosConcat(m: nat, n: nat)
    ensures Zeros(m + n) == Zeros(m) + Zeros(n)
  {
  }

  lemma ZerosParts(a: seq<nat>, b: seq<nat>)
    ensures a + b == Zeros(|a + b|) <==> a == Zeros(|a|) && b == Zeros(|b|)
  {
    ZerosConcat(|a|, |b|);
    if a + b == Zeros(|a + b|) {
      assert a == (a + b)[..|a|] && b == (a + b)[|a|..];
    }
  }

  lemma {:induction false} JoinZerosIff(lists: seq<seq<nat>>)
    ensures Join(lists) == Zeros(|Join(lists)|) <==> forall t :: 0 <= t < |lists| ==> lists[t] == Zeros(|lists[t]|)
  {
    if lists != [] {
      var n := |lists| - 1;
      JoinZerosIff(lists[..n]);
      ZerosParts(Join(lists[..n]), lists[n]);
      assert forall t :: 0 <= t < n ==> lists[..n][t] == lists[t];
    }
  }

  /** Zeros in place of every element. */
  function Blanked(lists: seq<seq<nat>>): seq<seq<nat>> {
    seq(|lists|, t requires 0 <= t < |lists| => Zeros(|lists[t]|))
  }

  lemma {:induction false} JoinBlanked(lists: seq<seq<nat>>)
    ensures Join(Blanked(lists)) == Zeros(|Join(lists)|)
  {
    if lists != [] {
      var n := |lists| - 1;
      JoinBlanked(lists[..n]);
      assert Blanked(lists)[..n] == Blanked(lists[..n]);
      ZerosConcat(|Join(lists[..n])|, |lists[n]|);
    }
  }

  /** Lists that differ from others only in zeros for some elements are the same together
      if and only if all these elements are zero. */
  lemma JoinsAgreeIff(cells: seq<seq<nat>>, times: seq<seq<nat>>, shown: seq<seq<nat>>, hidden: seq<seq<nat>>)
    requires |cells| == |times| == |shown| == |hidden|
    requires forall t :: 0 <= t < |cells| ==> multiset(cells[t]) == multiset(shown[t]) + multiset(Zeros(|hidden[t]|))
    requires forall t :: 0 <= t < |cells| ==> multiset(times[t]) == multiset(shown[t]) + multiset(hidden[t])
    ensures multiset(Join(cells)) == multiset(Join(times))
       <==> forall t :: 0 <= t < |hidden| ==> hidden[t] == Zeros(|hidden[t]|)
  {
    JoinSplits(cells, shown, Blanked(hidden));
    JoinSplits(times, shown, hidden);
    JoinBlanked(hidden);
    JoinZerosIff(hidden);
    var front, all := multiset(Join(shown)), Join(hidden);
    if front + multiset(Zeros(|all|)) == front + multiset(all) {
      MultisetCancels(front, multiset(Zeros(|all|)), multiset(all));
      ZerosAlone(all);
    }
  }

  /** The cells that are read of a thread's array. */
  function CellsRead(runs: seq<seq<Outcome>>, n: nat): seq<seq<nat>>
    requires Bounded(runs, n)
  {
    seq(|runs|, t requires 0 <= t < |runs| =>
      var m := |Recorded(runs[t])|; if m <= n then Latencies(runs[t], n)[..m] else [])
  }

  lemma {:induction false} SamplesJoin(threads: seq<History>, cells: seq<seq<nat>>)
    requires |cells| == |threads|
    requires forall t :: 0 <= t < |threads| ==>
               threads[t].Valid() && cells[t] == threads[t].latency[..threads[t].execs]
    ensures Samples(threads) == Join(cells)
  {
    if threads != [] {
      SamplesJoin(threads[..|threads| - 1], cells[..|threads| - 1]);
    }
  }

  lemma {:induction false} JoinBounded(lists: seq<seq<nat>>, n: nat)
    requires forall t :: 0 <= t < |lists| ==> |lists[t]| <= n
    ensures |Join(lists)| <= n * |lists|
  {
    if lists != [] {
      JoinBounded(lists[..|lists| - 1], n);
      assert n * |lists| == n * (|lists| - 1) + n;
    }
  }

  lemma SamplesAreCells(runs: seq<seq<Outcome>>, n: nat)
    requires Bounded(runs, n)
    ensures forall t :: 0 <= t < |runs| ==> Histories(runs, n)[t].Valid()
    ensures Samples(Histories(runs, n)) == Join(CellsRead(runs, n))
    ensures |Samples(Histories(runs, n))| <= n * |runs|
  {
    HistoriesValid(runs, n);
    SamplesJoin(Histories(runs, n), CellsRead(runs, n));
    JoinBounded(CellsRead(runs, n), n);
  }

  function TimesRecorded(runs: seq<seq<Outcome>>): seq<seq<nat>> {
    seq(|runs|, t requires 0 <= t < |runs| => Times(Recorded(runs[t])))
  }

  lemma {:induction false} TimesAreJoined(runs: seq<seq<Outcome>>)
    ensures AllTimes(runs) == Join(TimesRecorded(runs))
  {
    if runs != [] {
      var front, last := runs[..|runs| - 1], runs[|runs| - 1];
      TimesAreJoined(front);
      assert SamplesOf(runs)[..|front|] == SamplesOf(front);
      assert TimesRecorded(runs)[..|front|] == TimesRecorded(front);
      TimesConcat(Flatten(SamplesOf(front)), Recorded(last));
    }
  }

  ghost predicate NothingHiddenIn(runs: seq<seq<Outcome>>) {
    forall t :: 0 <= t < |runs| ==> NothingHidden(runs[t])
  }

  lemma CellsAreTimesIff(runs: seq<seq<Outcome>>, n: nat)
    requires Bounded(runs, n)
    ensures multiset(Join(CellsRead(runs, n))) == multiset(Join(TimesRecorded(runs))) <==> NothingHiddenIn(runs)
  {
    var shown := seq(|runs|, t requires 0 <= t < |runs| => Shown(runs[t]));
    var hidden := seq(|runs|, t requires 0 <= t < |runs| => Hidden(runs[t]));
    forall t | 0 <= t < |runs|
      ensures multiset(CellsRead(runs, n)[t]) == multiset(shown[t]) + multiset(Zeros(|hidden[t]|))
      ensures multiset(TimesRecorded(runs)[t]) == multiset(shown[t]) + multiset(hidden[t])
      ensures NothingHidden(runs[t]) <==> hidden[t] == Zeros(|hidden[t]|)
    {
      ReadAndRecorded(runs[t], n);
      HiddenIff(runs[t]);
    }
    JoinsAgreeIff(CellsRead(runs, n), TimesRecorded(runs), shown, hidden);
  }

  /** Over all threads, the percentiles look at exactly the recorded response times if and only if that holds in
      every thread: no thread can make up for another. */
  lemma SamplesAreTimesIff(runs: seq<seq<Outcome>>, n: nat)
    requires Bounded(runs, n)
    ensures forall t :: 0 <= t < |runs| ==> Histories(runs, n)[t].Valid()
    ensures multiset(Samples(Histories(runs, n))) == multiset(AllTimes(runs)) <==> NothingHiddenIn(runs)
  {
    SamplesAreCells(runs, n);
    TimesAreJoined(runs);
    CellsAreTimesIff(runs, n);
  }

  lemma NoOtherPercentiles(samples: seq<int>, p95: int, p99: int, v: int)
    requires IsPercentile(samples, 95, p95) && IsPercentile(samples, 99, p99)
    ensures (IsPercentile(samples, 95, v) ==> v == p95) && (IsPercentile(samples, 99, v) ==> v == p99)
  {
    if IsPercentile(samples, 95, v) {
      PercentileUnique(samples, 95, v, p95);
    }
    if IsPercentile(samples, 99, v) {
      PercentileUnique(samples, 99, v, p99);
    }
  }

  /** Every thread times the query, then the percentiles over all threads are calculated. If no response time is
      hidden, they are the percentiles of all response times recorded. */
  method TimeAndCalculate(runs: seq<seq<Outcome>>, iterations: nat, larr: array<int>)
      returns (p95: int, p99: int, outside: bool)
    requires Bounded(runs, iterations) && larr.Length == iterations * |runs|
    modifies larr
    ensures outside <==> iterations * |runs| < 2
    ensures !outside && NothingHiddenIn(runs) && |AllTimes(runs)| >= 2 ==>
              && IsPercentile(AllTimes(runs), 95, p95) && IsPercentile(AllTimes(runs), 99, p99) && p95 <= p99
              && forall v :: (IsPercentile(AllTimes(runs), 95, v) ==> v == p95) &&
                             (IsPercentile(AllTimes(runs), 99, v) ==> v == p99)
  {
    var histories := [];
    for t := 0 to |runs|
      invariant histories == Histories(runs[..t], iterations)
    {
      var qhist := new QueryHistory(iterations);
      var _ := qhist.Time(runs[t]);
      assert runs[..t + 1][..t] == runs[..t];
      histories := histories + [History(qhist.execs, qhist.latency[..])];
    }
    assert runs[..|runs|] == runs;
    SamplesAreCells(runs, iterations);
    p95, p99, outside := CalculatePercentiles(histories, larr);
    PercentilesOfRecorded(runs, iterations, 95, p95);
    PercentilesOfRecorded(runs, iterations, 99, p99);
    forall v | !outside && NothingHiddenIn(runs) && |AllTimes(runs)| >= 2
      ensures (IsPercentile(AllTimes(runs), 95, v) ==> v == p95) && (IsPercentile(AllTimes(runs), 99, v) ==> v == p99)
    {
      NoOtherPercentiles(AllTimes(runs), p95, p99, v);
    }
  }

  lemma PercentilesOfRecorded(runs: seq<seq<Outcome>>, n: nat, p: nat, v: int)
    requires Bounded(runs, n)
    ensures forall t :: 0 <= t < |runs| ==> Histories(runs, n)[t].Valid()
    ensures NothingHiddenIn(runs) ==>
              var samples := Samples(Histories(runs, n));
              |samples| == |AllTimes(runs)| && (IsPercentile(samples, p, v) <==> IsPercentile(AllTimes(runs), p, v))
  {
    SamplesAreTimesIff(runs, n);
    if NothingHiddenIn(runs) {
      var samples := Samples(Histories(runs, n));
      PercentilePermuted(samples, AllTimes(runs), p, v);
      assert |samples| == |multiset(samples)| == |multiset(AllTimes(runs))| == |AllTimes(runs)|;
    }
  }
}
