/** How the controller of the Java benchmark starts, times and stops its worker threads
    (TptbmThread and TptbmThreadController of Tptbm.java), in runs without errors.

    Every synchronized call of the controller, every evaluation of runFinished() and every
    completion of a transaction with its counting is one step. */
module PhaseController {

  /** The controller's calls on a thread. */
  datatype Call = RampStart | RampStop | TimingStart | TimingStop | SetGo

  /** The fields of a thread that the calls and the execution loop share. */
  datatype Flags = Flags(numXacts: nat, go: bool, timing: bool, doneTiming: bool, doneRamping: bool,
                         timedXacts: nat, totalXacts: nat)

  function Initial(numXacts: nat): Flags {
    Flags(numXacts, false, false, false, false, 0, 0)
  }

  function Apply(f: Flags, c: Call): Flags {
    match c
    case RampStart => f.(doneRamping := false)
    case RampStop => f.(doneRamping := true)
    case TimingStart => f.(timedXacts := 0, timing := true, doneTiming := false, doneRamping := true)
    case TimingStop => f.(timing := false, doneTiming := true)
    case SetGo => f.(go := true)
  }

  predicate RunFinished(f: Flags) {
    if f.numXacts > 0 then f.totalXacts >= f.numXacts else f.doneTiming && f.doneRamping
  }

  function Complete(f: Flags): Flags {
    f.(totalXacts := f.totalXacts + 1, timedXacts := f.timedXacts + if f.timing then 1 else 0)
  }

  class TptbmThread {
    const numXacts: nat
    var go: bool
    var timing: bool
    var doneTiming: bool
    var doneRamping: bool
    var timedXacts: nat
    var totalXacts: nat

    function State(): Flags
      reads this
    {
      Flags(numXacts, go, timing, doneTiming, doneRamping, timedXacts, totalXacts)
    }

    constructor (numXacts: nat)
      ensures State() == Initial(numXacts)
    {
      this.numXacts := numXacts;
      go, timing, doneTiming, doneRamping, timedXacts, totalXacts := false, false, false, false, 0, 0;
    }

    method TimingStart()
      modifies this
      ensures State() == Apply(old(State()), Call.TimingStart)
    {
      timedXacts := 0;
      timing := true;
      doneTiming := false;
      doneRamping := true;
    }

    method TimingStop()
      modifies this
      ensures State() == Apply(old(State()), Call.TimingStop)
    {
      timing := false;
      doneTiming := true;
    }

    method RampStart()
      modifies this
      ensures State() == Apply(old(State()), Call.RampStart)
    {
      doneRamping := false;
    }

    method RampStop()
      modifies this
      ensures State() == Apply(old(State()), Call.RampStop)
    {
      doneRamping := true;
    }

    method SetGo()
      modifies this
      ensures State() == Apply(old(State()), Call.SetGo)
    {
      go := true;
    }

    method Finished() returns (r: bool)
      ensures r == RunFinished(State())
    {
      if numXacts > 0 {
        r := totalXacts >= numXacts;
      } else {
        r := doneTiming && doneRamping;
      }
    }

    /** The counting at the end of a transaction. */
    method CountTransaction()
      modifies this
      ensures State() == Complete(old(State()))
    {
      totalXacts := totalXacts + 1;
      if timing {
        timedXacts := timedXacts + 1;
      }
    }

    /** The execution loop in transaction mode, where no call touches the counter it depends on. */
    method ExecuteTransactions() returns (executed: nat)
      requires numXacts > 0 && totalXacts == 0
      modifies this
      ensures totalXacts == numXacts == executed
    {
      executed := 0;
      var finished := Finished();
      while !finished
        invariant totalXacts == executed <= numXacts && finished == RunFinished(State())
        decreases numXacts - executed
      {
        executed := executed + 1;
        CountTransaction();
        finished := Finished();
      }
    }
  }

  /** k transactions are completed. */
  function CompleteAll(f: Flags, k: nat): Flags {
    if k == 0 then f else Complete(CompleteAll(f, k - 1))
  }

  lemma {:induction false} CompleteAllCounts(f: Flags, k: nat)
    ensures CompleteAll(f, k)
         == f.(totalXacts := f.totalXacts + k, timedXacts := f.timedXacts + if f.timing then k else 0)
  {
    if k > 0 {
      CompleteAllCounts(f, k - 1);
    }
  }

  /** Whatever a thread in duration mode has been through, timing restarts: between timingStart and timingStop it does
      not end, k transactions are counted as k, and later ones are not. */
  lemma TimingRestarts(f: Flags, k: nat, l: nat)
    requires f.numXacts == 0
    ensures var timed := CompleteAll(Apply(f, TimingStart), k);
            var stopped := Apply(timed, TimingStop);
            && !RunFinished(timed) && timed.timedXacts == k && RunFinished(stopped)
            && CompleteAll(stopped, l).timedXacts == k
            && CompleteAll(stopped, l).totalXacts == f.totalXacts + k + l
            && !RunFinished(Apply(stopped, RampStart)) && RunFinished(Apply(Apply(stopped, RampStart), RampStop))
  {
    CompleteAllCounts(Apply(f, TimingStart), k);
    CompleteAllCounts(Apply(CompleteAll(Apply(f, TimingStart), k), TimingStop), l);
  }

  // ------------------------------------------------------------------------
  // Any number of workers, interleaved with the controller
  // ------------------------------------------------------------------------

  datatype Event = Called(call: Call) | Completed

  /** Blocked in goYet(), about to evaluate runFinished(), in a transaction, or done. */
  datatype Pc = AwaitGo | Check | Busy | Done

  datatype Worker = Worker(flags: Flags, pc: Pc, trace: seq<Event>)

  /** -xact, or -sec, or neither of them, when the default number of transactions applies. Ramp time is accepted with
      -sec and with neither of them. */
  datatype Config = Transactions(numXacts: nat, ramp: bool) | Duration(ramp: bool)

  function NumXacts(cfg: Config): nat {
    if cfg.Transactions? then cfg.numXacts else 0
  }

  /** start(): the stages of calls; in each stage the controller goes through all threads. */
  function Stages(cfg: Config): seq<seq<Call>> {
    match cfg
    case Transactions(_, false) => [[SetGo]]
    case Transactions(_, true) => [[SetGo], [TimingStart], [RampStop]]
    case Duration(false) => [[TimingStart, SetGo], [TimingStop]]
    case Duration(true) => [[RampStart, SetGo], [TimingStart], [RampStart], [TimingStop], [RampStop]]
  }

  /** All calls that one thread receives, in order. */
  function Script(cfg: Config): seq<Call> {
    match cfg
    case Transactions(_, false) => [SetGo]
    case Transactions(_, true) => [SetGo, TimingStart, RampStop]
    case Duration(false) => [TimingStart, SetGo, TimingStop]
    case Duration(true) => [RampStart, SetGo, TimingStart, RampStart, TimingStop, RampStop]
  }

  /** Number of calls before stage s. */
  function Offset(cfg: Config, s: nat): nat
    requires s <= |Stages(cfg)|
  {
    if s == 0 then 0 else Offset(cfg, s - 1) + |Stages(cfg)[s - 1]|
  }

  lemma StagesMakeScript(cfg: Config, s: nat, j: nat)
    requires s < |Stages(cfg)| && j < |Stages(cfg)[s]|
    ensures Offset(cfg, s) + j < |Script(cfg)| && Stages(cfg)[s][j] == Script(cfg)[Offset(cfg, s) + j]
    ensures Offset(cfg, s + 1) == Offset(cfg, s) + |Stages(cfg)[s]|
    ensures Offset(cfg, |Stages(cfg)|) == |Script(cfg)|
  {
    assert Offset(cfg, 1) == |Stages(cfg)[0]|;
    if cfg.Transactions? && cfg.ramp {
      assert Offset(cfg, 2) == 2;
      assert Offset(cfg, 3) == 3;
    } else if cfg == Duration(true) {
      assert Offset(cfg, 2) == 3;
      assert Offset(cfg, 3) == 4;
      assert Offset(cfg, 4) == 5;
      assert Offset(cfg, 5) == 6;
    } else if cfg == Duration(false) {
      assert Offset(cfg, 2) == 3;
    }
  }

  /** Next call of the controller: call j of stage s on thread k. */
  datatype World = World(s: nat, k: nat, j: nat, workers: seq<Worker>)

  datatype Action = OfWorker(t: nat) | OfController

  function WorkerStep(w: Worker): Worker {
    match w.pc
    case AwaitGo => if w.flags.go then w.(pc := Check) else w
    case Check => w.(pc := if RunFinished(w.flags) then Done else Busy)
    case Busy => Worker(Complete(w.flags), Check, w.trace + [Completed])
    case Done => w
  }

  function Receive(w: Worker, c: Call): Worker {
    w.(flags := Apply(w.flags, c), trace := w.trace + [Called(c)])
  }

  function ControllerStep(cfg: Config, w: World): World {
    if w.s >= |Stages(cfg)| then w
    else if w.k >= |w.workers| then World(w.s + 1, 0, 0, w.workers)
    else if w.j >= |Stages(cfg)[w.s]| then World(w.s, w.k + 1, 0, w.workers)
    else World(w.s, w.k, w.j + 1, w.workers[w.k := Receive(w.workers[w.k], Stages(cfg)[w.s][w.j])])
  }

  function Next(cfg: Config, w: World, a: Action): (w': World)
    ensures |w'.workers| == |w.workers|
  {
    match a
    case OfController => ControllerStep(cfg, w)
    case OfWorker(t) =>
      if t < |w.workers| then w.(workers := w.workers[t := WorkerStep(w.workers[t])]) else w
  }

  function Run(cfg: Config, n: nat, actions: seq<Action>): (w: World)
    ensures |w.workers| == n
  {
    if actions == [] then World(0, 0, 0, seq(n, _ => Worker(Initial(NumXacts(cfg)), AwaitGo, [])))
    else Next(cfg, Run(cfg, n, actions[..|actions| - 1]), actions[|actions| - 1])
  }

  /** How many calls thread t has received when the controller stands at (s, k, j). */
  function Received(cfg: Config, s: nat, k: nat, j: nat, t: nat): nat
    requires s <= |Stages(cfg)|
  {
    if s == |Stages(cfg)| then Offset(cfg, s)
    else Offset(cfg, s) + if t < k then |Stages(cfg)[s]| else if t == k then j else 0
  }

  // ------------------------------------------------------------------------
  // What a trace says
  // ------------------------------------------------------------------------

  function Calls(t: seq<Event>): seq<Call> {
    if t == [] then []
    else Calls(t[..|t| - 1]) + if t[|t| - 1].Called? then [t[|t| - 1].call] else []
  }

  function Completions(t: seq<Event>): nat {
    if t == [] then 0 else Completions(t[..|t| - 1]) + if t[|t| - 1].Completed? then 1 else 0
  }

  /** Position of TimingStart and of TimingStop among the calls of a thread. */
  function StartPosition(cfg: Config): nat {
    if cfg == Duration(true) then 2 else 0
  }

  function StopPosition(cfg: Config): nat {
    if cfg == Duration(true) then 4 else 2
  }

  /** Transactions completed behind call number `from` and before call number `to`. */
  function CompletedBetween(t: seq<Event>, from: nat, to: nat): nat {
    if t == [] then 0
    else CompletedBetween(t[..|t| - 1], from, to)
         + if t[|t| - 1].Completed? && from < |Calls(t[..|t| - 1])| <= to then 1 else 0
  }

  /** What the flags are after m calls. */
  ghost predicate FlagsOk(cfg: Config, m: nat, f: Flags) {
    && f.numXacts == NumXacts(cfg)
    && f.go == (m > if cfg.Duration? then 1 else 0)
    && f.timing == (if cfg.Duration? then StartPosition(cfg) < m <= StopPosition(cfg) else m >= 2)
    && f.doneTiming == (cfg.Duration? && m > StopPosition(cfg))
    && f.doneRamping == (match cfg
                         case Transactions(_, _) => m >= 2
                         case Duration(false) => m > 0
                         case Duration(true) => m == 3 || m == 6)
  }

  lemma CallKeepsFlagsOk(cfg: Config, m: nat, f: Flags)
    requires FlagsOk(cfg, m, f) && m < |Script(cfg)|
    ensures FlagsOk(cfg, m + 1, Apply(f, Script(cfg)[m]))
  {
  }

  /** In duration mode only all calls together end the run. */
  lemma FinishedIff(cfg: Config, m: nat, f: Flags)
    requires cfg.Duration? && FlagsOk(cfg, m, f) && m <= |Script(cfg)|
    ensures RunFinished(f) <==> m == |Script(cfg)|
  {
  }

  ghost predicate CountsOk(cfg: Config, w: Worker) {
    && w.flags.totalXacts == Completions(w.trace)
    && (cfg.Duration? ==>
          w.flags.timedXacts == CompletedBetween(w.trace, StartPosition(cfg), StopPosition(cfg)))
    && (cfg.Transactions? ==>
          w.flags.totalXacts <= cfg.numXacts && (w.pc == Busy ==> w.flags.totalXacts < cfg.numXacts))
  }

  ghost predicate CallsOk(cfg: Config, m: nat, t: seq<Event>) {
    m <= |Script(cfg)| && Calls(t) == Script(cfg)[..m]
  }

  ghost predicate WorkerOk(cfg: Config, m: nat, w: Worker) {
    && CallsOk(cfg, m, w.trace) && FlagsOk(cfg, m, w.flags) && CountsOk(cfg, w)
    && (w.pc != AwaitGo ==> w.flags.go)
    && (w.pc == Done ==> RunFinished(w.flags))
  }

  lemma TraceGrows(t: seq<Event>, e: Event, t': seq<Event>)
    requires t' == t + [e]
    ensures t'[..|t'| - 1] == t && t'[|t'| - 1] == e
  {
  }

  lemma WorkerStepOk(cfg: Config, m: nat, w: Worker)
    requires WorkerOk(cfg, m, w) && (cfg.Transactions? ==> cfg.numXacts > 0)
    ensures WorkerOk(cfg, m, WorkerStep(w))
  {
    if w.pc == Busy {
      TraceGrows(w.trace, Completed, w.trace + [Completed]);
      assert |Calls(w.trace)| == m;
    }
  }

  /** A call completes nothing. */
  lemma CalledSnoc(t: seq<Event>, c: Call, from: nat, to: nat)
    ensures Calls(t + [Called(c)]) == Calls(t) + [c]
    ensures Completions(t + [Called(c)]) == Completions(t)
    ensures CompletedBetween(t + [Called(c)], from, to) == CompletedBetween(t, from, to)
  {
    TraceGrows(t, Called(c), t + [Called(c)]);
  }

  lemma ReceiveCalls(cfg: Config, m: nat, t: seq<Event>)
    requires CallsOk(cfg, m, t) && m < |Script(cfg)|
    ensures CallsOk(cfg, m + 1, t + [Called(Script(cfg)[m])])
  {
    CalledSnoc(t, Script(cfg)[m], 0, 0);
    assert Script(cfg)[..m + 1] == Script(cfg)[..m] + [Script(cfg)[m]];
  }

  /** In duration mode timingStart comes once, behind StartPosition calls. */
  lemma TimingStartPosition(ramp: bool, m: nat)
    requires m < |Script(Duration(ramp))| && Script(Duration(ramp))[m] == TimingStart
    ensures m == StartPosition(Duration(ramp))
  {
  }

  /** Only timingStart changes a count, at a moment when nothing has been counted. */
  lemma StartCounts(ramp: bool, m: nat, w: Worker)
    requires CallsOk(Duration(ramp), m, w.trace) && CountsOk(Duration(ramp), w)
    requires m == StartPosition(Duration(ramp))
    ensures CountsOk(Duration(ramp), Receive(w, TimingStart))
  {
    var from, to := StartPosition(Duration(ramp)), StopPosition(Duration(ramp));
    CalledSnoc(w.trace, TimingStart, from, to);
    assert |Calls(w.trace)| == m;
    NothingBefore(w.trace, from, to);
  }

  lemma OtherCounts(cfg: Config, w: Worker, c: Call)
    requires CountsOk(cfg, w) && (cfg.Duration? ==> c != TimingStart)
    ensures CountsOk(cfg, Receive(w, c))
  {
    CalledSnoc(w.trace, c, StartPosition(cfg), StopPosition(cfg));
  }

  lemma ReceiveCounts(cfg: Config, m: nat, w: Worker)
    requires CallsOk(cfg, m, w.trace) && CountsOk(cfg, w) && m < |Script(cfg)|
    ensures CountsOk(cfg, Receive(w, Script(cfg)[m]))
  {
    if cfg.Duration? && Script(cfg)[m] == TimingStart {
      TimingStartPosition(cfg.ramp, m);
      StartCounts(cfg.ramp, m, w);
    } else {
      OtherCounts(cfg, w, Script(cfg)[m]);
    }
  }

  lemma ReceiveOk(cfg: Config, m: nat, w: Worker)
    requires WorkerOk(cfg, m, w) && m < |Script(cfg)| && (cfg.Transactions? ==> cfg.numXacts > 0)
    ensures WorkerOk(cfg, m + 1, Receive(w, Script(cfg)[m]))
  {
    CallKeepsFlagsOk(cfg, m, w.flags);
    ReceiveCalls(cfg, m, w.trace);
    ReceiveCounts(cfg, m, w);
    if cfg.Duration? {
      FinishedIff(cfg, m, w.flags);
    }
  }

  lemma {:induction false} NothingBefore(t: seq<Event>, from: nat, to: nat)
    requires |Calls(t)| <= from
    ensures CompletedBetween(t, from, to) == 0
  {
    if t != [] {
      NothingBefore(t[..|t| - 1], from, to);
    }
  }

  /** Every worker is where the controller's position says. */
  ghost predicate AllOk(cfg: Config, s: nat, k: nat, j: nat, workers: seq<Worker>)
    requires s <= |Stages(cfg)|
  {
    forall t :: 0 <= t < |workers| ==> WorkerOk(cfg, Received(cfg, s, k, j, t), workers[t])
  }

  ghost predicate Inv(cfg: Config, w: World) {
    && w.s <= |Stages(cfg)| && w.k <= |w.workers|
    && (w.s < |Stages(cfg)| ==> w.j <= |Stages(cfg)[w.s]|)
    && (w.k == |w.workers| ==> w.j == 0)
    && AllOk(cfg, w.s, w.k, w.j, w.workers)
  }

  /** The next thread, or the next stage. */
  lemma ReceivedMoves(cfg: Config, w: World, s: nat, k: nat, t: nat)
    requires w.s < |Stages(cfg)| && t < |w.workers|
    requires (s == w.s && k == w.k + 1 <= |w.workers| && w.j == |Stages(cfg)[w.s]|)
          || (s == w.s + 1 && k == 0 && w.k == |w.workers|)
    ensures Received(cfg, s, k, 0, t) == Received(cfg, w.s, w.k, w.j, t)
  {
    StagesMakeScript(cfg, w.s, 0);
  }

  /** Moving on without a call. */
  lemma MoveOk(cfg: Config, w: World, s: nat, k: nat)
    requires Inv(cfg, w) && w.s < |Stages(cfg)|
    requires (s == w.s && k == w.k + 1 <= |w.workers| && w.j == |Stages(cfg)[w.s]|)
          || (s == w.s + 1 && k == 0 && w.k == |w.workers|)
    ensures Inv(cfg, World(s, k, 0, w.workers))
  {
    forall t | 0 <= t < |w.workers| ensures WorkerOk(cfg, Received(cfg, s, k, 0, t), w.workers[t]) {
      assert WorkerOk(cfg, Received(cfg, w.s, w.k, w.j, t), w.workers[t]);
      ReceivedMoves(cfg, w, s, k, t);
    }
  }

  lemma ReceivedNext(cfg: Config, s: nat, k: nat, j: nat, t: nat)
    requires s < |Stages(cfg)|
    ensures Received(cfg, s, k, j + 1, t) == Received(cfg, s, k, j, t) + if t == k then 1 else 0
    ensures Received(cfg, s, k, j, k) == Offset(cfg, s) + j
  {
  }

  /** The thread that is called. */
  lemma CalledThreadOk(cfg: Config, s: nat, k: nat, j: nat, w: Worker)
    requires s < |Stages(cfg)| && j < |Stages(cfg)[s]| && (cfg.Transactions? ==> cfg.numXacts > 0)
    requires WorkerOk(cfg, Received(cfg, s, k, j, k), w)
    ensures WorkerOk(cfg, Received(cfg, s, k, j + 1, k), Receive(w, Stages(cfg)[s][j]))
  {
    StagesMakeScript(cfg, s, j);
    ReceivedNext(cfg, s, k, j, k);
    ReceiveOk(cfg, Received(cfg, s, k, j, k), w);
  }

  lemma OtherThreadOk(cfg: Config, s: nat, k: nat, j: nat, t: nat, w: Worker)
    requires s < |Stages(cfg)| && t != k && WorkerOk(cfg, Received(cfg, s, k, j, t), w)
    ensures WorkerOk(cfg, Received(cfg, s, k, j + 1, t), w)
  {
    ReceivedNext(cfg, s, k, j, t);
  }

  lemma CallOk(cfg: Config, s: nat, k: nat, j: nat, workers: seq<Worker>)
    requires cfg.Transactions? ==> cfg.numXacts > 0
    requires s < |Stages(cfg)| && k < |workers| && j < |Stages(cfg)[s]| && AllOk(cfg, s, k, j, workers)
    ensures AllOk(cfg, s, k, j + 1, workers[k := Receive(workers[k], Stages(cfg)[s][j])])
  {
    var workers' := workers[k := Receive(workers[k], Stages(cfg)[s][j])];
    forall t | 0 <= t < |workers| ensures WorkerOk(cfg, Received(cfg, s, k, j + 1, t), workers'[t]) {
      assert WorkerOk(cfg, Received(cfg, s, k, j, t), workers[t]);
      if t == k {
        CalledThreadOk(cfg, s, k, j, workers[k]);
      } else {
        OtherThreadOk(cfg, s, k, j, t, workers[t]);
      }
    }
  }

  lemma ControllerMovesOk(cfg: Config, w: World)
    requires Inv(cfg, w) && w.s < |Stages(cfg)| && (w.k >= |w.workers| || w.j >= |Stages(cfg)[w.s]|)
    ensures Inv(cfg, ControllerStep(cfg, w))
  {
    if w.k >= |w.workers| {
      MoveOk(cfg, w, w.s + 1, 0);
    } else {
      MoveOk(cfg, w, w.s, w.k + 1);
    }
  }

  lemma ControllerCallsOk(cfg: Config, w: World)
    requires Inv(cfg, w) && (cfg.Transactions? ==> cfg.numXacts > 0)
    requires w.s < |Stages(cfg)| && w.k < |w.workers| && w.j < |Stages(cfg)[w.s]|
    ensures Inv(cfg, ControllerStep(cfg, w))
  {
    CallOk(cfg, w.s, w.k, w.j, w.workers);
  }

  lemma ControllerStepOk(cfg: Config, w: World)
    requires Inv(cfg, w) && (cfg.Transactions? ==> cfg.numXacts > 0)
    ensures Inv(cfg, ControllerStep(cfg, w))
  {
    if w.s < |Stages(cfg)| {
      if w.k >= |w.workers| || w.j >= |Stages(cfg)[w.s]| {
        ControllerMovesOk(cfg, w);
      } else {
        ControllerCallsOk(cfg, w);
      }
    }
  }

  lemma WorkerActsOk(cfg: Config, w: World, t: nat)
    requires Inv(cfg, w) && t < |w.workers| && (cfg.Transactions? ==> cfg.numXacts > 0)
    ensures Inv(cfg, Next(cfg, w, OfWorker(t)))
  {
    var w' := Next(cfg, w, OfWorker(t));
    WorkerStepOk(cfg, Received(cfg, w.s, w.k, w.j, t), w.workers[t]);
    forall u | 0 <= u < |w.workers|
      ensures WorkerOk(cfg, Received(cfg, w.s, w.k, w.j, u), w'.workers[u])
    {
      assert WorkerOk(cfg, Received(cfg, w.s, w.k, w.j, u), w.workers[u]);
    }
  }

  lemma InitialOk(cfg: Config)
    ensures WorkerOk(cfg, 0, Worker(Initial(NumXacts(cfg)), AwaitGo, []))
  {
    assert Script(cfg)[..0] == [];
  }

  lemma {:induction false} RunOk(cfg: Config, n: nat, actions: seq<Action>)
    requires cfg.Transactions? ==> cfg.numXacts > 0
    ensures Inv(cfg, Run(cfg, n, actions))
  {
    if actions == [] {
      InitialOk(cfg);
    } else {
      var w, a := Run(cfg, n, actions[..|actions| - 1]), actions[|actions| - 1];
      RunOk(cfg, n, actions[..|actions| - 1]);
      match a {
        case OfController => ControllerStepOk(cfg, w);
        case OfWorker(t) => if t < n { WorkerActsOk(cfg, w, t); }
      }
    }
  }

  // ------------------------------------------------------------------------
  // What every run guarantees
  // ------------------------------------------------------------------------

  /** Duration mode: a thread finds its run finished exactly once it has received all its calls, so
      none stops before its last phase command. */
  lemma NoEarlyStop(ramp: bool, n: nat, actions: seq<Action>, t: nat)
    requires t < n
    ensures var w := Run(Duration(ramp), n, actions).workers[t];
            && (RunFinished(w.flags) <==> Calls(w.trace) == Script(Duration(ramp)))
            && (w.pc == Done ==> Calls(w.trace) == Script(Duration(ramp)))
  {
    var cfg := Duration(ramp);
    RunOk(cfg, n, actions);
    var world := Run(cfg, n, actions);
    var w, m := world.workers[t], Received(cfg, world.s, world.k, world.j, t);
    assert WorkerOk(cfg, m, w);
    FinishedIff(cfg, m, w.flags);
    assert |Calls(w.trace)| == m;
    assert Script(cfg)[..|Script(cfg)|] == Script(cfg);
  }

  /** Duration mode: at every moment the count of a thread is the number of transactions it has
      completed behind its timingStart and before its timingStop. */
  lemma TimedCountIsWindow(ramp: bool, n: nat, actions: seq<Action>, t: nat)
    requires t < n
    ensures var cfg, w := Duration(ramp), Run(Duration(ramp), n, actions).workers[t];
            && w.flags.timedXacts == CompletedBetween(w.trace, StartPosition(cfg), StopPosition(cfg))
            && Script(cfg)[StartPosition(cfg)] == TimingStart
            && Script(cfg)[StopPosition(cfg)] == TimingStop
  {
    var cfg := Duration(ramp);
    RunOk(cfg, n, actions);
    var w := Run(cfg, n, actions);
    assert WorkerOk(cfg, Received(cfg, w.s, w.k, w.j, t), w.workers[t]);
  }

  /** Transaction mode, with or without ramp time: a thread that is done has completed exactly the transactions
      asked for. */
  lemma ExactTransactions(numXacts: nat, ramp: bool, n: nat, actions: seq<Action>, t: nat)
    requires t < n && numXacts > 0
    ensures var w := Run(Transactions(numXacts, ramp), n, actions).workers[t];
            && Completions(w.trace) <= numXacts
            && (w.pc == Done ==> Completions(w.trace) == numXacts == w.flags.totalXacts)
  {
    var cfg := Transactions(numXacts, ramp);
    RunOk(cfg, n, actions);
    var w := Run(cfg, n, actions);
    assert WorkerOk(cfg, Received(cfg, w.s, w.k, w.j, t), w.workers[t]);
  }
}
