/** Runs of the Java benchmark: the counts of a thread are the transactions it was scheduled to
    complete, and for every configuration some run ends with all threads done. */
module PhaseRuns {
  import opened PhaseController

  // ------------------------------------------------------------------------
  // Counts are steps
  // ------------------------------------------------------------------------

  /** How many calls the controller has made on thread t. */
  function CallsMade(cfg: Config, w: World, t: nat): nat
    requires w.s <= |Stages(cfg)|
  {
    Received(cfg, w.s, w.k, w.j, t)
  }

  /** Thread t is scheduled while it is in a transaction. */
  predicate Completes(w: World, a: Action, t: nat)
    requires t < |w.workers|
  {
    a == OfWorker(t) && w.workers[t].pc == Busy
  }

  /** The same, and timingStart but not timingStop has been called on it. */
  ghost predicate CompletesTimed(cfg: Config, w: World, a: Action, t: nat)
    requires t < |w.workers|
  {
    Completes(w, a, t) && w.s <= |Stages(cfg)| && StartPosition(cfg) < CallsMade(cfg, w, t) <= StopPosition(cfg)
  }

  function CompletionSteps(cfg: Config, n: nat, actions: seq<Action>, t: nat): nat
    requires t < n
  {
    if actions == [] then 0
    else
      var front := actions[..|actions| - 1];
      CompletionSteps(cfg, n, front, t) +
        if Completes(Run(cfg, n, front), actions[|actions| - 1], t) then 1 else 0
  }

  ghost function TimedSteps(cfg: Config, n: nat, actions: seq<Action>, t: nat): nat
    requires t < n
  {
    if actions == [] then 0
    else
      var front := actions[..|actions| - 1];
      TimedSteps(cfg, n, front, t) +
        if CompletesTimed(cfg, Run(cfg, n, front), actions[|actions| - 1], t) then 1 else 0
  }

  lemma ReceiveKeepsTotal(w: Worker, c: Call)
    ensures Receive(w, c).flags.totalXacts == w.flags.totalXacts && Receive(w, c).pc == w.pc
    ensures c != TimingStart ==> Receive(w, c).flags.timedXacts == w.flags.timedXacts
    ensures w.flags.timedXacts == 0 ==> Receive(w, c).flags.timedXacts == 0
  {
  }

  lemma TotalSteps(cfg: Config, w: World, a: Action, t: nat)
    requires t < |w.workers|
    ensures Next(cfg, w, a).workers[t].flags.totalXacts
         == w.workers[t].flags.totalXacts + if Completes(w, a, t) then 1 else 0
  {
    if a.OfController? && w.s < |Stages(cfg)| && w.k < |w.workers| && w.j < |Stages(cfg)[w.s]| {
      ReceiveKeepsTotal(w.workers[w.k], Stages(cfg)[w.s][w.j]);
    }
  }

  /** totalXacts counts exactly the steps that complete a transaction. */
  lemma {:induction false} TotalIsSteps(cfg: Config, n: nat, actions: seq<Action>, t: nat)
    requires t < n
    ensures Run(cfg, n, actions).workers[t].flags.totalXacts == CompletionSteps(cfg, n, actions, t)
  {
    if actions != [] {
      var front := actions[..|actions| - 1];
      TotalIsSteps(cfg, n, front, t);
      TotalSteps(cfg, Run(cfg, n, front), actions[|actions| - 1], t);
    }
  }

  lemma CompletedSnoc(t: seq<Event>, from: nat, to: nat)
    ensures CompletedBetween(t + [Completed], from, to)
         == CompletedBetween(t, from, to) + if from < |Calls(t)| <= to then 1 else 0
  {
    TraceGrows(t, Completed, t + [Completed]);
  }

  function Timed(ramp: bool, t: seq<Event>): nat {
    CompletedBetween(t, StartPosition(Duration(ramp)), StopPosition(Duration(ramp)))
  }

  /** A thread with m calls behind it takes a step. */
  lemma WorkerBetween(ramp: bool, m: nat, w: Worker)
    requires |Calls(w.trace)| == m
    ensures var from, to := StartPosition(Duration(ramp)), StopPosition(Duration(ramp));
            Timed(ramp, WorkerStep(w).trace) == Timed(ramp, w.trace) + if w.pc == Busy && from < m <= to then 1 else 0
  {
    CompletedSnoc(w.trace, StartPosition(Duration(ramp)), StopPosition(Duration(ramp)));
  }

  lemma CallBetween(ramp: bool, w: Worker, c: Call)
    ensures Timed(ramp, Receive(w, c).trace) == Timed(ramp, w.trace)
  {
    CalledSnoc(w.trace, c, StartPosition(Duration(ramp)), StopPosition(Duration(ramp)));
  }

  lemma CallsCounted(cfg: Config, w: World, t: nat)
    requires Inv(cfg, w) && t < |w.workers|
    ensures |Calls(w.workers[t].trace)| == CallsMade(cfg, w, t)
  {
    assert WorkerOk(cfg, CallsMade(cfg, w, t), w.workers[t]);
  }

  lemma BetweenStep(ramp: bool, w: World, a: Action, t: nat)
    requires Inv(Duration(ramp), w) && t < |w.workers|
    ensures Timed(ramp, Next(Duration(ramp), w, a).workers[t].trace)
         == Timed(ramp, w.workers[t].trace) + if CompletesTimed(Duration(ramp), w, a, t) then 1 else 0
  {
    var cfg := Duration(ramp);
    if a == OfWorker(t) {
      CallsCounted(cfg, w, t);
      WorkerBetween(ramp, CallsMade(cfg, w, t), w.workers[t]);
    } else if a.OfController? && w.s < |Stages(cfg)| && w.k == t && w.j < |Stages(cfg)[w.s]| {
      CallBetween(ramp, w.workers[t], Stages(cfg)[w.s][w.j]);
    }
  }

  lemma {:induction false} BetweenIsSteps(ramp: bool, n: nat, actions: seq<Action>, t: nat)
    requires t < n
    ensures Timed(ramp, Run(Duration(ramp), n, actions).workers[t].trace) == TimedSteps(Duration(ramp), n, actions, t)
  {
    if actions != [] {
      var front := actions[..|actions| - 1];
      BetweenIsSteps(ramp, n, front, t);
      RunOk(Duration(ramp), n, front);
      BetweenStep(ramp, Run(Duration(ramp), n, front), actions[|actions| - 1], t);
    }
  }

  /** Duration mode: timedXacts counts exactly the steps that complete a transaction behind the thread's timingStart
      and before its timingStop. */
  lemma TimedIsSteps(ramp: bool, n: nat, actions: seq<Action>, t: nat)
    requires t < n
    ensures Run(Duration(ramp), n, actions).workers[t].flags.timedXacts == TimedSteps(Duration(ramp), n, actions, t)
  {
    TimedCountIsWindow(ramp, n, actions, t);
    BetweenIsSteps(ramp, n, actions, t);
  }

  // ------------------------------------------------------------------------
  // Runs that end
  // ------------------------------------------------------------------------

  lemma Goes(cfg: Config, n: nat, actions: seq<Action>, a: Action) returns (more: seq<Action>)
    ensures Run(cfg, n, more) == Next(cfg, Run(cfg, n, actions), a)
  {
    more := actions + [a];
    assert more[..|more| - 1] == actions;
  }

  /** The controller has not touched where the threads are and what they have completed. */
  ghost predicate SameProgress(ws: seq<Worker>, ws': seq<Worker>) {
    |ws| == |ws'| && forall t :: 0 <= t < |ws| ==>
      && ws'[t].pc == ws[t].pc && ws'[t].flags.totalXacts == ws[t].flags.totalXacts
      && (ws[t].flags.timedXacts == 0 ==> ws'[t].flags.timedXacts == 0)
  }

  ghost predicate SameTimed(ws: seq<Worker>, ws': seq<Worker>) {
    |ws| == |ws'| && forall t :: 0 <= t < |ws| ==> ws'[t].flags.timedXacts == ws[t].flags.timedXacts
  }

  /** timingStart is not among the calls from stage s on. */
  ghost predicate TimingStarted(cfg: Config, s: nat) {
    forall r :: s <= r < |Stages(cfg)| ==> TimingStart !in Stages(cfg)[r]
  }

  lemma ControllerKeeps(cfg: Config, w: World)
    requires w.s < |Stages(cfg)|
    ensures SameProgress(w.workers, ControllerStep(cfg, w).workers)
    ensures TimingStarted(cfg, w.s) ==> SameTimed(w.workers, ControllerStep(cfg, w).workers)
  {
    if w.k < |w.workers| && w.j < |Stages(cfg)[w.s]| {
      ReceiveKeepsTotal(w.workers[w.k], Stages(cfg)[w.s][w.j]);
    }
  }

  lemma KeepsOn(cfg: Config, s: nat, s': nat, ws: seq<Worker>, ws': seq<Worker>, ws'': seq<Worker>)
    requires s <= s' && SameProgress(ws, ws') && SameProgress(ws', ws'')
    requires TimingStarted(cfg, s) ==> SameTimed(ws, ws')
    requires TimingStarted(cfg, s') ==> SameTimed(ws', ws'')
    ensures SameProgress(ws, ws'') && (TimingStarted(cfg, s) ==> SameTimed(ws, ws''))
  {
    forall t | 0 <= t < |ws|
      ensures ws''[t].pc == ws[t].pc && ws''[t].flags.totalXacts == ws[t].flags.totalXacts
      ensures ws[t].flags.timedXacts == 0 ==> ws''[t].flags.timedXacts == 0
    {
      assert ws'[t].pc == ws[t].pc;
    }
    if TimingStarted(cfg, s) {
      assert TimingStarted(cfg, s');
      forall t | 0 <= t < |ws| ensures ws''[t].flags.timedXacts == ws[t].flags.timedXacts {
        assert ws'[t].flags.timedXacts == ws[t].flags.timedXacts;
      }
    }
  }

  /** The controller alone goes on to a later stage. */
  lemma {:induction false} ControllerGoesTo(cfg: Config, n: nat, actions: seq<Action>, target: nat)
      returns (more: seq<Action>)
    requires target <= |Stages(cfg)|
    requires Inv(cfg, Run(cfg, n, actions)) && (cfg.Transactions? ==> cfg.numXacts > 0)
    requires var w := Run(cfg, n, actions); w.s < target || (w.s == target && w.k == w.j == 0)
    ensures var w, w' := Run(cfg, n, actions), Run(cfg, n, more);
            && Inv(cfg, w') && w'.s == target && w'.k == w'.j == 0
            && SameProgress(w.workers, w'.workers)
            && (TimingStarted(cfg, w.s) ==> SameTimed(w.workers, w'.workers))
    decreases target - Run(cfg, n, actions).s, n - Run(cfg, n, actions).k,
              if Run(cfg, n, actions).s < |Stages(cfg)|
              then |Stages(cfg)[Run(cfg, n, actions).s]| - Run(cfg, n, actions).j else 0
  {
    var w := Run(cfg, n, actions);
    more := actions;
    if w.s < target {
      more := Goes(cfg, n, actions, OfController);
      ControllerStepOk(cfg, w);
      ControllerKeeps(cfg, w);
      var w' := Run(cfg, n, more);
      more := ControllerGoesTo(cfg, n, more, target);
      KeepsOn(cfg, w.s, w'.s, w.workers, w'.workers, Run(cfg, n, more).workers);
    }
  }

  /** Nothing but thread t has moved. */
  ghost predicate OnlyThread(w: World, w': World, t: nat) {
    && w' == w.(workers := w'.workers) && |w'.workers| == |w.workers|
    && forall u :: 0 <= u < |w.workers| && u != t ==> w'.workers[u] == w.workers[u]
  }

  lemma Steps(cfg: Config, n: nat, actions: seq<Action>, t: nat) returns (more: seq<Action>)
    requires t < n
    ensures var w, w' := Run(cfg, n, actions), Run(cfg, n, more);
            OnlyThread(w, w', t) && w'.workers[t] == WorkerStep(w.workers[t])
  {
    more := Goes(cfg, n, actions, OfWorker(t));
  }

  /** One thread completes m timed transactions. */
  lemma {:induction false} Rounds(ramp: bool, n: nat, actions: seq<Action>, t: nat, m: nat) returns (more: seq<Action>)
    requires t < n
    requires var w := Run(Duration(ramp), n, actions).workers[t];
             w.pc == Check && w.flags.numXacts == 0 && w.flags.timing && !w.flags.doneTiming
    ensures var w, w' := Run(Duration(ramp), n, actions), Run(Duration(ramp), n, more);
            && OnlyThread(w, w', t) && w'.workers[t].pc == Check
            && w'.workers[t].flags.timedXacts == w.workers[t].flags.timedXacts + m
    decreases m
  {
    more := actions;
    if m > 0 {
      more := Steps(Duration(ramp), n, more, t);
      more := Steps(Duration(ramp), n, more, t);
      more := Rounds(ramp, n, more, t, m - 1);
    }
  }

  /** A thread that has been started in transaction mode. */
  ghost predicate Underway(cfg: Config, w: Worker) {
    && cfg.Transactions? && w.flags.go && w.flags.numXacts == cfg.numXacts > 0
    && w.flags.totalXacts <= cfg.numXacts && (w.pc == Busy ==> w.flags.totalXacts < cfg.numXacts)
  }

  /** It goes on to its end. */
  lemma {:induction false} Ends(cfg: Config, n: nat, actions: seq<Action>, t: nat) returns (more: seq<Action>)
    requires t < n && Underway(cfg, Run(cfg, n, actions).workers[t])
    ensures var w, w' := Run(cfg, n, actions), Run(cfg, n, more);
            OnlyThread(w, w', t) && w'.workers[t].pc == Done
    decreases cfg.numXacts - Run(cfg, n, actions).workers[t].flags.totalXacts, Rank(Run(cfg, n, actions).workers[t].pc)
  {
    more := actions;
    var w := Run(cfg, n, actions).workers[t];
    if w.pc != Done {
      more := Steps(cfg, n, actions, t);
      more := Ends(cfg, n, more, t);
    }
  }

  function Rank(pc: Pc): nat {
    match pc case AwaitGo => 3 case Check => 2 case Busy => 1 case Done => 0
  }

  /** The controller has made all its calls. */
  lemma AllCalled(cfg: Config, w: World, t: nat)
    requires Inv(cfg, w) && w.s == |Stages(cfg)| && t < |w.workers|
    ensures w.workers[t].flags.go
    ensures cfg.Transactions? && cfg.numXacts > 0 ==> Underway(cfg, w.workers[t])
    ensures cfg.Duration? ==> RunFinished(w.workers[t].flags)
  {
    assert WorkerOk(cfg, CallsMade(cfg, w, t), w.workers[t]);
    StagesMakeScript(cfg, 0, 0);
  }

  ghost predicate DoneUpTo(ws: seq<Worker>, t: nat) {
    forall u :: 0 <= u < t && u < |ws| ==> ws[u].pc == Done
  }

  ghost predicate UnderwayFrom(cfg: Config, ws: seq<Worker>, t: nat) {
    forall u :: t <= u < |ws| ==> Underway(cfg, ws[u])
  }

  lemma {:induction false} AllEnd(cfg: Config, n: nat, actions: seq<Action>, t: nat) returns (more: seq<Action>)
    requires t <= n && DoneUpTo(Run(cfg, n, actions).workers, t) && UnderwayFrom(cfg, Run(cfg, n, actions).workers, t)
    ensures DoneUpTo(Run(cfg, n, more).workers, n)
    decreases n - t
  {
    more := actions;
    if t < n {
      var ws := Run(cfg, n, actions).workers;
      assert Underway(cfg, ws[t]);
      more := Ends(cfg, n, more, t);
      var ws' := Run(cfg, n, more).workers;
      assert forall u :: 0 <= u < n && u != t ==> ws'[u] == ws[u];
      more := AllEnd(cfg, n, more, t + 1);
    }
  }

  /** Transaction mode: for every number of transactions and of threads some run ends with all threads done. */
  lemma SomeRunEnds(numXacts: nat, ramp: bool, n: nat) returns (actions: seq<Action>)
    requires numXacts > 0
    ensures forall t :: 0 <= t < n ==> Run(Transactions(numXacts, ramp), n, actions).workers[t].pc == Done
  {
    var cfg := Transactions(numXacts, ramp);
    RunOk(cfg, n, []);
    actions := ControllerGoesTo(cfg, n, [], |Stages(cfg)|);
    forall t | 0 <= t < n ensures Underway(cfg, Run(cfg, n, actions).workers[t]) {
      AllCalled(cfg, Run(cfg, n, actions), t);
    }
    actions := AllEnd(cfg, n, actions, 0);
  }

  /** The stage in front of which all threads have been started and are timed. */
  function TimedStage(ramp: bool): nat {
    if ramp then 2 else 1
  }

  lemma AllTimed(ramp: bool, w: World, t: nat)
    requires Inv(Duration(ramp), w) && w.s == TimedStage(ramp) && w.k == w.j == 0 && t < |w.workers|
    ensures var f := w.workers[t].flags; f.go && f.timing && !f.doneTiming && f.numXacts == 0
    ensures TimingStarted(Duration(ramp), w.s)
  {
    var cfg := Duration(ramp);
    assert WorkerOk(cfg, CallsMade(cfg, w, t), w.workers[t]);
    assert Offset(cfg, 1) == |Stages(cfg)[0]|;
  }

  ghost predicate ReadyToCount(w: Worker) {
    && w.pc == AwaitGo && w.flags.go && w.flags.timing && !w.flags.doneTiming
    && w.flags.numXacts == 0 && w.flags.timedXacts == 0
  }

  ghost predicate Counted(w: Worker, m: nat) {
    w.pc == Check && w.flags.timedXacts == m
  }

  lemma {:induction false} AllCount(ramp: bool, n: nat, actions: seq<Action>, t: nat, m: nat)
      returns (more: seq<Action>)
    requires t <= n
    requires var w := Run(Duration(ramp), n, actions);
             && (forall u :: 0 <= u < t ==> Counted(w.workers[u], m))
             && (forall u :: t <= u < n ==> ReadyToCount(w.workers[u]))
    ensures var w, w' := Run(Duration(ramp), n, actions), Run(Duration(ramp), n, more);
            && w' == w.(workers := w'.workers)
            && forall u :: 0 <= u < n ==> Counted(w'.workers[u], m)
    decreases n - t
  {
    more := actions;
    if t < n {
      more := Steps(Duration(ramp), n, more, t);
      more := Rounds(ramp, n, more, t, m);
      more := AllCount(ramp, n, more, t + 1, m);
    }
  }

  lemma {:induction false} AllStop(ramp: bool, n: nat, actions: seq<Action>, t: nat, m: nat) returns (more: seq<Action>)
    requires t <= n
    requires var w := Run(Duration(ramp), n, actions);
             && (forall u :: 0 <= u < t ==> w.workers[u].pc == Done && w.workers[u].flags.timedXacts == m)
             && (forall u :: t <= u < n ==> Counted(w.workers[u], m) && RunFinished(w.workers[u].flags))
    ensures var w := Run(Duration(ramp), n, more);
            forall u :: 0 <= u < n ==> w.workers[u].pc == Done && w.workers[u].flags.timedXacts == m
    decreases n - t
  {
    more := actions;
    if t < n {
      more := Steps(Duration(ramp), n, more, t);
      more := AllStop(ramp, n, more, t + 1, m);
    }
  }

  /** Duration mode: for every m and number of threads some run ends with all threads done and a timed count of m
      for each of them. */
  lemma SomeTimedRunEnds(ramp: bool, n: nat, m: nat) returns (actions: seq<Action>)
    ensures var w := Run(Duration(ramp), n, actions);
            forall t :: 0 <= t < n ==> w.workers[t].pc == Done && w.workers[t].flags.timedXacts == m
  {
    var cfg := Duration(ramp);
    RunOk(cfg, n, []);
    actions := ControllerGoesTo(cfg, n, [], TimedStage(ramp));
    forall t | 0 <= t < n ensures ReadyToCount(Run(cfg, n, actions).workers[t]) {
      AllTimed(ramp, Run(cfg, n, actions), t);
    }
    actions := AllCount(ramp, n, actions, 0, m);
    actions := Finishes(ramp, n, actions, m);
    actions := AllStop(ramp, n, actions, 0, m);
  }

  /** The controller makes the calls that are left. */
  lemma Finishes(ramp: bool, n: nat, actions: seq<Action>, m: nat) returns (more: seq<Action>)
    requires var w := Run(Duration(ramp), n, actions);
             && w.s == TimedStage(ramp) && w.k == w.j == 0
             && forall t :: 0 <= t < n ==> Counted(w.workers[t], m)
    ensures var w := Run(Duration(ramp), n, more);
            forall t :: 0 <= t < n ==> Counted(w.workers[t], m) && RunFinished(w.workers[t].flags)
  {
    var cfg := Duration(ramp);
    var w := Run(cfg, n, actions);
    RunOk(cfg, n, actions);
    if n > 0 {
      AllTimed(ramp, w, 0);
    }
    more := ControllerGoesTo(cfg, n, actions, |Stages(cfg)|);
    forall t | 0 <= t < n
      ensures Counted(Run(cfg, n, more).workers[t], m) && RunFinished(Run(cfg, n, more).workers[t].flags)
    {
      AllCalled(cfg, Run(cfg, n, more), t);
    }
  }
}
