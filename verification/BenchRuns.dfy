/** Runs of the throughput benchmark that go through to the end: for every configuration and every
    number of processes there is one in which each process executes any number of operations, so
    what holds of all finished runs is not empty. */
module BenchRuns {
  import opened BenchTrace
  import opened BenchProtocol

  /** The parent, and n children in the same state. */
  function All(p: Parent, c: Child, n: nat): World {
    World(p, seq(n, _ => c))
  }

  /** The first k children are in another state already. */
  function Mixed(p: Parent, c: Child, c': Child, k: nat, n: nat): World {
    World(p, seq(n, i => if i < k then c' else c))
  }

  lemma Goes(cfg: Config, n: nat, actions: seq<Action>, a: Action) returns (more: seq<Action>)
    ensures more == actions + [a] && Run(cfg, n, more) == Next(cfg, Run(cfg, n, actions), a)
  {
    more := actions + [a];
    assert more[..|more| - 1] == actions;
  }

  lemma Follows(cfg: Config, n: nat, actions: seq<Action>, w: World, a: Action) returns (more: seq<Action>)
    requires Run(cfg, n, actions) == w
    ensures Run(cfg, n, more) == Next(cfg, w, a)
  {
    more := Goes(cfg, n, actions, a);
  }

  /** Every child takes a step. */
  lemma ChildrenStep(cfg: Config, n: nat, actions: seq<Action>, p: Parent, c: Child) returns (more: seq<Action>)
    requires Run(cfg, n, actions) == All(p, c, n)
    ensures Run(cfg, n, more) == All(p, ChildStep(cfg, c), n)
  {
    assert All(p, c, n).children == Mixed(p, c, ChildStep(cfg, c), 0, n).children;
    more := ChildrenStepFrom(cfg, n, actions, p, c, 0);
  }

  lemma {:induction false} ChildrenStepFrom(cfg: Config, n: nat, actions: seq<Action>, p: Parent, c: Child, k: nat)
      returns (more: seq<Action>)
    requires k <= n && Run(cfg, n, actions) == Mixed(p, c, ChildStep(cfg, c), k, n)
    ensures Run(cfg, n, more) == All(p, ChildStep(cfg, c), n)
    decreases n - k
  {
    var c' := ChildStep(cfg, c);
    if k == n {
      more := actions;
      assert Mixed(p, c, c', n, n).children == All(p, c', n).children;
    } else {
      more := Follows(cfg, n, actions, Mixed(p, c, c', k, n), OfChild(k));
      assert Mixed(p, c, c', k, n).children[k := c'] == Mixed(p, c, c', k + 1, n).children;
      more := ChildrenStepFrom(cfg, n, more, p, c, k + 1);
    }
  }

  ghost predicate Tells(cfg: Config, pc: ParentPc, word: nat) {
    match pc
    case Readying(_) => word == READY
    case Starting(_) => word == StartWord(cfg)
    case Telling(w, _) => word == w
    case _ => false
  }

  /** The parent has told the first k children. */
  function At(pc: ParentPc, k: nat): ParentPc {
    match pc
    case Readying(_) => Readying(k)
    case Starting(_) => Starting(k)
    case Telling(word, _) => Telling(word, k)
    case _ => pc
  }

  /** The parent tells every child a command. */
  lemma {:induction false} AllTold(cfg: Config, n: nat, actions: seq<Action>, p: Parent, c: Child, word: nat, k: nat)
      returns (more: seq<Action>)
    requires Tells(cfg, p.pc, word) && p.pc == At(p.pc, k) && k <= n
    requires Run(cfg, n, actions) == Mixed(p, c, Receive(c, word), k, n)
    ensures Run(cfg, n, more) == All(p.(pc := At(p.pc, n)), Receive(c, word), n)
    decreases n - k
  {
    var c' := Receive(c, word);
    if k == n {
      more := actions;
      assert Mixed(p, c, c', n, n).children == All(p, c', n).children;
    } else {
      more := Follows(cfg, n, actions, Mixed(p, c, c', k, n), OfParent);
      assert Mixed(p, c, c', k, n).children[k := c'] == Mixed(p, c, c', k + 1, n).children;
      more := AllTold(cfg, n, more, p.(pc := At(p.pc, k + 1)), c, word, k + 1);
    }
  }

  lemma Told(cfg: Config, n: nat, actions: seq<Action>, p: Parent, c: Child, word: nat) returns (more: seq<Action>)
    requires Tells(cfg, p.pc, word) && p.pc == At(p.pc, 0) && Run(cfg, n, actions) == All(p, c, n)
    ensures Run(cfg, n, more) == All(p.(pc := At(p.pc, n)), Receive(c, word), n)
  {
    assert All(p, c, n).children == Mixed(p, c, Receive(c, word), 0, n).children;
    more := AllTold(cfg, n, actions, p, c, word, 0);
  }

  /** The parent looks at all children, which are set. */
  lemma {:induction false} AllScanned(cfg: Config, n: nat, actions: seq<Action>, p: Parent, c: Child, k: nat)
      returns (more: seq<Action>)
    requires p.pc == Scanning(k, true) && k <= n && c.shared.state == SET && Run(cfg, n, actions) == All(p, c, n)
    ensures Run(cfg, n, more) == All(p.(pc := Scanning(n, true)), c, n)
    decreases n - k
  {
    more := actions;
    if k < n {
      more := Follows(cfg, n, more, All(p, c, n), OfParent);
      more := AllScanned(cfg, n, more, p.(pc := Scanning(k + 1, true)), c, k + 1);
    }
  }

  lemma WaitStep(cfg: Config, p: Parent, c: Child, k: nat, n: nat)
    requires p.pc == Waiting(k) && k < n && c.shared.state >= END
    ensures ParentStep(cfg, All(p, c, n)) == All(p.(pc := Waiting(k + 1)), c, n)
  {
  }

  /** The parent finds that child k has ended. */
  lemma WaitsFor(cfg: Config, n: nat, actions: seq<Action>, p: Parent, c: Child, k: nat) returns (more: seq<Action>)
    requires p.pc == Waiting(k) && k < n && c.shared.state >= END && Run(cfg, n, actions) == All(p, c, n)
    ensures Run(cfg, n, more) == All(p.(pc := Waiting(k + 1)), c, n)
  {
    more := Goes(cfg, n, actions, OfParent);
    WaitStep(cfg, p, c, k, n);
  }

  lemma ReportsTotal(cfg: Config, n: nat, actions: seq<Action>, p: Parent, c: Child) returns (more: seq<Action>)
    requires p.pc == Waiting(n) && Run(cfg, n, actions) == All(p, c, n)
    ensures Run(cfg, n, more) == All(p.(pc := Reported(p.xacts + n * c.shared.xacts)), c, n)
  {
    more := Goes(cfg, n, actions, OfParent);
    ReportStep(cfg, n, p, c);
  }

  lemma ReportStep(cfg: Config, n: nat, p: Parent, c: Child)
    requires p.pc == Waiting(n)
    ensures ParentStep(cfg, All(p, c, n)) == All(p.(pc := Reported(p.xacts + n * c.shared.xacts)), c, n)
  {
    TotalOfEqual(p.xacts, All(p, c, n).children, c.shared.xacts);
  }

  /** The parent waits from child k on and reports. */
  lemma {:induction false} Reports(cfg: Config, n: nat, actions: seq<Action>, p: Parent, c: Child, k: nat)
      returns (more: seq<Action>)
    requires p.pc == Waiting(k) && k <= n && c.shared.state >= END && Run(cfg, n, actions) == All(p, c, n)
    ensures Run(cfg, n, more) == All(p.(pc := Reported(p.xacts + n * c.shared.xacts)), c, n)
    decreases n - k
  {
    if k < n {
      more := WaitsFor(cfg, n, actions, p, c, k);
      more := Reports(cfg, n, more, p.(pc := Waiting(k + 1)), c, k + 1);
    } else {
      more := ReportsTotal(cfg, n, actions, p, c);
    }
  }

  // ------------------------------------------------------------------------
  // The start
  // ------------------------------------------------------------------------

  /** Attentive so far, and with nothing unanswered. */
  ghost predicate UpToDate(c: Child) {
    Attentive(c.trace) && !Unanswered(c.trace)
  }

  lemma EventUpToDate(t: Trace, e: Event)
    requires Attentive(t) && !e.Sent?
    ensures Attentive(t + [e])
    ensures !Unanswered(t) || e.Saw? ==> !Unanswered(t + [e])
  {
    TraceGrows(t, e, t + [e]);
  }

  predicate Looks(cfg: Config, pc: Pc) {
    Waits(pc) || (pc == Test && cfg.Duration?)
  }

  lemma StepTrace(cfg: Config, c: Child)
    ensures ChildStep(cfg, c).trace
         == if Looks(cfg, c.pc) then c.trace + [Saw(c.shared.state)]
            else if c.pc == Work then c.trace + [Executed] else c.trace
  {
  }

  lemma StepUpToDate(cfg: Config, c: Child)
    requires Attentive(c.trace)
    ensures Attentive(ChildStep(cfg, c).trace)
    ensures UpToDate(c) ==> UpToDate(ChildStep(cfg, c))
    ensures Looks(cfg, c.pc) ==> UpToDate(ChildStep(cfg, c))
  {
    StepTrace(cfg, c);
    if c.pc == Work {
      EventUpToDate(c.trace, Executed);
    } else if Looks(cfg, c.pc) {
      EventUpToDate(c.trace, Saw(c.shared.state));
    }
  }

  lemma ReceiveUpToDate(c: Child, word: nat)
    requires UpToDate(c)
    ensures Attentive(Receive(c, word).trace)
  {
    TraceGrows(c.trace, Sent(word), Receive(c, word).trace);
  }

  /** All children have been started and the parent is past the barrier. */
  lemma Begun(cfg: Config, n: nat) returns (actions: seq<Action>, p: Parent, c: Child)
    ensures Run(cfg, n, actions) == All(p, c, n) && UpToDate(c)
    ensures c.pc == Test && c.i == c.shared.xacts == 0
    ensures c.shared.state == if cfg.RampUp() then RUNNING else STARTBENCH
    ensures p.pc == Running(if cfg.Transactions? then Transacting else if cfg.RampUp() then RampingUp else Measuring)
    ensures p.i == p.xacts == 0
  {
    p, c := Parent(Readying(0), 0, 0, []), NEW_CHILD;
    assert Run(cfg, n, []) == All(p, c, n);
    ReceiveUpToDate(c, READY);
    actions := Told(cfg, n, [], p, c, READY);
    c := Receive(c, READY);
    actions := Follows(cfg, n, actions, All(p.(pc := Readying(n)), c, n), OfParent);
    p := p.(pc := Scanning(0, true));
    StepUpToDate(cfg, c);
    actions := ChildrenStep(cfg, n, actions, p, c);
    c := ChildStep(cfg, c);
    actions := AllScanned(cfg, n, actions, p, c, 0);
    actions := Follows(cfg, n, actions, All(p.(pc := Scanning(n, true)), c, n), OfParent);
    actions, p, c := Started(cfg, n, actions, p.(pc := Starting(0)), c);
  }

  lemma Started(cfg: Config, n: nat, actions: seq<Action>, p0: Parent, c0: Child)
      returns (more: seq<Action>, p: Parent, c: Child)
    requires Run(cfg, n, actions) == All(p0, c0, n) && p0 == Parent(Starting(0), 0, 0, [])
    requires UpToDate(c0) && c0.pc == AwaitGo && c0.i == c0.shared.xacts == 0
    ensures Run(cfg, n, more) == All(p, c, n) && UpToDate(c)
    ensures c.pc == Test && c.i == c.shared.xacts == 0
    ensures c.shared.state == if cfg.RampUp() then RUNNING else STARTBENCH
    ensures p.pc == Running(if cfg.Transactions? then Transacting else if cfg.RampUp() then RampingUp else Measuring)
    ensures p.i == p.xacts == 0
  {
    ReceiveUpToDate(c0, StartWord(cfg));
    more := Told(cfg, n, actions, p0, c0, StartWord(cfg));
    c := Receive(c0, StartWord(cfg));
    more := Follows(cfg, n, more, All(p0.(pc := Starting(n)), c, n), OfParent);
    p := ParentStep(cfg, All(p0.(pc := Starting(n)), c, n)).parent;
    StepUpToDate(cfg, c);
    more := ChildrenStep(cfg, n, more, p, c);
    c := ChildStep(cfg, c);
  }

  // ------------------------------------------------------------------------
  // Rounds: every process executes one operation
  // ------------------------------------------------------------------------

  /** A child at its test in duration mode has counted i operations, or is about to see STARTBENCH. */
  ghost predicate Counting(c: Child, i: nat) {
    && c.pc == Test && Attentive(c.trace)
    && (if i == 0 then c.shared.state == STARTBENCH else c.i == i && c.shared.state == MEASURING && UpToDate(c))
  }

  lemma {:induction false} Rounds(cfg: Config, n: nat, actions: seq<Action>, p0: Parent, c0: Child, i: nat, m: nat)
      returns (more: seq<Action>, p: Parent, c: Child)
    requires cfg.Duration? && i <= m && Run(cfg, n, actions) == All(p0, c0, n)
    requires Counting(c0, i) && p0.pc == Running(Measuring) && p0.i == i
    ensures Run(cfg, n, more) == All(p, c, n) && Counting(c, m) && p.pc == Running(Measuring) && p.i == m
    decreases m - i
  {
    more, p, c := actions, p0, c0;
    if i < m {
      more, c := Worked(cfg, n, more, p, c);
      more := Follows(cfg, n, more, All(p, c, n), OfParent);
      more, p, c := Rounds(cfg, n, more, Works(p), c, i + 1, m);
    }
  }

  /** Every child goes through its test and the operation behind it. */
  lemma Worked(cfg: Config, n: nat, actions: seq<Action>, p: Parent, c0: Child)
      returns (more: seq<Action>, c: Child)
    requires Run(cfg, n, actions) == All(p, c0, n) && c0.pc == Test && ChildStep(cfg, c0).pc == Work
    requires Attentive(c0.trace) && (UpToDate(c0) || cfg.Duration?)
    ensures Run(cfg, n, more) == All(p, c, n) && UpToDate(c) && c == ChildStep(cfg, ChildStep(cfg, c0))
  {
    StepUpToDate(cfg, c0);
    more := ChildrenStep(cfg, n, actions, p, c0);
    c := ChildStep(cfg, c0);
    StepUpToDate(cfg, c);
    more := ChildrenStep(cfg, n, more, p, c);
    c := ChildStep(cfg, c);
  }

  /** A measured window of m operations for every process, from its opening to the report. */
  lemma Measured(cfg: Config, n: nat, actions: seq<Action>, p0: Parent, c0: Child, m: nat)
      returns (more: seq<Action>, p: Parent, c: Child)
    requires cfg.Duration? && m > 0 && Run(cfg, n, actions) == All(p0, c0, n)
    requires Counting(c0, 0) && p0.pc == Running(Measuring) && p0.i == 0
    ensures Run(cfg, n, more) == All(p, c, n) && c.pc == Gone && Attentive(c.trace)
    ensures p.pc == Reported((n + 1) * m) && c.shared.xacts == m
  {
    more, p, c := Rounds(cfg, n, actions, p0, c0, 0, m);
    more := Follows(cfg, n, more, All(p, c, n), TimeUp);
    p := Close(p, Telling(STOPBENCH, 0));
    ReceiveUpToDate(c, STOPBENCH);
    more := Told(cfg, n, more, p, c, STOPBENCH);
    p, c := p.(pc := Telling(STOPBENCH, n)), Receive(c, STOPBENCH);
    StepUpToDate(cfg, c);
    more := ChildrenStep(cfg, n, more, p, c);
    c := ChildStep(cfg, c);
    assert c.shared == ProcInfo(STOPPING, m) && UpToDate(c);
    more, p := Stopping(cfg, n, more, p, c);
    more, p, c := Stopped(cfg, n, more, p, c);
    assert (n + 1) * m == m + n * m;
  }

  /** With or without ramp-down, STOP is told next. */
  lemma Stopping(cfg: Config, n: nat, actions: seq<Action>, p0: Parent, c: Child) returns (more: seq<Action>, p: Parent)
    requires cfg.Duration? && Run(cfg, n, actions) == All(p0, c, n) && p0.pc == Telling(STOPBENCH, n)
    ensures Run(cfg, n, more) == All(p, c, n) && p == p0.(pc := Telling(STOP, 0))
  {
    more := Follows(cfg, n, actions, All(p0, c, n), OfParent);
    p := p0.(pc := Telling(STOP, 0));
    if cfg.down {
      more := Follows(cfg, n, more, All(p0.(pc := Running(RampingDown)), c, n), TimeUp);
    }
  }

  /** A child works, is told to stop, and looks. */
  function StopOne(cfg: Config, c: Child): Child {
    ChildStep(cfg, Receive(ChildStep(cfg, c), STOP))
  }

  lemma StopOneLeaves(cfg: Config, c: Child)
    requires cfg.Duration? && c.pc == Work && UpToDate(c)
    ensures var c' := StopOne(cfg, c);
            c'.pc == Leave && Attentive(c'.trace) && c'.shared.xacts == c.shared.xacts
  {
    StepUpToDate(cfg, c);
    var worked := ChildStep(cfg, c);
    assert worked.pc == Test && worked.shared == c.shared;
    ReceiveUpToDate(worked, STOP);
    var told := Receive(worked, STOP);
    assert told.pc == Test && told.shared == ProcInfo(STOP, c.shared.xacts);
    StepUpToDate(cfg, told);
  }

  lemma StopSeen(cfg: Config, n: nat, actions: seq<Action>, p: Parent, c: Child) returns (more: seq<Action>)
    requires Run(cfg, n, actions) == All(p, c, n) && p.pc == Telling(STOP, 0)
    ensures Run(cfg, n, more) == All(p.(pc := Telling(STOP, n)), StopOne(cfg, c), n)
  {
    more := ChildrenStep(cfg, n, actions, p, c);
    more := Told(cfg, n, more, p, ChildStep(cfg, c), STOP);
    more := ChildrenStep(cfg, n, more, p.(pc := Telling(STOP, n)), Receive(ChildStep(cfg, c), STOP));
  }

  lemma Stopped(cfg: Config, n: nat, actions: seq<Action>, p0: Parent, c0: Child)
      returns (more: seq<Action>, p: Parent, c: Child)
    requires cfg.Duration? && Run(cfg, n, actions) == All(p0, c0, n) && p0.pc == Telling(STOP, 0)
    requires c0.pc == Work && UpToDate(c0)
    ensures Run(cfg, n, more) == All(p, c, n) && c.pc == Gone && Attentive(c.trace)
    ensures p.pc == Reported(p0.xacts + n * c0.shared.xacts) && c.shared.xacts == c0.shared.xacts
  {
    StopOneLeaves(cfg, c0);
    more := StopSeen(cfg, n, actions, p0, c0);
    c := StopOne(cfg, c0);
    more := Follows(cfg, n, more, All(p0.(pc := Telling(STOP, n)), c, n), OfParent);
    p := p0.(pc := Waiting(0));
    more, c := Left(cfg, n, more, p, c);
    more := Reports(cfg, n, more, p, c, 0);
    p := p.(pc := Reported(p.xacts + n * c.shared.xacts));
  }

  lemma Left(cfg: Config, n: nat, actions: seq<Action>, p: Parent, c0: Child) returns (more: seq<Action>, c: Child)
    requires Run(cfg, n, actions) == All(p, c0, n) && c0.pc == Leave
    ensures Run(cfg, n, more) == All(p, c, n) && c.pc == Gone && c.shared == ProcInfo(END, c0.shared.xacts)
    ensures c.trace == c0.trace
  {
    more := ChildrenStep(cfg, n, actions, p, c0);
    c := ChildStep(cfg, c0);
  }

  /** The measured window is open and no child has looked yet. */
  lemma Opened(cfg: Config, n: nat) returns (actions: seq<Action>, p: Parent, c: Child)
    requires cfg.Duration?
    ensures Run(cfg, n, actions) == All(p, c, n) && Counting(c, 0)
    ensures p.pc == Running(Measuring) && p.i == 0
  {
    actions, p, c := Begun(cfg, n);
    if cfg.up {
      actions, c := Worked(cfg, n, actions, p, c);
      actions := Follows(cfg, n, actions, All(p, c, n), TimeUp);
      p := Open(p, Telling(STARTBENCH, 0));
      ReceiveUpToDate(c, STARTBENCH);
      actions := Told(cfg, n, actions, p, c, STARTBENCH);
      p, c := p.(pc := Telling(STARTBENCH, n)), Receive(c, STARTBENCH);
      actions := Follows(cfg, n, actions, All(p, c, n), OfParent);
      p := p.(pc := Running(Measuring));
    }
  }

  /** Duration mode: for every positive m, number of processes and ramp times there is a run in which all children are
      attentive, every process publishes m operations and the reported total is their sum. */
  lemma SomeRunReports(cfg: Config, n: nat, m: nat) returns (actions: seq<Action>)
    requires cfg.Duration? && m > 0
    ensures var w := Run(cfg, n, actions);
            && w.parent.pc == Reported((n + 1) * m)
            && forall c :: 0 <= c < n ==>
                 w.children[c].pc == Gone && Attentive(w.children[c].trace) && w.children[c].shared.xacts == m
  {
    var p, c;
    actions, p, c := Opened(cfg, n);
    actions, p, c := Measured(cfg, n, actions, p, c, m);
  }

  // ------------------------------------------------------------------------
  // Where the measured window is lost
  // ------------------------------------------------------------------------

  /** The parent tells all children from number k on; the run goes on from any state. */
  lemma {:induction false} TellsOn(cfg: Config, n: nat, actions: seq<Action>, word: nat, k: nat, c: nat)
      returns (more: seq<Action>)
    requires k <= n && c < n && Run(cfg, n, actions).parent.pc == Telling(word, k)
    ensures actions <= more
    ensures var w, w' := Run(cfg, n, actions), Run(cfg, n, more);
            && w'.parent == BenchProtocol.Told(cfg, w.parent)
            && w'.children[c] == if c < k then w.children[c] else Receive(w.children[c], word)
    decreases n - k
  {
    more := Goes(cfg, n, actions, OfParent);
    if k < n {
      more := TellsOn(cfg, n, more, word, k + 1, c);
    }
  }

  lemma NotYetStopped(rampUp: bool, t: Trace)
    requires Lawful(rampUp, t) && Command(t) == STARTBENCH
    ensures Saw(STOPBENCH) !in t
  {
    if Saw(STOPBENCH) in t {
      var k :| 0 <= k < |t| && t[k] == Saw(STOPBENCH);
      SawCommand(rampUp, t, k);
      CommandsGrow(rampUp, t, k);
    }
  }

  /** Sending STOPBENCH and STOP to a child in front of its test, and letting it end. */
  lemma ChildMissesStopBench(cfg: Config, child: Child, last: Child)
    requires cfg.Duration? && child.pc == Test
    requires last == ChildStep(cfg, ChildStep(cfg, Receive(Receive(child, STOPBENCH), STOP)))
    ensures last.pc == Gone && last.shared.xacts == child.shared.xacts
    ensures last.trace == child.trace + [Sent(STOPBENCH), Sent(STOP), Saw(STOP)]
  {
    var told := Receive(Receive(child, STOPBENCH), STOP);
    assert told.shared.state == STOP && told.pc == Test;
    assert ChildStep(cfg, told).pc == Leave;
  }

  lemma StopsUnseen(cfg: Config, n: nat, actions: seq<Action>, c: nat) returns (more: seq<Action>)
    requires cfg.Duration? && !cfg.down && c < n && Run(cfg, n, actions).parent.pc == Running(Measuring)
    ensures actions <= more
    ensures Run(cfg, n, more).children[c]
         == ChildStep(cfg, ChildStep(cfg, Receive(Receive(Run(cfg, n, actions).children[c], STOPBENCH), STOP)))
  {
    more := Goes(cfg, n, actions, TimeUp);
    more := TellsOn(cfg, n, more, STOPBENCH, 0, c);
    more := TellsOn(cfg, n, more, STOP, 0, c);
    more := Goes(cfg, n, more, OfChild(c));
    more := Goes(cfg, n, more, OfChild(c));
  }

  /** Without ramp-down the parent sends STOP right behind STOPBENCH. Whatever has happened before, while the
      parent measures, the run can go on in such a way that a child about to look at its word misses
      STOPBENCH: it ends with 0 published, and 0 is not the number of operations in any window. */
  lemma NoRampDownLosesWindow(cfg: Config, n: nat, actions: seq<Action>, c: nat) returns (more: seq<Action>)
    requires cfg.Duration? && !cfg.down && c < n
    requires var w := Run(cfg, n, actions); w.parent.pc == Running(Measuring) && w.children[c].pc == Test
    ensures actions <= more
    ensures var child, last := Run(cfg, n, actions).children[c], Run(cfg, n, more).children[c];
            && last.pc == Gone && last.shared.xacts == 0 && !HasWindow(last.trace, 0)
            && last.trace == child.trace + [Sent(STOPBENCH), Sent(STOP), Saw(STOP)]
  {
    var w := Run(cfg, n, actions);
    var child := w.children[c];
    RunOk(cfg, n, actions);
    assert ChildInv(cfg, w.parent.pc, c, child);
    NotYetStopped(cfg.RampUp(), child.trace);

    more := StopsUnseen(cfg, n, actions, c);
    var last := Run(cfg, n, more).children[c];
    ChildMissesStopBench(cfg, child, last);
    RunOk(cfg, n, more);
    assert ChildInv(cfg, Run(cfg, n, more).parent.pc, c, last);
    AnsweredIsSeen(cfg.RampUp(), last.trace, STOPBENCH);
    PublishesWindow(cfg, n, more, c);
  }

  /** With or without ramp-up, and for any number of children, there is such a run, in which the child executes an
      operation behind STARTBENCH. */
  lemma LostWindow(cfg: Config, n: nat, c: nat) returns (actions: seq<Action>, t: Trace)
    requires cfg.Duration? && !cfg.down && c < n
    ensures var child := Run(cfg, n, actions).children[c];
            && child.pc == Gone && child.shared.xacts == 0 && !HasWindow(child.trace, 0)
            && child.trace == t + [Saw(STARTBENCH), Executed, Sent(STOPBENCH), Sent(STOP), Saw(STOP)]
  {
    var p, child;
    actions, p, child := Opened(cfg, n);
    t := child.trace;
    actions, child := Worked(cfg, n, actions, p, child);
    assert child.trace == t + [Saw(STARTBENCH), Executed];
    actions := NoRampDownLosesWindow(cfg, n, actions, c);
  }

  // ------------------------------------------------------------------------
  // Transaction mode
  // ------------------------------------------------------------------------

  lemma {:induction false} ChildrenTransact(cfg: Config, n: nat, actions: seq<Action>, p: Parent, c0: Child)
      returns (more: seq<Action>, c: Child)
    requires cfg.Transactions? && Run(cfg, n, actions) == All(p, c0, n)
    requires c0.pc == Test && c0.i <= cfg.numXacts && UpToDate(c0)
    ensures Run(cfg, n, more) == All(p, c, n) && c.pc == Gone && c.shared.state == END
    decreases cfg.numXacts - c0.i
  {
    if c0.i < cfg.numXacts {
      more, c := Worked(cfg, n, actions, p, c0);
      more, c := ChildrenTransact(cfg, n, more, p, c);
    } else {
      more := ChildrenStep(cfg, n, actions, p, c0);
      c := ChildStep(cfg, c0);
      more, c := Left(cfg, n, more, p, c);
    }
  }

  lemma {:induction false} ParentFinishes(cfg: Config, n: nat, actions: seq<Action>, p0: Parent, c: Child)
      returns (more: seq<Action>, p: Parent)
    requires cfg.Transactions? && Run(cfg, n, actions) == All(p0, c, n)
    requires p0.pc == Running(Transacting) && p0.i <= cfg.numXacts
    ensures Run(cfg, n, more) == All(p, c, n) && p.pc == Waiting(0)
    decreases cfg.numXacts - p0.i
  {
    more := Follows(cfg, n, actions, All(p0, c, n), OfParent);
    p := Transact(cfg, p0);
    if p0.i < cfg.numXacts {
      more, p := ParentFinishes(cfg, n, more, p, c);
    }
  }

  /** Transaction mode: for every number of operations and of processes some run reports. */
  lemma SomeTransactionRunReports(numXacts: nat, n: nat) returns (actions: seq<Action>)
    ensures Run(Transactions(numXacts), n, actions).parent.pc.Reported?
  {
    var cfg := Transactions(numXacts);
    var p, c;
    actions, p, c := Begun(cfg, n);
    actions, c := ChildrenTransact(cfg, n, actions, p, c);
    actions, p := ParentFinishes(cfg, n, actions, p, c);
    actions := Reports(cfg, n, actions, p, c, 0);
  }

  // ------------------------------------------------------------------------
  // Operations are steps
  // ------------------------------------------------------------------------

  /** How often child c has been scheduled with an operation in front of it. */
  function WorkSteps(cfg: Config, n: nat, actions: seq<Action>, c: nat): nat
    requires c < n
  {
    if actions == [] then 0
    else
      var front, a := actions[..|actions| - 1], actions[|actions| - 1];
      WorkSteps(cfg, n, front, c) + if a == OfChild(c) && Run(cfg, n, front).children[c].pc == Work then 1 else 0
  }

  /** How often the parent has. */
  function ParentWorkSteps(cfg: Config, n: nat, actions: seq<Action>): nat {
    if actions == [] then 0
    else
      var front, a := actions[..|actions| - 1], actions[|actions| - 1];
      ParentWorkSteps(cfg, n, front) + if a == OfParent && HasWork(cfg, Run(cfg, n, front).parent) then 1 else 0
  }

  predicate HasWork(cfg: Config, p: Parent) {
    p.pc.Running? && (cfg.Transactions? ==> p.i < cfg.numXacts)
  }

  lemma OpsSnoc(t: Trace, e: Event)
    ensures Ops(t + [e]) == Ops(t) + if e == Executed then 1 else 0
  {
    TraceGrows(t, e, t + [e]);
  }

  lemma ChildStepOps(cfg: Config, c: Child)
    ensures Ops(ChildStep(cfg, c).trace) == Ops(c.trace) + if c.pc == Work then 1 else 0
  {
    StepTrace(cfg, c);
    OpsSnoc(c.trace, Saw(c.shared.state));
    OpsSnoc(c.trace, Executed);
  }

  lemma ToldTrace(cfg: Config, w: World, c: nat)
    requires c < |w.children|
    ensures Ops(ParentStep(cfg, w).children[c].trace) == Ops(w.children[c].trace)
  {
    OpsSnoc(w.children[c].trace, Sent(READY));
    OpsSnoc(w.children[c].trace, Sent(StartWord(cfg)));
    if w.parent.pc.Telling? {
      OpsSnoc(w.children[c].trace, Sent(w.parent.pc.word));
    }
  }

  lemma ChildOps(cfg: Config, w: World, a: Action, c: nat)
    requires c < |w.children|
    ensures Ops(Next(cfg, w, a).children[c].trace)
         == Ops(w.children[c].trace) + if a == OfChild(c) && w.children[c].pc == Work then 1 else 0
  {
    match a
    case OfChild(_) => ChildStepOps(cfg, w.children[c]);
    case OfParent => ToldTrace(cfg, w, c);
    case TimeUp =>
  }

  lemma ParentOps(cfg: Config, w: World, a: Action)
    requires PcOk(cfg, |w.children|, w.parent.pc)
    ensures Ops(Next(cfg, w, a).parent.trace)
         == Ops(w.parent.trace) + if a == OfParent && HasWork(cfg, w.parent) then 1 else 0
  {
    var t, t' := w.parent.trace, Next(cfg, w, a).parent.trace;
    if t' != t {
      TraceGrows(t, Last(t'), t');
    }
  }

  /** The operations in the traces are exactly the steps taken with an operation to execute. */
  lemma {:induction false} OpsAreSteps(cfg: Config, n: nat, actions: seq<Action>)
    ensures var w := Run(cfg, n, actions);
            && Ops(w.parent.trace) == ParentWorkSteps(cfg, n, actions)
            && forall c :: 0 <= c < n ==> Ops(w.children[c].trace) == WorkSteps(cfg, n, actions, c)
  {
    if actions != [] {
      var front, a := actions[..|actions| - 1], actions[|actions| - 1];
      var w := Run(cfg, n, front);
      OpsAreSteps(cfg, n, front);
      RunOk(cfg, n, front);
      ParentOps(cfg, w, a);
      forall c | 0 <= c < n ensures Ops(Next(cfg, w, a).children[c].trace) == WorkSteps(cfg, n, actions, c) {
        ChildOps(cfg, w, a, c);
      }
    }
  }
}
