/** How the parent of the throughput benchmark starts, measures and stops its children through
    one state word per process in shared memory (ExecuteTptBm of tptbm.c, duration and
    transaction mode, runs without errors and signals).

    One test of the own word together with the write it triggers is one step of a child;
    the parent's writes to and readings of different children are separate steps. */
module BenchProtocol {
  import opened BenchTrace

  /** -sec, with or without ramp time before and behind the measured time, or -xact. */
  datatype Config = Duration(up: bool, down: bool) | Transactions(numXacts: nat) {
    predicate RampUp() { Duration? && up }
    predicate RampDown() { Duration? && down }
  }

  /** What one process shares: its state word and its number of measured operations. */
  datatype ProcInfo = ProcInfo(state: nat, xacts: nat)

  // ------------------------------------------------------------------------
  // A child
  // ------------------------------------------------------------------------

  /** Where a child is: waiting to be readied, waiting to be started, about to test its
      word, about to execute an operation, about to report its end, gone. */
  datatype Pc = AwaitReady | AwaitGo | Test | Work | Leave | Gone

  datatype Child = Child(shared: ProcInfo, pc: Pc, i: nat, trace: Trace)

  const NEW_CHILD := Child(ProcInfo(INITIALIZED, 0), AwaitReady, 0, [])

  /** The test at the top of the execution loop in duration mode: new shared fields, counter, and whether to stop. */
  function LoopTest(info: ProcInfo, i: nat): (ProcInfo, nat, bool) {
    if info.state == STARTBENCH then (info.(state := MEASURING), 0, false)
    else if info.state == STOPBENCH then (ProcInfo(STOPPING, i), i, false)
    else if info.state == STOP then (info.(state := STOPPING), i, true)
    else (info, i, false)
  }

  /** The same in transaction mode: the word is not looked at, and the counter is stored before the operation. */
  function CountTest(info: ProcInfo, i: nat, numXacts: nat): (ProcInfo, bool) {
    if i < numXacts then (info.(xacts := i), false) else (info, true)
  }

  function ChildStep(cfg: Config, c: Child): Child {
    var seen := c.trace + [Saw(c.shared.state)];
    match c.pc
    case AwaitReady =>
      if c.shared.state < READY then c.(trace := seen)
      else c.(shared := c.shared.(state := SET), pc := AwaitGo, trace := seen)
    case AwaitGo =>
      if c.shared.state < GO then c.(trace := seen)
      else if c.shared.state == GO then c.(shared := c.shared.(state := RUNNING), pc := Test, trace := seen)
      else c.(pc := Test, trace := seen)
    case Test =>
      if cfg.Transactions? then
        var (shared, stop) := CountTest(c.shared, c.i, cfg.numXacts);
        c.(shared := shared, pc := if stop then Leave else Work)
      else
        var (shared, i, stop) := LoopTest(c.shared, c.i);
        Child(shared, if stop then Leave else Work, i, seen)
    case Work => c.(pc := Test, i := c.i + 1, trace := c.trace + [Executed])
    case Leave => c.(shared := c.shared.(state := END), pc := Gone)
    case Gone => c
  }

  function Receive(c: Child, word: nat): Child {
    c.(shared := c.shared.(state := word), trace := c.trace + [Sent(word)])
  }

  /** The loop test as the program performs it, on the shared array. */
  method TestOwnWord(shm: array<ProcInfo>, procId: nat, i: nat) returns (i': nat, stop: bool)
    requires procId < shm.Length
    modifies shm
    ensures var (info, j, s) := LoopTest(old(shm[procId]), i);
            shm[..] == old(shm[..])[procId := info] && i' == j && stop == s
  {
    i', stop := i, false;
    if shm[procId].state > RUNNING {
      if shm[procId].state == STARTBENCH {
        i' := 0;
        shm[procId] := shm[procId].(state := MEASURING);
      } else if shm[procId].state == STOPBENCH {
        shm[procId] := shm[procId].(xacts := i);
        shm[procId] := shm[procId].(state := STOPPING);
      } else if shm[procId].state == STOP {
        shm[procId] := shm[procId].(state := STOPPING);
        stop := true;
      }
    }
  }

  // ------------------------------------------------------------------------
  // The parent
  // ------------------------------------------------------------------------

  datatype Phase = RampingUp | Measuring | RampingDown | Transacting

  /** The parent readies child k, looks whether child k is set, starts child k, executes
      operations of its own, tells child k a command, or waits for child k to end. */
  datatype ParentPc =
    | Readying(k: nat) | Scanning(k: nat, allSet: bool) | Starting(k: nat)
    | Running(phase: Phase) | Telling(word: nat, k: nat) | Waiting(k: nat) | Reported(total: nat)

  datatype Parent = Parent(pc: ParentPc, i: nat, xacts: nat, trace: Trace)

  datatype World = World(parent: Parent, children: seq<Child>)

  datatype Action = OfChild(c: nat) | OfParent | TimeUp

  function StartWord(cfg: Config): nat {
    if cfg.RampUp() then GO else STARTBENCH
  }

  /** The last command of a run. */
  function LastWord(cfg: Config): nat {
    if cfg.Transactions? then STARTBENCH else STOP
  }

  function Total(own: nat, children: seq<Child>): nat {
    if children == [] then own
    else Total(own, children[..|children| - 1]) + children[|children| - 1].shared.xacts
  }

  /** The parent's own window is opened and closed by its clock. */
  function Open(p: Parent, pc: ParentPc): Parent {
    Parent(pc, 0, p.xacts, p.trace + [Saw(STARTBENCH)])
  }

  function Close(p: Parent, pc: ParentPc): Parent {
    Parent(pc, p.i, p.i, p.trace + [Saw(STOPBENCH)])
  }

  /** What follows when a command has been told to all children. */
  function Told(cfg: Config, p: Parent): Parent
    requires p.pc.Telling?
  {
    p.(pc := if p.pc.word == STARTBENCH then Running(Measuring)
             else if p.pc.word == STOPBENCH then if cfg.RampDown() then Running(RampingDown) else Telling(STOP, 0)
             else Waiting(0))
  }

  function Works(p: Parent): Parent {
    p.(i := p.i + 1, trace := p.trace + [Executed])
  }

  /** In transaction mode: nobody else reads the parent's counter, so storing it and executing the operation are one
      step. Behind the last operation the parent waits. */
  function Transact(cfg: Config, p: Parent): Parent {
    if cfg.Transactions? && p.i < cfg.numXacts then Works(p.(xacts := p.i)) else p.(pc := Waiting(0))
  }

  function ParentStep(cfg: Config, w: World): World {
    var p, n := w.parent, |w.children|;
    match p.pc
    case Readying(k) =>
      if k < n then Tell(w, k, READY, Readying(k + 1))
      else w.(parent := p.(pc := Scanning(0, true)))
    case Scanning(k, allSet) =>
      if k < n then w.(parent := p.(pc := Scanning(k + 1, allSet && w.children[k].shared.state == SET)))
      else if !allSet then w.(parent := p.(pc := Scanning(0, true)))
      else w.(parent := p.(pc := Starting(0)))
    case Starting(k) =>
      if k < n then Tell(w, k, StartWord(cfg), Starting(k + 1))
      else if cfg.Transactions? then w.(parent := p.(pc := Running(Transacting)))
      else if cfg.RampUp() then w.(parent := p.(pc := Running(RampingUp)))
      else w.(parent := Open(p, Running(Measuring)))
    case Running(phase) => w.(parent := if phase == Transacting then Transact(cfg, p) else Works(p))
    case Telling(word, k) =>
      if k < n then Tell(w, k, word, Telling(word, k + 1))
      else w.(parent := Told(cfg, p))
    case Waiting(k) =>
      if k < n then
        if w.children[k].shared.state >= END then w.(parent := p.(pc := Waiting(k + 1))) else w
      else w.(parent := p.(pc := Reported(Total(p.xacts, w.children))))
    case Reported(_) => w
  }

  function Tell(w: World, k: nat, word: nat, pc: ParentPc): World
    requires k < |w.children|
  {
    World(w.parent.(pc := pc), w.children[k := Receive(w.children[k], word)])
  }

  /** The time set for the current phase is over. */
  function PhaseOver(cfg: Config, p: Parent): Parent {
    if p.pc == Running(RampingUp) then Open(p, Telling(STARTBENCH, 0))
    else if p.pc == Running(Measuring) then Close(p, Telling(STOPBENCH, 0))
    else if p.pc == Running(RampingDown) then p.(pc := Telling(STOP, 0))
    else p
  }

  function Next(cfg: Config, w: World, a: Action): (w': World)
    ensures |w'.children| == |w.children|
  {
    match a
    case OfChild(c) =>
      if c < |w.children| then w.(children := w.children[c := ChildStep(cfg, w.children[c])]) else w
    case OfParent => ParentStep(cfg, w)
    case TimeUp => w.(parent := PhaseOver(cfg, w.parent))
  }

  /** n children, just created. */
  function Init(n: nat): World {
    World(Parent(Readying(0), 0, 0, []), seq(n, _ => NEW_CHILD))
  }

  function Run(cfg: Config, n: nat, actions: seq<Action>): (w: World)
    ensures |w.children| == n
  {
    if actions == [] then Init(n)
    else Next(cfg, Run(cfg, n, actions[..|actions| - 1]), actions[|actions| - 1])
  }

  // ------------------------------------------------------------------------
  // Invariant
  // ------------------------------------------------------------------------

  /** The latest command that child c has been sent. */
  function CommandFor(cfg: Config, pc: ParentPc, c: nat): nat {
    match pc
    case Readying(k) => if c < k then READY else INITIALIZED
    case Scanning(_, _) => READY
    case Starting(k) => if c < k then StartWord(cfg) else READY
    case Running(RampingUp) => GO
    case Running(Measuring) => STARTBENCH
    case Running(RampingDown) => STOPBENCH
    case Running(Transacting) => STARTBENCH
    case Telling(word, k) => if c < k then word else Before(cfg.RampUp(), word)
    case Waiting(_) => LastWord(cfg)
    case Reported(_) => LastWord(cfg)
  }

  /** The child has reported that it is set. */
  ghost predicate ReportedSet(t: Trace) {
    exists k :: 0 <= k < |t| && t[k].Saw? && t[k].word >= READY
  }

  ghost predicate Started(t: Trace) {
    Executed in t || Command(t) > READY
  }

  predicate Waits(pc: Pc) {
    pc == AwaitReady || pc == AwaitGo
  }

  /** In transaction mode: everything executed is counted, what is stored is the counter before the latest operation,
      and a child sees every command before the next one. */
  ghost predicate CountOk(numXacts: nat, c: Child) {
    && c.i == Ops(c.trace) <= numXacts
    && c.shared.xacts == (if c.pc == Work || c.i == 0 then c.i else c.i - 1)
    && (c.pc == Work ==> c.i < numXacts)
    && (c.pc == Leave || c.pc == Gone ==> c.i == numXacts)
    && (!Waits(c.pc) ==> !Unanswered(c.trace))
    && Attentive(c.trace)
  }

  /** In duration mode: a command that is still in the word after it has been seen is STARTBENCH, just
      answered in front of the loop. */
  ghost predicate PublishedOk(c: Child) {
    && c.shared.xacts == Published(c.trace)
    && Settled(c.trace)
    && (c.shared.state == GO ==> Waits(c.pc))
    && (c.shared.state % 2 == 1 && Saw(c.shared.state) in c.trace ==> c.pc == Test && Executed !in c.trace)
  }

  ghost predicate ChildOk(cfg: Config, command: nat, c: Child) {
    && Lawful(cfg.RampUp(), c.trace) && Command(c.trace) == command
    && (Unanswered(c.trace) ==> c.shared.state == command)
    && (c.shared.state % 2 == 1 ==> c.shared.state == command)
    && c.i == Since(c.trace)
    && (if cfg.Transactions? then CountOk(cfg.numXacts, c) else PublishedOk(c))
    && (c.pc == AwaitReady ==> c.shared.state == command <= READY)
    && (c.pc != AwaitReady ==> command >= READY && ReportedSet(c.trace))
    && (c.pc == AwaitGo && command == READY ==> c.shared.state == SET)
    && (Waits(c.pc) ==> Executed !in c.trace && c.i == c.shared.xacts == 0)
    && (!Waits(c.pc) ==> command > READY)
    && (cfg.Transactions? && command > READY ==> command == STARTBENCH)
    && (c.pc == Leave || c.pc == Gone ==> command == LastWord(cfg) && !Unanswered(c.trace))
    && (c.pc == Gone <==> c.shared.state >= END)
  }

  lemma TraceGrows(t: Trace, e: Event, t': Trace)
    requires t' == t + [e]
    ensures Front(t') == t && Last(t') == e
    ensures ReportedSet(t) ==> ReportedSet(t')
  {
    if ReportedSet(t) {
      var k :| 0 <= k < |t| && t[k].Saw? && t[k].word >= READY;
      assert t'[k] == t[k];
    }
  }

  /** What a reading of the word adds to the trace. */
  lemma SawOk(cfg: Config, command: nat, c: Child, trace: Trace)
    requires ChildOk(cfg, command, c) && trace == c.trace + [Saw(c.shared.state)]
    ensures Lawful(cfg.RampUp(), trace) && Command(trace) == command && !Unanswered(trace)
    ensures Since(trace) == if c.shared.state == STARTBENCH then 0 else c.i
    ensures Published(trace) == if c.shared.state == STOPBENCH then c.i else Published(c.trace)
    ensures Ops(trace) == Ops(c.trace) && (Attentive(trace) <==> Attentive(c.trace))
    ensures Executed in trace <==> Executed in c.trace
    ensures ReportedSet(c.trace) || c.shared.state >= READY ==> ReportedSet(trace)
    ensures cfg.Duration? ==> Settled(trace)
  {
    TraceGrows(c.trace, Saw(c.shared.state), trace);
    if cfg.Duration? {
      SettledSnoc(c.trace, Saw(c.shared.state));
    }
    assert trace[|c.trace|] == Saw(c.shared.state);
  }

  lemma WaitStepOk(cfg: Config, command: nat, c: Child)
    requires ChildOk(cfg, command, c) && Waits(c.pc)
    ensures ChildOk(cfg, command, ChildStep(cfg, c))
  {
    SawOk(cfg, command, c, ChildStep(cfg, c).trace);
  }

  lemma TestStepOk(cfg: Config, command: nat, c: Child)
    requires ChildOk(cfg, command, c) && c.pc == Test
    ensures ChildOk(cfg, command, ChildStep(cfg, c))
  {
    if cfg.Duration? {
      SawOk(cfg, command, c, ChildStep(cfg, c).trace);
      AnsweredWord(cfg, command, c);
    }
  }

  /** The loop test replaces every command in the word. */
  lemma AnsweredWord(cfg: Config, command: nat, c: Child)
    requires cfg.Duration? && ChildOk(cfg, command, c) && c.pc == Test
    ensures ChildStep(cfg, c).shared.state % 2 == 0
  {
    CommandsGrow(cfg.RampUp(), c.trace, 0);
  }

  lemma WorkStepOk(cfg: Config, command: nat, c: Child)
    requires ChildOk(cfg, command, c) && c.pc == Work
    ensures ChildOk(cfg, command, ChildStep(cfg, c))
  {
    TraceGrows(c.trace, Executed, ChildStep(cfg, c).trace);
    if cfg.Duration? {
      SettledSnoc(c.trace, Executed);
    }
  }

  lemma ChildStepOk(cfg: Config, command: nat, c: Child)
    requires ChildOk(cfg, command, c)
    ensures ChildOk(cfg, command, ChildStep(cfg, c))
  {
    match c.pc
    case AwaitReady => WaitStepOk(cfg, command, c);
    case AwaitGo => WaitStepOk(cfg, command, c);
    case Test => TestStepOk(cfg, command, c);
    case Work => WorkStepOk(cfg, command, c);
    case Leave =>
    case Gone =>
  }

  lemma {:induction false} UnansweredHasCommand(rampUp: bool, t: Trace)
    requires Lawful(rampUp, t) && Unanswered(t)
    ensures Command(t) != INITIALIZED
  {
    if !Last(t).Sent? {
      UnansweredHasCommand(rampUp, Front(t));
    }
  }

  /** A child that has seen the command before in time. */
  lemma AnsweredBefore(cfg: Config, command: nat, c: Child)
    requires ChildOk(cfg, command, c) && command <= READY && (command == READY ==> c.pc != AwaitReady)
    ensures Waits(c.pc) && !Unanswered(c.trace)
  {
    if Unanswered(c.trace) {
      UnansweredHasCommand(cfg.RampUp(), c.trace);
    }
  }

  /** A command that is sent has not been seen before. */
  lemma NewCommandUnseen(rampUp: bool, t: Trace, word: nat)
    requires Lawful(rampUp, t) && IsCommand(rampUp, word) && Command(t) == Before(rampUp, word)
    ensures Saw(word) !in t
  {
    if Saw(word) in t {
      var k :| 0 <= k < |t| && t[k] == Saw(word);
      SawCommand(rampUp, t, k);
      CommandsGrow(rampUp, t, k);
    }
  }

  lemma ReceivePublishes(cfg: Config, command: nat, c: Child, word: nat)
    requires cfg.Duration? && ChildOk(cfg, command, c)
    requires IsCommand(cfg.RampUp(), word) && command == Before(cfg.RampUp(), word)
    ensures PublishedOk(Receive(c, word))
  {
    var trace := Receive(c, word).trace;
    TraceGrows(c.trace, Sent(word), trace);
    SettledSnoc(c.trace, Sent(word));
    NewCommandUnseen(cfg.RampUp(), c.trace, word);
    assert Saw(word) !in trace;
  }

  lemma ReceiveOk(cfg: Config, command: nat, c: Child, word: nat)
    requires ChildOk(cfg, command, c)
    requires IsCommand(cfg.RampUp(), word) && command == Before(cfg.RampUp(), word)
    requires cfg.Transactions? ==> word <= STARTBENCH
    requires word > READY ==> c.pc != AwaitReady
    ensures ChildOk(cfg, word, Receive(c, word))
  {
    TraceGrows(c.trace, Sent(word), Receive(c, word).trace);
    if cfg.Transactions? {
      AnsweredBefore(cfg, command, c);
    } else {
      ReceivePublishes(cfg, command, c, word);
    }
  }

  /** All children have been seen set. */
  ghost predicate PastBarrier(pc: ParentPc) {
    !pc.Readying? && !pc.Scanning?
  }

  ghost predicate PcOk(cfg: Config, n: nat, pc: ParentPc) {
    match pc
    case Readying(k) => k <= n
    case Scanning(k, _) => k <= n
    case Starting(k) => k <= n
    case Running(phase) =>
      && (phase == RampingUp ==> cfg.RampUp()) && (phase == RampingDown ==> cfg.RampDown())
      && (phase == Transacting <==> cfg.Transactions?)
    case Telling(word, k) =>
      cfg.Duration? && k <= n && ((word == STARTBENCH && cfg.up) || word == STOPBENCH || word == STOP)
    case Waiting(k) => k <= n
    case Reported(_) => true
  }

  ghost predicate IsMeasuring(pc: ParentPc) {
    pc == Running(Measuring) || (pc.Telling? && pc.word == STARTBENCH)
  }

  ghost predicate IsDone(pc: ParentPc) {
    pc.Waiting? || pc.Reported?
  }

  ghost predicate HasMeasured(pc: ParentPc) {
    pc == Running(RampingDown) || IsDone(pc) || (pc.Telling? && pc.word != STARTBENCH)
  }

  /** The parent's window is open: n operations since its only sight of STARTBENCH. */
  ghost predicate MeasuresFrom(t: Trace, a: nat, n: nat) {
    && a < |t| && t[a] == Saw(STARTBENCH) && Saw(STARTBENCH) !in t[..a] && Saw(STOPBENCH) !in t
    && n == Ops(t[a + 1..])
  }

  ghost predicate Measures(t: Trace, n: nat) {
    exists a: nat :: MeasuresFrom(t, a, n)
  }

  ghost predicate NothingMeasured(t: Trace) {
    Saw(STARTBENCH) !in t && Saw(STOPBENCH) !in t
  }

  ghost predicate ParentOk(cfg: Config, p: Parent) {
    && (Executed in p.trace ==> PastBarrier(p.pc))
    && (cfg.Duration? && IsMeasuring(p.pc) ==> Measures(p.trace, p.i))
    && (cfg.Duration? && HasMeasured(p.pc) ==> HasWindow(p.trace, p.xacts))
    && (cfg.Duration? && !IsMeasuring(p.pc) && !HasMeasured(p.pc) ==> NothingMeasured(p.trace))
    && (cfg.Transactions? ==> ParentCountOk(cfg.numXacts, p))
  }

  ghost predicate ParentCountOk(numXacts: nat, p: Parent) {
    && p.i == Ops(p.trace) <= numXacts && p.xacts == (if p.i == 0 then 0 else p.i - 1)
    && (IsDone(p.pc) ==> p.i == numXacts)
  }

  ghost predicate Inv(cfg: Config, w: World) {
    && PcOk(cfg, |w.children|, w.parent.pc)
    && ParentOk(cfg, w.parent)
    && (forall c :: 0 <= c < |w.children| ==> ChildInv(cfg, w.parent.pc, c, w.children[c]))
    && (w.parent.pc.Reported? ==> w.parent.pc.total == Total(w.parent.xacts, w.children))
  }

  /** What the parent's position says about child c. */
  ghost predicate ChildInv(cfg: Config, pc: ParentPc, c: nat, child: Child) {
    && ChildOk(cfg, CommandFor(cfg, pc, c), child)
    && (SeenSet(pc, c) ==> child.pc != AwaitReady)
    && (SeenGone(pc, c) ==> child.pc == Gone)
  }

  ghost predicate SeenSet(pc: ParentPc, c: nat) {
    PastBarrier(pc) || (pc.Scanning? && pc.allSet && c < pc.k)
  }

  ghost predicate SeenGone(pc: ParentPc, c: nat) {
    pc.Reported? || (pc.Waiting? && c < pc.k)
  }

  lemma WindowStays(t: Trace, n: nat)
    requires HasWindow(t, n)
    ensures HasWindow(t + [Executed], n)
  {
    var a: nat, b: nat :| Window(t, a, b, n);
    var t' := t + [Executed];
    assert t'[..a] == t[..a] && t'[..b] == t[..b] && t'[a + 1..b] == t[a + 1..b];
    assert Window(t', a, b, n);
  }

  lemma MeasuresStays(t: Trace, n: nat)
    requires Measures(t, n)
    ensures Measures(t + [Executed], n + 1)
  {
    var a: nat :| MeasuresFrom(t, a, n);
    var t' := t + [Executed];
    assert t'[..a] == t[..a] && t'[a + 1..] == t[a + 1..] + [Executed];
    assert Front(t'[a + 1..]) == t[a + 1..];
    assert MeasuresFrom(t', a, n + 1);
  }

  lemma MeasuringOpens(t: Trace)
    requires NothingMeasured(t)
    ensures Measures(t + [Saw(STARTBENCH)], 0)
  {
    var t' := t + [Saw(STARTBENCH)];
    assert t'[..|t|] == t && t'[|t| + 1..] == [];
    assert MeasuresFrom(t', |t|, 0);
  }

  lemma WindowCloses(t: Trace, n: nat)
    requires Measures(t, n)
    ensures HasWindow(t + [Saw(STOPBENCH)], n)
  {
    var a: nat :| MeasuresFrom(t, a, n);
    var t' := t + [Saw(STOPBENCH)];
    assert t'[..a] == t[..a] && t'[..|t|] == t && t'[a + 1..|t|] == t[a + 1..];
    assert Window(t', a, |t|, n);
  }

  lemma ParentWorks(cfg: Config, p: Parent)
    requires ParentOk(cfg, p) && p.pc.Running? && cfg.Duration?
    ensures ParentOk(cfg, Works(p))
  {
    if HasMeasured(p.pc) {
      WindowStays(p.trace, p.xacts);
    } else if IsMeasuring(p.pc) {
      MeasuresStays(p.trace, p.i);
    }
  }

  lemma ParentTransacts(cfg: Config, p: Parent)
    requires ParentOk(cfg, p) && p.pc == Running(Transacting) && cfg.Transactions?
    ensures ParentOk(cfg, Transact(cfg, p))
  {
    assert Front(p.trace + [Executed]) == p.trace;
  }

  /** Moving the parent without telling child c anything new. */
  lemma ParentMoves(cfg: Config, pc: ParentPc, pc': ParentPc, c: nat, child: Child)
    requires ChildInv(cfg, pc, c, child)
    requires CommandFor(cfg, pc', c) == CommandFor(cfg, pc, c)
    requires SeenSet(pc', c) ==> SeenSet(pc, c) || child.pc != AwaitReady
    requires SeenGone(pc', c) ==> SeenGone(pc, c) || child.pc == Gone
    ensures ChildInv(cfg, pc', c, child)
  {
  }

  lemma RunningOk(cfg: Config, w: World)
    requires Inv(cfg, w) && w.parent.pc.Running?
    ensures Inv(cfg, ParentStep(cfg, w))
  {
    var pc' := ParentStep(cfg, w).parent.pc;
    if cfg.Duration? {
      ParentWorks(cfg, w.parent);
    } else {
      ParentTransacts(cfg, w.parent);
    }
    forall c | 0 <= c < |w.children| ensures ChildInv(cfg, pc', c, w.children[c]) {
      ParentMoves(cfg, w.parent.pc, pc', c, w.children[c]);
    }
  }

  lemma PhaseOverParentOk(cfg: Config, p: Parent)
    requires ParentOk(cfg, p) && (p.pc.Running? && p.pc.phase != Transacting ==> cfg.Duration?)
    ensures ParentOk(cfg, PhaseOver(cfg, p))
  {
    var p' := PhaseOver(cfg, p);
    if p.pc == Running(Measuring) {
      WindowCloses(p.trace, p.i);
    } else if p.pc == Running(RampingUp) {
      MeasuringOpens(p.trace);
    }
  }

  lemma PhaseOverOk(cfg: Config, w: World)
    requires Inv(cfg, w)
    ensures Inv(cfg, Next(cfg, w, TimeUp))
  {
    PhaseOverParentOk(cfg, w.parent);
    forall c | 0 <= c < |w.children| ensures ChildInv(cfg, PhaseOver(cfg, w.parent).pc, c, w.children[c]) {
      PhaseOverIsQuiet(cfg, |w.children|, w.parent, c, w.children[c]);
    }
  }

  lemma PhaseOverIsQuiet(cfg: Config, n: nat, p: Parent, c: nat, child: Child)
    requires PcOk(cfg, n, p.pc) && ChildInv(cfg, p.pc, c, child)
    ensures ChildInv(cfg, PhaseOver(cfg, p).pc, c, child)
  {
    ParentMoves(cfg, p.pc, PhaseOver(cfg, p).pc, c, child);
  }

  lemma TellOk(cfg: Config, w: World, word: nat, pc: ParentPc)
    requires Inv(cfg, w) && (w.parent.pc.Readying? || w.parent.pc.Starting? || w.parent.pc.Telling?)
    requires w.parent.pc.k < |w.children|
    requires pc == w.parent.pc.(k := w.parent.pc.k + 1)
    requires CommandFor(cfg, pc, w.parent.pc.k) == word
    ensures Inv(cfg, Tell(w, w.parent.pc.k, word, pc))
  {
    var k, w' := w.parent.pc.k, Tell(w, w.parent.pc.k, word, pc);
    forall c | 0 <= c < |w.children| ensures ChildInv(cfg, pc, c, w'.children[c]) {
      assert ChildInv(cfg, w.parent.pc, c, w.children[c]);
      if c == k {
        ReceiveOk(cfg, CommandFor(cfg, w.parent.pc, c), w.children[c], word);
      }
    }
  }

  /** The parent moves on without touching a child or itself executing anything. */
  ghost predicate Quiet(cfg: Config, w: World) {
    && !w.parent.pc.Running? && !(w.parent.pc.Starting? && cfg.Duration? && !cfg.up)
    && ParentStep(cfg, w) == w.(parent := w.parent.(pc := ParentStep(cfg, w).parent.pc))
  }

  lemma QuietForChild(cfg: Config, w: World, c: nat)
    requires Quiet(cfg, w) && PcOk(cfg, |w.children|, w.parent.pc) && c < |w.children|
    requires ChildInv(cfg, w.parent.pc, c, w.children[c])
    ensures ChildInv(cfg, ParentStep(cfg, w).parent.pc, c, w.children[c])
  {
    ParentMoves(cfg, w.parent.pc, ParentStep(cfg, w).parent.pc, c, w.children[c]);
  }

  lemma QuietForParent(cfg: Config, w: World)
    requires Quiet(cfg, w) && PcOk(cfg, |w.children|, w.parent.pc) && ParentOk(cfg, w.parent)
    ensures PcOk(cfg, |w.children|, ParentStep(cfg, w).parent.pc) && ParentOk(cfg, ParentStep(cfg, w).parent)
  {
  }

  lemma MoveOk(cfg: Config, w: World)
    requires Inv(cfg, w) && Quiet(cfg, w)
    ensures Inv(cfg, ParentStep(cfg, w))
  {
    QuietForParent(cfg, w);
    forall c | 0 <= c < |w.children| ensures ChildInv(cfg, ParentStep(cfg, w).parent.pc, c, w.children[c]) {
      QuietForChild(cfg, w, c);
    }
  }

  /** Without ramp-up the measured window opens as soon as the last child is started. */
  lemma StartedOk(cfg: Config, w: World)
    requires Inv(cfg, w) && w.parent.pc == Starting(|w.children|) && cfg.Duration? && !cfg.up
    ensures Inv(cfg, ParentStep(cfg, w))
  {
    var p, p' := w.parent, Open(w.parent, Running(Measuring));
    MeasuringOpens(p.trace);
    forall c | 0 <= c < |w.children| ensures ChildInv(cfg, p'.pc, c, w.children[c]) {
      ParentMoves(cfg, p.pc, p'.pc, c, w.children[c]);
    }
  }

  /** The next child is about to be told a command. */
  predicate IsTelling(pc: ParentPc, n: nat) {
    (pc.Readying? || pc.Starting? || pc.Telling?) && pc.k < n
  }

  lemma TellStepOk(cfg: Config, w: World)
    requires Inv(cfg, w) && IsTelling(w.parent.pc, |w.children|)
    ensures Inv(cfg, ParentStep(cfg, w))
  {
    match w.parent.pc
    case Readying(k) => TellOk(cfg, w, READY, Readying(k + 1));
    case Starting(k) => TellOk(cfg, w, StartWord(cfg), Starting(k + 1));
    case Telling(word, k) => TellOk(cfg, w, word, Telling(word, k + 1));
  }

  lemma ParentStepOk(cfg: Config, w: World)
    requires Inv(cfg, w)
    ensures Inv(cfg, ParentStep(cfg, w))
  {
    var pc, n := w.parent.pc, |w.children|;
    if pc.Running? {
      RunningOk(cfg, w);
    } else if IsTelling(pc, n) {
      TellStepOk(cfg, w);
    } else if pc.Starting? && cfg.Duration? && !cfg.up {
      StartedOk(cfg, w);
    } else {
      MoveOk(cfg, w);
    }
  }

  lemma ChildActsOk(cfg: Config, w: World, k: nat)
    requires Inv(cfg, w) && k < |w.children|
    ensures Inv(cfg, Next(cfg, w, OfChild(k)))
  {
    var w' := Next(cfg, w, OfChild(k));
    assert ChildInv(cfg, w.parent.pc, k, w.children[k]);
    ChildStepOk(cfg, CommandFor(cfg, w.parent.pc, k), w.children[k]);
    forall c | 0 <= c < |w.children| ensures ChildInv(cfg, w.parent.pc, c, w'.children[c]) {
      assert ChildInv(cfg, w.parent.pc, c, w.children[c]);
    }
    if w.parent.pc.Reported? {
      assert w.children[k].pc == Gone;
      assert w'.children == w.children;
    }
  }

  lemma {:induction false} RunOk(cfg: Config, n: nat, actions: seq<Action>)
    ensures Inv(cfg, Run(cfg, n, actions))
  {
    if actions != [] {
      var w, a := Run(cfg, n, actions[..|actions| - 1]), actions[|actions| - 1];
      RunOk(cfg, n, actions[..|actions| - 1]);
      match a {
        case OfChild(c) => if c < n { ChildActsOk(cfg, w, c); }
        case OfParent => ParentStepOk(cfg, w);
        case TimeUp => PhaseOverOk(cfg, w);
      }
    }
  }

  // ------------------------------------------------------------------------
  // What every run guarantees
  // ------------------------------------------------------------------------

  /** Start barrier: as soon as any process has executed an operation, or any child has been
      sent more than READY, every child has reported that it is set. */
  lemma StartBarrier(cfg: Config, n: nat, actions: seq<Action>, c: nat, d: nat)
    requires c < n && d < n
    requires var w := Run(cfg, n, actions);
             Executed in w.parent.trace || Started(w.children[c].trace)
    ensures ReportedSet(Run(cfg, n, actions).children[d].trace)
  {
    RunOk(cfg, n, actions);
    var w := Run(cfg, n, actions);
    assert ChildInv(cfg, w.parent.pc, c, w.children[c]) && ChildInv(cfg, w.parent.pc, d, w.children[d]);
  }

  /** A child that looks at its word between any two commands misses none of them. */
  lemma NoCommandLost(cfg: Config, n: nat, actions: seq<Action>, c: nat, word: nat)
    requires c < n
    requires var t := Run(cfg, n, actions).children[c].trace;
             Attentive(t) && IsCommand(cfg.RampUp(), word) && word < Command(t)
    ensures Saw(word) in Run(cfg, n, actions).children[c].trace
  {
    RunOk(cfg, n, actions);
    var w := Run(cfg, n, actions);
    assert ChildInv(cfg, w.parent.pc, c, w.children[c]);
    AttentiveSeesAll(cfg.RampUp(), w.children[c].trace);
  }

  /** Measured window, in every run and at every moment: the number a child publishes is the
      number of operations it executed between its first sights of STARTBENCH and STOPBENCH
      exactly if it looked at its word under both commands. */
  lemma PublishesWindow(cfg: Config, n: nat, actions: seq<Action>, c: nat)
    requires cfg.Duration? && c < n
    ensures var child := Run(cfg, n, actions).children[c];
            (HasWindow(child.trace, child.shared.xacts)
             <==> Answered(child.trace, STARTBENCH) && Answered(child.trace, STOPBENCH))
    ensures var child := Run(cfg, n, actions).children[c];
            !Answered(child.trace, STOPBENCH) ==> child.shared.xacts == 0
  {
    RunOk(cfg, n, actions);
    var w := Run(cfg, n, actions);
    assert ChildInv(cfg, w.parent.pc, c, w.children[c]);
    PublishesWindowIff(cfg.RampUp(), w.children[c].trace);
  }

  /** An attentive child that has ended has published its window. */
  lemma AttentivePublishesWindow(cfg: Config, n: nat, actions: seq<Action>, c: nat)
    requires cfg.Duration? && c < n
    requires var child := Run(cfg, n, actions).children[c]; child.pc == Gone && Attentive(child.trace)
    ensures var child := Run(cfg, n, actions).children[c]; HasWindow(child.trace, child.shared.xacts)
  {
    RunOk(cfg, n, actions);
    var w := Run(cfg, n, actions);
    var t := w.children[c].trace;
    assert ChildInv(cfg, w.parent.pc, c, w.children[c]);
    AttentiveSeesAll(cfg.RampUp(), t);
    AnsweredIsSeen(cfg.RampUp(), t, STARTBENCH);
    AnsweredIsSeen(cfg.RampUp(), t, STOPBENCH);
    PublishesWindow(cfg, n, actions, c);
  }

  function Sum(ns: seq<nat>): nat {
    if ns == [] then 0 else Sum(ns[..|ns| - 1]) + ns[|ns| - 1]
  }

  lemma {:induction false} TotalIsSum(own: nat, children: seq<Child>)
    ensures Total(own, children)
         == own + Sum(seq(|children|, c requires 0 <= c < |children| => children[c].shared.xacts))
  {
    if children != [] {
      var front := children[..|children| - 1];
      TotalIsSum(own, front);
      var ns := seq(|children|, c requires 0 <= c < |children| => children[c].shared.xacts);
      assert ns[..|ns| - 1] == seq(|front|, c requires 0 <= c < |front| => front[c].shared.xacts);
    }
  }

  /** If all children are attentive, the reported total is the parent's own window count
      plus the window counts of all children. */
  lemma ReportedTotal(cfg: Config, n: nat, actions: seq<Action>) returns (own: nat, counts: seq<nat>)
    requires cfg.Duration?
    requires var w := Run(cfg, n, actions);
             w.parent.pc.Reported? && forall c :: 0 <= c < n ==> Attentive(w.children[c].trace)
    ensures var w := Run(cfg, n, actions);
            && HasWindow(w.parent.trace, own)
            && |counts| == n
            && (forall c :: 0 <= c < n ==> HasWindow(w.children[c].trace, counts[c]))
            && w.parent.pc.total == own + Sum(counts)
  {
    RunOk(cfg, n, actions);
    var w := Run(cfg, n, actions);
    own := w.parent.xacts;
    counts := seq(n, c requires 0 <= c < n => w.children[c].shared.xacts);
    TotalIsSum(own, w.children);
    forall c | 0 <= c < n ensures HasWindow(w.children[c].trace, counts[c]) {
      assert ChildInv(cfg, w.parent.pc, c, w.children[c]);
      AttentivePublishesWindow(cfg, n, actions, c);
    }
  }

  // ------------------------------------------------------------------------
  // Transaction mode
  // ------------------------------------------------------------------------

  /** In transaction mode no command is ever lost: a child has seen every command before the latest one, and the
      latest one as well once it has executed an operation. */
  lemma TransactionSeesAll(numXacts: nat, n: nat, actions: seq<Action>, c: nat, word: nat)
    requires c < n && IsCommand(false, word)
    requires var t := Run(Transactions(numXacts), n, actions).children[c].trace;
             word < Command(t) || (word == Command(t) && Executed in t)
    ensures Saw(word) in Run(Transactions(numXacts), n, actions).children[c].trace
  {
    var cfg := Transactions(numXacts);
    RunOk(cfg, n, actions);
    var w := Run(cfg, n, actions);
    assert ChildInv(cfg, w.parent.pc, c, w.children[c]);
    AttentiveSeesAll(false, w.children[c].trace);
  }

  lemma {:induction false} TotalOfEqual(own: nat, children: seq<Child>, xacts: nat)
    requires forall c :: 0 <= c < |children| ==> children[c].shared.xacts == xacts
    ensures Total(own, children) == own + |children| * xacts
  {
    if children != [] {
      TotalOfEqual(own, children[..|children| - 1], xacts);
      assert |children| * xacts == (|children| - 1) * xacts + xacts;
    }
  }

  /** When the parent reports, every process has executed exactly the operations asked for, under every interleaving.
      But each has published one less, because it stores its counter before the operation, so the
      reported total is one per process too small. */
  lemma TransactionTotal(numXacts: nat, n: nat, actions: seq<Action>)
    requires Run(Transactions(numXacts), n, actions).parent.pc.Reported?
    ensures var w := Run(Transactions(numXacts), n, actions);
            && Ops(w.parent.trace) == numXacts
            && (forall c :: 0 <= c < n ==> Ops(w.children[c].trace) == numXacts)
            && w.parent.pc.total == (n + 1) * if numXacts > 0 then numXacts - 1 else 0
  {
    var cfg := Transactions(numXacts);
    RunOk(cfg, n, actions);
    var w := Run(cfg, n, actions);
    var xacts := if numXacts > 0 then numXacts - 1 else 0;
    forall c | 0 <= c < n ensures Ops(w.children[c].trace) == numXacts && w.children[c].shared.xacts == xacts {
      assert ChildInv(cfg, w.parent.pc, c, w.children[c]);
    }
    TotalOfEqual(xacts, w.children, xacts);
    assert (n + 1) * xacts == xacts + n * xacts;
  }

  /** The test at the top of the loop as the program performs it, on the shared array. */
  method StoreCounter(shm: array<ProcInfo>, procId: nat, i: nat, numXacts: nat) returns (stop: bool)
    requires procId < shm.Length
    modifies shm
    ensures var (info, s) := CountTest(old(shm[procId]), i, numXacts);
            shm[..] == old(shm[..])[procId := info] && stop == s
  {
    stop := i >= numXacts;
    if !stop {
      shm[procId] := shm[procId].(xacts := i);
    }
  }

  /** The loop of one process. */
  method TransactionMode(shm: array<ProcInfo>, procId: nat, numXacts: nat) returns (executed: nat)
    requires procId < shm.Length
    modifies shm
    ensures executed == numXacts
    ensures numXacts == 0 ==> shm[..] == old(shm[..])
    ensures numXacts > 0 ==>
              shm[..] == old(shm[..])[procId := ProcInfo(old(shm[procId].state), executed - 1)]
  {
    executed := 0;
    var stop := StoreCounter(shm, procId, executed, numXacts);
    while !stop
      invariant executed <= numXacts && (stop <==> executed == numXacts)
      invariant numXacts == 0 ==> shm[..] == old(shm[..])
      invariant numXacts > 0 ==>
                  shm[..] == old(shm[..])[procId := ProcInfo(old(shm[procId].state),
                                                             if stop then executed - 1 else executed)]
      decreases numXacts - executed
    {
      executed := executed + 1;
      stop := StoreCounter(shm, procId, executed, numXacts);
    }
  }
}
