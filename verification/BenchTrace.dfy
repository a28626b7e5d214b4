/** What a child process of the throughput benchmark lives through: the commands its
    parent writes into the child's shared state word, the child's own readings of that
    word, and the operations it executes (ExecuteTptBm of tptbm.c, duration mode). */
module BenchTrace {

  // The values of a state word; the parent's commands are the odd ones.
  const INITIALIZED: nat := 0
  const READY: nat := 1
  const SET: nat := 2
  const GO: nat := 3
  const RUNNING: nat := 4
  const STARTBENCH: nat := 5
  const MEASURING: nat := 6
  const STOPBENCH: nat := 7
  const STOPPING: nat := 8
  const STOP: nat := 9
  const END: nat := 10

  datatype Event = Sent(word: nat) | Saw(word: nat) | Executed

  type Trace = seq<Event>

  function Front(t: Trace): Trace
    requires t != []
  {
    t[..|t| - 1]
  }

  function Last(t: Trace): Event
    requires t != []
  {
    t[|t| - 1]
  }

  /** The latest command, INITIALIZED if there was none. */
  function Command(t: Trace): nat {
    if t == [] then INITIALIZED
    else if Last(t).Sent? then Last(t).word
    else Command(Front(t))
  }

  /** A command was sent and the child has not looked at its word since. */
  predicate Unanswered(t: Trace) {
    t != [] && !Last(t).Saw? && (Last(t).Sent? || Unanswered(Front(t)))
  }

  /** The child looked at its word between any two commands. */
  predicate Attentive(t: Trace) {
    t == [] || (Attentive(Front(t)) && (Last(t).Sent? ==> !Unanswered(Front(t))))
  }

  /** The command that precedes `word` in every run. */
  function Before(rampUp: bool, word: nat): nat {
    if word == READY then INITIALIZED
    else if word == GO then READY
    else if word == STARTBENCH then if rampUp then GO else READY
    else if word == STOPBENCH then STARTBENCH
    else STOPBENCH
  }

  predicate IsCommand(rampUp: bool, word: nat) {
    word == READY || (word == GO && rampUp) || word == STARTBENCH || word == STOPBENCH || word == STOP
  }

  /** Commands come in their fixed order, the first reading after a command
      finds it, and a command found in the word is the latest one. */
  predicate Lawful(rampUp: bool, t: Trace) {
    t == [] ||
    (Lawful(rampUp, Front(t)) &&
     match Last(t)
     case Sent(w) => IsCommand(rampUp, w) && Command(Front(t)) == Before(rampUp, w)
     case Saw(w) =>
       && (Unanswered(Front(t)) ==> w == Command(Front(t)))
       && (w % 2 == 1 ==> w == Command(Front(t)))
     case Executed => true)
  }

  /** Number of operations executed. */
  function Ops(t: Trace): nat {
    if t == [] then 0 else Ops(Front(t)) + if Last(t).Executed? then 1 else 0
  }

  /** The measured window: from the first sight of STARTBENCH to the first sight of
      STOPBENCH; n operations were executed in between. */
  ghost predicate Window(t: Trace, a: nat, b: nat, n: nat) {
    && a < b < |t|
    && t[a] == Saw(STARTBENCH) && Saw(STARTBENCH) !in t[..a]
    && t[b] == Saw(STOPBENCH) && Saw(STOPBENCH) !in t[..b]
    && n == Ops(t[a + 1..b])
  }

  ghost predicate HasWindow(t: Trace, n: nat) {
    exists a: nat, b: nat :: Window(t, a, b, n)
  }

  lemma NoneBefore(t: Trace, k: nat, i: nat)
    requires k <= |t| && i < |t| && t[i] !in t[..k]
    ensures k <= i
  {
    assert forall j :: 0 <= j < k ==> t[..k][j] == t[j];
  }

  /** There is one window at most. */
  lemma WindowUnique(t: Trace, n: nat, m: nat)
    requires HasWindow(t, n) && HasWindow(t, m)
    ensures n == m
  {
    var a: nat, b: nat :| Window(t, a, b, n);
    var c: nat, d: nat :| Window(t, c, d, m);
    NoneBefore(t, a, c);
    NoneBefore(t, c, a);
    NoneBefore(t, b, d);
    NoneBefore(t, d, b);
  }

  /** No operation is executed between two sights of the same command. */
  ghost predicate Settled(t: Trace) {
    forall i, j :: 0 <= i < j < |t| && IsCommandSight(t[i]) && t[i] == t[j] ==> Executed !in t[i..j]
  }

  predicate IsCommandSight(e: Event) {
    e.Saw? && e.word % 2 == 1
  }

  /** Another event keeps that, unless it is a second sight behind an operation. */
  lemma SettledSnoc(t: Trace, e: Event)
    requires Settled(t)
    requires IsCommandSight(e) && e in t ==> Executed !in t
    ensures Settled(t + [e])
  {
    var t' := t + [e];
    forall i, j | 0 <= i < j < |t'| && IsCommandSight(t'[i]) && t'[i] == t'[j] ensures Executed !in t'[i..j] {
      assert t'[i..j] == t[i..j];
      assert t'[i] == t[i];
    }
  }

  /** The child looked at its word while `word` was the latest command. */
  ghost predicate Answered(t: Trace, word: nat) {
    exists k :: 0 <= k < |t| && t[k].Saw? && Command(t[..k]) == word
  }

  // ------------------------------------------------------------------------
  // Operational counters: what the loop variable i and the field xacts hold
  // ------------------------------------------------------------------------

  /** Operations since the last sight of STARTBENCH. */
  function Since(t: Trace): nat {
    if t == [] then 0
    else if Last(t) == Saw(STARTBENCH) then 0
    else Since(Front(t)) + if Last(t).Executed? then 1 else 0
  }

  /** The value of Since at the last sight of STOPBENCH. */
  function Published(t: Trace): nat {
    if t == [] then 0
    else if Last(t) == Saw(STOPBENCH) then Since(Front(t))
    else Published(Front(t))
  }

  lemma {:induction false} SinceIsOps(t: Trace, a: nat)
    requires a < |t| && t[a] == Saw(STARTBENCH) && Saw(STARTBENCH) !in t[a + 1..]
    ensures Since(t) == Ops(t[a + 1..])
  {
    if a + 1 < |t| {
      assert Front(t)[a + 1..] == Front(t[a + 1..]);
      assert Last(t) == t[a + 1..][|t| - a - 2];
      SinceIsOps(Front(t), a);
    }
  }

  /** Whatever happens behind the last sight of STOPBENCH does not change the published number. */
  lemma {:induction false} PublishedIsSince(t: Trace, b: nat)
    requires b < |t| && t[b] == Saw(STOPBENCH) && Saw(STOPBENCH) !in t[b + 1..]
    ensures Published(t) == Since(t[..b])
  {
    if b + 1 < |t| {
      assert Last(t) == t[b + 1..][|t| - b - 2];
      assert Front(t)[b + 1..] == Front(t[b + 1..]);
      PublishedIsSince(Front(t), b);
      assert Front(t)[..b] == t[..b];
    } else {
      assert Front(t) == t[..b];
    }
  }

  lemma {:induction false} OpsConcat(s: Trace, t: Trace)
    ensures Ops(s + t) == Ops(s) + Ops(t)
    decreases |t|
  {
    if t == [] {
      assert s + t == s;
    } else {
      assert Front(s + t) == s + Front(t);
      OpsConcat(s, Front(t));
    }
  }

  lemma {:induction false} NoOps(t: Trace)
    requires Executed !in t
    ensures Ops(t) == 0
  {
    if t != [] {
      NoOps(Front(t));
    }
  }

  lemma OpsSplit(t: Trace, a: nat, b: nat, c: nat)
    requires a <= b <= c <= |t|
    ensures Ops(t[a..c]) == Ops(t[a..b]) + Ops(t[b..c])
  {
    OpsConcat(t[a..b], t[b..c]);
    assert t[a..c] == t[a..b] + t[b..c];
  }

  /** From the first sight of one command to the first sight of another one as many operations are
      executed as from the last to the last. */
  lemma SightsDoNotMatter(t: Trace, a: nat, a': nat, b: nat, b': nat)
    requires Settled(t) && a <= a' < b <= b' < |t|
    requires t[a] == t[a'] == Saw(STARTBENCH) && t[b] == t[b'] == Saw(STOPBENCH)
    ensures Ops(t[a + 1..b]) == Ops(t[a' + 1..b'])
  {
    if a < a' {
      assert Executed !in t[a..a'];
    }
    if b < b' {
      assert Executed !in t[b..b'];
    }
    NoOps(t[a..a']);
    NoOps(t[b..b']);
    OpsSplit(t, a, a', b);
    OpsSplit(t, a', b, b');
    OpsSplit(t, a, a + 1, b);
    OpsSplit(t, a', a' + 1, b');
    NoOps(t[a..a + 1]);
    NoOps(t[a'..a' + 1]);
  }

  lemma {:induction false} NothingPublished(t: Trace)
    requires Saw(STOPBENCH) !in t
    ensures Published(t) == 0
  {
    if t != [] {
      NothingPublished(Front(t));
    }
  }

  // ------------------------------------------------------------------------
  // Lawful traces
  // ------------------------------------------------------------------------

  lemma {:induction false} CommandsGrow(rampUp: bool, t: Trace, k: nat)
    requires Lawful(rampUp, t) && k <= |t|
    ensures Lawful(rampUp, t[..k]) && Command(t[..k]) <= Command(t)
    ensures Command(t) == INITIALIZED || IsCommand(rampUp, Command(t))
  {
    if k == |t| {
      assert t[..k] == t;
    }
    if t != [] {
      CommandsGrow(rampUp, Front(t), if k < |t| then k else |t| - 1);
      if k < |t| {
        assert Front(t)[..k] == t[..k];
      }
    }
  }

  lemma SawCommand(rampUp: bool, t: Trace, k: nat)
    requires Lawful(rampUp, t) && k < |t| && t[k].Saw?
    ensures Unanswered(t[..k]) ==> t[k].word == Command(t[..k])
    ensures t[k].word % 2 == 1 ==> t[k].word == Command(t[..k])
  {
    CommandsGrow(rampUp, t, k + 1);
    assert Front(t[..k + 1]) == t[..k] && Last(t[..k + 1]) == t[k];
  }

  /** A command is seen exactly if the child looked while it was the latest one. */
  lemma {:induction false} AnsweredIsSeen(rampUp: bool, t: Trace, word: nat)
    requires Lawful(rampUp, t) && word % 2 == 1
    ensures Answered(t, word) <==> Saw(word) in t
  {
    if Saw(word) in t {
      var k :| 0 <= k < |t| && t[k] == Saw(word);
      SawCommand(rampUp, t, k);
    }
    if Answered(t, word) {
      var k :| 0 <= k < |t| && t[k].Saw? && Command(t[..k]) == word;
      FirstAnswer(rampUp, t, k);
    }
  }

  /** The first reading under a command finds it. */
  lemma {:induction false} FirstAnswer(rampUp: bool, t: Trace, k: nat)
    requires Lawful(rampUp, t) && k < |t| && t[k].Saw?
    requires Command(t[..k]) != INITIALIZED
    ensures Saw(Command(t[..k])) in t
    decreases k
  {
    SawCommand(rampUp, t, k);
    if !Unanswered(t[..k]) {
      var j := LastReading(t[..k]);
      assert t[..k][..j] == t[..j];
      FirstAnswer(rampUp, t, j);
    }
  }

  lemma {:induction false} LastReading(t: Trace) returns (j: nat)
    requires !Unanswered(t) && Command(t) != INITIALIZED
    ensures j < |t| && t[j].Saw? && Command(t[..j]) == Command(t)
  {
    j := |t| - 1;
    if Last(t).Executed? {
      j := LastReading(Front(t));
      assert Front(t)[..j] == t[..j];
    } else {
      assert Front(t) == t[..j];
    }
  }

  /** An attentive child sees every command before the latest one. */
  lemma {:induction false} AttentiveSeesAll(rampUp: bool, t: Trace)
    requires Lawful(rampUp, t) && Attentive(t)
    ensures forall w: nat :: IsCommand(rampUp, w) && w < Command(t) ==> Saw(w) in t
    ensures !Unanswered(t) && Command(t) != INITIALIZED ==> Saw(Command(t)) in t
  {
    if t != [] {
      AttentiveSeesAll(rampUp, Front(t));
      if Last(t).Saw? && Command(t) != INITIALIZED {
        assert Command(t[..|t| - 1]) == Command(t);
        FirstAnswer(rampUp, t, |t| - 1);
      }
      if Last(t).Sent? {
        CommandsGrow(rampUp, Front(t), 0);
      }
    }
  }

  lemma {:induction false} LastIndex(t: Trace, e: Event) returns (k: nat)
    requires e in t
    ensures k < |t| && t[k] == e && e !in t[k + 1..]
  {
    if Last(t) == e {
      k := |t| - 1;
    } else {
      assert e in Front(t);
      k := LastIndex(Front(t), e);
      assert t[k + 1..] == Front(t)[k + 1..] + [Last(t)];
    }
  }

  lemma {:induction false} FirstIndex(t: Trace, e: Event) returns (k: nat)
    requires e in t
    ensures k < |t| && t[k] == e && e !in t[..k]
  {
    if e in Front(t) {
      k := FirstIndex(Front(t), e);
      assert t[..k] == Front(t)[..k];
    } else {
      k := |t| - 1;
      assert t[..k] == Front(t);
    }
  }

  lemma StartSeenFirst(rampUp: bool, t: Trace, a: nat, b: nat)
    requires Lawful(rampUp, t) && a < |t| && b < |t|
    requires t[a] == Saw(STARTBENCH) && t[b] == Saw(STOPBENCH)
    ensures a < b
  {
    SawCommand(rampUp, t, a);
    SawCommand(rampUp, t, b);
    if b < a {
      CommandsGrow(rampUp, t, a);
      assert t[..a][..b] == t[..b];
      CommandsGrow(rampUp, t[..a], b);
    }
  }

  /** What is published behind both sights, by the last ones. */
  lemma PublishedOps(t: Trace, a: nat, b: nat)
    requires a < b < |t| && t[a] == Saw(STARTBENCH) && Saw(STARTBENCH) !in t[a + 1..]
    requires t[b] == Saw(STOPBENCH) && Saw(STOPBENCH) !in t[b + 1..]
    ensures Published(t) == Ops(t[a + 1..b])
  {
    PublishedIsSince(t, b);
    assert t[a + 1..b] == t[..b][a + 1..] == t[a + 1..][..b - a - 1];
    SinceIsOps(t[..b], a);
  }

  lemma WindowIsPublished(rampUp: bool, t: Trace)
    requires Lawful(rampUp, t) && Settled(t) && Saw(STARTBENCH) in t && Saw(STOPBENCH) in t
    ensures HasWindow(t, Published(t))
  {
    var a := FirstIndex(t, Saw(STARTBENCH));
    var a' := LastIndex(t, Saw(STARTBENCH));
    var b := FirstIndex(t, Saw(STOPBENCH));
    var b' := LastIndex(t, Saw(STOPBENCH));
    StartSeenFirst(rampUp, t, a', b);
    NoneBefore(t, a, a');
    NoneBefore(t, b, b');
    PublishedOps(t, a', b');
    SightsDoNotMatter(t, a, a', b, b');
    assert Window(t, a, b, Published(t));
  }

  /** The published number is the child's window count exactly if the child looked at its
      word while STARTBENCH and while STOPBENCH were the latest commands. */
  lemma PublishesWindowIff(rampUp: bool, t: Trace)
    requires Lawful(rampUp, t) && Settled(t)
    ensures HasWindow(t, Published(t)) <==> Answered(t, STARTBENCH) && Answered(t, STOPBENCH)
    ensures !Answered(t, STOPBENCH) ==> Published(t) == 0
  {
    AnsweredIsSeen(rampUp, t, STARTBENCH);
    AnsweredIsSeen(rampUp, t, STOPBENCH);
    if Saw(STOPBENCH) !in t {
      NothingPublished(t);
    } else if Saw(STARTBENCH) in t {
      WindowIsPublished(rampUp, t);
    }
  }
}
