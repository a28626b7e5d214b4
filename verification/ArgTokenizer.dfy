/** Splitting one string into an argument vector (getArgsFromStr of ttgetopt.c).

    The program carves the words out of a single buffer: a write pointer compacts
    each word over text that has already been read.  The specification is an automaton that
    consumes one character at a time and owns no buffer at all. */
module ArgTokenizer {
  import opened CStrings
  import opened Wrappers

  datatype Mode = Outside | Quoted(quote: char, escaped: bool)

  /** Finished words, the word being built (None between words), and the mode. */
  datatype Scan = Scan(words: seq<string>, word: Option<string>, mode: Mode)

  datatype Result = Words(words: seq<string>) | UnmatchedQuote(quote: char)

  /** argv[0] is the command name. */
  function Start(name: string): Scan {
    Scan([name], None, Outside)
  }

  function InQuote(st: Scan, w: string, c: char): Scan
    requires st.mode.Quoted?
  {
    var m := st.mode;
    if c == m.quote && !m.escaped then st.(word := Some(w), mode := Outside)
    else if c == '\\' then
      st.(word := Some(if m.escaped then w + ['\\'] else w), mode := Quoted(m.quote, !m.escaped))
    else st.(word := Some(w + [c]), mode := Quoted(m.quote, false))
  }

  /** Outside quotes a backslash is dropped and escapes nothing: the program
      resets its escape flag at every character of the outer loop. */
  function InWord(st: Scan, w: string, c: char): Scan {
    if IsQuote(c) then st.(word := Some(w), mode := Quoted(c, false))
    else if IsSpace(c) then Scan(st.words + [w], None, Outside)
    else if c == '\\' then st.(word := Some(w))
    else st.(word := Some(w + [c]))
  }

  function Step(st: Scan, c: char): Scan {
    match st.mode
    case Quoted(_, _) => InQuote(st, if st.word.Some? then st.word.value else "", c)
    case Outside =>
      if st.word.Some? then InWord(st, st.word.value, c)
      else if IsSpace(c) then st
      else InWord(st, "", c)
  }

  function Run(st: Scan, s: string): Scan {
    Consume(Step, st, s)
  }

  /** The whole argument vector, the command name first. */
  function Tokenize(name: string, s: string): Result {
    Finish(Run(Start(name), s))
  }

  function Finish(st: Scan): Result {
    if st.mode.Quoted? then UnmatchedQuote(st.mode.quote)
    else if st.word.Some? then Words(st.words + [st.word.value])
    else Words(st.words)
  }

  lemma RunCons(st: Scan, s: string)
    requires s != ""
    ensures Run(st, s) == Run(Step(st, s[0]), s[1..])
  {
    ConsumeConcat(Step, st, s[..1], s[1..]);
    assert s == s[..1] + s[1..];
    assert Run(st, s[..1]) == Step(Run(st, s[..1][..0]), s[0]);
  }

  // ------------------------------------------------------------------------
  // Failure: exactly the texts with an unmatched quote
  // ------------------------------------------------------------------------

  /** The text behind the first `quote` that no backslash escapes. */
  function AfterClosing(s: string, quote: char): (r: Option<string>)
    ensures r.Some? ==> |r.value| < |s|
    decreases |s|
  {
    if s == "" then None
    else if s[0] == quote then Some(s[1..])
    else if s[0] == '\\' then if |s| == 1 then None else AfterClosing(s[2..], quote)
    else AfterClosing(s[1..], quote)
  }

  predicate QuotesMatch(s: string)
    decreases |s|
  {
    s == "" ||
    if IsQuote(s[0]) then
      var rest := AfterClosing(s[1..], s[0]);
      rest.Some? && QuotesMatch(rest.value)
    else QuotesMatch(s[1..])
  }

  lemma {:induction false} RunQuoted(st: Scan, s: string) returns (st': Scan)
    requires st.mode.Quoted? && !st.mode.escaped && IsQuote(st.mode.quote)
    ensures var rest := AfterClosing(s, st.mode.quote);
            if rest.Some? then st'.mode == Outside && Run(st, s) == Run(st', rest.value)
            else Run(st, s).mode.Quoted?
    decreases |s|
  {
    st' := st;
    if s != "" {
      RunCons(st, s);
      st' := Step(st, s[0]);
      if s[0] == st.mode.quote {
      } else if s[0] == '\\' {
        if |s| > 1 {
          RunCons(st', s[1..]);
          assert s[1..][1..] == s[2..];
          st' := RunQuoted(Step(st', s[1]), s[2..]);
        }
      } else {
        st' := RunQuoted(st', s[1..]);
      }
    }
  }

  lemma {:induction false} EndsQuotedIffUnmatched(st: Scan, s: string)
    requires st.mode == Outside
    ensures Run(st, s).mode.Quoted? <==> !QuotesMatch(s)
    decreases |s|
  {
    if s != "" {
      RunCons(st, s);
      if IsQuote(s[0]) {
        var st' := RunQuoted(Step(st, s[0]), s[1..]);
        var rest := AfterClosing(s[1..], s[0]);
        if rest.Some? {
          EndsQuotedIffUnmatched(st', rest.value);
        }
      } else {
        EndsQuotedIffUnmatched(Step(st, s[0]), s[1..]);
      }
    }
  }

  lemma FailsIffUnmatchedQuote(name: string, s: string)
    ensures Tokenize(name, s).UnmatchedQuote? <==> !QuotesMatch(s)
  {
    EndsQuotedIffUnmatched(Start(name), s);
  }

  // ------------------------------------------------------------------------
  // Backslashes outside quotes
  // ------------------------------------------------------------------------

  /** The automaton with an escape flag that outlives the character that set it. A quoted part,
      which has a flag of its own, clears it. */
  datatype Keeping = Keeping(st: Scan, escaped: bool)

  function KeepingStep(k: Keeping, c: char): Keeping {
    if k.st.mode.Outside? && c == '\\' && k.escaped then
      Keeping(k.st.(word := Some((if k.st.word.Some? then k.st.word.value else "") + [c])), false)
    else
      Keeping(Step(k.st, c), k.st.mode.Outside? && c == '\\')
  }

  function RunKeeping(name: string, s: string): Keeping {
    Consume(KeepingStep, Keeping(Start(name), false), s)
  }

  /** What the program would do if its flag were not reset at every character. */
  function TokenizeKeeping(name: string, s: string): Result {
    Finish(RunKeeping(name, s).st)
  }

  ghost predicate PairAt(s: string, i: nat) {
    i + 1 < |s| && s[i] == s[i + 1] == '\\' && QuotesMatch(s[..i])
  }

  /** Two adjacent backslashes stand outside quotes. */
  ghost predicate HasPair(s: string) {
    exists i: nat :: PairAt(s, i)
  }

  function Length(words: seq<string>): nat {
    if words == [] then 0 else Length(words[..|words| - 1]) + |words[|words| - 1]|
  }

  function TotalLength(st: Scan): nat {
    Length(st.words) + if st.word.Some? then |st.word.value| else 0
  }

  lemma LengthSnoc(words: seq<string>, w: string)
    ensures Length(words + [w]) == Length(words) + |w|
  {
    assert (words + [w])[..|words|] == words;
  }

  /** The last character is a backslash outside quotes. */
  ghost predicate EndsInBackslash(s: string) {
    s != "" && s[|s| - 1] == '\\' && QuotesMatch(s[..|s| - 1])
  }

  lemma PairSnoc(s: string, c: char)
    ensures HasPair(s + [c]) <==> HasPair(s) || (c == '\\' && EndsInBackslash(s))
  {
    var t := s + [c];
    forall i: nat | i + 1 < |s| ensures PairAt(t, i) <==> PairAt(s, i) {
      assert t[..i] == s[..i];
    }
    if HasPair(s) {
      var i: nat :| PairAt(s, i);
      assert PairAt(t, i);
    }
    if s != "" {
      assert t[..|s| - 1] == s[..|s| - 1];
      assert PairAt(t, |s| - 1) <==> c == '\\' && EndsInBackslash(s);
    }
  }

  lemma OutsideIffMatch(name: string, s: string)
    ensures Run(Start(name), s).mode.Outside? <==> QuotesMatch(s)
    ensures EndsInBackslash(s) ==> QuotesMatch(s)
  {
    EndsQuotedIffUnmatched(Start(name), s);
    if EndsInBackslash(s) {
      EndsQuotedIffUnmatched(Start(name), s[..|s| - 1]);
    }
  }

  /** Both automata agree on quotes and on the number of words. */
  ghost predicate InLine(k: Scan, st: Scan) {
    k.mode == st.mode && (k.word.Some? <==> st.word.Some?) && |k.words| == |st.words|
  }

  /** One step keeps both automata in line; only a second backslash adds a character. */
  lemma KeepingStepAdds(k: Keeping, st: Scan, c: char)
    requires InLine(k.st, st)
    ensures var k', st' := KeepingStep(k, c), Step(st, c);
            && InLine(k'.st, st')
            && TotalLength(k'.st) - TotalLength(st') == TotalLength(k.st) - TotalLength(st) +
                 if k.escaped && st.mode.Outside? && c == '\\' then 1 else 0
  {
    if k.st.word.Some? {
      LengthSnoc(k.st.words, k.st.word.value);
      LengthSnoc(st.words, st.word.value);
    }
  }

  /** The flag that is kept: set only behind a backslash, and always behind a first one. */
  lemma {:induction false} KeepingFlag(name: string, s: string)
    ensures RunKeeping(name, s).st.mode == Run(Start(name), s).mode
    ensures RunKeeping(name, s).escaped ==> EndsInBackslash(s)
    ensures EndsInBackslash(s) && !HasPair(s) ==> RunKeeping(name, s).escaped
  {
    if s != "" {
      var front, c := s[..|s| - 1], s[|s| - 1];
      KeepingFlag(name, front);
      OutsideIffMatch(name, front);
      assert s == front + [c];
      PairSnoc(front, c);
    }
  }

  /** A pair of backslashes outside quotes makes the words of the automaton that keeps its flag longer; without one
      there is no difference. */
  lemma {:induction false} KeepingRuns(name: string, s: string)
    ensures var k, st := RunKeeping(name, s), Run(Start(name), s);
            && InLine(k.st, st)
            && TotalLength(k.st) >= TotalLength(st)
            && (HasPair(s) ==> TotalLength(k.st) > TotalLength(st))
            && (!HasPair(s) ==> k.st == st)
  {
    if s != "" {
      var front, c := s[..|s| - 1], s[|s| - 1];
      KeepingRuns(name, front);
      KeepingFlag(name, front);
      OutsideIffMatch(name, front);
      KeepingStepAdds(RunKeeping(name, front), Run(Start(name), front), c);
      assert s == front + [c];
      PairSnoc(front, c);
    }
  }

  /** Resetting the flag changes the outcome if and only if the quotes match and two adjacent backslashes
      stand outside them. */
  lemma ResetMattersIff(name: string, s: string)
    ensures TokenizeKeeping(name, s) != Tokenize(name, s) <==> QuotesMatch(s) && HasPair(s)
  {
    KeepingRuns(name, s);
    EndsQuotedIffUnmatched(Start(name), s);
    var k, st := RunKeeping(name, s).st, Run(Start(name), s);
    if st.word.Some? {
      LengthSnoc(k.words, k.word.value);
      LengthSnoc(st.words, st.word.value);
    }
  }

  /** Two backslashes: one of them should remain, but none does. */
  lemma BackslashesVanish(name: string)
    ensures Tokenize(name, "\\\\") == Words([name, ""])
    ensures TokenizeKeeping(name, "\\\\") == Words([name, "\\"])
  {
    var s := "\\\\";
    assert s[..1] == "\\" && s[..0] == "";
    ConsumeSnoc(Step, Start(name), s, 0);
    ConsumeSnoc(Step, Start(name), s, 1);
    ConsumeSnoc(KeepingStep, Keeping(Start(name), false), s, 0);
    ConsumeSnoc(KeepingStep, Keeping(Start(name), false), s, 1);
    assert s[..2] == s;
    assert [name] + [""] == [name, ""] && [name] + ["\\"] == [name, "\\"];
    assert "" + ['\\'] == "\\";
  }

  // ------------------------------------------------------------------------
  // Round trip
  // ------------------------------------------------------------------------

  function EscapeChar(quote: char, c: char): string {
    if c == quote || c == '\\' then ['\\', c] else [c]
  }

  function Escape(quote: char, w: string): string {
    if w == "" then "" else Escape(quote, w[..|w| - 1]) + EscapeChar(quote, w[|w| - 1])
  }

  /** How an argument is written: as it is, or in quotes of either kind. */
  datatype Style = Bare | InQuotes(quote: char)

  datatype Arg = Arg(text: string, style: Style)

  /** Only an argument without blanks, quotes and backslashes can stand without quotes, and it must not be empty. */
  predicate Writable(a: Arg) {
    match a.style
    case Bare => a.text != "" && forall i :: 0 <= i < |a.text| ==> IsPlain(a.text[i])
    case InQuotes(quote) => quote == '"' || quote == '\''
  }

  predicate IsPlain(c: char) {
    c != '"' && c != '\'' && c != '\\' && !IsSpace(c)
  }

  function Encode(a: Arg): string {
    match a.style
    case Bare => a.text
    case InQuotes(quote) => [quote] + Escape(quote, a.text) + [quote]
  }

  function Texts(args: seq<Arg>): seq<string> {
    seq(|args|, i requires 0 <= i < |args| => args[i].text)
  }

  predicate Blank(s: string) {
    forall i :: 0 <= i < |s| ==> IsSpace(s[i])
  }

  /** `gaps[i]` stands before `args[i]`, the last gap behind the last argument. */
  predicate Separates(gaps: seq<string>, args: seq<Arg>) {
    && |gaps| == |args| + 1
    && (forall i :: 0 <= i < |gaps| ==> Blank(gaps[i]))
    && (forall i :: 0 < i < |args| ==> gaps[i] != "")
    && (forall i :: 0 <= i < |args| ==> Writable(args[i]))
  }

  function EncodeAll(args: seq<Arg>, gaps: seq<string>): string
    requires |gaps| == |args| + 1
  {
    if args == [] then gaps[0] else gaps[0] + (Encode(args[0]) + EncodeAll(args[1..], gaps[1..]))
  }

  lemma RunTwo(st: Scan, a: char, b: char)
    ensures Run(st, [a]) == Step(st, a) && Run(st, [a, b]) == Step(Step(st, a), b)
  {
    var s := [a, b];
    ConsumeSnoc(Step, st, [a], 0);
    ConsumeSnoc(Step, st, s, 0);
    ConsumeSnoc(Step, st, s, 1);
    assert [a][..0] == s[..0] == "" && [a][..1] == s[..1] == [a] && s[..2] == s;
  }

  lemma RunEscapedChar(words: seq<string>, w: string, quote: char, c: char)
    requires IsQuote(quote)
    ensures Run(Scan(words, Some(w), Quoted(quote, false)), EscapeChar(quote, c))
         == Scan(words, Some(w + [c]), Quoted(quote, false))
  {
    var st := Scan(words, Some(w), Quoted(quote, false));
    if c == quote || c == '\\' {
      RunTwo(st, '\\', c);
    } else {
      RunTwo(st, c, c);
    }
  }

  lemma {:induction false} RunEscaped(words: seq<string>, w: string, quote: char, x: string)
    requires IsQuote(quote)
    ensures Run(Scan(words, Some(w), Quoted(quote, false)), Escape(quote, x))
         == Scan(words, Some(w + x), Quoted(quote, false))
  {
    var st := Scan(words, Some(w), Quoted(quote, false));
    if x == "" {
      assert w + x == w;
    } else {
      var front, c := x[..|x| - 1], x[|x| - 1];
      RunEscaped(words, w, quote, front);
      ConsumeConcat(Step, st, Escape(quote, front), EscapeChar(quote, c));
      RunEscapedChar(words, w + front, quote, c);
      assert w + x == w + front + [c];
    }
  }

  lemma RunQuotedArg(words: seq<string>, quote: char, x: string)
    requires IsQuote(quote)
    ensures Run(Scan(words, None, Outside), [quote] + Escape(quote, x) + [quote]) == Scan(words, Some(x), Outside)
  {
    var st := Scan(words, None, Outside);
    ConsumeConcat(Step, st, [quote] + Escape(quote, x), [quote]);
    ConsumeConcat(Step, st, [quote], Escape(quote, x));
    RunQuote(words, quote, x);
    RunEscaped(words, "", quote, x);
    assert "" + x == x;
  }

  /** The opening quote and the closing one. */
  lemma RunQuote(words: seq<string>, quote: char, x: string)
    requires IsQuote(quote)
    ensures Run(Scan(words, None, Outside), [quote]) == Scan(words, Some(""), Quoted(quote, false))
    ensures Run(Scan(words, Some(x), Quoted(quote, false)), [quote]) == Scan(words, Some(x), Outside)
  {
    RunTwo(Scan(words, None, Outside), quote, quote);
    RunTwo(Scan(words, Some(x), Quoted(quote, false)), quote, quote);
  }

  lemma {:induction false} RunPlain(words: seq<string>, x: string)
    requires forall i :: 0 <= i < |x| ==> IsPlain(x[i])
    ensures Run(Scan(words, None, Outside), x) == Scan(words, if x == "" then None else Some(x), Outside)
  {
    if x != "" {
      var front, c := x[..|x| - 1], x[|x| - 1];
      RunPlain(words, front);
      assert IsPlain(c) && x == front + [c];
    }
  }

  lemma RunEncoded(words: seq<string>, a: Arg)
    requires Writable(a)
    ensures Run(Scan(words, None, Outside), Encode(a)) == Scan(words, Some(a.text), Outside)
  {
    match a.style
    case Bare => RunPlain(words, a.text);
    case InQuotes(quote) => RunQuotedArg(words, quote, a.text);
  }

  lemma {:induction false} RunBlank(st: Scan, gap: string)
    requires st.mode == Outside && Blank(gap)
    ensures Run(st, gap) == if gap == "" || st.word == None then st
                            else Scan(st.words + [st.word.value], None, Outside)
  {
    if gap != "" {
      RunBlank(st, gap[..|gap| - 1]);
    }
  }

  function Pending(st: Scan): seq<string> {
    if st.word.Some? then st.words + [st.word.value] else st.words
  }

  lemma RunGapAndEncoded(st: Scan, gap: string, a: Arg, rest: string)
    requires st.mode == Outside && Blank(gap) && (st.word.Some? ==> gap != "") && Writable(a)
    ensures Run(st, gap + (Encode(a) + rest)) == Run(Scan(Pending(st), Some(a.text), Outside), rest)
  {
    var clean := Scan(Pending(st), None, Outside);
    ConsumeConcat(Step, st, gap, Encode(a) + rest);
    RunBlank(st, gap);
    ConsumeConcat(Step, clean, Encode(a), rest);
    RunEncoded(Pending(st), a);
  }

  lemma SeparatesRest(gaps: seq<string>, args: seq<Arg>)
    requires Separates(gaps, args) && args != []
    ensures Separates(gaps[1..], args[1..]) && (args[1..] != [] ==> gaps[1..][0] != "")
  {
  }

  lemma FirstText(words: seq<string>, args: seq<Arg>)
    requires args != []
    ensures words + Texts(args) == words + [args[0].text] + Texts(args[1..])
  {
  }

  lemma {:induction false} RunEncodedAll(st: Scan, args: seq<Arg>, gaps: seq<string>)
    requires st.mode == Outside && Separates(gaps, args)
    requires st.word.Some? && args != [] ==> gaps[0] != ""
    ensures Finish(Run(st, EncodeAll(args, gaps))) == Words(Pending(st) + Texts(args))
    decreases |args|
  {
    if args == [] {
      RunBlank(st, gaps[0]);
      assert Pending(st) + Texts(args) == Pending(st);
    } else {
      var next := Scan(Pending(st), Some(args[0].text), Outside);
      SeparatesRest(gaps, args);
      RunGapAndEncoded(st, gaps[0], args[0], EncodeAll(args[1..], gaps[1..]));
      RunEncodedAll(next, args[1..], gaps[1..]);
      FirstText(Pending(st), args);
    }
  }

  lemma {:induction false} EscapeNulFree(quote: char, w: string)
    requires NulFree(w) && quote != NUL
    ensures NulFree(Escape(quote, w))
  {
    if w != "" {
      EscapeNulFree(quote, w[..|w| - 1]);
    }
  }

  lemma EncodeNulFree(a: Arg)
    requires Writable(a) && NulFree(a.text)
    ensures NulFree(Encode(a))
  {
    if a.style.InQuotes? {
      EscapeNulFree(a.style.quote, a.text);
    }
  }

  lemma {:induction false} EncodeAllNulFree(args: seq<Arg>, gaps: seq<string>)
    requires Separates(gaps, args) && forall i :: 0 <= i < |args| ==> NulFree(args[i].text)
    ensures NulFree(EncodeAll(args, gaps))
    decreases |args|
  {
    if args != [] {
      EncodeNulFree(args[0]);
      EncodeAllNulFree(args[1..], gaps[1..]);
    }
  }

  /** Writing any NUL-free arguments, each in quotes of either kind or, where that is possible, without, and
      separating them by blanks gives a text the program accepts, and tokenizing it gives the arguments back. */
  lemma RoundTrip(name: string, args: seq<Arg>, gaps: seq<string>)
    requires Separates(gaps, args) && forall i :: 0 <= i < |args| ==> NulFree(args[i].text)
    ensures NulFree(EncodeAll(args, gaps))
    ensures Tokenize(name, EncodeAll(args, gaps)) == Words([name] + Texts(args))
  {
    EncodeAllNulFree(args, gaps);
    RunEncodedAll(Start(name), args, gaps);
  }

  // ------------------------------------------------------------------------
  // The in-place tokenizer refines the automaton
  // ------------------------------------------------------------------------

  /** Where the text sits in the buffer and what has been carved out of it so far:
      every finished word lies below offset `from`, where the current word starts. */
  datatype Carving = Carving(name: string, str: string, argv: seq<nat>, words: seq<string>, from: nat) {

    ghost function Base(): nat {
      |name| + 1
    }

    ghost function Read(p: nat): Scan
      requires Base() <= p <= Base() + |str|
    {
      Run(Start(name), str[..p - Base()])
    }

    ghost predicate Unread(b: seq<char>, p: nat) {
      && NulFree(str)
      && |b| == Base() + |str| + 1
      && Base() <= p <= Base() + |str|
      && b[p..] == str[p - Base()..] + [NUL]
    }

    /** Every argv entry reads back as its finished word. */
    ghost predicate Carved(b: seq<char>) {
      && |argv| == |words|
      && forall k :: 0 <= k < |words| ==> CStringAt(b, argv[k], words[k]) && argv[k] + |words[k]| < from
    }

    /** Reader at `p`, writer at `out`: the current word is what lies between
        `from` and `out`, and the automaton agrees with it. */
    ghost predicate At(b: seq<char>, p: nat, out: nat, mode: Mode) {
      && Unread(b, p)
      && Carved(b)
      && from <= out <= p
      && (Read(p) == Scan(words, Some(b[from..out]), mode) || JustStarting(b, p, out, mode))
    }

    ghost predicate JustStarting(b: seq<char>, p: nat, out: nat, mode: Mode)
      requires Unread(b, p)
    {
      && from == out == p && mode == Outside
      && b[p] != NUL && !IsSpace(b[p])
      && Read(p) == Scan(words, None, Outside)
    }

    /** Between two words: either more text may follow or all of it has been read. */
    ghost predicate Between(b: seq<char>, p: nat) {
      && Unread(b, p)
      && Carved(b)
      && ((from <= p && Read(p) == Scan(words, None, Outside)) ||
          (p == Base() + |str| && Tokenize(name, str) == Words(words)))
    }
  }

  lemma NextChar(cv: Carving, b: seq<char>, p: nat)
    requires cv.Unread(b, p)
    ensures b[p] == NUL <==> p == cv.Base() + |cv.str|
    ensures b[p] == NUL ==> cv.Read(p) == Run(Start(cv.name), cv.str)
    ensures b[p] != NUL ==> cv.Unread(b, p + 1) && cv.Read(p + 1) == Step(cv.Read(p), b[p])
  {
    var k := p - cv.Base();
    assert b[p] == b[p..][0] == (cv.str[k..] + [NUL])[0];
    if k < |cv.str| {
      assert b[p + 1..] == b[p..][1..] == cv.str[k + 1..] + [NUL];
      ConsumeSnoc(Step, Start(cv.name), cv.str, k);
    } else {
      assert cv.str[..k] == cv.str;
    }
  }

  /** Storing at the write pointer: it is at or before the character just
      consumed, so neither the finished words nor the unread text change. */
  lemma Emit(cv: Carving, b: seq<char>, p: nat, out: nat, mode: Mode, c: char, mode': Mode)
    requires cv.At(b, p, out, mode) && b[p] != NUL
    requires Step(Scan(cv.words, Some(b[cv.from..out]), mode), b[p])
          == Scan(cv.words, Some(b[cv.from..out] + [c]), mode')
    ensures cv.At(b[out := c], p + 1, out + 1, mode')
  {
    NextChar(cv, b, p);
    var b' := b[out := c];
    assert b'[p + 1..] == b[p + 1..];
    assert b'[cv.from..out + 1] == b[cv.from..out] + [c];
    StillCarved(cv, b, b');
  }

  lemma StillCarved(cv: Carving, b: seq<char>, b': seq<char>)
    requires cv.Carved(b) && |b'| == |b| && cv.from <= |b| && b'[..cv.from] == b[..cv.from]
    ensures cv.Carved(b')
  {
    forall k | 0 <= k < |cv.words| ensures CStringAt(b', cv.argv[k], cv.words[k]) {
      var i, j := cv.argv[k], cv.argv[k] + |cv.words[k]|;
      assert CStringAt(b, i, cv.words[k]);
      assert b'[i..j] == b'[..cv.from][i..j] == b[i..j];
      assert b'[j] == b'[..cv.from][j];
    }
  }

  /** No word ever holds a NUL, because the text does not. */
  lemma {:induction false} WordNulFree(st: Scan, s: string)
    requires NulFree(s) && (st.word.Some? ==> NulFree(st.word.value))
    ensures Run(st, s).word.Some? ==> NulFree(Run(st, s).word.value)
  {
    if s != [] {
      WordNulFree(st, s[..|s| - 1]);
    }
  }

  /** Consuming a character without storing one. */
  lemma Drop(cv: Carving, b: seq<char>, p: nat, out: nat, mode: Mode, mode': Mode)
    requires cv.At(b, p, out, mode) && b[p] != NUL
    requires Step(Scan(cv.words, Some(b[cv.from..out]), mode), b[p])
          == Scan(cv.words, Some(b[cv.from..out]), mode')
    ensures cv.At(b, p + 1, out, mode')
  {
    NextChar(cv, b, p);
    assert cv.JustStarting(b, p, out, mode) ==> b[cv.from..out] == "";
  }

  /** Terminating a word: the blank behind it and the end of its text become NUL. */
  lemma Terminate(cv: Carving, b: seq<char>, p: nat, out: nat, b': seq<char>, p': nat)
    requires cv.At(b, p, out, Outside) && (b[p] == NUL || IsSpace(b[p]))
    requires p' == (if b[p] == NUL then p else p + 1)
    requires b' == b[p := NUL][out := NUL]
    ensures Carving(cv.name, cv.str, cv.argv + [cv.from], cv.words + [b[cv.from..out]], p + 1).Between(b', p')
  {
    NextChar(cv, b, p);
    StillCarved(cv, b, b');
    var w := b[cv.from..out];
    var done := Carving(cv.name, cv.str, cv.argv + [cv.from], cv.words + [w], p + 1);
    assert cv.Unread(b, p) && cv.Read(p) == Scan(cv.words, Some(w), Outside);
    assert b'[p'..] == b[p'..];
    assert b'[cv.from..out] == w;
    assert NulFree(w) by { WordNulFree(Start(cv.name), cv.str[..p - cv.Base()]); }
    forall k | 0 <= k < |done.words|
      ensures CStringAt(b', done.argv[k], done.words[k]) && done.argv[k] + |done.words[k]| < p + 1
    {
      if k < |cv.words| { assert CStringAt(b', cv.argv[k], cv.words[k]); }
    }
  }

  lemma NeverClosed(cv: Carving, b: seq<char>, p: nat, out: nat, quote: char, escaped: bool)
    requires cv.At(b, p, out, Quoted(quote, escaped)) && b[p] == NUL
    ensures Tokenize(cv.name, cv.str) == UnmatchedQuote(quote)
  {
    NextChar(cv, b, p);
  }

  /** What the entries of an argument vector read back as. */
  function ReadArgv(b: seq<char>, argv: seq<nat>): seq<string> {
    seq(|argv|, k requires 0 <= k < |argv| => CString(b, argv[k]))
  }

  lemma AllCarved(cv: Carving, b: seq<char>, p: nat)
    requires cv.Between(b, p) && b[p] == NUL
    ensures Tokenize(cv.name, cv.str) == Words(ReadArgv(b, cv.argv))
  {
    NextChar(cv, b, p);
    forall k | 0 <= k < |cv.words| ensures ReadArgv(b, cv.argv)[k] == cv.words[k] {
      ReadsBack(b, cv.argv[k], cv.words[k]);
    }
    assert ReadArgv(b, cv.argv) == cv.words;
  }

  lemma Opens(cv: Carving, b: seq<char>, p: nat, out: nat)
    requires cv.At(b, p, out, Outside) && IsQuote(b[p])
    ensures cv.At(b, p + 1, out, Quoted(b[p], false))
  {
    Drop(cv, b, p, out, Outside, Quoted(b[p], false));
  }

  lemma Closes(cv: Carving, b: seq<char>, p: nat, out: nat, quote: char)
    requires cv.At(b, p, out, Quoted(quote, false)) && IsQuote(quote) && b[p] == quote
    ensures cv.At(b, p + 1, out, Outside)
  {
    Drop(cv, b, p, out, Quoted(quote, false), Outside);
  }

  lemma Escapes(cv: Carving, b: seq<char>, p: nat, out: nat, quote: char)
    requires cv.At(b, p, out, Quoted(quote, false)) && IsQuote(quote) && b[p] == '\\'
    ensures cv.At(b, p + 1, out, Quoted(quote, true))
  {
    Drop(cv, b, p, out, Quoted(quote, false), Quoted(quote, true));
  }

  /** The automaton appends the character it consumes, but an escape character only if it is escaped itself. */
  lemma Appends(words: seq<string>, w: string, mode: Mode, c: char)
    requires mode.Outside? ==> !IsQuote(c) && !IsSpace(c) && c != '\\'
    requires mode.Quoted? ==> if mode.escaped then true else c != mode.quote && c != '\\'
    ensures Step(Scan(words, Some(w), mode), c)
         == Scan(words, Some(w + [c]), if mode.Quoted? then Quoted(mode.quote, false) else Outside)
  {
  }

  /** Consumes a character and stores it. */
  method Keep(buf: array<char>, p: nat, out: nat, ghost mode: Mode, ghost cv: Carving)
    requires cv.At(buf[..], p, out, mode) && buf[p] != NUL
    requires mode.Outside? ==> !IsQuote(buf[p]) && !IsSpace(buf[p]) && buf[p] != '\\'
    requires mode.Quoted? ==> if mode.escaped then true else buf[p] != mode.quote && buf[p] != '\\'
    modifies buf
    ensures cv.At(buf[..], p + 1, out + 1, if mode.Quoted? then Quoted(mode.quote, false) else Outside)
  {
    ghost var b := buf[..];
    ghost var after := if mode.Quoted? then Quoted(mode.quote, false) else Outside;
    Appends(cv.words, b[cv.from..out], mode, b[p]);
    Emit(cv, b, p, out, mode, b[p], after);
    buf[out] := buf[p];
    assert buf[..] == b[out := b[p]];
  }

  /** One character inside quotes. */
  method ScanInside(buf: array<char>, p: nat, out0: nat, qchar: char, lastEscaped: bool, ghost cv: Carving)
    returns (out: nat, escaped: bool)
    requires IsQuote(qchar) && cv.At(buf[..], p, out0, Quoted(qchar, lastEscaped))
    requires buf[p] != NUL && (buf[p] != qchar || lastEscaped)
    modifies buf
    ensures cv.At(buf[..], p + 1, out, Quoted(qchar, escaped))
  {
    out := out0;
    if buf[p] == '\\' {
      if lastEscaped {
        Keep(buf, p, out, Quoted(qchar, true), cv);
        out := out + 1;
      } else {
        Escapes(cv, buf[..], p, out, qchar);
      }
      escaped := !lastEscaped;
    } else {
      Keep(buf, p, out, Quoted(qchar, lastEscaped), cv);
      out, escaped := out + 1, false;
    }
  }

  /** Inside quotes: stops on the closing quote, or on the terminating NUL when there is none. */
  method ScanToQuote(buf: array<char>, p0: nat, out0: nat, qchar: char, ghost cv: Carving)
    returns (p: nat, out: nat, ghost escaped: bool)
    requires IsQuote(qchar) && cv.At(buf[..], p0, out0, Quoted(qchar, false))
    modifies buf
    ensures cv.At(buf[..], p, out, Quoted(qchar, escaped)) && p0 <= p
    ensures buf[p] != NUL ==> buf[p] == qchar && !escaped
  {
    p, out := p0, out0;
    var lastEscaped := false;
    while buf[p] != NUL && (buf[p] != qchar || lastEscaped)
      invariant cv.At(buf[..], p, out, Quoted(qchar, lastEscaped)) && p0 <= p
      decreases cv.Base() + |cv.str| - p
    {
      out, lastEscaped := ScanInside(buf, p, out, qchar, lastEscaped, cv);
      p := p + 1;
    }
    escaped := lastEscaped;
  }

  lemma QuoteEnds(cv: Carving, b: seq<char>, p: nat, out: nat, qchar: char, escaped: bool)
    requires IsQuote(qchar) && cv.At(b, p, out, Quoted(qchar, escaped))
    requires b[p] == NUL || (b[p] == qchar && !escaped)
    ensures p < |b|
    ensures b[p] == qchar ==> cv.At(b, p + 1, out, Outside)
    ensures b[p] != qchar ==> Tokenize(cv.name, cv.str) == UnmatchedQuote(qchar)
  {
    if b[p] == qchar {
      Closes(cv, b, p, out, qchar);
    } else {
      NeverClosed(cv, b, p, out, qchar, escaped);
    }
  }

  /** A quoted part of a word, from its opening quote to behind its closing one. */
  method ScanQuoted(buf: array<char>, p0: nat, out0: nat, ghost cv: Carving)
    returns (p: nat, out: nat, matched: bool)
    requires cv.At(buf[..], p0, out0, Outside) && IsQuote(buf[p0])
    modifies buf
    ensures matched ==> cv.At(buf[..], p, out, Outside) && p0 < p
    ensures !matched ==> Tokenize(cv.name, cv.str) == UnmatchedQuote(old(buf[p0]))
  {
    var qchar := buf[p0];
    Opens(cv, buf[..], p0, out0);
    ghost var escaped;
    p, out, escaped := ScanToQuote(buf, p0 + 1, out0, qchar, cv);
    QuoteEnds(cv, buf[..], p, out, qchar, escaped);
    matched := buf[p] == qchar;
    p := if matched then p + 1 else p;
  }

  /** One character of a word, or a quoted part of it. */
  method ScanPiece(buf: array<char>, p0: nat, out0: nat, ghost cv: Carving)
    returns (p: nat, out: nat, matched: bool)
    requires cv.At(buf[..], p0, out0, Outside) && buf[p0] != NUL && !IsSpace(buf[p0])
    modifies buf
    ensures matched ==> cv.At(buf[..], p, out, Outside) && p0 < p
    ensures !matched ==> Tokenize(cv.name, cv.str) == UnmatchedQuote(old(buf[p0]))
  {
    if IsQuote(buf[p0]) {
      p, out, matched := ScanQuoted(buf, p0, out0, cv);
    } else if buf[p0] == '\\' {
      Drop(cv, buf[..], p0, out0, Outside, Outside);
      p, out, matched := p0 + 1, out0, true;
    } else {
      Keep(buf, p0, out0, Outside, cv);
      p, out, matched := p0 + 1, out0 + 1, true;
    }
  }

  /** One word, up to the blank or NUL behind it. */
  method ScanWord(buf: array<char>, p0: nat, ghost cv: Carving)
    returns (p: nat, out: nat, unmatched: Option<char>)
    requires cv.At(buf[..], p0, p0, Outside)
    modifies buf
    ensures unmatched == None ==>
              && cv.At(buf[..], p, out, Outside) && p0 <= p
              && (buf[p] == NUL || IsSpace(buf[p]))
    ensures unmatched.Some? ==> Tokenize(cv.name, cv.str) == UnmatchedQuote(unmatched.value)
  {
    p, out, unmatched := p0, p0, None;
    while buf[p] != NUL && !IsSpace(buf[p])
      invariant cv.At(buf[..], p, out, Outside) && p0 <= p
      decreases cv.Base() + |cv.str| - p
    {
      var qchar := buf[p];
      var matched;
      p, out, matched := ScanPiece(buf, p, out, cv);
      if !matched {
        unmatched := Some(qchar);
        return;
      }
    }
  }

  /** One turn of the word loop: scans the word that starts at `p0` and terminates it. */
  method CarveWord(buf: array<char>, p0: nat, ghost cv: Carving)
    returns (p: nat, unmatched: Option<char>, ghost cv': Carving)
    requires cv.Between(buf[..], p0) && buf[p0] != NUL && !IsSpace(buf[p0])
    modifies buf
    ensures unmatched == None ==>
              && p0 < p && cv'.Between(buf[..], p)
              && cv'.name == cv.name && cv'.str == cv.str && cv'.argv == cv.argv + [p0]
    ensures unmatched.Some? ==> Tokenize(cv.name, cv.str) == UnmatchedQuote(unmatched.value)
  {
    NextChar(cv, buf[..], p0);
    ghost var word := cv.(from := p0);
    var out;
    cv' := cv;
    p, out, unmatched := ScanWord(buf, p0, word);
    if unmatched.Some? {
      return;
    }
    ghost var b, end := buf[..], p;
    cv' := Carving(cv.name, cv.str, cv.argv + [p0], cv.words + [b[p0..out]], end + 1);
    if buf[p] != NUL {
      buf[p] := NUL;
      p := p + 1;
    }
    buf[out] := NUL;
    assert buf[..] == b[end := NUL][out := NUL];
    Terminate(word, b, end, out, buf[..], p);
  }

  lemma Loaded(name: string, str: string, b: seq<char>)
    requires NulFree(str) && NulFree(name)
    requires b == name + [NUL] + str + [NUL]
    ensures Carving(name, str, [0], [name], |name| + 1).Between(b, |name| + 1)
  {
    assert b[0..|name|] == name;
    assert b[|name| + 1..] == str + [NUL];
  }

  /** getArgsFromStr: argv entries are offsets into the one buffer that holds
      the command name and the text. */
  method GetArgsFromStr(str: string, name: string)
    returns (buf: array<char>, argv: seq<nat>, unmatched: Option<char>)
    requires NulFree(str) && NulFree(name)
    ensures unmatched == None ==> Tokenize(name, str) == Words(ReadArgv(buf[..], argv))
    ensures unmatched.Some? ==> Tokenize(name, str) == UnmatchedQuote(unmatched.value)
  {
    var image := name + [NUL] + str + [NUL];
    buf := new char[|image|](i requires 0 <= i < |image| => image[i]);
    assert buf[..] == image;
    argv, unmatched := [0], None;
    var p: nat := |name| + 1;
    ghost var cv := Carving(name, str, [0], [name], p);
    Loaded(name, str, buf[..]);
    while buf[p] != NUL
      invariant unmatched == None
      invariant cv.Between(buf[..], p) && argv == cv.argv && cv.name == name && cv.str == str
      decreases cv.Base() + |str| - p
    {
      NextChar(cv, buf[..], p);
      if IsSpace(buf[p]) {
        p := p + 1;
      } else {
        argv := argv + [p];
        p, unmatched, cv := CarveWord(buf, p, cv);
        if unmatched.Some? {
          return;
        }
      }
    }
    AllCarved(cv, buf[..], p);
  }
}
