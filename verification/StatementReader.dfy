/** Splitting a query file into statements at semicolons outside quotes
    (readQueries of ocimtquery.c). */
module StatementReader {
  import opened CStrings

  const MAX_QUERIES: nat := 1024
  const MAX_QUERY_LENGTH: nat := 1024 * 1024

  /** The blanks that are skipped between statements. */
  predicate IsBlank(c: char) {
    c == ' ' || c == '\t' || c == '\n'
  }

  /** A quote character closes the quote it opened; any other one takes over. NUL
      stands for being outside quotes. */
  function NextQuote(quote: char, c: char): char {
    if !IsQuote(c) then quote else if quote == c then NUL else c
  }

  /** The quote the scanner believes to be in after reading s from outside any quote. */
  function QuoteState(s: string): char {
    Consume(NextQuote, NUL, s)
  }

  /** Statements read so far, text of the current one, quote state, inside a statement or not. */
  datatype Reader = Reader(queries: seq<string>, current: string, quote: char, inStatement: bool)

  const START := Reader([], "", NUL, false)

  /** A character of a statement that leads to the given quote state; a statement that ends is kept as `ended`. */
  function Advance(r: Reader, c: char, quote: char, ended: string): Reader {
    if c == ';' && quote == NUL then Reader(r.queries + [ended], "", quote, false)
    else Reader(r.queries, r.current + [c], quote, true)
  }

  /** The character belongs to a statement. */
  predicate Belongs(r: Reader, c: char) {
    r.inStatement || !IsBlank(c)
  }

  function Step(r: Reader, c: char): Reader {
    if Belongs(r, c) then Advance(r, c, NextQuote(r.quote, c), CString(r.current, 0)) else r
  }

  function Run(r: Reader, text: string): Reader {
    Consume(Step, r, text)
  }

  /** Blanks, tabs and line feeds are skipped between statements and nothing else is: a carriage
      return starts a statement. */
  lemma SkippedIff(qs: seq<string>, c: char)
    ensures var between := Reader(qs, "", NUL, false);
            Step(between, c) == between <==> IsSpace(c) && c != '\r' && c as int !in {11, 12}
  {
  }

  /** At text[i] the statement buffer has no room left for another character. */
  ghost predicate OverrunAt(text: string, i: nat) {
    i < |text| &&
    var r := Run(START, text[..i]);
    |r.queries| <= MAX_QUERIES && Belongs(r, text[i]) && |r.current| >= MAX_QUERY_LENGTH
  }

  ghost predicate Overruns(text: string) {
    exists i: nat :: OverrunAt(text, i)
  }

  /** readQueries: rc is 0 for success; fails if there is no statement or there are too many. The statement is
      collected in a buffer of fixed size; `overrun` reports a write behind its end, which the program
      does not notice. */
  method ReadQueries(text: string) returns (rc: int, qlist: seq<string>, overrun: bool)
    ensures overrun <==> Overruns(text)
    ensures !overrun ==>
              var all := Run(START, text).queries;
              && (rc == 0 <==> 0 < |all| <= 1024)
              && qlist == if |all| <= 1024 then all else all[..1024]
  {
    var qbuf := new char[MAX_QUERY_LENGTH];
    rc, qlist, overrun := 1, [], false;
    var p, inquote, instmt := 0, NUL, false;
    for i := 0 to |text|
      invariant p <= qbuf.Length == MAX_QUERY_LENGTH
      invariant Run(START, text[..i]) == Reader(qlist, qbuf[..p], inquote, instmt)
      invariant |qlist| <= MAX_QUERIES
      invariant forall k: nat :: k < i ==> !OverrunAt(text, k)
    {
      ConsumeSnoc(Step, START, text, i);
      var c := text[i];
      if instmt || (c != ' ' && c != '\t' && c != '\n') {
        instmt := true;
        if p == MAX_QUERY_LENGTH {
          assert OverrunAt(text, i);
          return 1, qlist, true;
        }
        if c == '\'' || c == '"' {
          if c == inquote {
            inquote := NUL;
          } else {
            inquote := c;
          }
        }
        if c == ';' && inquote == NUL {
          qbuf[p] := NUL;
          CutCString(qbuf[..], p, 0);
          if |qlist| >= MAX_QUERIES {
            QueriesGrow(START, text, i + 1);
            NoOverrunBehind(text, i + 1);
            return 1, qlist, false;
          }
          qlist := qlist + [CString(qbuf[..], 0)];
          p := 0;
          instmt := false;
        } else {
          qbuf[p] := c;
          p := p + 1;
        }
      }
    }
    assert text[..|text|] == text;
    rc := if |qlist| == 0 then 1 else 0;
  }

  lemma {:induction false} QueriesGrow(r: Reader, text: string, i: nat)
    requires i <= |text|
    ensures Run(r, text[..i]).queries <= Run(r, text).queries
    decreases |text|
  {
    if i == |text| {
      assert text[..i] == text;
    } else {
      var front := text[..|text| - 1];
      QueriesGrow(r, front, i);
      assert front[..i] == text[..i];
    }
  }

  lemma NoOverrunBehind(text: string, i: nat)
    requires i <= |text| && |Run(START, text[..i]).queries| > MAX_QUERIES
    ensures forall k: nat :: i <= k ==> !OverrunAt(text, k)
  {
    forall k: nat | i <= k < |text| ensures !OverrunAt(text, k) {
      QueriesGrow(START, text[..k], i);
      assert text[..k][..i] == text[..i];
    }
  }

  lemma {:induction false} CutCString(buf: seq<char>, n: nat, k: nat)
    requires k <= n < |buf| && buf[n] == NUL
    ensures CString(buf, k) == CString(buf[..n], k)
    decreases n - k
  {
    if k < n {
      CutCString(buf, n, k + 1);
    }
  }

  // ------------------------------------------------------------------------
  // When the statement buffer is too small
  // ------------------------------------------------------------------------

  /** The scanner with statements as they stand in the text, not cut off at a NUL. */
  function RawStep(r: Reader, c: char): Reader {
    if Belongs(r, c) then Advance(r, c, NextQuote(r.quote, c), r.current) else r
  }

  function RawRun(text: string): Reader {
    Consume(RawStep, START, text)
  }

  /** What is read is the same up to the first NUL of every statement. */
  lemma {:induction false} RawIsUncut(text: string)
    ensures var raw, r := RawRun(text), Run(START, text);
            && raw.(queries := []) == r.(queries := []) && |raw.queries| == |r.queries|
            && forall k :: 0 <= k < |r.queries| ==> r.queries[k] == CString(raw.queries[k], 0)
  {
    if text != "" {
      RawIsUncut(text[..|text| - 1]);
    }
  }

  /** Every statement that is collected leaves room for the NUL behind it, and the unfinished one for its
      characters. Collecting ends with the first statement too many. */
  ghost predicate Fits(raw: Reader) {
    && (forall k :: 0 <= k < |raw.queries| && k <= 1024 ==> |raw.queries[k]| < 1048576)
    && (|raw.queries| <= 1024 ==> |raw.current| <= 1048576)
  }

  lemma StatementFits(queries: seq<string>, q: string)
    ensures (forall k :: 0 <= k < |queries + [q]| && k <= MAX_QUERIES ==> |(queries + [q])[k]| < MAX_QUERY_LENGTH)
       <==> && (forall k :: 0 <= k < |queries| && k <= MAX_QUERIES ==> |queries[k]| < MAX_QUERY_LENGTH)
            && (|queries| <= MAX_QUERIES ==> |q| < MAX_QUERY_LENGTH)
  {
    var longer := queries + [q];
    assert forall k :: 0 <= k < |queries| ==> longer[k] == queries[k];
    assert longer[|queries|] == q;
  }

  lemma StepFits(raw: Reader, c: char)
    ensures Fits(RawStep(raw, c))
       <==> Fits(raw) &&
            !(|raw.queries| <= MAX_QUERIES && Belongs(raw, c) && |raw.current| >= MAX_QUERY_LENGTH)
  {
    if Belongs(raw, c) && c == ';' && NextQuote(raw.quote, c) == NUL {
      StatementFits(raw.queries, raw.current);
    }
  }

  lemma OverrunSnoc(text: string, c: char)
    ensures Overruns(text + [c]) <==> Overruns(text) || OverrunAt(text + [c], |text|)
  {
    forall i: nat | i < |text| ensures OverrunAt(text + [c], i) <==> OverrunAt(text, i) {
      assert (text + [c])[..i] == text[..i];
    }
    if Overruns(text) {
      var i: nat :| OverrunAt(text, i);
      assert OverrunAt(text + [c], i);
    }
  }

  /** The buffer is overrun if and only if one of the first 1025 statements, with the NUL behind it, or the
      unfinished one does not fit into it. */
  lemma {:induction false} OverrunsIff(text: string)
    ensures Overruns(text) <==> !Fits(RawRun(text))
  {
    if text != "" {
      var front, c := text[..|text| - 1], text[|text| - 1];
      assert text == front + [c];
      OverrunsIff(front);
      RawIsUncut(front);
      StepFits(RawRun(front), c);
      OverrunSnoc(front, c);
      assert text[..|front|] == front;
    }
  }

  // ------------------------------------------------------------------------
  // The scanner's quotes and those of SQL
  // ------------------------------------------------------------------------

  /** Inside quotes only the character that opened them closes them. */
  function SqlNextQuote(quote: char, c: char): char {
    if quote == NUL then if IsQuote(c) then c else NUL
    else if c == quote then NUL else quote
  }

  function SqlQuoteState(s: string): char {
    Consume(SqlNextQuote, NUL, s)
  }

  /** A quote character of the other kind inside quotes. */
  predicate Foreign(quote: char, c: char) {
    quote != NUL && IsQuote(c) && c != quote
  }

  ghost predicate NoForeignQuote(s: string) {
    forall i :: 0 <= i < |s| ==> !Foreign(SqlQuoteState(s[..i]), s[i])
  }

  lemma NextQuoteAgreesIff(quote: char, c: char)
    requires quote == NUL || IsQuote(quote)
    ensures NextQuote(quote, c) == SqlNextQuote(quote, c) <==> !Foreign(quote, c)
  {
  }

  lemma {:induction false} SqlQuoteStateRange(s: string)
    ensures SqlQuoteState(s) == NUL || IsQuote(SqlQuoteState(s))
  {
    if s != "" {
      SqlQuoteStateRange(s[..|s| - 1]);
    }
  }

  /** The scanner tracks the quotes of SQL at every character. */
  ghost predicate QuotesAgree(s: string) {
    forall i :: 0 <= i <= |s| ==> QuoteState(s[..i]) == SqlQuoteState(s[..i])
  }

  lemma QuotesAgreeSnoc(s: string, c: char)
    ensures QuotesAgree(s + [c]) <==> QuotesAgree(s) && QuoteState(s + [c]) == SqlQuoteState(s + [c])
    ensures NoForeignQuote(s + [c]) <==> NoForeignQuote(s) && !Foreign(SqlQuoteState(s), c)
  {
    var longer := s + [c];
    assert forall i :: 0 <= i <= |s| ==> longer[..i] == s[..i];
    assert longer[..|s| + 1] == longer && s[..|s|] == s;
  }

  /** That is so if and only if no quote character of the other kind stands inside quotes. */
  lemma {:induction false} QuotesAgreeIff(s: string)
    ensures QuotesAgree(s) <==> NoForeignQuote(s)
  {
    if s != "" {
      var front, c := s[..|s| - 1], s[|s| - 1];
      assert s == front + [c];
      QuotesAgreeIff(front);
      QuotesAgreeSnoc(front, c);
      SqlQuoteStateRange(front);
      NextQuoteAgreesIff(SqlQuoteState(front), c);
      assert front[..|front|] == front;
    }
  }

  function SqlStep(r: Reader, c: char): Reader {
    if Belongs(r, c) then Advance(r, c, SqlNextQuote(r.quote, c), CString(r.current, 0)) else r
  }

  /** Splitting by the quotes of SQL. */
  function SqlRun(text: string): Reader {
    Consume(SqlStep, START, text)
  }

  ghost predicate NoForeignQuoteIn(text: string) {
    forall i :: 0 <= i < |text| ==> !Foreign(SqlRun(text[..i]).quote, text[i])
  }

  lemma {:induction false} SqlRunRange(text: string)
    ensures var r := SqlRun(text); (r.quote == NUL || IsQuote(r.quote)) && (r.quote != NUL ==> r.inStatement)
  {
    if text != "" {
      SqlRunRange(text[..|text| - 1]);
    }
  }

  lemma SqlStepAgreesIff(r: Reader, c: char)
    requires r.quote == NUL || (IsQuote(r.quote) && r.inStatement)
    ensures Step(r, c) == SqlStep(r, c) <==> !Foreign(r.quote, c)
  {
    NextQuoteAgreesIff(r.quote, c);
  }

  /** The reader agrees with SQL on every beginning of the text: on the statements, the unfinished
      one and its quotes. */
  ghost predicate SplitsLikeSql(text: string) {
    forall i :: 0 <= i <= |text| ==> Run(START, text[..i]) == SqlRun(text[..i])
  }

  lemma SplitsLikeSqlSnoc(text: string, c: char)
    ensures SplitsLikeSql(text + [c]) <==> SplitsLikeSql(text) && Run(START, text + [c]) == SqlRun(text + [c])
  {
    var longer := text + [c];
    assert forall i :: 0 <= i <= |text| ==> longer[..i] == text[..i];
    assert longer[..|text| + 1] == longer;
  }

  lemma NoForeignSnoc(text: string, c: char)
    ensures NoForeignQuoteIn(text + [c]) <==> NoForeignQuoteIn(text) && !Foreign(SqlRun(text).quote, c)
  {
    var longer := text + [c];
    assert forall i :: 0 <= i <= |text| ==> longer[..i] == text[..i];
    assert text[..|text|] == text;
  }

  /** That is so if and only if no quote character of the other kind stands inside quotes. */
  lemma {:induction false} SplitsLikeSqlIff(text: string)
    ensures SplitsLikeSql(text) <==> NoForeignQuoteIn(text)
  {
    if text != "" {
      var front, c := text[..|text| - 1], text[|text| - 1];
      assert text == front + [c];
      SplitsLikeSqlIff(front);
      SplitsLikeSqlSnoc(front, c);
      NoForeignSnoc(front, c);
      SqlRunRange(front);
      SqlStepAgreesIff(SqlRun(front), c);
      assert front[..|front|] == front;
    }
  }

  /** A statement by the quotes of SQL: empty or starting with a non-blank, without a semicolon outside
      quotes, and with its quotes closed. */
  ghost predicate SqlStatement(q: string) {
    NulFree(q) && (q != "" ==> !IsBlank(q[0])) && NoSqlEnd(q) && SqlQuoteState(q) == NUL
  }

  ghost predicate NoSqlEnd(q: string) {
    forall i :: 0 <= i < |q| && q[i] == ';' ==> SqlQuoteState(q[..i]) != NUL
  }

  lemma {:induction false} SqlRunStatement(q: string)
    requires (q != "" ==> !IsBlank(q[0])) && NoSqlEnd(q)
    ensures SqlRun(q) == Reader([], q, SqlQuoteState(q), q != "")
  {
    if q != "" {
      var front, c := q[..|q| - 1], q[|q| - 1];
      FrontNoSqlEnd(q);
      SqlRunStatement(front);
      SqlQuoteStateRange(front);
      SqlStepInside(front, SqlQuoteState(front), c);
      assert q == front + [c];
    }
  }

  lemma FrontNoSqlEnd(q: string)
    requires NoSqlEnd(q) && q != ""
    ensures NoSqlEnd(q[..|q| - 1]) && (q[|q| - 1] == ';' ==> SqlQuoteState(q[..|q| - 1]) != NUL)
  {
    var front := q[..|q| - 1];
    forall i | 0 <= i < |front| && front[i] == ';' ensures SqlQuoteState(front[..i]) != NUL {
      assert front[..i] == q[..i];
    }
  }

  lemma SqlStepInside(q: string, quote: char, c: char)
    requires q == "" ==> !IsBlank(c)
    requires c == ';' ==> quote != NUL
    requires quote == NUL || IsQuote(quote)
    ensures SqlStep(Reader([], q, quote, q != ""), c) == Reader([], q + [c], SqlNextQuote(quote, c), true)
  {
  }

  /** Every such statement, whatever its quotes contain, ends at its semicolon when SQL's quotes decide. */
  lemma SqlReadsBack(q: string)
    requires SqlStatement(q)
    ensures SqlRun(q + ";") == Reader([q], "", NUL, false)
  {
    SqlRunStatement(q);
    WholeCString(q);
    assert (q + ";")[..|q|] == q;
  }

  // ------------------------------------------------------------------------
  // Round trip
  // ------------------------------------------------------------------------

  ghost predicate Blank(s: string) {
    forall i :: 0 <= i < |s| ==> IsBlank(s[i])
  }

  /** No semicolon outside what the scanner takes for quotes. */
  ghost predicate NoEnd(q: string) {
    forall i :: 0 <= i < |q| && q[i] == ';' ==> QuoteState(q[..i]) != NUL
  }

  /** A statement the scanner can read back: empty or starting with a non-blank, without a
      semicolon outside quotes, and with its quotes closed. */
  ghost predicate Readable(q: string) {
    NulFree(q) && (q != "" ==> !IsBlank(q[0])) && NoEnd(q) && QuoteState(q) == NUL
  }

  /** Every statement followed by a semicolon; gaps[i] stands before statement i, the last one behind. */
  function Layout(queries: seq<string>, gaps: seq<string>): string
    requires |gaps| == |queries| + 1
  {
    if queries == [] then gaps[0]
    else Layout(queries[..|queries| - 1], gaps[..|gaps| - 1]) + (queries[|queries| - 1] + ";" + gaps[|gaps| - 1])
  }

  lemma {:induction false} RunBlank(qs: seq<string>, gap: string)
    requires Blank(gap)
    ensures Run(Reader(qs, "", NUL, false), gap) == Reader(qs, "", NUL, false)
  {
    if gap != "" {
      RunBlank(qs, gap[..|gap| - 1]);
    }
  }

  lemma FrontNoEnd(q: string)
    requires NoEnd(q) && q != ""
    ensures NoEnd(q[..|q| - 1]) && (q[|q| - 1] == ';' ==> QuoteState(q[..|q| - 1]) != NUL)
  {
    var front := q[..|q| - 1];
    forall i | 0 <= i < |front| && front[i] == ';' ensures QuoteState(front[..i]) != NUL {
      assert front[..i] == q[..i];
    }
  }

  lemma StepInside(qs: seq<string>, q: string, quote: char, c: char)
    requires q == "" ==> !IsBlank(c)
    requires c == ';' ==> quote != NUL
    ensures Step(Reader(qs, q, quote, q != ""), c) == Reader(qs, q + [c], NextQuote(quote, c), true)
  {
  }

  lemma {:induction false} RunStatement(qs: seq<string>, q: string)
    requires (q != "" ==> !IsBlank(q[0])) && NoEnd(q)
    ensures Run(Reader(qs, "", NUL, false), q) == Reader(qs, q, QuoteState(q), q != "")
  {
    if q != "" {
      var front, c := q[..|q| - 1], q[|q| - 1];
      FrontNoEnd(q);
      RunStatement(qs, front);
      StepInside(qs, front, QuoteState(front), c);
      assert q == front + [c];
    }
  }

  lemma ForeignQuoteStates(t: string)
    requires t == "'a\"b';'x';"
    ensures QuoteState(t[..5]) == QuoteState(t[..9]) == '\''
  {
    forall k | 0 <= k < |t| ensures QuoteState(t[..k + 1]) == NextQuote(QuoteState(t[..k]), t[k]) {
      ConsumeSnoc(NextQuote, NUL, t, k);
    }
    assert QuoteState(t[..0]) == NUL;
    assert QuoteState(t[..2]) == '\'';
    assert QuoteState(t[..4]) == '"';
    assert QuoteState(t[..5]) == '\'';
    assert QuoteState(t[..7]) == NUL;
  }

  lemma ForeignExample(q: string)
    requires q == "'a\"b'"
    ensures SqlStatement(q)
  {
    forall k | 0 <= k < |q| ensures SqlQuoteState(q[..k + 1]) == SqlNextQuote(SqlQuoteState(q[..k]), q[k]) {
      ConsumeSnoc(SqlNextQuote, NUL, q, k);
    }
    assert SqlQuoteState(q[..0]) == NUL;
    assert SqlQuoteState(q[..2]) == '\'';
    assert SqlQuoteState(q[..4]) == '\'';
    assert q[..5] == q;
  }

  /** A statement with a quote of the other kind inside quotes: the scanner takes its closing quote for an opening
      one and misses its end, and the next quoted text only closes that. */
  lemma ForeignQuoteHidesEnd()
    ensures SqlRun("'a\"b';").queries == ["'a\"b'"]
    ensures Run(START, "'a\"b';").queries == []
    ensures Run(START, "'a\"b';'x';").queries == []
  {
    var t := "'a\"b';'x';";
    assert t[..5] + ";" == t[..6] == "'a\"b';";
    ForeignExample(t[..5]);
    SqlReadsBack(t[..5]);
    ForeignQuoteStates(t);
    assert t[..6][..5] == t[..5];
    RunStatement([], t[..6]);
    RunStatement([], t);
  }

  lemma StepSemicolon(qs: seq<string>, q: string, inStatement: bool)
    ensures Step(Reader(qs, q, NUL, inStatement), ';') == Reader(qs + [CString(q, 0)], "", NUL, false)
  {
  }

  lemma RunSemicolon(qs: seq<string>, q: string)
    requires Readable(q)
    ensures Run(Reader(qs, "", NUL, false), q + [';']) == Reader(qs + [q], "", NUL, false)
  {
    var ended := q + [';'];
    RunStatement(qs, q);
    WholeCString(q);
    StepSemicolon(qs, q, q != "");
    assert ended[..|ended| - 1] == q && ended[|ended| - 1] == ';';
  }

  lemma RunEnded(qs: seq<string>, q: string, gap: string)
    requires Readable(q) && Blank(gap)
    ensures Run(Reader(qs, "", NUL, false), q + ";" + gap) == Reader(qs + [q], "", NUL, false)
  {
    RunSemicolon(qs, q);
    assert q + ";" == q + [';'];
    ConsumeConcat(Step, Reader(qs, "", NUL, false), q + ";", gap);
    RunBlank(qs + [q], gap);
  }

  /** Writing every statement followed by a semicolon and blanks, and reading, gives them back. */
  lemma {:induction false} RoundTrip(queries: seq<string>, gaps: seq<string>)
    requires |gaps| == |queries| + 1
    requires forall i :: 0 <= i < |queries| ==> Readable(queries[i])
    requires forall i :: 0 <= i < |gaps| ==> Blank(gaps[i])
    ensures Run(START, Layout(queries, gaps)) == Reader(queries, "", NUL, false)
  {
    if queries == [] {
      RunBlank([], gaps[0]);
    } else {
      var front, q, gap := queries[..|queries| - 1], queries[|queries| - 1], gaps[|gaps| - 1];
      RoundTrip(front, gaps[..|gaps| - 1]);
      ConsumeConcat(Step, START, Layout(front, gaps[..|gaps| - 1]), q + ";" + gap);
      RunEnded(front, q, gap);
      assert queries == front + [q];
    }
  }

  lemma SqlIsReadable(q: string)
    requires SqlStatement(q) && NoForeignQuote(q)
    ensures Readable(q)
  {
    QuotesAgreeIff(q);
    assert q[..|q|] == q;
  }

  /** The round trip for SQL statements without quote characters of the other kind inside quotes. */
  lemma SqlRoundTrip(queries: seq<string>, gaps: seq<string>)
    requires |gaps| == |queries| + 1
    requires forall i :: 0 <= i < |queries| ==> SqlStatement(queries[i]) && NoForeignQuote(queries[i])
    requires forall i :: 0 <= i < |gaps| ==> Blank(gaps[i])
    ensures Run(START, Layout(queries, gaps)) == Reader(queries, "", NUL, false)
  {
    forall i | 0 <= i < |queries| ensures Readable(queries[i]) {
      SqlIsReadable(queries[i]);
    }
    RoundTrip(queries, gaps);
  }

  // ------------------------------------------------------------------------
  // Nothing is lost: every text is such a layout, up to an unfinished statement
  // ------------------------------------------------------------------------

  ghost predicate Decomposes(text: string, r: Reader, gaps: seq<string>) {
    && |gaps| == |r.queries| + 1
    && text == Layout(r.queries, gaps) + r.current
    && (forall i :: 0 <= i < |gaps| ==> Blank(gaps[i]))
    && (forall i :: 0 <= i < |r.queries| ==> Readable(r.queries[i]))
    && (r.current != "" ==> !IsBlank(r.current[0])) && NoEnd(r.current) && NulFree(r.current)
    && r.quote == QuoteState(r.current)
    && (r.inStatement <==> r.current != "")
  }

  /** The statements read, their semicolons and the blanks between them, and the unfinished
      statement at the end make up the whole text; every statement read is readable. */
  lemma {:induction false} NothingLost(text: string) returns (gaps: seq<string>)
    requires NulFree(text)
    ensures Decomposes(text, Run(START, text), gaps)
  {
    if text == "" {
      gaps := [""];
    } else {
      var front, c := text[..|text| - 1], text[|text| - 1];
      gaps := NothingLost(front);
      assert text == front + [c];
      var r := Run(START, front);
      if !r.inStatement && IsBlank(c) {
        gaps := GapGrows(front, r, gaps, c);
      } else if c == ';' && NextQuote(r.quote, c) == NUL {
        gaps := StatementEnds(front, r, gaps);
      } else {
        StatementGrows(front, r, gaps, c);
      }
    }
  }

  lemma GapGrows(text: string, r: Reader, gaps: seq<string>, c: char) returns (gaps': seq<string>)
    requires Decomposes(text, r, gaps) && !r.inStatement && IsBlank(c)
    ensures Decomposes(text + [c], r, gaps')
  {
    var n := |gaps| - 1;
    gaps' := gaps[n := gaps[n] + [c]];
    if r.queries != [] {
      assert gaps'[..n] == gaps[..n];
    }
    assert Layout(r.queries, gaps') == Layout(r.queries, gaps) + [c];
  }

  lemma StatementEnds(text: string, r: Reader, gaps: seq<string>) returns (gaps': seq<string>)
    requires Decomposes(text, r, gaps) && r.quote == NUL
    ensures Decomposes(text + ";", Reader(r.queries + [CString(r.current, 0)], "", NUL, false), gaps')
  {
    WholeCString(r.current);
    gaps' := gaps + [""];
    var queries := r.queries + [r.current];
    assert queries[..|queries| - 1] == r.queries && gaps'[..|gaps'| - 1] == gaps;
    assert r.current + ";" + "" == r.current + ";";
    assert Layout(queries, gaps') == Layout(r.queries, gaps) + (r.current + ";");
  }

  lemma StatementGrows(text: string, r: Reader, gaps: seq<string>, c: char)
    requires Decomposes(text, r, gaps) && c != NUL
    requires r.inStatement || !IsBlank(c)
    requires c == ';' ==> r.quote != NUL
    ensures Decomposes(text + [c], Reader(r.queries, r.current + [c], NextQuote(r.quote, c), true), gaps)
  {
    var grown := r.current + [c];
    assert grown[..|r.current|] == r.current;
    assert forall i :: 0 <= i < |r.current| ==> grown[..i] == r.current[..i];
  }

  lemma {:induction false} LayoutNulFree(queries: seq<string>, gaps: seq<string>)
    requires |gaps| == |queries| + 1
    requires forall i :: 0 <= i < |queries| ==> NulFree(queries[i])
    requires forall i :: 0 <= i < |gaps| ==> Blank(gaps[i])
    ensures NulFree(Layout(queries, gaps))
  {
    if queries != [] {
      LayoutNulFree(queries[..|queries| - 1], gaps[..|gaps| - 1]);
    }
  }

  /** Statements written with a semicolon and blanks behind each are read back if and only if the
      scanner can read every one of them. */
  lemma ReadsBackIff(queries: seq<string>, gaps: seq<string>)
    requires |gaps| == |queries| + 1
    requires forall i :: 0 <= i < |queries| ==> NulFree(queries[i])
    requires forall i :: 0 <= i < |gaps| ==> Blank(gaps[i])
    ensures Run(START, Layout(queries, gaps)) == Reader(queries, "", NUL, false)
       <==> forall i :: 0 <= i < |queries| ==> Readable(queries[i])
  {
    if Run(START, Layout(queries, gaps)) == Reader(queries, "", NUL, false) {
      LayoutNulFree(queries, gaps);
      var gaps' := NothingLost(Layout(queries, gaps));
    }
    if forall i :: 0 <= i < |queries| ==> Readable(queries[i]) {
      RoundTrip(queries, gaps);
    }
  }
}
