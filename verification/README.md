# TimesTen sample programs: verified models

This project models the self-contained logic of the TimesTen Classic sample programs in Dafny and
proves what their code promises, for every input, every run and every interleaving.

| file | what it models |
|---|---|
| ArgTokenizer | the in-place splitting of a string into an argument vector |
| OptionMatch | exact and abbreviated option lookup by binary search |
| ConnStrShape | telling DSNs and connection strings apart |
| ConnString | the in-place connection string parser and the rebuilt string |
| KeyCursors | the insert and delete cursors of concurrent benchmark processes |
| BenchTrace, BenchProtocol, BenchRuns | start, measuring window and stop of parent and child processes over shared state words, and runs that exist |
| Tpcb | the TPC-B transaction, its tables and its choice of accounts |
| RandomRing | the additive-feedback random number generator |
| Percentiles, QueryStats | sorting, percentiles, recording and merging of response times |
| StatementReader | splitting a query file into statements |
| PhaseController, PhaseRuns | ramp and timing phases of worker threads, counts by scheduled steps, and runs that exist |
| CStrings, Wrappers | C strings in buffers, semicolons, automata over texts, optional values |

Code that works in place is modelled by methods on arrays and classes, each proved against a
function on values; what the programs promise is then proved about those functions. Concurrent
processes are state machines whose runs are arbitrary sequences of actions. Run
`dafny verify dfyconfig.toml` to check everything.

## Assumptions

- One test of a process's own state word and the write it triggers are one step, as are one synchronized
  call on a thread, one evaluation of `runFinished()` and one completion of a transaction with its
  counting. The programs do not make the first and the last of these atomic. In transaction mode the
  parent, whose counter nobody else reads before the end, stores it and executes in one step.
- Database calls either succeed or fail as a parameter says; a rollback restores the last commit.
- Response times are not negative. Balances are integers. Loop counters do not overflow. The product in the
  argument check on deletes, a 32-bit float in the program, is exact.
- Comparison of characters is by code; case conversion and blanks are those of the "C" locale.

## Where the code differs from what it seems to promise

- A DSN written without its name is read back exactly if it does not itself begin like a named attribute
  (`BareRoundTripIff`).
- The merge reports a minimum only if some time does not exceed 999999999 microseconds (`Reports`, `MinimumIff`).
- Between statements a carriage return is not skipped (`SkippedIff`).
- Outside quotes a backslash is dropped and escapes nothing, because its flag is reset at every character
  (`BackslashesVanish`). That changes the outcome exactly for two adjacent backslashes (`ResetMattersIff`).
- Ignoring case, a single upper-case option letter can hide an unambiguous abbreviation (`UpperCaseHides`);
  `AlwaysRightIff` says for which arrays no text is ever answered wrongly.
- The argument check on deletes divides the number of operations by 100 as an integer, so it accepts up to 99
  operations per process more than it counts, and anything below 100 (`AcceptedRunStrays`, `ShortRunsAccepted`). It
  compares the planned share of deletes; the random draws may make every operation a delete. `CheckSufficesIff`
  says when it is enough, `DeletesStayPopulatedIff` for which numbers of deletes nothing goes wrong. Even
  planned shares stray if the processes do not divide the key count (`SharesStayPopulatedIff`).
- In transaction mode every process publishes one operation less than it executes (`TransactionTotal`), and without
  ramp-down a child's window may never be published (`NoRampDownLosesWindow`).
- Sorting fewer than two samples compares with a cell outside them (`SingleSampleIff`). With one iteration in one
  thread the program allocates one cell and reads a second one (`TimeAndCalculate`).
- A failed execution shifts which response times are read back, and a later success that took any time at
  all is lost (`ReadBackIff`).
- In the statement splitter a quote character of the other kind inside quotes takes over, so the end of a
  statement such as `'a"b'` is missed (`ForeignQuoteHidesEnd`, `SplitsLikeSqlIff`). Statements are collected without
  a check of their length (`OverrunsIff`).
- Scale factor 0 passes the argument check of the TPC-B program and divides by zero (`ChoiceIsAdmissible`).

## Model

| member | source | states |
|---|---|---|
| ArgTokenizer.GetArgsFromStr | quickstart/classic/sample_code/common/ttgetopt.c:2308-2427 | The in-place tokenizer refines the one-character-at-a-time automaton: either every argv offset reads back, as a C string of the final buffer, as the automaton's word (command name first), or the unmatched quote reported is the automaton's |
| ArgTokenizer.ScanToQuote | quickstart/classic/sample_code/common/ttgetopt.c:2374-2387 | Inside quotes: the write pointer stays at or before the read pointer, the unread text and all finished words are untouched, and the current word is what the automaton has built |
| ArgTokenizer.ScanQuoted | quickstart/classic/sample_code/common/ttgetopt.c:2370-2392 | A quoted part of a word, from its opening quote to behind its closing one, or the unmatched quote that the automaton reports |
| ArgTokenizer.ScanWord | quickstart/classic/sample_code/common/ttgetopt.c:2367-2407 | The same for a whole word, which ends at a blank or at the end of the text, or fails inside an unmatched quote |
| ArgTokenizer.CarveWord | quickstart/classic/sample_code/common/ttgetopt.c:2345-2417 | One turn of the word loop adds one argv entry and leaves all earlier words readable |
| ArgTokenizer.Emit | quickstart/classic/sample_code/common/ttgetopt.c:2379-2403 | Storing a character through the write pointer never disturbs unread text or a finished word |
| ArgTokenizer.Terminate | quickstart/classic/sample_code/common/ttgetopt.c:2408-2417 | The two NULs written behind a word complete exactly that word and disturb no other |
| ArgTokenizer.FailsIffUnmatchedQuote | quickstart/classic/sample_code/common/ttgetopt.c:2371-2392 | Tokenizing fails if and only if some quote has no unescaped partner, by an independent recursive definition of matching quotes |
| ArgTokenizer.ResetMattersIff | quickstart/classic/sample_code/common/ttgetopt.c:2368-2405 | Resetting the escape flag at every character outside quotes changes the outcome, against an automaton that keeps it, if and only if the quotes match and two adjacent backslashes stand outside them |
| ArgTokenizer.KeepingRuns | quickstart/classic/sample_code/common/ttgetopt.c:2396-2405 | Both automata agree on quotes and on the number of words; a pair of backslashes outside quotes makes the words of the one that keeps its flag longer, and without one they are the same |
| ArgTokenizer.BackslashesVanish | quickstart/classic/sample_code/common/ttgetopt.c:2399-2402 | Two backslashes make an empty word; with the flag kept they would make one backslash |
| ArgTokenizer.RoundTrip | quickstart/classic/sample_code/common/ttgetopt.c:2333-2417 | Any list of NUL-free arguments, each in quotes of either kind with the backslash and that quote escaped or, if it is not empty and holds no blank, quote or backslash, without quotes, and separated by any blanks, is tokenized back to the command name followed by exactly that list |
| OptionMatch.AbbrevMatch | quickstart/classic/sample_code/common/ttgetopt.c:1659-1696 | The search with either comparison function computes the recursive search over the comparison results |
| OptionMatch.SearchSorted | quickstart/classic/sample_code/common/ttgetopt.c:1673-1695 | The loop with its test of both neighbours computes the recursive search, whatever the comparison function |
| OptionMatch.SearchReturns | quickstart/classic/sample_code/common/ttgetopt.c:1673-1695 | For arbitrary comparison results, the search returns an index if and only if every probe on the way turns it there, the index matches and its neighbours do not |
| OptionMatch.FoundReturns | quickstart/classic/sample_code/common/ttgetopt.c:1673-1695 | The search returns an option if and only if the text abbreviates it and none of the options looked at, and the whole name would be reached |
| OptionMatch.AlwaysRightIff | quickstart/classic/sample_code/common/ttgetopt.c:1659-1696 | abbrev_match answers every text correctly if and only if the array meets a condition on its names alone: a name that abbreviates no other one is reached by its own search, and what a reached name shares with any other name it shares with one looked at on the way or next to it |
| OptionMatch.FoundIff | quickstart/classic/sample_code/common/ttgetopt.c:1659-1696 | If the array is in the order the comparison function needs, that condition holds, and an option is returned if and only if the text abbreviates it and no other one |
| OptionMatch.AbbrevMatchCorrect | quickstart/classic/sample_code/common/ttgetopt.c:718-751 | Every text is answered correctly if and only if the array that the declared options are sorted into meets the condition, and it does in case-sensitive mode and if no option is a single upper-case letter; there is only one such array |
| OptionMatch.UpperCaseHides | quickstart/classic/sample_code/common/ttgetopt.c:634-637 | With options Z and abort, ignoring case, the condition fails and the unambiguous abbreviation abo is not found |
| OptionMatch.ExactMatch | quickstart/classic/sample_code/common/ttgetopt.c:1607-1650 | Returns an index holding the normalised text, and nothing only if no stored name equals it |
| OptionMatch.ExactMatchCorrect | quickstart/classic/sample_code/common/ttgetopt.c:604-641 | The normalised text is among the stored names if and only if it does not begin with an angle bracket and some declared option has the same normal form, as a linear scan would say |
| OptionMatch.CompareZero | quickstart/classic/sample_code/common/ttgetopt.c:1669-1680 | A zero comparison means that the text is a prefix of the name, up to case when case is ignored |
| ConnStrShape.LooksLikeDsn | quickstart/classic/sample_code/common/ttgetopt.c:1854-1866 | True exactly for strings of identifier characters with at least one non-blank |
| ConnStrShape.IdCharIff | quickstart/classic/sample_code/common/ttgetopt.c:1844-1848 | The characters that are not identifier characters |
| ConnStrShape.LooksLikeConnstr | quickstart/classic/sample_code/common/ttgetopt.c:1873-1913 | The loop computes the recogniser |
| ConnStrShape.AcceptsIff | quickstart/classic/sample_code/common/ttgetopt.c:1869-1913 | The recogniser accepts exactly the strings of the form optional semicolon, one or more name=value pairs separated by semicolons, optional semicolon |
| ConnStrShape.NeverBoth | quickstart/classic/sample_code/common/ttgetopt.c:1972-1982 | No string looks like a DSN and like a connection string, so the order of the two tests does not matter |
| ConnString.ParseConnectionString | quickstart/classic/sample_code/odbc/tptbm.c:3900-3993 | The parser that cuts up its own buffer accepts exactly what the specification on segments accepts and returns the same components |
| ConnString.ParseSegment | quickstart/classic/sample_code/odbc/tptbm.c:3922-3982 | One turn of the loop: the remaining buffer still holds the original remaining text, and parsing it with the updated components gives the same answer |
| ConnString.AcceptedIff | quickstart/classic/sample_code/odbc/tptbm.c:3922-3992 | A string is accepted if and only if it does not end behind an attribute name, every value fits, no attribute follows a non-empty value of its own, there is a DSN, and a password comes with a user name; each component is the last value given for it |
| ConnString.DuplicatesRejected | quickstart/classic/sample_code/odbc/tptbm.c:3963-3979 | Repeating an attribute behind a non-empty value is always an error |
| ConnString.StartsWithIff | quickstart/classic/sample_code/odbc/tptbm.c:3924-3945 | An attribute is recognised if and only if its three letters, each in upper or lower case, and an equal sign stand at the front |
| ConnString.CaseDoesNotMatter | quickstart/classic/sample_code/odbc/tptbm.c:3924-3945 | Writing the attribute names of any text in another mix of upper and lower case changes neither acceptance nor components |
| ConnString.SpelledRoundTrip | quickstart/classic/sample_code/odbc/tptbm.c:3895-3993 | Components written as DSN, UID and PWD attributes, each name in any mix of cases, are parsed back, for a non-empty DSN, semicolon-free components that fit, and a password only with a user name |
| ConnString.BareRoundTripIff | quickstart/classic/sample_code/odbc/tptbm.c:3895-3993 | If the DSN is written first without its name, they are parsed back if and only if the DSN does not begin like a named attribute |
| ConnString.RoundTrip | quickstart/classic/sample_code/odbc/tptbm.c:1078-1094 | Parsing the rebuilt string returns the components, for a non-empty DSN, semicolon-free components that fit, and a password only with a user name |
| ConnString.RebuildIsIdempotent | quickstart/classic/sample_code/odbc/tptbm.c:1061-1094 | Everything the parser accepts is of that kind, so rebuilding it and parsing again changes nothing |
| ConnString.RebuildInto | quickstart/classic/sample_code/odbc/tptbm.c:1078-1094 | The measured length is the printed length, so the string is refused exactly when it does not fit |
| ConnString.RebuildAndParse | quickstart/classic/sample_code/odbc/tptbm.c:1078-1094 | Rebuilding the string and parsing it in its own buffer, both as written, gives the components back, or nothing if the string does not fit |
| KeyCursors.Cursor.Next | quickstart/classic/sample_code/odbc/tptbm.c:3542-3548 | The cursor variables step through base + stride * (n div keys), n mod keys |
| KeyCursors.EnumerationIsBijective | quickstart/classic/sample_code/odbc/tptbm.c:3184-3188 | Over all processes and all steps every key at or behind the base row is produced exactly once, by the process and at the step given |
| KeyCursors.SingleProcessRows | quickstart/classic/sample_code/odbc/tptbm.c:3542-3548 | A single process inserts exactly the rows that lie a multiple of -insertmod behind the populated ones, each of their keys at the step given |
| KeyCursors.SharedRows | quickstart/classic/sample_code/odbc/tptbm.c:982-983 | With several processes -insertmod plays no part: every key of every row behind the populated ones is inserted by the process of its remainder, at the step given |
| KeyCursors.KeyAtInjective | quickstart/classic/sample_code/odbc/tptbm.c:3491-3496 | Two steps of two cursors never produce the same key |
| KeyCursors.Populate | quickstart/classic/sample_code/odbc/tptbm.c:1925-1964 | The population loops insert key_cnt squared distinct rows besides the metadata row |
| KeyCursors.KeysNeverCollide | quickstart/classic/sample_code/odbc/tptbm.c:3540-3570 | Under every interleaving of the processes no insert finds its key in the table or produces a populated key, the metadata key or a key inserted before, and the row count is populated plus inserted less removed rows |
| KeyCursors.InsertStaysFresh | quickstart/classic/sample_code/odbc/tptbm.c:3542-3548 | One insert keeps the invariant that every inserted key lies behind its cursor |
| KeyCursors.DeletesStayPopulatedIff | quickstart/classic/sample_code/odbc/tptbm.c:3489-3496 | With up to a given number of deletes per process all of them hit populated rows if and only if the row of the last process's last delete, (processes - 1) + stride * ((deletes - 1) div keys), is below the key count |
| KeyCursors.EveryDeleteRemovesIff | quickstart/classic/sample_code/odbc/tptbm.c:3489-3496 | In every interleaving with up to that many deletes per process each delete removes a row, if and only if the same inequality holds |
| KeyCursors.AcceptsIff | quickstart/classic/sample_code/odbc/tptbm.c:1036-1042 | The argument check compares key_cnt squared with the truncated number of deletes times -insertmod for one process, and times the number of processes for several |
| KeyCursors.AcceptsUpTo | quickstart/classic/sample_code/odbc/tptbm.c:1036-1042 | The argument check, whose division by 100 truncates, accepts a delete percentage exactly up to 100 * (share div percentage) + 99 operations per process |
| KeyCursors.CheckSufficesIff | quickstart/classic/sample_code/odbc/tptbm.c:1036-1042 | The check keeps the deletes of every run it accepts within the populated rows, even if all operations turn out to be deletes, if and only if the largest run it accepts meets the inequality |
| KeyCursors.AcceptedRunStrays | quickstart/classic/sample_code/odbc/tptbm.c:1036-1042 | One process, 10 keys, 199 operations, all of them deletes: accepted, although delete number 100 leaves the populated rows |
| KeyCursors.SharesStayPopulatedIff | quickstart/classic/sample_code/odbc/tptbm.c:1036-1042 | Within a share of keys squared by stride every delete hits a populated row if and only if there is one process, or the processes divide the key count, or there is nothing to delete |
| KeyCursors.UnevenSharesStray | quickstart/classic/sample_code/odbc/tptbm.c:1036-1042 | Otherwise the last process reaches a row that was never populated, within its share |
| KeyCursors.EveryDeleteRemoves | quickstart/classic/sample_code/odbc/tptbm.c:3489-3496 | If the deletes stay within the populated rows, each of them removes a row in every interleaving, so the row count is populated plus inserted less deleted rows |
| BenchProtocol.TestOwnWord | quickstart/classic/sample_code/odbc/tptbm.c:3218-3237 | The test of the own state word changes the shared array, the counter and the control flow as the state machine says, and nothing else |
| BenchProtocol.ChildStepOk | quickstart/classic/sample_code/odbc/tptbm.c:3164-3320 | In duration and in transaction mode, every step of a child keeps the invariant that ties its word, counter and published number to what it has seen and done; in duration mode it executes no operation between two sights of the same command |
| BenchProtocol.AnsweredWord | quickstart/classic/sample_code/odbc/tptbm.c:3218-3237 | The test of the own word in duration mode never leaves a command in it, so no command is acted on twice |
| BenchProtocol.ReceiveOk | quickstart/classic/sample_code/odbc/tptbm.c:3126-3154 | Every command of the parent keeps that invariant |
| BenchProtocol.RunOk | quickstart/classic/sample_code/odbc/tptbm.c:3106-3320 | The invariant of parent and children holds in every reachable state of either mode |
| BenchProtocol.StartBarrier | quickstart/classic/sample_code/odbc/tptbm.c:3126-3182 | In either mode: as soon as any process has executed an operation, or any child has been sent more than READY, every child has reported that it is set |
| BenchProtocol.NoCommandLost | quickstart/classic/sample_code/odbc/tptbm.c:3164-3182 | In either mode a child that looks at its word between any two commands sees every command before the latest one |
| BenchProtocol.TransactionSeesAll | quickstart/classic/sample_code/odbc/tptbm.c:3164-3182 | In transaction mode every child does, under every interleaving: no command is lost, and a child that has executed an operation has seen the latest one too |
| BenchProtocol.PublishesWindow | quickstart/classic/sample_code/odbc/tptbm.c:3221-3232 | In duration mode, in every run a child's published number is the number of operations between its first sight of STARTBENCH and its first sight of STOPBENCH if and only if it looked under both commands; without a look under STOPBENCH it is 0 |
| BenchProtocol.AttentivePublishesWindow | quickstart/classic/sample_code/odbc/tptbm.c:3218-3237 | In duration mode: a child that looks between any two commands and has ended has published exactly the operations between its first sights of STARTBENCH and STOPBENCH, with or without ramp-down |
| BenchProtocol.ReportedTotal | quickstart/classic/sample_code/odbc/tptbm.c:3649-3656 | In duration mode with such children the reported total is the parent's own window count plus the counts of all children between their first sights |
| BenchRuns.OpsAreSteps | quickstart/classic/sample_code/odbc/tptbm.c:3204-3320 | The operations these windows count are exactly the scheduled steps of parent and child with an operation in front of them |
| BenchRuns.SomeRunReports | quickstart/classic/sample_code/odbc/tptbm.c:3106-3320 | For every m > 0, every number of processes and any ramp times some run reports: all children look between any two commands, every process publishes m and the total is (n + 1) * m |
| BenchRuns.SomeTransactionRunReports | quickstart/classic/sample_code/odbc/tptbm.c:3204-3320 | In transaction mode some run reports, for every number of operations and processes |
| BenchRuns.NoRampDownLosesWindow | quickstart/classic/sample_code/odbc/tptbm.c:3292-3311 | Without ramp-down, whatever has happened before: while the parent measures, the run can go on in such a way that a child about to look at its word never sees STOPBENCH, because STOP overwrites it, and ends with 0 published, which is the count of no window |
| BenchRuns.LostWindow | quickstart/classic/sample_code/odbc/tptbm.c:3292-3311 | With or without ramp-up and for any number of children there is such a run in which the child executed an operation behind STARTBENCH |
| BenchProtocol.TransactionTotal | quickstart/classic/sample_code/odbc/tptbm.c:3204-3320 | Transaction mode, under every interleaving of the parent and n children: when the parent reports, every process has executed exactly the operations asked for, but the total is (n + 1) * (numXacts - 1), one per process too small |
| BenchProtocol.StoreCounter | quickstart/classic/sample_code/odbc/tptbm.c:3204-3320 | The test at the top of the loop in transaction mode changes the shared array as the state machine says, and nothing else |
| BenchTrace.PublishedIsSince | quickstart/classic/sample_code/odbc/tptbm.c:3226-3231 | Nothing a child does behind its last sight of STOPBENCH changes what it has published |
| BenchTrace.PublishesWindowIff | quickstart/classic/sample_code/odbc/tptbm.c:3221-3231 | On a lawful trace without operations between two sights of the same command, the published number is the count between the first sights if and only if both commands were looked at |
| BenchTrace.WindowUnique | quickstart/classic/sample_code/odbc/tptbm.c:3221-3231 | A trace has at most one window count |
| BenchTrace.AttentiveSeesAll | quickstart/classic/sample_code/odbc/tptbm.c:3164-3182 | A child that looks between any two commands has seen all commands but possibly the latest |
| Tpcb.TransactionKeepsConsistent | quickstart/classic/sample_code/odbc/tpcb.c:134-153 | The five statements together keep every branch balance equal to the sum of its tellers and of its history entries, and all totals equal |
| Tpcb.PartialIsInconsistent | quickstart/classic/sample_code/odbc/tpcb.c:806-825 | A transaction cut short behind its first statement leaves the tables inconsistent, unless it moves no money |
| Tpcb.Session.constructor | quickstart/classic/sample_code/odbc/tpcb.c:546-628 | The populated tables are consistent and the history is empty |
| Tpcb.PopulateRows | quickstart/classic/sample_code/odbc/tpcb.c:582-626 | The population loop gives every row the branch of its number and a zero balance |
| Tpcb.Session.Transact | quickstart/classic/sample_code/odbc/tpcb.c:806-825 | Either all five statements are committed, or, whichever of them or the commit fails, the committed tables are as before |
| Tpcb.Session.Execute | quickstart/classic/sample_code/odbc/tpcb.c:753-829 | The transaction loop commits exactly the attempts before the first failure |
| Tpcb.AlwaysConsistent | quickstart/classic/sample_code/odbc/tpcb.c:753-829 | Whatever fails and wherever, every committed state is consistent and has one history entry per successful transaction |
| Tpcb.AlwaysExplained | quickstart/classic/sample_code/odbc/tpcb.c:151-153 | In every committed state the history alone determines the balance of each teller and each account |
| Tpcb.SkipOverIsBijective | quickstart/classic/sample_code/odbc/tpcb.c:780-792 | The skip-over step maps the first (S-1)*10000 numbers one-to-one into the accounts of the other branches, with the inverse given |
| Tpcb.SkipOverReaches | quickstart/classic/sample_code/odbc/tpcb.c:780-792 | Every account of another branch is reached |
| Tpcb.ChoiceIsAdmissible | quickstart/classic/sample_code/odbc/tpcb.c:755-798 | There is a choice if and only if the scale factor is not 0. Every choice names existing rows, the branch of its teller and an amount in range, and its account is local to the branch exactly if the 85 percent draw says so or there is one branch |
| Tpcb.EveryTellerIsChosen | quickstart/classic/sample_code/odbc/tpcb.c:760-764 | Two first draws choose the same teller if and only if they differ by a multiple of 10 times the scale, every existing teller is chosen by some draw, and the branch is the teller number divided by 10 |
| Tpcb.EveryLocalAccount | quickstart/classic/sample_code/odbc/tpcb.c:768-776 | A local choice: every account of the branch is chosen by exactly one residue of the second draw |
| Tpcb.EveryRemoteAccount | quickstart/classic/sample_code/odbc/tpcb.c:780-792 | A remote choice: every account of the other branches is chosen by exactly one residue of the second draw |
| Tpcb.EveryDelta | quickstart/classic/sample_code/odbc/tpcb.c:796-798 | Every amount from -999999 to 999999 is chosen by exactly one residue of the third draw |
| Tpcb.FirstDrawDecides | quickstart/classic/sample_code/odbc/tpcb.c:755-798 | Teller and branch depend on the first draw alone, the account on the first two, the amount on the third alone |
| RandomRing.Generator.Next | quickstart/classic/sample_code/oci/tptbmOCI.c:1996-2009 | Call n returns term n+31 of the linear recurrence modulo 2^32, halved, below 2^31; the pointers stay three apart modulo 31 and the table keeps the latest 31 terms |
| RandomRing.InitialGenerator | quickstart/classic/sample_code/oci/tptbmOCI.c:1979-1993 | The table of the program is a seed, so the generator starts in a valid state |
| RandomRing.RingAdvances | quickstart/classic/sample_code/oci/tptbmOCI.c:2001-2007 | Adding the rear word to the front word replaces the oldest term by the next one |
| RandomRing.TermRecurs | quickstart/classic/sample_code/oci/tptbmOCI.c:1979-2009 | The recurrence in numbers: the first 31 terms are the table from its fourth word on, every other one is the sum of those 31 and 3 terms before it modulo 4294967296 |
| RandomRing.FirstDraws | quickstart/classic/sample_code/oci/tptbmOCI.c:1979-2009 | The program draws 2078917053, 143302914 and 1027100827 first |
| RandomRing.SeedsNeverMerge | quickstart/classic/sample_code/oci/tptbmOCI.c:1979-1993 | No two initial tables ever lead to the same table |
| Percentiles.BubbleSort | quickstart/classic/sample_code/oci/ocimtquery.c:536-559 | Leaves a sorted permutation of the first n cells (two cells if told to sort fewer) and touches no other cell, despite the shrinking passes and the early exit |
| Percentiles.Pass | quickstart/classic/sample_code/oci/ocimtquery.c:543-555 | A pass permutes its cells, carries the maximum to the top, and swaps nothing only if they were sorted |
| Percentiles.CalculatePercentiles | quickstart/classic/sample_code/oci/ocimtquery.c:565-595 | With two or more samples the results are the 95th and 99th percentile of the samples of all threads, in order; with one sample the smaller of the sample and a leftover cell. A work array of fewer than two cells, and no other, is read behind its end |
| Percentiles.SortedPercentile | quickstart/classic/sample_code/oci/ocimtquery.c:592-593 | The cell read from a sorted list is the least value that at least p percent of the samples do not exceed |
| Percentiles.PercentilePermuted | quickstart/classic/sample_code/oci/ocimtquery.c:586-591 | The percentile depends only on the multiset of samples over all threads |
| Percentiles.CountLePermuted | quickstart/classic/sample_code/oci/ocimtquery.c:586-591 | So does the number of samples up to a value |
| Percentiles.PercentilesOrdered | quickstart/classic/sample_code/oci/ocimtquery.c:592-593 | A lower percentile is never larger than a higher one |
| Percentiles.SingleSampleIff | quickstart/classic/sample_code/oci/ocimtquery.c:543-555 | For a single sample the result is right if and only if the leftover cell is not smaller |
| QueryStats.QueryHistory.Time | quickstart/classic/sample_code/oci/ocimtquery.c:1063-1107 | The counters summarize the successful executions: their number, the totals of elapsed and execute times and of rows, the least times if some time is at most 999999999 microseconds, and the greatest ones; response times are stored by iteration number |
| QueryStats.ReadBackIff | quickstart/classic/sample_code/oci/ocimtquery.c:1070-1096 | The cells the percentiles read hold exactly the recorded response times if and only if every success behind as many iterations as there are successes took no time |
| QueryStats.SamplesAreTimesIff | quickstart/classic/sample_code/oci/ocimtquery.c:584-590 | Over all threads the percentiles look at exactly the recorded response times if and only if that holds in every single thread |
| QueryStats.TimeAndCalculate | quickstart/classic/sample_code/oci/ocimtquery.c:565-595 | Timing a query in every thread and then calculating gives the 95th and 99th percentile, and no other numbers are that, of all response times recorded, if none of them is hidden; the work array is too small exactly for one iteration in one thread |
| QueryStats.MergeThreads | quickstart/classic/sample_code/oci/ocimtquery.c:1253-1276 | Merging the threads' statistics gives number, totals, least and greatest times of all their samples together, the least ones if some time is at most 999999999 microseconds |
| QueryStats.SummaryReports | quickstart/classic/sample_code/oci/ocimtquery.c:1086-1107 | With the initial minimum 999999999 the summary of samples consists of those figures, stated on the samples |
| QueryStats.MergeIsSummary | quickstart/classic/sample_code/oci/ocimtquery.c:1257-1275 | Merging one more thread adds its samples |
| QueryStats.MinimumIff | quickstart/classic/sample_code/oci/ocimtquery.c:1097-1102 | From any initial value, the minimum kept is the least time if and only if some time does not exceed that value, and otherwise it is that value |
| QueryStats.MaximumIsGreatest | quickstart/classic/sample_code/oci/ocimtquery.c:1103-1104 | The reported maximum is the greatest time |
| StatementReader.ReadQueries | quickstart/classic/sample_code/oci/ocimtquery.c:721-779 | The loop, which collects each statement in a buffer of fixed size, computes the scanner; it fails exactly without any statement or with more than 1024; it writes behind the end of the buffer exactly where the specification says |
| StatementReader.SkippedIff | quickstart/classic/sample_code/oci/ocimtquery.c:738-740 | Between statements exactly blanks, tabs and line feeds are skipped |
| StatementReader.OverrunsIff | quickstart/classic/sample_code/oci/ocimtquery.c:723-768 | For every text: the buffer is overrun if and only if one of its first 1025 statements, uncut and with the NUL behind it, does not fit into it, or there are fewer and the unfinished one does not fit |
| StatementReader.RawIsUncut | quickstart/classic/sample_code/oci/ocimtquery.c:747-764 | What is read of a statement is what stands in the text, up to the first NUL |
| StatementReader.RoundTrip | quickstart/classic/sample_code/oci/ocimtquery.c:738-767 | Statements written with a semicolon and blanks behind each are read back, if they are empty or start with a non-blank, have no semicolon outside the scanner's quotes and close their quotes |
| StatementReader.ReadsBackIff | quickstart/classic/sample_code/oci/ocimtquery.c:738-767 | NUL-free statements written with a semicolon and blanks behind each are read back if and only if every one of them is of that kind |
| StatementReader.SqlRoundTrip | quickstart/classic/sample_code/oci/ocimtquery.c:738-767 | Statements delimited by the quotes of SQL are read back, if no quote character of the other kind stands inside their quotes |
| StatementReader.QuotesAgreeIff | quickstart/classic/sample_code/oci/ocimtquery.c:741-746 | The scanner tracks the quotes of SQL at every character of a statement if and only if no quote character of the other kind stands inside quotes |
| StatementReader.SplitsLikeSqlIff | quickstart/classic/sample_code/oci/ocimtquery.c:738-767 | On every beginning of a text the statements, the unfinished one and its quotes are what the quotes of SQL give, if and only if no quote character of the other kind stands inside quotes anywhere in the text |
| StatementReader.SqlReadsBack | quickstart/classic/sample_code/oci/ocimtquery.c:738-767 | Splitting by the quotes of SQL ends every such statement at its semicolon, whatever its quotes contain |
| StatementReader.ForeignQuoteHidesEnd | quickstart/classic/sample_code/oci/ocimtquery.c:741-746 | The end of the statement 'a"b' is missed, and the quoted text of the next one does not help |
| StatementReader.NothingLost | quickstart/classic/sample_code/oci/ocimtquery.c:738-767 | Every text is such a layout of the statements read, up to an unfinished statement at its end |
| PhaseController.TptbmThread.ExecuteTransactions | quickstart/classic/sample_code/jdbc/Tptbm.java:1768-1790 | The execution loop in transaction mode completes exactly numXacts transactions |
| PhaseController.NoEarlyStop | quickstart/classic/sample_code/jdbc/Tptbm.java:2208-2281 | In duration mode a thread finds its run finished if and only if it has received all its calls, so it never stops before its last phase command |
| PhaseController.TimedCountIsWindow | quickstart/classic/sample_code/jdbc/Tptbm.java:1574-1586 | In duration mode the count of a thread is at every moment the number of transactions it completed behind timingStart and before timingStop |
| PhaseRuns.TimedIsSteps | quickstart/classic/sample_code/jdbc/Tptbm.java:1857-1859 | In duration mode timedXacts is the number of scheduled steps at which the thread was in a transaction, behind its timingStart and before its timingStop |
| PhaseRuns.TotalIsSteps | quickstart/classic/sample_code/jdbc/Tptbm.java:1989-1991 | In every mode totalXacts is the number of scheduled steps at which the thread was in a transaction |
| PhaseController.TimingRestarts | quickstart/classic/sample_code/jdbc/Tptbm.java:1574-1586 | Whatever a thread in duration mode has been through, between timingStart and timingStop it does not end and k transactions count as k, later ones do not count, and with ramp-down it ends at rampStop |
| PhaseRuns.SomeTimedRunEnds | quickstart/classic/sample_code/jdbc/Tptbm.java:2208-2281 | For every number of threads and every m, with ramp time or without, some run in duration mode ends with all threads done and a timed count of m each |
| PhaseController.ExactTransactions | quickstart/classic/sample_code/jdbc/Tptbm.java:1667-1683 | In transaction mode, with ramp time or without, a thread completes exactly the transactions asked for |
| PhaseRuns.SomeRunEnds | quickstart/classic/sample_code/jdbc/Tptbm.java:1667-1683 | For every positive number of transactions, every number of threads, with ramp time or without, some run ends with all threads done |
| PhaseController.RunOk | quickstart/classic/sample_code/jdbc/Tptbm.java:2198-2281 | The invariant of all threads holds in every interleaving with the controller |
| PhaseController.ReceiveOk | quickstart/classic/sample_code/jdbc/Tptbm.java:1572-1605 | Every call of the controller keeps the invariant of the thread it is made on |

## Left out

- BenchProtocol.PublishesWindow: does not model a parent's write falling between a child's test and its own write, because tests are atomic steps here.
- All ODBC, OCI and JDBC calls, handles, error printing, signals, password prompts, shared memory and process creation: foreign calls.
- Runs with errors or signals, and whether every run of the benchmark finishes: safety of error-free runs is stated, and that runs exist which report.
- Choosing between reads, updates, inserts and deletes by floating-point thresholds, throttling and wall-clock time: an operation or the end of a phase may happen at any moment.
- The duration-mode limit on deletes: its counter is never increased and duration mode refuses deletes.
- Element lookup for scaleout modes: external; it only skips cursor keys.
- Option types, bundled single-character options, defaults and usage text: easy, or delegated to C library calls.
- Reading options from files, allocation and its failures in the tokenizer: the argument vector is a growing sequence.
- The start barrier of the query program's threads: a simpler form of the barrier proved here.
- Order-processing samples, PL/SQL samples and the scripting-language samples: mostly database calls.
