/** The TPC-B transaction (tpcb.c): how it chooses teller, branch and account, and how its five
    statements, wherever they are cut short, keep the tables consistent. */
module Tpcb {
  import opened Wrappers

  const TELLERS_PER_BRANCH: nat := 10
  const ACCOUNTS_PER_BRANCH: nat := 10000

  // ------------------------------------------------------------------------
  // Tables
  // ------------------------------------------------------------------------

  /** A row of the accounts or tellers table; its number is its index. */
  datatype Row = Row(branch: nat, balance: int)

  datatype Entry = Entry(teller: nat, branch: nat, account: nat, delta: int)

  datatype Tables = Tables(branches: seq<int>, tellers: seq<Row>, accounts: seq<Row>, history: seq<Entry>)

  function Sum<T>(s: seq<T>, f: T -> int): int {
    if s == [] then 0 else Sum(s[..|s| - 1], f) + f(s[|s| - 1])
  }

  lemma {:induction false} SumUpdate<T>(s: seq<T>, i: nat, v: T, f: T -> int)
    requires i < |s|
    ensures Sum(s[i := v], f) == Sum(s, f) - f(s[i]) + f(v)
  {
    var s' := s[i := v];
    if i == |s| - 1 {
      assert s'[..|s| - 1] == s[..|s| - 1];
    } else {
      assert s'[..|s| - 1] == s[..|s| - 1][i := v];
      SumUpdate(s[..|s| - 1], i, v, f);
    }
  }

  lemma SumAppend<T>(s: seq<T>, v: T, f: T -> int)
    ensures Sum(s + [v], f) == Sum(s, f) + f(v)
  {
    assert (s + [v])[..|s|] == s;
  }

  function Plain(): int -> int { (balance: int) => balance }

  function Balance(): Row -> int { (r: Row) => r.balance }

  function BalanceOf(branch: nat): Row -> int { (r: Row) => if r.branch == branch then r.balance else 0 }

  function Delta(): Entry -> int { (e: Entry) => e.delta }

  function DeltaOf(branch: nat): Entry -> int { (e: Entry) => if e.branch == branch then e.delta else 0 }

  /** Every row is where population put it. */
  ghost predicate WellFormed(scale: nat, t: Tables) {
    && |t.branches| == scale
    && |t.tellers| == scale * TELLERS_PER_BRANCH
    && |t.accounts| == scale * ACCOUNTS_PER_BRANCH
    && (forall i :: 0 <= i < |t.tellers| ==> t.tellers[i].branch == i / TELLERS_PER_BRANCH)
    && (forall i :: 0 <= i < |t.accounts| ==> t.accounts[i].branch == i / ACCOUNTS_PER_BRANCH)
  }

  /** The consistency conditions of the TPC-B standard, section 2.3: every branch balance equals
      the sum over its own tellers and over its own history entries, and the totals of
      all tables agree. */
  ghost predicate Consistent(scale: nat, t: Tables) {
    && WellFormed(scale, t)
    && (forall b :: 0 <= b < scale ==> BranchConsistent(t, b))
    && TotalsEqual(t)
  }

  ghost predicate BranchConsistent(t: Tables, b: nat) {
    b < |t.branches| && t.branches[b] == Sum(t.tellers, BalanceOf(b)) == Sum(t.history, DeltaOf(b))
  }

  ghost predicate TotalsEqual(t: Tables) {
    Sum(t.branches, Plain()) == Sum(t.tellers, Balance()) == Sum(t.accounts, Balance()) == Sum(t.history, Delta())
  }

  // ------------------------------------------------------------------------
  // One transaction
  // ------------------------------------------------------------------------

  datatype Params = Params(teller: nat, branch: nat, account: nat, delta: int)

  ghost predicate Admissible(scale: nat, p: Params) {
    && p.teller < scale * TELLERS_PER_BRANCH
    && p.branch == p.teller / TELLERS_PER_BRANCH
    && p.account < scale * ACCOUNTS_PER_BRANCH
    && -999999 <= p.delta <= 999999
  }

  const STATEMENTS: nat := 5

  /** Statement j: update the account, select its balance, update the teller, update
      the branch, insert the history entry. */
  function Statement(j: nat, p: Params, t: Tables): Tables
    requires p.teller < |t.tellers| && p.branch < |t.branches| && p.account < |t.accounts|
  {
    match j
    case 0 => t.(accounts := Credit(t.accounts, p.account, p.delta))
    case 2 => t.(tellers := Credit(t.tellers, p.teller, p.delta))
    case 3 => t.(branches := t.branches[p.branch := t.branches[p.branch] + p.delta])
    case 4 => t.(history := t.history + [Entry(p.teller, p.branch, p.account, p.delta)])
    case _ => t
  }

  function Credit(rows: seq<Row>, i: nat, delta: int): seq<Row>
    requires i < |rows|
  {
    rows[i := rows[i].(balance := rows[i].balance + delta)]
  }

  ghost predicate Fits(p: Params, t: Tables) {
    p.teller < |t.tellers| && p.branch < |t.branches| && p.account < |t.accounts|
  }

  /** The first j statements. */
  function Upto(j: nat, p: Params, t: Tables): (t': Tables)
    requires Fits(p, t)
    ensures Fits(p, t')
  {
    if j == 0 then t else Statement(j - 1, p, Upto(j - 1, p, t))
  }

  lemma AllStatements(p: Params, t: Tables)
    requires Fits(p, t)
    ensures Upto(STATEMENTS, p, t)
         == Tables(t.branches[p.branch := t.branches[p.branch] + p.delta], Credit(t.tellers, p.teller, p.delta),
                   Credit(t.accounts, p.account, p.delta), t.history + [Entry(p.teller, p.branch, p.account, p.delta)])
  {
    assert Upto(1, p, t) == Statement(0, p, Upto(0, p, t));
    assert Upto(2, p, t) == Statement(1, p, Upto(1, p, t));
    assert Upto(3, p, t) == Statement(2, p, Upto(2, p, t));
    assert Upto(4, p, t) == Statement(3, p, Upto(3, p, t));
  }

  lemma CreditSums(rows: seq<Row>, i: nat, delta: int, b: nat)
    requires i < |rows|
    ensures Sum(Credit(rows, i, delta), Balance()) == Sum(rows, Balance()) + delta
    ensures Sum(Credit(rows, i, delta), BalanceOf(b))
         == Sum(rows, BalanceOf(b)) + if rows[i].branch == b then delta else 0
  {
    SumUpdate(rows, i, rows[i].(balance := rows[i].balance + delta), Balance());
    SumUpdate(rows, i, rows[i].(balance := rows[i].balance + delta), BalanceOf(b));
  }

  lemma BranchStaysConsistent(p: Params, t: Tables, b: nat)
    requires Fits(p, t) && p.branch == t.tellers[p.teller].branch
    requires BranchConsistent(t, b)
    ensures BranchConsistent(Upto(STATEMENTS, p, t), b)
  {
    AllStatements(p, t);
    CreditSums(t.tellers, p.teller, p.delta, b);
    SumAppend(t.history, Entry(p.teller, p.branch, p.account, p.delta), DeltaOf(b));
  }

  lemma TotalsStayEqual(p: Params, t: Tables)
    requires Fits(p, t) && TotalsEqual(t)
    ensures TotalsEqual(Upto(STATEMENTS, p, t))
  {
    AllStatements(p, t);
    SumUpdate(t.branches, p.branch, t.branches[p.branch] + p.delta, Plain());
    CreditSums(t.accounts, p.account, p.delta, 0);
    CreditSums(t.tellers, p.teller, p.delta, 0);
    SumAppend(t.history, Entry(p.teller, p.branch, p.account, p.delta), Delta());
  }

  lemma AdmissibleFits(scale: nat, p: Params, t: Tables)
    requires WellFormed(scale, t) && Admissible(scale, p)
    ensures Fits(p, t) && t.tellers[p.teller].branch == p.branch
    ensures forall j: nat :: j <= STATEMENTS ==> WellFormed(scale, Upto(j, p, t))
  {
    forall j: nat | j <= STATEMENTS ensures WellFormed(scale, Upto(j, p, t)) {
      StaysWellFormed(scale, p, t, j);
    }
  }

  lemma {:induction false} StaysWellFormed(scale: nat, p: Params, t: Tables, j: nat)
    requires WellFormed(scale, t) && Fits(p, t)
    ensures WellFormed(scale, Upto(j, p, t))
  {
    if j > 0 {
      StaysWellFormed(scale, p, t, j - 1);
    }
  }

  /** All five statements together keep the tables consistent. */
  lemma TransactionKeepsConsistent(scale: nat, p: Params, t: Tables)
    requires Consistent(scale, t) && Admissible(scale, p)
    ensures Fits(p, t) && Consistent(scale, Upto(STATEMENTS, p, t))
  {
    AdmissibleFits(scale, p, t);
    TotalsStayEqual(p, t);
    forall b | 0 <= b < scale ensures BranchConsistent(Upto(STATEMENTS, p, t), b) {
      BranchStaysConsistent(p, t, b);
    }
  }

  lemma {:induction false} Unfinished(p: Params, t: Tables, j: nat)
    requires Fits(p, t) && 0 < j < STATEMENTS
    ensures Upto(j, p, t).accounts == Credit(t.accounts, p.account, p.delta)
    ensures Upto(j, p, t).history == t.history
    ensures p.delta == 0 ==> Upto(j, p, t) == t
  {
    if j == 1 {
      assert Upto(1, p, t) == Statement(0, p, Upto(0, p, t));
    } else {
      Unfinished(p, t, j - 1);
    }
  }

  /** A transaction that has begun but not finished leaves the tables inconsistent,
      unless it moves no money: it must not be cut short. */
  lemma PartialIsInconsistent(scale: nat, p: Params, t: Tables, j: nat)
    requires Consistent(scale, t) && Admissible(scale, p) && 0 < j < STATEMENTS
    ensures Fits(p, t)
    ensures Consistent(scale, Upto(j, p, t)) <==> p.delta == 0
  {
    AdmissibleFits(scale, p, t);
    Unfinished(p, t, j);
    CreditSums(t.accounts, p.account, p.delta, 0);
  }

  // ------------------------------------------------------------------------
  // Sessions: commit and rollback
  // ------------------------------------------------------------------------

  /** How far a transaction gets: `failing` is the first of its statements that fails,
      STATEMENTS stands for the commit; anything larger means no failure. */
  datatype Attempt = Attempt(p: Params, failing: nat)

  predicate Succeeds(a: Attempt) {
    a.failing > STATEMENTS
  }

  ghost predicate AllAdmissible(scale: nat, attempts: seq<Attempt>) {
    forall i :: 0 <= i < |attempts| ==> Admissible(scale, attempts[i].p)
  }

  /** What a sequence of attempts leaves behind: only those that succeed count. */
  ghost function Committed(scale: nat, t: Tables, attempts: seq<Attempt>): (t': Tables)
    requires WellFormed(scale, t) && AllAdmissible(scale, attempts)
    ensures WellFormed(scale, t')
  {
    if attempts == [] then t
    else
      var before, a := Committed(scale, t, attempts[..|attempts| - 1]), attempts[|attempts| - 1];
      AdmissibleFits(scale, a.p, before);
      if Succeeds(a) then Upto(STATEMENTS, a.p, before) else before
  }

  function Successes(attempts: seq<Attempt>): nat {
    if attempts == [] then 0
    else Successes(attempts[..|attempts| - 1]) + if Succeeds(attempts[|attempts| - 1]) then 1 else 0
  }

  /** Freshly populated tables. */
  function Empty(scale: nat): Tables {
    Tables(seq(scale, _ => 0), EmptyRows(scale, TELLERS_PER_BRANCH), EmptyRows(scale, ACCOUNTS_PER_BRANCH), [])
  }

  function EmptyRows(scale: nat, perBranch: nat): seq<Row>
    requires perBranch > 0
  {
    seq(scale * perBranch, i requires 0 <= i => Row(i / perBranch, 0))
  }

  lemma EmptyIsConsistent(scale: nat)
    ensures Consistent(scale, Empty(scale))
  {
    var t := Empty(scale);
    SumOfZeros(t.branches, Plain());
    SumOfZeros(t.tellers, Balance());
    SumOfZeros(t.accounts, Balance());
    forall b | 0 <= b < scale ensures BranchConsistent(t, b) {
      SumOfZeros(t.tellers, BalanceOf(b));
    }
  }

  /** The loops that populate the tables row by row. */
  method PopulateBranches(scale: nat) returns (branches: seq<int>)
    ensures branches == Empty(scale).branches
  {
    branches := [];
    for i := 0 to scale
      invariant branches == seq(i, _ => 0)
    {
      branches := branches + [0];
    }
  }

  method PopulateRows(scale: nat, perBranch: nat) returns (rows: seq<Row>)
    requires perBranch > 0
    ensures rows == EmptyRows(scale, perBranch)
  {
    rows := [];
    for i := 0 to scale * perBranch
      invariant |rows| == i && forall k :: 0 <= k < i ==> rows[k] == Row(k / perBranch, 0)
    {
      rows := rows + [Row(i / perBranch, 0)];
    }
  }

  /** The connection of the program to its database: the tables it sees inside the open
      transaction, and what a rollback returns to. */
  class Session {
    const scale: nat
    var tables: Tables
    var committed: Tables

    ghost predicate Valid()
      reads this
    {
      WellFormed(scale, committed)
    }

    constructor (scale: nat)
      ensures Valid() && this.scale == scale && tables == committed
      ensures Consistent(scale, committed) && committed.history == []
    {
      this.scale := scale;
      tables, committed := Empty(scale), Empty(scale);
      new;
      EmptyIsConsistent(scale);
      var branches := PopulateBranches(scale);
      var tellers := PopulateRows(scale, TELLERS_PER_BRANCH);
      var accounts := PopulateRows(scale, ACCOUNTS_PER_BRANCH);
      tables := Tables(branches, tellers, accounts, []);
      committed := tables;
    }

    /** The five statements and the commit; the first failure rolls everything back. */
    method Transact(a: Attempt) returns (ok: bool)
      requires Valid() && tables == committed && Admissible(scale, a.p)
      modifies this`tables, this`committed
      ensures Valid() && tables == committed
      ensures ok == Succeeds(a)
      ensures Fits(a.p, old(committed))
      ensures committed == if ok then Upto(STATEMENTS, a.p, old(committed)) else old(committed)
    {
      AdmissibleFits(scale, a.p, committed);
      var j := 0;
      while j < STATEMENTS
        invariant j <= STATEMENTS && j <= a.failing
        invariant committed == old(committed) && Fits(a.p, committed)
        invariant tables == Upto(j, a.p, committed)
      {
        if j == a.failing {
          tables := committed;
          return false;
        }
        tables := Statement(j, a.p, tables);
        j := j + 1;
      }
      if a.failing == STATEMENTS {
        tables := committed;
        return false;
      }
      committed := tables;
      return true;
    }

    /** The transaction loop; it ends early when a transaction fails. */
    method Execute(attempts: seq<Attempt>) returns (done: nat)
      requires Valid() && tables == committed && AllAdmissible(scale, attempts)
      modifies this`tables, this`committed
      ensures Valid() && tables == committed && done <= |attempts|
      ensures forall i :: 0 <= i < done ==> Succeeds(attempts[i])
      ensures done < |attempts| ==> !Succeeds(attempts[done])
      ensures committed == Committed(scale, old(committed), attempts[..done])
    {
      done := 0;
      while done < |attempts|
        invariant done <= |attempts| && WellFormed(scale, committed) && tables == committed
        invariant forall i :: 0 <= i < done ==> Succeeds(attempts[i])
        invariant committed == Committed(scale, old(committed), attempts[..done])
      {
        assert attempts[..done + 1][..done] == attempts[..done];
        var ok := Transact(attempts[done]);
        if !ok {
          return;
        }
        done := done + 1;
      }
    }
  }

  lemma {:induction false} SumOfZeros<T>(s: seq<T>, f: T -> int)
    requires forall i :: 0 <= i < |s| ==> f(s[i]) == 0
    ensures Sum(s, f) == 0
  {
    if s != [] {
      SumOfZeros(s[..|s| - 1], f);
    }
  }

  /** Whatever fails, and wherever: every committed state is consistent, and the history
      has one entry for each transaction that succeeded. */
  lemma {:induction false} AlwaysConsistent(scale: nat, t: Tables, attempts: seq<Attempt>)
    requires Consistent(scale, t) && AllAdmissible(scale, attempts)
    ensures Consistent(scale, Committed(scale, t, attempts))
    ensures |Committed(scale, t, attempts).history| == |t.history| + Successes(attempts)
  {
    if attempts != [] {
      var front, a := attempts[..|attempts| - 1], attempts[|attempts| - 1];
      AlwaysConsistent(scale, t, front);
      var before := Committed(scale, t, front);
      TransactionKeepsConsistent(scale, a.p, before);
      AllStatements(a.p, before);
    }
  }

  function DeltaOfTeller(teller: nat): Entry -> int { (e: Entry) => if e.teller == teller then e.delta else 0 }

  function DeltaOfAccount(account: nat): Entry -> int { (e: Entry) => if e.account == account then e.delta else 0 }

  /** The history alone determines the balance of every single teller and account. */
  ghost predicate Explained(t: Tables) {
    && (forall i :: 0 <= i < |t.tellers| ==> t.tellers[i].balance == Sum(t.history, DeltaOfTeller(i)))
    && (forall i :: 0 <= i < |t.accounts| ==> t.accounts[i].balance == Sum(t.history, DeltaOfAccount(i)))
  }

  lemma {:induction false} AlwaysExplained(scale: nat, t: Tables, attempts: seq<Attempt>)
    requires WellFormed(scale, t) && Explained(t) && AllAdmissible(scale, attempts)
    ensures Explained(Committed(scale, t, attempts))
  {
    if attempts != [] {
      var front, a := attempts[..|attempts| - 1], attempts[|attempts| - 1];
      AlwaysExplained(scale, t, front);
      var before := Committed(scale, t, front);
      AdmissibleFits(scale, a.p, before);
      StaysExplained(a.p, before);
    }
  }

  lemma StaysExplained(p: Params, t: Tables)
    requires Fits(p, t) && Explained(t)
    ensures Explained(Upto(STATEMENTS, p, t))
  {
    AllStatements(p, t);
    var t', e := Upto(STATEMENTS, p, t), Entry(p.teller, p.branch, p.account, p.delta);
    forall i | 0 <= i < |t.tellers| ensures t'.tellers[i].balance == Sum(t'.history, DeltaOfTeller(i)) {
      SumAppend(t.history, e, DeltaOfTeller(i));
    }
    forall i | 0 <= i < |t.accounts| ensures t'.accounts[i].balance == Sum(t'.history, DeltaOfAccount(i)) {
      SumAppend(t.history, e, DeltaOfAccount(i));
    }
  }

  // ------------------------------------------------------------------------
  // Choosing teller, branch and account
  // ------------------------------------------------------------------------

  /** 85 percent of the 16-bit range: below this the account is local to the branch. */
  const LOCAL_LIMIT: nat := 55705

  /** Skips over the accounts of `branch`. */
  function SkipOver(branch: nat, account: nat): nat {
    if account / ACCOUNTS_PER_BRANCH >= branch then account + ACCOUNTS_PER_BRANCH else account
  }

  /** From the random numbers drawn to the parameters of a transaction. With scale factor 0, which the program accepts,
      there is no teller to choose and the first remainder divides by zero. */
  function Choose(scale: nat, r1: nat, r2: nat, r3: nat): Option<Params> {
    if scale == 0 then None
    else
      var teller := r1 % (TELLERS_PER_BRANCH * scale);
      var branch := teller / TELLERS_PER_BRANCH;
      var account :=
        if r1 % 0x10000 < LOCAL_LIMIT || scale == 1 then branch * ACCOUNTS_PER_BRANCH + r2 % ACCOUNTS_PER_BRANCH
        else SkipOver(branch, r2 % (ACCOUNTS_PER_BRANCH * (scale - 1)));
      Some(Params(teller, branch, account, r3 % 1999999 - 999999))
  }

  /** Skipping over is a bijection from the first (scale - 1) * 10000 numbers
      onto the accounts that do not belong to the branch. */
  lemma SkipOverIsBijective(scale: nat, branch: nat, a: nat, account: nat)
    requires branch < scale
    requires a < ACCOUNTS_PER_BRANCH * (scale - 1)
    ensures SkipOver(branch, a) < ACCOUNTS_PER_BRANCH * scale && SkipOver(branch, a) / ACCOUNTS_PER_BRANCH != branch
    ensures account < ACCOUNTS_PER_BRANCH * scale && account / ACCOUNTS_PER_BRANCH != branch ==>
              (SkipOver(branch, a) == account <==>
               a == if account / ACCOUNTS_PER_BRANCH > branch then account - ACCOUNTS_PER_BRANCH else account)
  {
  }

  /** The partner of every account of another branch is in range. */
  lemma SkipOverReaches(scale: nat, branch: nat, account: nat) returns (a: nat)
    requires branch < scale && account < ACCOUNTS_PER_BRANCH * scale && account / ACCOUNTS_PER_BRANCH != branch
    ensures a < ACCOUNTS_PER_BRANCH * (scale - 1) && SkipOver(branch, a) == account
  {
    a := if account / ACCOUNTS_PER_BRANCH > branch then account - ACCOUNTS_PER_BRANCH else account;
  }

  /** There is a choice exactly if there is a branch. Every choice is admissible; the account is local to the
      branch exactly if the first random number says so or there is only one branch. */
  lemma ChoiceIsAdmissible(scale: nat, r1: nat, r2: nat, r3: nat)
    ensures Choose(scale, r1, r2, r3).Some? <==> scale > 0
    ensures scale > 0 ==>
              var p := Choose(scale, r1, r2, r3).value;
              && Admissible(scale, p)
              && (p.account / ACCOUNTS_PER_BRANCH == p.branch <==> r1 % 0x10000 < LOCAL_LIMIT || scale == 1)
  {
    if scale > 0 {
      var p := Choose(scale, r1, r2, r3).value;
      assert p.branch < scale;
      if r1 % 0x10000 < LOCAL_LIMIT || scale == 1 {
        assert p.account / ACCOUNTS_PER_BRANCH == p.branch;
      } else {
        SkipOverIsBijective(scale, p.branch, r2 % (ACCOUNTS_PER_BRANCH * (scale - 1)), 0);
      }
    }
  }

  /** The number that the skip-over step takes to an account of another branch. */
  function Unskip(branch: nat, account: nat): int {
    if account / ACCOUNTS_PER_BRANCH > branch then account - ACCOUNTS_PER_BRANCH else account
  }

  lemma SkipOverIff(scale: nat, branch: nat, a: nat, account: nat)
    requires branch < scale && a < ACCOUNTS_PER_BRANCH * (scale - 1)
    requires account < ACCOUNTS_PER_BRANCH * scale && account / ACCOUNTS_PER_BRANCH != branch
    ensures 0 <= Unskip(branch, account) < ACCOUNTS_PER_BRANCH * (scale - 1)
    ensures SkipOver(branch, a) == account <==> a == Unskip(branch, account)
  {
    SkipOverIsBijective(scale, branch, a, account);
    var b := SkipOverReaches(scale, branch, account);
  }

  /** Two draws choose the same teller if and only if they differ by a multiple of the number of tellers, and every
      teller is chosen by some draw; its branch is the one of its number. */
  lemma EveryTellerIsChosen(scale: nat, r: nat, r': nat, teller: nat)
    requires scale > 0
    ensures Choose(scale, r, 0, 0).value.teller == Choose(scale, r', 0, 0).value.teller
       <==> (r - r') % (10 * scale) == 0
    ensures teller < 10 * scale ==> Choose(scale, teller, 0, 0).value.teller == teller
    ensures Choose(scale, r, 0, 0).value.branch == Choose(scale, r, 0, 0).value.teller / 10
  {
    SameRemainder(r, r', 10 * scale);
    if teller < 10 * scale {
      SmallRemainder(teller, 10 * scale);
    }
  }

  lemma SameRemainder(a: nat, b: nat, d: nat)
    requires d > 0
    ensures a % d == b % d <==> (a - b) % d == 0
  {
    var q, x := a / d - b / d, a % d - b % d;
    assert a - b == d * q + x by {
      assert d * (a / d - b / d) == d * (a / d) - d * (b / d);
    }
    if x == 0 {
      MultipleHasNoRemainder(a - b, d, q);
    }
    if (a - b) % d == 0 {
      var k := (a - b) / d - q;
      assert d * k == x by {
        assert d * ((a - b) / d - q) == d * ((a - b) / d) - d * q;
      }
      SmallMultiple(d, k);
    }
  }

  lemma MultipleHasNoRemainder(n: int, d: nat, q: int)
    requires d > 0 && n == d * q
    ensures n % d == 0
  {
    var k := q - n / d;
    assert d * k == n % d by {
      assert d * (q - n / d) == d * q - d * (n / d);
    }
    SmallMultiple(d, k);
  }

  lemma SmallMultiple(d: int, k: int)
    requires d > 0 && -d < d * k < d
    ensures k == 0
  {
    if k >= 1 {
      assert d * k == d * (k - 1) + d;
      NonNegativeProduct(d, k - 1);
    } else if k <= -1 {
      assert d * k == -(d * (-k - 1)) - d;
      NonNegativeProduct(d, -k - 1);
    }
  }

  lemma NonNegativeProduct(d: nat, k: nat)
    ensures d * k >= 0
  {
  }

  lemma SmallRemainder(n: nat, d: nat)
    requires n < d
    ensures n % d == n
  {
  }

  /** For a fixed first draw the others decide on account and amount alone. */
  lemma FirstDrawDecides(scale: nat, r1: nat, r2: nat, r3: nat)
    requires scale > 0
    ensures var p, q := Choose(scale, r1, r2, r3).value, Choose(scale, r1, 0, 0).value;
            p.teller == q.teller && p.branch == q.branch
    ensures Choose(scale, r1, r2, r3).value.account == Choose(scale, r1, r2, 0).value.account
    ensures Choose(scale, r1, r2, r3).value.delta == Choose(scale, 0, 0, r3).value.delta
  {
  }

  /** The 85 percent draw, or a single branch. */
  predicate IsLocal(scale: nat, r1: nat) {
    r1 % 65536 < 55705 || scale == 1
  }

  /** A local choice: every account of the branch is chosen by exactly one residue of the second draw. */
  lemma EveryLocalAccount(scale: nat, r1: nat, r2: nat, account: nat)
    requires scale > 0 && IsLocal(scale, r1)
    requires account / 10000 == Choose(scale, r1, 0, 0).value.branch
    ensures Choose(scale, r1, r2, 0).value.account == account <==> r2 % 10000 == account % 10000
  {
  }

  /** A remote choice: every account of the other branches is chosen by exactly one residue. */
  lemma EveryRemoteAccount(scale: nat, r1: nat, r2: nat, account: nat)
    requires scale > 0 && !IsLocal(scale, r1)
    requires account < 10000 * scale && account / 10000 != Choose(scale, r1, 0, 0).value.branch
    ensures var u := Unskip(Choose(scale, r1, 0, 0).value.branch, account);
            && 0 <= u < 10000 * (scale - 1)
            && (Choose(scale, r1, r2, 0).value.account == account <==> r2 % (10000 * (scale - 1)) == u)
  {
    ChoiceIsAdmissible(scale, r1, r2, 0);
    SkipOverIff(scale, Choose(scale, r1, 0, 0).value.branch, r2 % (10000 * (scale - 1)), account);
  }

  /** Every amount from -999999 to 999999 is chosen by exactly one residue of the third draw. */
  lemma EveryDelta(scale: nat, r3: nat, delta: int)
    requires scale > 0 && -999999 <= delta <= 999999
    ensures Choose(scale, 0, 0, r3).value.delta == delta <==> r3 % 1999999 == delta + 999999
    ensures 0 <= delta + 999999 < 1999999
  {
  }
}
