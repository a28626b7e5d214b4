/** The additive-feedback random number generator ttRandom() of tptbmOCI.c: a table of 31
    words and two pointers that chase each other through it. */
module RandomRing {

  const WORDS: nat := 0x1_0000_0000
  const DEG_3: nat := 31
  const SEP_3: nat := 3

  /** The initial table of the program, without its type word. */
  const SEED: seq<nat> := [
    0x9a319039, 0x32d9c024, 0x9b663182, 0x5da1f342, 0xde3b81e0, 0xdf0a6fb5, 0xf103bc02, 0x48f340fb,
    0x7449e56b, 0xbeb1dbb0, 0xab5c5918, 0x946554fd, 0x8c2e680f, 0xeb3d799f, 0xb11ee0b7, 0x2d436b86,
    0xda672e2a, 0x1588ca88, 0xe369735d, 0x904f35f7, 0xd7158fd6, 0x6fa6f051, 0x616e6b96, 0xac94efdc,
    0x36413f93, 0xc622c298, 0xf5a42ab8, 0x8a88d77b, 0xf5ad9d0e, 0x8999220b, 0x27fb47b9
  ]

  ghost predicate IsSeed(seed: seq<nat>) {
    |seed| == DEG_3 && forall k :: 0 <= k < DEG_3 ==> seed[k] < WORDS
  }

  lemma InitialTableIsSeed()
    ensures IsSeed(SEED)
  {
  }

  /** The plain linear recurrence; its first 31 terms are the table, read from the front pointer on. */
  function Term(seed: seq<nat>, n: nat): nat
    requires |seed| == DEG_3
  {
    if n < DEG_3 then seed[(n + SEP_3) % DEG_3]
    else (Term(seed, n - DEG_3) + Term(seed, n - SEP_3)) % WORDS
  }

  /** The recurrence with its numbers. */
  lemma TermRecurs(seed: seq<nat>, n: nat)
    requires |seed| == 31
    ensures n < 28 ==> Term(seed, n) == seed[n + 3]
    ensures 28 <= n < 31 ==> Term(seed, n) == seed[n - 28]
    ensures n >= 31 ==> Term(seed, n) == (Term(seed, n - 31) + Term(seed, n - 3)) % 4294967296
  {
  }

  /** The first three numbers the program draws. */
  lemma FirstDraws()
    ensures Term(SEED, 31) / 2 == 2078917053
    ensures Term(SEED, 32) / 2 == 143302914
    ensures Term(SEED, 33) / 2 == 1027100827
  {
    TermRecurs(SEED, 31);
    TermRecurs(SEED, 32);
    TermRecurs(SEED, 33);
  }

  class Generator {
    const seed: seq<nat>
    const randtbl: array<nat>
    var fptr: nat
    var rptr: nat
    ghost var calls: nat

    /** The front pointer is three words ahead of the rear pointer, and the table
        holds the latest 31 terms; entry 0 is not part of the ring. */
    ghost predicate Valid()
      reads this, randtbl
    {
      && IsSeed(seed)
      && randtbl.Length == DEG_3 + 1
      && fptr == 1 + (calls + SEP_3) % DEG_3
      && rptr == 1 + calls % DEG_3
      && HoldsTerms(seed, randtbl[..], calls)
    }

    constructor (seed: seq<nat>)
      requires IsSeed(seed)
      ensures Valid() && this.seed == seed && calls == 0
    {
      this.seed := seed;
      randtbl := new nat[DEG_3 + 1](i => if 1 <= i <= |seed| then seed[i - 1] else SEP_3);
      fptr, rptr, calls := SEP_3 + 1, 1, 0;
      new;
      assert forall j :: 0 <= j < DEG_3 ==> Term(seed, j) == seed[(j + SEP_3) % DEG_3];
    }

    /** Adds the rear word to the front word modulo 2^32, drops the least significant bit of
        the sum, and moves both pointers. */
    method Next() returns (i: nat)
      requires Valid()
      modifies this`fptr, this`rptr, this`calls, randtbl
      ensures Valid() && calls == old(calls) + 1
      ensures i == Term(seed, old(calls) + DEG_3) / 2
      ensures i < WORDS / 2
    {
      ghost var before := randtbl[..];
      PointersAdvance(calls);
      RingAdvances(seed, before, calls, fptr, rptr);
      randtbl[fptr] := (randtbl[fptr] + randtbl[rptr]) % WORDS;
      assert randtbl[..] == before[fptr := (before[fptr] + before[rptr]) % WORDS];
      i := randtbl[fptr] / 2;
      fptr := fptr + 1;
      if fptr >= DEG_3 + 1 {
        fptr := 1;
        rptr := rptr + 1;
      } else {
        rptr := rptr + 1;
        if rptr >= DEG_3 + 1 {
          rptr := 1;
        }
      }
      calls := calls + 1;
    }
  }

  /** The generator the program starts with. */
  method InitialGenerator() returns (g: Generator)
    ensures fresh(g) && g.Valid() && g.seed == SEED && g.calls == 0
  {
    InitialTableIsSeed();
    g := new Generator(SEED);
  }

  /** The table entry of term j. */
  function Slot(j: nat): (s: nat)
    ensures 1 <= s <= DEG_3
  {
    1 + (j + SEP_3) % DEG_3
  }

  ghost predicate HoldsTerms(seed: seq<nat>, table: seq<nat>, calls: nat)
    requires |seed| == DEG_3 && |table| == DEG_3 + 1
  {
    forall j :: calls <= j < calls + DEG_3 ==> table[Slot(j)] == Term(seed, j)
  }

  /** Where the pointers stand, by the position of the rear one. */
  lemma Positions(calls: nat)
    ensures var r := calls % DEG_3;
            && (calls + 1) % DEG_3 == (if r == DEG_3 - 1 then 0 else r + 1)
            && (calls + SEP_3) % DEG_3 == (if r >= DEG_3 - SEP_3 then r - (DEG_3 - SEP_3) else r + SEP_3)
            && (calls + DEG_3) % DEG_3 == r
  {
  }

  lemma PointersAdvance(calls: nat)
    ensures 1 + (calls + 1 + SEP_3) % DEG_3
         == var f := 2 + (calls + SEP_3) % DEG_3; if f >= DEG_3 + 1 then 1 else f
    ensures 1 + (calls + 1) % DEG_3 == var r := 2 + calls % DEG_3; if r >= DEG_3 + 1 then 1 else r
    ensures 2 + (calls + SEP_3) % DEG_3 >= DEG_3 + 1 ==> 2 + calls % DEG_3 < DEG_3 + 1
  {
    Positions(calls);
    Positions(calls + 1);
  }

  lemma SlotsRecur(calls: nat)
    ensures Slot(calls + DEG_3) == Slot(calls) == 1 + (calls + SEP_3) % DEG_3
    ensures Slot(calls + DEG_3 - SEP_3) == 1 + calls % DEG_3
  {
    Positions(calls);
    Positions(calls + DEG_3);
    assert calls + DEG_3 - SEP_3 + SEP_3 == calls + DEG_3;
  }

  lemma SlotsDiffer(calls: nat, j: nat)
    requires calls < j < calls + DEG_3
    ensures Slot(j) != Slot(calls)
  {
  }

  /** The front word is the oldest term and the rear word the one that is three terms
      old; their sum replaces the oldest term by the next one. */
  lemma RingAdvances(seed: seq<nat>, table: seq<nat>, calls: nat, f: nat, r: nat)
    requires IsSeed(seed) && |table| == DEG_3 + 1 && HoldsTerms(seed, table, calls)
    requires f == 1 + (calls + SEP_3) % DEG_3 && r == 1 + calls % DEG_3
    ensures (table[f] + table[r]) % WORDS == Term(seed, calls + DEG_3)
    ensures HoldsTerms(seed, table[f := (table[f] + table[r]) % WORDS], calls + 1)
  {
    SlotsRecur(calls);
    var table' := table[f := (table[f] + table[r]) % WORDS];
    assert table[r] == Term(seed, calls + DEG_3 - SEP_3) && table[f] == Term(seed, calls);
    forall j | calls + 1 <= j < calls + 1 + DEG_3 ensures table'[Slot(j)] == Term(seed, j) {
      if j < calls + DEG_3 {
        SlotsDiffer(calls, j);
      }
    }
  }

  lemma {:induction false} TermIsWord(seed: seq<nat>, n: nat)
    requires IsSeed(seed)
    ensures Term(seed, n) < WORDS
  {
    if n >= DEG_3 {
      TermIsWord(seed, n - DEG_3);
    }
  }

  lemma SumBackwards(x: nat, y: nat)
    requires x < WORDS && y < WORDS
    ensures x == ((x + y) % WORDS + WORDS - y) % WORDS
  {
    if x + y < WORDS {
      assert (x + y) % WORDS == x + y;
    } else {
      assert (x + y) % WORDS == x + y - WORDS;
    }
  }

  /** Running the recurrence backwards. */
  lemma TermBackwards(seed: seq<nat>, n: nat)
    requires IsSeed(seed) && n >= DEG_3
    ensures Term(seed, n - DEG_3) == (Term(seed, n) + WORDS - Term(seed, n - SEP_3)) % WORDS
  {
    TermIsWord(seed, n - DEG_3);
    TermIsWord(seed, n - SEP_3);
    SumBackwards(Term(seed, n - DEG_3), Term(seed, n - SEP_3));
  }

  /** No two seeds ever reach the same table: the generator forgets nothing. */
  lemma {:induction false} SeedsNeverMerge(seed: seq<nat>, seed': seq<nat>, n: nat)
    requires IsSeed(seed) && IsSeed(seed')
    requires forall j :: n <= j < n + DEG_3 ==> Term(seed, j) == Term(seed', j)
    ensures seed == seed'
  {
    if n == 0 {
      forall k | 0 <= k < DEG_3 ensures seed[k] == seed'[k] {
        var j := (k + DEG_3 - SEP_3) % DEG_3;
        assert (j + SEP_3) % DEG_3 == k;
        assert Term(seed, j) == Term(seed', j);
      }
    } else {
      var last := n - 1 + DEG_3;
      TermBackwards(seed, last);
      TermBackwards(seed', last);
      assert Term(seed, last) == Term(seed', last) && Term(seed, last - SEP_3) == Term(seed', last - SEP_3);
      SeedsNeverMerge(seed, seed', n - 1);
    }
  }
}
