/** The insert and delete cursors of the throughput benchmark (ExecuteTptBm of tptbm.c).

    Every process owns two cursors over one keyed table.  A cursor has a start mark, a
    position within it and a stride; nothing but the arithmetic of these three
    numbers keeps the processes from producing the same primary key. */
module KeyCursors {

  /** The primary key (vpn_id, vpn_nb). */
  datatype Key = Key(id: int, nb: int)

  /** The n-th key of a cursor over rows of `keys` columns. */
  function KeyAt(base: int, stride: nat, keys: nat, n: nat): Key
    requires keys > 0
  {
    Key(base + stride * (n / keys), n % keys)
  }

  /** insert_start/insert_present and delete_start/delete_present. */
  class Cursor {
    const base: int
    const stride: nat
    const keys: nat
    var start: int
    var present: nat
    ghost var taken: nat

    ghost predicate Valid()
      reads this
    {
      && keys > 0
      && start == base + stride * (taken / keys)
      && present == taken % keys
    }

    constructor (base: int, stride: nat, keys: nat)
      requires keys > 0
      ensures Valid() && taken == 0
      ensures this.base == base && this.stride == stride && this.keys == keys
    {
      this.base, this.stride, this.keys := base, stride, keys;
      start, present, taken := base, 0, 0;
      new;
      assert taken / keys == 0 && taken % keys == 0;
    }

    /** Walks along the columns and wraps to the next start mark behind the last one. */
    method Next() returns (key: Key)
      requires Valid()
      modifies this
      ensures Valid() && taken == old(taken) + 1
      ensures key == KeyAt(base, stride, keys, old(taken))
    {
      key := Key(start, present);
      DivModSucc(taken, keys);
      present := present + 1;
      if present == keys {
        present := 0;
        start := start + stride;
        assert stride * (taken / keys + 1) == stride * (taken / keys) + stride;
      }
      taken := taken + 1;
    }
  }

  lemma MulAtLeast(d: nat, k: nat)
    requires k >= 1
    ensures d * k >= d
  {
    assert d * k == d * (k - 1) + d;
  }

  lemma MulMonotone(d: nat, a: nat, b: nat)
    requires a <= b
    ensures d * a <= d * b
  {
    assert d * b == d * a + d * (b - a);
  }

  lemma DivModUnique(n: int, d: int, q: int, r: int)
    requires d > 0 && 0 <= r < d && n == d * q + r
    ensures n / d == q && n % d == r
  {
    var k := q - n / d;
    assert d * k == n % d - r by {
      assert d * (q - n / d) == d * q - d * (n / d);
    }
    if k >= 1 {
      MulAtLeast(d, k);
    } else if k <= -1 {
      assert d * -k == -(d * k);
      MulAtLeast(d, -k);
    }
  }

  lemma DivModSucc(n: nat, d: nat)
    requires d > 0
    ensures n % d + 1 == d ==> (n + 1) / d == n / d + 1 && (n + 1) % d == 0
    ensures n % d + 1 != d ==> (n + 1) / d == n / d && (n + 1) % d == n % d + 1
  {
    if n % d + 1 == d {
      DivModUnique(n + 1, d, n / d + 1, 0);
    } else {
      DivModUnique(n + 1, d, n / d, n % d + 1);
    }
  }

  // ------------------------------------------------------------------------
  // One cursor per process: an enumeration without repetition
  // ------------------------------------------------------------------------

  /** A benchmark run: -proc, -key and -insertmod. */
  datatype Config = Config(processes: nat, keys: nat, insertMod: nat) {
    predicate Valid() {
      processes > 0 && keys > 0 && insertMod > 0
    }

    /** With several processes the number of processes is the stride. */
    function Stride(): nat {
      if processes != 1 then processes else insertMod
    }

    function InsertKey(p: nat, n: nat): Key
      requires Valid()
    {
      KeyAt(keys + p, Stride(), keys, n)
    }

    function DeleteKey(p: nat, n: nat): Key
      requires Valid()
    {
      KeyAt(p, Stride(), keys, n)
    }
  }

  /** Two steps of two processes' cursors never meet. */
  lemma KeyAtInjective(cfg: Config, base: int, p: nat, n: nat, q: nat, m: nat)
    requires cfg.Valid() && p < cfg.processes && q < cfg.processes
    requires KeyAt(base + p, cfg.Stride(), cfg.keys, n) == KeyAt(base + q, cfg.Stride(), cfg.keys, m)
    ensures p == q && n == m
  {
    var s, a, b := cfg.Stride(), n / cfg.keys, m / cfg.keys;
    DivModUnique(p + s * a, s, a, p);
    DivModUnique(q + s * b, s, b, q);
  }

  /** With several processes the cursors reach every key at or behind their base row:
      each key belongs to exactly one step of exactly one process. */
  lemma EnumerationIsBijective(processes: nat, keys: nat, base: int, key: Key, p: nat, n: nat)
    requires processes > 0 && keys > 0 && p < processes
    requires key.id >= base && 0 <= key.nb < keys
    ensures KeyAt(base + p, processes, keys, n) == key
       <==> p == (key.id - base) % processes && n == (key.id - base) / processes * keys + key.nb
  {
    var row := key.id - base;
    if KeyAt(base + p, processes, keys, n) == key {
      DivModUnique(row, processes, n / keys, p);
    }
    if p == row % processes && n == row / processes * keys + key.nb {
      DivModUnique(n, keys, row / processes, key.nb);
    }
  }

  /** A single process inserts, at the step given, exactly the rows that lie a multiple of -insertmod behind the
      populated ones. */
  lemma SingleProcessRows(keys: nat, insertMod: nat, key: Key, n: nat)
    requires keys > 0 && insertMod > 0
    ensures Config(1, keys, insertMod).InsertKey(0, n) == key
       <==> && 0 <= key.nb < keys && key.id >= keys && (key.id - keys) % insertMod == 0
            && n == (key.id - keys) / insertMod * keys + key.nb
  {
    var row := key.id - keys;
    if Config(1, keys, insertMod).InsertKey(0, n) == key {
      MulMonotone(insertMod, 0, n / keys);
      DivModUnique(row, insertMod, n / keys, 0);
    }
    if 0 <= key.nb < keys && row >= 0 && row % insertMod == 0 && n == row / insertMod * keys + key.nb {
      DivModUnique(n, keys, row / insertMod, key.nb);
    }
  }

  /** With several processes -insertmod plays no part: every row behind the populated ones is inserted by the process
      of its remainder. */
  lemma SharedRows(cfg: Config, key: Key, p: nat, n: nat)
    requires cfg.Valid() && cfg.processes > 1 && p < cfg.processes
    requires key.id >= cfg.keys && 0 <= key.nb < cfg.keys
    ensures cfg.InsertKey(p, n) == key
       <==> && p == (key.id - cfg.keys) % cfg.processes
            && n == (key.id - cfg.keys) / cfg.processes * cfg.keys + key.nb
  {
    EnumerationIsBijective(cfg.processes, cfg.keys, cfg.keys, key, p, n);
  }

  // ------------------------------------------------------------------------
  // Populating the table
  // ------------------------------------------------------------------------

  /** The key of the row that stores the database mode. */
  const META_KEY := Key(-1, -1)

  /** The key_cnt squared rows every run starts from. */
  ghost predicate Populated(keys: nat, key: Key) {
    0 <= key.id < keys && 0 <= key.nb < keys
  }

  /** The rows the nested loops of populate() have inserted on reaching (i, j). */
  ghost predicate PopulatedBefore(keys: nat, i: nat, j: nat, key: Key) {
    Populated(keys, key) && (key.id < i || (key.id == i && key.nb < j))
  }

  /** populate(): no insert of the nested loops repeats a key. */
  method Populate(keys: nat) returns (table: set<Key>)
    requires keys > 0
    ensures forall key :: key in table <==> key == Key(-1, -1) || Populated(keys, key)
    ensures |table| == keys * keys + 1
  {
    table := {META_KEY};
    var rowcount := 0;
    for i := 0 to keys
      invariant forall key :: key in table <==> key == META_KEY || PopulatedBefore(keys, i, 0, key)
      invariant |table| == rowcount + 1 && rowcount == i * keys
    {
      for j := 0 to keys
        invariant forall key :: key in table <==> key == META_KEY || PopulatedBefore(keys, i, j, key)
        invariant |table| == rowcount + 1 && rowcount == i * keys + j
      {
        assert Key(i, j) !in table;
        table := table + {Key(i, j)};
        rowcount := rowcount + 1;
      }
    }
  }

  // ------------------------------------------------------------------------
  // Runs: any interleaving of the processes' operations
  // ------------------------------------------------------------------------

  /** A read or an update touches no key. */
  datatype Op = Insert(p: nat) | Delete(p: nat) | Other(p: nat)

  /** The shared table, the number of insert and delete steps each process has
      taken, the keys inserted so far in order, and how many deletes found a row. */
  datatype World = World(table: set<Key>, ins: seq<nat>, del: seq<nat>, inserted: seq<Key>, removed: nat)

  ghost predicate InitialWorld(cfg: Config, w: World) {
    && (forall key :: key in w.table <==> key == META_KEY || Populated(cfg.keys, key))
    && |w.table| == cfg.keys * cfg.keys + 1
    && w == World(w.table, seq(cfg.processes, _ => 0), seq(cfg.processes, _ => 0), [], 0)
  }

  function Perform(cfg: Config, w: World, op: Op): (w': World)
    requires cfg.Valid() && op.p < cfg.processes == |w.ins| == |w.del|
    ensures |w'.ins| == |w'.del| == cfg.processes
  {
    match op
    case Other(_) => w
    case Insert(p) =>
      var key := cfg.InsertKey(p, w.ins[p]);
      w.(table := w.table + {key}, ins := w.ins[p := w.ins[p] + 1],
         inserted := w.inserted + [key])
    case Delete(p) =>
      var key := cfg.DeleteKey(p, w.del[p]);
      w.(table := w.table - {key}, del := w.del[p := w.del[p] + 1],
         removed := w.removed + if key in w.table then 1 else 0)
  }

  predicate Schedule(cfg: Config, ops: seq<Op>) {
    forall i :: 0 <= i < |ops| ==> ops[i].p < cfg.processes
  }

  function RunOps(cfg: Config, w: World, ops: seq<Op>): (w': World)
    requires cfg.Valid() && Schedule(cfg, ops) && cfg.processes == |w.ins| == |w.del|
    ensures |w'.ins| == |w'.del| == cfg.processes
  {
    if ops == [] then w else Perform(cfg, RunOps(cfg, w, ops[..|ops| - 1]), ops[|ops| - 1])
  }

  /** Every inserted key is one that its cursor has already left behind. */
  ghost predicate Fresh(cfg: Config, w: World)
    requires cfg.Valid() && cfg.processes == |w.ins|
  {
    && (forall i, j :: 0 <= i < j < |w.inserted| ==> w.inserted[i] != w.inserted[j])
    && (forall i :: 0 <= i < |w.inserted| ==> Behind(cfg, w, w.inserted[i]))
    && (forall key :: key in w.table ==> key == META_KEY || Populated(cfg.keys, key) || key in w.inserted)
    && |w.table| + w.removed == cfg.keys * cfg.keys + 1 + |w.inserted|
  }

  ghost predicate Behind(cfg: Config, w: World, key: Key)
    requires cfg.Valid() && cfg.processes == |w.ins|
  {
    exists p, n :: 0 <= p < cfg.processes && 0 <= n < w.ins[p] && key == cfg.InsertKey(p, n)
  }

  lemma InsertKeyIsNew(cfg: Config, p: nat, n: nat)
    requires cfg.Valid()
    ensures cfg.InsertKey(p, n).id >= cfg.keys
  {
    MulMonotone(cfg.Stride(), 0, n / cfg.keys);
  }

  /** The key a cursor produces next is not behind any cursor. */
  lemma NextIsNotBehind(cfg: Config, w: World, p: nat)
    requires cfg.Valid() && p < cfg.processes == |w.ins|
    ensures !Behind(cfg, w, cfg.InsertKey(p, w.ins[p]))
  {
    var key := cfg.InsertKey(p, w.ins[p]);
    forall q, n | 0 <= q < cfg.processes && 0 <= n < w.ins[q] ensures key != cfg.InsertKey(q, n) {
      if key == cfg.InsertKey(q, n) {
        KeyAtInjective(cfg, cfg.keys, p, w.ins[p], q, n);
      }
    }
  }

  lemma InsertIsNew(cfg: Config, w: World, p: nat)
    requires cfg.Valid() && p < cfg.processes == |w.ins| && Fresh(cfg, w)
    ensures cfg.InsertKey(p, w.ins[p]) !in w.inserted && cfg.InsertKey(p, w.ins[p]) !in w.table
  {
    NextIsNotBehind(cfg, w, p);
    InsertKeyIsNew(cfg, p, w.ins[p]);
  }

  lemma BehindGrows(cfg: Config, w: World, w': World, key: Key)
    requires cfg.Valid() && cfg.processes == |w.ins| == |w'.ins| && Behind(cfg, w, key)
    requires forall q :: 0 <= q < |w.ins| ==> w.ins[q] <= w'.ins[q]
    ensures Behind(cfg, w', key)
  {
    var q, n :| 0 <= q < cfg.processes && 0 <= n < w.ins[q] && key == cfg.InsertKey(q, n);
    assert n < w'.ins[q];
  }

  lemma InsertStaysFresh(cfg: Config, w: World, p: nat)
    requires cfg.Valid() && p < cfg.processes == |w.ins| == |w.del| && Fresh(cfg, w)
    ensures Fresh(cfg, Perform(cfg, w, Insert(p)))
  {
    var key, w' := cfg.InsertKey(p, w.ins[p]), Perform(cfg, w, Insert(p));
    InsertIsNew(cfg, w, p);
    assert w.ins[p] < w'.ins[p] && Behind(cfg, w', key);
    forall i | 0 <= i < |w'.inserted| ensures Behind(cfg, w', w'.inserted[i]) {
      if i < |w.inserted| {
        BehindGrows(cfg, w, w', w.inserted[i]);
      }
    }
  }

  lemma {:induction false} RunStaysFresh(cfg: Config, w: World, ops: seq<Op>)
    requires cfg.Valid() && InitialWorld(cfg, w) && Schedule(cfg, ops)
    ensures Fresh(cfg, RunOps(cfg, w, ops))
  {
    if ops != [] {
      var ops', op := ops[..|ops| - 1], ops[|ops| - 1];
      RunStaysFresh(cfg, w, ops');
      var mid := RunOps(cfg, w, ops');
      match op {
        case Insert(p) => InsertStaysFresh(cfg, mid, p);
        case Delete(p) =>
        case Other(p) =>
      }
    }
  }

  /** No insert finds a row with its key in the table. */
  ghost predicate MeetsNoRow(cfg: Config, w: World, ops: seq<Op>)
    requires cfg.Valid() && Schedule(cfg, ops) && cfg.processes == |w.ins| == |w.del|
  {
    forall k :: 0 <= k < |ops| && ops[k].Insert? ==>
      var mid := RunOps(cfg, w, ops[..k]); cfg.InsertKey(ops[k].p, mid.ins[ops[k].p]) !in mid.table
  }

  lemma InsertsMeetNoRow(cfg: Config, w: World, ops: seq<Op>)
    requires cfg.Valid() && InitialWorld(cfg, w) && Schedule(cfg, ops)
    ensures MeetsNoRow(cfg, w, ops)
  {
    forall k | 0 <= k < |ops| && ops[k].Insert?
      ensures var mid := RunOps(cfg, w, ops[..k]); cfg.InsertKey(ops[k].p, mid.ins[ops[k].p]) !in mid.table
    {
      RunStaysFresh(cfg, w, ops[..k]);
      InsertIsNew(cfg, RunOps(cfg, w, ops[..k]), ops[k].p);
    }
  }

  function Inserts(ops: seq<Op>): nat {
    if ops == [] then 0 else Inserts(ops[..|ops| - 1]) + if ops[|ops| - 1].Insert? then 1 else 0
  }

  function Deletes(ops: seq<Op>): nat {
    if ops == [] then 0 else Deletes(ops[..|ops| - 1]) + if ops[|ops| - 1].Delete? then 1 else 0
  }

  lemma {:induction false} AllInsertsLogged(cfg: Config, w: World, ops: seq<Op>)
    requires cfg.Valid() && Schedule(cfg, ops) && cfg.processes == |w.ins| == |w.del|
    ensures |RunOps(cfg, w, ops).inserted| == |w.inserted| + Inserts(ops)
  {
    if ops != [] {
      AllInsertsLogged(cfg, w, ops[..|ops| - 1]);
    }
  }

  lemma BehindIsNew(cfg: Config, w: World, key: Key)
    requires cfg.Valid() && cfg.processes == |w.ins| && Behind(cfg, w, key)
    ensures key.id >= cfg.keys
  {
    var q, n :| 0 <= q < cfg.processes && 0 <= n < w.ins[q] && key == cfg.InsertKey(q, n);
    InsertKeyIsNew(cfg, q, n);
  }

  /** Under every interleaving no insert produces a populated key, the metadata key or a
      key that any process inserted before, so the primary key is never violated; the
      table holds what was populated plus what was inserted less what deletes removed. */
  lemma KeysNeverCollide(cfg: Config, w: World, ops: seq<Op>)
    requires cfg.Valid() && InitialWorld(cfg, w) && Schedule(cfg, ops)
    ensures var r := RunOps(cfg, w, ops);
            && |r.inserted| == Inserts(ops)
            && MeetsNoRow(cfg, w, ops)
            && (forall i, j :: 0 <= i < j < |r.inserted| ==> r.inserted[i] != r.inserted[j])
            && (forall i :: 0 <= i < |r.inserted| ==>
                  r.inserted[i] != META_KEY && !Populated(cfg.keys, r.inserted[i]))
            && |r.table| + r.removed == cfg.keys * cfg.keys + 1 + Inserts(ops)
  {
    RunStaysFresh(cfg, w, ops);
    InsertsMeetNoRow(cfg, w, ops);
    AllInsertsLogged(cfg, w, ops);
    var r := RunOps(cfg, w, ops);
    forall i | 0 <= i < |r.inserted| ensures r.inserted[i] != META_KEY && !Populated(cfg.keys, r.inserted[i]) {
      BehindIsNew(cfg, r, r.inserted[i]);
    }
  }

  // ------------------------------------------------------------------------
  // Deletes: when do they stay within the populated rows?
  // ------------------------------------------------------------------------

  /** With up to `limit` deletes each, the processes only reach populated rows. */
  ghost predicate DeletesStayPopulated(cfg: Config, limit: nat)
    requires cfg.Valid()
  {
    forall p: nat, n: nat :: p < cfg.processes && n < limit ==> Populated(cfg.keys, cfg.DeleteKey(p, n))
  }

  /** The row the last process reaches with its last delete. */
  function LastRow(cfg: Config, limit: nat): int
    requires cfg.Valid() && limit > 0
  {
    cfg.processes - 1 + cfg.Stride() * ((limit - 1) / cfg.keys)
  }

  /** Deletes stay within the populated rows if and only if the last process's last one does. */
  lemma DeletesStayPopulatedIff(cfg: Config, limit: nat)
    requires cfg.Valid() && limit > 0
    ensures DeletesStayPopulated(cfg, limit) <==> LastRow(cfg, limit) < cfg.keys
  {
    if LastRow(cfg, limit) < cfg.keys {
      forall p: nat, n: nat | p < cfg.processes && n < limit ensures Populated(cfg.keys, cfg.DeleteKey(p, n)) {
        LastRowIsLast(cfg, limit, p, n);
      }
    } else {
      assert cfg.DeleteKey(cfg.processes - 1, limit - 1).id == LastRow(cfg, limit);
    }
  }

  lemma LastRowIsLast(cfg: Config, limit: nat, p: nat, n: nat)
    requires cfg.Valid() && p < cfg.processes && n < limit
    ensures 0 <= cfg.DeleteKey(p, n).id <= LastRow(cfg, limit)
  {
    DivMonotone(n, limit - 1, cfg.keys);
    MulMonotone(cfg.Stride(), n / cfg.keys, (limit - 1) / cfg.keys);
    MulMonotone(cfg.Stride(), 0, n / cfg.keys);
  }

  /** How many times d goes into n. */
  lemma DivIsLargest(n: nat, d: nat, q: nat)
    requires d > 0
    ensures d * q <= n <==> q <= n / d
  {
    if q <= n / d {
      MulMonotone(d, q, n / d);
    } else {
      MulMonotone(d, n / d + 1, q);
      assert d * (n / d + 1) == d * (n / d) + d;
    }
  }

  lemma DivMonotone(n: nat, m: nat, d: nat)
    requires n <= m && d > 0
    ensures n / d <= m / d
  {
    assert d * (n / d) <= n;
    DivIsLargest(m, d, n / d);
  }

  // ------------------------------------------------------------------------
  // The argument check on -xact and -delete
  // ------------------------------------------------------------------------

  /** parse_args() lets a run of `xacts` operations per process with `percent` deletes
      pass if their planned number does not exceed the populated rows. */
  predicate Accepts(cfg: Config, xacts: nat, percent: nat) {
    cfg.Stride() * Planned(xacts, percent) <= cfg.keys * cfg.keys
  }

  /** Dividing the integer number of operations by 100 drops a remainder. */
  function Planned(xacts: nat, percent: nat): nat {
    xacts / 100 * percent
  }

  /** The check multiplies by the number of processes, or by -insertmod if there is one process. */
  lemma AcceptsIff(processes: nat, keys: nat, insertMod: nat, xacts: nat, percent: nat)
    ensures Accepts(Config(1, keys, insertMod), xacts, percent) <==> insertMod * (xacts / 100 * percent) <= keys * keys
    ensures processes != 1 ==>
              (Accepts(Config(processes, keys, insertMod), xacts, percent)
               <==> processes * (xacts / 100 * percent) <= keys * keys)
  {
  }

  /** A process's share of the populated rows. */
  function DeleteShare(cfg: Config): nat
    requires cfg.Valid()
  {
    cfg.keys * cfg.keys / cfg.Stride()
  }

  /** The check compares the planned number with the share. */
  lemma AcceptsIsShare(cfg: Config, xacts: nat, percent: nat)
    requires cfg.Valid()
    ensures Accepts(cfg, xacts, percent) <==> Planned(xacts, percent) <= DeleteShare(cfg)
  {
    DivIsLargest(cfg.keys * cfg.keys, cfg.Stride(), Planned(xacts, percent));
  }

  /** The largest number of operations per process that the check accepts. */
  function MostAccepted(cfg: Config, percent: nat): nat
    requires cfg.Valid() && percent > 0
  {
    100 * (DeleteShare(cfg) / percent) + 99
  }

  lemma AcceptsUpTo(cfg: Config, xacts: nat, percent: nat)
    requires cfg.Valid() && percent > 0
    ensures Accepts(cfg, xacts, percent) <==> xacts <= MostAccepted(cfg, percent)
  {
    AcceptsIsShare(cfg, xacts, percent);
    DivIsLargest(DeleteShare(cfg), percent, xacts / 100);
    assert percent * (xacts / 100) == Planned(xacts, percent);
  }

  /** Every operation of an accepted run may turn out to be a delete. The check keeps them
      all within the populated rows if and only if the largest run it accepts stays there. */
  lemma CheckSufficesIff(cfg: Config, percent: nat)
    requires cfg.Valid() && percent > 0
    ensures (forall xacts: nat :: Accepts(cfg, xacts, percent) ==> DeletesStayPopulated(cfg, xacts))
       <==> LastRow(cfg, MostAccepted(cfg, percent)) < cfg.keys
  {
    var most := MostAccepted(cfg, percent);
    AcceptsUpTo(cfg, most, percent);
    DeletesStayPopulatedIff(cfg, most);
    if DeletesStayPopulated(cfg, most) {
      forall xacts: nat | Accepts(cfg, xacts, percent) ensures DeletesStayPopulated(cfg, xacts) {
        AcceptsUpTo(cfg, xacts, percent);
      }
    }
  }

  /** Fewer than 100 operations per process are always accepted. */
  lemma ShortRunsAccepted(cfg: Config, xacts: nat, percent: nat)
    requires cfg.Valid() && xacts < 100
    ensures Accepts(cfg, xacts, percent)
  {
    assert xacts / 100 == 0;
    assert Planned(xacts, percent) == 0;
  }

  /** One process, 10 keys, 199 operations, all of them deletes: accepted, although delete
      number 100 leaves the populated rows. */
  lemma AcceptedRunStrays()
    ensures var cfg := Config(1, 10, 1);
            && Accepts(cfg, 199, 100)
            && !Populated(10, cfg.DeleteKey(0, 100))
            && !DeletesStayPopulated(cfg, 199)
  {
    var cfg := Config(1, 10, 1);
    assert 199 / 100 == 1;
    assert cfg.DeleteKey(0, 100) == Key(10, 0);
  }

  // ------------------------------------------------------------------------
  // Deletes up to a process's share of the rows
  // ------------------------------------------------------------------------

  lemma CancelFactor(k: nat, x: nat, y: nat)
    requires k * x < k * y
    ensures x < y
  {
    if x >= y {
      MulMonotone(k, y, x);
    }
  }

  lemma ScaledRow(s: nat, k: nat, n: nat)
    requires k > 0 && s * n < k * k
    ensures s * (n / k) < k
  {
    MulMonotone(s, k * (n / k), n);
    assert k * (s * (n / k)) == s * (k * (n / k));
    CancelFactor(k, s * (n / k), k);
  }

  /** One process: whatever its stride, it stays within the populated rows. */
  lemma SingleProcessStays(cfg: Config)
    requires cfg.Valid() && cfg.processes == 1 && DeleteShare(cfg) > 0
    ensures LastRow(cfg, DeleteShare(cfg)) < cfg.keys
  {
    var s, k, n := cfg.Stride(), cfg.keys, DeleteShare(cfg) - 1;
    DivIsLargest(k * k, s, n + 1);
    assert s * (n + 1) == s * n + s;
    ScaledRow(s, k, n);
  }

  /** Processes that share the rows evenly stay within the populated rows. */
  lemma EvenSharesStay(cfg: Config)
    requires cfg.Valid() && cfg.processes > 1 && cfg.keys % cfg.processes == 0
    ensures DeleteShare(cfg) > 0 && LastRow(cfg, DeleteShare(cfg)) < cfg.keys
  {
    var s, k := cfg.processes, cfg.keys;
    var rows := k / s;
    assert k * k == s * (k * rows) by {
      assert (s * rows) * k == s * (k * rows);
    }
    DivModUnique(k * k, s, k * rows, 0);
    assert rows > 0;
    MulAtLeast(k, rows);
    assert k * rows - 1 == k * (rows - 1) + (k - 1);
    DivModUnique(k * rows - 1, k, rows - 1, k - 1);
    assert s * (rows - 1) == k - s;
  }

  lemma SquareSplits(k: nat, s: nat, q: nat, r: nat)
    requires k == s * q + r
    ensures k * k == s * (k * q) + k * r
  {
    assert k * k == k * (s * q) + k * r;
    assert k * (s * q) == s * (k * q);
  }

  lemma RemainderCovers(k: nat, s: nat, q: nat, r: nat)
    requires k == s * q + r && r > 0 && 0 < s <= k * k
    ensures k * r >= s
  {
    if q == 0 {
      assert r == k;
    } else {
      MulAtLeast(k, r);
      MulAtLeast(s, q);
    }
  }

  /** Otherwise the last process, as soon as there is anything to delete at all,
      runs past the last populated row. */
  lemma UnevenSharesStray(cfg: Config, n: nat)
    requires cfg.Valid() && cfg.processes > 1
    requires cfg.keys % cfg.processes != 0 && cfg.processes <= cfg.keys * cfg.keys
    requires n == cfg.keys * (cfg.keys / cfg.processes)
    ensures n < DeleteShare(cfg) && !Populated(cfg.keys, cfg.DeleteKey(cfg.processes - 1, n))
  {
    var k, s := cfg.keys, cfg.processes;
    var q, r := k / s, k % s;
    SquareSplits(k, s, q, r);
    RemainderCovers(k, s, q, r);
    assert s * (n + 1) == s * n + s;
    DivIsLargest(k * k, s, n + 1);
    DivModUnique(n, k, q, 0);
  }

  lemma NothingToShare(cfg: Config)
    requires cfg.Valid() && cfg.processes > 1
    ensures DeleteShare(cfg) == 0 <==> cfg.keys * cfg.keys < cfg.processes
  {
    DivIsLargest(cfg.keys * cfg.keys, cfg.processes, 1);
  }

  lemma SharesStay(cfg: Config)
    requires cfg.Valid() && (cfg.processes == 1 || cfg.keys % cfg.processes == 0)
    ensures DeletesStayPopulated(cfg, DeleteShare(cfg))
  {
    if DeleteShare(cfg) > 0 {
      if cfg.processes == 1 {
        SingleProcessStays(cfg);
      } else {
        EvenSharesStay(cfg);
      }
      DeletesStayPopulatedIff(cfg, DeleteShare(cfg));
    }
  }

  /** Every delete within its process's share hits a populated row exactly if there is a single
      process, the processes divide the key count evenly, or there is nothing to delete. */
  lemma SharesStayPopulatedIff(cfg: Config)
    requires cfg.Valid()
    ensures DeletesStayPopulated(cfg, DeleteShare(cfg))
       <==> cfg.processes == 1 || cfg.keys % cfg.processes == 0 || cfg.keys * cfg.keys < cfg.processes
  {
    if cfg.processes == 1 || cfg.keys % cfg.processes == 0 {
      SharesStay(cfg);
    } else {
      NothingToShare(cfg);
      if cfg.keys * cfg.keys >= cfg.processes {
        UnevenSharesStray(cfg, cfg.keys * (cfg.keys / cfg.processes));
      }
    }
  }

  // ------------------------------------------------------------------------
  // Runs in which every delete removes a row
  // ------------------------------------------------------------------------

  ghost predicate WithinLimit(cfg: Config, w: World, limit: nat)
    requires cfg.processes == |w.del|
  {
    forall p :: 0 <= p < cfg.processes ==> w.del[p] <= limit
  }

  /** The rows the delete cursors have not reached yet are all still there. */
  ghost predicate Undeleted(cfg: Config, w: World, limit: nat)
    requires cfg.Valid() && cfg.processes == |w.del|
  {
    forall p, n :: 0 <= p < cfg.processes && w.del[p] <= n < limit ==> cfg.DeleteKey(p, n) in w.table
  }

  lemma {:induction false} EveryDeleteRemoves(cfg: Config, w: World, ops: seq<Op>, limit: nat)
    requires cfg.Valid() && InitialWorld(cfg, w) && Schedule(cfg, ops)
    requires DeletesStayPopulated(cfg, limit) && WithinLimit(cfg, RunOps(cfg, w, ops), limit)
    ensures Undeleted(cfg, RunOps(cfg, w, ops), limit)
    ensures RunOps(cfg, w, ops).removed == Deletes(ops)
    ensures |RunOps(cfg, w, ops).table| == cfg.keys * cfg.keys + 1 + Inserts(ops) - Deletes(ops)
  {
    if ops != [] {
      var ops', op := ops[..|ops| - 1], ops[|ops| - 1];
      var mid := RunOps(cfg, w, ops');
      assert WithinLimit(cfg, mid, limit) by {
        assert forall q :: 0 <= q < cfg.processes ==> mid.del[q] <= RunOps(cfg, w, ops).del[q];
      }
      EveryDeleteRemoves(cfg, w, ops', limit);
      DeleteStep(cfg, mid, op, limit);
    }
    KeysNeverCollide(cfg, w, ops);
  }

  lemma DeleteStep(cfg: Config, w: World, op: Op, limit: nat)
    requires cfg.Valid() && op.p < cfg.processes == |w.ins| == |w.del|
    requires Undeleted(cfg, w, limit) && WithinLimit(cfg, Perform(cfg, w, op), limit)
    ensures Undeleted(cfg, Perform(cfg, w, op), limit)
    ensures Perform(cfg, w, op).removed == w.removed + if op.Delete? then 1 else 0
  {
    if op.Delete? {
      var w' := Perform(cfg, w, op);
      assert w'.del[op.p] <= limit;
      forall p, n | 0 <= p < cfg.processes && w'.del[p] <= n < limit ensures cfg.DeleteKey(p, n) in w'.table {
        if cfg.DeleteKey(p, n) == cfg.DeleteKey(op.p, w.del[op.p]) {
          KeyAtInjective(cfg, 0, p, n, op.p, w.del[op.p]);
        }
      }
    }
  }

  /** n deletes in a row by process p. */
  function DeleteRun(p: nat, n: nat): (ops: seq<Op>)
    ensures |ops| == n && forall i :: 0 <= i < n ==> ops[i] == Delete(p)
  {
    seq(n, _ => Delete(p))
  }

  lemma {:induction false} DeleteRunRemoves(cfg: Config, w: World, p: nat, n: nat)
    requires cfg.Valid() && InitialWorld(cfg, w) && p < cfg.processes
    ensures var r := RunOps(cfg, w, DeleteRun(p, n));
            && r.table <= w.table && r.del == w.del[p := n] && r.removed <= n == Deletes(DeleteRun(p, n))
            && (n > 0 && cfg.DeleteKey(p, n - 1) !in w.table ==> r.removed < n)
  {
    if n > 0 {
      DeleteRunRemoves(cfg, w, p, n - 1);
      assert DeleteRun(p, n)[..n - 1] == DeleteRun(p, n - 1);
    }
  }

  /** In every run with at most `limit` deletes per process every delete removes a row, if and
      only if the last process's last delete does. */
  lemma EveryDeleteRemovesIff(cfg: Config, w: World, limit: nat)
    requires cfg.Valid() && InitialWorld(cfg, w) && limit > 0
    ensures (forall ops :: Schedule(cfg, ops) && WithinLimit(cfg, RunOps(cfg, w, ops), limit) ==>
              RunOps(cfg, w, ops).removed == Deletes(ops))
       <==> LastRow(cfg, limit) < cfg.keys
  {
    DeletesStayPopulatedIff(cfg, limit);
    if LastRow(cfg, limit) < cfg.keys {
      forall ops | Schedule(cfg, ops) && WithinLimit(cfg, RunOps(cfg, w, ops), limit)
        ensures RunOps(cfg, w, ops).removed == Deletes(ops)
      {
        EveryDeleteRemoves(cfg, w, ops, limit);
      }
    } else {
      var p := cfg.processes - 1;
      DeleteRunRemoves(cfg, w, p, limit);
      assert cfg.DeleteKey(p, limit - 1).id == LastRow(cfg, limit);
      assert Schedule(cfg, DeleteRun(p, limit)) && WithinLimit(cfg, RunOps(cfg, w, DeleteRun(p, limit)), limit);
    }
  }
}
