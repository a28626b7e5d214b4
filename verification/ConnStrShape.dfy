/** Telling a DSN from a connection string by its looks (is_idchar, looks_like_dsn
    and looks_like_connstr of ttgetopt.c). */
module ConnStrShape {
  import opened CStrings

  predicate IsIdChar(c: char) {
    && c != '[' && c != ']' && c != '{' && c != '}' && c != '(' && c != ')' && c != ',' && c != ';'
    && c != '?' && c != '*' && c != '=' && c != '!' && c != '@' && c != '\\' && c != '/'
  }

  /** The characters that names and data sources must not contain. */
  lemma IdCharIff(c: char)
    ensures IsIdChar(c) <==> c !in "[]{}(),;?*=!@\\/"
  {
    var bad := "[]{}(),;?*=!@\\/";
    assert bad == "[]{}" + "()" + ",;" + "?*=!@" + "\\/";
  }

  predicate AllIdChars(s: string) {
    forall i :: 0 <= i < |s| ==> IsIdChar(s[i])
  }

  /** Identifier characters only, and not all of them blank. */
  ghost predicate IsDsn(s: string) {
    AllIdChars(s) && exists i :: 0 <= i < |s| && !IsSpace(s[i])
  }

  /** looks_like_dsn. */
  method LooksLikeDsn(opt: string) returns (r: bool)
    ensures r <==> IsDsn(opt)
  {
    var nNonblanks := 0;
    for p := 0 to |opt|
      invariant AllIdChars(opt[..p])
      invariant nNonblanks > 0 <==> exists i :: 0 <= i < p && !IsSpace(opt[i])
      invariant nNonblanks >= 0
    {
      if !IsIdChar(opt[p]) {
        return false;
      }
      if !IsSpace(opt[p]) {
        nNonblanks := nNonblanks + 1;
      }
    }
    assert opt[..|opt|] == opt;
    return nNonblanks > 0;
  }

  // ------------------------------------------------------------------------
  // Connection strings
  // ------------------------------------------------------------------------

  datatype Pair = Pair(name: string, value: string)

  ghost predicate ValidPair(p: Pair) {
    AllIdChars(p.name) && SemicolonFree(p.value)
  }

  /** name=value pairs separated by semicolons. */
  function Join(pairs: seq<Pair>): string
    requires pairs != []
  {
    var first := pairs[0].name + "=" + pairs[0].value;
    if |pairs| == 1 then first else first + ";" + Join(pairs[1..])
  }

  /** At least one pair, behind them an optional semicolon. */
  ghost predicate Derives(pairs: seq<Pair>, trailing: bool, s: string) {
    && pairs != [] && (forall i :: 0 <= i < |pairs| ==> ValidPair(pairs[i]))
    && s == Join(pairs) + if trailing then ";" else ""
  }

  ghost predicate IsConnStr(s: string) {
    exists leading, pairs, trailing :: LeadDerives(leading, pairs, trailing, s)
  }

  ghost predicate LeadDerives(leading: bool, pairs: seq<Pair>, trailing: bool, s: string) {
    if leading then s != "" && s[0] == ';' && Derives(pairs, trailing, s[1..]) else Derives(pairs, trailing, s)
  }

  /** Where the identifier that starts at p ends. */
  function IdEnd(s: string, p: nat): (n: nat)
    requires p <= |s|
    ensures p <= n <= |s|
    decreases |s| - p
  {
    if p < |s| && IsIdChar(s[p]) then IdEnd(s, p + 1) else p
  }

  /** The loop of the recogniser, from p on: a name, an equal sign, a value, and then
      the end of the text, a final semicolon, or another turn. */
  predicate Accepts(s: string, p: nat)
    requires p <= |s|
    decreases |s| - p
  {
    var eq := IdEnd(s, p);
    eq < |s| && s[eq] == '=' &&
    var end := Semicolon(s, eq + 1);
    end + 1 >= |s| || Accepts(s, end + 1)
  }

  /** A single leading semicolon is allowed. */
  function BodyStart(s: string): (p: nat)
    ensures p <= |s|
  {
    if s != "" && s[0] == ';' then 1 else 0
  }

  method SkipName(opt: string, start: nat) returns (p: nat)
    requires start <= |opt|
    ensures p == IdEnd(opt, start)
  {
    p := start;
    while p < |opt| && IsIdChar(opt[p])
      invariant p <= |opt| && IdEnd(opt, p) == IdEnd(opt, start)
    {
      p := p + 1;
    }
  }

  method SkipValue(opt: string, start: nat) returns (p: nat)
    requires start <= |opt|
    ensures p == Semicolon(opt, start)
  {
    p := start;
    while p < |opt| && opt[p] != ';'
      invariant p <= |opt| && Semicolon(opt, p) == Semicolon(opt, start)
    {
      p := p + 1;
    }
  }

  /** looks_like_connstr. */
  method LooksLikeConnstr(opt: string) returns (found: bool)
    ensures found <==> Accepts(opt, BodyStart(opt))
  {
    var p: nat := if |opt| > 0 && opt[0] == ';' then 1 else 0;
    ghost var accepted := Accepts(opt, p);
    while true
      invariant p <= |opt| && Accepts(opt, p) == accepted
      decreases |opt| - p
    {
      p := SkipName(opt, p);
      if p == |opt| || opt[p] != '=' {
        return false;
      }
      p := SkipValue(opt, p + 1);
      if p == |opt| || p + 1 == |opt| {
        return true;
      }
      p := p + 1;
    }
  }

  // ------------------------------------------------------------------------
  // Exactly the intended strings
  // ------------------------------------------------------------------------

  lemma {:induction false} IdEndIs(s: string, p: nat, n: nat)
    requires p <= n <= |s| && (n == |s| || !IsIdChar(s[n]))
    requires forall i :: p <= i < n ==> IsIdChar(s[i])
    ensures IdEnd(s, p) == n
    decreases n - p
  {
    if p < n {
      IdEndIs(s, p + 1, n);
    }
  }

  lemma {:induction false} IdEndFacts(s: string, p: nat)
    requires p <= |s|
    ensures forall i :: p <= i < IdEnd(s, p) ==> IsIdChar(s[i])
    decreases |s| - p
  {
    if p < |s| && IsIdChar(s[p]) {
      IdEndFacts(s, p + 1);
    }
  }

  /** The text from p on is a pair and then `rest`. */
  ghost predicate PairAt(s: string, p: nat, pair: Pair, rest: string) {
    p <= |s| && ValidPair(pair) && s[p..] == pair.name + "=" + pair.value + rest
  }

  /** Where a pair and its parts sit in the text. */
  lemma PairEnds(s: string, p: nat, pair: Pair, rest: string)
    requires PairAt(s, p, pair, rest) && (rest == "" || rest[0] == ';')
    ensures IdEnd(s, p) == p + |pair.name| < |s| && s[p + |pair.name|] == '='
    ensures Semicolon(s, p + |pair.name| + 1) == |s| - |rest|
  {
    var n, m := p + |pair.name|, |s| - |rest|;
    assert forall i :: p <= i < |s| ==> s[i] == (pair.name + "=" + pair.value + rest)[i - p];
    IdEndIs(s, p, n);
    SemicolonAt(s, n + 1, m);
  }

  lemma RestAt(s: string, p: nat, pair: Pair, rest: string)
    requires PairAt(s, p, pair, rest)
    ensures p + |pair.name| + 1 <= |s| - |rest| && s[|s| - |rest|..] == rest
  {
    var k := |pair.name| + 1 + |pair.value|;
    assert s[p..][k..] == rest;
  }

  lemma JoinSplits(pairs: seq<Pair>, tail: string)
    requires |pairs| > 1
    ensures Join(pairs) + tail == pairs[0].name + "=" + pairs[0].value + (";" + (Join(pairs[1..]) + tail))
  {
  }

  /** Several pairs: the first one, a semicolon, and the others. */
  lemma DerivesRest(pairs: seq<Pair>, trailing: bool, t: string) returns (rest: string)
    requires Derives(pairs, trailing, t) && |pairs| > 1
    ensures t == pairs[0].name + "=" + pairs[0].value + (";" + rest)
    ensures Derives(pairs[1..], trailing, rest)
  {
    rest := Join(pairs[1..]) + if trailing then ";" else "";
    JoinSplits(pairs, if trailing then ";" else "");
  }

  lemma AcceptsStep(s: string, p: nat, eq: nat, end: nat)
    requires p <= eq < end <= |s| && eq == IdEnd(s, p) && s[eq] == '=' && end == Semicolon(s, eq + 1)
    ensures Accepts(s, p) <==> end + 1 >= |s| || Accepts(s, end + 1)
  {
  }

  /** The last pair of a text, with or without a semicolon behind it. */
  lemma LastPairAccepted(s: string, p: nat, pair: Pair, tail: string)
    requires PairAt(s, p, pair, tail) && (tail == "" || tail == ";")
    ensures Accepts(s, p)
  {
    PairEnds(s, p, pair, tail);
    AcceptsStep(s, p, p + |pair.name|, |s| - |tail|);
  }

  lemma RestBehind(s: string, p: nat, pair: Pair, rest: string)
    requires PairAt(s, p, pair, ";" + rest)
    ensures p + 2 <= |s| - |rest| && s[|s| - |rest|..] == rest
  {
    RestAt(s, p, pair, ";" + rest);
    var end := |s| - |";" + rest|;
    assert s[end + 1..] == s[end..][1..] == rest;
  }

  lemma PairThenRest(s: string, p: nat, pair: Pair, rest: string)
    requires PairAt(s, p, pair, ";" + rest)
    requires |rest| <= |s| && (rest == "" || Accepts(s, |s| - |rest|))
    ensures Accepts(s, p)
  {
    PairEnds(s, p, pair, ";" + rest);
    AcceptsStep(s, p, p + |pair.name|, |s| - |rest| - 1);
  }

  lemma PairInFront(s: string, p: nat, pair: Pair, rest: string)
    requires p <= |s| && ValidPair(pair) && s[p..] == pair.name + "=" + pair.value + (";" + rest)
    ensures PairAt(s, p, pair, ";" + rest)
  {
  }

  lemma LonePairAt(pairs: seq<Pair>, trailing: bool, s: string, p: nat)
    requires p <= |s| && Derives(pairs, trailing, s[p..]) && |pairs| == 1
    ensures PairAt(s, p, pairs[0], if trailing then ";" else "")
  {
  }

  /** The other pairs derive the text from q on, and it is enough to accept that. */
  lemma FirstPairTaken(pairs: seq<Pair>, trailing: bool, s: string, p: nat) returns (q: nat)
    requires p <= |s| && Derives(pairs, trailing, s[p..]) && |pairs| > 1
    ensures q <= |s| && Derives(pairs[1..], trailing, s[q..])
    ensures Accepts(s, q) ==> Accepts(s, p)
  {
    var rest := DerivesRest(pairs, trailing, s[p..]);
    PairInFront(s, p, pairs[0], rest);
    RestBehind(s, p, pairs[0], rest);
    q := |s| - |rest|;
    if Accepts(s, q) {
      PairThenRest(s, p, pairs[0], rest);
    }
  }

  lemma {:induction false} DerivedIsAccepted(pairs: seq<Pair>, trailing: bool, s: string, p: nat)
    requires p <= |s| && Derives(pairs, trailing, s[p..])
    ensures Accepts(s, p)
    decreases |pairs|
  {
    if |pairs| == 1 {
      LonePairAt(pairs, trailing, s, p);
      LastPairAccepted(s, p, pairs[0], if trailing then ";" else "");
    } else {
      var q := FirstPairTaken(pairs, trailing, s, p);
      DerivedIsAccepted(pairs[1..], trailing, s, q);
    }
  }

  /** Taking a recognised pair apart. */
  lemma PairTaken(s: string, p: nat, eq: nat, end: nat) returns (pair: Pair)
    requires p <= |s| && eq == IdEnd(s, p) < |s| && s[eq] == '=' && end == Semicolon(s, eq + 1)
    ensures PairAt(s, p, pair, s[end..])
  {
    pair := Pair(s[p..eq], s[eq + 1..end]);
    IdEndFacts(s, p);
    SemicolonIsFirst(s, eq + 1);
    assert forall i :: 0 <= i < eq - p ==> pair.name[i] == s[p + i];
    assert forall i :: 0 <= i < end - eq - 1 ==> pair.value[i] == s[eq + 1 + i];
    assert s[p..] == s[p..eq] + "=" + s[eq + 1..end] + s[end..];
  }

  lemma JoinConses(pair: Pair, pairs: seq<Pair>, trailing: bool, rest: string)
    requires ValidPair(pair) && Derives(pairs, trailing, rest)
    ensures Derives([pair] + pairs, trailing, pair.name + "=" + pair.value + (";" + rest))
  {
    assert ([pair] + pairs)[1..] == pairs;
  }

  /** The first pair of an accepted text, and where it ends. */
  lemma AcceptedPair(s: string, p: nat) returns (pair: Pair, end: nat)
    requires p <= |s| && Accepts(s, p)
    ensures p < end <= |s| && PairAt(s, p, pair, s[end..])
    ensures end < |s| ==> s[end] == ';'
    ensures end + 1 < |s| ==> Accepts(s, end + 1)
  {
    var eq := IdEnd(s, p);
    end := Semicolon(s, eq + 1);
    pair := PairTaken(s, p, eq, end);
    SemicolonIsFirst(s, eq + 1);
  }

  lemma PairAlone(s: string, p: nat, pair: Pair, end: nat)
    requires end <= |s| <= end + 1 && PairAt(s, p, pair, s[end..]) && (end < |s| ==> s[end] == ';')
    ensures Derives([pair], end < |s|, s[p..])
  {
    assert s[end..] == if end < |s| then ";" else "";
  }

  lemma PairJoined(s: string, p: nat, pair: Pair, end: nat, pairs: seq<Pair>, trailing: bool)
    requires end < |s| && s[end] == ';' && PairAt(s, p, pair, s[end..]) && Derives(pairs, trailing, s[end + 1..])
    ensures Derives([pair] + pairs, trailing, s[p..])
  {
    assert s[end..] == ";" + s[end + 1..];
    JoinConses(pair, pairs, trailing, s[end + 1..]);
  }

  lemma {:induction false} AcceptedIsDerived(s: string, p: nat) returns (pairs: seq<Pair>, trailing: bool)
    requires p <= |s| && Accepts(s, p)
    ensures Derives(pairs, trailing, s[p..])
    decreases |s| - p
  {
    var pair, end := AcceptedPair(s, p);
    if end + 1 >= |s| {
      pairs, trailing := [pair], end < |s|;
      PairAlone(s, p, pair, end);
    } else {
      pairs, trailing := AcceptedIsDerived(s, end + 1);
      PairJoined(s, p, pair, end, pairs, trailing);
      pairs := [pair] + pairs;
    }
  }

  /** looks_like_connstr accepts exactly the strings of the form optional semicolon, one or more
      pairs separated by semicolons, optional semicolon. */
  lemma AcceptsIff(s: string)
    ensures Accepts(s, BodyStart(s)) <==> IsConnStr(s)
  {
    var p := BodyStart(s);
    assert s[0..] == s;
    if Accepts(s, p) {
      var pairs, trailing := AcceptedIsDerived(s, p);
      assert LeadDerives(p == 1, pairs, trailing, s);
    }
    if IsConnStr(s) {
      var leading, pairs, trailing :| LeadDerives(leading, pairs, trailing, s);
      if !leading {
        StartsWithPair(pairs, trailing, s);
      }
      DerivedIsAccepted(pairs, trailing, s, p);
    }
  }

  /** The first character of the first pair is an identifier character or the equal sign. */
  lemma StartsWithPair(pairs: seq<Pair>, trailing: bool, s: string)
    requires Derives(pairs, trailing, s)
    ensures s != "" && s[0] != ';' && '=' in s
  {
    var first := pairs[0];
    assert ValidPair(first);
    assert s[..|first.name| + 1] == first.name + "=";
    assert s[|first.name|] == '=';
    assert s[0] == (first.name + "=")[0];
  }

  /** No string looks like both, so the order of the two tests does not matter. */
  lemma NeverBoth(s: string)
    ensures !(IsDsn(s) && IsConnStr(s))
  {
    if IsConnStr(s) {
      var leading, pairs, trailing :| LeadDerives(leading, pairs, trailing, s);
      if leading {
        assert !IsIdChar(s[0]);
      } else {
        StartsWithPair(pairs, trailing, s);
      }
    }
  }
}
