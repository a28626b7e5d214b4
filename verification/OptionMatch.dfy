/** Looking up command-line options by name and by unique abbreviation in the sorted
    option array (make_sorted, exact_match and abbrev_match of ttgetopt.c). */
module OptionMatch {
  import opened CStrings
  import opened Wrappers

  // ------------------------------------------------------------------------
  // C string comparison
  // ------------------------------------------------------------------------

  /** strcmp(). */
  function StrCmp(a: string, b: string): int {
    if a == "" then if b == "" then 0 else -1
    else if b == "" then 1
    else if a[0] < b[0] then -1
    else if a[0] > b[0] then 1
    else StrCmp(a[1..], b[1..])
  }

  function Take(s: string, n: nat): string {
    if n < |s| then s[..n] else s
  }

  function Fold(s: string): (r: string)
    ensures |r| == |s|
  {
    seq(|s|, i requires 0 <= i < |s| => Lower(s[i]))
  }

  lemma {:induction false} StrCmpZero(a: string, b: string)
    ensures StrCmp(a, b) == 0 <==> a == b
  {
    if a != "" && b != "" && a[0] == b[0] {
      StrCmpZero(a[1..], b[1..]);
      assert a == [a[0]] + a[1..] && b == [b[0]] + b[1..];
    }
  }

  lemma {:induction false} StrCmpTransitive(a: string, b: string, c: string)
    requires StrCmp(a, b) <= 0 && StrCmp(b, c) <= 0
    ensures StrCmp(a, c) <= 0
    ensures StrCmp(a, b) < 0 || StrCmp(b, c) < 0 ==> StrCmp(a, c) < 0
  {
    if a != "" && b != "" && c != "" && a[0] == b[0] == c[0] {
      StrCmpTransitive(a[1..], b[1..], c[1..]);
    }
  }

  lemma {:induction false} StrCmpFlip(a: string, b: string)
    ensures StrCmp(a, b) == -StrCmp(b, a)
  {
    if a != "" && b != "" && a[0] == b[0] {
      StrCmpFlip(a[1..], b[1..]);
    }
  }

  /** Cutting two strings to the same length keeps their order. */
  lemma {:induction false} TakeMonotone(a: string, b: string, n: nat)
    requires StrCmp(a, b) <= 0
    ensures StrCmp(Take(a, n), Take(b, n)) <= 0
  {
    if n > 0 && a != "" && b != "" && a[0] == b[0] {
      TakeMonotone(a[1..], b[1..], n - 1);
      assert Take(a, n)[1..] == Take(a[1..], n - 1) && Take(b, n)[1..] == Take(b[1..], n - 1);
    }
  }

  // ------------------------------------------------------------------------
  // Options
  // ------------------------------------------------------------------------

  /** Names in strcmp() order. */
  ghost predicate Sorted(names: seq<string>) {
    forall i, j :: 0 <= i <= j < |names| ==> StrCmp(names[i], names[j]) <= 0
  }

  /** What strncmp() or strncasecmp() looks at. */
  function Seen(caseSensitive: bool, s: string): string {
    if caseSensitive then s else Fold(s)
  }

  /** The comparison function of abbrev_match. */
  function Compare(caseSensitive: bool, opt: string, name: string): int {
    StrCmp(Seen(caseSensitive, opt), Seen(caseSensitive, Take(name, |opt|)))
  }

  ghost predicate Abbreviates(caseSensitive: bool, opt: string, name: string) {
    Seen(caseSensitive, opt) <= Seen(caseSensitive, name)
  }

  lemma CompareZero(caseSensitive: bool, opt: string, name: string)
    ensures Compare(caseSensitive, opt, name) == 0 <==> Abbreviates(caseSensitive, opt, name)
  {
    StrCmpZero(Seen(caseSensitive, opt), Seen(caseSensitive, Take(name, |opt|)));
    if |opt| <= |name| {
      assert Seen(caseSensitive, Take(name, |opt|)) == Seen(caseSensitive, name)[..|opt|];
    }
  }

  /** The array is in the order the comparison function needs: always so in case-sensitive mode. */
  ghost predicate SearchOrder(caseSensitive: bool, names: seq<string>) {
    forall i, j :: 0 <= i <= j < |names| ==> StrCmp(Seen(caseSensitive, names[i]), Seen(caseSensitive, names[j])) <= 0
  }

  predicate NoUpperCase(s: string) {
    forall i :: 0 <= i < |s| ==> !('A' <= s[i] <= 'Z')
  }

  /** If no stored name has an upper-case letter, the two orders are the same. */
  lemma LowerCaseOrder(names: seq<string>)
    requires Sorted(names) && forall i :: 0 <= i < |names| ==> NoUpperCase(names[i])
    ensures SearchOrder(false, names)
  {
    forall i | 0 <= i < |names| ensures Fold(names[i]) == names[i] {
    }
  }

  lemma SeenTake(caseSensitive: bool, s: string, n: nat)
    ensures Seen(caseSensitive, Take(s, n)) == Take(Seen(caseSensitive, s), n)
  {
  }

  /** A text that shortens a but not b compares with b as a does. */
  lemma {:induction false} ShortComparesAlike(p: string, a: string, b: string)
    requires p <= a && !(p <= b)
    ensures StrCmp(p, Take(b, |p|)) < 0 <==> StrCmp(a, b) < 0
    ensures StrCmp(p, Take(b, |p|)) > 0 <==> StrCmp(a, b) > 0
  {
    assert p != "" && a[0] == p[0];
    if b != "" && a[0] == b[0] {
      assert p == [p[0]] + p[1..] && b == [b[0]] + b[1..];
      ShortComparesAlike(p[1..], a[1..], b[1..]);
      assert Take(b, |p|)[1..] == Take(b[1..], |p| - 1);
    }
  }

  /** A prefix of two names is one of every name between them. */
  lemma PrefixBetween(p: string, a: string, b: string, c: string)
    requires p <= a && p <= c && StrCmp(a, b) <= 0 && StrCmp(b, c) <= 0
    ensures p <= b
  {
    var cut := Take(b, |p|);
    TakeMonotone(a, b, |p|);
    TakeMonotone(b, c, |p|);
    assert Take(a, |p|) == p && Take(c, |p|) == p;
    StrCmpFlip(cut, p);
    StrCmpZero(cut, p);
  }

  /** The longest common prefix. */
  function Common(a: string, b: string): (p: string)
    ensures p <= a && p <= b
  {
    if a == "" || b == "" || a[0] != b[0] then "" else [a[0]] + Common(a[1..], b[1..])
  }

  lemma {:induction false} CommonIsLongest(p: string, a: string, b: string)
    requires p <= a && p <= b
    ensures p <= Common(a, b)
  {
    if p != "" {
      assert a[0] == p[0] == b[0];
      CommonIsLongest(p[1..], a[1..], b[1..]);
    }
  }

  // ------------------------------------------------------------------------
  // Binary search for a unique abbreviation
  // ------------------------------------------------------------------------

  /** What the comparison function says about every name. */
  function Compared(cmpfunc: string -> int, names: seq<string>): seq<int> {
    seq(|names|, i requires 0 <= i < |names| => cmpfunc(names[i]))
  }

  /** How the text compares with every name. */
  function Comparisons(caseSensitive: bool, opt: string, names: seq<string>): seq<int> {
    seq(|names|, i requires 0 <= i < |names| => Compare(caseSensitive, opt, names[i]))
  }

  predicate NeighbourMatches(cmps: seq<int>, mid: nat)
    requires mid < |cmps|
  {
    (mid > 0 && cmps[mid - 1] == 0) || (mid + 1 < |cmps| && cmps[mid + 1] == 0)
  }

  /** The search between lo and hi: an index for a match without matching neighbours. */
  function Search(cmps: seq<int>, lo: int, hi: int): (r: Option<nat>)
    requires 0 <= lo <= hi + 1 <= |cmps|
    ensures r.Some? ==> lo <= r.value <= hi
    decreases hi - lo + 1
  {
    if lo > hi then None
    else
      var mid := (lo + hi) / 2;
      if cmps[mid] < 0 then Search(cmps, lo, mid - 1)
      else if cmps[mid] > 0 then Search(cmps, mid + 1, hi)
      else if NeighbourMatches(cmps, mid) then None
      else Some(mid)
  }

  function Found(caseSensitive: bool, opt: string, names: seq<string>): Option<nat> {
    Search(Comparisons(caseSensitive, opt, names), 0, |names| - 1)
  }

  /** The test of both neighbours of a match. */
  method TestNeighbours(sorted: array<string>, cmpfunc: string -> int, mid: nat) returns (ambiguous: bool)
    requires mid < sorted.Length
    ensures ambiguous <==> NeighbourMatches(Compared(cmpfunc, sorted[..]), mid)
  {
    ambiguous := mid > 0 && cmpfunc(sorted[mid - 1]) == 0;
    if !ambiguous && mid < sorted.Length - 1 {
      ambiguous := cmpfunc(sorted[mid + 1]) == 0;
    }
  }

  /** The binary search of abbrev_match, for either comparison function. */
  method SearchSorted(sorted: array<string>, cmpfunc: string -> int) returns (r: Option<nat>)
    ensures r == Search(Compared(cmpfunc, sorted[..]), 0, sorted.Length - 1)
  {
    ghost var cmps := Compared(cmpfunc, sorted[..]);
    var lo, hi := 0, sorted.Length - 1;
    while lo <= hi
      invariant 0 <= lo <= hi + 1 <= sorted.Length
      invariant Search(cmps, lo, hi) == Search(cmps, 0, sorted.Length - 1)
      decreases hi - lo
    {
      var mid := (lo + hi) / 2;
      var cmp := cmpfunc(sorted[mid]);
      if cmp < 0 {
        hi := mid - 1;
      } else if cmp > 0 {
        lo := mid + 1;
      } else {
        var ambiguous := TestNeighbours(sorted, cmpfunc, mid);
        return if ambiguous then None else Some(mid);
      }
    }
    return None;
  }

  /** abbrev_match: the index of the matching option, None for no match or an ambiguous one. */
  method AbbrevMatch(sorted: array<string>, caseSensitive: bool, opt: string) returns (r: Option<nat>)
    ensures r == Found(caseSensitive, opt, sorted[..])
  {
    var cmpfunc := name => Compare(caseSensitive, opt, name);
    assert Compared(cmpfunc, sorted[..]) == Comparisons(caseSensitive, opt, sorted[..]);
    r := SearchSorted(sorted, cmpfunc);
  }

  /** Probing m, the search turns towards j. */
  predicate Towards(cmp: int, m: int, j: int) {
    (j < m && cmp < 0) || (m < j && cmp > 0)
  }

  /** On its way to j a binary search between lo and hi probes m first. */
  predicate Probed(lo: int, hi: int, j: int, m: int)
    requires 0 <= lo
    ensures Probed(lo, hi, j, m) ==> lo <= m <= hi && m != j
    decreases hi - lo + 1
  {
    lo <= hi &&
    var mid := (lo + hi) / 2;
    mid != j && (m == mid || if j < mid then Probed(lo, mid - 1, j, m) else Probed(mid + 1, hi, j, m))
  }

  /** Every probe on the way to j turns the search towards it. */
  ghost predicate Led(cmps: seq<int>, lo: int, hi: int, j: nat)
    requires 0 <= lo && hi < |cmps|
  {
    forall m :: Probed(lo, hi, j, m) ==> Towards(cmps[m], m, j)
  }

  lemma LedStep(cmps: seq<int>, lo: int, hi: int, j: nat)
    requires 0 <= lo <= j <= hi < |cmps| && j != (lo + hi) / 2
    ensures var mid := (lo + hi) / 2;
            Led(cmps, lo, hi, j) <==>
              Towards(cmps[mid], mid, j) && if j < mid then Led(cmps, lo, mid - 1, j) else Led(cmps, mid + 1, hi, j)
  {
    var mid := (lo + hi) / 2;
    assert Probed(lo, hi, j, mid);
    if j < mid {
      assert forall m :: Probed(lo, hi, j, m) <==> m == mid || Probed(lo, mid - 1, j, m);
    } else {
      assert forall m :: Probed(lo, hi, j, m) <==> m == mid || Probed(mid + 1, hi, j, m);
    }
  }

  /** The search returns j exactly if it is led to j, and j matches and its neighbours do not. */
  lemma {:induction false} SearchReturns(cmps: seq<int>, lo: int, hi: int, j: nat)
    requires 0 <= lo <= j <= hi < |cmps|
    ensures Search(cmps, lo, hi) == Some(j) <==> Led(cmps, lo, hi, j) && cmps[j] == 0 && !NeighbourMatches(cmps, j)
    decreases hi - lo
  {
    var mid := (lo + hi) / 2;
    if j < mid {
      LedStep(cmps, lo, hi, j);
      SearchReturns(cmps, lo, mid - 1, j);
    } else if j > mid {
      LedStep(cmps, lo, hi, j);
      SearchReturns(cmps, mid + 1, hi, j);
    }
  }

  /** The one option that opt abbreviates. */
  ghost predicate UniqueMatch(caseSensitive: bool, opt: string, names: seq<string>, k: nat) {
    && k < |names|
    && Abbreviates(caseSensitive, opt, names[k])
    && forall i :: 0 <= i < |names| && i != k ==> !Abbreviates(caseSensitive, opt, names[i])
  }

  // ------------------------------------------------------------------------
  // When is every text answered correctly?
  // ------------------------------------------------------------------------

  /** Looking for the whole name j, every probe turns towards it. */
  ghost predicate Reached(caseSensitive: bool, names: seq<string>, j: nat)
    requires j < |names|
  {
    forall m :: Probed(0, |names| - 1, j, m) ==>
      Towards(StrCmp(Seen(caseSensitive, names[j]), Seen(caseSensitive, names[m])), m, j)
  }

  /** The names the search has looked at when it returns j. */
  predicate Near(n: nat, j: nat, w: int) {
    0 <= w < n && (Probed(0, n - 1, j, w) || w == j - 1 || w == j + 1)
  }

  /** Name j is not itself an abbreviation of another name. */
  ghost predicate StandsOut(caseSensitive: bool, names: seq<string>, j: nat)
    requires j < |names|
  {
    forall i :: 0 <= i < |names| && i != j ==> !Abbreviates(caseSensitive, names[j], names[i])
  }

  /** What name j has in common with another name it has in common with one the search looks at. */
  ghost predicate RivalsNear(caseSensitive: bool, names: seq<string>, j: nat)
    requires j < |names|
  {
    forall i :: 0 <= i < |names| && i != j ==> RivalNear(caseSensitive, names, j, i)
  }

  ghost predicate RivalNear(caseSensitive: bool, names: seq<string>, j: nat, i: nat)
    requires j < |names| && i < |names|
  {
    exists w :: Near(|names|, j, w) &&
      Common(Seen(caseSensitive, names[j]), Seen(caseSensitive, names[i])) <= Seen(caseSensitive, names[w])
  }

  /** A condition on the array alone. */
  ghost predicate Searchable(caseSensitive: bool, names: seq<string>) {
    forall j :: 0 <= j < |names| ==>
      && (StandsOut(caseSensitive, names, j) ==> Reached(caseSensitive, names, j))
      && (Reached(caseSensitive, names, j) ==> RivalsNear(caseSensitive, names, j))
  }

  /** On the way to a name that opt abbreviates, a name that it does not abbreviate turns the
      search as the whole name would. */
  lemma ProbeLikeName(caseSensitive: bool, opt: string, names: seq<string>, j: nat, m: nat)
    requires j < |names| && m < |names|
    requires Abbreviates(caseSensitive, opt, names[j]) && !Abbreviates(caseSensitive, opt, names[m])
    ensures Towards(Compare(caseSensitive, opt, names[m]), m, j)
       <==> Towards(StrCmp(Seen(caseSensitive, names[j]), Seen(caseSensitive, names[m])), m, j)
  {
    SeenTake(caseSensitive, names[m], |opt|);
    ShortComparesAlike(Seen(caseSensitive, opt), Seen(caseSensitive, names[j]), Seen(caseSensitive, names[m]));
  }

  ghost predicate NoneProbed(caseSensitive: bool, opt: string, names: seq<string>, j: nat) {
    forall m :: Probed(0, |names| - 1, j, m) ==> !Abbreviates(caseSensitive, opt, names[m])
  }

  /** If opt abbreviates none of the names probed, the comparisons lead to name j exactly if the whole name would. */
  lemma LedLikeName(caseSensitive: bool, opt: string, names: seq<string>, j: nat)
    requires j < |names| && Abbreviates(caseSensitive, opt, names[j])
    requires NoneProbed(caseSensitive, opt, names, j)
    ensures Led(Comparisons(caseSensitive, opt, names), 0, |names| - 1, j) <==> Reached(caseSensitive, names, j)
  {
    var cmps := Comparisons(caseSensitive, opt, names);
    forall m | Probed(0, |names| - 1, j, m)
      ensures Towards(cmps[m], m, j)
         <==> Towards(StrCmp(Seen(caseSensitive, names[j]), Seen(caseSensitive, names[m])), m, j)
    {
      ProbeLikeName(caseSensitive, opt, names, j, m);
    }
  }

  /** opt abbreviates none of the names the search has looked at when it returns j. */
  ghost predicate NoneNear(caseSensitive: bool, opt: string, names: seq<string>, j: nat) {
    forall w :: Near(|names|, j, w) ==> !Abbreviates(caseSensitive, opt, names[w])
  }

  ghost predicate NeighbourAbbreviated(caseSensitive: bool, opt: string, names: seq<string>, j: nat)
    requires j < |names|
  {
    || (j > 0 && Abbreviates(caseSensitive, opt, names[j - 1]))
    || (j + 1 < |names| && Abbreviates(caseSensitive, opt, names[j + 1]))
  }

  lemma NeighboursIff(caseSensitive: bool, opt: string, names: seq<string>, j: nat)
    requires j < |names|
    ensures NeighbourMatches(Comparisons(caseSensitive, opt, names), j)
       <==> NeighbourAbbreviated(caseSensitive, opt, names, j)
  {
    if j > 0 {
      CompareZero(caseSensitive, opt, names[j - 1]);
    }
    if j + 1 < |names| {
      CompareZero(caseSensitive, opt, names[j + 1]);
    }
  }

  lemma NoneNearIff(caseSensitive: bool, opt: string, names: seq<string>, j: nat)
    requires j < |names|
    ensures NoneNear(caseSensitive, opt, names, j)
       <==> NoneProbed(caseSensitive, opt, names, j) && !NeighbourAbbreviated(caseSensitive, opt, names, j)
  {
    if NoneNear(caseSensitive, opt, names, j) {
      assert forall m :: Probed(0, |names| - 1, j, m) ==> Near(|names|, j, m);
      assert j > 0 ==> Near(|names|, j, j - 1);
      assert j + 1 < |names| ==> Near(|names|, j, j + 1);
    }
  }

  lemma LedMeetsNoMatch(caseSensitive: bool, opt: string, names: seq<string>, j: nat)
    requires j < |names| && Led(Comparisons(caseSensitive, opt, names), 0, |names| - 1, j)
    ensures NoneProbed(caseSensitive, opt, names, j)
  {
    forall m | Probed(0, |names| - 1, j, m) ensures !Abbreviates(caseSensitive, opt, names[m]) {
      CompareZero(caseSensitive, opt, names[m]);
      assert Towards(Comparisons(caseSensitive, opt, names)[m], m, j);
    }
  }

  lemma FoundIsLed(caseSensitive: bool, opt: string, names: seq<string>, j: nat)
    requires j < |names|
    ensures Found(caseSensitive, opt, names) == Some(j)
       <==> && Abbreviates(caseSensitive, opt, names[j]) && NoneNear(caseSensitive, opt, names, j)
            && Led(Comparisons(caseSensitive, opt, names), 0, |names| - 1, j)
  {
    SearchReturns(Comparisons(caseSensitive, opt, names), 0, |names| - 1, j);
    CompareZero(caseSensitive, opt, names[j]);
    NeighboursIff(caseSensitive, opt, names, j);
    NoneNearIff(caseSensitive, opt, names, j);
    if Led(Comparisons(caseSensitive, opt, names), 0, |names| - 1, j) {
      LedMeetsNoMatch(caseSensitive, opt, names, j);
    }
  }

  /** The search returns j exactly if opt abbreviates name j and none of the names looked at,
      and the whole name would be reached. */
  lemma FoundReturns(caseSensitive: bool, opt: string, names: seq<string>, j: nat)
    requires j < |names|
    ensures Found(caseSensitive, opt, names) == Some(j)
       <==> && Abbreviates(caseSensitive, opt, names[j]) && NoneNear(caseSensitive, opt, names, j)
            && Reached(caseSensitive, names, j)
  {
    FoundIsLed(caseSensitive, opt, names, j);
    if Abbreviates(caseSensitive, opt, names[j]) && NoneNear(caseSensitive, opt, names, j) {
      NoneNearIff(caseSensitive, opt, names, j);
      LedLikeName(caseSensitive, opt, names, j);
    }
  }

  ghost predicate AlwaysRight(caseSensitive: bool, names: seq<string>) {
    forall opt, k: nat :: Found(caseSensitive, opt, names) == Some(k) <==> UniqueMatch(caseSensitive, opt, names, k)
  }

  lemma SearchableIsRight(caseSensitive: bool, opt: string, names: seq<string>, k: nat)
    requires Searchable(caseSensitive, names)
    ensures Found(caseSensitive, opt, names) == Some(k) <==> UniqueMatch(caseSensitive, opt, names, k)
  {
    if k < |names| {
      FoundReturns(caseSensitive, opt, names, k);
      if UniqueMatch(caseSensitive, opt, names, k) {
        assert StandsOut(caseSensitive, names, k);
      } else if Found(caseSensitive, opt, names) == Some(k) {
        var i :| 0 <= i < |names| && i != k && Abbreviates(caseSensitive, opt, names[i]);
        assert RivalNear(caseSensitive, names, k, i);
        CommonIsLongest(Seen(caseSensitive, opt), Seen(caseSensitive, names[k]), Seen(caseSensitive, names[i]));
        assert false;
      }
    }
  }

  lemma RightIsSearchable(caseSensitive: bool, names: seq<string>, j: nat)
    requires AlwaysRight(caseSensitive, names) && j < |names|
    ensures StandsOut(caseSensitive, names, j) ==> Reached(caseSensitive, names, j)
    ensures Reached(caseSensitive, names, j) ==> RivalsNear(caseSensitive, names, j)
  {
    if StandsOut(caseSensitive, names, j) {
      assert UniqueMatch(caseSensitive, names[j], names, j);
      FoundReturns(caseSensitive, names[j], names, j);
    }
    if Reached(caseSensitive, names, j) {
      forall i | 0 <= i < |names| && i != j ensures RivalNear(caseSensitive, names, j, i) {
        // the text that both names share
        var shared := Common(Seen(caseSensitive, names[j]), Seen(caseSensitive, names[i]));
        var opt := Take(names[j], |shared|);
        SeenTake(caseSensitive, names[j], |shared|);
        assert Seen(caseSensitive, opt) == shared;
        FoundReturns(caseSensitive, opt, names, j);
        assert !UniqueMatch(caseSensitive, opt, names, j);
      }
    }
  }

  /** abbrev_match answers every text correctly, that is, it finds the one option that the text
      abbreviates and nothing else, if and only if the array meets the condition. */
  lemma AlwaysRightIff(caseSensitive: bool, names: seq<string>)
    ensures AlwaysRight(caseSensitive, names) <==> Searchable(caseSensitive, names)
  {
    if Searchable(caseSensitive, names) {
      forall opt, k: nat
        ensures Found(caseSensitive, opt, names) == Some(k) <==> UniqueMatch(caseSensitive, opt, names, k)
      {
        SearchableIsRight(caseSensitive, opt, names, k);
      }
    }
    if AlwaysRight(caseSensitive, names) {
      forall j | 0 <= j < |names|
        ensures StandsOut(caseSensitive, names, j) ==> Reached(caseSensitive, names, j)
        ensures Reached(caseSensitive, names, j) ==> RivalsNear(caseSensitive, names, j)
      {
        RightIsSearchable(caseSensitive, names, j);
      }
    }
  }

  lemma OrderReaches(caseSensitive: bool, names: seq<string>, j: nat)
    requires SearchOrder(caseSensitive, names) && j < |names| && StandsOut(caseSensitive, names, j)
    ensures Reached(caseSensitive, names, j)
  {
    var name := Seen(caseSensitive, names[j]);
    forall m | Probed(0, |names| - 1, j, m) ensures Towards(StrCmp(name, Seen(caseSensitive, names[m])), m, j) {
      StrCmpFlip(name, Seen(caseSensitive, names[m]));
      StrCmpZero(name, Seen(caseSensitive, names[m]));
      assert !Abbreviates(caseSensitive, names[j], names[m]);
    }
  }

  lemma OrderIsNear(caseSensitive: bool, names: seq<string>, j: nat, i: nat)
    requires SearchOrder(caseSensitive, names) && j < |names| && i < |names| && i != j
    ensures RivalNear(caseSensitive, names, j, i)
  {
    var name, other := Seen(caseSensitive, names[j]), Seen(caseSensitive, names[i]);
    var w := if i < j then j - 1 else j + 1;
    assert Near(|names|, j, w);
    if i < j {
      PrefixBetween(Common(name, other), other, Seen(caseSensitive, names[w]), name);
    } else {
      PrefixBetween(Common(name, other), name, Seen(caseSensitive, names[w]), other);
    }
  }

  /** An array in the order of the comparison function meets the condition. */
  lemma OrderIsSearchable(caseSensitive: bool, names: seq<string>)
    requires SearchOrder(caseSensitive, names)
    ensures Searchable(caseSensitive, names)
  {
    forall j | 0 <= j < |names|
      ensures StandsOut(caseSensitive, names, j) ==> Reached(caseSensitive, names, j)
      ensures RivalsNear(caseSensitive, names, j)
    {
      if StandsOut(caseSensitive, names, j) {
        OrderReaches(caseSensitive, names, j);
      }
      forall i | 0 <= i < |names| && i != j ensures RivalNear(caseSensitive, names, j, i) {
        OrderIsNear(caseSensitive, names, j, i);
      }
    }
  }

  /** In that order the search finds exactly the one option that the text abbreviates. */
  lemma FoundIff(caseSensitive: bool, opt: string, names: seq<string>, k: nat)
    requires SearchOrder(caseSensitive, names)
    ensures Found(caseSensitive, opt, names) == Some(k) <==> UniqueMatch(caseSensitive, opt, names, k)
  {
    OrderIsSearchable(caseSensitive, names);
    SearchableIsRight(caseSensitive, opt, names, k);
  }

  // ------------------------------------------------------------------------
  // From the declared options to the sorted array
  // ------------------------------------------------------------------------

  /** How a name is stored, and how a text is compared with stored names: single
      characters are never converted to lower case. */
  function Normal(caseSensitive: bool, s: string): string {
    if caseSensitive || |s| == 1 then s else Fold(s)
  }

  /** Special options such as <DSN> are not searched for by name. */
  predicate IsNormalOption(s: string) {
    s == "" || s[0] != '<'
  }

  function StoredNames(caseSensitive: bool, declared: seq<string>): seq<string> {
    if declared == [] then []
    else
      var name := Normal(caseSensitive, declared[|declared| - 1]);
      StoredNames(caseSensitive, declared[..|declared| - 1]) + if IsNormalOption(name) then [name] else []
  }

  /** What make_sorted leaves behind: all normal options, sorted by the C library. */
  ghost predicate SortedArrayOf(caseSensitive: bool, declared: seq<string>, names: seq<string>) {
    Sorted(names) && multiset(names) == multiset(StoredNames(caseSensitive, declared))
  }

  lemma {:induction false} StoredIsDeclared(caseSensitive: bool, declared: seq<string>, name: string)
    ensures name in StoredNames(caseSensitive, declared)
       <==> IsNormalOption(name) && exists d :: d in declared && Normal(caseSensitive, d) == name
  {
    if declared != [] {
      var front, d := declared[..|declared| - 1], declared[|declared| - 1];
      StoredIsDeclared(caseSensitive, front, name);
      assert declared == front + [d];
      assert d in declared;
    }
  }

  lemma {:induction false} StoredIsLowerCase(declared: seq<string>, name: string)
    requires forall d :: d in declared && |d| == 1 ==> NoUpperCase(d)
    requires name in StoredNames(false, declared)
    ensures NoUpperCase(name)
  {
    var front, d := declared[..|declared| - 1], declared[|declared| - 1];
    if name == Normal(false, d) {
      assert d in declared;
    } else {
      StoredIsLowerCase(front, name);
    }
  }

  /** No option is a single upper-case letter. */
  ghost predicate NoUpperLetter(declared: seq<string>) {
    forall d :: d in declared && |d| == 1 ==> NoUpperCase(d)
  }

  lemma ArrayIsOrdered(caseSensitive: bool, declared: seq<string>, names: seq<string>)
    requires SortedArrayOf(caseSensitive, declared, names)
    requires caseSensitive || NoUpperLetter(declared)
    ensures SearchOrder(caseSensitive, names)
  {
    if !caseSensitive {
      forall i | 0 <= i < |names| ensures NoUpperCase(names[i]) {
        assert names[i] in multiset(names);
        StoredIsLowerCase(declared, names[i]);
      }
      LowerCaseOrder(names);
    }
  }

  /** Puts a name into its place. */
  function Insert(name: string, names: seq<string>): seq<string> {
    if names == [] || StrCmp(name, names[0]) <= 0 then [name] + names else [names[0]] + Insert(name, names[1..])
  }

  function SortNames(names: seq<string>): seq<string> {
    if names == [] then [] else Insert(names[|names| - 1], SortNames(names[..|names| - 1]))
  }

  lemma {:induction false} InsertSorts(name: string, names: seq<string>)
    requires Sorted(names)
    ensures Sorted(Insert(name, names)) && multiset(Insert(name, names)) == multiset(names) + multiset{name}
  {
    if names != [] && StrCmp(name, names[0]) > 0 {
      var rest := Insert(name, names[1..]);
      InsertSorts(name, names[1..]);
      assert names == [names[0]] + names[1..];
      StrCmpFlip(name, names[0]);
      forall i | 0 <= i < |rest| ensures StrCmp(names[0], rest[i]) <= 0 {
        assert rest[i] in multiset(rest);
        assert rest[i] == name || rest[i] in names[1..];
      }
    } else if names != [] {
      StrCmpZero(name, name);
      forall i | 0 <= i < |names| ensures StrCmp(name, names[i]) <= 0 {
        StrCmpTransitive(name, names[0], names[i]);
      }
    } else {
      StrCmpZero(name, name);
    }
  }

  lemma {:induction false} SortNamesSorts(names: seq<string>)
    ensures Sorted(SortNames(names)) && multiset(SortNames(names)) == multiset(names)
  {
    if names != [] {
      var front, name := names[..|names| - 1], names[|names| - 1];
      SortNamesSorts(front);
      InsertSorts(name, SortNames(front));
      assert names == front + [name];
    }
  }

  lemma LastIsLargest(a: seq<string>, b: seq<string>)
    requires Sorted(a) && Sorted(b) && multiset(a) == multiset(b) && a != [] && b != []
    ensures a[|a| - 1] == b[|b| - 1]
  {
    var x, y := a[|a| - 1], b[|b| - 1];
    assert x in multiset(b) && y in multiset(a);
    assert StrCmp(x, y) <= 0 && StrCmp(y, x) <= 0;
    StrCmpFlip(x, y);
    StrCmpZero(x, y);
  }

  lemma FrontsAgree(a: seq<string>, b: seq<string>)
    requires multiset(a) == multiset(b) && a != [] && b != [] && a[|a| - 1] == b[|b| - 1]
    ensures multiset(a[..|a| - 1]) == multiset(b[..|b| - 1])
  {
    var x := a[|a| - 1];
    assert a == a[..|a| - 1] + [x] && b == b[..|b| - 1] + [x];
    assert multiset(a[..|a| - 1]) == multiset(a) - multiset{x};
    assert multiset(b[..|b| - 1]) == multiset(b) - multiset{x};
  }

  lemma FrontAndLast(a: seq<string>, b: seq<string>)
    requires a != [] && b != [] && a[..|a| - 1] == b[..|b| - 1] && a[|a| - 1] == b[|b| - 1]
    ensures a == b
  {
    assert a == a[..|a| - 1] + [a[|a| - 1]] && b == b[..|b| - 1] + [b[|b| - 1]];
  }

  /** There is one way to sort. */
  lemma {:induction false} SortedUnique(a: seq<string>, b: seq<string>)
    requires Sorted(a) && Sorted(b) && multiset(a) == multiset(b)
    ensures a == b
  {
    assert |a| == |multiset(a)| == |multiset(b)| == |b|;
    if a != [] {
      LastIsLargest(a, b);
      FrontsAgree(a, b);
      SortedUnique(a[..|a| - 1], b[..|b| - 1]);
      FrontAndLast(a, b);
    }
  }

  /** The condition on the declared options: the array they are sorted into is searchable. */
  ghost predicate DeclaredSearchable(caseSensitive: bool, declared: seq<string>) {
    Searchable(caseSensitive, SortNames(StoredNames(caseSensitive, declared)))
  }

  /** abbrev_match on the array of the declared options: it answers every text correctly if and only if the options
      meet the condition, and they do in case-sensitive mode and if none is a single upper-case letter. */
  lemma AbbrevMatchCorrect(caseSensitive: bool, declared: seq<string>, names: seq<string>)
    requires SortedArrayOf(caseSensitive, declared, names)
    ensures AlwaysRight(caseSensitive, names) <==> DeclaredSearchable(caseSensitive, declared)
    ensures caseSensitive || NoUpperLetter(declared) ==> DeclaredSearchable(caseSensitive, declared)
  {
    SortNamesSorts(StoredNames(caseSensitive, declared));
    SortedUnique(names, SortNames(StoredNames(caseSensitive, declared)));
    AlwaysRightIff(caseSensitive, names);
    if caseSensitive || NoUpperLetter(declared) {
      ArrayIsOrdered(caseSensitive, declared, names);
      OrderIsSearchable(caseSensitive, names);
    }
  }

  lemma StoredExample()
    ensures SortedArrayOf(false, ["Z", "abort"], ["Z", "abort"])
  {
    var names := ["Z", "abort"];
    assert Normal(false, "abort") == "abort" && Normal(false, "Z") == "Z";
    assert names[..1] == ["Z"] && names[..1][..0] == [];
    assert StoredNames(false, names[..1]) == [] + ["Z"];
    assert StoredNames(false, names) == [] + ["Z"] + ["abort"] == names;
    StrCmpZero("Z", "Z");
    StrCmpZero("abort", "abort");
  }

  lemma UniqueExample()
    ensures UniqueMatch(false, "abo", ["Z", "abort"], 1)
  {
    assert Fold("abo") == "abo" && Fold("abort") == "abort" && Fold("Z") == "z";
  }

  lemma SearchExample()
    ensures Found(false, "abo", ["Z", "abort"]) == None
  {
    assert Fold("abo") == "abo" && Fold("Z") == "z" && Take("Z", 3) == "Z";
    assert StrCmp("abo", "z") == -1;
    assert Comparisons(false, "abo", ["Z", "abort"])[0] < 0;
  }

  /** A single upper-case letter among the options can hide an unambiguous abbreviation. */
  lemma UpperCaseHides()
    ensures SortedArrayOf(false, ["Z", "abort"], ["Z", "abort"])
    ensures UniqueMatch(false, "abo", ["Z", "abort"], 1)
    ensures Found(false, "abo", ["Z", "abort"]) == None
    ensures !DeclaredSearchable(false, ["Z", "abort"])
  {
    StoredExample();
    UniqueExample();
    SearchExample();
    AbbrevMatchCorrect(false, ["Z", "abort"], ["Z", "abort"]);
  }

  /** exact_match: binary search for the normalised text. */
  method ExactMatch(sorted: array<string>, caseSensitive: bool, opt: string) returns (r: Option<nat>)
    requires Sorted(sorted[..])
    ensures r.Some? ==> r.value < sorted.Length && sorted[r.value] == Normal(caseSensitive, opt)
    ensures r == None ==> Normal(caseSensitive, opt) !in sorted[..]
  {
    var optCmp := Normal(caseSensitive, opt);
    ghost var names := sorted[..];
    var lo, hi := 0, sorted.Length - 1;
    while lo <= hi
      invariant 0 <= lo <= hi + 1 <= sorted.Length
      invariant forall i :: 0 <= i < |names| && !(lo <= i <= hi) ==> names[i] != optCmp
      decreases hi - lo
    {
      var mid := (lo + hi) / 2;
      var cmp := StrCmp(optCmp, sorted[mid]);
      StrCmpZero(optCmp, names[mid]);
      forall i | 0 <= i < |names|
        ensures cmp < 0 && mid <= i ==> names[i] != optCmp
        ensures cmp > 0 && i <= mid ==> names[i] != optCmp
      {
        StrCmpFlip(optCmp, names[mid]);
        StrCmpZero(names[i], names[i]);
      }
      if cmp < 0 {
        hi := mid - 1;
      } else if cmp > 0 {
        lo := mid + 1;
      } else {
        return Some(mid);
      }
    }
    return None;
  }

  /** On the declared options: an exact match exists exactly if the text does not start with an angle bracket and
      some option has the same normal form. */
  lemma ExactMatchCorrect(caseSensitive: bool, declared: seq<string>, names: seq<string>, opt: string)
    requires SortedArrayOf(caseSensitive, declared, names)
    ensures Normal(caseSensitive, opt) in names
       <==> !("<" <= opt) && exists d :: d in declared && Normal(caseSensitive, d) == Normal(caseSensitive, opt)
  {
    StoredIsDeclared(caseSensitive, declared, Normal(caseSensitive, opt));
    assert Normal(caseSensitive, opt) in names <==> Normal(caseSensitive, opt) in multiset(names);
    assert forall x :: x in StoredNames(caseSensitive, declared)
                  <==> x in multiset(StoredNames(caseSensitive, declared));
  }
}
