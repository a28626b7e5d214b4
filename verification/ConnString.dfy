/** Connection strings of the throughput benchmark (parseConnectionString and the rebuilding
    part of parse_args in tptbm.c). */
module ConnString {
  import opened CStrings
  import opened Wrappers

  datatype Attr = DSN | UID | PWD

  datatype Parts = Parts(dsn: string, uid: string, pwd: string) {
    function Get(a: Attr): string {
      match a case DSN => dsn case UID => uid case PWD => pwd
    }

    function Set(a: Attr, v: string): Parts {
      match a
      case DSN => this.(dsn := v)
      case UID => this.(uid := v)
      case PWD => this.(pwd := v)
    }
  }

  const NO_PARTS := Parts("", "", "")

  /** Sizes of the three receiving buffers. */
  datatype Sizes = Sizes(dsn: nat, uid: nat, pwd: nat) {
    function Of(a: Attr): nat {
      match a case DSN => dsn case UID => uid case PWD => pwd
    }
  }

  // ------------------------------------------------------------------------
  // Specification: segments of "name=value" or a bare value
  // ------------------------------------------------------------------------

  /** strncasecmp() against "UID=", "PWD=" or "DSN=". */
  predicate StartsWith(s: string, a: Attr) {
    && |s| >= 4 && s[3] == '='
    && Lower(s[0]) == (match a case DSN => 'd' case UID => 'u' case PWD => 'p')
    && Lower(s[1]) == (match a case DSN => 's' case UID => 'i' case PWD => 'w')
    && Lower(s[2]) == (match a case DSN => 'n' case UID => 'd' case PWD => 'd')
  }

  function AttrOf(s: string): Attr {
    if StartsWith(s, UID) then UID else if StartsWith(s, PWD) then PWD else DSN
  }

  /** Length of the attribute name at the front of s; a bare value has none. */
  function NameLength(s: string): (n: nat)
    ensures n <= |s|
  {
    if StartsWith(s, UID) || StartsWith(s, PWD) || StartsWith(s, DSN) then 4 else 0
  }

  datatype Segment = Segment(attr: Attr, value: string)

  function FirstSegment(s: string): Segment {
    Segment(AttrOf(s), s[NameLength(s)..Semicolon(s, NameLength(s))])
  }

  /** What follows the first segment and its semicolon. */
  function Rest(s: string): (r: string)
    ensures s != "" ==> |r| < |s| || NameLength(s) == |s|
  {
    var q := Semicolon(s, NameLength(s));
    if q == |s| then "" else s[q + 1..]
  }

  /** All segments; None if the text ends right behind an attribute name. */
  function Segments(s: string): Option<seq<Segment>>
    decreases |s|
  {
    if s == "" then Some([])
    else if NameLength(s) == |s| then None
    else
      var rest := Segments(Rest(s));
      if rest == None then None else Some([FirstSegment(s)] + rest.value)
  }

  /** Storing a segment: the component must still be empty, and the value must fit. */
  function Store(sizes: Sizes, parts: Parts, seg: Segment): Option<Parts> {
    if parts.Get(seg.attr) != "" || |seg.value| + 1 > sizes.Of(seg.attr) then None
    else Some(parts.Set(seg.attr, seg.value))
  }

  function StoreAll(sizes: Sizes, parts: Parts, segs: seq<Segment>): Option<Parts>
    decreases |segs|
  {
    if segs == [] then Some(parts)
    else
      var next := Store(sizes, parts, segs[0]);
      if next == None then None else StoreAll(sizes, next.value, segs[1..])
  }

  /** A DSN is mandatory, and a password needs a user name. */
  predicate Complete(parts: Parts) {
    parts.dsn != "" && (parts.pwd != "" ==> parts.uid != "")
  }

  function ParseFrom(sizes: Sizes, parts: Parts, s: string): Option<Parts> {
    var segs := Segments(s);
    if segs == None then None else StoreAll(sizes, parts, segs.value)
  }

  function Parse(sizes: Sizes, s: string): Option<Parts> {
    var parts := ParseFrom(sizes, NO_PARTS, s);
    if sizes.dsn == 0 || sizes.uid == 0 || sizes.pwd == 0 || parts == None || !Complete(parts.value) then None
    else parts
  }

  lemma ParseFirst(sizes: Sizes, parts: Parts, s: string, seg: Segment, rest: string)
    requires s != "" && NameLength(s) < |s| && seg == FirstSegment(s) && rest == Rest(s)
    ensures Store(sizes, parts, seg) == None ==> ParseFrom(sizes, parts, s) == None
    ensures Store(sizes, parts, seg).Some? ==>
              ParseFrom(sizes, parts, s) == ParseFrom(sizes, Store(sizes, parts, seg).value, rest)
  {
    if Segments(rest).Some? {
      assert ([seg] + Segments(rest).value)[1..] == Segments(rest).value;
    }
  }

  // ------------------------------------------------------------------------
  // The parser as written: one pass that cuts up its own input
  // ------------------------------------------------------------------------

  /** From offset p on the buffer still holds its original text. */
  ghost predicate Uncut(b: seq<char>, s: string, p: nat) {
    p <= |s| && |b| == |s| + 1 && b[p..] == s[p..] + [NUL]
  }

  lemma {:induction false} SemicolonShift(s: string, p: nat, from: nat)
    requires p <= from <= |s|
    ensures Semicolon(s[p..], from - p) == Semicolon(s, from) - p
    decreases |s| - from
  {
    if from < |s| && s[from] != ';' {
      SemicolonShift(s, p, from + 1);
    }
  }

  lemma UncutAt(b: seq<char>, s: string, p: nat, i: nat)
    requires Uncut(b, s, p) && p <= i <= |s|
    ensures b[i] == if i < |s| then s[i] else NUL
    ensures b[p..i] == s[p..i]
    ensures Uncut(b, s, i)
  {
    assert forall k :: p <= k <= |s| ==> b[k] == b[p..][k - p];
  }

  /** Overwriting what has been read leaves the text behind it alone. */
  lemma UncutBehind(b: seq<char>, s: string, p: nat, i: nat)
    requires Uncut(b, s, p) && p <= i < |s|
    ensures Uncut(b[i := NUL], s, i + 1) && b[i := NUL][p..i] == s[p..i]
  {
    UncutAt(b, s, p, i);
    UncutAt(b, s, p, i + 1);
    assert b[i := NUL][i + 1..] == b[i + 1..];
  }

  /** strncasecmp() against an attribute name, then the NUL over its equal sign. */
  method CutName(connstr: array<char>, p: nat, ghost s: string) returns (aname: Attr, avalue: nat)
    requires NulFree(s) && Uncut(connstr[..], s, p) && p < |s|
    modifies connstr
    ensures aname == AttrOf(s[p..]) && avalue == p + NameLength(s[p..])
    ensures Uncut(connstr[..], s, avalue)
  {
    ghost var b := connstr[..];
    UncutAt(b, s, p, |s|);
    var text := connstr[p..connstr.Length - 1];
    assert text == b[p..|s|] == s[p..];
    aname, avalue := DSN, p;
    if StartsWith(text, UID) {
      aname, avalue := UID, p + 4;
    } else if StartsWith(text, PWD) {
      aname, avalue := PWD, p + 4;
    } else if StartsWith(text, DSN) {
      avalue := p + 4;
    }
    if avalue > p {
      UncutBehind(b, s, p, avalue - 1);
      connstr[avalue - 1] := NUL;
      assert connstr[..] == b[avalue - 1 := NUL];
    }
  }

  /** strchr() for the semicolon that ends the value, and the NUL over it. */
  method CutValue(connstr: array<char>, avalue: nat, ghost s: string) returns (next: Option<nat>, ghost q: nat)
    requires NulFree(s) && Uncut(connstr[..], s, avalue)
    modifies connstr
    ensures q == Semicolon(s, avalue)
    ensures CStringAt(connstr[..], avalue, s[avalue..q])
    ensures next == if q < |s| then Some(q + 1) else None
    ensures next.Some? ==> Uncut(connstr[..], s, q + 1)
  {
    ghost var b := connstr[..];
    var i := avalue;
    UncutAt(b, s, avalue, i);
    while connstr[i] != NUL && connstr[i] != ';'
      invariant avalue <= i <= |s| && Semicolon(s, i) == Semicolon(s, avalue)
      invariant connstr[..] == b && b[i] == (if i < |s| then s[i] else NUL)
      decreases |s| - i
    {
      i := i + 1;
      UncutAt(b, s, avalue, i);
    }
    q, next := i, None;
    UncutAt(b, s, avalue, i);
    if connstr[i] == ';' {
      UncutBehind(b, s, avalue, i);
      connstr[i] := NUL;
      assert connstr[..] == b[i := NUL];
      next := Some(i + 1);
    }
  }

  /** The first segment of the suffix t of s, and what follows it, in offsets into s. */
  lemma CutSegment(s: string, t: string, p: nat, q: nat)
    requires p <= |s| && t == s[p..] && q == Semicolon(s, p + NameLength(t))
    ensures FirstSegment(t) == Segment(AttrOf(t), s[p + NameLength(t)..q])
  {
    var n := NameLength(t);
    SemicolonShift(s, p, p + n);
    SuffixSlice(s, p, n, q - p);
  }

  lemma CutRest(s: string, t: string, p: nat, q: nat)
    requires p <= |s| && t == s[p..] && q == Semicolon(s, p + NameLength(t))
    ensures Rest(t) == if q < |s| then s[q + 1..] else ""
  {
    SemicolonShift(s, p, p + NameLength(t));
    if q < |s| {
      SuffixSlice(s, p, q - p + 1, |s| - p);
    }
  }

  lemma SuffixSlice(s: string, p: nat, a: nat, b: nat)
    requires p <= |s| && a <= b <= |s| - p
    ensures s[p..][a..b] == s[p + a..p + b] && s[p..][a..] == s[p + a..]
  {
  }

  /** The text left to parse; the program keeps a null pointer when there is none. */
  function Left(s: string, next: Option<nat>): string {
    if next.Some? && next.value <= |s| then s[next.value..] else ""
  }

  /** Storing the next segment, or failing to, is what the specification does with the text from p on. */
  ghost predicate Turn(sizes: Sizes, parts: Parts, s: string, p: nat, ok: bool, parts': Parts, next: Option<nat>)
    requires p <= |s|
  {
    ParseFrom(sizes, parts, s[p..]) == if ok then ParseFrom(sizes, parts', Left(s, next)) else None
  }

  lemma TurnCutShort(sizes: Sizes, parts: Parts, s: string, p: nat)
    requires p < |s| && NameLength(s[p..]) == |s| - p
    ensures Turn(sizes, parts, s, p, false, parts, None)
  {
  }

  /** The segment from p to q, without its name a value from avalue on. */
  lemma TurnStores(sizes: Sizes, parts: Parts, s: string, p: nat, avalue: nat, q: nat, aname: Attr,
                   ok: bool, parts': Parts, next: Option<nat>)
    requires p <= avalue < |s| && avalue == p + NameLength(s[p..]) && aname == AttrOf(s[p..])
    requires q == Semicolon(s, avalue) && next == if q < |s| then Some(q + 1) else None
    requires ok == (parts.Get(aname) == "" && q - avalue + 1 <= sizes.Of(aname))
    requires ok ==> parts' == parts.Set(aname, s[avalue..q])
    ensures Turn(sizes, parts, s, p, ok, parts', next)
  {
    CutSegment(s, s[p..], p, q);
    CutRest(s, s[p..], p, q);
    ParseFirst(sizes, parts, s[p..], Segment(aname, s[avalue..q]), Left(s, next));
  }

  /** Cuts off the value and stores it, if nothing is stored for the attribute and it fits. */
  method StoreValue(connstr: array<char>, sizes: Sizes, parts: Parts, aname: Attr, avalue: nat, ghost s: string)
    returns (ok: bool, parts': Parts, next: Option<nat>)
    requires NulFree(s) && Uncut(connstr[..], s, avalue)
    modifies connstr
    ensures var q := Semicolon(s, avalue);
            && ok == (parts.Get(aname) == "" && q - avalue + 1 <= sizes.Of(aname))
            && (ok ==> parts' == parts.Set(aname, s[avalue..q]))
            && next == (if q < |s| then Some(q + 1) else None)
            && (next.Some? ==> Uncut(connstr[..], s, q + 1))
  {
    ghost var q;
    ok, parts' := false, parts;
    next, q := CutValue(connstr, avalue, s);
    var value := CString(connstr[..], avalue);
    ReadsBack(connstr[..], avalue, s[avalue..q]);
    if parts.Get(aname) != "" || |value| + 1 > sizes.Of(aname) {
      return;
    }
    ok, parts' := true, parts.Set(aname, value);
  }

  /** One turn of the parsing loop. */
  method ParseSegment(connstr: array<char>, sizes: Sizes, parts: Parts, p: nat, ghost s: string)
    returns (ok: bool, parts': Parts, next: Option<nat>)
    requires NulFree(s) && Uncut(connstr[..], s, p) && p < |s|
    modifies connstr
    ensures Turn(sizes, parts, s, p, ok, parts', next)
    ensures ok && next.Some? ==> p < next.value && Uncut(connstr[..], s, next.value)
  {
    var aname, avalue := CutName(connstr, p, s);
    UncutAt(connstr[..], s, avalue, avalue);
    if connstr[avalue] == NUL {
      ok, parts', next := false, parts, None;
      TurnCutShort(sizes, parts, s, p);
    } else {
      ok, parts', next := StoreValue(connstr, sizes, parts, aname, avalue, s);
      TurnStores(sizes, parts, s, p, avalue, Semicolon(s, avalue), aname, ok, parts', next);
    }
  }

  /** parseConnectionString. */
  method ParseConnectionString(connstr: array<char>, sizes: Sizes, ghost s: string)
    returns (ok: bool, parts: Parts)
    requires NulFree(s) && connstr[..] == s + [NUL]
    modifies connstr
    ensures ok == Parse(sizes, s).Some?
    ensures ok ==> Parse(sizes, s) == Some(parts)
  {
    ok, parts := false, NO_PARTS;
    if sizes.dsn == 0 || sizes.uid == 0 || sizes.pwd == 0 {
      return;
    }
    var p := Some(0);
    assert s[0..] == s;
    while p.Some? && connstr[p.value] != NUL
      invariant p.Some? ==> Uncut(connstr[..], s, p.value)
      invariant ParseFrom(sizes, NO_PARTS, s) == ParseFrom(sizes, parts, Left(s, p))
      decreases if p.Some? then |s| + 1 - p.value else 0
    {
      UncutAt(connstr[..], s, p.value, p.value);
      var stored;
      stored, parts, p := ParseSegment(connstr, sizes, parts, p.value, s);
      if !stored {
        return;
      }
    }
    if p.Some? {
      UncutAt(connstr[..], s, p.value, p.value);
    }
    ok := Complete(parts);
  }

  // ------------------------------------------------------------------------
  // Which strings are accepted
  // ------------------------------------------------------------------------

  /** Segment j fits its buffer, and whatever came before it for the same attribute was empty. */
  ghost predicate Storable(sizes: Sizes, parts: Parts, segs: seq<Segment>, j: nat)
    requires j < |segs|
  {
    && |segs[j].value| + 1 <= sizes.Of(segs[j].attr)
    && parts.Get(segs[j].attr) == ""
    && forall i :: 0 <= i < j && segs[i].attr == segs[j].attr ==> segs[i].value == ""
  }

  /** The last value given for an attribute. */
  function LastValue(segs: seq<Segment>, a: Attr, default: string): string {
    if segs == [] then default
    else if segs[|segs| - 1].attr == a then segs[|segs| - 1].value
    else LastValue(segs[..|segs| - 1], a, default)
  }

  lemma {:induction false} LastValueCons(seg: Segment, segs: seq<Segment>, a: Attr, default: string)
    ensures LastValue([seg] + segs, a, default)
         == LastValue(segs, a, if seg.attr == a then seg.value else default)
  {
    if segs == [] {
      assert [seg] + segs == [seg];
      assert [seg][..0] == [];
    } else {
      assert ([seg] + segs)[..|segs|] == [seg] + segs[..|segs| - 1];
      LastValueCons(seg, segs[..|segs| - 1], a, default);
    }
  }

  lemma StorableBehind(sizes: Sizes, parts: Parts, seg: Segment, rest: seq<Segment>, j: nat)
    requires Store(sizes, parts, seg).Some? && j < |rest|
    ensures Storable(sizes, parts, [seg] + rest, j + 1) <==> Storable(sizes, Store(sizes, parts, seg).value, rest, j)
  {
    var segs := [seg] + rest;
    assert segs[j + 1] == rest[j] && segs[0] == seg;
    assert forall i :: 0 <= i < j ==> rest[i] == segs[i + 1];
    if Storable(sizes, Store(sizes, parts, seg).value, rest, j) {
      forall i | 0 <= i < j + 1 && segs[i].attr == segs[j + 1].attr ensures segs[i].value == "" {
        if i > 0 {
          assert rest[i - 1] == segs[i];
        }
      }
    }
  }

  /** All segments are stored exactly if every one of them is storable; each
      attribute then has its last value. */
  lemma {:induction false} StoredIff(sizes: Sizes, parts: Parts, segs: seq<Segment>)
    ensures StoreAll(sizes, parts, segs).Some? <==> forall j :: 0 <= j < |segs| ==> Storable(sizes, parts, segs, j)
    ensures StoreAll(sizes, parts, segs).Some? ==>
              forall a :: StoreAll(sizes, parts, segs).value.Get(a) == LastValue(segs, a, parts.Get(a))
    decreases |segs|
  {
    if segs != [] {
      var seg, rest := segs[0], segs[1..];
      assert segs == [seg] + rest;
      assert Storable(sizes, parts, segs, 0) <==> Store(sizes, parts, seg).Some?;
      if Store(sizes, parts, seg).Some? {
        StoredBehind(sizes, parts, seg, rest);
      }
    }
  }

  lemma {:induction false} StoredBehind(sizes: Sizes, parts: Parts, seg: Segment, rest: seq<Segment>)
    requires Store(sizes, parts, seg).Some?
    ensures var segs, all := [seg] + rest, StoreAll(sizes, Store(sizes, parts, seg).value, rest);
            && (all.Some? <==> forall j :: 1 <= j < |segs| ==> Storable(sizes, parts, segs, j))
            && (all.Some? ==> forall a :: all.value.Get(a) == LastValue(segs, a, parts.Get(a)))
    decreases |rest| + 1, 0
  {
    var segs, next := [seg] + rest, Store(sizes, parts, seg).value;
    StoredIff(sizes, next, rest);
    forall j | 0 <= j < |rest|
      ensures Storable(sizes, parts, segs, j + 1) <==> Storable(sizes, next, rest, j)
    {
      StorableBehind(sizes, parts, seg, rest, j);
    }
    if forall j :: 1 <= j < |segs| ==> Storable(sizes, parts, segs, j) {
      forall j | 0 <= j < |rest| ensures Storable(sizes, next, rest, j) {
        assert Storable(sizes, parts, segs, j + 1);
      }
    }
    if forall j :: 0 <= j < |rest| ==> Storable(sizes, next, rest, j) {
      forall j | 1 <= j < |segs| ensures Storable(sizes, parts, segs, j) {
        assert Storable(sizes, next, rest, j - 1);
      }
    }
    forall a ensures LastValue(segs, a, parts.Get(a)) == LastValue(rest, a, next.Get(a)) {
      LastValueCons(seg, rest, a, parts.Get(a));
    }
  }

  /** A string is accepted exactly if it does not end behind an attribute name, every segment is
      storable, there is a DSN, and a password only together with a user name; each
      component is then the last value of its attribute. */
  lemma AcceptedIff(sizes: Sizes, s: string)
    ensures Parse(sizes, s).Some? <==>
            && sizes.dsn > 0 && sizes.uid > 0 && sizes.pwd > 0
            && Segments(s).Some?
            && var segs := Segments(s).value;
               && (forall j :: 0 <= j < |segs| ==> Storable(sizes, NO_PARTS, segs, j))
               && LastValue(segs, DSN, "") != ""
               && (LastValue(segs, PWD, "") != "" ==> LastValue(segs, UID, "") != "")
    ensures Parse(sizes, s).Some? ==>
              forall a :: Parse(sizes, s).value.Get(a) == LastValue(Segments(s).value, a, "")
  {
    if Segments(s).Some? {
      var segs := Segments(s).value;
      StoredIff(sizes, NO_PARTS, segs);
      var stored := StoreAll(sizes, NO_PARTS, segs);
      if stored.Some? {
        assert stored.value.dsn == stored.value.Get(DSN) && stored.value.uid == stored.value.Get(UID);
        assert stored.value.pwd == stored.value.Get(PWD);
      }
    }
  }

  /** Giving an attribute again after a non-empty value is always an error. */
  lemma DuplicatesRejected(sizes: Sizes, s: string, i: nat, j: nat)
    requires Segments(s).Some? && i < j < |Segments(s).value|
    requires Segments(s).value[i].attr == Segments(s).value[j].attr && Segments(s).value[i].value != ""
    ensures Parse(sizes, s) == None
  {
    AcceptedIff(sizes, s);
    assert !Storable(sizes, NO_PARTS, Segments(s).value, j);
  }

  // ------------------------------------------------------------------------
  // Attribute names, in any mix of upper and lower case
  // ------------------------------------------------------------------------

  function Upper(a: Attr): string {
    match a case DSN => "DSN" case UID => "UID" case PWD => "PWD"
  }

  function LowerCase(a: Attr): string {
    match a case DSN => "dsn" case UID => "uid" case PWD => "pwd"
  }

  /** x is the name of a, each letter in either case. */
  predicate Spells(x: string, a: Attr) {
    |x| == 3 && forall i :: 0 <= i < 3 ==> x[i] == Upper(a)[i] || x[i] == LowerCase(a)[i]
  }

  /** At the start of a segment the name of a and an equal sign stand in the text. */
  predicate NameAt(s: string, p: nat, a: Attr) {
    p + 3 < |s| && (p == 0 || s[p - 1] == ';') && s[p + 3] == '=' && Spells(s[p..p + 3], a)
  }

  lemma StartsWithIff(s: string, a: Attr)
    ensures StartsWith(s, a) <==> NameAt(s, 0, a)
  {
    if |s| > 3 {
      var x := s[0..3];
      assert x[0] == s[0] && x[1] == s[1] && x[2] == s[2];
      CaseIff(s[0], Upper(a)[0], LowerCase(a)[0]);
      CaseIff(s[1], Upper(a)[1], LowerCase(a)[1]);
      CaseIff(s[2], Upper(a)[2], LowerCase(a)[2]);
    }
  }

  lemma CaseIff(c: char, upper: char, lower: char)
    requires 'A' <= upper <= 'Z' && lower == upper - 'A' + 'a'
    ensures Lower(c) == lower <==> c == upper || c == lower
  {
  }

  // ------------------------------------------------------------------------
  // Rebuilding
  // ------------------------------------------------------------------------

  /** "name=value", and behind a semicolon what follows, if anything does. */
  function Named(name: string, v: string, rest: Option<string>): string {
    name + "=" + v + Following(rest)
  }

  function Following(rest: Option<string>): string {
    match rest case None => "" case Some(r) => ";" + r
  }

  /** How the names are spelled. */
  datatype Names = Names(dsn: string, uid: string, pwd: string) {
    predicate Valid() {
      Spells(dsn, DSN) && Spells(uid, UID) && Spells(pwd, PWD)
    }
  }

  const UPPER_CASE := Names("DSN", "UID", "PWD")

  function PwdPart(names: Names, parts: Parts): Option<string> {
    if parts.pwd != "" then Some(Named(names.pwd, parts.pwd, None)) else None
  }

  function UidPart(names: Names, parts: Parts): Option<string> {
    if parts.uid != "" then Some(Named(names.uid, parts.uid, PwdPart(names, parts))) else PwdPart(names, parts)
  }

  /** "DSN=..;UID=..;PWD=..", leaving out what is empty. */
  function Written(names: Names, parts: Parts): string {
    Named(names.dsn, parts.dsn, UidPart(names, parts))
  }

  /** The same without the name of the DSN. */
  function WrittenBare(names: Names, parts: Parts): string {
    parts.dsn + Following(UidPart(names, parts))
  }

  function Rebuild(parts: Parts): string {
    Written(UPPER_CASE, parts)
  }

  lemma RebuiltPiecewise(parts: Parts)
    ensures Rebuild(parts)
         == "DSN=" + parts.dsn + (if parts.uid != "" then ";UID=" + parts.uid else "")
                               + (if parts.pwd != "" then ";PWD=" + parts.pwd else "")
  {
  }

  /** parse_args: measures first, then prints piece by piece. */
  method RebuildInto(parts: Parts, size: nat) returns (connstr: Option<string>)
    ensures connstr == if |Rebuild(parts)| + 1 > size then None else Some(Rebuild(parts))
  {
    var pos := 1 + |"DSN="| + |parts.dsn|;
    if parts.uid != "" {
      pos := pos + |";UID="| + |parts.uid|;
    }
    if parts.pwd != "" {
      pos := pos + |";PWD="| + |parts.pwd|;
    }
    if pos > size {
      return None;
    }
    var text := "DSN=" + parts.dsn;
    if parts.uid != "" {
      text := text + (";UID=" + parts.uid);
    }
    if parts.pwd != "" {
      text := text + (";PWD=" + parts.pwd);
    }
    RebuiltPiecewise(parts);
    assert text == "DSN=" + parts.dsn + (if parts.uid != "" then ";UID=" + parts.uid else "")
                                      + (if parts.pwd != "" then ";PWD=" + parts.pwd else "");
    connstr := Some(text);
  }

  ghost predicate WellFormed(sizes: Sizes, parts: Parts) {
    Complete(parts) && forall a :: SemicolonFree(parts.Get(a)) && |parts.Get(a)| + 1 <= sizes.Of(a)
  }

  lemma NamedStart(name: string, a: Attr, v: string, rest: Option<string>)
    requires Spells(name, a)
    ensures NameLength(Named(name, v, rest)) == 4 && AttrOf(Named(name, v, rest)) == a
  {
    var s := Named(name, v, rest);
    assert s[0..0 + 3] == name && s[0 + 3] == '=';
    forall b ensures StartsWith(s, b) <==> b == a {
      StartsWithIff(s, b);
      if NameAt(s, 0, b) {
        SpellsOne(name, a, b);
      }
    }
  }

  lemma NamedValue(name: string, v: string, rest: Option<string>)
    requires |name| == 3
    ensures Named(name, v, rest)[4..] == v + Following(rest)
  {
  }

  /** An attribute at the front of a text comes out as its first segment. */
  lemma NamedSegment(name: string, a: Attr, v: string, rest: Option<string>)
    requires Spells(name, a) && SemicolonFree(v)
    ensures FirstSegment(Named(name, v, rest)) == Segment(a, v)
    ensures Rest(Named(name, v, rest)) == if rest.Some? then rest.value else ""
  {
    var s := Named(name, v, rest);
    NamedStart(name, a, v, rest);
    NamedValue(name, v, rest);
    ValueEnds(s, 4, v, rest);
  }

  lemma ValueSlices(v: string, rest: Option<string>)
    ensures var t := v + Following(rest);
            && t[..|v|] == v && (rest == None <==> |t| == |v|)
            && (rest.Some? ==> t[|v|] == ';' && t[|v| + 1..] == rest.value)
  {
  }

  /** Where a value ends and what follows it. */
  lemma ValueEnds(s: string, p: nat, v: string, rest: Option<string>)
    requires p <= |s| && s[p..] == v + Following(rest) && SemicolonFree(v)
    ensures Semicolon(s, p) == p + |v| && s[p..p + |v|] == v
    ensures (if p + |v| == |s| then "" else s[p + |v| + 1..]) == if rest.Some? then rest.value else ""
  {
    ValueSlices(v, rest);
    SuffixSlice(s, p, 0, |v|);
    forall i | p <= i < p + |v| ensures s[i] != ';' {
      assert s[i] == s[p..p + |v|][i - p];
    }
    if rest.Some? {
      assert s[p + |v|] == s[p..][|v|];
      SuffixSlice(s, p, |v| + 1, |s| - p);
    }
    SemicolonAt(s, p, p + |v|);
  }

  /** Parsing what is left of a rebuilt string goes from parts to parts'. */
  ghost predicate Parses(sizes: Sizes, parts: Parts, rest: Option<string>, parts': Parts) {
    ParseFrom(sizes, parts, if rest.Some? then rest.value else "") == Some(parts')
  }

  lemma NamedParses(sizes: Sizes, parts: Parts, name: string, a: Attr, v: string, rest: Option<string>, parts': Parts)
    requires Spells(name, a) && SemicolonFree(v) && v != "" && |v| + 1 <= sizes.Of(a) && parts.Get(a) == ""
    requires Parses(sizes, parts.Set(a, v), rest, parts')
    ensures Parses(sizes, parts, Some(Named(name, v, rest)), parts')
  {
    NamedStart(name, a, v, rest);
    NamedSegment(name, a, v, rest);
    ParseFirst(sizes, parts, Named(name, v, rest), Segment(a, v), if rest.Some? then rest.value else "");
  }

  lemma PwdPartParses(sizes: Sizes, names: Names, parts: Parts)
    requires names.Valid() && SemicolonFree(parts.pwd) && |parts.pwd| + 1 <= sizes.pwd
    ensures Parses(sizes, parts.(pwd := ""), PwdPart(names, parts), parts)
  {
    if parts.pwd != "" {
      NamedParses(sizes, parts.(pwd := ""), names.pwd, PWD, parts.pwd, None, parts);
    }
  }

  lemma UidPartParses(sizes: Sizes, names: Names, parts: Parts)
    requires names.Valid() && SemicolonFree(parts.pwd) && |parts.pwd| + 1 <= sizes.pwd
    requires SemicolonFree(parts.uid) && |parts.uid| + 1 <= sizes.uid
    ensures Parses(sizes, parts.(uid := "", pwd := ""), UidPart(names, parts), parts)
  {
    PwdPartParses(sizes, names, parts);
    if parts.uid != "" {
      NamedParses(sizes, parts.(uid := "", pwd := ""), names.uid, UID, parts.uid, PwdPart(names, parts), parts);
    }
  }

  /** A rebuilt string is one that C can hold. */
  lemma RebuiltNulFree(parts: Parts)
    requires NulFree(parts.dsn) && NulFree(parts.uid) && NulFree(parts.pwd)
    ensures NulFree(Rebuild(parts))
  {
    NamedNulFree("PWD", parts.pwd, None);
    NamedNulFree("UID", parts.uid, PwdPart(UPPER_CASE, parts));
    NamedNulFree("DSN", parts.dsn, UidPart(UPPER_CASE, parts));
  }

  lemma NamedNulFree(name: string, v: string, rest: Option<string>)
    requires NulFree(name) && NulFree(v) && (rest.Some? ==> NulFree(rest.value))
    ensures NulFree(Named(name, v, rest))
  {
  }

  /** Writing the components, with each name spelled in any mix of cases, and parsing gives them back. */
  lemma SpelledRoundTrip(sizes: Sizes, names: Names, parts: Parts)
    requires names.Valid() && WellFormed(sizes, parts)
    ensures Parse(sizes, Written(names, parts)) == Some(parts)
  {
    assert SemicolonFree(parts.Get(DSN)) && SemicolonFree(parts.Get(UID)) && SemicolonFree(parts.Get(PWD));
    UidPartParses(sizes, names, parts);
    NamedParses(sizes, NO_PARTS, names.dsn, DSN, parts.dsn, UidPart(names, parts), parts);
  }

  /** v begins like a named attribute. */
  ghost predicate HasName(v: string) {
    exists a :: NameAt(v, 0, a)
  }

  lemma BareStart(v: string, rest: Option<string>)
    requires v != "" && SemicolonFree(v) && !HasName(v)
    ensures NameLength(v + Following(rest)) == 0 && AttrOf(v + Following(rest)) == DSN
  {
    var s := v + Following(rest);
    assert |v| < |s| ==> s[|v|] == ';';
    forall a ensures !StartsWith(s, a) {
      StartsWithIff(s, a);
      if NameAt(s, 0, a) {
        NameHasNoSemicolon(s, 0, a);
        assert v[0..3] == s[0..3] && NameAt(v, 0, a);
      }
    }
  }

  /** A bare value at the front of a text comes out as a DSN. */
  lemma BareSegment(v: string, rest: Option<string>)
    requires v != "" && SemicolonFree(v) && !HasName(v)
    ensures NameLength(v + Following(rest)) == 0 && FirstSegment(v + Following(rest)) == Segment(DSN, v)
    ensures Rest(v + Following(rest)) == if rest.Some? then rest.value else ""
  {
    var s := v + Following(rest);
    BareStart(v, rest);
    assert s[0..] == s;
    ValueEnds(s, 0, v, rest);
  }

  lemma BareFrontParses(sizes: Sizes, parts: Parts, v: string, rest: Option<string>, parts': Parts)
    requires SemicolonFree(v) && v != "" && |v| + 1 <= sizes.dsn && parts.dsn == "" && !HasName(v)
    requires Parses(sizes, parts.Set(DSN, v), rest, parts')
    ensures Parses(sizes, parts, Some(v + Following(rest)), parts')
  {
    BareSegment(v, rest);
    ParseFirst(sizes, parts, v + Following(rest), Segment(DSN, v), if rest.Some? then rest.value else "");
  }

  lemma BareParses(sizes: Sizes, names: Names, parts: Parts)
    requires names.Valid() && WellFormed(sizes, parts) && !HasName(parts.dsn)
    ensures Parse(sizes, WrittenBare(names, parts)) == Some(parts)
  {
    assert SemicolonFree(parts.Get(DSN)) && SemicolonFree(parts.Get(UID)) && SemicolonFree(parts.Get(PWD));
    UidPartParses(sizes, names, parts);
    BareFrontParses(sizes, NO_PARTS, parts.dsn, UidPart(names, parts), parts);
  }

  ghost predicate NoDsn(segs: seq<Segment>) {
    forall i :: 0 <= i < |segs| ==> segs[i].attr != DSN
  }

  ghost predicate NamesNoDsn(text: Option<string>) {
    text.Some? && Segments(text.value).Some? ==> NoDsn(Segments(text.value).value)
  }

  lemma NamedNoDsn(name: string, a: Attr, v: string, rest: Option<string>)
    requires Spells(name, a) && a != DSN && SemicolonFree(v) && NamesNoDsn(rest)
    ensures NamesNoDsn(Some(Named(name, v, rest)))
  {
    NamedStart(name, a, v, rest);
    NamedSegment(name, a, v, rest);
  }

  /** What is written behind the DSN names no other one. */
  lemma RestHasNoDsn(names: Names, parts: Parts)
    requires names.Valid() && SemicolonFree(parts.uid) && SemicolonFree(parts.pwd)
    ensures NamesNoDsn(UidPart(names, parts))
  {
    if parts.pwd != "" {
      NamedNoDsn(names.pwd, PWD, parts.pwd, None);
    }
    if parts.uid != "" {
      NamedNoDsn(names.uid, UID, parts.uid, PwdPart(names, parts));
    }
  }

  lemma {:induction false} LastDsnIsFirst(seg: Segment, segs: seq<Segment>)
    requires NoDsn(segs)
    ensures LastValue([seg] + segs, DSN, "") == if seg.attr == DSN then seg.value else ""
  {
    var all := [seg] + segs;
    if segs == [] {
      assert all == [seg] && LastValue([seg][..0], DSN, "") == "";
    } else {
      assert all[..|all| - 1] == [seg] + segs[..|segs| - 1];
      LastDsnIsFirst(seg, segs[..|segs| - 1]);
    }
  }

  /** A DSN that begins like a named attribute is taken for that. */
  lemma NamedDsnLost(sizes: Sizes, names: Names, parts: Parts)
    requires names.Valid() && WellFormed(sizes, parts) && HasName(parts.dsn)
    ensures Parse(sizes, WrittenBare(names, parts)) != Some(parts)
  {
    assert SemicolonFree(parts.Get(DSN)) && SemicolonFree(parts.Get(UID)) && SemicolonFree(parts.Get(PWD));
    var a :| NameAt(parts.dsn, 0, a);
    var s, v, rest := WrittenBare(names, parts), parts.dsn[4..], UidPart(names, parts);
    assert parts.dsn[0..3] + "=" + v == parts.dsn;
    assert s == Named(parts.dsn[0..3], v, rest);
    NamedStart(parts.dsn[0..3], a, v, rest);
    NamedSegment(parts.dsn[0..3], a, v, rest);
    RestHasNoDsn(names, parts);
    if Parse(sizes, s).Some? {
      AcceptedIff(sizes, s);
      LastDsnIsFirst(Segment(a, v), Segments(Rest(s)).value);
      assert Parse(sizes, s).value.Get(DSN) == if a == DSN then v else "";
    }
  }

  /** Writing the DSN first without its name, and parsing, gives the components back if and only if the DSN does
      not begin like a named attribute. */
  lemma BareRoundTripIff(sizes: Sizes, names: Names, parts: Parts)
    requires names.Valid() && WellFormed(sizes, parts)
    ensures Parse(sizes, WrittenBare(names, parts)) == Some(parts) <==> !HasName(parts.dsn)
  {
    if HasName(parts.dsn) {
      NamedDsnLost(sizes, names, parts);
    } else {
      BareParses(sizes, names, parts);
    }
  }

  /** Parsing a rebuilt string gives the components back. */
  lemma RoundTrip(sizes: Sizes, parts: Parts)
    requires WellFormed(sizes, parts)
    ensures Parse(sizes, Rebuild(parts)) == Some(parts)
  {
    SpelledRoundTrip(sizes, UPPER_CASE, parts);
  }

  /** Rebuilding a string and parsing it, both as the program does, gives the components back. */
  method RebuildAndParse(sizes: Sizes, parts: Parts, size: nat) returns (result: Option<Parts>)
    requires WellFormed(sizes, parts) && NulFree(parts.dsn) && NulFree(parts.uid) && NulFree(parts.pwd)
    ensures result == if |Rebuild(parts)| + 1 > size then None else Some(parts)
  {
    var text := RebuildInto(parts, size);
    if text == None {
      return None;
    }
    RebuiltNulFree(parts);
    RoundTrip(sizes, parts);
    var image := text.value + [NUL];
    var connstr := new char[|image|](i requires 0 <= i < |image| => image[i]);
    assert connstr[..] == image;
    var ok, parsed := ParseConnectionString(connstr, sizes, text.value);
    result := if ok then Some(parsed) else None;
  }

  // ------------------------------------------------------------------------
  // Parsing does not depend on the case of attribute names
  // ------------------------------------------------------------------------

  ghost predicate InName(s: string, s': string, i: nat) {
    exists p: nat, a :: p <= i < p + 3 && NameAt(s, p, a) && NameAt(s', p, a)
  }

  ghost predicate SameOrInName(s: string, s': string, i: nat) {
    i < |s| && i < |s'| && (s[i] == s'[i] || InName(s, s', i))
  }

  /** Two texts that differ only in the case of letters of attribute names. */
  ghost predicate Respelled(s: string, s': string) {
    |s| == |s'| && forall i: nat :: i < |s| ==> SameOrInName(s, s', i)
  }

  /** Letters are neither semicolons nor equal signs. */
  lemma NamesAreLetters(s: string, s': string, i: nat)
    requires Respelled(s, s') && i < |s|
    ensures s[i] == ';' <==> s'[i] == ';'
    ensures s[i] == '=' <==> s'[i] == '='
  {
    assert SameOrInName(s, s', i);
    if s[i] != s'[i] {
      var p: nat, a :| p <= i < p + 3 && NameAt(s, p, a) && NameAt(s', p, a);
      assert s[p..p + 3][i - p] == s[i] && s'[p..p + 3][i - p] == s'[i];
    }
  }

  lemma SpellsOne(x: string, a: Attr, b: Attr)
    requires Spells(x, a) && Spells(x, b)
    ensures a == b
  {
    assert x[0] == Upper(a)[0] || x[0] == LowerCase(a)[0];
    assert x[0] == Upper(b)[0] || x[0] == LowerCase(b)[0];
  }

  lemma NameHasNoSemicolon(s: string, p: nat, a: Attr)
    requires NameAt(s, p, a)
    ensures forall k :: p <= k < p + 3 ==> s[k] != ';'
  {
    forall k | p <= k < p + 3 ensures s[k] != ';' {
      assert s[p..p + 3][k - p] == s[k];
    }
  }

  lemma FrontDiffers(s: string, s': string, a: Attr, i: nat)
    requires Respelled(s, s') && NameAt(s, 0, a) && i < 3 && s[i] != s'[i]
    ensures NameAt(s', 0, a)
  {
    assert SameOrInName(s, s', i);
    var p: nat, b :| p <= i < p + 3 && NameAt(s, p, b) && NameAt(s', p, b);
    NameHasNoSemicolon(s, 0, a);
    assert p == 0;
    SpellsOne(s[0..3], a, b);
  }

  /** A name in front of a text is still the same one. */
  lemma FrontRespelled(s: string, s': string, a: Attr)
    requires Respelled(s, s') && NameAt(s, 0, a)
    ensures NameAt(s', 0, a)
  {
    if i: nat :| i < 3 && s[i] != s'[i] {
      FrontDiffers(s, s', a, i);
    } else {
      NamesAreLetters(s, s', 3);
      assert s[0..3] == s'[0..3];
    }
  }

  lemma RespelledBack(s: string, s': string)
    requires Respelled(s, s')
    ensures Respelled(s', s)
  {
    forall i: nat | i < |s'| ensures SameOrInName(s', s, i) {
      assert SameOrInName(s, s', i);
      if s[i] != s'[i] {
        var p: nat, a :| p <= i < p + 3 && NameAt(s, p, a) && NameAt(s', p, a);
        assert InName(s', s, i);
      }
    }
  }

  lemma StartRespelled(s: string, s': string)
    requires Respelled(s, s')
    ensures AttrOf(s) == AttrOf(s') && NameLength(s) == NameLength(s')
  {
    RespelledBack(s, s');
    forall a ensures StartsWith(s, a) <==> StartsWith(s', a) {
      StartsWithIff(s, a);
      StartsWithIff(s', a);
      if StartsWith(s, a) {
        FrontRespelled(s, s', a);
      }
      if StartsWith(s', a) {
        FrontRespelled(s', s, a);
      }
    }
  }

  lemma {:induction false} SemicolonRespelled(s: string, s': string, from: nat)
    requires Respelled(s, s') && from <= |s|
    ensures Semicolon(s, from) == Semicolon(s', from)
    decreases |s| - from
  {
    if from < |s| {
      NamesAreLetters(s, s', from);
      if s[from] != ';' {
        SemicolonRespelled(s, s', from + 1);
      }
    }
  }

  /** A name that differs lies in front of the value or behind its semicolon. */
  lemma ValueRespelled(s: string, s': string, i: nat)
    requires Respelled(s, s') && NameLength(s) <= i < Semicolon(s, NameLength(s))
    ensures s[i] == s'[i]
  {
    var n := NameLength(s);
    SemicolonIsFirst(s, n);
    assert SameOrInName(s, s', i);
    if s[i] != s'[i] {
      var p: nat, a :| p <= i < p + 3 && NameAt(s, p, a) && NameAt(s', p, a);
      if p == 0 {
        StartsWithIff(s, a);
        assert false;
      } else {
        NoSemicolonInFront(s, p - 1);
        assert false;
      }
    }
  }

  lemma NoSemicolonInFront(s: string, k: nat)
    requires k < NameLength(s)
    ensures s[k] != ';'
  {
    var a := AttrOf(s);
    StartsWithIff(s, a);
    if k < 3 {
      assert s[0..3][k] == s[k];
    }
  }

  /** What follows the first semicolon differs in names alone, too. */
  lemma RestRespelled(s: string, s': string, q: nat)
    requires Respelled(s, s') && q < |s| && s[q] == ';'
    ensures Respelled(s[q + 1..], s'[q + 1..])
  {
    var t, t' := s[q + 1..], s'[q + 1..];
    NamesAreLetters(s, s', q);
    forall i: nat | i < |t| ensures SameOrInName(t, t', i) {
      assert t[i] == s[q + 1 + i] && t'[i] == s'[q + 1 + i];
      assert SameOrInName(s, s', q + 1 + i);
      if t[i] != t'[i] {
        var p: nat, a :| p <= q + 1 + i < p + 3 && NameAt(s, p, a) && NameAt(s', p, a);
        NameHasNoSemicolon(s, p, a);
        NameBehind(s, p, q, a);
        NameBehind(s', p, q, a);
        assert InName(t, t', i);
      }
    }
  }

  lemma NameBehind(s: string, p: nat, q: nat, a: Attr)
    requires NameAt(s, p, a) && q < p
    ensures s[q] == ';' ==> NameAt(s[q + 1..], p - q - 1, a)
  {
    var t, k := s[q + 1..], p - q - 1;
    assert t[k..k + 3] == s[p..p + 3];
  }

  lemma SliceRespelled(s: string, s': string, n: nat, q: nat)
    requires Respelled(s, s') && n == NameLength(s) && q == Semicolon(s, n)
    ensures s[n..q] == s'[n..q]
  {
    forall i | n <= i < q ensures s[i] == s'[i] {
      ValueRespelled(s, s', i);
    }
  }

  lemma FirstRespelled(s: string, s': string)
    requires Respelled(s, s')
    ensures NameLength(s) == NameLength(s') && FirstSegment(s) == FirstSegment(s') && Respelled(Rest(s), Rest(s'))
  {
    var n := NameLength(s);
    var q := Semicolon(s, n);
    StartRespelled(s, s');
    SemicolonRespelled(s, s', n);
    SliceRespelled(s, s', n, q);
    if q < |s| {
      SemicolonIsFirst(s, n);
      RestRespelled(s, s', q);
    }
  }

  lemma {:induction false} SegmentsRespelled(s: string, s': string)
    requires Respelled(s, s')
    ensures Segments(s) == Segments(s')
    decreases |s|
  {
    if s != "" {
      FirstRespelled(s, s');
      if NameLength(s) < |s| {
        SegmentsRespelled(Rest(s), Rest(s'));
      }
    }
  }

  /** Parsing does not depend on the case of attribute names. */
  lemma CaseDoesNotMatter(sizes: Sizes, s: string, s': string)
    requires Respelled(s, s')
    ensures Parse(sizes, s) == Parse(sizes, s')
  {
    SegmentsRespelled(s, s');
  }

  lemma FirstSemicolonFree(s: string)
    ensures SemicolonFree(FirstSegment(s).value)
  {
    SemicolonIsFirst(s, NameLength(s));
    var v := FirstSegment(s).value;
    assert forall i :: 0 <= i < |v| ==> v[i] == s[NameLength(s) + i];
  }

  lemma {:induction false} SegmentsSemicolonFree(s: string)
    requires Segments(s).Some?
    ensures forall seg :: seg in Segments(s).value ==> SemicolonFree(seg.value)
    decreases |s|
  {
    if s != "" {
      SegmentsSemicolonFree(Rest(s));
      FirstSemicolonFree(s);
    }
  }

  lemma {:induction false} LastValueIsGiven(segs: seq<Segment>, a: Attr)
    ensures LastValue(segs, a, "") == "" ||
            exists i :: 0 <= i < |segs| && segs[i] == Segment(a, LastValue(segs, a, ""))
  {
    if segs != [] && segs[|segs| - 1].attr != a {
      LastValueIsGiven(segs[..|segs| - 1], a);
    }
  }

  /** Whatever the parser accepts is well-formed, so rebuilding it and parsing
      again changes nothing. */
  lemma RebuildIsIdempotent(sizes: Sizes, s: string)
    requires Parse(sizes, s).Some?
    ensures WellFormed(sizes, Parse(sizes, s).value)
    ensures Parse(sizes, Rebuild(Parse(sizes, s).value)) == Parse(sizes, s)
  {
    AcceptedIff(sizes, s);
    SegmentsSemicolonFree(s);
    var segs, parts := Segments(s).value, Parse(sizes, s).value;
    forall a ensures SemicolonFree(parts.Get(a)) && |parts.Get(a)| + 1 <= sizes.Of(a) {
      LastValueIsGiven(segs, a);
      if parts.Get(a) != "" {
        var i :| 0 <= i < |segs| && segs[i] == Segment(a, parts.Get(a));
        assert Storable(sizes, NO_PARTS, segs, i);
      }
    }
    RoundTrip(sizes, parts);
  }
}
