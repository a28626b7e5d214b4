/** NUL-terminated strings laid out in a character buffer, and the character
    classes the C library functions of the sources rely on ("C" locale). */
module CStrings {

  const NUL: char := '\0'

  /** isspace(). */
  predicate IsSpace(c: char) {
    c == ' ' || c == '\t' || c == '\n' || c == '\U{0B}' || c == '\U{0C}' || c == '\r'
  }

  /** White space in the numbering of ASCII. */
  lemma SpaceIff(c: char)
    ensures IsSpace(c) <==> c as int == 32 || 9 <= c as int <= 13
  {
  }

  /** tolower(): ASCII letters only. */
  function Lower(c: char): char {
    if 'A' <= c <= 'Z' then c - 'A' + 'a' else c
  }

  ghost predicate NulFree(s: string) {
    forall i :: 0 <= i < |s| ==> s[i] != NUL
  }

  /** What a C function reads from offset `pos`: everything up to the first NUL. */
  function CString(buf: seq<char>, pos: nat): string
    decreases |buf| - pos
  {
    if pos >= |buf| || buf[pos] == NUL then "" else [buf[pos]] + CString(buf, pos + 1)
  }

  ghost predicate CStringAt(buf: seq<char>, pos: nat, s: string) {
    && pos + |s| < |buf|
    && buf[pos..pos + |s|] == s
    && buf[pos + |s|] == NUL
    && NulFree(s)
  }

  lemma {:induction false} ReadsBack(buf: seq<char>, pos: nat, s: string)
    requires CStringAt(buf, pos, s)
    ensures CString(buf, pos) == s
    decreases |s|
  {
    if s != "" {
      assert buf[pos] == buf[pos..pos + |s|][0];
      assert buf[pos + 1..pos + 1 + |s[1..]|] == buf[pos..pos + |s|][1..];
      ReadsBack(buf, pos + 1, s[1..]);
    }
  }

  lemma {:induction false} SuffixCString(q: string, k: nat)
    requires NulFree(q) && k <= |q|
    ensures CString(q, k) == q[k..]
    decreases |q| - k
  {
    if k < |q| {
      SuffixCString(q, k + 1);
    }
  }

  lemma WholeCString(q: string)
    requires NulFree(q)
    ensures CString(q, 0) == q
  {
    SuffixCString(q, 0);
  }

  // ------------------------------------------------------------------------
  // Automata over texts
  // ------------------------------------------------------------------------

  predicate IsQuote(c: char) {
    c == '\'' || c == '"'
  }

  /** The state an automaton reaches by consuming a text character by character. */
  function Consume<S>(step: (S, char) -> S, st: S, text: string): S {
    if text == "" then st else step(Consume(step, st, text[..|text| - 1]), text[|text| - 1])
  }

  lemma ConsumeSnoc<S>(step: (S, char) -> S, st: S, text: string, k: nat)
    requires k < |text|
    ensures Consume(step, st, text[..k + 1]) == step(Consume(step, st, text[..k]), text[k])
  {
    assert text[..k + 1][..k] == text[..k];
  }

  lemma {:induction false} ConsumeConcat<S>(step: (S, char) -> S, st: S, a: string, b: string)
    ensures Consume(step, st, a + b) == Consume(step, Consume(step, st, a), b)
    decreases |b|
  {
    if b == "" {
      assert a + b == a;
    } else {
      ConsumeConcat(step, st, a, b[..|b| - 1]);
      assert (a + b)[..|a + b| - 1] == a + b[..|b| - 1];
    }
  }

  // ------------------------------------------------------------------------
  // Semicolons
  // ------------------------------------------------------------------------

  predicate SemicolonFree(s: string) {
    forall i :: 0 <= i < |s| ==> s[i] != ';'
  }

  /** Offset of the first semicolon at or behind `from`, or the end of the text. */
  function Semicolon(s: string, from: nat): (n: nat)
    requires from <= |s|
    ensures from <= n <= |s|
    decreases |s| - from
  {
    if from < |s| && s[from] != ';' then Semicolon(s, from + 1) else from
  }

  lemma {:induction false} SemicolonIsFirst(s: string, from: nat)
    requires from <= |s|
    ensures var n := Semicolon(s, from); (forall i :: from <= i < n ==> s[i] != ';') && (n < |s| ==> s[n] == ';')
    decreases |s| - from
  {
    if from < |s| && s[from] != ';' {
      SemicolonIsFirst(s, from + 1);
    }
  }

  lemma {:induction false} SemicolonAt(s: string, from: nat, n: nat)
    requires from <= n <= |s| && (n == |s| || s[n] == ';')
    requires forall i :: from <= i < n ==> s[i] != ';'
    ensures Semicolon(s, from) == n
    decreases n - from
  {
    if from < n {
      SemicolonAt(s, from + 1, n);
    }
  }
}
