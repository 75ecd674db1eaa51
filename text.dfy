/** The few JavaScript string primitives the resume scorer relies on:
    `\s` / `trim()`, `split(/\s+/)`, `toLowerCase()`, `includes()` and `join()`. */
module Text {

  /** ECMAScript WhiteSpace and LineTerminator code points: the set that both
      `String.prototype.trim` and the regular-expression class `\s` use. */
  predicate IsWs(c: char) {
    c == '\t' || c == '\n' || c == '\U{000B}' || c == '\U{000C}' || c == '\r' ||
    c == ' ' || c == '\U{00A0}' || c == '\U{1680}' ||
    ('\U{2000}' <= c <= '\U{200A}') ||
    c == '\U{2028}' || c == '\U{2029}' || c == '\U{202F}' || c == '\U{205F}' ||
    c == '\U{3000}' || c == '\U{FEFF}'
  }

  predicate AllWs(s: string) {
    forall i :: 0 <= i < |s| ==> IsWs(s[i])
  }

  predicate NoWs(s: string) {
    forall i :: 0 <= i < |s| ==> !IsWs(s[i])
  }

  /** Neither end of `s` is whitespace. */
  predicate Trimmed(s: string) {
    s == [] || (!IsWs(s[0]) && !IsWs(s[|s| - 1]))
  }

  /** Number of whitespace characters at the start of `s`. */
  function LeadingWs(s: string): (n: nat)
    ensures n <= |s|
    ensures forall k :: 0 <= k < n ==> IsWs(s[k])
    ensures n < |s| ==> !IsWs(s[n])
  {
    if s != [] && IsWs(s[0]) then 1 + LeadingWs(s[1..]) else 0
  }

  /** Number of whitespace characters at the end of `s`. */
  function TrailingWs(s: string): (n: nat)
    ensures n <= |s|
    ensures forall k :: |s| - n <= k < |s| ==> IsWs(s[k])
    ensures n < |s| ==> !IsWs(s[|s| - n - 1])
  {
    if s != [] && IsWs(s[|s| - 1]) then 1 + TrailingWs(s[..|s| - 1]) else 0
  }

  /** `String.prototype.trim`. */
  function Trim(s: string): (r: string)
    ensures Trimmed(r)
    ensures r == [] <==> AllWs(s)
  {
    var i := LeadingWs(s);
    if i == |s| then []
    else
      var j := |s| - TrailingWs(s);
      assert i < j by { assert !IsWs(s[i]); }
      s[i..j]
  }

  /** What `trim` removes is whitespace on both sides of its result. */
  lemma TrimFramed(s: string)
    ensures var i := LeadingWs(s); var r := Trim(s);
      i + |r| <= |s| && r == s[i..i + |r|] && AllWs(s[..i]) && AllWs(s[i + |r|..])
  {
  }

  /** Length of the longest whitespace-free prefix of `s`. */
  function WordLength(s: string): (n: nat)
    ensures n <= |s|
    ensures forall k :: 0 <= k < n ==> !IsWs(s[k])
    ensures n < |s| ==> IsWs(s[n])
  {
    if s == [] || IsWs(s[0]) then 0 else 1 + WordLength(s[1..])
  }

  /** `s.split(/\s+/)`: the pieces between maximal whitespace runs. The first
      piece is empty when `s` starts with whitespace, the last one when `s`
      ends with it, and an empty `s` gives one empty piece. */
  function Split(s: string): (r: seq<string>)
    ensures |r| >= 1
    ensures forall k :: 0 <= k < |r| ==> NoWs(r[k])
    decreases |s|
  {
    var n := WordLength(s);
    var rest := s[n..];
    if rest == [] then [s[..n]]
    else
      assert LeadingWs(rest) > 0 by { assert IsWs(rest[0]); }
      [s[..n]] + Split(rest[LeadingWs(rest)..])
  }

  /** Number of maximal non-whitespace runs in `s`, counted character by
      character; `afterWs` says whether the character before `s` was whitespace
      (or `s` is at the start of the text). */
  function RunsFrom(s: string, afterWs: bool): nat {
    if s == [] then 0
    else (if afterWs && !IsWs(s[0]) then 1 else 0) + RunsFrom(s[1..], IsWs(s[0]))
  }

  function Runs(s: string): nat {
    RunsFrom(s, true)
  }

  lemma {:induction false} RunsOfWs(s: string, afterWs: bool)
    requires AllWs(s)
    ensures RunsFrom(s, afterWs) == 0
    decreases |s|
  {
    if s != [] { RunsOfWs(s[1..], IsWs(s[0])); }
  }

  /** A whitespace-free non-empty prefix of length `n` contributes one run
      exactly when it follows whitespace. */
  lemma {:induction false} RunsAfterWord(s: string, n: nat, afterWs: bool)
    requires 0 < n <= |s|
    requires forall k :: 0 <= k < n ==> !IsWs(s[k])
    ensures RunsFrom(s, afterWs) == (if afterWs then 1 else 0) + RunsFrom(s[n..], false)
    decreases n
  {
    if n > 1 {
      RunsAfterWord(s[1..], n - 1, false);
      assert s[1..][n - 1..] == s[n..];
    }
  }

  /** Leading whitespace adds no run. */
  lemma {:induction false} RunsSkipWs(s: string, afterWs: bool)
    requires s != [] && IsWs(s[0])
    ensures RunsFrom(s, afterWs) == RunsFrom(s[LeadingWs(s)..], true)
    decreases |s|
  {
    assert s[LeadingWs(s)..] == s[1..][LeadingWs(s[1..])..];
    if s[1..] != [] && IsWs(s[1]) {
      RunsSkipWs(s[1..], true);
    }
  }

  /** Trailing whitespace adds no run. */
  lemma {:induction false} RunsDropTail(u: string, v: string, afterWs: bool)
    requires AllWs(v)
    ensures RunsFrom(u + v, afterWs) == RunsFrom(u, afterWs)
    decreases |u|
  {
    if u == [] {
      assert u + v == v;
      RunsOfWs(v, afterWs);
    } else {
      assert (u + v)[1..] == u[1..] + v;
      RunsDropTail(u[1..], v, IsWs(u[0]));
    }
  }

  /** Trimming removes whitespace only, so it keeps the number of runs. */
  lemma RunsOfTrim(s: string)
    ensures Runs(Trim(s)) == Runs(s)
  {
    var i := LeadingWs(s);
    var r := Trim(s);
    TrimFramed(s);
    if i == |s| {
      assert s[..i] == s;
      RunsOfWs(s, true);
    } else {
      if i > 0 { RunsSkipWs(s, true); } else { assert s[i..] == s; }
      assert s[i..] == r + s[i + |r|..];
      RunsDropTail(r, s[i + |r|..], true);
    }
  }

  /** On trimmed non-empty text `split(/\s+/)` yields one piece per maximal
      non-whitespace run. */
  lemma {:induction false} SplitCountsRuns(s: string)
    requires s != [] && Trimmed(s)
    ensures |Split(s)| == Runs(s)
    decreases |s|
  {
    var n := WordLength(s);
    var rest := s[n..];
    RunsAfterWord(s, n, true);
    if rest != [] {
      var t := rest[LeadingWs(rest)..];
      RunsSkipWs(rest, false);
      assert rest[|rest| - 1] == s[|s| - 1];
      assert LeadingWs(rest) < |rest|;
      assert t[|t| - 1] == rest[|rest| - 1];
      SplitCountsRuns(t);
    }
  }

  /** JavaScript `str.trim().split(/\s+/).length`. */
  function WordCount(s: string): (n: nat)
    ensures n >= 1
    ensures Trim(s) != [] ==> n == Runs(s)
  {
    var t := Trim(s);
    if t == [] then |Split(t)|
    else
      SplitCountsRuns(t);
      RunsOfTrim(s);
      |Split(t)|
  }

  /** The word count of non-blank text is the number of maximal
      non-whitespace runs in it, hence at least one. */
  lemma WordCountIsRuns(s: string)
    requires !AllWs(s)
    ensures WordCount(s) == Runs(s) >= 1
  {
  }

  /** ASCII part of `toLowerCase`. */
  function LowerChar(c: char): char {
    if 'A' <= c <= 'Z' then (c as int + 32) as char else c
  }

  function Lower(s: string): (r: string)
    ensures |r| == |s|
    ensures forall i :: 0 <= i < |s| ==> r[i] == LowerChar(s[i])
    ensures forall i :: 0 <= i < |r| ==> !('A' <= r[i] <= 'Z')
    ensures forall i :: 0 <= i < |s| && !('A' <= s[i] <= 'Z') ==> r[i] == s[i]
  {
    if s == [] then [] else [LowerChar(s[0])] + Lower(s[1..])
  }

  ghost predicate OccursAt(s: string, p: string, i: int) {
    0 <= i && i + |p| <= |s| && s[i..i + |p|] == p
  }

  /** `p` occurs in `s` at some position. */
  ghost predicate Occurs(s: string, p: string) {
    exists i :: OccursAt(s, p, i)
  }

  /** `s.includes(p)`, checked position by position from the left. */
  function Contains(s: string, p: string): (found: bool)
    ensures p <= s ==> found
    ensures found ==> |p| <= |s|
    decreases |s|
  {
    p <= s || (s != [] && Contains(s[1..], p))
  }

  /** `Contains` holds exactly when `p` occurs in `s` at some position. */
  lemma {:induction false} ContainsIff(s: string, p: string)
    ensures Contains(s, p) <==> Occurs(s, p)
    decreases |s|
  {
    if s != [] { ContainsIff(s[1..], p); }
    if Contains(s, p) {
      if p <= s {
        assert OccursAt(s, p, 0);
      } else {
        var i :| OccursAt(s[1..], p, i);
        assert s[1..][i..i + |p|] == s[i + 1..i + 1 + |p|];
        assert OccursAt(s, p, i + 1);
      }
    }
    if exists i :: OccursAt(s, p, i) {
      var i :| OccursAt(s, p, i);
      if i == 0 {
        assert p <= s;
      } else {
        assert s[1..][i - 1..i - 1 + |p|] == s[i..i + |p|];
        assert OccursAt(s[1..], p, i - 1);
      }
    }
  }

  /** `p` occurs in `a + p + b`. */
  lemma ContainsInfix(a: string, p: string, b: string)
    ensures Contains(a + p + b, p)
  {
    assert OccursAt(a + p + b, p, |a|);
    ContainsIff(a + p + b, p);
  }

  /** What occurs in `s` occurs in any text that has `s` as an infix. */
  lemma ContainsWiden(a: string, s: string, b: string, p: string)
    requires Contains(s, p)
    ensures Contains(a + s + b, p)
  {
    ContainsIff(s, p);
    var i :| OccursAt(s, p, i);
    assert (a + s + b)[|a| + i..|a| + i + |p|] == s[i..i + |p|];
    assert OccursAt(a + s + b, p, |a| + i);
    ContainsIff(a + s + b, p);
  }

  /** `xs.join(sep)`: the elements in order, with `sep` between neighbours. */
  function Join(xs: seq<string>, sep: string): (r: string)
    ensures xs == [] ==> r == []
    ensures xs != [] ==> xs[0] <= r
    ensures |xs| > 1 ==> xs[0] + sep <= r
    decreases |xs|
  {
    if xs == [] then [] else if |xs| == 1 then xs[0] else xs[0] + sep + Join(xs[1..], sep)
  }

  /** `join` read from the other end: appending an element to a non-empty
      list appends the separator and that element to the joined text, which is
      how JavaScript builds the result left to right. */
  lemma {:induction false} JoinSnoc(xs: seq<string>, x: string, sep: string)
    requires xs != []
    ensures Join(xs + [x], sep) == Join(xs, sep) + sep + x
    decreases |xs|
  {
    if |xs| == 1 {
      assert (xs + [x])[1..] == [x];
    } else {
      assert (xs + [x])[1..] == xs[1..] + [x];
      JoinSnoc(xs[1..], x, sep);
    }
  }

  /** Every element of a list can be found in its joined form. */
  lemma {:induction false} JoinContainsEach(xs: seq<string>, sep: string, k: string)
    requires k in xs
    ensures Contains(Join(xs, sep), k)
    decreases |xs|
  {
    if |xs| == 1 {
      assert [] + k + [] == k;
      ContainsInfix([], k, []);
    } else if xs[0] == k {
      ContainsInfix([], k, sep + Join(xs[1..], sep));
      assert [] + k + (sep + Join(xs[1..], sep)) == Join(xs, sep);
    } else {
      JoinContainsEach(xs[1..], sep, k);
      ContainsWiden(xs[0] + sep, Join(xs[1..], sep), [], k);
      assert xs[0] + sep + Join(xs[1..], sep) + [] == Join(xs, sep);
    }
  }
}
