/**
 * The pieces of Python's `str` that the extractor relies on:
 * `splitlines()`, `strip()`, `strip('<>')`, `startswith` and the substring
 * test `in`.
 */
module PyStr {
  import opened Chars

  // ---------------------------------------------------------------------
  // splitlines
  // ---------------------------------------------------------------------

  /** The first line boundary at or after i, or |s| when there is none. */
  function BreakAt(s: string, i: nat): (j: nat)
    requires i <= |s|
    ensures i <= j <= |s| && (j == |s| || IsLineBreak(s[j]))
    ensures forall x :: i <= x < j ==> !IsLineBreak(s[x])
    decreases |s| - i
  {
    if i == |s| || IsLineBreak(s[i]) then i else BreakAt(s, i + 1)
  }

  /** Where the text resumes after the boundary at j: "\r\n" is one boundary. */
  function AfterBreak(s: string, j: nat): (k: nat)
    requires j < |s|
    ensures j < k <= |s|
    ensures k == j + 2 <==> s[j] == '\r' && j + 1 < |s| && s[j + 1] == '\n'
  {
    if s[j] == '\r' && j + 1 < |s| && s[j + 1] == '\n' then j + 2 else j + 1
  }

  /**
   * `s.splitlines()`: the text between line boundaries, with no empty line
   * after a final boundary and no line at all for the empty text.
   */
  function SplitLines(s: string): (r: seq<string>)
    ensures s == [] <==> r == []
    decreases |s|
  {
    if s == [] then []
    else
      var j := BreakAt(s, 0);
      if j == |s| then [s]
      else [s[..j]] + SplitLines(s[AfterBreak(s, j)..])
  }

  /** A line holds no boundary character. */
  ghost predicate NoBreak(w: string)
  {
    forall x :: 0 <= x < |w| ==> !IsLineBreak(w[x])
  }

  /** No line that `splitlines` produces contains a line boundary. */
  lemma {:induction false} SplitLinesNoBreak(s: string)
    ensures forall i :: 0 <= i < |SplitLines(s)| ==> NoBreak(SplitLines(s)[i])
    decreases |s|
  {
    if s != [] {
      var j := BreakAt(s, 0);
      if j < |s| {
        SplitLinesNoBreak(s[AfterBreak(s, j)..]);
      }
    }
  }

  /** Text without any boundary is a single line. */
  lemma SplitLinesSingle(w: string)
    requires w != [] && NoBreak(w)
    ensures SplitLines(w) == [w]
  {
    assert BreakAt(w, 0) == |w|;
  }

  /** The text of lines each ended by '\n'. */
  function JoinLines(ls: seq<string>): (r: string)
    ensures |r| >= |ls|
  {
    if ls == [] then [] else ls[0] + "\n" + JoinLines(ls[1..])
  }

  /** A boundary-free line followed by '\n' is split off as the first line. */
  lemma SplitLinesCons(w: string, rest: string)
    requires NoBreak(w)
    ensures SplitLines(w + "\n" + rest) == [w] + SplitLines(rest)
  {
    var s := w + "\n" + rest;
    assert s[|w|] == '\n';
    assert forall x :: 0 <= x < |w| ==> s[x] == w[x];
    assert BreakAt(s, 0) == |w| by {
      BreakAtFirst(s, 0, |w|);
    }
    assert s[..|w|] == w;
    assert s[|w| + 1..] == rest;
  }

  /** A boundary-free line followed by "\r\n" is split off as the first line: the pair is one boundary. */
  lemma SplitLinesConsCrLf(w: string, rest: string)
    requires NoBreak(w)
    ensures SplitLines(w + "\r\n" + rest) == [w] + SplitLines(rest)
  {
    var s := w + "\r\n" + rest;
    assert s[|w|] == '\r' && s[|w| + 1] == '\n';
    assert forall x :: 0 <= x < |w| ==> s[x] == w[x];
    assert BreakAt(s, 0) == |w| by {
      BreakAtFirst(s, 0, |w|);
    }
    assert AfterBreak(s, |w|) == |w| + 2;
    assert s[..|w|] == w;
    assert s[|w| + 2..] == rest;
  }

  /** The boundary search stops at the first boundary. */
  lemma {:induction false} BreakAtFirst(s: string, i: nat, j: nat)
    requires i <= j < |s| && IsLineBreak(s[j])
    requires forall x :: i <= x < j ==> !IsLineBreak(s[x])
    ensures BreakAt(s, i) == j
    decreases j - i
  {
    if i < j {
      BreakAtFirst(s, i + 1, j);
    }
  }

  /** Round trip: splitting lines that were joined with '\n' gives the lines back. */
  lemma {:induction false} SplitJoin(ls: seq<string>)
    requires forall i :: 0 <= i < |ls| ==> NoBreak(ls[i])
    ensures SplitLines(JoinLines(ls)) == ls
  {
    if ls != [] {
      SplitJoin(ls[1..]);
      SplitLinesCons(ls[0], JoinLines(ls[1..]));
    }
  }

  // ---------------------------------------------------------------------
  // strip, startswith, in
  // ---------------------------------------------------------------------

  /** Searching down from j: the position just after the last character of s[i..j] outside class k. */
  function TrimEnd(s: string, i: nat, j: nat, k: Class): (e: nat)
    requires i <= j <= |s|
    ensures i <= e <= j && AllIn(s, e, j, k) && (e == i || !In(s[e - 1], k))
    decreases j - i
  {
    if j == i || !In(s[j - 1], k) then j else TrimEnd(s, i, j - 1, k)
  }

  /** Where s is left after removing class-k characters from both ends. */
  function StripBounds(s: string, k: Class): (b: (nat, nat))
    ensures b.0 <= b.1 <= |s|
    ensures AllIn(s, 0, b.0, k) && AllIn(s, b.1, |s|, k)
    ensures b.0 < b.1 ==> !In(s[b.0], k) && !In(s[b.1 - 1], k)
    ensures b.0 == b.1 ==> AllIn(s, 0, |s|, k)
  {
    var a := RunEnd(s, 0, k);
    (a, TrimEnd(s, a, |s|, k))
  }

  /**
   * `s.strip(chars)` for the characters of class k: s without its leading
   * and trailing class-k characters; what is left neither starts nor ends
   * with one.
   */
  function StripOf(s: string, k: Class): (r: string)
    ensures |r| <= |s|
    ensures r == [] || (!In(r[0], k) && !In(r[|r| - 1], k))
  {
    var b := StripBounds(s, k);
    s[b.0..b.1]
  }

  /** Stripping twice is stripping once. */
  lemma StripIdempotent(s: string, k: Class)
    ensures StripOf(StripOf(s, k), k) == StripOf(s, k)
  {
    var r := StripOf(s, k);
    if r != [] {
      assert RunEnd(r, 0, k) == 0;
      assert TrimEnd(r, 0, |r|, k) == |r|;
    }
  }

  /** Text that neither starts nor ends with a class-k character is left as it is. */
  lemma StripKeeps(s: string, k: Class)
    requires s == [] || (!In(s[0], k) && !In(s[|s| - 1], k))
    ensures StripOf(s, k) == s
  {
    if s != [] {
      assert RunEnd(s, 0, k) == 0;
      assert TrimEnd(s, 0, |s|, k) == |s|;
    }
  }

  /** `s.strip()`: whitespace removed from both ends. */
  function Strip(s: string): (r: string)
    ensures |r| <= |s|
    ensures r == [] || (!IsSpace(r[0]) && !IsSpace(r[|r| - 1]))
  {
    StripOf(s, Space)
  }

  /** `s.strip('<>')`: angle brackets removed from both ends. */
  function StripAngles(s: string): (r: string)
    ensures |r| <= |s|
    ensures r == [] || (r[0] != '<' && r[0] != '>' && r[|r| - 1] != '<' && r[|r| - 1] != '>')
  {
    StripOf(s, Angle)
  }

  /** `t.startswith(w)` */
  predicate StartsWith(t: string, w: string)
  {
    |w| <= |t| && t[..|w|] == w
  }

  /** `line.strip().startswith("E")` holds exactly when the first non-space character of line is `E`. */
  lemma StripStartsWithE(line: string)
    ensures StartsWith(Strip(line), "E") <==>
      RunEnd(line, 0, Space) < |line| && line[RunEnd(line, 0, Space)] == 'E'
  {
    var a := RunEnd(line, 0, Space);
    if a < |line| {
      assert !IsSpace(line[a]);
      assert TrimEnd(line, a, |line|, Space) > a;
    }
  }

  /** w occurs in t at position x. */
  predicate OccursAt(t: string, w: string, x: nat)
  {
    x + |w| <= |t| && t[x..x + |w|] == w
  }

  /** `w in t` over the positions from i on. */
  function OccursFrom(t: string, w: string, i: nat): (r: bool)
    ensures r <==> exists x :: i <= x && OccursAt(t, w, x)
    decreases |t| - i
  {
    if i + |w| > |t| then false
    else OccursAt(t, w, i) || OccursFrom(t, w, i + 1)
  }

  /** `w in t`: w occurs somewhere in t. */
  function Contains(t: string, w: string): (r: bool)
    ensures r <==> exists x :: OccursAt(t, w, x)
  {
    OccursFrom(t, w, 0)
  }
}
