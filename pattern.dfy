/**
 * The two regular expressions of `extract_total_net_distribution` and the
 * `re.sub` that cleans up their result, written out as character scanners.
 *
 *   primary: ^E\s+Net Distribution.*?([?₹]?\s*[\d,]+\.\d+)\s*$   (MULTILINE, IGNORECASE)
 *   amount:  [?₹]?\s*[\d,]+\.\d+
 *   cleanup: re.sub(r'[?₹\s]', '', value)
 *
 * Each scanner follows the backtracking engine: greedy runs take as much as
 * they can, `.*?` takes as little as it can, and `findall` resumes where the
 * previous match ended. Positions are indices into the whole text, because
 * `\s` also matches '\n', so one match of the primary pattern may span lines.
 */
module Pattern {
  import opened Wrappers
  import opened Chars

  // ---------------------------------------------------------------------
  // The amount `[?₹]?\s*[\d,]+\.\d+`
  // ---------------------------------------------------------------------

  /** v has the shape `[\d,]+\.\d+`: digits or commas, a point, then digits. */
  ghost predicate IsAmount(v: string)
  {
    exists k :: 0 < k < |v| - 1 && v[k] == '.'
      && (forall x :: 0 <= x < k ==> IsDigitOrComma(v[x]))
      && (forall x :: k < x < |v| ==> IsDigit(v[x]))
  }

  /**
   * s[q..d] matches `[?₹]?\s*[\d,]+\.\d+`: an optional `?` or `₹` at q, then
   * whitespace up to j, digits or commas up to the point at k, digits up to d.
   */
  ghost predicate GroupParse(s: string, q: nat, j: nat, k: nat, d: nat)
  {
    && q <= j < k && k + 1 < d <= |s|
    && ((q < j && IsCurrency(s[q]) && AllIn(s, q + 1, j, Space)) || AllIn(s, q, j, Space))
    && AllIn(s, j, k, DigitComma) && s[k] == '.' && AllIn(s, k + 1, d, Digit)
  }

  /** Where the amount pattern, tried at one position, puts its digits, its point and its end. */
  datatype Amount = Amount(digits: nat, dot: nat, stop: nat)

  /**
   * The amount pattern tried at position q. Every quantifier in it is greedy
   * and no backtracking into a run can help, so the match, if any, is unique
   * and ends after the longest run of digits behind the point.
   */
  function AmountAt(s: string, q: nat): (r: Option<Amount>)
    requires q <= |s|
    ensures r.Some? ==> q <= r.value.digits < r.value.dot && r.value.dot + 1 < r.value.stop <= |s|
  {
    var i := if q < |s| && IsCurrency(s[q]) then q + 1 else q;
    var j := RunEnd(s, i, Space);
    var k := RunEnd(s, j, DigitComma);
    if k == j || k == |s| || s[k] != '.' then None
    else
      var d := RunEnd(s, k + 1, Digit);
      if d == k + 1 then None else Some(Amount(j, k, d))
  }

  /**
   * Soundness of AmountAt: what it finds matches the amount pattern, and no
   * digit follows the match.
   */
  lemma AmountAtSound(s: string, q: nat)
    requires q <= |s| && AmountAt(s, q).Some?
    ensures GroupParse(s, q, AmountAt(s, q).value.digits, AmountAt(s, q).value.dot, AmountAt(s, q).value.stop)
    ensures AmountAt(s, q).value.stop == |s| || !IsDigit(s[AmountAt(s, q).value.stop])
  {
  }

  /**
   * Completeness of AmountAt: whenever s[q..d] matches the amount pattern,
   * AmountAt finds the same digits and point and ends no earlier; it ends
   * exactly at d when no digit follows.
   */
  lemma AmountAtComplete(s: string, q: nat, j: nat, k: nat, d: nat)
    requires q <= |s| && GroupParse(s, q, j, k, d)
    ensures AmountAt(s, q).Some?
    ensures AmountAt(s, q).value.digits == j && AmountAt(s, q).value.dot == k
    ensures d <= AmountAt(s, q).value.stop
    ensures d == |s| || !IsDigit(s[d]) ==> AmountAt(s, q) == Some(Amount(j, k, d))
  {
    assert In(s[j], DigitComma);
    var i := if q < |s| && IsCurrency(s[q]) then q + 1 else q;
    RunEndUnique(s, i, j, Space);
    RunEndUnique(s, j, k, DigitComma);
    RunEndCovers(s, k + 1, d, Digit);
    if d == |s| || !IsDigit(s[d]) {
      RunEndUnique(s, k + 1, d, Digit);
    }
  }

  // ---------------------------------------------------------------------
  // The cleanup `re.sub(r'[?₹\s]', '', value)`
  // ---------------------------------------------------------------------

  /** Deletes every `?`, `₹` and whitespace character and keeps all others in order. */
  function Normalise(v: string): (r: string)
    ensures |r| <= |v|
  {
    if v == [] then []
    else (if IsRemovable(v[0]) then [] else [v[0]]) + Normalise(v[1..])
  }

  /** The cleanup keeps exactly the characters that are not `?`, `₹` or whitespace. */
  lemma {:induction false} NormaliseMembers(v: string)
    ensures forall c :: c in Normalise(v) <==> c in v && !IsRemovable(c)
    decreases |v|
  {
    if v != [] {
      NormaliseMembers(v[1..]);
      assert v == [v[0]] + v[1..];
    }
  }

  /** The cleanup works character by character, so it distributes over concatenation. */
  lemma {:induction false} NormaliseConcat(a: string, b: string)
    ensures Normalise(a + b) == Normalise(a) + Normalise(b)
    decreases |a|
  {
    if a == [] {
      assert a + b == b;
    } else {
      assert (a + b)[1..] == a[1..] + b;
      NormaliseConcat(a[1..], b);
    }
  }

  /** A string without `?`, `₹` or whitespace (commas and points included) is left unchanged. */
  lemma {:induction false} NormaliseKeeps(v: string)
    requires forall x :: 0 <= x < |v| ==> !IsRemovable(v[x])
    ensures Normalise(v) == v
    decreases |v|
  {
    if v != [] {
      NormaliseKeeps(v[1..]);
    }
  }

  /** The `?`, `₹` and whitespace in front of a matched amount's digits are all removed. */
  lemma GroupPrefixDropped(s: string, q: nat, j: nat, k: nat, d: nat)
    requires GroupParse(s, q, j, k, d)
    ensures Normalise(s[q..j]) == []
  {
    var w := s[q..j];
    forall x | 0 <= x < |w| ensures IsRemovable(w[x]) {
      assert w[x] == s[q + x];
      if x > 0 || !IsCurrency(s[q]) {
        assert In(s[q + x], Space);
      }
    }
    NormaliseDrops(w);
  }

  /** The `[\d,]+\.\d+` part of a matched amount has that shape and survives the cleanup intact. */
  lemma GroupDigitsKept(s: string, q: nat, j: nat, k: nat, d: nat)
    requires GroupParse(s, q, j, k, d)
    ensures Normalise(s[j..d]) == s[j..d] && IsAmount(s[j..d])
  {
    var v := s[j..d];
    forall x | 0 <= x < |v| ensures !IsRemovable(v[x]) {
      assert v[x] == s[j + x];
      if j + x < k {
        assert In(s[j + x], DigitComma);
      } else if j + x > k {
        assert In(s[j + x], Digit);
      }
    }
    NormaliseKeeps(v);
    assert v[k - j] == '.';
    forall x | 0 <= x < k - j ensures IsDigitOrComma(v[x]) {
      assert In(s[j + x], DigitComma);
    }
    forall x | k - j < x < |v| ensures IsDigit(v[x]) {
      assert In(s[j + x], Digit);
    }
  }

  /** Cleaning up a matched amount leaves exactly its `[\d,]+\.\d+` part. */
  lemma NormaliseGroup(s: string, q: nat, j: nat, k: nat, d: nat)
    requires GroupParse(s, q, j, k, d)
    ensures Normalise(s[q..d]) == s[j..d] && IsAmount(Normalise(s[q..d]))
  {
    var prefix, amount := s[q..j], s[j..d];
    assert s[q..d] == prefix + amount;
    NormaliseConcat(prefix, amount);
    GroupPrefixDropped(s, q, j, k, d);
    GroupDigitsKept(s, q, j, k, d);
    assert Normalise(s[q..d]) == [] + amount;
  }

  /** Normalising the text the amount pattern matched leaves exactly its `[\d,]+\.\d+` part. */
  lemma NormaliseAmount(s: string, q: nat)
    requires q <= |s| && AmountAt(s, q).Some?
    ensures Normalise(s[q..AmountAt(s, q).value.stop]) == s[AmountAt(s, q).value.digits..AmountAt(s, q).value.stop]
    ensures IsAmount(Normalise(s[q..AmountAt(s, q).value.stop]))
  {
    AmountAtSound(s, q);
    var am := AmountAt(s, q).value;
    NormaliseGroup(s, q, am.digits, am.dot, am.stop);
  }

  /** A string made only of `?`, `₹` and whitespace is removed entirely. */
  lemma {:induction false} NormaliseDrops(v: string)
    requires forall x :: 0 <= x < |v| ==> IsRemovable(v[x])
    ensures Normalise(v) == []
    decreases |v|
  {
    if v != [] {
      NormaliseDrops(v[1..]);
    }
  }

  // ---------------------------------------------------------------------
  // The primary pattern `^E\s+Net Distribution.*?(AMOUNT)\s*$`
  // ---------------------------------------------------------------------

  /** The label, in the lower case that IGNORECASE compares in. */
  const Label: string := "net distribution"

  predicate IsLetterE(c: char)
  {
    c == 'E' || c == 'e'
  }

  /** `^` under MULTILINE: the start of the text or just after a '\n'. */
  predicate LineStart(s: string, p: nat)
    requires p <= |s|
  {
    p == 0 || s[p - 1] == '\n'
  }

  /** `$` under MULTILINE: the end of the text or just before a '\n'. */
  predicate LineEnd(s: string, m: nat)
    requires m <= |s|
  {
    m == |s| || s[m] == '\n'
  }

  /** `Net Distribution`, compared without regard to (ASCII) case, starts at a. */
  predicate LabelAt(s: string, a: nat)
  {
    a + |Label| <= |s| && forall x :: 0 <= x < |Label| ==> Lower(s[a + x]) == Label[x]
  }

  /** What `.*?` may step over: no '\n' in s[i..j]. */
  ghost predicate NoNewline(s: string, i: nat, j: nat)
    requires i <= j <= |s|
  {
    forall x :: i <= x < j ==> s[x] != '\n'
  }

  /** `^E\s+Net Distribution` matches at p, with the label at a. */
  ghost predicate HeadParse(s: string, p: nat, a: nat)
  {
    && p + 1 < a && a + |Label| <= |s|
    && LineStart(s, p) && IsLetterE(s[p])
    && AllIn(s, p + 1, a, Space)
    && LabelAt(s, a)
  }

  /** `(AMOUNT)\s*$` matches s[q..m], with the group s[q..d] and its digits from j. */
  ghost predicate TailParse(s: string, q: nat, j: nat, k: nat, d: nat, m: nat)
  {
    && GroupParse(s, q, j, k, d)
    && d <= m <= |s| && AllIn(s, d, m, Space)
    && LineEnd(s, m)
  }

  /** The whole primary pattern matches s[p..m] this way; `.*?` covers s[a + |Label|..q]. */
  ghost predicate PrimaryParse(s: string, p: nat, a: nat, q: nat, j: nat, k: nat, d: nat, m: nat)
  {
    && HeadParse(s, p, a)
    && a + |Label| <= q <= |s|
    && NoNewline(s, a + |Label|, q)
    && TailParse(s, q, j, k, d, m)
  }

  /** Where the trailing `\s*$` of a match ends: its digits, its group end and the match end. */
  datatype Tail = Tail(digits: nat, dot: nat, stop: nat, end: nat)

  /**
   * The last position in s[d..t] where `$` holds: a greedy `\s*` followed by
   * `$` backtracks from the end of the whitespace run to the first `$` it meets.
   */
  function LastLineEnd(s: string, d: nat, t: nat): (m: Option<nat>)
    requires d <= t <= |s|
    ensures m.Some? ==> d <= m.value <= t && LineEnd(s, m.value)
    decreases t - d
  {
    if LineEnd(s, t) then Some(t)
    else if t == d then None
    else LastLineEnd(s, d, t - 1)
  }

  /** LastLineEnd finds the last `$` position in s[d..t], and finds one whenever there is one. */
  lemma {:induction false} LastLineEndFacts(s: string, d: nat, t: nat)
    requires d <= t <= |s|
    ensures LastLineEnd(s, d, t).Some? ==> forall x :: LastLineEnd(s, d, t).value < x <= t ==> !LineEnd(s, x)
    ensures LastLineEnd(s, d, t).None? ==> forall x :: d <= x <= t ==> !LineEnd(s, x)
    decreases t - d
  {
    if !LineEnd(s, t) && t > d {
      LastLineEndFacts(s, d, t - 1);
    }
  }

  /** `(AMOUNT)\s*$` tried at position q. */
  function TailAt(s: string, q: nat): (r: Option<Tail>)
    requires q <= |s|
    ensures r.Some? ==> q <= r.value.digits < r.value.dot && r.value.dot + 1 < r.value.stop <= r.value.end <= |s|
  {
    match AmountAt(s, q)
    case None => None
    case Some(a) =>
      match LastLineEnd(s, a.stop, RunEnd(s, a.stop, Space))
      case None => None
      case Some(m) => Some(Tail(a.digits, a.dot, a.stop, m))
  }

  /** Soundness of TailAt: what it finds is a group followed by trailing whitespace up to a `$`. */
  lemma TailAtSound(s: string, q: nat)
    requires q <= |s| && TailAt(s, q).Some?
    ensures TailParse(s, q, TailAt(s, q).value.digits, TailAt(s, q).value.dot, TailAt(s, q).value.stop, TailAt(s, q).value.end)
  {
    AmountAtSound(s, q);
  }

  /** Completeness of TailAt: it finds every tail that the declarative description admits. */
  lemma TailAtComplete(s: string, q: nat, j: nat, k: nat, d: nat, m: nat)
    requires q <= |s| && TailParse(s, q, j, k, d, m)
    ensures TailAt(s, q).Some? && TailAt(s, q).value.digits == j && TailAt(s, q).value.stop == d
  {
    assert d == |s| || !IsDigit(s[d]) by {
      if d < m {
        assert In(s[d], Space);
      }
    }
    AmountAtComplete(s, q, j, k, d);
    RunEndCovers(s, d, m, Space);
    LastLineEndFacts(s, d, RunEnd(s, d, Space));
  }

  /** The outcome of trying `(AMOUNT)\s*$` at every position 0..|s|. */
  function TailTable(s: string): (t: seq<Option<Tail>>)
    ensures |t| == |s| + 1
  {
    seq(|s| + 1, q requires 0 <= q <= |s| => TailAt(s, q))
  }

  /** Entry q of the tail table is the outcome at q. */
  lemma TailTableAt(s: string, q: nat)
    requires q <= |s|
    ensures TailTable(s)[q] == TailAt(s, q)
  {
  }

  /**
   * `.*?` followed by the tail, from position q, over a table of tail
   * outcomes: the first position not past a '\n' where the tail matches.
   */
  function LazyFirst(s: string, t: seq<Option<Tail>>, q: nat): (r: Option<nat>)
    requires |t| == |s| + 1 && q <= |s|
    ensures r.Some? ==> q <= r.value <= |s| && t[r.value].Some?
    decreases |s| - q
  {
    if t[q].Some? then Some(q)
    else if q < |s| && s[q] != '\n' then LazyFirst(s, t, q + 1)
    else None
  }

  /**
   * What the lazy `.*?` finds: the first position from q, reachable without
   * crossing a '\n', where the tail matches; nothing when there is none.
   */
  lemma {:induction false} LazyFirstFacts(s: string, t: seq<Option<Tail>>, q: nat)
    requires |t| == |s| + 1 && q <= |s|
    ensures LazyFirst(s, t, q).Some? ==> NoNewline(s, q, LazyFirst(s, t, q).value)
    ensures LazyFirst(s, t, q).Some? ==> forall x :: q <= x < LazyFirst(s, t, q).value ==> t[x].None?
    ensures LazyFirst(s, t, q).None? ==> forall x :: q <= x <= |s| && NoNewline(s, q, x) ==> t[x].None?
    decreases |s| - q
  {
    if t[q].None? && q < |s| && s[q] != '\n' {
      LazyFirstFacts(s, t, q + 1);
      forall x | q < x <= |s| && NoNewline(s, q, x) ensures NoNewline(s, q + 1, x) {
      }
    }
  }

  /** Where one match of the primary pattern lies: label, group start, digits, group end, match end. */
  datatype Span = Span(labelStart: nat, start: nat, digits: nat, dot: nat, stop: nat, end: nat)

  /** `^E\s+` followed by the label, tried at p: where the label starts. */
  function HeadAt(s: string, p: nat): (r: Option<nat>)
    requires p <= |s|
    ensures r.Some? ==> p + 1 < r.value && r.value + |Label| <= |s|
  {
    if p < |s| && LineStart(s, p) && IsLetterE(s[p]) then
      var a := RunEnd(s, p + 1, Space);
      if a > p + 1 && LabelAt(s, a) then Some(a) else None
    else None
  }

  /** The primary pattern tried at position p, given the tail outcomes at every position. */
  function MatchIn(s: string, tails: seq<Option<Tail>>, p: nat): (r: Option<Span>)
    requires |tails| == |s| + 1 && p <= |s|
    ensures r.Some? ==> p < r.value.labelStart && r.value.labelStart + |Label| <= r.value.start <= |s|
    ensures r.Some? ==> tails[r.value.start] == Some(Tail(r.value.digits, r.value.dot, r.value.stop, r.value.end))
  {
    match HeadAt(s, p)
    case None => None
    case Some(a) =>
      match LazyFirst(s, tails, a + |Label|)
      case None => None
      case Some(q) =>
        var t := tails[q].value;
        Some(Span(a, q, t.digits, t.dot, t.stop, t.end))
  }

  /** The primary pattern tried at position p: the match the backtracking engine finds there. */
  function MatchAt(s: string, p: nat): (r: Option<Span>)
    requires p <= |s|
    ensures r.Some? ==> p < r.value.labelStart && r.value.labelStart + |Label| <= r.value.start
    ensures r.Some? ==> r.value.start <= r.value.digits < r.value.dot && r.value.dot + 1 < r.value.stop <= r.value.end <= |s|
  {
    var r := MatchIn(s, TailTable(s), p);
    if r.Some? then TailTableAt(s, r.value.start); r else r
  }

  /** `^E\s+` then the label: the whitespace run after `E` is the longest one. */
  lemma HeadSound(s: string, p: nat)
    requires p <= |s| && HeadAt(s, p).Some?
    ensures HeadParse(s, p, HeadAt(s, p).value)
  {
  }

  /**
   * A match found at p, for any tail table: the head `^E\s+` and the label,
   * then no '\n' before the group starts, and no earlier table entry succeeds.
   */
  lemma MatchInSound(s: string, tails: seq<Option<Tail>>, p: nat)
    requires |tails| == |s| + 1 && p <= |s| && MatchIn(s, tails, p).Some?
    ensures HeadParse(s, p, MatchIn(s, tails, p).value.labelStart)
    ensures NoNewline(s, MatchIn(s, tails, p).value.labelStart + |Label|, MatchIn(s, tails, p).value.start)
    ensures forall x :: MatchIn(s, tails, p).value.labelStart + |Label| <= x < MatchIn(s, tails, p).value.start ==> tails[x].None?
  {
    var a := HeadAt(s, p).value;
    HeadSound(s, p);
    LazyFirstFacts(s, tails, a + |Label|);
  }

  /** Soundness of MatchAt: a match it finds satisfies PrimaryParse. */
  lemma MatchAtSound(s: string, p: nat)
    requires p <= |s| && MatchAt(s, p).Some?
    ensures PrimaryParse(s, p, MatchAt(s, p).value.labelStart, MatchAt(s, p).value.start,
                         MatchAt(s, p).value.digits, MatchAt(s, p).value.dot, MatchAt(s, p).value.stop,
                         MatchAt(s, p).value.end)
  {
    var sp := MatchAt(s, p).value;
    MatchInSound(s, TailTable(s), p);
    TailTableAt(s, sp.start);
    TailAtSound(s, sp.start);
  }

  /** The group of a match found at p starts at the first place after the label where a tail matches. */
  lemma MatchAtFirst(s: string, p: nat, x: nat)
    requires p <= |s| && MatchAt(s, p).Some?
    requires MatchAt(s, p).value.labelStart + |Label| <= x < MatchAt(s, p).value.start
    ensures TailAt(s, x).None?
  {
    MatchInSound(s, TailTable(s), p);
    TailTableAt(s, x);
  }

  /** The label starts with a letter, so the whitespace run before it ends there. */
  lemma LabelNotSpace(s: string, a: nat)
    requires LabelAt(s, a)
    ensures !IsSpace(s[a]) && !IsLetterE(s[a])
  {
    assert Lower(s[a]) == Label[0];
  }

  /** The label after `E\s+` is found where the declarative head puts it. */
  lemma HeadComplete(s: string, p: nat, a: nat)
    requires HeadParse(s, p, a)
    ensures HeadAt(s, p) == Some(a)
  {
    LabelNotSpace(s, a);
    RunEndUnique(s, p + 1, a, Space);
  }

  /**
   * For any tail table: after a head at p, a tail entry at q reachable
   * without crossing a '\n' makes MatchIn succeed, no later than q.
   */
  lemma MatchInComplete(s: string, tails: seq<Option<Tail>>, p: nat, a: nat, q: nat)
    requires |tails| == |s| + 1 && p <= |s| && HeadAt(s, p) == Some(a)
    requires a + |Label| <= q <= |s| && NoNewline(s, a + |Label|, q) && tails[q].Some?
    ensures MatchIn(s, tails, p).Some?
    ensures MatchIn(s, tails, p).value.labelStart == a && MatchIn(s, tails, p).value.start <= q
  {
    LazyFirstFacts(s, tails, a + |Label|);
  }

  /**
   * Completeness of MatchAt: whenever the primary pattern can match at p with
   * the group starting at q, MatchAt finds a match at p whose group starts no
   * later than q.
   */
  lemma MatchAtComplete(s: string, p: nat, a: nat, q: nat, j: nat, k: nat, d: nat, m: nat)
    requires p <= |s| && PrimaryParse(s, p, a, q, j, k, d, m)
    ensures MatchAt(s, p).Some?
    ensures MatchAt(s, p).value.labelStart == a && MatchAt(s, p).value.start <= q
  {
    HeadComplete(s, p, a);
    TailAtComplete(s, q, j, k, d, m);
    TailTableAt(s, q);
    MatchInComplete(s, TailTable(s), p, a, q);
  }

  /**
   * No position strictly inside a parse of the primary pattern, up to its
   * end, is the start of a line that begins with `E` or `e`.
   */
  lemma ParseExcludes(s: string, p: nat, a: nat, q: nat, j: nat, k: nat, d: nat, m: nat, p': nat)
    requires PrimaryParse(s, p, a, q, j, k, d, m)
    requires p < p' <= m && p' < |s|
    ensures LineStart(s, p') ==> !IsLetterE(s[p'])
  {
    if p' < a {
      assert In(s[p'], Space);
    } else if p' == a {
      LabelNotSpace(s, a);
    } else if p' <= a + |Label| {
      assert Lower(s[p' - 1]) == Label[p' - 1 - a];
    } else if p' <= q {
      assert s[p' - 1] != '\n';
    } else if p' < j {
      assert In(s[p'], Space);
    } else if p' < k {
      assert In(s[p'], DigitComma);
    } else if p' == k {
    } else if p' < d {
      assert In(s[p'], Digit);
    } else {
      assert In(s[p'], Space);
    }
  }

  /**
   * Two matches never overlap: inside a match, no position is the start of a
   * line beginning with `E`, so no match starts there.
   */
  lemma MatchesDisjoint(s: string, p: nat, p': nat)
    requires p <= |s| && MatchAt(s, p).Some?
    requires p < p' <= MatchAt(s, p).value.end
    ensures MatchAt(s, p').None?
  {
    MatchAtSound(s, p);
    var sp := MatchAt(s, p).value;
    if p' < |s| {
      ParseExcludes(s, p, sp.labelStart, sp.start, sp.digits, sp.dot, sp.stop, sp.end, p');
    }
  }

  // ---------------------------------------------------------------------
  // findall
  // ---------------------------------------------------------------------

  /** The outcome of trying the primary pattern at every position 0..|s|. */
  function MatchTable(s: string): (t: seq<Option<Span>>)
    ensures |t| == |s| + 1
    ensures forall p :: 0 <= p <= |s| ==> t[p] == MatchAt(s, p)
  {
    seq(|s| + 1, p requires 0 <= p <= |s| => MatchAt(s, p))
  }

  /** A table of match outcomes in which every match ends after it starts and inside the text. */
  ghost predicate TableOk(s: string, t: seq<Option<Span>>)
  {
    |t| == |s| + 1 && forall p :: 0 <= p <= |s| && t[p].Some? ==> p < t[p].value.end && t[p].value.start <= t[p].value.stop <= |s| && t[p].value.end <= |s|
  }

  /** findall over a table of match outcomes: resume at the end of each match. */
  function Scan(s: string, t: seq<Option<Span>>, from: nat): (r: seq<string>)
    requires TableOk(s, t) && from <= |s| + 1
    ensures |r| <= |s| + 1 - from
    decreases |s| + 1 - from
  {
    if from > |s| then []
    else
      match t[from]
      case Some(sp) => [s[sp.start..sp.stop]] + Scan(s, t, sp.end)
      case None => Scan(s, t, from + 1)
  }

  /**
   * `pattern.findall(s)`: the group of each match, left to right, each search
   * resuming where the previous match ended.
   */
  function FindAll(s: string): (r: seq<string>)
    ensures |r| <= |s| + 1
  {
    var t := MatchTable(s);
    assert TableOk(s, t);
    Scan(s, t, 0)
  }

  /** The groups of the matches at every matching position from `from` on. */
  ghost function Every(s: string, t: seq<Option<Span>>, from: nat): seq<string>
    requires TableOk(s, t) && from <= |s| + 1
    decreases |s| + 1 - from
  {
    if from > |s| then []
    else
      (match t[from]
       case Some(sp) => [s[sp.start..sp.stop]]
       case None => [])
      + Every(s, t, from + 1)
  }

  /** Positions where nothing matches contribute nothing. */
  lemma {:induction false} EverySkip(s: string, t: seq<Option<Span>>, x: nat, y: nat)
    requires TableOk(s, t) && x <= y <= |s| + 1
    requires forall z :: x <= z < y && z <= |s| ==> t[z].None?
    ensures Every(s, t, x) == Every(s, t, y)
    decreases y - x
  {
    if x < y {
      EverySkip(s, t, x + 1, y);
    }
  }

  /** When no match starts inside another, resuming after each match misses none of them. */
  lemma {:induction false} ScanIsEvery(s: string, t: seq<Option<Span>>, from: nat)
    requires TableOk(s, t) && from <= |s| + 1
    requires forall p, z :: 0 <= p < z <= |s| && t[p].Some? && z < t[p].value.end ==> t[z].None?
    ensures Scan(s, t, from) == Every(s, t, from)
    decreases |s| + 1 - from
  {
    if from <= |s| {
      match t[from]
      case Some(sp) =>
        EverySkip(s, t, from + 1, sp.end);
        ScanIsEvery(s, t, sp.end);
        assert Scan(s, t, from) == [s[sp.start..sp.stop]] + Scan(s, t, sp.end);
        assert Every(s, t, from) == [s[sp.start..sp.stop]] + Every(s, t, from + 1);
      case None =>
        ScanIsEvery(s, t, from + 1);
        assert Scan(s, t, from) == Scan(s, t, from + 1);
        assert Every(s, t, from) == [] + Every(s, t, from + 1);
    }
  }

  /** If p is the last matching position, its group is the last one listed. */
  lemma {:induction false} EveryLast(s: string, t: seq<Option<Span>>, from: nat, p: nat)
    requires TableOk(s, t) && from <= p <= |s| && t[p].Some?
    requires forall z :: p < z <= |s| ==> t[z].None?
    ensures Every(s, t, from) != []
    ensures Every(s, t, from)[|Every(s, t, from)| - 1] == s[t[p].value.start..t[p].value.stop]
    decreases p - from
  {
    if from == p {
      EverySkip(s, t, p + 1, |s| + 1);
    } else {
      EveryLast(s, t, from + 1, p);
    }
  }

  /** Every listed group is the group of some matching position. */
  lemma {:induction false} EveryMembers(s: string, t: seq<Option<Span>>, from: nat, g: string)
    requires TableOk(s, t) && from <= |s| + 1 && g in Every(s, t, from)
    ensures exists p :: from <= p <= |s| && t[p].Some? && g == s[t[p].value.start..t[p].value.stop]
    decreases |s| + 1 - from
  {
    if t[from].None? || g != s[t[from].value.start..t[from].value.stop] {
      EveryMembers(s, t, from + 1, g);
    }
  }

  /** findall lists the group of the match at every position where the primary pattern matches. */
  lemma FindAllIsEvery(s: string)
    ensures TableOk(s, MatchTable(s))
    ensures FindAll(s) == Every(s, MatchTable(s), 0)
  {
    var t := MatchTable(s);
    forall p, z | 0 <= p < z <= |s| && t[p].Some? && z < t[p].value.end ensures t[z].None? {
      MatchesDisjoint(s, p, z);
    }
    ScanIsEvery(s, t, 0);
  }

  /**
   * What the groups collected at every matching position amount to, for any
   * table: nothing exactly when no position matches; the last one belongs to
   * the last matching position; each belongs to some matching position.
   */
  lemma EveryFacts(s: string, t: seq<Option<Span>>)
    requires TableOk(s, t)
    ensures Every(s, t, 0) == [] <==> forall p :: 0 <= p <= |s| ==> t[p].None?
    ensures forall p :: 0 <= p <= |s| && t[p].Some? && (forall z :: p < z <= |s| ==> t[z].None?) ==>
      Every(s, t, 0) != [] && Last(Every(s, t, 0)) == s[t[p].value.start..t[p].value.stop]
    ensures forall g :: g in Every(s, t, 0) ==>
      exists p :: 0 <= p <= |s| && t[p].Some? && g == s[t[p].value.start..t[p].value.stop]
  {
    if forall p :: 0 <= p <= |s| ==> t[p].None? {
      EverySkip(s, t, 0, |s| + 1);
    } else {
      var p :| 0 <= p <= |s| && t[p].Some?;
      EveryHas(s, t, 0, p);
      assert Every(s, t, 0) != [];
    }
    forall p | 0 <= p <= |s| && t[p].Some? && (forall z :: p < z <= |s| ==> t[z].None?)
      ensures Every(s, t, 0) != [] && Last(Every(s, t, 0)) == s[t[p].value.start..t[p].value.stop]
    {
      EveryLast(s, t, 0, p);
    }
    forall g | g in Every(s, t, 0)
      ensures exists p :: 0 <= p <= |s| && t[p].Some? && g == s[t[p].value.start..t[p].value.stop]
    {
      EveryMembers(s, t, 0, g);
    }
  }

  /**
   * findall of the primary pattern: empty exactly when the pattern matches
   * nowhere; otherwise its last element is the group of the match at the
   * last position where the pattern matches; and every element is the group
   * of some match.
   */
  lemma FindAllFacts(s: string)
    ensures FindAll(s) == [] <==> forall p :: 0 <= p <= |s| ==> MatchAt(s, p).None?
    ensures forall p :: 0 <= p <= |s| && MatchAt(s, p).Some? && (forall z :: p < z <= |s| ==> MatchAt(s, z).None?) ==>
      FindAll(s) != [] && Last(FindAll(s)) == s[MatchAt(s, p).value.start..MatchAt(s, p).value.stop]
    ensures forall g :: g in FindAll(s) ==>
      exists p :: 0 <= p <= |s| && MatchAt(s, p).Some? && g == s[MatchAt(s, p).value.start..MatchAt(s, p).value.stop]
  {
    FindAllIsEvery(s);
    EveryFacts(s, MatchTable(s));
  }

  /** A matching position contributes its group. */
  lemma {:induction false} EveryHas(s: string, t: seq<Option<Span>>, from: nat, p: nat)
    requires TableOk(s, t) && from <= p <= |s| && t[p].Some?
    ensures s[t[p].value.start..t[p].value.stop] in Every(s, t, from)
    decreases p - from
  {
    if from < p {
      EveryHas(s, t, from + 1, p);
    }
  }

  /** The outcome of trying the amount pattern at every position 0..|t|. */
  function AmountTable(t: string): (a: seq<Option<Amount>>)
    ensures |a| == |t| + 1
    ensures forall q :: 0 <= q <= |t| ==> a[q] == AmountAt(t, q)
  {
    seq(|t| + 1, q requires 0 <= q <= |t| => AmountAt(t, q))
  }

  /** A table of amount outcomes in which every match ends after it starts and inside the text. */
  ghost predicate AmountsOk(t: string, a: seq<Option<Amount>>)
  {
    |a| == |t| + 1 && forall q :: 0 <= q <= |t| && a[q].Some? ==> q < a[q].value.stop <= |t|
  }

  /** findall of the amount pattern over a table of outcomes: resume at the end of each match. */
  function ScanAmounts(t: string, a: seq<Option<Amount>>, from: nat): (r: seq<string>)
    requires AmountsOk(t, a) && from <= |t| + 1
    ensures |r| <= |t| + 1 - from
    decreases |t| + 1 - from
  {
    if from > |t| then []
    else
      match a[from]
      case Some(m) => [t[from..m.stop]] + ScanAmounts(t, a, m.stop)
      case None => ScanAmounts(t, a, from + 1)
  }

  /**
   * `re.findall(r'[?₹]?\s*[\d,]+\.\d+', t)`: the text of each match, left to
   * right, each search resuming where the previous match ended.
   */
  function FindAmounts(t: string): (r: seq<string>)
    ensures |r| <= |t| + 1
  {
    ScanAmounts(t, AmountTable(t), 0)
  }

  /** Over any table: the scan lists nothing exactly when no entry from `from` on is a match. */
  lemma {:induction false} ScanAmountsEmptyIn(t: string, a: seq<Option<Amount>>, from: nat)
    requires AmountsOk(t, a) && from <= |t| + 1
    ensures ScanAmounts(t, a, from) == [] <==> forall z :: from <= z <= |t| ==> a[z].None?
    decreases |t| + 1 - from
  {
    if from <= |t| && a[from].None? {
      ScanAmountsEmptyIn(t, a, from + 1);
    }
  }

  /** The scan lists nothing exactly when no amount starts at or after `from`. */
  lemma ScanAmountsEmpty(t: string, from: nat)
    requires from <= |t| + 1
    ensures ScanAmounts(t, AmountTable(t), from) == [] <==> forall z :: from <= z <= |t| ==> AmountAt(t, z).None?
  {
    ScanAmountsEmptyIn(t, AmountTable(t), from);
  }

  /** Every amount the scan lists cleans up to `[\d,]+\.\d+`. */
  lemma {:induction false} ScanAmountsShape(t: string, from: nat)
    requires from <= |t| + 1
    ensures forall v :: v in ScanAmounts(t, AmountTable(t), from) ==> IsAmount(Normalise(v))
    decreases |t| + 1 - from
  {
    var a := AmountTable(t);
    if from <= |t| {
      assert a[from] == AmountAt(t, from);
      match a[from]
      case Some(m) =>
        ScanAmountsShape(t, m.stop);
        NormaliseAmount(t, from);
        assert ScanAmounts(t, a, from) == [t[from..m.stop]] + ScanAmounts(t, a, m.stop);
      case None =>
        ScanAmountsShape(t, from + 1);
    }
  }

  /** The last amount the scan lists is one after whose end no further amount starts. */
  lemma {:induction false} ScanAmountsLast(t: string, from: nat)
    requires from <= |t| + 1
    ensures ScanAmounts(t, AmountTable(t), from) != [] ==>
      exists q :: from <= q <= |t| && AmountAt(t, q).Some?
        && Last(ScanAmounts(t, AmountTable(t), from)) == t[q..AmountAt(t, q).value.stop]
        && (forall z :: AmountAt(t, q).value.stop <= z <= |t| ==> AmountAt(t, z).None?)
    decreases |t| + 1 - from
  {
    var a := AmountTable(t);
    if from <= |t| {
      assert a[from] == AmountAt(t, from);
      match a[from]
      case Some(m) =>
        ScanAmountsLast(t, m.stop);
        var rest := ScanAmounts(t, a, m.stop);
        assert ScanAmounts(t, a, from) == [t[from..m.stop]] + rest;
        if rest == [] {
          ScanAmountsEmpty(t, m.stop);
          assert Last(ScanAmounts(t, a, from)) == t[from..m.stop];
        } else {
          assert Last(ScanAmounts(t, a, from)) == Last(rest);
        }
      case None =>
        ScanAmountsLast(t, from + 1);
    }
  }

  /**
   * starts lists the leftmost non-overlapping matches in a table of amount
   * outcomes, searching from `from`: each is the first match at or after
   * the end of the one before it (or `from`), and no match starts after the
   * end of the last one.
   */
  ghost predicate Leftmost(a: seq<Option<Amount>>, from: nat, starts: seq<nat>)
    decreases |starts|
  {
    if starts == [] then forall z :: from <= z < |a| ==> a[z].None?
    else
      && from <= starts[0] < |a| && a[starts[0]].Some?
      && (forall z :: from <= z < starts[0] ==> a[z].None?)
      && Leftmost(a, a[starts[0]].value.stop, starts[1..])
  }

  /** Starting the search one position earlier, at a position where nothing matches, finds the same matches. */
  lemma LeftmostExtend(a: seq<Option<Amount>>, from: nat, starts: seq<nat>)
    requires from < |a| && a[from].None? && Leftmost(a, from + 1, starts)
    ensures Leftmost(a, from, starts)
  {
  }

  /** The leftmost non-overlapping matches from a position are unique. */
  lemma {:induction false} LeftmostUnique(a: seq<Option<Amount>>, from: nat, s1: seq<nat>, s2: seq<nat>)
    requires Leftmost(a, from, s1) && Leftmost(a, from, s2)
    ensures s1 == s2
    decreases |s1|
  {
    if s1 != [] && s2 != [] {
      assert s1[0] == s2[0];
      LeftmostUnique(a, a[s1[0]].value.stop, s1[1..], s2[1..]);
      assert s1 == [s1[0]] + s1[1..] && s2 == [s2[0]] + s2[1..];
    }
  }

  /** r is the text of the matches at starts, in order, in a table of amount outcomes over t. */
  ghost predicate Spells(t: string, a: seq<Option<Amount>>, starts: seq<nat>, r: seq<string>)
    requires AmountsOk(t, a)
  {
    |starts| == |r| && forall i :: 0 <= i < |starts| ==>
      starts[i] <= |t| && a[starts[i]].Some? && r[i] == t[starts[i]..a[starts[i]].value.stop]
  }

  /** The match positions the resuming scan visits, in order. */
  ghost function ScanStarts(t: string, a: seq<Option<Amount>>, from: nat): seq<nat>
    requires AmountsOk(t, a) && from <= |t| + 1
    decreases |t| + 1 - from
  {
    if from > |t| then []
    else
      match a[from]
      case Some(m) => [from] + ScanStarts(t, a, m.stop)
      case None => ScanStarts(t, a, from + 1)
  }

  /** The positions the scan visits are the leftmost non-overlapping matches. */
  lemma {:induction false} ScanStartsLeftmost(t: string, a: seq<Option<Amount>>, from: nat)
    requires AmountsOk(t, a) && from <= |t| + 1
    ensures Leftmost(a, from, ScanStarts(t, a, from))
    decreases |t| + 1 - from
  {
    if from <= |t| {
      match a[from]
      case Some(m) =>
        ScanStartsLeftmost(t, a, m.stop);
        assert ([from] + ScanStarts(t, a, m.stop))[1..] == ScanStarts(t, a, m.stop);
      case None =>
        ScanStartsLeftmost(t, a, from + 1);
        LeftmostExtend(a, from, ScanStarts(t, a, from + 1));
    }
  }

  /** Putting a match in front keeps the texts in step with the positions. */
  lemma SpellsCons(t: string, a: seq<Option<Amount>>, q: nat, starts: seq<nat>, r: seq<string>)
    requires AmountsOk(t, a) && q <= |t| && a[q].Some? && Spells(t, a, starts, r)
    ensures Spells(t, a, [q] + starts, [t[q..a[q].value.stop]] + r)
  {
    var starts', r' := [q] + starts, [t[q..a[q].value.stop]] + r;
    forall i | 0 <= i < |starts'|
      ensures starts'[i] <= |t| && a[starts'[i]].Some? && r'[i] == t[starts'[i]..a[starts'[i]].value.stop]
    {
      if i > 0 {
        assert starts'[i] == starts[i - 1] && r'[i] == r[i - 1];
      }
    }
  }

  /** The last text listed is the text of the match at the last position. */
  lemma SpellsLast(t: string, a: seq<Option<Amount>>, starts: seq<nat>, r: seq<string>)
    requires AmountsOk(t, a) && Spells(t, a, starts, r) && r != []
    ensures starts != [] && starts[|starts| - 1] <= |t| && a[starts[|starts| - 1]].Some?
    ensures Last(r) == t[starts[|starts| - 1]..a[starts[|starts| - 1]].value.stop]
  {
  }

  /** The scan lists the text of the match at each position it visits. */
  lemma {:induction false} ScanStartsSpell(t: string, a: seq<Option<Amount>>, from: nat)
    requires AmountsOk(t, a) && from <= |t| + 1
    ensures Spells(t, a, ScanStarts(t, a, from), ScanAmounts(t, a, from))
    decreases |t| + 1 - from
  {
    if from <= |t| {
      match a[from]
      case Some(m) =>
        ScanStartsSpell(t, a, m.stop);
        SpellsCons(t, a, from, ScanStarts(t, a, m.stop), ScanAmounts(t, a, m.stop));
      case None =>
        ScanStartsSpell(t, a, from + 1);
    }
  }

  /**
   * `re.findall` of the amount pattern lists the text of the leftmost
   * non-overlapping matches, in order: each one starts at the first match
   * at or after the end of the one before.
   */
  lemma FindAmountsLeftmost(t: string)
    ensures exists starts :: Leftmost(AmountTable(t), 0, starts) && Spells(t, AmountTable(t), starts, FindAmounts(t))
  {
    var a := AmountTable(t);
    ScanStartsLeftmost(t, a, 0);
    ScanStartsSpell(t, a, 0);
  }

  /**
   * findall of the amount pattern: empty exactly when no amount occurs;
   * otherwise its last element is an amount after whose end no further
   * amount starts, and every element cleans up to `[\d,]+\.\d+`.
   */
  lemma FindAmountsFacts(t: string)
    ensures FindAmounts(t) == [] <==> forall z :: 0 <= z <= |t| ==> AmountAt(t, z).None?
    ensures exists starts :: Leftmost(AmountTable(t), 0, starts) && Spells(t, AmountTable(t), starts, FindAmounts(t))
    ensures forall v :: v in FindAmounts(t) ==> IsAmount(Normalise(v))
    ensures FindAmounts(t) != [] ==>
      exists q :: 0 <= q <= |t| && AmountAt(t, q).Some?
        && Last(FindAmounts(t)) == t[q..AmountAt(t, q).value.stop]
        && (forall z :: AmountAt(t, q).value.stop <= z <= |t| ==> AmountAt(t, z).None?)
  {
    ScanAmountsEmpty(t, 0);
    ScanAmountsShape(t, 0);
    ScanAmountsLast(t, 0);
    FindAmountsLeftmost(t);
  }

  /** The last element of a non-empty list, Python's `xs[-1]`. */
  function Last<T>(xs: seq<T>): T
    requires xs != []
  {
    xs[|xs| - 1]
  }
}
