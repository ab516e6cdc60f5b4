/**
 * `extract_total_net_distribution`: the cleaned-up "Net Distribution"
 * amount of an e-mail body, found first by the multi-line primary pattern
 * and, failing that, by a line-by-line fallback.
 */
module Extractor {
  import opened Wrappers
  import opened Chars
  import opened PyStr
  import opened Pattern

  /** The label the fallback looks for, case-sensitively. */
  const FallbackLabel: string := "Net Distribution"

  /**
   * The fallback's test on one line: it starts with `E` once stripped and
   * mentions the label. It holds exactly when the first character that is
   * not whitespace is `E` and the label occurs somewhere, case-sensitively.
   */
  function LineQualifies(line: string): (r: bool)
    ensures r <==>
      && RunEnd(line, 0, Space) < |line| && line[RunEnd(line, 0, Space)] == 'E'
      && exists x :: OccursAt(line, FallbackLabel, x)
  {
    StripStartsWithE(line);
    StartsWith(Strip(line), "E") && Contains(line, FallbackLabel)
  }

  /** What the fallback takes from one line: its last amount, cleaned up, if the line qualifies. */
  function LineAmount(line: string): (r: Option<string>)
    ensures r.Some? ==> LineQualifies(line) && FindAmounts(line) != []
  {
    if LineQualifies(line) then
      var numbers := FindAmounts(line);
      if numbers != [] then Some(Normalise(Last(numbers))) else None
    else None
  }

  /** What each line yields to the fallback. */
  function LineAmounts(lines: seq<string>): (vals: seq<Option<string>>)
    ensures |vals| == |lines|
  {
    seq(|lines|, i requires 0 <= i < |lines| => LineAmount(lines[i]))
  }

  /** The first value present in vals. */
  function FirstFound(vals: seq<Option<string>>): Option<string>
  {
    if vals == [] then None
    else if vals[0].Some? then vals[0]
    else FirstFound(vals[1..])
  }

  /** The first value present from index i on is the value at i, if any, and otherwise the first one after it. */
  lemma FirstFoundStep(vals: seq<Option<string>>, i: nat)
    requires i < |vals|
    ensures FirstFound(vals[i..]) == if vals[i].Some? then vals[i] else FirstFound(vals[i + 1..])
  {
    assert vals[i..][1..] == vals[i + 1..];
  }

  /** The fallback: the amount of the first line that yields one. */
  function FallbackValue(lines: seq<string>): Option<string>
  {
    FirstFound(LineAmounts(lines))
  }

  /** The value `extract_total_net_distribution(body)` returns. */
  function Extracted(body: string): (r: Option<string>)
    ensures FindAll(body) != [] ==> r.Some?
  {
    var matches := FindAll(body);
    if matches != [] then Some(Normalise(Last(matches)))
    else FallbackValue(SplitLines(body))
  }

  /** `extract_total_net_distribution`: the primary pattern first, then the fallback over the lines. */
  method ExtractTotalNetDistribution(bodyText: string) returns (r: Option<string>)
    ensures r == Extracted(bodyText)
  {
    var matches := FindAll(bodyText);
    if matches != [] {
      return Some(Normalise(matches[|matches| - 1]));
    }
    r := ScanLines(SplitLines(bodyText));
  }

  /** The fallback loop over the lines, returning from the first line that yields an amount. */
  method ScanLines(lines: seq<string>) returns (r: Option<string>)
    ensures r == FallbackValue(lines)
  {
    ghost var vals := LineAmounts(lines);
    var i := 0;
    while i < |lines|
      invariant i <= |lines|
      invariant FirstFound(vals[i..]) == FallbackValue(lines)
    {
      var line := lines[i];
      FirstFoundStep(vals, i);
      assert vals[i] == LineAmount(line);
      if LineQualifies(line) {
        var numbers := FindAmounts(line);
        if numbers != [] {
          assert vals[i] == Some(Normalise(numbers[|numbers| - 1]));
          return Some(Normalise(numbers[|numbers| - 1]));
        }
      }
      i := i + 1;
    }
    return None;
  }

  /**
   * One line's contribution: there is one exactly when the line qualifies
   * and contains an amount; it is then `[\d,]+\.\d+`, namely the digits of
   * the last of the leftmost non-overlapping amounts of the line, after
   * which no further amount starts.
   */
  lemma LineAmountFacts(line: string)
    ensures LineAmount(line).Some? <==>
      LineQualifies(line) && exists z :: 0 <= z <= |line| && AmountAt(line, z).Some?
    ensures LineAmount(line).Some? ==> IsAmount(LineAmount(line).value)
    ensures LineAmount(line).Some? ==>
      exists q :: 0 <= q <= |line| && AmountAt(line, q).Some?
        && LineAmount(line).value == line[AmountAt(line, q).value.digits..AmountAt(line, q).value.stop]
        && (forall z :: AmountAt(line, q).value.stop <= z <= |line| ==> AmountAt(line, z).None?)
    ensures LineAmount(line).Some? ==>
      exists starts :: Leftmost(AmountTable(line), 0, starts) && starts != [] && (
        var q := starts[|starts| - 1];
        q <= |line| && AmountAt(line, q).Some?
        && LineAmount(line).value == line[AmountAt(line, q).value.digits..AmountAt(line, q).value.stop])
  {
    FindAmountsFacts(line);
    if LineAmount(line).Some? {
      LastAmountOfLine(line);
    }
    if LineAmount(line).Some? {
      var q :| 0 <= q <= |line| && AmountAt(line, q).Some?
        && Last(FindAmounts(line)) == line[q..AmountAt(line, q).value.stop]
        && (forall z :: AmountAt(line, q).value.stop <= z <= |line| ==> AmountAt(line, z).None?);
      NormaliseAmount(line, q);
    }
  }

  /** A qualifying line's value comes from the last of its leftmost non-overlapping amounts. */
  lemma LastAmountOfLine(line: string)
    requires LineAmount(line).Some?
    ensures
      exists starts :: Leftmost(AmountTable(line), 0, starts) && starts != [] && (
        var q := starts[|starts| - 1];
        q <= |line| && AmountAt(line, q).Some?
        && LineAmount(line).value == line[AmountAt(line, q).value.digits..AmountAt(line, q).value.stop])
  {
    var numbers := FindAmounts(line);
    var a := AmountTable(line);
    FindAmountsLeftmost(line);
    var starts :| Leftmost(a, 0, starts) && Spells(line, a, starts, numbers);
    SpellsLast(line, a, starts, numbers);
    var q := starts[|starts| - 1];
    assert a[q] == AmountAt(line, q);
    NormaliseAmount(line, q);
  }

  /**
   * The first value present: nothing exactly when no value is present, and
   * otherwise the value at the first index where one is.
   */
  lemma {:induction false} FirstFoundFacts(vals: seq<Option<string>>)
    ensures FirstFound(vals).None? <==> forall i :: 0 <= i < |vals| ==> vals[i].None?
    ensures FirstFound(vals).Some? ==>
      exists i :: 0 <= i < |vals| && FirstFound(vals) == vals[i] && forall j :: 0 <= j < i ==> vals[j].None?
  {
    if vals != [] && vals[0].None? {
      var rest := vals[1..];
      FirstFoundFacts(rest);
      assert forall i :: 1 <= i < |vals| ==> vals[i] == rest[i - 1];
      if FirstFound(rest).Some? {
        var i :| 0 <= i < |rest| && FirstFound(rest) == rest[i] && forall j :: 0 <= j < i ==> rest[j].None?;
        assert FirstFound(vals) == vals[i + 1];
      }
    }
  }

  /**
   * The fallback yields nothing exactly when no line yields an amount, and
   * otherwise the amount of the first line that yields one.
   */
  lemma FallbackFacts(lines: seq<string>)
    ensures FallbackValue(lines).None? <==> forall i :: 0 <= i < |lines| ==> LineAmount(lines[i]).None?
    ensures FallbackValue(lines).Some? ==>
      exists i :: 0 <= i < |lines| && FallbackValue(lines) == LineAmount(lines[i])
        && forall j :: 0 <= j < i ==> LineAmount(lines[j]).None?
  {
    var vals := LineAmounts(lines);
    FirstFoundFacts(vals);
    assert forall i :: 0 <= i < |lines| ==> vals[i] == LineAmount(lines[i]);
  }

  /**
   * When the primary pattern matches, the result is the amount of the match
   * at the last position where it matches, with the currency sign and the
   * whitespace removed: its `[\d,]+\.\d+` part.
   */
  lemma PrimaryLastWins(body: string, p: nat)
    requires p <= |body| && MatchAt(body, p).Some?
    requires forall z :: p < z <= |body| ==> MatchAt(body, z).None?
    ensures Extracted(body) == Some(body[MatchAt(body, p).value.digits..MatchAt(body, p).value.stop])
  {
    var sp := MatchAt(body, p).value;
    FindAllFacts(body);
    MatchAtSound(body, p);
    NormaliseGroup(body, sp.start, sp.digits, sp.dot, sp.stop);
  }

  /** The fallback runs exactly when the primary pattern matches nowhere. */
  lemma FallbackOnlyWithoutPrimary(body: string)
    ensures (forall p :: 0 <= p <= |body| ==> MatchAt(body, p).None?) ==>
      Extracted(body) == FallbackValue(SplitLines(body))
    ensures (exists p :: 0 <= p <= |body| && MatchAt(body, p).Some?) ==>
      FindAll(body) != [] && Extracted(body) == Some(Normalise(Last(FindAll(body))))
  {
    FindAllFacts(body);
  }

  /**
   * Whatever the extractor returns is `[\d,]+\.\d+` and so never empty:
   * the caller's truthiness test `if net_dist:` accepts every value found.
   */
  lemma ExtractedIsAmount(body: string)
    ensures Extracted(body).Some? ==> IsAmount(Extracted(body).value) && Extracted(body).value != []
  {
    FindAllFacts(body);
    var matches := FindAll(body);
    if matches != [] {
      var g := Last(matches);
      assert g in matches;
      var p :| 0 <= p <= |body| && MatchAt(body, p).Some?
        && g == body[MatchAt(body, p).value.start..MatchAt(body, p).value.stop];
      var sp := MatchAt(body, p).value;
      MatchAtSound(body, p);
      NormaliseGroup(body, sp.start, sp.digits, sp.dot, sp.stop);
    } else {
      var lines := SplitLines(body);
      FallbackFacts(lines);
      if FallbackValue(lines).Some? {
        var i :| 0 <= i < |lines| && FallbackValue(lines) == LineAmount(lines[i])
          && forall j :: 0 <= j < i ==> LineAmount(lines[j]).None?;
        LineAmountFacts(lines[i]);
      }
    }
  }
}
