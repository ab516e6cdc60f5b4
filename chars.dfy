/**
 * Character classes of Python 3 `str` patterns and string methods, as the
 * extractor uses them.
 */
module Chars {

  /** The rupee sign U+20B9. */
  const Rupee: char := '\U{20B9}'

  /** Python's `str.isspace()`, which is also what `\s` matches in a `str` pattern. */
  predicate IsSpace(c: char)
  {
    || c == ' '
    || ('\t' <= c <= '\r')              // \t \n \v \f \r
    || ('\U{1C}' <= c <= '\U{1F}')      // file, group, record and unit separators
    || c == '\U{85}' || c == '\U{A0}' || c == '\U{1680}'
    || ('\U{2000}' <= c <= '\U{200A}')
    || c == '\U{2028}' || c == '\U{2029}' || c == '\U{202F}' || c == '\U{205F}' || c == '\U{3000}'
  }

  /** What `\d` matches, restricted to the ASCII digits. */
  predicate IsDigit(c: char)
  {
    '0' <= c <= '9'
  }

  /** The character class `[\d,]`. */
  predicate IsDigitOrComma(c: char)
  {
    IsDigit(c) || c == ','
  }

  /** The character class `[?₹]`. */
  predicate IsCurrency(c: char)
  {
    c == '?' || c == Rupee
  }

  /** The characters that `re.sub(r'[?₹\s]', '', v)` deletes. */
  predicate IsRemovable(c: char)
  {
    IsCurrency(c) || IsSpace(c)
  }

  /** The line boundaries of `str.splitlines()`. */
  predicate IsLineBreak(c: char)
  {
    || c == '\n' || c == '\r' || c == '\U{0B}' || c == '\U{0C}'
    || c == '\U{1C}' || c == '\U{1D}' || c == '\U{1E}'
    || c == '\U{85}' || c == '\U{2028}' || c == '\U{2029}'
  }

  /** ASCII lower-casing, the case folding used for `re.IGNORECASE` here. */
  function Lower(c: char): (r: char)
    ensures 'A' <= c <= 'Z' ==> 'a' <= r <= 'z'
    ensures !('A' <= c <= 'Z') ==> r == c
  {
    if 'A' <= c <= 'Z' then (c as int - 'A' as int + 'a' as int) as char else c
  }

  /**
   * The classes that the greedy runs `\s*`, `\d+` and `[\d,]+` consume, and
   * the angle brackets that `strip('<>')` removes.
   */
  datatype Class = Space | Digit | DigitComma | Angle

  predicate In(c: char, k: Class)
  {
    match k
    case Space => IsSpace(c)
    case Digit => IsDigit(c)
    case DigitComma => IsDigitOrComma(c)
    case Angle => c == '<' || c == '>'
  }

  /** Every character of s[i..j] belongs to class k. */
  ghost predicate AllIn(s: string, i: nat, j: nat, k: Class)
    requires i <= j <= |s|
  {
    forall x {:trigger In(s[x], k)} :: i <= x < j ==> In(s[x], k)
  }

  /** The end of the longest run of class-k characters that starts at i: where a greedy `k*` stops. */
  function RunEnd(s: string, i: nat, k: Class): (j: nat)
    requires i <= |s|
    ensures i <= j <= |s|
    ensures AllIn(s, i, j, k)
    ensures j == |s| || !In(s[j], k)
    decreases |s| - i
  {
    if i < |s| && In(s[i], k) then RunEnd(s, i + 1, k) else i
  }

  /** A run is determined by where it starts: any maximal run from i ends at RunEnd(s, i, k). */
  lemma {:induction false} RunEndUnique(s: string, i: nat, j: nat, k: Class)
    requires i <= j <= |s| && AllIn(s, i, j, k)
    requires j == |s| || !In(s[j], k)
    ensures RunEnd(s, i, k) == j
    decreases j - i
  {
    if i < j {
      RunEndUnique(s, i + 1, j, k);
    }
  }

  /** A greedy run from i covers every class-k prefix that starts at i. */
  lemma {:induction false} RunEndCovers(s: string, i: nat, j: nat, k: Class)
    requires i <= j <= |s| && AllIn(s, i, j, k)
    ensures j <= RunEnd(s, i, k)
    decreases j - i
  {
    if i < j {
      RunEndCovers(s, i + 1, j, k);
    }
  }
}
