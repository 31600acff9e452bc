/** The few pieces of PHP's value semantics that the stage engine depends on:
    optional values, numeric strings, loose comparison and `strpos`. */
module PhpValues {

  datatype Option<+T> = None | Some(value: T)

  /** A value met by the priority comparisons: `null`, `false` or a string. */
  datatype Loose = Null | False | Str(s: string)

  predicate IsDigit(c: char) {
    '0' <= c <= '9'
  }

  /** `is_numeric` on a string, restricted to unsigned decimal integers. */
  predicate IsNumeric(s: string) {
    |s| > 0 && forall i :: 0 <= i < |s| ==> IsDigit(s[i])
  }

  /** The integer a string of decimal digits denotes. */
  function DigitsValue(s: string): (n: nat)
    requires forall i :: 0 <= i < |s| ==> IsDigit(s[i])
  {
    if s == [] then 0
    else
      assert IsDigit(s[|s| - 1]);
      DigitsValue(s[..|s| - 1]) * 10 + (s[|s| - 1] as int - '0' as int)
  }

  /** PHP truthiness of a loose value. */
  predicate Truthy(v: Loose) {
    match v
    case Null => false
    case False => false
    case Str(s) => s != "" && s != "0"
  }

  function IntCompare(a: int, b: int): int {
    if a < b then -1 else if a > b then 1 else 0
  }

  /** `strcmp` on code points, normalised to -1, 0 or 1. */
  function LexCompare(a: string, b: string): (r: int)
    ensures -1 <= r <= 1
    ensures r == 0 <==> a == b
  {
    if a == [] then (if b == [] then 0 else -1)
    else if b == [] then 1
    else if a[0] < b[0] then -1
    else if a[0] > b[0] then 1
    else
      var r := LexCompare(a[1..], b[1..]);
      assert a == [a[0]] + a[1..] && b == [b[0]] + b[1..];
      r
  }

  /** PHP 8's `<=>` on the values the priority lookups produce: a boolean
      operand compares both sides as booleans, `null` against a string
      compares "" with it, and two strings compare numerically when both are
      numeric and lexically otherwise. */
  function Compare(a: Loose, b: Loose): (r: int)
    ensures -1 <= r <= 1
    ensures a == b ==> r == 0
  {
    match (a, b)
    case (False, _) => IntCompare(0, if Truthy(b) then 1 else 0)
    case (_, False) => IntCompare(if Truthy(a) then 1 else 0, 0)
    case (Null, Null) => 0
    case (Null, Str(t)) => LexCompare("", t)
    case (Str(s), Null) => LexCompare(s, "")
    case (Str(s), Str(t)) =>
      if IsNumeric(s) && IsNumeric(t) then IntCompare(DigitsValue(s), DigitsValue(t))
      else LexCompare(s, t)
  }

  lemma {:induction false} LexCompareAntisymmetric(a: string, b: string)
    ensures LexCompare(a, b) == -LexCompare(b, a)
    decreases |a|
  {
    if a != [] && b != [] && a[0] == b[0] {
      LexCompareAntisymmetric(a[1..], b[1..]);
    }
  }

  /** Swapping the operands of `<=>` negates the result, which is what lets
      PHP evaluate `$a > $b` as `$b < $a`. */
  lemma CompareAntisymmetric(a: Loose, b: Loose)
    ensures Compare(a, b) == -Compare(b, a)
  {
    match (a, b)
    case (False, _) =>
    case (_, False) =>
    case (Null, Null) =>
    case (Null, Str(t)) => LexCompareAntisymmetric("", t);
    case (Str(s), Null) => LexCompareAntisymmetric(s, "");
    case (Str(s), Str(t)) => LexCompareAntisymmetric(s, t);
  }

  /** `needle` occurs in `haystack` starting at index `i`. */
  predicate OccursAt(haystack: string, needle: string, i: int) {
    0 <= i <= |haystack| - |needle| && haystack[i..i + |needle|] == needle
  }

  /** `strpos($haystack, $needle) !== false`; an empty needle is found at 0. */
  function Contains(haystack: string, needle: string): (r: bool)
    ensures r <==> exists i :: OccursAt(haystack, needle, i)
    decreases |haystack|
  {
    if |haystack| < |needle| then false
    else if haystack[..|needle|] == needle then assert OccursAt(haystack, needle, 0); true
    else
      var r := Contains(haystack[1..], needle);
      assert !OccursAt(haystack, needle, 0);
      assert forall i :: OccursAt(haystack, needle, i) ==> OccursAt(haystack[1..], needle, i - 1) by {
        forall i | OccursAt(haystack, needle, i) ensures OccursAt(haystack[1..], needle, i - 1) {
          assert haystack[1..][i - 1..i - 1 + |needle|] == haystack[i..i + |needle|];
        }
      }
      assert forall i :: OccursAt(haystack[1..], needle, i) ==> OccursAt(haystack, needle, i + 1) by {
        forall i | OccursAt(haystack[1..], needle, i) ensures OccursAt(haystack, needle, i + 1) {
          assert haystack[1..][i..i + |needle|] == haystack[i + 1..i + 1 + |needle|];
        }
      }
      r
  }
}
