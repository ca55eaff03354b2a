/**
 * String operations the two pages rely on: `toLowerCase` (as an ASCII case fold),
 * `includes`, the last element of `split`, and the decimal rendering of an integer
 * inside a template literal.
 */
module Text {

  /** `c.toLowerCase()` for ASCII: upper-case letters move to lower case, everything else stays. */
  function LowerChar(c: char): char
  {
    if 'A' <= c <= 'Z' then (c as int + 32) as char else c
  }

  /** `s.toLowerCase()`, character by character. */
  function ToLower(s: string): (r: string)
    ensures |r| == |s|
    ensures forall i :: 0 <= i < |s| ==> r[i] == LowerChar(s[i])
    ensures forall i :: 0 <= i < |r| ==> !('A' <= r[i] <= 'Z')
  {
    if s == [] then [] else [LowerChar(s[0])] + ToLower(s[1..])
  }

  /** `term` occurs in `text` starting at position `i`. */
  ghost predicate OccursAt(text: string, term: string, i: nat)
  {
    i + |term| <= |text| && text[i..i + |term|] == term
  }

  lemma OccursShift(text: string, term: string, i: nat)
    requires text != []
    ensures OccursAt(text[1..], term, i) <==> OccursAt(text, term, i + 1)
  {
    if i + |term| <= |text[1..]| {
      assert text[1..][i..i + |term|] == text[i + 1..i + 1 + |term|];
    }
  }

  /** `text.includes(term)`: some position of `text` starts a copy of `term`. */
  function Includes(text: string, term: string): (r: bool)
    ensures r <==> exists i: nat :: OccursAt(text, term, i)
    decreases |text|
  {
    if |term| <= |text| && text[..|term|] == term then
      assert OccursAt(text, term, 0);
      true
    else if text == [] then
      false
    else
      var r := Includes(text[1..], term);
      assert forall i: nat :: OccursAt(text[1..], term, i) <==> OccursAt(text, term, i + 1) by {
        forall i: nat ensures OccursAt(text[1..], term, i) <==> OccursAt(text, term, i + 1) {
          OccursShift(text, term, i);
        }
      }
      assert forall i: nat :: OccursAt(text, term, i) ==> i > 0;
      assert (exists i: nat :: OccursAt(text, term, i)) ==> exists i: nat :: OccursAt(text[1..], term, i) by {
        if exists i: nat :: OccursAt(text, term, i) {
          var i: nat :| OccursAt(text, term, i);
          assert OccursAt(text[1..], term, i - 1);
        }
      }
      r
  }

  /** The empty string occurs in every string. */
  lemma IncludesEmpty(text: string)
    ensures Includes(text, "")
  {
    assert OccursAt(text, "", 0);
  }

  /**
   * `s.split(sep).pop()`: the text after the last `sep`, or all of `s` when `sep`
   * does not occur. It is the longest suffix of `s` free of `sep`.
   */
  function LastSegment(s: string, sep: char): (r: string)
    ensures sep !in r
    ensures |r| <= |s| && s[|s| - |r|..] == r
    ensures |r| < |s| ==> s[|s| - |r| - 1] == sep
    decreases |s|
  {
    if s == [] then []
    else if s[|s| - 1] == sep then []
    else
      var front := s[..|s| - 1];
      var r := LastSegment(front, sep);
      assert s[|s| - |r| - 1..] == front[|front| - |r|..] + [s[|s| - 1]];
      r + [s[|s| - 1]]
  }

  predicate IsDigit(c: char)
  {
    '0' <= c <= '9'
  }

  predicate AllDigits(s: string)
  {
    forall i :: 0 <= i < |s| ==> IsDigit(s[i])
  }

  function DigitChar(d: nat): (c: char)
    requires d < 10
    ensures IsDigit(c)
  {
    ('0' as int + d) as char
  }

  function DigitValue(c: char): nat
    requires IsDigit(c)
  {
    c as int - '0' as int
  }

  /**
   * The decimal text of a non-negative integer, as `${n}` renders it: at least one
   * digit, and no leading zero unless the number is zero.
   */
  function DecimalString(n: nat): (s: string)
    ensures |s| >= 1 && AllDigits(s)
    ensures s[0] == '0' ==> n == 0
  {
    if n < 10 then [DigitChar(n)] else DecimalString(n / 10) + [DigitChar(n % 10)]
  }

  /** The value of a string of decimal digits (the reading direction of `DecimalString`). */
  function ParseDecimal(s: string): nat
    requires AllDigits(s)
  {
    if s == [] then 0 else 10 * ParseDecimal(s[..|s| - 1]) + DigitValue(s[|s| - 1])
  }

  /** Reading back the decimal text of `n` gives `n`. */
  lemma {:induction false} ParseDecimalString(n: nat)
    ensures ParseDecimal(DecimalString(n)) == n
  {
    var s := DecimalString(n);
    if n >= 10 {
      ParseDecimalString(n / 10);
      assert s[..|s| - 1] == DecimalString(n / 10);
    }
  }

  /** Different numbers have different decimal texts. */
  lemma DecimalStringInjective(a: nat, b: nat)
    requires DecimalString(a) == DecimalString(b)
    ensures a == b
  {
    ParseDecimalString(a);
    ParseDecimalString(b);
  }

  /**
   * Splitting at the first `sep`: when neither `a` nor `c` contains `sep`,
   * `a + sep + b == c + sep + d` forces `a == c` and `b == d`.
   */
  lemma SplitAtFirst(a: string, b: string, c: string, d: string, sep: char)
    requires sep !in a && sep !in c
    requires a + [sep] + b == c + [sep] + d
    ensures a == c && b == d
  {
    var x := a + [sep] + b;
    assert x == c + [sep] + d;
    assert x[|a|] == sep && x[|c|] == sep;
    assert forall i :: 0 <= i < |a| ==> x[i] == a[i];
    assert forall i :: 0 <= i < |c| ==> x[i] == c[i];
    assert a == x[..|a|] && c == (c + [sep] + d)[..|c|];
    assert b == x[|a| + 1..] && d == (c + [sep] + d)[|c| + 1..];
  }
}
