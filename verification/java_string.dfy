/**
 * The parts of java.lang.String and java.util.regex the core relies on:
 * `String.compareTo`, `Integer.toString`, and the character classes the
 * feed-cleaning regular expressions use. Strings are sequences of code
 * points (`char` is a Unicode scalar value).
 */
module JavaString {

  /**
   * `String.compareTo`: the difference of the first pair of characters
   * that differ, or else the difference of the lengths.
   */
  function CompareTo(a: string, b: string): int
    decreases |a|
  {
    if a == [] || b == [] then |a| - |b|
    else if a[0] != b[0] then a[0] as int - b[0] as int
    else CompareTo(a[1..], b[1..])
  }

  /** `a.compareTo(b) < 0`. */
  predicate Less(a: string, b: string)
  {
    CompareTo(a, b) < 0
  }

  /** `a.compareTo(b) <= 0`. */
  predicate LessEq(a: string, b: string)
  {
    CompareTo(a, b) <= 0
  }

  /** compareTo is zero exactly on equal strings. */
  lemma {:induction false} CompareToZero(a: string, b: string)
    ensures CompareTo(a, b) == 0 <==> a == b
    decreases |a|
  {
    if a != [] && b != [] && a[0] == b[0] {
      CompareToZero(a[1..], b[1..]);
      if a[1..] == b[1..] {
        assert a == [a[0]] + a[1..] && b == [b[0]] + b[1..];
      }
    }
  }

  /** Swapping the arguments negates the result. */
  lemma {:induction false} CompareToAntisymmetric(a: string, b: string)
    ensures CompareTo(b, a) == -CompareTo(a, b)
    decreases |a|
  {
    if a != [] && b != [] && a[0] == b[0] {
      CompareToAntisymmetric(a[1..], b[1..]);
    }
  }

  /** The order compareTo defines is transitive. */
  lemma {:induction false} LessTransitive(a: string, b: string, c: string)
    requires Less(a, b) && Less(b, c)
    ensures Less(a, c)
    decreases |a|
  {
    if a != [] && b != [] && c != [] && a[0] == b[0] && b[0] == c[0] {
      LessTransitive(a[1..], b[1..], c[1..]);
    }
  }

  /** LessEq is a total order on strings. */
  lemma LessEqTotalOrder(a: string, b: string, c: string)
    ensures LessEq(a, b) || LessEq(b, a)
    ensures LessEq(a, b) && LessEq(b, a) ==> a == b
    ensures LessEq(a, b) && LessEq(b, c) ==> LessEq(a, c)
  {
    CompareToAntisymmetric(a, b);
    CompareToZero(a, b);
    CompareToZero(b, c);
    CompareToZero(a, c);
    if Less(a, b) && Less(b, c) {
      LessTransitive(a, b, c);
    }
  }

  /** Decimal digit character. */
  function DigitChar(d: nat): char
    requires d < 10
  {
    "0123456789"[d]
  }

  /** The decimal digits of a natural number, without leading zeros. */
  function Digits(n: nat): (s: string)
    ensures |s| >= 1
    ensures forall i :: 0 <= i < |s| ==> '0' <= s[i] <= '9'
    decreases n
  {
    if n < 10 then [DigitChar(n)] else Digits(n / 10) + [DigitChar(n % 10)]
  }

  /** `Integer.toString`: optional minus sign, then the decimal digits. */
  function IntToString(n: int): string
  {
    if n < 0 then "-" + Digits(-n) else Digits(n)
  }

  /** The characters the regex class `\s` matches: space, \t, \n, \x0B, \f, \r. */
  predicate IsSpace(c: char)
  {
    c == ' ' || c == '\t' || c == '\n' || c == '\U{000B}' || c == '\U{000C}' || c == '\r'
  }

  /** The characters the regex `.` does not match: the line terminators. */
  predicate IsLineTerminator(c: char)
  {
    c == '\n' || c == '\r' || c == '\U{0085}' || c == '\U{2028}' || c == '\U{2029}'
  }

  /** The regex class `[A-Za-z0-9]`. */
  predicate IsAsciiAlnum(c: char)
  {
    'A' <= c <= 'Z' || 'a' <= c <= 'z' || '0' <= c <= '9'
  }

  /** The regex class `\w`: `[a-zA-Z_0-9]`. */
  predicate IsWordChar(c: char)
  {
    IsAsciiAlnum(c) || c == '_'
  }
}
