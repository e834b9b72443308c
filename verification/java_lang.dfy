/**
 * The few pieces of java.lang that the birthday code leans on: null
 * references, exceptions, String.compareTo, and the decimal conversions of
 * java.lang.Integer (parsing a run of digits, printing a count), and
 * List.add(index, element).
 */
module JavaLang {

  /** A reference that may be null: None stands for Java's null. */
  datatype Option<+T> = None | Some(value: T) {
    /** The value, or the fallback when null (SharedPreferences' default argument). */
    function GetOr(default: T): T {
      match this
      case Some(v) => v
      case None => default
    }
  }

  /** The exceptions that can escape the modelled code. */
  datatype JavaException = NumberFormatException | IllegalFieldValueException

  /** A computation that either returns a value or throws. */
  datatype Result<+T> = Ok(value: T) | Thrown(exception: JavaException)

  /** List.add(j, x): the list with x placed at index j. */
  function AddAt<T>(list: seq<T>, j: nat, x: T): (r: seq<T>)
    requires j <= |list|
    ensures |r| == |list| + 1 && r[j] == x
    ensures forall k :: 0 <= k < j ==> r[k] == list[k]
    ensures forall k :: j < k < |r| ==> r[k] == list[k - 1]
  {
    list[..j] + [x] + list[j..]
  }

  /** List.add(j, x) keeps every element and adds x once. */
  lemma AddAtMultiset<T>(list: seq<T>, j: nat, x: T)
    requires j <= |list|
    ensures multiset(AddAt(list, j, x)) == multiset(list) + multiset{x}
  {
    assert list == list[..j] + list[j..];
  }

  /** Taking one more element of a sequence adds that element to the prefix's multiset. */
  lemma PrefixStepMultiset<T>(s: seq<T>, k: nat)
    requires k < |s|
    ensures multiset(s[..k + 1]) == multiset(s[..k]) + multiset{s[k]}
  {
    assert s[..k + 1] == s[..k] + [s[k]];
  }

  /** Sign of a comparison result, which is all that Comparable's contract looks at. */
  function Sign(v: int): int {
    if v < 0 then -1 else if v == 0 then 0 else 1
  }

  // ---------------------------------------------------------------------------
  // String.compareTo
  // ---------------------------------------------------------------------------

  /**
   * String.compareTo: the difference of the first pair of characters that
   * differ, or the difference of the lengths when one string is a prefix of
   * the other.
   */
  function StringCompareTo(a: string, b: string): int
  {
    if |a| == 0 || |b| == 0 then |a| - |b|
    else if a[0] != b[0] then a[0] as int - b[0] as int
    else StringCompareTo(a[1..], b[1..])
  }

  /** compareTo returns 0 exactly on equal strings. */
  lemma {:induction false} StringCompareToZero(a: string, b: string)
    ensures StringCompareTo(a, b) == 0 <==> a == b
  {
    if |a| == 0 || |b| == 0 {
    } else if a[0] != b[0] {
    } else {
      StringCompareToZero(a[1..], b[1..]);
      assert a == [a[0]] + a[1..] && b == [b[0]] + b[1..];
    }
  }

  /** Swapping the operands negates the result, so the signs are opposite. */
  lemma {:induction false} StringCompareToSwap(a: string, b: string)
    ensures StringCompareTo(a, b) == -StringCompareTo(b, a)
  {
    if |a| == 0 || |b| == 0 {
    } else if a[0] != b[0] {
    } else {
      StringCompareToSwap(a[1..], b[1..]);
    }
  }

  /** The strict order that compareTo induces on strings is transitive. */
  lemma {:induction false} StringCompareToTransitive(a: string, b: string, c: string)
    requires StringCompareTo(a, b) < 0 && StringCompareTo(b, c) < 0
    ensures StringCompareTo(a, c) < 0
  {
    if |a| == 0 {
      assert |b| > 0;
    } else {
      assert |b| > 0 && |c| > 0;
      if a[0] == b[0] && b[0] == c[0] {
        StringCompareToTransitive(a[1..], b[1..], c[1..]);
      }
    }
  }

  // ---------------------------------------------------------------------------
  // Decimal digits
  // ---------------------------------------------------------------------------

  /**
   * An ASCII decimal digit. Both `\d` (on Android's ICU-based regular
   * expressions) and Character.digit also accept the other Unicode decimal
   * digits; those are not modelled.
   */
  predicate IsDigit(c: char) {
    '0' <= c <= '9'
  }

  predicate AllDigits(s: string) {
    forall i :: 0 <= i < |s| ==> IsDigit(s[i])
  }

  function Pow10(n: nat): (p: nat)
    ensures p >= 1
  {
    if n == 0 then 1 else 10 * Pow10(n - 1)
  }

  function DigitChar(d: nat): (c: char)
    requires d < 10
    ensures IsDigit(c) && c as int - '0' as int == d
  {
    ('0' as int + d) as char
  }

  /** Integer.parseInt of a string made only of ASCII digits, most significant first. */
  function DigitsValue(s: string): (n: nat)
    requires AllDigits(s)
    ensures n < Pow10(|s|)
  {
    if s == [] then 0
    else DigitsValue(s[..|s| - 1]) * 10 + (s[|s| - 1] as int - '0' as int)
  }

  /** The decimal form of a count, as Java's string concatenation prints an int. */
  function Decimal(n: nat): (s: string)
    ensures |s| >= 1 && AllDigits(s)
  {
    if n < 10 then [DigitChar(n)] else Decimal(n / 10) + [DigitChar(n % 10)]
  }

  /** Printing a count and parsing it back gives the count. */
  lemma {:induction false} DecimalRoundTrip(n: nat)
    ensures DigitsValue(Decimal(n)) == n
  {
    if n >= 10 {
      DecimalRoundTrip(n / 10);
      var s := Decimal(n);
      assert s[..|s| - 1] == Decimal(n / 10);
    }
  }

  /** The zero-padded decimal form of n in exactly `width` digits. */
  function Padded(n: nat, width: nat): (s: string)
    requires n < Pow10(width)
    ensures |s| == width && AllDigits(s)
  {
    if width == 0 then [] else Padded(n / 10, width - 1) + [DigitChar(n % 10)]
  }

  lemma {:induction false} PaddedRoundTrip(n: nat, width: nat)
    requires n < Pow10(width)
    ensures DigitsValue(Padded(n, width)) == n
  {
    if width > 0 {
      PaddedRoundTrip(n / 10, width - 1);
      var s := Padded(n, width);
      assert s[..|s| - 1] == Padded(n / 10, width - 1);
    }
  }

  // ---------------------------------------------------------------------------
  // Integer.valueOf(String)
  // ---------------------------------------------------------------------------

  const INT_MIN: int := -0x8000_0000
  const INT_MAX: int := 0x7FFF_FFFF

  /**
   * Integer.valueOf(String) in radix 10: an optional '+' or '-' followed by
   * at least one digit, with a value that fits in 32 bits; anything else is
   * a NumberFormatException (None).
   */
  function ParseInt(s: string): (r: Option<int>)
    ensures r.Some? ==> INT_MIN <= r.value <= INT_MAX
  {
    if |s| == 0 then None
    else
      var negative := s[0] == '-';
      var digits := if s[0] == '-' || s[0] == '+' then s[1..] else s;
      if |digits| == 0 || !AllDigits(digits) then None
      else
        var magnitude: int := DigitsValue(digits);
        var v := if negative then 0 - magnitude else magnitude;
        if INT_MIN <= v <= INT_MAX then Some(v) else None
  }

  /** Every int prints and parses back: the preference's text form round-trips. */
  lemma ParseIntOfDecimal(n: int)
    requires INT_MIN <= n <= INT_MAX
    ensures n >= 0 ==> ParseInt(Decimal(n)) == Some(n)
    ensures n < 0 ==> ParseInt("-" + Decimal(-n)) == Some(n)
  {
    if n >= 0 {
      DecimalRoundTrip(n);
    } else {
      DecimalRoundTrip(-n);
      assert ("-" + Decimal(-n))[1..] == Decimal(-n);
    }
  }

  /** Text that is not a signed run of ASCII digits is rejected. */
  lemma ParseIntRejectsNonDigits(s: string, k: nat)
    requires 0 < k < |s| && !IsDigit(s[k])
    ensures ParseInt(s) == None
  {
  }
}
