/**
 * Cell values and the table's value comparator (`compareValues` in DataTable.tsx).
 *
 * A cell read from a row is JavaScript `null`/`undefined` (one case, `Null`), a number
 * (modelled as an unbounded integer) or a string.
 */
module CellValues {

  datatype Value = Null | Num(n: int) | Str(s: string)

  /** The decimal digit for `d`. */
  function Digit(d: nat): (c: char)
    requires d < 10
    ensures '0' <= c <= '9'
  {
    ((('0' as int) + d) as char)
  }

  /** Decimal text of a natural number, most significant digit first, without leading zeros. */
  function NatToString(n: nat): (r: string)
    ensures |r| > 0
    ensures forall k :: 0 <= k < |r| ==> '0' <= r[k] <= '9'
    ensures r[0] == '0' <==> n == 0
    ensures n < 10 <==> |r| == 1
    decreases n
  {
    if n < 10 then [Digit(n)] else NatToString(n / 10) + [Digit(n % 10)]
  }

  /** The number a string of decimal digits denotes, most significant digit first. */
  function DigitsValue(s: string): nat
    requires forall k :: 0 <= k < |s| ==> '0' <= s[k] <= '9'
    decreases |s|
  {
    if s == [] then 0
    else DigitsValue(s[..|s| - 1]) * 10 + ((s[|s| - 1] as int) - ('0' as int))
  }

  /** Reading back the decimal text of `n` gives `n`, so different numbers have different texts. */
  lemma {:induction false} NatToStringRoundTrip(n: nat)
    ensures DigitsValue(NatToString(n)) == n
    decreases n
  {
    if n >= 10 {
      NatToStringRoundTrip(n / 10);
      var r := NatToString(n);
      assert r[..|r| - 1] == NatToString(n / 10);
    }
  }

  /** JavaScript's `String(n)` for an integral number: a minus sign exactly for negatives, then digits. */
  function IntToString(i: int): (r: string)
    ensures |r| > 0
    ensures r[0] == '-' <==> i < 0
    ensures forall k :: 0 < k < |r| ==> '0' <= r[k] <= '9'
    ensures i >= 0 ==> r == NatToString(i)
    ensures i < 0 ==> r == "-" + NatToString(-i)
  {
    if i < 0 then "-" + NatToString(-i) else NatToString(i)
  }

  lemma NegativeText(i: int)
    requires i < 0
    ensures IntToString(i)[1..] == NatToString(-i)
  {
    assert IntToString(i) == "-" + NatToString(-i);
  }

  /** Different integers have different string forms. */
  lemma IntToStringInjective(i: int, j: int)
    requires IntToString(i) == IntToString(j)
    ensures i == j
  {
    assert (i < 0) == (j < 0) by {
      assert IntToString(i)[0] == IntToString(j)[0];
    }
    var m: nat, n: nat := if i < 0 then -i else i, if j < 0 then -j else j;
    if i < 0 {
      NegativeText(i);
      NegativeText(j);
    }
    assert NatToString(m) == NatToString(n);
    NatToStringRoundTrip(m);
    NatToStringRoundTrip(n);
    assert m == n;
  }

  /**
   * JavaScript's `String(v)` for the values that reach it in the comparator: the decimal text
   * of a number, a string itself. Missing values are decided before the fallback, so the text
   * given for `Null` is never used.
   */
  function ToStr(v: Value): (s: string)
    ensures v.Null? ==> s == "null"
    ensures v.Num? ==> s == IntToString(v.n)
    ensures v.Str? ==> s == v.s
  {
    match v
    case Null => "null"
    case Num(n) => IntToString(n)
    case Str(s) => s
  }

  /**
   * Lexicographic comparison by character code, standing in for `localeCompare`:
   * negative, zero or positive as `s` sorts before, equal to or after `t`.
   */
  function StrCompare(s: string, t: string): (r: int)
    ensures -1 <= r <= 1
    ensures r == 0 <==> s == t
  {
    if s == [] then (if t == [] then 0 else -1)
    else if t == [] then 1
    else if s[0] < t[0] then -1
    else if s[0] > t[0] then 1
    else
      assert s == [s[0]] + s[1..] && t == [t[0]] + t[1..];
      StrCompare(s[1..], t[1..])
  }

  lemma {:induction false} StrCompareAntisymmetric(s: string, t: string)
    ensures StrCompare(s, t) == -StrCompare(t, s)
  {
    if s != [] && t != [] && s[0] == t[0] {
      StrCompareAntisymmetric(s[1..], t[1..]);
    }
  }

  lemma {:induction false} StrCompareTransitive(s: string, t: string, u: string)
    requires StrCompare(s, t) <= 0 && StrCompare(t, u) <= 0
    ensures StrCompare(s, u) <= 0
  {
    if s != [] && t != [] && u != [] && s[0] == t[0] && t[0] == u[0] {
      StrCompareTransitive(s[1..], t[1..], u[1..]);
    }
  }

  /** `compareValues`: nulls first, numbers by subtraction, everything else by string form. */
  function Compare(a: Value, b: Value): (r: int)
    ensures a.Null? && !b.Null? ==> r < 0
    ensures !a.Null? && b.Null? ==> r > 0
    ensures a == b ==> r == 0
    ensures a.Num? && b.Num? ==> (r < 0 <==> a.n < b.n) && (r == 0 <==> a.n == b.n)
    ensures !a.Null? && !b.Null? && !(a.Num? && b.Num?) ==> -1 <= r <= 1
    ensures a.Str? && b.Str? ==> r == StrCompare(a.s, b.s)
    ensures a.Num? && b.Str? ==> r == StrCompare(IntToString(a.n), b.s)
    ensures a.Str? && b.Num? ==> r == StrCompare(a.s, IntToString(b.n))
  {
    if a.Null? && !b.Null? then -1
    else if !a.Null? && b.Null? then 1
    else if a.Null? && b.Null? then 0
    else if a.Num? && b.Num? then a.n - b.n
    else StrCompare(ToStr(a), ToStr(b))
  }

  /**
   * The rules the comparator follows: a missing value is below every present one and equal
   * to another missing one; two numbers are ordered as integers; two strings are ordered by
   * the string order, equal exactly when identical; a number and a string, in either argument
   * order, are compared by the number's decimal text.
   */
  lemma ComparatorRules(a: Value, b: Value)
    ensures a.Null? && b.Null? ==> Compare(a, b) == 0
    ensures a.Null? && !b.Null? ==> Compare(a, b) < 0 && Compare(b, a) > 0
    ensures a.Num? && b.Num? ==> (Compare(a, b) < 0 <==> a.n < b.n) && (Compare(a, b) == 0 <==> a.n == b.n)
    ensures a.Str? && b.Str? ==> (Compare(a, b) == 0 <==> a.s == b.s)
    ensures a.Str? && b.Str? ==> Compare(a, b) == StrCompare(a.s, b.s)
    ensures a.Num? && b.Str? ==> Compare(a, b) == StrCompare(IntToString(a.n), b.s)
    ensures a.Str? && b.Num? ==> Compare(a, b) == StrCompare(a.s, IntToString(b.n))
  {
  }

  /** The sign of a comparison flips when its arguments are swapped; every value equals itself. */
  lemma CompareAntisymmetric(a: Value, b: Value)
    ensures Compare(a, b) < 0 <==> Compare(b, a) > 0
    ensures Compare(a, b) == 0 <==> Compare(b, a) == 0
    ensures Compare(a, a) == 0
  {
    StrCompareAntisymmetric(ToStr(a), ToStr(b));
  }

  /** Two values a column may hold side by side without breaking the order: not a number and a string. */
  predicate Compatible(a: Value, b: Value)
  {
    a.Null? || b.Null? || a.Num? == b.Num?
  }

  /** On values that do not mix numbers with strings, "compares at most zero" is transitive. */
  lemma CompareTransitive(a: Value, b: Value, c: Value)
    requires Compatible(a, b) && Compatible(b, c)
    requires Compare(a, b) <= 0 && Compare(b, c) <= 0
    ensures Compare(a, c) <= 0
  {
    if a.Str? && b.Str? && c.Str? {
      StrCompareTransitive(a.s, b.s, c.s);
    }
  }

  /**
   * Mixing numbers and strings breaks transitivity: 10 sorts before "5" (as text "10" < "5"),
   * "5" before 9, and 9 before 10, a cycle.
   */
  lemma CompareMixedCycle()
    ensures Compare(Num(10), Str("5")) < 0
    ensures Compare(Str("5"), Num(9)) < 0
    ensures Compare(Num(9), Num(10)) < 0
  {
    assert IntToString(10) == "10" by {
      assert NatToString(10) == NatToString(1) + [Digit(0)];
    }
    assert IntToString(9) == "9";
  }
}
