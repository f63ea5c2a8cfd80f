/**
 * Attendance dates are ISO `YYYY-MM-DD` strings, and the session lists sort
 * them with the plain string order. This module shows that for such strings
 * the string order is the calendar order.
 */
module IsoDates {
  import opened Strings

  /** `YYYY-MM-DD`: four, two and two digits separated by dashes. */
  predicate IsIsoDate(s: string) {
    && |s| == 10
    && AllDigits(s[..4]) && s[4] == '-'
    && AllDigits(s[5..7]) && s[7] == '-'
    && AllDigits(s[8..])
  }

  function YearOf(s: string): nat
    requires IsIsoDate(s)
  {
    DigitsValue(s[..4])
  }

  function MonthOf(s: string): nat
    requires IsIsoDate(s)
  {
    DigitsValue(s[5..7])
  }

  function DayOf(s: string): nat
    requires IsIsoDate(s)
  {
    DigitsValue(s[8..])
  }

  /** `a` is an earlier calendar day than `b`: year, then month, then day. */
  predicate Earlier(a: string, b: string)
    requires IsIsoDate(a) && IsIsoDate(b)
  {
    || YearOf(a) < YearOf(b)
    || (YearOf(a) == YearOf(b) && MonthOf(a) < MonthOf(b))
    || (YearOf(a) == YearOf(b) && MonthOf(a) == MonthOf(b) && DayOf(a) < DayOf(b))
  }

  /**
   * Comparing the tails from `i` of two equally long strings: the field from
   * `i` to `j` decides first, then the tails from `j`.
   */
  lemma StrLtField(a: string, b: string, i: nat, j: nat)
    requires |a| == |b| && i <= j <= |a|
    ensures StrLt(a[i..], b[i..]) <==> StrLt(a[i..j], b[i..j]) || (a[i..j] == b[i..j] && StrLt(a[j..], b[j..]))
  {
    assert a[i..] == a[i..j] + a[j..] && b[i..] == b[i..j] + b[j..];
    StrLtSameLengthHeads(a[i..j], a[j..], b[i..j], b[j..]);
  }

  /** On ISO dates, string order is chronological order. */
  lemma StringOrderIsChronological(a: string, b: string)
    requires IsIsoDate(a) && IsIsoDate(b)
    ensures StrLt(a, b) <==> Earlier(a, b)
  {
    // a = year + "-" + month + "-" + day, and likewise b
    assert a[0..] == a && b[0..] == b;
    StrLtField(a, b, 0, 4);
    DigitsOrder(a[0..4], b[0..4]);
    assert a[..4] == a[0..4] && b[..4] == b[0..4];

    StrLtField(a, b, 4, 5);
    assert a[4..5] == [a[4]] == b[4..5];
    StrLtIrreflexive(a[4..5]);

    StrLtField(a, b, 5, 7);
    DigitsOrder(a[5..7], b[5..7]);

    StrLtField(a, b, 7, 8);
    assert a[7..8] == [a[7]] == b[7..8];
    StrLtIrreflexive(a[7..8]);

    DigitsOrder(a[8..], b[8..]);
  }
}
