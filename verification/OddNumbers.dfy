/** Leading numbers against string order: a number far from where its name sorts. */
module OddNumbers {
  import opened Options
  import opened Text
  import opened Migrations

  predicate Digits(s: string, k: nat) {
    k <= |s| && forall i | 0 <= i < k :: IsDigit(s[i])
  }

  lemma DecimalStep(s: string, k: nat)
    requires Digits(s, k + 1)
    ensures Decimal(s[..k + 1]) == 10 * Decimal(s[..k]) + Digit(s[k])
  {
    assert s[..k + 1] == s[..k] + [s[k]];
    DecimalAppend(s[..k], s[k]);
  }

  lemma {:induction false} DecimalGrows(s: string, i: nat, j: nat)
    requires i <= j && Digits(s, j)
    ensures Decimal(s[..i]) <= Decimal(s[..j])
  {
    if i < j {
      DecimalGrows(s, i, j - 1);
      DecimalStep(s, j - 1);
    }
  }

  /** As many digits of one value are the same digits. */
  lemma {:induction false} SameValueSameDigits(a: string, b: string, k: nat)
    requires Digits(a, k) && Digits(b, k) && Decimal(a[..k]) == Decimal(b[..k])
    ensures a[..k] == b[..k]
  {
    if k > 0 {
      DecimalStep(a, k - 1);
      DecimalStep(b, k - 1);
      assert Decimal(a[..k - 1]) == Decimal(b[..k - 1]) && Digit(a[k - 1]) == Digit(b[k - 1]);
      SameValueSameDigits(a, b, k - 1);
      assert a[..k] == a[..k - 1] + [a[k - 1]] && b[..k] == b[..k - 1] + [b[k - 1]];
    } else {
      assert a[..0] == b[..0];
    }
  }

  /** Of two names, the one whose first `k` digits are worth less sorts first. */
  lemma {:induction false} SmallerDigitsSortFirst(a: string, b: string, k: nat)
    requires Digits(a, k) && Digits(b, k) && Decimal(a[..k]) < Decimal(b[..k])
    ensures Less(a, b)
  {
    if k > 0 {
      DecimalStep(a, k - 1);
      DecimalStep(b, k - 1);
      if Decimal(a[..k - 1]) < Decimal(b[..k - 1]) {
        SmallerDigitsSortFirst(a, b, k - 1);
      } else {
        assert Decimal(a[..k - 1]) == Decimal(b[..k - 1]);
        SameValueSameDigits(a, b, k - 1);
        LessAtFirstDifference(a, b, k - 1);
      }
    }
  }

  lemma HeadIsDecimal(file: string)
    requires FourDigit(file)
    ensures Digits(file, 4) && Decimal(file[..4]) == Head(file)
  {
    FourDigitNumber(file);
    DigitsThenStop(file, 4);
  }

  /** At most four digits worth more than a four-digit name's number sort after that name. */
  lemma ShortNumberSortsByValue(file: string, start: string, k: nat)
    requires FourDigit(start) && 0 < k <= 4 && Digits(file, k) && Decimal(file[..k]) > Head(start)
    ensures Less(start, file)
  {
    HeadIsDecimal(start);
    DecimalGrows(start, k, 4);
    SmallerDigitsSortFirst(start, file, k);
  }

  /** More than four digits worth less than ten times the next head sort no later than the last name
      before that head. */
  lemma LongNumberSortsEarly(file: string, end: string, start: string, k: nat)
    requires FourDigit(end) && FourDigit(start) && Head(start) == Head(end) + 1
    requires k > 4 && Digits(file, k) && Decimal(file[..k]) < 10 * Head(start)
    ensures Less(file, end)
  {
    HeadIsDecimal(end);
    DecimalStep(file, 4);
    DecimalGrows(file, 5, k);
    if Decimal(file[..4]) < Head(end) {
      SmallerDigitsSortFirst(file, end, 4);
    } else {
      SameValueSameDigits(file, end, 4);
      LessAtFirstDifference(file, end, 4);
    }
  }

  /** A name before `start` whose number is past `start`'s, and under ten times it, is no later than the
      name `end` of the number before. */
  lemma OddNumberIsEarly(file: string, end: string, start: string, n: nat)
    requires FourDigit(end) && FourDigit(start) && Head(start) == Head(end) + 1
    requires NumberOf(file) == Some(n) && Head(start) < n < 10 * Head(start)
    requires Less(file, start)
    ensures AtMost(file, end)
  {
    var k := LeadingDigits(file);
    if k <= 4 {
      ShortNumberSortsByValue(file, start, k);
      LessTrichotomy(file, start);
    } else {
      LongNumberSortsEarly(file, end, start, k);
    }
  }
}
