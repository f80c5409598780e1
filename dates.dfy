/** Calendar dates written as text. Two readings of the format
    `%Y-%m-%d`: `Strptime`, what Python's `datetime.strptime` accepts, and
    `IsIsoDate`, the fixed-width `YYYY-MM-DD` form whose string order is the
    calendar order. */
module Dates {
  import opened Optional
  import opened PyStrings

  datatype Date = Date(year: int, month: int, day: int)

  predicate IsLeapYear(y: int) {
    y % 4 == 0 && (y % 100 != 0 || y % 400 == 0)
  }

  function DaysInMonth(y: int, m: int): (n: int)
    requires 1 <= m <= 12
    ensures 28 <= n <= 31
  {
    if m == 2 then (if IsLeapYear(y) then 29 else 28)
    else if m == 4 || m == 6 || m == 9 || m == 11 then 30
    else 31
  }

  /** What `datetime.date(year, month, day)` accepts. */
  predicate IsCalendarDate(d: Date) {
    1 <= d.year <= 9999 && 1 <= d.month <= 12 && 1 <= d.day <= DaysInMonth(d.year, d.month)
  }

  /** Calendar order: `a` is on or before `b`. */
  predicate DateLe(a: Date, b: Date) {
    a.year < b.year || (a.year == b.year && (a.month < b.month || (a.month == b.month && a.day <= b.day)))
  }

  predicate IsDigit(c: char) {
    '0' <= c <= '9'
  }

  predicate AllDigits(s: string) {
    forall i | 0 <= i < |s| :: IsDigit(s[i])
  }

  function DigitValue(c: char): (v: nat)
    requires IsDigit(c)
    ensures v < 10
  {
    c as int - '0' as int
  }

  function Pow10(n: nat): (p: nat)
    ensures p >= 1
  {
    if n == 0 then 1 else 10 * Pow10(n - 1)
  }

  /** The value of a string of decimal digits (Python's `int(s)`); it has
      no more digits than `s`. */
  function Number(s: string): (n: nat)
    requires AllDigits(s)
    ensures n < Pow10(|s|)
  {
    if s == [] then 0
    else
      var d, rest := DigitValue(s[0]), Number(s[1..]);
      var p := Pow10(|s| - 1);
      PlaceValueBound(d, 10, rest, 0, p);
      d * p + rest
  }

  lemma {:induction false} PlaceValueBound(dx: nat, dy: nat, rx: nat, ry: nat, p: nat)
    requires dx < dy && rx < p
    ensures dx * p + rx < dy * p + ry
    decreases dy - dx
  {
    assert dy * p == (dy - 1) * p + p;
    if dx < dy - 1 {
      PlaceValueBound(dx, dy - 1, rx, ry, p);
    }
  }

  /** A smaller leading digit makes a smaller number, whatever follows. */
  lemma {:induction false} LeadingDigitDecides(x: string, y: string)
    requires |x| == |y| && x != [] && AllDigits(x) && AllDigits(y)
    requires x[0] < y[0]
    ensures Number(x) < Number(y)
  {
    var p := Pow10(|x| - 1);
    PlaceValueBound(DigitValue(x[0]), DigitValue(y[0]), Number(x[1..]), Number(y[1..]), p);
  }

  /** For digit strings of one length, string order is numeric order. */
  lemma {:induction false} NumberOrder(x: string, y: string)
    requires |x| == |y| && AllDigits(x) && AllDigits(y)
    ensures LexLe(x, y) <==> Number(x) <= Number(y)
  {
    if x != [] {
      if x[0] < y[0] {
        LeadingDigitDecides(x, y);
      } else if y[0] < x[0] {
        LeadingDigitDecides(y, x);
      } else {
        NumberOrder(x[1..], y[1..]);
      }
    }
  }

  /** Digit strings of one length with the same value are the same string. */
  lemma NumberInjective(x: string, y: string)
    requires |x| == |y| && AllDigits(x) && AllDigits(y)
    requires Number(x) == Number(y)
    ensures x == y
  {
    NumberOrder(x, y);
    NumberOrder(y, x);
    LexLeAntisymmetric(x, y);
  }

  /** Comparing two texts that start with digit fields of one width: the
      fields decide unless their values agree. */
  lemma FieldCompare(x: string, y: string, x': string, y': string)
    requires |x| == |x'| && AllDigits(x) && AllDigits(x')
    ensures LexLe(x + y, x' + y') ==
            if Number(x) == Number(x') then LexLe(y, y') else Number(x) < Number(x')
  {
    LexLeConcat(x, y, x', y');
    NumberOrder(x, x');
    if Number(x) == Number(x') {
      NumberInjective(x, x');
    }
  }

  // ---------------------------------------------------------------------
  // The corrected format: fixed-width YYYY-MM-DD

  /** Exactly `YYYY-MM-DD`, zero-padded, naming a real calendar day. */
  predicate IsIsoDate(s: string) {
    && |s| == 10
    && AllDigits(s[..4]) && s[4] == '-' && AllDigits(s[5..7]) && s[7] == '-' && AllDigits(s[8..])
    && IsCalendarDate(DateOf(s))
  }

  function DateOf(s: string): Date
    requires |s| == 10 && AllDigits(s[..4]) && AllDigits(s[5..7]) && AllDigits(s[8..])
  {
    Date(Number(s[..4]), Number(s[5..7]), Number(s[8..]))
  }

  /** Comparing the tails of `a` and `b` from `i`, where both hold a digit
      field up to `j`: the fields decide unless their values agree. */
  lemma FieldStep(a: string, b: string, i: int, j: int)
    requires 0 <= i <= j <= |a| == |b| && AllDigits(a[i..j]) && AllDigits(b[i..j])
    ensures LexLe(a[i..], b[i..]) ==
            if Number(a[i..j]) == Number(b[i..j]) then LexLe(a[j..], b[j..]) else Number(a[i..j]) < Number(b[i..j])
  {
    assert a[i..] == a[i..j] + a[j..] && b[i..] == b[i..j] + b[j..];
    FieldCompare(a[i..j], a[j..], b[i..j], b[j..]);
  }

  /** A character both tails share at `i` does not change their order. */
  lemma SeparatorStep(a: string, b: string, i: int)
    requires 0 <= i < |a| == |b| && a[i] == b[i]
    ensures LexLe(a[i..], b[i..]) == LexLe(a[i + 1..], b[i + 1..])
  {
    assert a[i..][1..] == a[i + 1..] && b[i..][1..] == b[i + 1..];
  }

  /** On fixed-width dates, string order is calendar order. */
  lemma IsoDateOrder(a: string, b: string)
    requires IsIsoDate(a) && IsIsoDate(b)
    ensures LexLe(a, b) <==> DateLe(DateOf(a), DateOf(b))
  {
    assert a[0..] == a && b[0..] == b && a[0..4] == a[..4] && b[0..4] == b[..4];
    FieldStep(a, b, 0, 4);
    SeparatorStep(a, b, 4);
    FieldStep(a, b, 5, 7);
    SeparatorStep(a, b, 7);
    NumberOrder(a[8..], b[8..]);
  }

  // ---------------------------------------------------------------------
  // The format as Python reads it

  /** `%m` in `datetime.strptime`: the pattern `1[0-2]|0[1-9]|[1-9]`, so a
      month may be written without its leading zero. */
  predicate IsMonthField(t: string) {
    || (|t| == 2 && t[0] == '1' && '0' <= t[1] <= '2')
    || (|t| == 2 && t[0] == '0' && '1' <= t[1] <= '9')
    || (|t| == 1 && '1' <= t[0] <= '9')
  }

  /** `%d` in `datetime.strptime`: the pattern `3[01]|[12]\d|0[1-9]|[1-9]| [1-9]`,
      so a day may be written without its leading zero or with a space
      in its place. */
  predicate IsDayField(t: string) {
    || (|t| == 2 && t[0] == '3' && '0' <= t[1] <= '1')
    || (|t| == 2 && '1' <= t[0] <= '2' && IsDigit(t[1]))
    || (|t| == 2 && t[0] == '0' && '1' <= t[1] <= '9')
    || (|t| == 1 && '1' <= t[0] <= '9')
    || (|t| == 2 && t[0] == ' ' && '1' <= t[1] <= '9')
  }

  /** The value `int(t)` gives a month or day field (a leading space is skipped). */
  function FieldValue(t: string): nat
    requires IsMonthField(t) || IsDayField(t)
  {
    if t[0] == ' ' then DigitValue(t[1]) else Number(t)
  }

  /** `datetime.strptime(s, "%Y-%m-%d")`: the date it returns, or `None` where
      it raises `ValueError`. The pattern is matched from the start of `s`
      with backtracking (a two-character month is tried before a
      one-character one), text left over after the day is an error, and the
      three numbers must then form a calendar date. */
  function Strptime(s: string): (r: Option<Date>)
    ensures r.Some? ==> IsCalendarDate(r.value)
  {
    if |s| < 5 || !AllDigits(s[..4]) || s[4] != '-' then None
    else
      var rest := s[5..];
      var monthWidth := if |rest| >= 3 && IsMonthField(rest[..2]) && rest[2] == '-' then 2 else 1;
      if |rest| < monthWidth + 1 || !IsMonthField(rest[..monthWidth]) || rest[monthWidth] != '-' then None
      else
        var dayText := rest[monthWidth + 1..];
        if !IsDayField(dayText) then None
        else
          var d := Date(Number(s[..4]), FieldValue(rest[..monthWidth]), FieldValue(dayText));
          if IsCalendarDate(d) then Some(d) else None
  }

  /** The value of a two-digit field. */
  lemma NumberTwoDigits(t: string)
    requires |t| == 2 && AllDigits(t)
    ensures Number(t) == 10 * DigitValue(t[0]) + DigitValue(t[1])
  {
    assert t[1..][1..] == [];
  }

  /** The value of a one-digit field. */
  lemma NumberOneDigit(t: string)
    requires |t| == 1 && AllDigits(t)
    ensures Number(t) == DigitValue(t[0])
  {
    assert t[1..] == [];
  }

  /** Every fixed-width date is one Python accepts, with the same meaning:
      the corrected check only rejects more. */
  lemma IsoDateAccepted(s: string)
    requires IsIsoDate(s)
    ensures Strptime(s) == Some(DateOf(s))
  {
    var rest := s[5..];
    assert rest[..2] == s[5..7] && rest[2] == '-' && rest[3..] == s[8..];
    NumberTwoDigits(s[5..7]);
    NumberTwoDigits(s[8..]);
    assert IsMonthField(s[5..7]);
    assert IsDayField(s[8..]);
  }

  lemma NumberOfYear()
    ensures Number("2024") == 2024
  {
    assert "2024"[1..] == "024" && "024"[1..] == "24";
    NumberTwoDigits("24");
  }

  /** How `Strptime` splits `2024-1-5`: the year `2024`, then `1-5`, whose
      first two characters are not a month. */
  lemma UnpaddedDateSplit()
    ensures var s := "2024-1-5";
            && |s| == 8 && s[..4] == "2024" && AllDigits(s[..4]) && s[4] == '-' && s[5..] == "1-5"
            && Number(s[..4]) == 2024
  {
    NumberOfYear();
  }

  /** The month `1` and the day `5` of `1-5`. */
  lemma UnpaddedMonthDay()
    ensures var rest := "1-5";
            && !IsMonthField(rest[..2]) && IsMonthField(rest[..1]) && rest[1] == '-'
            && IsDayField(rest[2..]) && FieldValue(rest[..1]) == 1 && FieldValue(rest[2..]) == 5
  {
    assert "1-5"[..2] == "1-" && "1-5"[..1] == "1" && "1-5"[2..] == "5";
    NumberOneDigit("1");
    NumberOneDigit("5");
  }

  /** The text `2024-1-5` is a date Python accepts: 5 January 2024. */
  lemma UnpaddedDateAccepted()
    ensures Strptime("2024-1-5") == Some(Date(2024, 1, 5))
  {
    UnpaddedDateSplit();
    UnpaddedMonthDay();
  }

  /** The three digit fields of `2024-01-10`. */
  lemma PaddedDateFields()
    ensures var s := "2024-01-10";
            && |s| == 10 && s[..4] == "2024" && s[4] == '-' && s[5..7] == "01" && s[7] == '-' && s[8..] == "10"
  {
  }

  /** `2024-01-10` is a fixed-width date: 10 January 2024. */
  lemma PaddedDateOf()
    ensures IsIsoDate("2024-01-10") && DateOf("2024-01-10") == Date(2024, 1, 10)
  {
    PaddedDateFields();
    NumberOfYear();
    NumberTwoDigits("01");
    NumberTwoDigits("10");
  }

  /** Although 5 January 2024 comes before 10 January 2024, the string
      `2024-01-10` orders before `2024-1-5`. */
  lemma UnpaddedDateMisordered()
    ensures !DateLe(Date(2024, 1, 10), Date(2024, 1, 5))
    ensures LexLe("2024-01-10", "2024-1-5")
  {
    assert "2024-01-10" == "2024-" + "01-10" && "2024-1-5" == "2024-" + "1-5";
    LexLeConcat("2024-", "01-10", "2024-", "1-5");
  }
}
