/** Gregorian dates and the order of their texts: crates/event/src/calendar.rs. */
module Calendar {
  import opened Arithmetic
  import opened CalendarTags
  import opened Digits
  import opened Lexicographic
  import opened Json
  import opened Results
  import opened Sequences
  import opened Tags
  import opened Text

  datatype CalendarError =
    | InvalidDate
    | InvalidRange
    | OverBudget(error: BudgetError)

  // ----- dates

  predicate IsLeapYear(year: nat) {
    year % 4 == 0 && (year % 100 != 0 || year % 400 == 0)
  }

  function DaysInMonth(year: nat, month: nat): nat {
    match month
    case 1 => 31
    case 3 => 31
    case 5 => 31
    case 7 => 31
    case 8 => 31
    case 10 => 31
    case 12 => 31
    case 4 => 30
    case 6 => 30
    case 9 => 30
    case 11 => 30
    case 2 => if IsLeapYear(year) then 29 else 28
    case _ => 0
  }

  function FoldDigits(value: nat, digits: string): Option<nat>
    decreases |digits|
  {
    if digits == "" then Some(value)
    else if IsDigit(digits[0]) then FoldDigits(value * 10 + DigitValue(digits[0]), digits[1..])
    else None
  }

  function ParseDateDigits(digits: string): Option<nat> {
    FoldDigits(0, digits)
  }

  /** Accepts a ten-character date and keeps its text. */
  function ParseDate(value: string): Result<string, CalendarError> {
    if |value| != 10 || value[4] != '-' || value[7] != '-' then Err(InvalidDate)
    else
      var year, month, day := ParseDateDigits(value[0..4]), ParseDateDigits(value[5..7]), ParseDateDigits(value[8..10]);
      if year.None? || month.None? || day.None? then Err(InvalidDate)
      else if year.value == 0 || month.value == 0 || month.value > 12 || day.value == 0
              || day.value > DaysInMonth(year.value, month.value) then
        Err(InvalidDate)
      else Ok(value)
  }

  datatype Date = Date(year: nat, month: nat, day: nat)

  predicate ValidDate(d: Date) {
    1 <= d.year <= 9999 && 1 <= d.month <= 12 && 1 <= d.day <= DaysInMonth(d.year, d.month)
  }

  type GregorianDate = d: Date | ValidDate(d) witness Date(1, 1, 1)

  lemma TwoAndFourDigits()
    ensures Pow10(2) == 100 && Pow10(4) == 10_000
  {
    Pow10Table();
  }

  function PrintDate(d: GregorianDate): (s: string)
    ensures |s| == 10
  {
    TwoAndFourDigits();
    Padded(d.year, 4) + "-" + Padded(d.month, 2) + "-" + Padded(d.day, 2)
  }

  lemma {:induction false} FoldDigitsExact(value: nat, digits: string)
    ensures FoldDigits(value, digits)
         == if AllDigits(digits) then Some(value * Pow10(|digits|) + DigitsValue(digits)) else None
    decreases |digits|
  {
    if digits != "" {
      var head, rest := digits[..1], digits[1..];
      assert digits == head + rest;
      if IsDigit(digits[0]) {
        FoldDigitsExact(value * 10 + DigitValue(digits[0]), rest);
        assert AllDigits(digits) <==> AllDigits(rest) by {
          assert forall i :: 0 < i < |digits| ==> digits[i] == rest[i - 1];
        }
        if AllDigits(digits) {
          DigitsValueConcat(head, rest);
          assert DigitsValue(head) == DigitValue(digits[0]) by { assert head[..0] == ""; }
          Distribute(value * 10, DigitValue(digits[0]), Pow10(|rest|));
          MulAssociative(value, 10, Pow10(|rest|));
        }
      }
    }
  }

  lemma FieldValue(field: string)
    ensures ParseDateDigits(field) == if AllDigits(field) then Some(DigitsValue(field)) else None
  {
    FoldDigitsExact(0, field);
  }

  /** A field is read back exactly as it is padded. */
  lemma FieldIsPadded(field: string)
    requires ParseDateDigits(field).Some?
    ensures var value := ParseDateDigits(field).value; value < Pow10(|field|) && Padded(value, |field|) == field
  {
    FieldValue(field);
    PaddedOfValue(field);
  }

  lemma PaddedIsField(value: nat, width: nat)
    requires value < Pow10(width)
    ensures ParseDateDigits(Padded(value, width)) == Some(value)
  {
    PaddedValue(value, width);
    FieldValue(Padded(value, width));
  }

  /** Every accepted text is the printed form of a valid date. */
  lemma ParsedIsPrinted(value: string) returns (d: GregorianDate)
    requires ParseDate(value).Ok?
    ensures ParseDate(value) == Ok(value) && value == PrintDate(d)
  {
    var year, month, day := value[0..4], value[5..7], value[8..10];
    TwoAndFourDigits();
    FieldIsPadded(year);
    FieldIsPadded(month);
    FieldIsPadded(day);
    d := Date(ParseDateDigits(year).value, ParseDateDigits(month).value, ParseDateDigits(day).value);
    assert value == year + "-" + month + "-" + day;
  }

  /** Every valid date is accepted in its printed form. */
  lemma PrintedIsParsed(d: GregorianDate)
    ensures ParseDate(PrintDate(d)) == Ok(PrintDate(d))
  {
    TwoAndFourDigits();
    var value := PrintDate(d);
    assert value[0..4] == Padded(d.year, 4) && value[5..7] == Padded(d.month, 2) && value[8..10] == Padded(d.day, 2);
    PaddedIsField(d.year, 4);
    PaddedIsField(d.month, 2);
    PaddedIsField(d.day, 2);
  }

  /** Any other text is refused as an invalid date. */
  lemma RefusedIsNoDate(value: string)
    ensures ParseDate(value) == Err(InvalidDate) <==> forall d: GregorianDate :: value != PrintDate(d)
  {
    if ParseDate(value).Ok? {
      var d := ParsedIsPrinted(value);
    }
    if d: GregorianDate :| value == PrintDate(d) {
      PrintedIsParsed(d);
    }
  }

  // ----- day numbers

  /** Days from 0001-01-01 up to the first day of the year, counted year by year. */
  function DaysBeforeYear(year: nat): nat {
    if year <= 1 then 0 else DaysBeforeYear(year - 1) + (if IsLeapYear(year - 1) then 366 else 365)
  }

  function DaysBeforeMonth(year: nat, month: nat): nat {
    if month <= 1 then 0 else DaysBeforeMonth(year, month - 1) + DaysInMonth(year, month - 1)
  }

  function DayNumber(d: GregorianDate): nat {
    DaysBeforeYear(d.year) + DaysBeforeMonth(d.year, d.month) + d.day
  }

  /** One more step moves a quotient exactly at the multiples of the divisor. */
  lemma NextQuotient(n: nat, k: nat)
    requires k > 1
    ensures (n + 1) / k == n / k + (if (n + 1) % k == 0 then 1 else 0)
  {
    DivisionIdentity(n, k);
    if n % k + 1 < k {
      DivModUnique(n + 1, n / k, n % k + 1, k);
    } else {
      Distribute(n / k, 1, k);
      DivModUnique(n + 1, n / k + 1, 0, k);
    }
  }

  /** The usual closed form of the Gregorian year count. */
  lemma {:induction false} YearsClosedForm(n: nat)
    ensures DaysBeforeYear(n + 1) == 365 * n + n / 4 - n / 100 + n / 400
  {
    if n > 0 {
      YearsClosedForm(n - 1);
      NextQuotient(n - 1, 4);
      NextQuotient(n - 1, 100);
      NextQuotient(n - 1, 400);
      Multiples(n);
    }
  }

  lemma Multiples(n: nat)
    ensures n % 400 == 0 ==> n % 100 == 0
    ensures n % 100 == 0 ==> n % 4 == 0
  {
    DivisionIdentity(n, 400);
    DivisionIdentity(n, 100);
    if n % 400 == 0 {
      DivModUnique(n, 4 * (n / 400), 0, 100);
    }
    if n % 100 == 0 {
      DivModUnique(n, 25 * (n / 100), 0, 4);
    }
  }

  lemma MonthTable(year: nat)
    ensures var leap := if IsLeapYear(year) then 1 else 0;
            && DaysBeforeMonth(year, 1) == 0 && DaysBeforeMonth(year, 2) == 31
            && DaysBeforeMonth(year, 3) == 59 + leap && DaysBeforeMonth(year, 4) == 90 + leap
            && DaysBeforeMonth(year, 5) == 120 + leap && DaysBeforeMonth(year, 6) == 151 + leap
            && DaysBeforeMonth(year, 7) == 181 + leap && DaysBeforeMonth(year, 8) == 212 + leap
            && DaysBeforeMonth(year, 9) == 243 + leap && DaysBeforeMonth(year, 10) == 273 + leap
            && DaysBeforeMonth(year, 11) == 304 + leap && DaysBeforeMonth(year, 12) == 334 + leap
            && DaysBeforeMonth(year, 13) == 365 + leap
  {
    assert DaysBeforeMonth(year, 3) == DaysBeforeMonth(year, 2) + DaysInMonth(year, 2);
    assert DaysBeforeMonth(year, 5) == DaysBeforeMonth(year, 4) + DaysInMonth(year, 4);
    assert DaysBeforeMonth(year, 7) == DaysBeforeMonth(year, 6) + DaysInMonth(year, 6);
    assert DaysBeforeMonth(year, 9) == DaysBeforeMonth(year, 8) + DaysInMonth(year, 8);
    assert DaysBeforeMonth(year, 11) == DaysBeforeMonth(year, 10) + DaysInMonth(year, 10);
    assert DaysBeforeMonth(year, 13) == DaysBeforeMonth(year, 12) + DaysInMonth(year, 12);
  }

  /** Chronological order of year, month and day. */
  predicate Earlier(a: Date, b: Date) {
    a.year < b.year || (a.year == b.year && (a.month < b.month || (a.month == b.month && a.day < b.day)))
  }

  lemma {:induction false} YearsMonotone(a: nat, b: nat)
    requires 1 <= a < b
    ensures DaysBeforeYear(a) + (if IsLeapYear(a) then 366 else 365) <= DaysBeforeYear(b)
  {
    if a < b - 1 {
      YearsMonotone(a, b - 1);
    }
  }

  lemma {:induction false} MonthsMonotone(year: nat, a: nat, b: nat)
    requires 1 <= a < b
    ensures DaysBeforeMonth(year, a) + DaysInMonth(year, a) <= DaysBeforeMonth(year, b)
  {
    if a < b - 1 {
      MonthsMonotone(year, a, b - 1);
    }
  }

  lemma EarlierIsLower(a: GregorianDate, b: GregorianDate)
    requires Earlier(a, b)
    ensures DayNumber(a) < DayNumber(b)
  {
    if a.year < b.year {
      MonthsMonotone(a.year, a.month, 13);
      MonthTable(a.year);
      YearsMonotone(a.year, b.year);
    } else if a.month < b.month {
      MonthsMonotone(a.year, a.month, b.month);
    }
  }

  /** The day after a date, as a calendar shows it. */
  function NextDay(d: GregorianDate): Date {
    if d.day < DaysInMonth(d.year, d.month) then Date(d.year, d.month, d.day + 1)
    else if d.month < 12 then Date(d.year, d.month + 1, 1)
    else Date(d.year + 1, 1, 1)
  }

  /** Day numbers count calendar days one by one through every month end, year end and leap day. */
  lemma NextDayCounts(d: GregorianDate)
    requires d != Date(9999, 12, 31)
    ensures ValidDate(NextDay(d)) && DayNumber(NextDay(d)) == DayNumber(d) + 1
  {
    if d.day == DaysInMonth(d.year, d.month) && d.month == 12 {
      MonthTable(d.year);
    }
  }

  // ----- text order is chronological order

  lemma {:induction false} LexPrefix(a: string, b: string, x: string, y: string)
    requires |a| == |b|
    ensures LexLess(a, b) ==> LexLess(a + x, b + y)
    ensures a == b ==> (LexLess(a + x, b + y) <==> LexLess(x, y))
  {
    if a == "" {
      assert a + x == x && b + y == y;
      LexIrreflexive(a);
    } else {
      LexPrefix(a[1..], b[1..], x, y);
      assert (a + x)[1..] == a[1..] + x && (b + y)[1..] == b[1..] + y;
    }
  }

  lemma {:induction false} PaddedOrder(m: nat, n: nat, width: nat)
    requires m < n < Pow10(width)
    ensures LexLess(Padded(m, width), Padded(n, width))
  {
    if width > 0 {
      var a, b := Padded(m / 10, width - 1), Padded(n / 10, width - 1);
      var x, y := [DigitChar(m % 10)], [DigitChar(n % 10)];
      LexPrefix(a, b, x, y);
      if m / 10 < n / 10 {
        PaddedOrder(m / 10, n / 10, width - 1);
      } else {
        assert m % 10 < n % 10;
      }
    }
  }

  /** Three fields joined by dashes are compared field by field. */
  lemma FieldsDecide(y: string, y': string, m: string, m': string, n: string, n': string)
    requires |y| == |y'| && |m| == |m'|
    ensures var a, b := y + "-" + m + "-" + n, y' + "-" + m' + "-" + n';
            && (LexLess(y, y') ==> LexLess(a, b))
            && (y == y' && LexLess(m, m') ==> LexLess(a, b))
            && (y == y' && m == m' && LexLess(n, n') ==> LexLess(a, b))
  {
    var day, day' := "-" + n, "-" + n';
    var rest, rest' := "-" + (m + day), "-" + (m' + day');
    assert y + "-" + m + "-" + n == y + rest && y' + "-" + m' + "-" + n' == y' + rest';
    LexPrefix(y, y', rest, rest');
    LexPrefix("-", "-", m + day, m' + day');
    LexPrefix(m, m', day, day');
    LexPrefix("-", "-", n, n');
  }

  lemma EarlierIsLexLess(a: GregorianDate, b: GregorianDate)
    requires Earlier(a, b)
    ensures LexLess(PrintDate(a), PrintDate(b))
  {
    TwoAndFourDigits();
    FieldsDecide(Padded(a.year, 4), Padded(b.year, 4), Padded(a.month, 2), Padded(b.month, 2),
                 Padded(a.day, 2), Padded(b.day, 2));
    if a.year < b.year {
      PaddedOrder(a.year, b.year, 4);
    } else if a.month < b.month {
      PaddedOrder(a.month, b.month, 2);
    } else {
      PaddedOrder(a.day, b.day, 2);
    }
  }

  /** Comparing accepted date texts compares their Gregorian day numbers. */
  lemma TextOrderIsChronological(a: GregorianDate, b: GregorianDate)
    ensures LexLess(PrintDate(a), PrintDate(b)) <==> DayNumber(a) < DayNumber(b)
    ensures PrintDate(a) == PrintDate(b) <==> DayNumber(a) == DayNumber(b)
  {
    if Earlier(a, b) {
      EarlierIsLexLess(a, b);
      EarlierIsLower(a, b);
      LexIrreflexive(PrintDate(a));
    } else if Earlier(b, a) {
      EarlierIsLexLess(b, a);
      EarlierIsLower(b, a);
      LexIrreflexive(PrintDate(a));
      LexAsymmetric(PrintDate(b), PrintDate(a));
    } else {
      assert a == b;
      LexIrreflexive(PrintDate(a));
    }
  }

  // ----- authored date events

  datatype DateEvent = DateEvent(
    dTag: string,
    title: string,
    start: string,
    description: Option<string>,
    end: Option<string>,
    common: Common)

  function DateTags(e: DateEvent): seq<Tag> {
    [["d", e.dTag], ["title", e.title], ["start", e.start]] + OptionalTag("end", e.end) + CommonTags(e.common)
  }

  /** The same tags by their keys. */
  function DateParts(e: DateEvent): seq<Part> {
    OwnDateParts(e) + CommonParts(e.common)
  }

  function OwnDateParts(e: DateEvent): seq<Part> {
    [ Part("d", [["d", e.dTag]]), Part("title", [["title", e.title]]), Part("start", [["start", e.start]]),
      Part("end", OptionalTag("end", e.end))]
  }

  lemma DatePartsPlaced(e: DateEvent, i: nat)
    requires i < 4
    ensures var part := OwnDateParts(e)[i]; Slot(part.key) == i && AllKeyed(part.tags, part.key)
  {
  }

  lemma DatePartsKeyed(e: DateEvent)
    ensures PartsKeyed(DateParts(e)) && KeysDistinct(DateParts(e)) && DateTags(e) == Flatten(DateParts(e))
  {
    var parts, own := DateParts(e), OwnDateParts(e);
    CommonPartsKeyed(e.common);
    forall i | 0 <= i < |parts|
      ensures Slot(parts[i].key) == (if i < 4 then i else i + 3) && AllKeyed(parts[i].tags, parts[i].key)
    {
      if i < 4 {
        DatePartsPlaced(e, i);
      } else {
        CommonPartsPlaced(e.common, i - 4);
      }
    }
    FlattenFour(own[0], own[1], own[2], own[3]);
    FlattenConcat(own, CommonParts(e.common));
  }

  /** A date event's tags are, key by key, those of its fields. */
  lemma DateTagsByKey(e: DateEvent)
    ensures var tags := DateTags(e);
            && Matching(tags, "d") == [["d", e.dTag]] && Matching(tags, "title") == [["title", e.title]]
            && Matching(tags, "start") == [["start", e.start]]
            && Matching(tags, "end") == (if e.end.Some? then [["end", e.end.value]] else [])
            && Carries(tags, CommonParts(e.common))
    ensures DateTags(e) == Flatten(DateParts(e))
    ensures InOrder(DateParts(e), ["d", "title", "start", "end", "location", "g", "summary", "image", "p", "t", "r", "a"])
  {
    var parts, common := DateParts(e), CommonParts(e.common);
    DatePartsKeyed(e);
    FlattenCarries(parts);
    assert parts[0].key == "d" && parts[1].key == "title" && parts[2].key == "start" && parts[3].key == "end";
    assert forall i :: 0 <= i < |common| ==> common[i] == parts[i + 4];
  }

  /** `with_end`: refused when the end text is not after the start text, or over budget. */
  function WithEnd(e: DateEvent, end: string): Result<DateEvent, CalendarError> {
    if !LexLess(e.start, end) then Err(InvalidRange)
    else
      var updated := e.(end := Some(end));
      var budget := Budget(updated.description, DateTags(updated));
      if budget.Err? then Err(OverBudget(budget.error)) else Ok(updated)
  }

  /** An end date is refused for its range exactly when it is not on a later day, and otherwise accepted
      exactly when the event with its end tag stays within the tag budget. */
  lemma WithEndExact(e: DateEvent, start: GregorianDate, end: GregorianDate)
    requires e.start == PrintDate(start)
    ensures WithEnd(e, PrintDate(end)) == Err(InvalidRange) <==> DayNumber(end) <= DayNumber(start)
    ensures WithEnd(e, PrintDate(end)).Ok? <==>
              && DayNumber(start) < DayNumber(end)
              && var tags := DateTags(e.(end := Some(PrintDate(end))));
                 && (e.description.Some? ==> Utf8Len(e.description.value) <= CONTENT_MAX_BYTES)
                 && |tags| <= TAG_MAX_COUNT && AllSmall(tags) && SumBy(tags, ElementBytes) <= TAG_TOTAL_MAX_BYTES
    ensures WithEnd(e, PrintDate(end)).Ok? ==> WithEnd(e, PrintDate(end)).value == e.(end := Some(PrintDate(end)))
  {
    TextOrderIsChronological(start, end);
    BudgetExact(e.description, DateTags(e.(end := Some(PrintDate(end)))));
  }
}
