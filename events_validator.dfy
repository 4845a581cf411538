/**
 * The request rules of calendar-backend/events/validation/events.validator.ts,
 * as predicates over the raw request fields. A field the request leaves out
 * is `None`. `new Date(v)` is the parameter `parse`: `None` where the source
 * gets an invalid Date (`isNaN(date.getTime())`), so calendar validity stays
 * abstract. A JSON number is a `real`.
 */
module EventsValidator {
  import opened Wrappers

  type Instant = int

  // ---------------------------------------------------------------- regex

  /** One position of an anchored regular expression without repetition. */
  datatype Atom = Digit | Char(c: char)

  /** `\d` without the `u` flag: an ASCII digit. */
  predicate IsDigit(c: char)
  {
    '0' <= c <= '9'
  }

  predicate AtomMatches(a: Atom, c: char)
  {
    match a
    case Digit => IsDigit(c)
    case Char(x) => c == x
  }

  /** `^p$`: the whole string matches the atoms, one character each. */
  predicate FullMatch(p: seq<Atom>, s: string)
    decreases |p|
  {
    if p == [] then s == []
    else s != [] && AtomMatches(p[0], s[0]) && FullMatch(p[1..], s[1..])
  }

  /** `/^\d{4}-\d{2}-\d{2}$/` with the counted repetitions written out. */
  function DatePattern(): seq<Atom>
  {
    [Digit, Digit, Digit, Digit, Char('-'), Digit, Digit, Char('-'), Digit, Digit]
  }

  /** An anchored match is a position-by-position match of equal length. */
  lemma {:induction false} FullMatchPositionwise(p: seq<Atom>, s: string)
    ensures FullMatch(p, s) <==> |p| == |s| && forall i :: 0 <= i < |p| ==> AtomMatches(p[i], s[i])
    decreases |p|
  {
    if p != [] && s != [] {
      FullMatchPositionwise(p[1..], s[1..]);
      assert forall i :: 1 <= i < |p| && i < |s| ==> p[1..][i - 1] == p[i] && s[1..][i - 1] == s[i];
    }
  }

  /** `YYYY-MM-DD`: ten characters, digits except for `-` at positions 4 and 7. */
  predicate IsDateShaped(s: string)
  {
    |s| == 10 && s[4] == '-' && s[7] == '-' &&
    forall i :: 0 <= i < 10 && i != 4 && i != 7 ==> IsDigit(s[i])
  }

  /** The date regex accepts exactly the date-shaped strings. */
  lemma DateRegexIffShape(s: string)
    ensures FullMatch(DatePattern(), s) <==> IsDateShaped(s)
  {
    var p := DatePattern();
    FullMatchPositionwise(p, s);
    assert |p| == 10 && p[4] == Char('-') && p[7] == Char('-');
    assert forall i :: 0 <= i < 10 && i != 4 && i != 7 ==> p[i] == Digit;
  }

  // ---------------------------------------------------------- field rules

  /** `yup.string().required()`: present and not empty. */
  predicate Present(v: Option<string>)
  {
    v.Some? && v.value != ""
  }

  /**
   * A date field of the two query schemas: required, matches the date
   * regex, and `new Date(value)` is a valid Date.
   */
  predicate DateFieldValid(v: Option<string>, parse: string -> Option<Instant>)
  {
    Present(v) && FullMatch(DatePattern(), v.value) && parse(v.value).Some?
  }

  /** The timezones `oneOf` admits. */
  const AllowedTimezones: seq<string> := [
    "Asia/Kolkata",
    "America/Los_Angeles",
    "America/New_York",
    "Europe/London",
    "Europe/Moscow",
    "Asia/Tokyo",
    "Australia/Sydney"
  ]

  const DefaultTimezone: string := "Asia/Kolkata"

  /**
   * The `timezone` field: optional, one of the seven listed names, and
   * "Asia/Kolkata" when absent. `None` is a validation failure.
   */
  function ResolveTimezone(tz: Option<string>): (r: Option<string>)
    ensures r.Some? <==> tz.None? || tz.value in AllowedTimezones
    ensures r.Some? ==> r.value in AllowedTimezones
    ensures tz.None? ==> r == Some(DefaultTimezone)
    ensures tz.Some? && r.Some? ==> r == tz
  {
    var value := if tz.None? then DefaultTimezone else tz.value;
    if value in AllowedTimezones then Some(value) else None
  }

  /** `fetchFreeSlotsSchema`: `slotTime` is a date field, `timezone` resolves. */
  predicate FreeSlotsQueryValid(slotTime: Option<string>, timezone: Option<string>, parse: string -> Option<Instant>): (r: bool)
    ensures r ==> slotTime.Some? && |slotTime.value| == 10 && parse(slotTime.value).Some?
    ensures r ==> timezone.None? || timezone.value in AllowedTimezones
  {
    DateFieldValid(slotTime, parse) && ResolveTimezone(timezone).Some?
  }

  /** The free-slots query rules written out position by position. */
  lemma FreeSlotsQueryValidIff(slotTime: Option<string>, timezone: Option<string>, parse: string -> Option<Instant>)
    ensures FreeSlotsQueryValid(slotTime, timezone, parse) <==>
      slotTime.Some? && IsDateShaped(slotTime.value) && parse(slotTime.value).Some? &&
      (timezone.None? || timezone.value in AllowedTimezones)
  {
    if slotTime.Some? {
      DateRegexIffShape(slotTime.value);
    }
  }

  // ------------------------------------------------------- date ordering

  /**
   * The `is-after-start` test: it passes when either date is missing;
   * otherwise `new Date(endDate) >= new Date(startDate)`, which is false
   * when either is an invalid Date.
   */
  predicate IsAfterStart(startDate: Option<string>, endDate: Option<string>, parse: string -> Option<Instant>): (r: bool)
    ensures !Present(startDate) || !Present(endDate) ==> r
    ensures Present(startDate) && startDate == endDate ==> (r <==> parse(startDate.value).Some?)
    ensures r && Present(startDate) && Present(endDate) ==>
      parse(startDate.value).Some? && parse(endDate.value).Some? &&
      parse(startDate.value).value <= parse(endDate.value).value
  {
    !Present(startDate) || !Present(endDate) ||
    (parse(endDate.value).Some? && parse(startDate.value).Some? &&
     parse(endDate.value).value >= parse(startDate.value).value)
  }

  /** `fetchBookedSlotsSchema`: both dates valid and the end not before the start. */
  predicate BookedSlotsQueryValid(startDate: Option<string>, endDate: Option<string>, parse: string -> Option<Instant>): (r: bool)
    ensures r ==> startDate.Some? && endDate.Some? && |startDate.value| == 10 && |endDate.value| == 10
    ensures r ==> (parse(startDate.value).Some? && parse(endDate.value).Some? &&
      parse(startDate.value).value <= parse(endDate.value).value)
  {
    DateFieldValid(startDate, parse) && DateFieldValid(endDate, parse) && IsAfterStart(startDate, endDate, parse)
  }

  /** `10^n`, the place value the digit lemmas below work with. */
  function Pow10(n: nat): (r: nat)
    ensures r > 0
  {
    if n == 0 then 1 else 10 * Pow10(n - 1)
  }

  predicate AllDigits(s: string)
  {
    forall i :: 0 <= i < |s| ==> IsDigit(s[i])
  }

  lemma MulMonotone(a: int, b: int, p: nat)
    requires a <= b
    ensures a * p <= b * p
  {
  }

  /** The number a string of decimal digits denotes. */
  function DigitsValue(s: string): (v: nat)
    requires AllDigits(s)
    ensures v < Pow10(|s|)
  {
    if s == [] then 0
    else
      var d, p := s[0] as int - '0' as int, Pow10(|s| - 1);
      MulMonotone(0, d, p);
      MulMonotone(d, 9, p);
      d * p + DigitsValue(s[1..])
  }

  /** The calendar day a date-shaped string names, as one ordered number `YYYYMMDD`. */
  function DateKey(s: string): int
    requires IsDateShaped(s)
  {
    DigitsValue(s[0..4]) * 10000 + DigitsValue(s[5..7]) * 100 + DigitsValue(s[8..10])
  }

  predicate IsLeapYear(y: int)
  {
    y % 4 == 0 && (y % 100 != 0 || y % 400 == 0)
  }

  /** The number of days of month `m` (1 to 12) of year `y` in the Gregorian calendar. */
  function DaysInMonth(y: int, m: int): (n: int)
    requires 1 <= m <= 12
    ensures 28 <= n <= 31
    ensures n == 29 <==> m == 2 && IsLeapYear(y)
  {
    if m == 2 then (if IsLeapYear(y) then 29 else 28)
    else if m == 4 || m == 6 || m == 9 || m == 11 then 30
    else 31
  }

  /**
   * A date-shaped string that names a day of the calendar: month 01 to 12
   * and a day that exists in that month. "2024-02-30" is date-shaped but
   * not a calendar day.
   */
  predicate IsCalendarDay(s: string)
  {
    IsDateShaped(s) &&
    1 <= DigitsValue(s[5..7]) <= 12 &&
    1 <= DigitsValue(s[8..10]) <= DaysInMonth(DigitsValue(s[0..4]), DigitsValue(s[5..7]))
  }

  /** A smaller leading digit gives a smaller number, whatever follows. */
  lemma LeadingDigitDecides(dx: int, dy: int, p: nat, vx: int, vy: int)
    requires dx < dy && 0 <= vx < p && 0 <= vy < p
    ensures dx * p + vx < dy * p + vy
  {
    MulMonotone(dx + 1, dy, p);
    assert (dx + 1) * p == dx * p + p;
  }

  /** Lexicographic order by character. */
  predicate LexLeq(a: string, b: string)
  {
    a == [] || (b != [] && (a[0] < b[0] || (a[0] == b[0] && LexLeq(a[1..], b[1..]))))
  }

  /**
   * What is assumed of `new Date` on calendar days: among those it reads, a
   * later day is a later instant. Nothing is assumed of date-shaped strings
   * whose day does not exist, which `new Date` may roll over into the next
   * month.
   */
  ghost predicate ParseFollowsCalendar(parse: string -> Option<Instant>)
  {
    forall a, b :: IsCalendarDay(a) && IsCalendarDay(b) && parse(a).Some? && parse(b).Some? ==>
      (parse(a).value <= parse(b).value <==> DateKey(a) <= DateKey(b))
  }

  /** For equal-length digit strings, lexicographic order is numeric order. */
  lemma {:induction false} DigitsLexIsNumeric(x: string, y: string)
    requires AllDigits(x) && AllDigits(y) && |x| == |y|
    ensures LexLeq(x, y) <==> DigitsValue(x) <= DigitsValue(y)
    ensures x == y <==> DigitsValue(x) == DigitsValue(y)
  {
    if |x| > 0 {
      var p := Pow10(|x| - 1);
      var dx, dy := x[0] as int - '0' as int, y[0] as int - '0' as int;
      DigitsLexIsNumeric(x[1..], y[1..]);
      assert DigitsValue(x) == dx * p + DigitsValue(x[1..]);
      assert DigitsValue(y) == dy * p + DigitsValue(y[1..]);
      if dx < dy {
        LeadingDigitDecides(dx, dy, p, DigitsValue(x[1..]), DigitsValue(y[1..]));
        assert x != y;
      } else if dy < dx {
        LeadingDigitDecides(dy, dx, p, DigitsValue(y[1..]), DigitsValue(x[1..]));
        assert x != y;
      } else {
        assert x == [x[0]] + x[1..] && y == [y[0]] + y[1..];
      }
    }
  }

  /** Lexicographic order of two strings with an equal-length head. */
  lemma {:induction false} LexLeqConcat(x1: string, y1: string, x2: string, y2: string)
    requires |x1| == |x2|
    ensures LexLeq(x1 + y1, x2 + y2) <==> (x1 != x2 && LexLeq(x1, x2)) || (x1 == x2 && LexLeq(y1, y2))
  {
    if |x1| > 0 {
      assert (x1 + y1)[1..] == x1[1..] + y1;
      assert (x2 + y2)[1..] == x2[1..] + y2;
      LexLeqConcat(x1[1..], y1, x2[1..], y2);
      assert x1 == [x1[0]] + x1[1..] && x2 == [x2[0]] + x2[1..];
      assert x1 == x2 <==> x1[0] == x2[0] && x1[1..] == x2[1..];
    } else {
      assert x1 + y1 == y1 && x2 + y2 == y2;
    }
  }

  /** Comparing two date-shaped strings goes year part, then month part, then day part. */
  lemma DateLexByParts(a: string, b: string)
    requires IsDateShaped(a) && IsDateShaped(b)
    ensures LexLeq(a, b) <==>
      (a[0..4] != b[0..4] && LexLeq(a[0..4], b[0..4])) ||
      (a[0..4] == b[0..4] &&
        ((a[5..7] != b[5..7] && LexLeq(a[5..7], b[5..7])) ||
         (a[5..7] == b[5..7] && LexLeq(a[8..10], b[8..10]))))
  {
    assert a == a[0..4] + (a[4..5] + (a[5..7] + (a[7..8] + a[8..10])));
    assert b == b[0..4] + (b[4..5] + (b[5..7] + (b[7..8] + b[8..10])));
    assert a[4..5] == b[4..5] && a[7..8] == b[7..8];
    LexLeqConcat(a[0..4], a[4..5] + (a[5..7] + (a[7..8] + a[8..10])), b[0..4], b[4..5] + (b[5..7] + (b[7..8] + b[8..10])));
    LexLeqConcat(a[4..5], a[5..7] + (a[7..8] + a[8..10]), b[4..5], b[5..7] + (b[7..8] + b[8..10]));
    LexLeqConcat(a[5..7], a[7..8] + a[8..10], b[5..7], b[7..8] + b[8..10]);
    LexLeqConcat(a[7..8], a[8..10], b[7..8], b[8..10]);
    assert forall c :: LexLeq([c], [c]);
  }

  /** `Y * 10000 + M * 100 + D` with two-digit month and day orders days year first. */
  lemma KeyByParts(ya: int, ma: int, da: int, yb: int, mb: int, db: int)
    requires 0 <= ma < 100 && 0 <= da < 100 && 0 <= mb < 100 && 0 <= db < 100
    ensures ya * 10000 + ma * 100 + da <= yb * 10000 + mb * 100 + db <==>
      ya < yb || (ya == yb && (ma < mb || (ma == mb && da <= db)))
  {
    if ya < yb {
      LeadingDigitDecides(ya, yb, 10000, ma * 100 + da, mb * 100 + db);
    } else if yb < ya {
      LeadingDigitDecides(yb, ya, 10000, mb * 100 + db, ma * 100 + da);
    } else if ma < mb {
      LeadingDigitDecides(ma, mb, 100, da, db);
    } else if mb < ma {
      LeadingDigitDecides(mb, ma, 100, db, da);
    }
  }

  /** On date-shaped strings, comparing as strings is comparing the days. */
  lemma DateLexIsCalendar(a: string, b: string)
    requires IsDateShaped(a) && IsDateShaped(b)
    ensures LexLeq(a, b) <==> DateKey(a) <= DateKey(b)
  {
    DateLexByParts(a, b);
    DigitsLexIsNumeric(a[0..4], b[0..4]);
    DigitsLexIsNumeric(a[5..7], b[5..7]);
    DigitsLexIsNumeric(a[8..10], b[8..10]);
    KeyByParts(DigitsValue(a[0..4]), DigitsValue(a[5..7]), DigitsValue(a[8..10]),
               DigitsValue(b[0..4]), DigitsValue(b[5..7]), DigitsValue(b[8..10]));
  }

  /**
   * The booked-slots query is accepted only for two present, date-shaped,
   * readable dates. When both name calendar days and `new Date` orders
   * calendar days as the calendar does, it is accepted exactly when both
   * are readable and the end date is not lexicographically before the start.
   */
  lemma BookedSlotsQueryValidIff(startDate: Option<string>, endDate: Option<string>, parse: string -> Option<Instant>)
    requires ParseFollowsCalendar(parse)
    ensures BookedSlotsQueryValid(startDate, endDate, parse) ==>
      startDate.Some? && endDate.Some? &&
      IsDateShaped(startDate.value) && IsDateShaped(endDate.value) &&
      parse(startDate.value).Some? && parse(endDate.value).Some?
    ensures startDate.Some? && endDate.Some? && IsCalendarDay(startDate.value) && IsCalendarDay(endDate.value) ==>
      (BookedSlotsQueryValid(startDate, endDate, parse) <==>
        parse(startDate.value).Some? && parse(endDate.value).Some? &&
        LexLeq(startDate.value, endDate.value))
  {
    if startDate.Some? && endDate.Some? {
      DateRegexIffShape(startDate.value);
      DateRegexIffShape(endDate.value);
      if IsCalendarDay(startDate.value) && IsCalendarDay(endDate.value) {
        DateLexIsCalendar(startDate.value, endDate.value);
      }
    }
  }

  /**
   * Outside calendar days the lexicographic reading fails: when `new Date`
   * reads a later-keyed date and an earlier-keyed one as the same instant,
   * the query is accepted in either order, also from the later to the
   * earlier, whose end is lexicographically before its start. `RolloverExampleDates` gives such a
   * pair: "2024-02-30", which `new Date` rolls over to March 1st, and
   * "2024-03-01".
   */
  lemma SameReadingOutOfOrder(a: string, b: string, parse: string -> Option<Instant>)
    requires IsDateShaped(a) && IsDateShaped(b) && DateKey(b) < DateKey(a)
    requires parse(a).Some? && parse(b) == parse(a)
    ensures BookedSlotsQueryValid(Some(a), Some(b), parse) && !LexLeq(a, b)
    ensures BookedSlotsQueryValid(Some(b), Some(a), parse)
  {
    DateRegexIffShape(a);
    DateRegexIffShape(b);
    DateLexIsCalendar(a, b);
  }

  /** "2024-02-30" is date-shaped, names no calendar day, and keys before the calendar day "2024-03-01". */
  lemma RolloverExampleDates()
    ensures IsDateShaped("2024-02-30") && !IsCalendarDay("2024-02-30")
    ensures IsCalendarDay("2024-03-01")
    ensures DateKey("2024-02-30") < DateKey("2024-03-01")
  {
    ShapedExamples();
    ExampleParts();
  }

  lemma ShapedExamples()
    ensures IsDateShaped("2024-03-01") && IsDateShaped("2024-02-30")
  {
  }

  lemma ExampleParts()
    ensures DigitsValue("2024-02-30"[0..4]) == 2024 && DigitsValue("2024-02-30"[5..7]) == 2 && DigitsValue("2024-02-30"[8..10]) == 30
    ensures DigitsValue("2024-03-01"[0..4]) == 2024 && DigitsValue("2024-03-01"[5..7]) == 3 && DigitsValue("2024-03-01"[8..10]) == 1
  {
    assert "2024-02-30"[0..4] == "2024-03-01"[0..4] == "2024";
    assert "2024-02-30"[5..7] == "02" && "2024-02-30"[8..10] == "30";
    assert "2024-03-01"[5..7] == "03" && "2024-03-01"[8..10] == "01";
    ExampleDigits();
  }

  lemma ExampleDigits()
    ensures DigitsValue("2024") == 2024 && DigitsValue("02") == 2 && DigitsValue("30") == 30
    ensures DigitsValue("03") == 3 && DigitsValue("01") == 1
  {
  }

  // ------------------------------------------------------------- booking

  /**
   * The `slotTime` of a booking: required, `new Date(value)` valid, and the
   * string contains `T`, so a bare date is refused.
   */
  predicate SlotTimeValid(v: Option<string>, parse: string -> Option<Instant>): (r: bool)
    ensures r ==> v.Some? && parse(v.value).Some? && !IsDateShaped(v.value)
  {
    Present(v) && parse(v.value).Some? && 'T' in v.value
  }

  predicate IsInteger(x: real)
  {
    x.Floor as real == x
  }

  /**
   * The `duration` field: required, positive, an integer, between 15 and
   * 480, and (after the `!value` guard, which refuses 0) a multiple of 15.
   */
  predicate DurationValid(d: Option<real>): (r: bool)
    ensures r ==> d.Some? && 15.0 <= d.value <= 480.0 && d.value == d.value.Floor as real
    ensures r ==> d.value.Floor % 15 == 0
  {
    d.Some? && d.value > 0.0 && IsInteger(d.value) &&
    15.0 <= d.value && d.value <= 480.0 &&
    d.value != 0.0 && d.value.Floor % 15 == 0
  }

  /** The admitted durations: 15, 30, ..., 480 minutes. */
  function AdmittedDurations(): (s: seq<real>)
    ensures |s| == 32 && s[0] == 15.0 && s[31] == 480.0
  {
    seq(32, k => (15 * (k + 1)) as real)
  }

  /** A duration passes exactly when it is one of the 32 multiples of 15 from 15 to 480. */
  lemma DurationValidIff(d: real)
    ensures DurationValid(Some(d)) <==> d in AdmittedDurations()
  {
    var s := AdmittedDurations();
    if DurationValid(Some(d)) {
      var n := d.Floor;
      var k := n / 15 - 1;
      assert n == 15 * (k + 1);
      assert s[k] == d;
    }
    if d in s {
      var k :| 0 <= k < 32 && s[k] == d;
      assert d == (15 * (k + 1)) as real;
      assert d.Floor == 15 * (k + 1);
    }
  }

  /** `createBookingSchema`: both fields valid. */
  predicate CreateBookingValid(slotTime: Option<string>, duration: Option<real>, parse: string -> Option<Instant>): (r: bool)
    ensures r ==> slotTime.Some? && !IsDateShaped(slotTime.value) && parse(slotTime.value).Some?
    ensures r ==> duration.Some? && 15.0 <= duration.value <= 480.0
  {
    SlotTimeValid(slotTime, parse) && DurationValid(duration)
  }

  /** An admitted booking request has a whole duration of 15 to 480 minutes and a time with `T` in it. */
  lemma AdmittedBookingIsBounded(slotTime: Option<string>, duration: Option<real>, parse: string -> Option<Instant>)
    requires CreateBookingValid(slotTime, duration, parse)
    ensures 15 <= duration.value.Floor <= 480 && duration.value.Floor % 15 == 0
    ensures duration.value == duration.value.Floor as real
    ensures exists i :: 0 <= i < |slotTime.value| && slotTime.value[i] == 'T'
  {
  }
}
