/**
 * The DatetimeLocal atom: a record of a calendar `date`, an offset-free
 * `local_time` and a free-form `timezone`.
 *
 * zod's `.date()` and `.time()` are regular expressions; they are written
 * out here as they stand and related to the `full-date` and
 * `partial-time` productions of section 5.6 of RFC 3339.
 */
module DatetimeLocalAtom {
  import opened Wrappers
  import opened Strings
  import opened ZodValues
  import opened Registry

  // ---------------------------------------------------------------------
  // zod's `.date()`:
  // (LEAP-02-29|\d{4}-((0[13578]|1[02])-(0[1-9]|[12]\d|3[01])|(0[469]|11)-(0[1-9]|[12]\d|30)|(02)-(0[1-9]|1\d|2[0-8])))
  // with LEAP = \d\d[2468][048]|\d\d[13579][26]|\d\d0[48]|[02468][048]00|[13579][26]00

  predicate LeapYearPattern(a: char, b: char, c: char, d: char) {
    || (IsDigit(a) && IsDigit(b) && c in "2468" && d in "048")
    || (IsDigit(a) && IsDigit(b) && c in "13579" && d in "26")
    || (IsDigit(a) && IsDigit(b) && c == '0' && d in "48")
    || (a in "02468" && b in "048" && c == '0' && d == '0')
    || (a in "13579" && b in "26" && c == '0' && d == '0')
  }

  predicate Month31Pattern(a: char, b: char) { (a == '0' && b in "13578") || (a == '1' && b in "02") }
  predicate Month30Pattern(a: char, b: char) { (a == '0' && b in "469") || (a == '1' && b == '1') }
  predicate Day31Pattern(a: char, b: char) { (a == '0' && b in "123456789") || (a in "12" && IsDigit(b)) || (a == '3' && b in "01") }
  predicate Day30Pattern(a: char, b: char) { (a == '0' && b in "123456789") || (a in "12" && IsDigit(b)) || (a == '3' && b == '0') }
  predicate Day28Pattern(a: char, b: char) { (a == '0' && b in "123456789") || (a == '1' && IsDigit(b)) || (a == '2' && b in "012345678") }

  /** `z.string().date()` on the text `s`. */
  predicate ZodDate(s: string) {
    && |s| == 10 && s[4] == '-' && s[7] == '-'
    && (|| (LeapYearPattern(s[0], s[1], s[2], s[3]) && s[5] == '0' && s[6] == '2' && s[8] == '2' && s[9] == '9')
        || (&& IsDigit(s[0]) && IsDigit(s[1]) && IsDigit(s[2]) && IsDigit(s[3])
            && (|| (Month31Pattern(s[5], s[6]) && Day31Pattern(s[8], s[9]))
                || (Month30Pattern(s[5], s[6]) && Day30Pattern(s[8], s[9]))
                || (s[5] == '0' && s[6] == '2' && Day28Pattern(s[8], s[9])))))
  }

  // ---------------------------------------------------------------------
  // RFC 3339, section 5.6 and appendix C

  function Two(a: char, b: char): nat
    requires IsDigit(a) && IsDigit(b)
  {
    DigitValue(a) * 10 + DigitValue(b)
  }

  /** The leap years of appendix C of RFC 3339 (the Gregorian rule). */
  predicate IsLeapYear(y: int) {
    y % 4 == 0 && (y % 100 != 0 || y % 400 == 0)
  }

  /** The greatest `date-mday` of a month, by the table of section 5.7 of RFC 3339. */
  function MaxDay(year: int, month: int): int {
    if month == 2 then (if IsLeapYear(year) then 29 else 28)
    else if month == 4 || month == 6 || month == 9 || month == 11 then 30
    else 31
  }

  /** `full-date = date-fullyear "-" date-month "-" date-mday`, with the day in range for its month and year. */
  predicate FullDate(s: string) {
    && |s| == 10 && s[4] == '-' && s[7] == '-'
    && IsDigit(s[0]) && IsDigit(s[1]) && IsDigit(s[2]) && IsDigit(s[3])
    && IsDigit(s[5]) && IsDigit(s[6]) && IsDigit(s[8]) && IsDigit(s[9])
    && 1 <= Two(s[5], s[6]) <= 12
    && 1 <= Two(s[8], s[9]) <= MaxDay(Two(s[0], s[1]) * 100 + Two(s[2], s[3]), Two(s[5], s[6]))
  }

  // ---------------------------------------------------------------------
  // The digit patterns against the numbers

  lemma Day31Range(a: char, b: char)
    ensures Day31Pattern(a, b) <==> IsDigit(a) && IsDigit(b) && 1 <= Two(a, b) <= 31
  {
  }

  lemma Day30Range(a: char, b: char)
    ensures Day30Pattern(a, b) <==> IsDigit(a) && IsDigit(b) && 1 <= Two(a, b) <= 30
  {
  }

  lemma Day28Range(a: char, b: char)
    ensures Day28Pattern(a, b) <==> IsDigit(a) && IsDigit(b) && 1 <= Two(a, b) <= 28
  {
  }

  lemma MonthRanges(a: char, b: char)
    ensures Month31Pattern(a, b) <==> IsDigit(a) && IsDigit(b) && Two(a, b) in {1, 3, 5, 7, 8, 10, 12}
    ensures Month30Pattern(a, b) <==> IsDigit(a) && IsDigit(b) && Two(a, b) in {4, 6, 9, 11}
    ensures (a == '0' && b == '2') <==> IsDigit(a) && IsDigit(b) && Two(a, b) == 2
  {
  }

  /** A two-digit number is a multiple of four exactly by the pairs the leap pattern lists. */
  lemma TwoDigitsDivisibleByFour(a: char, b: char)
    requires IsDigit(a) && IsDigit(b)
    ensures Two(a, b) % 4 == 0 <==> (a in "02468" && b in "048") || (a in "13579" && b in "26")
  {
    var n := Two(a, b);
    assert n == DigitValue(a) * 10 + DigitValue(b);
    if a in "02468" {
      assert (DigitValue(a) * 10) % 4 == 0;
    } else {
      assert (DigitValue(a) * 10) % 4 == 2;
    }
  }

  /** A year of four digits `hi lo` is a leap year by its two halves. */
  lemma LeapYearHalves(hi: int, lo: int)
    requires 0 <= hi < 100 && 0 <= lo < 100
    ensures IsLeapYear(hi * 100 + lo) <==> (lo % 4 == 0 && lo != 0) || (lo == 0 && hi % 4 == 0)
  {
    YearMod4(hi, lo);
    YearMod100(hi, lo);
    YearMod400(hi, lo);
  }

  lemma YearMod4(hi: int, lo: int)
    ensures (hi * 100 + lo) % 4 == lo % 4
  {
    assert hi * 100 + lo == 4 * (25 * hi) + lo;
  }

  lemma YearMod100(hi: int, lo: int)
    requires 0 <= lo < 100
    ensures (hi * 100 + lo) % 100 == lo
  {
  }

  lemma YearMod400(hi: int, lo: int)
    requires 0 <= hi < 100 && 0 <= lo < 100
    ensures (hi * 100 + lo) % 400 == (hi % 4) * 100 + lo
  {
    assert hi == 4 * (hi / 4) + hi % 4;
    assert hi * 100 + lo == 400 * (hi / 4) + ((hi % 4) * 100 + lo);
  }

  /** The leap pattern on the four digits of a year is the Gregorian rule. */
  lemma LeapYearDigits(a: char, b: char, c: char, d: char)
    requires IsDigit(a) && IsDigit(b) && IsDigit(c) && IsDigit(d)
    ensures LeapYearPattern(a, b, c, d) <==> IsLeapYear(Two(a, b) * 100 + Two(c, d))
  {
    LeapYearHalves(Two(a, b), Two(c, d));
    TwoDigitsDivisibleByFour(a, b);
    TwoDigitsDivisibleByFour(c, d);
    assert Two(c, d) == 0 <==> c == '0' && d == '0';
  }

  /** zod's `.date()` accepts exactly the `full-date` strings of RFC 3339. */
  lemma ZodDateIsFullDate(s: string)
    ensures ZodDate(s) <==> FullDate(s)
  {
    if |s| == 10 {
      Day31Range(s[8], s[9]);
      Day30Range(s[8], s[9]);
      Day28Range(s[8], s[9]);
      MonthRanges(s[5], s[6]);
      if IsDigit(s[0]) && IsDigit(s[1]) && IsDigit(s[2]) && IsDigit(s[3]) {
        LeapYearDigits(s[0], s[1], s[2], s[3]);
      }
    }
  }

  // ---------------------------------------------------------------------
  // zod's `.time()`: ([01]\d|2[0-3]):[0-5]\d:[0-5]\d(\.\d+)?

  predicate HourPattern(a: char, b: char) { (a in "01" && IsDigit(b)) || (a == '2' && b in "0123") }
  predicate SixtyPattern(a: char, b: char) { a in "012345" && IsDigit(b) }

  /** `\.\d+`, or nothing. */
  predicate FractionOrNothing(f: string) {
    |f| == 0 || (|f| >= 2 && f[0] == '.' && AllDigits(f[1..]))
  }

  /** `z.string().time()` on the text `s`. */
  predicate ZodTime(s: string) {
    && |s| >= 8 && s[2] == ':' && s[5] == ':'
    && HourPattern(s[0], s[1]) && SixtyPattern(s[3], s[4]) && SixtyPattern(s[6], s[7])
    && FractionOrNothing(s[8..])
  }

  /**
   * `partial-time = time-hour ":" time-minute ":" time-second [time-secfrac]`
   * of section 5.6 of RFC 3339: hour 00-23, minute 00-59, second 00-60
   * (60 for a leap second), fraction `"." 1*DIGIT`.
   */
  predicate PartialTime(s: string) {
    && |s| >= 8 && s[2] == ':' && s[5] == ':'
    && IsDigit(s[0]) && IsDigit(s[1]) && IsDigit(s[3]) && IsDigit(s[4]) && IsDigit(s[6]) && IsDigit(s[7])
    && Two(s[0], s[1]) <= 23 && Two(s[3], s[4]) <= 59 && Two(s[6], s[7]) <= 60
    && FractionOrNothing(s[8..])
  }

  lemma HourRange(a: char, b: char)
    ensures HourPattern(a, b) <==> IsDigit(a) && IsDigit(b) && Two(a, b) <= 23
  {
  }

  lemma SixtyRange(a: char, b: char)
    ensures SixtyPattern(a, b) <==> IsDigit(a) && IsDigit(b) && Two(a, b) <= 59
  {
  }

  /** zod's `.time()` accepts exactly the `partial-time` strings without a leap second. */
  lemma ZodTimeIsPartialTime(s: string)
    ensures ZodTime(s) <==> PartialTime(s) && Two(s[6], s[7]) <= 59
  {
    if |s| >= 8 {
      HourRange(s[0], s[1]);
      SixtyRange(s[3], s[4]);
      SixtyRange(s[6], s[7]);
    }
  }

  /** The one kind of `partial-time` zod refuses: a leap second. */
  lemma LeapSecondRefused(s: string)
    requires s == "23:59:60"
    ensures PartialTime(s) && !ZodTime(s)
  {
    assert s[8..] == "";
  }

  // ---------------------------------------------------------------------
  // The record

  /** `z.string().date()`. */
  function DateString(v: Value): (r: Parsed)
    ensures r.Ok? <==> v.VString? && FullDate(v.s)
    ensures r.Ok? ==> r.value == v
  {
    if v.VString? then ZodDateIsFullDate(v.s); (if ZodDate(v.s) then Ok(v) else Fail(InvalidString("date")))
    else Fail(InvalidType)
  }

  /** `z.string().time()`. */
  function TimeString(v: Value): (r: Parsed)
    ensures r.Ok? <==> v.VString? && PartialTime(v.s) && Two(v.s[6], v.s[7]) <= 59
    ensures r.Ok? ==> r.value == v
  {
    if v.VString? then ZodTimeIsPartialTime(v.s); (if ZodTime(v.s) then Ok(v) else Fail(InvalidString("time")))
    else Fail(InvalidType)
  }

  function DatetimeShape(f: map<string, Value>): seq<(string, Parsed)> {
    [("date", DateString(Field(f, "date"))),
     ("local_time", TimeString(Field(f, "local_time"))),
     ("timezone", Str(Field(f, "timezone")))]
  }

  /** `datetimeLocal` (and `DATETIME_LOCAL` of the older snapshot, the same schema). */
  function DatetimeLocal(v: Value): Parsed {
    if v.VObject? then ObjectOf(v.fields, DatetimeShape(v.fields)) else Fail(InvalidType)
  }

  /**
   * A record is accepted exactly when all three fields are present, `date`
   * is a `full-date`, `local_time` a `partial-time` without leap second
   * and `timezone` any string; the result holds those three and nothing else.
   */
  lemma DatetimeLocalSpec(f: map<string, Value>)
    ensures DatetimeLocal(VObject(f)).Ok? <==>
      && Field(f, "date").VString? && FullDate(Field(f, "date").s)
      && Field(f, "local_time").VString? && PartialTime(Field(f, "local_time").s)
      && Two(Field(f, "local_time").s[6], Field(f, "local_time").s[7]) <= 59
      && Field(f, "timezone").VString?
    ensures DatetimeLocal(VObject(f)).Ok? ==>
      DatetimeLocal(VObject(f)).value.fields ==
        map["date" := Field(f, "date"), "local_time" := Field(f, "local_time"), "timezone" := Field(f, "timezone")]
  {
    var shape := DatetimeShape(f);
    assert DistinctShape(shape);
    ObjectOfSpec(f, shape);
    var r := DatetimeLocal(VObject(f));
    if r.Ok? {
      var want := map["date" := Field(f, "date"), "local_time" := Field(f, "local_time"), "timezone" := Field(f, "timezone")];
      forall k | k in r.value.fields ensures k in want {
        var i :| 0 <= i < |shape| && shape[i].0 == k;
      }
      assert shape[0].0 == "date" && shape[1].0 == "local_time" && shape[2].0 == "timezone";
      assert r.value.fields == want;
    }
  }

  /** Every field is required: a record missing one is refused. */
  lemma FieldsRequired(f: map<string, Value>)
    requires "date" !in f || "local_time" !in f || "timezone" !in f
    ensures DatetimeLocal(VObject(f)).Err?
  {
    DatetimeLocalSpec(f);
  }

  /** The timezone is not checked: any string will do. */
  lemma AnyTimezone(f: map<string, Value>, tz: string)
    ensures DatetimeLocal(VObject(f["timezone" := VString(tz)])).Ok? <==>
      DateString(Field(f, "date")).Ok? && TimeString(Field(f, "local_time")).Ok?
  {
    var g := f["timezone" := VString(tz)];
    assert Field(g, "date") == Field(f, "date") && Field(g, "local_time") == Field(f, "local_time");
    DatetimeLocalSpec(g);
  }

  lemma FixtureDate(s: string)
    requires s == "2022-01-01"
    ensures FullDate(s)
  {
    assert Two(s[5], s[6]) == 1 && Two(s[8], s[9]) == 1;
  }

  lemma FixtureTime(s: string)
    requires s == "12:00:00"
    ensures PartialTime(s) && Two(s[6], s[7]) == 0
  {
    assert s[8..] == "";
  }

  /** The fixtures: the valid record, and those with a bad date, a bad time or no timezone. */
  lemma DatetimeFixtures(f: map<string, Value>)
    requires f == map["date" := VString("2022-01-01"), "local_time" := VString("12:00:00"), "timezone" := VString("UTC")]
    ensures DatetimeLocal(VObject(f)) == Ok(VObject(f))
    ensures DatetimeLocal(VObject(f["date" := VString("invalid-date")])).Err?
    ensures DatetimeLocal(VObject(f["local_time" := VString("invalid-time")])).Err?
    ensures DatetimeLocal(VObject(f - {"timezone"})).Err?
  {
    FixtureDate("2022-01-01");
    FixtureTime("12:00:00");
    DatetimeLocalSpec(f);
    var g := f["date" := VString("invalid-date")];
    DatetimeLocalSpec(g);
    assert !IsDigit(g["date"].s[0]);
    var h := f["local_time" := VString("invalid-time")];
    DatetimeLocalSpec(h);
    assert !IsDigit(h["local_time"].s[0]);
    FieldsRequired(f - {"timezone"});
  }

  /** The registry entry: both directions name `datetimeLocal`, which is an extension. */
  lemma DatetimeLocalRegistered()
    ensures Definition("DatetimeLocal", "datetimeLocal", "datetimeLocal") in AtomDefinitions()
    ensures forall dir :: ZodName(AtomDefinitions()[0], dir) == "datetimeLocal" && ZodName(AtomDefinitions()[0], dir) in AtomExtensions()
  {
  }
}
