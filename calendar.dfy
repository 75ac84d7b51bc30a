/** ECMAScript time values: integer milliseconds since 1970-01-01T00:00:00Z in
    the proleptic Gregorian calendar, their ISO-8601 rendering
    (`Date.prototype.toISOString`) and the reading of that same format by
    `new Date(string)`. Only four-digit years (0000-9999) are modelled. */
module Calendar {
  import opened Wrappers
  import opened JsString

  /** A `Date` object: a time value, or the invalid date `new Date(bad)`
      produces (whose `toISOString()` throws a RangeError). */
  datatype Stamp = Valid(ms: int) | Invalid

  datatype DateTime = DateTime(year: nat, month: nat, day: nat,
                               hour: nat, minute: nat, second: nat, milli: nat)

  predicate Leap(y: nat) { (y % 4 == 0 && y % 100 != 0) || y % 400 == 0 }

  function YearLength(y: nat): nat { if Leap(y) then 366 else 365 }

  function MonthLength(y: nat, m: nat): nat
    requires 1 <= m <= 12
  {
    if m == 2 then (if Leap(y) then 29 else 28)
    else if m == 4 || m == 6 || m == 9 || m == 11 then 30
    else 31
  }

  /** Days from 0000-01-01 to the first day of year `y`. */
  function DaysBeforeYear(y: nat): nat
  {
    if y == 0 then 0 else DaysBeforeYear(y - 1) + YearLength(y - 1)
  }

  lemma DaysBeforeNextYear(y: nat)
    ensures DaysBeforeYear(y + 1) == DaysBeforeYear(y) + YearLength(y)
  {
  }

  /** The closed form of `DaysBeforeYear`: 365 days a year plus one per leap year. */
  lemma {:induction false} DaysBeforeYearClosed(y: nat)
    ensures DaysBeforeYear(y) == 365 * y + (y + 3) / 4 - (y + 99) / 100 + (y + 399) / 400
  {
    if y > 0 {
      var x := y - 1;
      DaysBeforeYearClosed(x);
      Step4(x);
      Step100(x);
      Step400(x);
      LeapCount(x);
    }
  }

  /** The length of a year by the three rules of the Gregorian calendar. */
  lemma LeapCount(y: nat)
    ensures YearLength(y) == 365 + (if y % 4 == 0 then 1 else 0) - (if y % 100 == 0 then 1 else 0)
                             + (if y % 400 == 0 then 1 else 0)
  {
    if y % 100 == 0 {
      CenturyLeap(y, y / 100);
    }
    if y % 400 == 0 {
      QuadCentury(y, y / 400);
    }
  }

  /** A multiple of 100 is a multiple of 4. */
  lemma CenturyLeap(y: nat, q: nat)
    requires y == 100 * q
    ensures y % 4 == 0
  {
    assert y == 4 * (25 * q);
  }

  /** A multiple of 400 is a multiple of 100. */
  lemma QuadCentury(y: nat, q: nat)
    requires y == 400 * q
    ensures y % 100 == 0
  {
    assert y == 100 * (4 * q);
  }

  lemma Step4(y: nat)
    ensures (y + 4) / 4 - (y + 3) / 4 == (if y % 4 == 0 then 1 else 0)
  {
  }

  lemma Step100(y: nat)
    ensures (y + 100) / 100 - (y + 99) / 100 == (if y % 100 == 0 then 1 else 0)
  {
  }

  lemma Step400(y: nat)
    ensures (y + 400) / 400 - (y + 399) / 400 == (if y % 400 == 0 then 1 else 0)
  {
  }

  /** Days from the first day of year `y` to the first day of month `m`
      (`m == 13` gives the length of the year). */
  function DaysBeforeMonth(y: nat, m: nat): nat
    requires 1 <= m <= 13
  {
    if m == 1 then 0 else DaysBeforeMonth(y, m - 1) + MonthLength(y, m - 1)
  }

  lemma WholeYear(y: nat)
    ensures DaysBeforeMonth(y, 13) == YearLength(y)
  {
    var f := MonthLength(y, 2);
    assert DaysBeforeMonth(y, 2) == 31;
    assert DaysBeforeMonth(y, 3) == 31 + f;
    assert DaysBeforeMonth(y, 4) == 62 + f;
    assert DaysBeforeMonth(y, 5) == 92 + f;
    assert DaysBeforeMonth(y, 6) == 123 + f;
    assert DaysBeforeMonth(y, 7) == 153 + f;
    assert DaysBeforeMonth(y, 8) == 184 + f;
    assert DaysBeforeMonth(y, 9) == 215 + f;
    assert DaysBeforeMonth(y, 10) == 245 + f;
    assert DaysBeforeMonth(y, 11) == 276 + f;
    assert DaysBeforeMonth(y, 12) == 306 + f;
  }

  const EpochDays: nat := 719528
  const MsPerDay: nat := 86400000

  lemma EpochDaysValue()
    ensures DaysBeforeYear(1970) == EpochDays
  {
    DaysBeforeYearClosed(1970);
  }

  /** The time value of 0000-01-01T00:00:00.000Z. */
  const MinMs: int := -62167219200000
  /** The time value of 9999-12-31T23:59:59.999Z. */
  const MaxMs: int := 253402300799999

  /** A date the model can render: the invalid date, or a time value in the
      four-digit-year range. */
  predicate Renderable(st: Stamp) { st.Valid? ==> MinMs <= st.ms <= MaxMs }

  predicate ValidDateTime(d: DateTime) {
    d.year <= 9999 && 1 <= d.month <= 12 && 1 <= d.day <= MonthLength(d.year, d.month)
    && d.hour < 24 && d.minute < 60 && d.second < 60 && d.milli < 1000
  }

  /** Days since 0000-01-01 of a calendar date. */
  function DayNumber(d: DateTime): nat
    requires ValidDateTime(d)
  {
    DaysBeforeYear(d.year) + DaysBeforeMonth(d.year, d.month) + d.day - 1
  }

  /** `Date.UTC(...)`: the time value of a valid calendar date and time. */
  function ToMs(d: DateTime): (ms: int)
    requires ValidDateTime(d)
    ensures MinMs <= ms <= MaxMs
  {
    TimeFields(d);
    DayNumberBound(d);
    MsRange(DayNumber(d), TimeOfDay(d));
    (DayNumber(d) - EpochDays) * MsPerDay + TimeOfDay(d)
  }

  /** Time values of days before 10000-01-01 are in the modelled range. */
  lemma MsRange(n: nat, tod: nat)
    requires n < DaysBeforeYear(10000) && tod < MsPerDay
    ensures MinMs <= (n - EpochDays) * MsPerDay + tod <= MaxMs
  {
    DaysBeforeYearClosed(10000);
    assert n <= 3652424;
  }

  lemma MonthBound(y: nat, m: nat)
    requires 1 <= m <= 12
    ensures DaysBeforeMonth(y, m) + MonthLength(y, m) <= DaysBeforeMonth(y, 13)
    decreases 13 - m
  {
    if m < 12 { MonthBound(y, m + 1); }
  }

  lemma YearBound(y: nat)
    requires y <= 9999
    ensures DaysBeforeYear(y) + YearLength(y) <= DaysBeforeYear(10000)
  {
    Monotone(y + 1, 10000);
  }

  /** Year and day-of-year of day number `n`, counting years from `y`. */
  function YearOf(n: nat, y: nat): (r: (nat, nat))
    decreases n
    ensures r.0 >= y && r.1 < YearLength(r.0)
    ensures DaysBeforeYear(r.0) + r.1 == DaysBeforeYear(y) + n
  {
    DaysBeforeNextYear(y);
    if n < YearLength(y) then (y, n) else YearOf(n - YearLength(y), y + 1)
  }

  /** Month and day-of-month of day `doy` of year `y`, counting months from `m`. */
  function MonthOf(doy: nat, y: nat, m: nat): (r: (nat, nat))
    requires 1 <= m <= 12
    requires DaysBeforeMonth(y, m) + doy < DaysBeforeMonth(y, 13)
    decreases 13 - m
    ensures m <= r.0 <= 12 && 1 <= r.1 <= MonthLength(y, r.0)
    ensures DaysBeforeMonth(y, r.0) + r.1 - 1 == DaysBeforeMonth(y, m) + doy
  {
    if doy < MonthLength(y, m) then (m, doy + 1)
    else MonthOf(doy - MonthLength(y, m), y, m + 1)
  }

  /** `YearOf` finds the year and day-of-year a day number was made from. */
  lemma {:induction false} YearOfDate(y0: nat, y: nat, r: nat, n: nat)
    requires y0 <= y && r < YearLength(y) && DaysBeforeYear(y0) + n == DaysBeforeYear(y) + r
    ensures YearOf(n, y0) == (y, r)
    decreases y - y0
  {
    if y0 < y {
      Monotone(y0 + 1, y);
      YearOfDate(y0 + 1, y, r, n - YearLength(y0));
    }
  }

  /** `MonthOf` finds the month and day a day-of-year was made from. */
  lemma {:induction false} MonthOfDate(y: nat, m0: nat, m: nat, day: nat, k: nat)
    requires 1 <= m0 <= m <= 12 && 1 <= day <= MonthLength(y, m)
    requires DaysBeforeMonth(y, m0) + k == DaysBeforeMonth(y, m) + day - 1
    ensures DaysBeforeMonth(y, m0) + k < DaysBeforeMonth(y, 13)
    ensures MonthOf(k, y, m0) == (m, day)
    decreases m - m0
  {
    MonthBound(y, m);
    if m0 < m {
      MonthMonotone(y, m0 + 1, m);
      MonthOfDate(y, m0 + 1, m, day, k - MonthLength(y, m0));
    }
  }

  lemma {:induction false} MonthMonotone(y: nat, a: nat, b: nat)
    requires 1 <= a <= b <= 13
    ensures DaysBeforeMonth(y, a) <= DaysBeforeMonth(y, b)
    decreases b - a
  {
    if a < b { MonthMonotone(y, a, b - 1); }
  }

  /** The calendar fields of a time value (what `getUTCFullYear()` and its
      siblings return). */
  function FromMs(ms: int): (d: DateTime)
    requires MinMs <= ms <= MaxMs
    ensures ValidDateTime(d)
  {
    DateOf(DayIndex(ms), ms % MsPerDay)
  }

  /** Days since 0000-01-01 of the day holding time value `ms`. */
  function DayIndex(ms: int): (n: nat)
    requires MinMs <= ms <= MaxMs
    ensures n == ms / MsPerDay + EpochDays && n < DaysBeforeYear(10000)
  {
    DaysBeforeYearClosed(10000);
    ms / MsPerDay + EpochDays
  }

  /** The calendar date of day number `n` at `rem` milliseconds into the day. */
  function DateOf(n: nat, rem: nat): (d: DateTime)
    requires n < DaysBeforeYear(10000) && rem < MsPerDay
    ensures ValidDateTime(d)
  {
    var (y, doy) := YearOf(n, 0);
    WholeYear(y);
    YearLimit(y, doy, n);
    var (m, day) := MonthOf(doy, y, 1);
    DateTime(y, m, day, rem / 3600000, (rem / 60000) % 60, (rem / 1000) % 60, rem % 1000)
  }

  lemma YearLimit(y: nat, doy: nat, n: nat)
    requires doy < YearLength(y) && DaysBeforeYear(y) + doy == n && n < DaysBeforeYear(10000)
    ensures y <= 9999
  {
    if y >= 10000 { Monotone(10000, y); }
  }

  lemma {:induction false} Monotone(a: nat, b: nat)
    requires a <= b
    ensures DaysBeforeYear(a) <= DaysBeforeYear(b)
    decreases b - a
  {
    if a < b { DaysBeforeNextYear(a); Monotone(a + 1, b); }
  }

  /** Splitting a time value into whole days and the time of day. */
  lemma DaySplit(n: int, tod: int)
    requires 0 <= tod < MsPerDay
    ensures (n * MsPerDay + tod) / MsPerDay == n && (n * MsPerDay + tod) % MsPerDay == tod
  {
  }

  /** The time of day of a date is under a day, and its fields read back. */
  lemma TimeFields(d: DateTime)
    requires ValidDateTime(d)
    ensures TimeOfDay(d) < MsPerDay && TimeOfDay(d) / 3600000 == d.hour
    ensures (TimeOfDay(d) / 60000) % 60 == d.minute && (TimeOfDay(d) / 1000) % 60 == d.second
    ensures TimeOfDay(d) % 1000 == d.milli
  {
    var rem := TimeOfDay(d);
    assert rem / 1000 == d.hour * 3600 + d.minute * 60 + d.second;
    assert rem / 60000 == d.hour * 60 + d.minute;
  }

  /** The day number of a valid date is below that of 10000-01-01. */
  lemma DayNumberBound(d: DateTime)
    requires ValidDateTime(d)
    ensures DayNumber(d) < DaysBeforeYear(10000)
  {
    WholeYear(d.year);
    MonthBound(d.year, d.month);
    YearBound(d.year);
  }

  /** `YearOf` and `MonthOf` take the day number of a date back to its calendar fields. */
  lemma CalendarOfDate(d: DateTime, doy: nat)
    requires ValidDateTime(d) && doy == DaysBeforeMonth(d.year, d.month) + d.day - 1
    ensures YearOf(DayNumber(d), 0) == (d.year, doy)
    ensures doy < DaysBeforeMonth(d.year, 13) && MonthOf(doy, d.year, 1) == (d.month, d.day)
  {
    assert DaysBeforeMonth(d.year, 1) == 0;
    MonthOfDate(d.year, 1, d.month, d.day, doy);
    WholeYear(d.year);
    assert DaysBeforeYear(0) == 0;
    YearOfDate(0, d.year, doy, DayNumber(d));
  }

  /** Milliseconds into the day of a date and time. */
  function TimeOfDay(d: DateTime): nat {
    d.hour * 3600000 + d.minute * 60000 + d.second * 1000 + d.milli
  }

  /** `DateOf` inverts the day number and time of day of a valid date. */
  lemma DateOfDate(d: DateTime)
    requires ValidDateTime(d)
    ensures DayNumber(d) < DaysBeforeYear(10000) && TimeOfDay(d) < MsPerDay
    ensures DateOf(DayNumber(d), TimeOfDay(d)) == d
  {
    TimeFields(d);
    DayNumberBound(d);
    CalendarOfDate(d, DaysBeforeMonth(d.year, d.month) + d.day - 1);
  }

  /** `DateOf` yields a date with the given day number and time of day. */
  lemma DateOfFields(n: nat, rem: nat)
    requires n < DaysBeforeYear(10000) && rem < MsPerDay
    ensures DayNumber(DateOf(n, rem)) == n && TimeOfDay(DateOf(n, rem)) == rem
  {
    var (y, doy) := YearOf(n, 0);
    assert DaysBeforeYear(0) == 0;
    WholeYear(y);
    YearLimit(y, doy, n);
    var (m, day) := MonthOf(doy, y, 1);
    assert DaysBeforeMonth(y, 1) == 0;
    TimeJoin(rem);
  }

  /** The time of day is recovered from its fields. */
  lemma TimeJoin(rem: int)
    requires 0 <= rem < MsPerDay
    ensures (rem / 3600000) * 3600000 + ((rem / 60000) % 60) * 60000 + ((rem / 1000) % 60) * 1000 + rem % 1000 == rem
  {
    var s := rem / 1000;
    assert rem == s * 1000 + rem % 1000;
    var mi := s / 60;
    assert s == mi * 60 + s % 60;
    assert rem / 60000 == mi;
    assert mi == (mi / 60) * 60 + mi % 60;
    assert rem / 3600000 == mi / 60;
  }

  lemma FromToMs(d: DateTime)
    requires ValidDateTime(d)
    ensures FromMs(ToMs(d)) == d
  {
    var ms := ToMs(d);
    DateOfDate(d);
    assert ms == (DayNumber(d) - EpochDays) * MsPerDay + TimeOfDay(d);
    DaySplit(DayNumber(d) - EpochDays, TimeOfDay(d));
    assert DayIndex(ms) == DayNumber(d) && ms % MsPerDay == TimeOfDay(d);
    assert FromMs(ms) == DateOf(DayNumber(d), TimeOfDay(d));
  }

  lemma ToFromMs(ms: int)
    requires MinMs <= ms <= MaxMs
    ensures ToMs(FromMs(ms)) == ms
  {
    DateOfFields(DayIndex(ms), ms % MsPerDay);
    var d := FromMs(ms);
    assert ToMs(d) == (DayIndex(ms) - EpochDays) * MsPerDay + ms % MsPerDay;
  }

  // ---- rendering ----

  /** `n` in `w` decimal digits, zero-padded on the left: how `toISOString()`
      writes each field, every one of which fits its width. */
  function Pad(n: nat, w: nat): (r: string)
    ensures |r| == w
  {
    if w == 0 then "" else Pad(n / 10, w - 1) + [DigitChar(n % 10)]
  }

  /** A field that fits its width reads back as its value. */
  lemma {:induction false} PadDigits(n: nat, w: nat)
    requires n < Power10(w)
    ensures AllDigits(Pad(n, w)) && DigitsValue(Pad(n, w)) == n
    decreases w
  {
    if w > 0 {
      PadDigits(n / 10, w - 1);
      var r := Pad(n, w);
      assert r[..w - 1] == Pad(n / 10, w - 1);
    }
  }

  /** Every character of a field is a digit, whatever its value. */
  lemma {:induction false} PadOnlyDigits(n: nat, w: nat)
    ensures AllDigits(Pad(n, w))
    decreases w
  {
    if w > 0 {
      PadOnlyDigits(n / 10, w - 1);
    }
  }

  function Power10(k: nat): nat { if k == 0 then 1 else 10 * Power10(k - 1) }

  /** `new Date(ms).toISOString()`: `YYYY-MM-DDTHH:mm:ss.sssZ`. */
  function IsoMillis(ms: int): string
    requires MinMs <= ms <= MaxMs
  {
    var d := FromMs(ms);
    IsoDateTime(d) + ("." + Pad(d.milli, 3) + "Z")
  }

  /** The same time with the `.sss` part removed (what `formatTimestamp`
      makes of `toISOString()`): `YYYY-MM-DDTHH:mm:ssZ`. */
  function IsoSeconds(ms: int): string
    requires MinMs <= ms <= MaxMs
  {
    var d := FromMs(ms);
    IsoDateTime(d) + "Z"
  }

  /** `YYYY-MM-DDTHH:mm:ss` */
  function IsoDateTime(d: DateTime): string {
    IsoDate(d) + ("T" + IsoTime(d))
  }

  function IsoDate(d: DateTime): string {
    Pad(d.year, 4) + "-" + Pad(d.month, 2) + "-" + Pad(d.day, 2)
  }

  function IsoTime(d: DateTime): string {
    Pad(d.hour, 2) + ":" + Pad(d.minute, 2) + ":" + Pad(d.second, 2)
  }

  // ---- reading ----

  predicate DigitsAt(s: string, i: nat, w: nat) {
    i + w <= |s| && AllDigits(s[i..i + w])
  }

  function FieldAt(s: string, i: nat, w: nat): nat
    requires DigitsAt(s, i, w)
  {
    DigitsValue(s[i..i + w])
  }

  /** `new Date(s)` restricted to the date-time form `YYYY-MM-DDTHH:mm:ss[.sss]Z`
      with a four-digit year: a string of that shape whose fields are in range
      gives their time value; every other string is read as an invalid date,
      although JavaScript's date parser also accepts other forms. */
  function ParseIso(s: string): (r: Stamp)
    ensures r.Valid? ==> MinMs <= r.ms <= MaxMs
  {
    if !(|s| == 20 || |s| == 24) then Invalid
    else if !(DigitsAt(s, 0, 4) && s[4] == '-' && DigitsAt(s, 5, 2) && s[7] == '-'
              && DigitsAt(s, 8, 2) && s[10] == 'T' && DigitsAt(s, 11, 2) && s[13] == ':'
              && DigitsAt(s, 14, 2) && s[16] == ':' && DigitsAt(s, 17, 2)) then Invalid
    else if |s| == 20 && s[19] != 'Z' then Invalid
    else if |s| == 24 && !(s[19] == '.' && DigitsAt(s, 20, 3) && s[23] == 'Z') then Invalid
    else
      var d := DateTime(FieldAt(s, 0, 4), FieldAt(s, 5, 2), FieldAt(s, 8, 2), FieldAt(s, 11, 2),
                        FieldAt(s, 14, 2), FieldAt(s, 17, 2), if |s| == 24 then FieldAt(s, 20, 3) else 0);
      if d.year <= 9999 && 1 <= d.month <= 12 && 1 <= d.day <= MonthLength(d.year, d.month)
         && d.hour < 24 && d.minute < 60 && d.second < 60
      then
        DigitsBound(s[0..4]);
        DigitsBound(if |s| == 24 then s[20..23] else "");
        Valid(ToMs(d))
      else Invalid
  }

  lemma {:induction false} DigitsBound(s: string)
    requires AllDigits(s)
    ensures DigitsValue(s) < Power10(|s|)
    decreases |s|
  {
    if s != [] { DigitsBound(s[..|s| - 1]); }
  }

  /** A date read from the seconds-precision form is a whole second. */
  lemma ParseIsoWholeSecond(s: string)
    requires |s| == 20 && ParseIso(s).Valid?
    ensures ParseIso(s).ms % 1000 == 0
  {
    var d := DateTime(FieldAt(s, 0, 4), FieldAt(s, 5, 2), FieldAt(s, 8, 2), FieldAt(s, 11, 2),
                      FieldAt(s, 14, 2), FieldAt(s, 17, 2), 0);
    assert ParseIso(s) == Valid(ToMs(d));
    WholeSecondMs(d);
  }

  /** A date and time with no milliseconds has a time value that is a whole second. */
  lemma WholeSecondMs(d: DateTime)
    requires ValidDateTime(d) && d.milli == 0
    ensures ToMs(d) % 1000 == 0
  {
    var n := DayNumber(d) - EpochDays;
    var t := d.hour * 3600 + d.minute * 60 + d.second;
    assert TimeOfDay(d) == 1000 * t;
    assert ToMs(d) == n * MsPerDay + 1000 * t;
    ThousandMultiple(n, t);
  }

  lemma ThousandMultiple(n: int, t: int)
    ensures (n * MsPerDay + 1000 * t) % 1000 == 0
  {
    assert n * MsPerDay + 1000 * t == 1000 * (n * 86400 + t);
  }

  /** The seconds-precision time value that `IsoSeconds` keeps. */
  function TruncateToSecond(ms: int): int { ms - ms % 1000 }

  /** The parts of three fields joined by two one-character separators. */
  lemma Joined(a: string, s1: string, b: string, s2: string, c: string, i: nat, j: nat)
    requires |s1| == 1 && |s2| == 1 && i == |a| + 1 && j == i + |b| + 1
    ensures var s := a + s1 + b + s2 + c;
      |s| == j + |c| && s[0..|a|] == a && s[|a|] == s1[0]
      && s[i..i + |b|] == b && s[j - 1] == s2[0] && s[j..j + |c|] == c
  {
    var ab := a + s1 + b;
    assert ab[0..|a|] == a && ab[i..i + |b|] == b;
    var s := ab + s2 + c;
    assert s[0..|a|] == ab[0..|a|] && s[i..i + |b|] == ab[i..i + |b|];
  }

  lemma IsoDateShape(d: DateTime)
    requires ValidDateTime(d)
    ensures var s := IsoDate(d);
      |s| == 10 && s[4] == '-' && s[7] == '-'
      && DigitsAt(s, 0, 4) && FieldAt(s, 0, 4) == d.year
      && DigitsAt(s, 5, 2) && FieldAt(s, 5, 2) == d.month
      && DigitsAt(s, 8, 2) && FieldAt(s, 8, 2) == d.day
  {
    PadDigits(d.year, 4); PadDigits(d.month, 2); PadDigits(d.day, 2);
    Joined(Pad(d.year, 4), "-", Pad(d.month, 2), "-", Pad(d.day, 2), 5, 8);
  }

  lemma IsoTimeShape(d: DateTime)
    requires ValidDateTime(d)
    ensures var s := IsoTime(d);
      |s| == 8 && s[2] == ':' && s[5] == ':'
      && DigitsAt(s, 0, 2) && FieldAt(s, 0, 2) == d.hour
      && DigitsAt(s, 3, 2) && FieldAt(s, 3, 2) == d.minute
      && DigitsAt(s, 6, 2) && FieldAt(s, 6, 2) == d.second
  {
    PadDigits(d.hour, 2); PadDigits(d.minute, 2); PadDigits(d.second, 2);
    Joined(Pad(d.hour, 2), ":", Pad(d.minute, 2), ":", Pad(d.second, 2), 3, 6);
  }

  /** `s` spells the date and time of `d` in its first 19 characters. */
  predicate SpellsDateTime(s: string, d: DateTime) {
    |s| >= 20
    && DigitsAt(s, 0, 4) && FieldAt(s, 0, 4) == d.year && s[4] == '-'
    && DigitsAt(s, 5, 2) && FieldAt(s, 5, 2) == d.month && s[7] == '-'
    && DigitsAt(s, 8, 2) && FieldAt(s, 8, 2) == d.day && s[10] == 'T'
    && DigitsAt(s, 11, 2) && FieldAt(s, 11, 2) == d.hour && s[13] == ':'
    && DigitsAt(s, 14, 2) && FieldAt(s, 14, 2) == d.minute && s[16] == ':'
    && DigitsAt(s, 17, 2) && FieldAt(s, 17, 2) == d.second
  }

  lemma ParseSpelled(s: string, d: DateTime)
    requires ValidDateTime(d) && SpellsDateTime(s, d)
    requires (|s| == 20 && s[19] == 'Z' && d.milli == 0)
          || (|s| == 24 && s[19] == '.' && DigitsAt(s, 20, 3) && FieldAt(s, 20, 3) == d.milli && s[23] == 'Z')
    ensures ParseIso(s) == Valid(ToMs(d))
  {
  }

  /** Digit fields inside the left part of a concatenation. */
  lemma FieldLeft(x: string, y: string, i: nat, w: nat)
    requires i + w <= |x|
    ensures (x + y)[i..i + w] == x[i..i + w]
    ensures DigitsAt(x + y, i, w) == DigitsAt(x, i, w)
    ensures DigitsAt(x, i, w) ==> FieldAt(x + y, i, w) == FieldAt(x, i, w)
  {
    assert (x + y)[i..i + w] == x[i..i + w];
  }

  /** Digit fields inside the right part of a concatenation. */
  lemma FieldRight(x: string, y: string, i: nat, w: nat)
    requires |x| <= i && i + w <= |x| + |y|
    ensures (x + y)[i..i + w] == y[i - |x|..i - |x| + w]
    ensures DigitsAt(x + y, i, w) == DigitsAt(y, i - |x|, w)
    ensures DigitsAt(y, i - |x|, w) ==> FieldAt(x + y, i, w) == FieldAt(y, i - |x|, w)
  {
    assert (x + y)[i..i + w] == y[i - |x|..i - |x| + w];
  }

  /** The rendered date and time of `d` followed by the rest. */
  lemma SpellIso(d: DateTime, tail: string)
    requires ValidDateTime(d) && |tail| >= 1
    ensures SpellsDateTime(IsoDateTime(d) + tail, d)
    ensures (IsoDateTime(d) + tail)[19..] == tail
  {
    var a := IsoDate(d);
    var b := IsoTime(d);
    IsoDateShape(d);
    IsoTimeShape(d);
    var q := "T" + b;
    var p := a + q;
    var s := p + tail;
    FieldLeft(a, q, 0, 4);
    FieldLeft(a, q, 5, 2);
    FieldLeft(a, q, 8, 2);
    FieldRight("T", b, 1, 2);
    FieldRight("T", b, 4, 2);
    FieldRight("T", b, 7, 2);
    FieldRight(a, q, 11, 2);
    FieldRight(a, q, 14, 2);
    FieldRight(a, q, 17, 2);
    FieldLeft(p, tail, 0, 4);
    FieldLeft(p, tail, 5, 2);
    FieldLeft(p, tail, 8, 2);
    FieldLeft(p, tail, 11, 2);
    FieldLeft(p, tail, 14, 2);
    FieldLeft(p, tail, 17, 2);
    assert s[4] == p[4] == a[4] && s[7] == p[7] == a[7] && s[10] == p[10] == q[0];
    assert s[13] == p[13] == q[3] == b[2];
    assert s[16] == p[16] == q[6] == b[5];
    assert s[19..] == tail;
  }

  /** The millisecond rendering of `d` spells all its fields. */
  lemma MillisSpelled(d: DateTime)
    requires ValidDateTime(d)
    ensures var s := IsoDateTime(d) + ("." + Pad(d.milli, 3) + "Z");
      |s| == 24 && SpellsDateTime(s, d) && s[19] == '.' && s[23] == 'Z'
      && DigitsAt(s, 20, 3) && FieldAt(s, 20, 3) == d.milli
  {
    var m := Pad(d.milli, 3);
    PadDigits(d.milli, 3);
    var t1 := "." + m;
    var tail := t1 + "Z";
    SpellIso(d, tail);
    var p := IsoDateTime(d);
    var s := p + tail;
    assert m[0..3] == m;
    FieldRight(".", m, 1, 3);
    FieldLeft(t1, "Z", 1, 3);
    FieldRight(p, tail, 20, 3);
    assert s[19] == tail[0] == '.' && s[23] == tail[4] == 'Z';
  }

  /** Reading back what `toISOString()` wrote gives the same time value. */
  lemma ParseIsoMillis(ms: int)
    requires MinMs <= ms <= MaxMs
    ensures ParseIso(IsoMillis(ms)) == Valid(ms)
  {
    var d := FromMs(ms);
    MillisSpelled(d);
    ParseSpelled(IsoMillis(ms), d);
    ToFromMs(ms);
  }

  lemma MilliOfDay(ms: int)
    ensures ms % MsPerDay % 1000 == ms % 1000
  {
  }

  /** Reading back a seconds-precision rendering loses the milliseconds only. */
  lemma ParseIsoSeconds(ms: int)
    requires MinMs <= ms <= MaxMs
    ensures MinMs <= TruncateToSecond(ms) <= MaxMs
    ensures ParseIso(IsoSeconds(ms)) == Valid(TruncateToSecond(ms))
  {
    var d := FromMs(ms);
    var d0 := d.(milli := 0);
    SecondsSpelled(d);
    ParseSpelled(IsoSeconds(ms), d0);
    SecondOf(ms);
  }

  /** The seconds-precision form spells the date with zero milliseconds. */
  lemma SecondsSpelled(d: DateTime)
    requires ValidDateTime(d)
    ensures var s := IsoDateTime(d) + "Z";
      ValidDateTime(d.(milli := 0)) && SpellsDateTime(s, d.(milli := 0)) && |s| == 20 && s[19] == 'Z'
  {
    SpellIso(d, "Z");
  }

  /** Zeroing the milliseconds of a date truncates its time value to the second. */
  lemma SecondOf(ms: int)
    requires MinMs <= ms <= MaxMs
    ensures var d := FromMs(ms);
      ValidDateTime(d.(milli := 0)) && ToMs(d.(milli := 0)) == TruncateToSecond(ms)
  {
    var d := FromMs(ms);
    var d0 := d.(milli := 0);
    ToFromMs(ms);
    MilliOfDay(ms);
    assert d.milli == ms % MsPerDay % 1000;
    assert DayNumber(d0) == DayNumber(d) && TimeOfDay(d0) == TimeOfDay(d) - d.milli;
    assert ToMs(d0) == ToMs(d) - d.milli;
  }

  /** Truncating to seconds is the identity on a seconds-precision reading. */
  lemma SecondsAreStable(ms: int)
    requires MinMs <= ms <= MaxMs && ms % 1000 == 0
    ensures TruncateToSecond(ms) == ms
  {
  }
}
