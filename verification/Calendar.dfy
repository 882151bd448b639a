/** Civil dates from day numbers, and the timestamps printed from them. */
module Calendar {
  import opened Arith
  import opened Decimal


  datatype Date = Date(year: int, month: int, day: int)

  // ----- the proleptic Gregorian calendar, stated without day arithmetic

  predicate IsLeap(y: int) {
    y % 4 == 0 && (y % 100 != 0 || y % 400 == 0)
  }

  function DaysInMonth(y: int, m: int): int {
    if m == 2 then (if IsLeap(y) then 29 else 28)
    else if m == 4 || m == 6 || m == 9 || m == 11 then 30
    else 31
  }

  predicate ValidDate(d: Date) {
    1 <= d.month <= 12 && 1 <= d.day <= DaysInMonth(d.year, d.month)
  }

  function NextDay(d: Date): Date {
    if d.day < DaysInMonth(d.year, d.month) then d.(day := d.day + 1)
    else if d.month < 12 then Date(d.year, d.month + 1, 1)
    else Date(d.year + 1, 1, 1)
  }

  predicate Before(a: Date, b: Date) {
    a.year < b.year
    || (a.year == b.year && (a.month < b.month || (a.month == b.month && a.day < b.day)))
  }

  // ----- civil_from_days

  function YearOfEra(doe: int): int {
    (doe - doe / 1460 + doe / 36524 - doe / 146096) / 365
  }

  function CivilFromDays(days: int): Date {
    var z := days + 719468;
    var era := z / 146097;
    var doe := z % 146097;
    var yoe := YearOfEra(doe);
    var doy := doe - (365 * yoe + yoe / 4 - yoe / 100);
    var mp := (5 * doy + 2) / 153;
    var day := doy - (153 * mp + 2) / 5 + 1;
    var month := if mp < 10 then mp + 3 else mp - 9;
    var year := yoe + era * 400 + (if month <= 2 then 1 else 0);
    Date(year, month, day)
  }

  // First day of March-based year y of an era.
  function YearStart(y: int): int {
    365 * y + y / 4 - y / 100 + y / 400
  }

  lemma DivStep(y: int, k: int)
    requires k > 0
    ensures (y + 1) / k == y / k + (if (y + 1) % k == 0 then 1 else 0)
  {
    var q, r := y / k, y % k;
    assert y == k * q + r;
    if r == k - 1 {
      assert y + 1 == k * (q + 1);
      DivModUnique(y + 1, k, q + 1, 0);
    } else {
      DivModUnique(y + 1, k, q, r + 1);
    }
  }

  lemma YearLength(y: int)
    ensures YearStart(y + 1) - YearStart(y) == 365 + (if IsLeap(y + 1) then 1 else 0)
  {
    DivStep(y, 4);
    DivStep(y, 100);
    DivStep(y, 400);
    Divisors(y + 1);
  }

  lemma Divisors(y: int)
    ensures y % 100 == 0 ==> y % 4 == 0
    ensures y % 400 == 0 ==> y % 100 == 0
  {
  }

  lemma CenturyQuotients(y: int, r: int)
    requires 0 <= y < 400 && 0 <= r < YearStart(y + 1) - YearStart(y)
    ensures var doe := YearStart(y) + r;
      doe / 36524 - doe / 146096 == y / 100
  {
    YearLength(y);
    CenturyParts(y);
    var b, y' := y / 100, y % 100;
    var doe, rest := YearStart(y) + r, 365 * y' + y' / 4 + r;
    assert doe == 36524 * b + rest;
    if rest == 36524 {
      assert y' == 99 && r == 365;
      assert y == 399;
    } else {
      DivModUnique(doe, 36524, b, rest);
      assert doe < 146096;
    }
  }

  /** A day of the era, counted in runs of four years. */
  lemma QuadSplit(y: int, r: int)
    requires 0 <= y < 400 && 0 <= r < YearStart(y + 1) - YearStart(y)
    ensures var rest := 365 * (y % 4) + y / 4 - y / 100 + r;
      YearStart(y) + r == 1460 * (y / 4) + rest && 0 <= rest && r <= 365 && y / 4 - y / 100 <= 96
      && (r == 365 ==> y % 4 == 3)
  {
    YearLength(y);
    CenturyParts(y);
  }

  lemma QuadQuotient(y: int, r: int)
    requires 0 <= y < 400 && 0 <= r < YearStart(y + 1) - YearStart(y)
    ensures var doe := YearStart(y) + r;
      0 <= r + y / 4 - y / 100 - (doe / 1460 - y / 100) < 365
  {
    QuadSplit(y, r);
    hide YearStart;
    var a, b, m := y / 4, y / 100, y % 4;
    var doe, rest := YearStart(y) + r, 365 * m + a - b + r;
    if rest < 1460 {
      DivModUnique(doe, 1460, a, rest);
    } else {
      DivModUnique(doe, 1460, a + 1, rest - 1460);
    }
  }

  lemma YearOfEraIs(y: int, r: int)
    requires 0 <= y < 400 && 0 <= r < YearStart(y + 1) - YearStart(y)
    ensures YearOfEra(YearStart(y) + r) == y
  {
    CenturyQuotients(y, r);
    QuadQuotient(y, r);
    CenturyParts(y);
    var doe := YearStart(y) + r;
    var n := doe - doe / 1460 + doe / 36524 - doe / 146096;
    DivModUnique(n, 365, y, n - 365 * y);
  }

  lemma CenturyParts(y: int)
    requires 0 <= y < 400
    ensures y / 4 == 25 * (y / 100) + (y % 100) / 4
    ensures y / 400 == 0
  {
  }

  // ----- every day is one day of one March-based year

  function YearDays(y: int): int {
    if IsLeap(y + 1) then 366 else 365
  }

  function MarchDate(y: int, doy: int): Date {
    var mp := (5 * doy + 2) / 153;
    var day := doy - (153 * mp + 2) / 5 + 1;
    var month := if mp < 10 then mp + 3 else mp - 9;
    Date(y + (if month <= 2 then 1 else 0), month, day)
  }

  lemma YearStartShift(y: int, era: int)
    requires 0 <= y < 400
    ensures YearStart(y + 400 * era) == YearStart(y) + 146097 * era
  {
    DivModUnique(y + 400 * era, 4, y / 4 + 100 * era, y % 4);
    DivModUnique(y + 400 * era, 100, y / 100 + 4 * era, y % 100);
    DivModUnique(y + 400 * era, 400, era, y);
  }

  lemma IsLeapShift(y: int, era: int)
    ensures IsLeap(y + 400 * era) == IsLeap(y)
  {
    DivModUnique(y + 400 * era, 4, y / 4 + 100 * era, y % 4);
    DivModUnique(y + 400 * era, 100, y / 100 + 4 * era, y % 100);
    DivModUnique(y + 400 * era, 400, y / 400 + era, y % 400);
  }

  lemma YearStartBounds(y: int)
    requires 0 <= y < 400
    ensures 0 <= YearStart(y) && YearStart(y + 1) <= 146097
  {
  }

  lemma EraSplit(y: int, doy: int)
    requires 0 <= doy < YearDays(y)
    ensures var z, yoe := YearStart(y) + doy, y % 400;
      && z / 146097 == y / 400
      && z % 146097 == YearStart(yoe) + doy
      && YearOfEra(z % 146097) == yoe
  {
    hide YearOfEra;
    var era, yoe := y / 400, y % 400;
    YearStartShift(yoe, era);
    IsLeapShift(yoe + 1, era);
    YearLength(yoe);
    YearStartBounds(yoe);
    YearOfEraIs(yoe, doy);
    hide YearStart;
    DivModUnique(YearStart(y) + doy, 146097, era, YearStart(yoe) + doy);
  }

  /** The day that is doy days into March-based year y. */
  lemma CivilAt(y: int, doy: int)
    requires 0 <= doy < YearDays(y)
    ensures CivilFromDays(YearStart(y) + doy - 719468) == MarchDate(y, doy)
  {
    hide YearOfEra;
    EraSplit(y, doy);
    var yoe := y % 400;
    assert YearStart(yoe) == 365 * yoe + yoe / 4 - yoe / 100 by { CenturyParts(yoe); }
    hide YearStart;
  }

  lemma DayInYear(days: int) returns (y: int, doy: int)
    ensures 0 <= doy < YearDays(y) && days + 719468 == YearStart(y) + doy
  {
    var era, doe := (days + 719468) / 146097, (days + 719468) % 146097;
    var yoe := 0;
    while YearStart(yoe + 1) <= doe
      invariant 0 <= yoe < 400 && YearStart(yoe) <= doe
      decreases 400 - yoe
    {
      assert YearStart(400) == 146097;
      yoe := yoe + 1;
    }
    YearLength(yoe);
    YearStartShift(yoe, era);
    IsLeapShift(yoe + 1, era);
    y, doy := yoe + 400 * era, doe - YearStart(yoe);
  }

  // First day of month mp of a March-based year.
  function MonthStart(mp: int): int {
    (153 * mp + 2) / 5
  }

  lemma MonthIndexIs(doy: int, mp: int)
    requires 0 <= mp <= 11 && MonthStart(mp) <= doy < MonthStart(mp + 1)
    ensures (5 * doy + 2) / 153 == mp
  {
    DivModUnique(5 * doy + 2, 153, mp, 5 * doy + 2 - 153 * mp);
  }

  lemma MonthIndex(doy: int) returns (mp: int)
    requires 0 <= doy < 366
    ensures 0 <= mp <= 11 && MonthStart(mp) <= doy < MonthStart(mp + 1)
    ensures (5 * doy + 2) / 153 == mp
  {
    mp := (5 * doy + 2) / 153;
  }

  lemma MonthLengths(y: int, mp: int)
    requires 0 <= mp <= 11
    ensures var month := if mp < 10 then mp + 3 else mp - 9;
      mp < 11 ==> MonthStart(mp + 1) - MonthStart(mp) == DaysInMonth(y, month)
    ensures MonthStart(11) == 337 && MonthStart(12) == 367
  {
  }

  lemma MarchDateStep(y: int, doy: int)
    requires 0 <= doy < YearDays(y)
    ensures ValidDate(MarchDate(y, doy))
    ensures NextDay(MarchDate(y, doy))
         == if doy + 1 < YearDays(y) then MarchDate(y, doy + 1) else MarchDate(y + 1, 0)
  {
    var mp := MonthIndex(doy);
    MonthLengths(y, mp);
    if doy + 1 < MonthStart(mp + 1) {
      MonthIndexIs(doy + 1, mp);
    } else {
      MonthIndexIs(doy + 1, mp + 1);
    }
  }

  /** Every result is a date of the calendar, and consecutive days map to consecutive dates. */
  lemma CivilStep(days: int)
    ensures ValidDate(CivilFromDays(days))
    ensures CivilFromDays(days + 1) == NextDay(CivilFromDays(days))
  {
    hide CivilFromDays, MarchDate, YearStart;
    var y, doy := DayInYear(days);
    CivilAt(y, doy);
    MarchDateStep(y, doy);
    if doy + 1 < YearDays(y) {
      CivilAt(y, doy + 1);
    } else {
      YearLength(y);
      CivilAt(y + 1, 0);
    }
  }

  // ----- the reference: counting days one calendar date at a time

  function DaysBeforeMonth(y: int, m: nat): int {
    if m <= 1 then 0 else DaysBeforeMonth(y, m - 1) + DaysInMonth(y, m - 1)
  }

  /** Days from 1970-01-01 to a date: whole years, then whole months, then days. */
  function DayNumber(d: Date): int
    requires ValidDate(d)
  {
    YearStart(d.year - 1) + DaysBeforeMonth(d.year, d.month) + d.day - 1 - 719162
  }

  lemma MonthsOfYear(y: int)
    ensures DaysBeforeMonth(y, 13) == if IsLeap(y) then 366 else 365
  {
    assert DaysBeforeMonth(y, 2) == 31;
    assert DaysBeforeMonth(y, 3) == DaysBeforeMonth(y, 2) + DaysInMonth(y, 2);
    assert DaysBeforeMonth(y, 5) == DaysBeforeMonth(y, 3) + 61;
    assert DaysBeforeMonth(y, 7) == DaysBeforeMonth(y, 5) + 61;
    assert DaysBeforeMonth(y, 9) == DaysBeforeMonth(y, 7) + 62;
    assert DaysBeforeMonth(y, 11) == DaysBeforeMonth(y, 9) + 61;
    assert DaysBeforeMonth(y, 13) == DaysBeforeMonth(y, 11) + 61;
  }

  lemma DayNumberNext(d: Date)
    requires ValidDate(d)
    ensures ValidDate(NextDay(d)) && DayNumber(NextDay(d)) == DayNumber(d) + 1
  {
    if d.month == 12 && d.day == 31 {
      MonthsOfYear(d.year);
      YearLength(d.year - 1);
      assert DaysBeforeMonth(d.year, 13) == DaysBeforeMonth(d.year, 12) + 31;
    }
  }

  lemma {:induction false} MonthsMono(y: int, m: nat, n: nat)
    requires 1 <= m <= n
    ensures DaysBeforeMonth(y, m) <= DaysBeforeMonth(y, n)
  {
    if m < n { MonthsMono(y, m, n - 1); }
  }

  lemma {:induction false} YearsMono(a: int, b: int)
    requires a <= b
    ensures YearStart(a) <= YearStart(b)
    decreases b - a
  {
    hide YearStart;
    if a < b {
      YearLength(b - 1);
      YearsMono(a, b - 1);
    }
  }

  lemma DayNumberOrder(a: Date, b: Date)
    requires ValidDate(a) && ValidDate(b) && Before(a, b)
    ensures DayNumber(a) < DayNumber(b)
  {
    hide YearStart;
    if a.year < b.year {
      MonthsMono(a.year, a.month + 1, 13);
      MonthsOfYear(a.year);
      YearLength(a.year - 1);
      YearsMono(a.year, b.year - 1);
      MonthsMono(b.year, 1, b.month);
    } else if a.month < b.month {
      MonthsMono(a.year, a.month + 1, b.month);
    }
  }

  lemma CivilEpoch()
    ensures CivilFromDays(0) == Date(1970, 1, 1) && DayNumber(Date(1970, 1, 1)) == 0
  {
    assert YearStart(1969) == 719162 && MarchDate(1969, 306) == Date(1970, 1, 1);
    hide CivilFromDays;
    CivilAt(1969, 306);
  }

  /** civil_from_days undoes counting days. */
  lemma {:induction false} CivilCounts(days: int)
    ensures ValidDate(CivilFromDays(days)) && DayNumber(CivilFromDays(days)) == days
    decreases if days < 0 then -days else days
  {
    hide CivilFromDays, DayNumber, ValidDate, NextDay;
    CivilStep(days);
    if days == 0 {
      CivilEpoch();
    } else if days > 0 {
      CivilStep(days - 1);
      CivilCounts(days - 1);
      DayNumberNext(CivilFromDays(days - 1));
    } else {
      CivilCounts(days + 1);
      DayNumberNext(CivilFromDays(days));
    }
  }

  /** Counting days undoes civil_from_days: every calendar date is reached, from one day only. */
  lemma CivilInverse(d: Date)
    requires ValidDate(d)
    ensures CivilFromDays(DayNumber(d)) == d
  {
    hide CivilFromDays, DayNumber;
    var e := CivilFromDays(DayNumber(d));
    CivilCounts(DayNumber(d));
    if Before(d, e) { DayNumberOrder(d, e); }
    if Before(e, d) { DayNumberOrder(e, d); }
  }

  lemma CivilOrder(a: int, b: int)
    requires a < b
    ensures Before(CivilFromDays(a), CivilFromDays(b))
  {
    hide CivilFromDays, DayNumber;
    CivilCounts(a);
    CivilCounts(b);
    if Before(CivilFromDays(b), CivilFromDays(a)) {
      DayNumberOrder(CivilFromDays(b), CivilFromDays(a));
    }
  }

  // ----- format_utc_date

  /** The cast of an unsigned 64-bit second count to a signed one. */
  function AsI64(u: int): int {
    if u < 0x8000_0000_0000_0000 then u else u - 0x1_0000_0000_0000_0000
  }

  /** The signed 64-bit number with the same residue. */
  lemma AsI64Wraps(u: int)
    requires 0 <= u < 0x1_0000_0000_0000_0000
    ensures -0x8000_0000_0000_0000 <= AsI64(u) < 0x8000_0000_0000_0000
    ensures AsI64(u) == u || AsI64(u) + 0x1_0000_0000_0000_0000 == u
  {
  }

  /** Zero padding of a signed number: the sign takes one column of the width. */
  function PadSigned(n: int, w: nat): string
    requires w >= 1
  {
    if n < 0 then "-" + Pad(-n, w - 1) else Pad(n, w)
  }

  datatype Clock = Clock(hour: nat, minute: nat, second: nat)

  function ClockOf(secsOfDay: nat): Clock {
    Clock(secsOfDay / 3600, (secsOfDay % 3600) / 60, secsOfDay % 60)
  }

  predicate ValidClock(c: Clock) {
    c.hour < 24 && c.minute < 60 && c.second < 60
  }

  function ClockText(c: Clock): string {
    "T" + (Pad(c.hour, 2) + (":" + (Pad(c.minute, 2) + (":" + (Pad(c.second, 2) + "Z")))))
  }

  function DateText(d: Date, c: Clock): string
    requires ValidDate(d)
  {
    PadSigned(d.year, 4) + ("-" + (Pad(d.month, 2) + ("-" + (Pad(d.day, 2) + ClockText(c)))))
  }

  function FormatUtcDate(unixSeconds: int): string {
    var total := AsI64(unixSeconds);
    CivilStep(total / 86400);
    DateText(CivilFromDays(total / 86400), ClockOf(total % 86400))
  }

  lemma ClockRoundTrip(s: nat)
    requires s < 86400
    ensures ValidClock(ClockOf(s))
    ensures var c := ClockOf(s); 3600 * c.hour + 60 * c.minute + c.second == s
  {
  }

  /** One zero-padded column decides the order, or passes it on to the rest. */
  lemma ColumnOrder(a: nat, b: nat, w: nat, x: string, y: string)
    requires 1 <= w && a <= b < Pow10(w)
    requires a == b ==> Lex(x, y)
    ensures Lex(Pad(a, w) + x, Pad(b, w) + y)
  {
    if a == b {
      LexPrefix(Pad(a, w), x, y);
    } else {
      PadLength(a, w);
      PadLength(b, w);
      ValPad(a, w);
      ValPad(b, w);
      ValOrder(Pad(a, w), Pad(b, w));
      LexSuffix(Pad(a, w), Pad(b, w), x, y);
    }
  }

  predicate EarlierInDay(a: Clock, b: Clock) {
    a.hour < b.hour
    || (a.hour == b.hour && (a.minute < b.minute || (a.minute == b.minute && a.second < b.second)))
  }

  lemma Pow10Of2()
    ensures Pow10(2) == 100 && Pow10(4) == 10000
  {
    assert Pow10(2) == 10 * Pow10(1);
    assert Pow10(4) == 10 * Pow10(3) == 100 * Pow10(2);
  }

  lemma ClockTextOrder(a: Clock, b: Clock)
    requires ValidClock(a) && ValidClock(b) && EarlierInDay(a, b)
    ensures Lex(ClockText(a), ClockText(b))
  {
    hide Pad, Lex;
    Pow10Of2();
    var sa, sb := Pad(a.second, 2) + "Z", Pad(b.second, 2) + "Z";
    var ma, mb := Pad(a.minute, 2) + (":" + sa), Pad(b.minute, 2) + (":" + sb);
    if a.hour == b.hour {
      if a.minute == b.minute { ColumnOrder(a.second, b.second, 2, "Z", "Z"); LexPrefix(":", sa, sb); }
      ColumnOrder(a.minute, b.minute, 2, ":" + sa, ":" + sb);
      LexPrefix(":", ma, mb);
    }
    ColumnOrder(a.hour, b.hour, 2, ":" + ma, ":" + mb);
    LexPrefix("T", Pad(a.hour, 2) + (":" + ma), Pad(b.hour, 2) + (":" + mb));
  }

  lemma DateTextOrder(d: Date, e: Date, x: Clock, y: Clock)
    requires ValidDate(d) && ValidDate(e) && 0 <= d.year && e.year < 10000
    requires Before(d, e) || (d == e && Lex(ClockText(x), ClockText(y)))
    ensures Lex(DateText(d, x), DateText(e, y))
  {
    hide Pad, ClockText, Lex;
    Pow10Of2();
    var dx, ey := Pad(d.day, 2) + ClockText(x), Pad(e.day, 2) + ClockText(y);
    var mx, my := Pad(d.month, 2) + ("-" + dx), Pad(e.month, 2) + ("-" + ey);
    if d.year == e.year {
      if d.month == e.month {
        ColumnOrder(d.day, e.day, 2, ClockText(x), ClockText(y));
        LexPrefix("-", dx, ey);
      }
      ColumnOrder(d.month, e.month, 2, "-" + dx, "-" + ey);
      LexPrefix("-", mx, my);
    }
    ColumnOrder(d.year, e.year, 4, "-" + mx, "-" + my);
  }

  /** 10000-01-01T00:00:00Z. */
  const YEAR_10000: int := 253402300800

  lemma FourDigitYears(days: int)
    requires 0 <= days < 2932897
    ensures 1970 <= CivilFromDays(days).year < 10000
  {
    hide CivilFromDays;
    assert CivilFromDays(2932897) == Date(10000, 1, 1) by { CivilAt(9999, 306); }
    CivilOrder(days, 2932897);
    CivilStep(days);
    CivilEpoch();
    if 0 < days { CivilOrder(0, days); }
  }

  lemma SplitSeconds(s: int, t: int)
    requires 0 <= s < t
    ensures s / 86400 <= t / 86400
    ensures s / 86400 == t / 86400 ==> s % 86400 < t % 86400
  {
  }

  /** Through year 9999 the text sorts as the time does. */
  lemma FormatOrder(s: int, t: int)
    requires 0 <= s < t < YEAR_10000
    ensures Lex(FormatUtcDate(s), FormatUtcDate(t))
  {
    hide CivilFromDays, DateText, ClockText, Lex;
    SplitSeconds(s, t);
    var ds, dt := s / 86400, t / 86400;
    var cs, ct := ClockOf(s % 86400), ClockOf(t % 86400);
    FourDigitYears(ds);
    FourDigitYears(dt);
    CivilStep(ds);
    CivilStep(dt);
    if ds < dt {
      CivilOrder(ds, dt);
    } else {
      ClockRoundTrip(s % 86400);
      ClockRoundTrip(t % 86400);
      ClockTextOrder(cs, ct);
    }
    DateTextOrder(CivilFromDays(ds), CivilFromDays(dt), cs, ct);
  }

  lemma TwoColumns(n: nat)
    requires n < 100
    ensures |Pad(n, 2)| == 2 && AllDigits(Pad(n, 2)) && Val(Pad(n, 2)) == n
  {
    Pow10Of2();
    hide Pow10, Pad;
    PadLength(n, 2);
    ValPad(n, 2);
  }

  lemma FourColumns(n: nat)
    requires n < 10000
    ensures |Pad(n, 4)| == 4 && AllDigits(Pad(n, 4)) && Val(Pad(n, 4)) == n
  {
    Pow10Of2();
    hide Pow10, Pad;
    PadLength(n, 4);
    ValPad(n, 4);
  }

  /** A text in the form YYYY-MM-DDThh:mm:ssZ. */
  predicate InForm(t: string) {
    && |t| == 20
    && t[4] == '-' && t[7] == '-' && t[10] == 'T' && t[13] == ':' && t[16] == ':' && t[19] == 'Z'
    && AllDigits(t[..4]) && AllDigits(t[5..7]) && AllDigits(t[8..10])
    && AllDigits(t[11..13]) && AllDigits(t[14..16]) && AllDigits(t[17..19])
  }

  function DateIn(t: string): Date
    requires InForm(t)
  {
    Date(Val(t[..4]), Val(t[5..7]), Val(t[8..10]))
  }

  function SecondsIn(t: string): int
    requires InForm(t)
  {
    3600 * Val(t[11..13]) + 60 * Val(t[14..16]) + Val(t[17..19])
  }

  /** Six columns of fixed width, with their separators, can be cut out again. */
  lemma Columns(y: string, m: string, d: string, h: string, i: string, s: string)
    requires |y| == 4 && |m| == |d| == |h| == |i| == |s| == 2
    ensures var t := y + ("-" + (m + ("-" + (d + ("T" + (h + (":" + (i + (":" + (s + "Z"))))))))));
      && |t| == 20
      && t[4] == '-' && t[7] == '-' && t[10] == 'T' && t[13] == ':' && t[16] == ':' && t[19] == 'Z'
      && t[..4] == y && t[5..7] == m && t[8..10] == d && t[11..13] == h && t[14..16] == i && t[17..19] == s
  {
  }

  lemma TextColumns(d: Date, c: Clock)
    requires ValidDate(d) && 0 <= d.year < 10000 && ValidClock(c)
    ensures var t := DateText(d, c);
      InForm(t) && DateIn(t) == d && SecondsIn(t) == 3600 * c.hour + 60 * c.minute + c.second
  {
    FourColumns(d.year);
    TwoColumns(d.month);
    TwoColumns(d.day);
    TwoColumns(c.hour);
    TwoColumns(c.minute);
    TwoColumns(c.second);
    hide Pad, Val, AllDigits;
    Columns(Pad(d.year, 4), Pad(d.month, 2), Pad(d.day, 2), Pad(c.hour, 2), Pad(c.minute, 2), Pad(c.second, 2));
  }

  /** Through year 9999 the text reads back: its columns are the date and the time of day of the second
      it was printed from. */
  lemma FormatReadsBack(s: int)
    requires 0 <= s < YEAR_10000
    ensures var t := FormatUtcDate(s);
      && InForm(t) && ValidDate(DateIn(t))
      && 86400 * DayNumber(DateIn(t)) + SecondsIn(t) == s
  {
    var days, secs := s / 86400, s % 86400;
    DivModDef(s, 86400);
    assert days < 2932897;
    FourDigitYears(days);
    CivilCounts(days);
    ClockRoundTrip(secs);
    assert FormatUtcDate(s) == DateText(CivilFromDays(days), ClockOf(secs));
    hide FormatUtcDate, DateText, CivilFromDays, ClockOf, InForm, DateIn, SecondsIn, DayNumber, ValidDate;
    TextColumns(CivilFromDays(days), ClockOf(secs));
  }

  lemma FirstDigits()
    ensures Pad(9999, 4)[0] == '9' && |Pad(10000, 4)| == 5 && Pad(10000, 4)[0] == '1'
  {
    assert Dec(9) == "9" && Dec(1) == "1";
    assert Dec(99) == Dec(9) + "9" && Dec(10) == Dec(1) + "0";
    assert Dec(999) == Dec(99) + "9" && Dec(100) == Dec(10) + "0";
    assert Dec(9999) == Dec(999) + "9" && Dec(1000) == Dec(100) + "0";
    assert Dec(10000) == Dec(1000) + "0";
  }

  lemma FirstChar(d: Date, c: Clock)
    requires ValidDate(d) && 0 <= d.year
    ensures |DateText(d, c)| > 0 && |Pad(d.year, 4)| > 0 && DateText(d, c)[0] == Pad(d.year, 4)[0]
  {
    DecIsDigits(d.year);
  }

  lemma OrderBreaks()
    ensures !Lex(FormatUtcDate(YEAR_10000 - 1), FormatUtcDate(YEAR_10000))
  {
    hide CivilFromDays, DateText, ClockOf, Pad;
    assert CivilFromDays(2932896) == Date(9999, 12, 31) by { CivilAt(9999, 305); }
    assert CivilFromDays(2932897) == Date(10000, 1, 1) by { CivilAt(9999, 306); }
    FirstDigits();
    FirstChar(Date(9999, 12, 31), ClockOf((YEAR_10000 - 1) % 86400));
    FirstChar(Date(10000, 1, 1), ClockOf(YEAR_10000 % 86400));
  }

  /** Year 9999 is exactly how far the ordering reaches. */
  lemma FormatOrderReach(bound: int)
    requires 0 <= bound <= U64_MAX + 1
    ensures (forall s, t :: 0 <= s < t < bound ==> Lex(FormatUtcDate(s), FormatUtcDate(t)))
       <==> bound <= YEAR_10000
  {
    hide FormatUtcDate;
    if bound <= YEAR_10000 {
      forall s, t | 0 <= s < t < bound
        ensures Lex(FormatUtcDate(s), FormatUtcDate(t))
      {
        FormatOrder(s, t);
      }
    } else {
      OrderBreaks();
    }
  }

  // ----- the text determines the second

  lemma PadTwo(a: nat)
    requires a < 100
    ensures |Pad(a, 2)| == 2
  {
    Pow10Of2();
    PadLength(a, 2);
  }

  lemma PadInjective(a: nat, b: nat, w: nat)
    requires Pad(a, w) == Pad(b, w)
    ensures a == b
  {
    ValPad(a, w);
    ValPad(b, w);
  }

  lemma PadSignedSign(a: int)
    ensures |PadSigned(a, 4)| > 0 && (PadSigned(a, 4)[0] == '-' <==> a < 0)
    ensures a < 0 ==> PadSigned(a, 4)[1..] == Pad(-a, 3)
  {
    if a >= 0 {
      DecIsDigits(a);
      ValPad(a, 4);
      assert IsDigit(Pad(a, 4)[0]);
    }
  }

  lemma PadSignedInjective(a: int, b: int)
    requires PadSigned(a, 4) == PadSigned(b, 4)
    ensures a == b
  {
    PadSignedSign(a);
    PadSignedSign(b);
    if a < 0 { PadInjective(-a, -b, 3); } else { PadInjective(a, b, 4); }
  }

  lemma Tail(a: string, b: string, x: string, y: string)
    requires a + x == b + y && |x| == |y|
    ensures a == b && x == y
  {
    assert |a| == |b|;
    assert (a + x)[..|a|] == a && (b + y)[..|b|] == b;
    assert (a + x)[|a|..] == x && (b + y)[|b|..] == y;
  }

  lemma ClockTextInjective(a: Clock, b: Clock)
    requires ValidClock(a) && ValidClock(b)
    ensures |ClockText(a)| == 10
    ensures ClockText(a) == ClockText(b) ==> a == b
  {
    hide Pad;
    PadTwo(a.hour); PadTwo(a.minute); PadTwo(a.second);
    PadTwo(b.hour); PadTwo(b.minute); PadTwo(b.second);
    assert ClockText(a)[1..3] == Pad(a.hour, 2) && ClockText(b)[1..3] == Pad(b.hour, 2);
    assert ClockText(a)[4..6] == Pad(a.minute, 2) && ClockText(b)[4..6] == Pad(b.minute, 2);
    assert ClockText(a)[7..9] == Pad(a.second, 2) && ClockText(b)[7..9] == Pad(b.second, 2);
    if ClockText(a) == ClockText(b) {
      PadInjective(a.hour, b.hour, 2);
      PadInjective(a.minute, b.minute, 2);
      PadInjective(a.second, b.second, 2);
    }
  }

  lemma DateTextInjective(d: Date, e: Date, x: Clock, y: Clock)
    requires ValidDate(d) && ValidDate(e) && ValidClock(x) && ValidClock(y)
    requires DateText(d, x) == DateText(e, y)
    ensures d == e && x == y
  {
    hide Pad, ClockText, PadSigned;
    PadTwo(d.month); PadTwo(d.day); PadTwo(e.month); PadTwo(e.day);
    ClockTextInjective(x, y);
    ClockTextInjective(y, x);
    var dx, ey := Pad(d.day, 2) + ClockText(x), Pad(e.day, 2) + ClockText(y);
    var mx, my := Pad(d.month, 2) + ("-" + dx), Pad(e.month, 2) + ("-" + ey);
    Tail(PadSigned(d.year, 4), PadSigned(e.year, 4), "-" + mx, "-" + my);
    Tail("-", "-", mx, my);
    Tail(Pad(d.month, 2), Pad(e.month, 2), "-" + dx, "-" + ey);
    Tail("-", "-", dx, ey);
    Tail(Pad(d.day, 2), Pad(e.day, 2), ClockText(x), ClockText(y));
    PadSignedInjective(d.year, e.year);
    PadInjective(d.month, e.month, 2);
    PadInjective(d.day, e.day, 2);
  }

  /** Two seconds with the same text are the same second, over the whole 64-bit range. */
  lemma FormatInjective(s: int, t: int)
    requires 0 <= s <= U64_MAX && 0 <= t <= U64_MAX
    requires FormatUtcDate(s) == FormatUtcDate(t)
    ensures s == t
  {
    hide CivilFromDays, DateText, DayNumber, ClockOf;
    var a, b := AsI64(s), AsI64(t);
    CivilCounts(a / 86400);
    CivilCounts(b / 86400);
    ClockRoundTrip(a % 86400);
    ClockRoundTrip(b % 86400);
    DateTextInjective(CivilFromDays(a / 86400), CivilFromDays(b / 86400),
                      ClockOf(a % 86400), ClockOf(b % 86400));
    DivModDef(a, 86400);
    DivModDef(b, 86400);
  }
}
