/** The proleptic Gregorian calendar, and the civil-from-days formula that both
    copies of the timestamp code use (batch_engine/src/db.rs and
    client/src/rate_limit.rs). */
module Calendar {

  datatype Date = Date(year: nat, month: nat, day: nat)

  predicate Leap(year: nat) {
    year % 4 == 0 && (year % 100 != 0 || year % 400 == 0)
  }

  function DaysInMonth(year: nat, month: nat): nat {
    if month == 2 then (if Leap(year) then 29 else 28)
    else if month in {4, 6, 9, 11} then 30
    else 31
  }

  predicate ValidDate(d: Date) {
    1 <= d.month <= 12 && 1 <= d.day <= DaysInMonth(d.year, d.month)
  }

  function NextDay(d: Date): Date {
    if d.day < DaysInMonth(d.year, d.month) then d.(day := d.day + 1)
    else if d.month < 12 then Date(d.year, d.month + 1, 1)
    else Date(d.year + 1, 1, 1)
  }

  /** The reference: count days one at a time from 1970-01-01. */
  function DateOf(days: nat): Date {
    if days == 0 then Date(1970, 1, 1) else NextDay(DateOf(days - 1))
  }

  predicate Before(a: Date, b: Date) {
    a.year < b.year || (a.year == b.year && (a.month < b.month || (a.month == b.month && a.day < b.day)))
  }

  lemma {:induction false} DateOfValid(days: nat)
    ensures ValidDate(DateOf(days))
  {
    if days > 0 {
      DateOfValid(days - 1);
    }
  }

  lemma {:induction false} DateOfIncreases(a: nat, b: nat)
    requires a < b
    ensures Before(DateOf(a), DateOf(b))
    decreases b
  {
    DateOfValid(b - 1);
    if a < b - 1 {
      DateOfIncreases(a, b - 1);
    }
  }

  // ---- the closed formula ---------------------------------------------------

  /** Days from 1 March of year 0 of an era to 1 March of year `y`. */
  function YearStart(y: nat): nat {
    365 * y + y / 4 - y / 100 + y / 400
  }

  function YearOfEra(doe: nat): nat
    requires doe < 146097
  {
    (doe - doe / 1460 + doe / 36524 - doe / 146096) / 365
  }

  /** Whether the March-based year 100c + 4q + r holds a 29 February (at its end). */
  predicate LongYear(c: nat, q: nat, r: nat) {
    r == 3 && (q < 24 || c == 3)
  }

  function YearLength(c: nat, q: nat, r: nat): nat {
    if LongYear(c, q, r) then 366 else 365
  }

  lemma YearStartParts(c: nat, q: nat, r: nat)
    requires c < 4 && q < 25 && r < 4
    ensures YearStart(100 * c + 4 * q + r) == 36524 * c + 1461 * q + 365 * r
  {
    var y := 100 * c + 4 * q + r;
    assert y / 4 == 25 * c + q;
    assert y / 100 == c;
    assert y / 400 == 0;
  }

  /** Every day of a 400-year era has a century, a four-year cycle, a year and a
      day of that year. */
  lemma EraParts(doe: nat) returns (c: nat, q: nat, r: nat, doy: nat)
    requires doe < 146097
    ensures c < 4 && q < 25 && r < 4 && doy < YearLength(c, q, r)
    ensures doe == 36524 * c + 1461 * q + 365 * r + doy
  {
    c := if doe == 146096 then 3 else doe / 36524;
    var w := doe - 36524 * c;
    q := w / 1461;
    var v := w - 1461 * q;
    r := if v == 1460 then 3 else v / 365;
    doy := v - 365 * r;
  }

  /** The divisions by 1460, 36524 and 146096 cancel the leap days exactly. */
  lemma YearOfEraOfParts(c: nat, q: nat, r: nat, doy: nat)
    requires c < 4 && q < 25 && r < 4 && doy < YearLength(c, q, r)
    ensures var doe := 36524 * c + 1461 * q + 365 * r + doy;
            doe < 146097 && YearOfEra(doe) == 100 * c + 4 * q + r
            && YearStart(YearOfEra(doe)) == doe - doy
  {
    var doe := 36524 * c + 1461 * q + 365 * r + doy;
    var spill := 24 * c + q + 365 * r + doy;
    var e := if spill >= 1460 then 1 else 0;
    assert doe == 1460 * (25 * c + q + e) + (spill - 1460 * e);
    assert doe / 1460 == 25 * c + q + e;
    assert doe / 36524 - doe / 146096 == c;
    YearStartParts(c, q, r);
  }

  lemma YearOfEraBounds(doe: nat)
    requires doe < 146097
    ensures YearOfEra(doe) < 400
    ensures YearStart(YearOfEra(doe)) == 365 * YearOfEra(doe) + YearOfEra(doe) / 4 - YearOfEra(doe) / 100
    ensures 0 <= doe - YearStart(YearOfEra(doe)) <= 365
  {
    var c, q, r, doy := EraParts(doe);
    YearOfEraOfParts(c, q, r, doy);
  }

  /** Day `doy` of the year that starts on 1 March of `y`. No subtraction on
      unsigned values underflows. */
  function FromMarch(y: nat, doy: nat): Date
    requires doy <= 365
  {
    var mp: nat := (5 * doy + 2) / 153;
    var d: nat := doy - (153 * mp + 2) / 5 + 1;
    var m: nat := if mp < 10 then mp + 3 else mp - 9;
    Date(if m <= 2 then y + 1 else y, m, d)
  }

  /** March to August. */
  lemma FirstHalfStep(y: nat, doy: nat)
    requires doy <= 183
    ensures FromMarch(y, doy + 1) == NextDay(FromMarch(y, doy))
  {
    hide Leap;
    var mp := (5 * doy + 2) / 153;
    assert mp == 0 || mp == 1 || mp == 2 || mp == 3 || mp == 4 || mp == 5;
  }

  /** September to January. */
  lemma SecondHalfStep(y: nat, doy: nat)
    requires 183 < doy <= 336
    ensures FromMarch(y, doy + 1) == NextDay(FromMarch(y, doy))
  {
    hide Leap;
    var mp := (5 * doy + 2) / 153;
    assert mp == 6 || mp == 7 || mp == 8 || mp == 9 || mp == 10;
  }

  lemma FebruaryStep(y: nat, doy: nat)
    requires 336 < doy < 364 || (doy == 364 && Leap(y + 1))
    ensures FromMarch(y, doy + 1) == NextDay(FromMarch(y, doy))
  {
    hide Leap;
    assert (5 * doy + 2) / 153 == 11 && (5 * (doy + 1) + 2) / 153 == 11;
  }

  lemma FromMarchStep(y: nat, doy: nat)
    requires doy < 364 || (doy == 364 && Leap(y + 1))
    ensures FromMarch(y, doy + 1) == NextDay(FromMarch(y, doy))
  {
    hide FromMarch, NextDay, Leap;
    if doy <= 183 {
      FirstHalfStep(y, doy);
    } else if doy <= 336 {
      SecondHalfStep(y, doy);
    } else {
      FebruaryStep(y, doy);
    }
  }

  lemma FromMarchWraps(y: nat)
    ensures FromMarch(y + 1, 0) == NextDay(FromMarch(y, if Leap(y + 1) then 365 else 364))
  {
  }

  function DayOfYear(doe: nat): (doy: nat)
    requires doe < 146097
    ensures doy <= 365
  {
    YearOfEraBounds(doe);
    var yoe := YearOfEra(doe);
    doe - (365 * yoe + yoe / 4 - yoe / 100)
  }

  /** The i64 copy. */
  function CivilFromDaysI64(days: nat): Date {
    var z: int := days + 719468;
    var era: int := TruncDiv(if z >= 0 then z else z - 146096, 146097);
    var doe: nat := z - era * 146097;
    FromMarch(YearOfEra(doe) + era * 400, DayOfYear(doe))
  }

  /** Rust's `/` on signed integers. */
  function TruncDiv(a: int, b: int): int
    requires b > 0
  {
    if a >= 0 then a / b else -((-a) / b)
  }

  /** The u64 copy. */
  function CivilFromDaysU64(days: nat): Date {
    var z: nat := days + 719468;
    var era: nat := z / 146097;
    var doe: nat := z - era * 146097;
    FromMarch(YearOfEra(doe) + era * 400, DayOfYear(doe))
  }

  lemma EraOf(z: nat, era: nat, doe: nat)
    requires z == 146097 * era + doe && doe < 146097
    ensures z / 146097 == era && z - z / 146097 * 146097 == doe
  {
  }

  lemma CivilOfParts(days: nat, era: nat, c: nat, q: nat, r: nat, doy: nat)
    requires c < 4 && q < 25 && r < 4 && doy < YearLength(c, q, r)
    requires days + 719468 == 146097 * era + 36524 * c + 1461 * q + 365 * r + doy
    ensures CivilFromDaysU64(days) == CivilFromDaysI64(days)
                                   == FromMarch(400 * era + 100 * c + 4 * q + r, doy)
  {
    hide FromMarch, YearOfEra, YearStart;
    var doe := 36524 * c + 1461 * q + 365 * r + doy;
    YearOfEraOfParts(c, q, r, doy);
    YearOfEraBounds(doe);
    EraOf(days + 719468, era, doe);
  }

  lemma RemainderOf4(n: nat, a: nat, r: nat)
    requires n == 4 * a + r && r < 4
    ensures n % 4 == r
  {
  }

  lemma RemainderOf100(n: nat, b: nat, r: nat)
    requires n == 100 * b + r && r < 100
    ensures n % 100 == r
  {
  }

  lemma RemainderOf400(n: nat, c: nat, r: nat)
    requires n == 400 * c + r && r < 400
    ensures n % 400 == r
  {
  }

  lemma Remainders(n: nat, a: nat, r4: nat, b: nat, r100: nat, c: nat, r400: nat)
    requires n == 4 * a + r4 && r4 < 4
    requires n == 100 * b + r100 && r100 < 100
    requires n == 400 * c + r400 && r400 < 400
    ensures Leap(n) <==> r4 == 0 && (r100 != 0 || r400 == 0)
  {
    RemainderOf4(n, a, r4);
    RemainderOf100(n, b, r100);
    RemainderOf400(n, c, r400);
  }

  lemma LeapOfParts(era: nat, c: nat, q: nat, r: nat)
    requires c < 4 && q < 25 && r < 4
    ensures Leap(400 * era + 100 * c + 4 * q + r + 1) <==> LongYear(c, q, r)
  {
    hide Leap;
    var n := 400 * era + 100 * c + 4 * q + r + 1;
    var a, b := 100 * era + 25 * c + q, 4 * era + c;
    if r < 3 {
      Remainders(n, a, r + 1, b, 4 * q + r + 1, era, 100 * c + 4 * q + r + 1);
    } else if q < 24 {
      Remainders(n, a + 1, 0, b, 4 * q + 4, era, 100 * c + 4 * q + 4);
    } else if c < 3 {
      Remainders(n, a + 1, 0, b + 1, 0, era, 100 * c + 100);
    } else {
      Remainders(n, a + 1, 0, b + 1, 0, era + 1, 0);
    }
  }

  lemma EpochParts(era: nat, c: nat, q: nat, r: nat, doy: nat)
    requires c < 4 && q < 25 && r < 4 && doy < YearLength(c, q, r)
    requires 719468 == 146097 * era + 36524 * c + 1461 * q + 365 * r + doy
    ensures FromMarch(400 * era + 100 * c + 4 * q + r, doy) == Date(1970, 1, 1)
  {
    assert era == 4;
    assert c == 3;
    assert q == 17 && r == 1 && doy == 306;
  }

  /** Stepping one day at a time goes through the March-based parts in order. */
  lemma {:induction false} DateOfParts(days: nat, era: nat, c: nat, q: nat, r: nat, doy: nat)
    requires c < 4 && q < 25 && r < 4 && doy < YearLength(c, q, r)
    requires days + 719468 == 146097 * era + 36524 * c + 1461 * q + 365 * r + doy
    ensures DateOf(days) == FromMarch(400 * era + 100 * c + 4 * q + r, doy)
    decreases days
  {
    hide Leap, FromMarch, NextDay;
    var y := 400 * era + 100 * c + 4 * q + r;
    if days == 0 {
      EpochParts(era, c, q, r, doy);
    } else if doy > 0 {
      DateOfParts(days - 1, era, c, q, r, doy - 1);
      LeapOfParts(era, c, q, r);
      FromMarchStep(y, doy - 1);
    } else {
      FromMarchWraps(y - 1);
      var e', c', q', r' := era, c, q, r;
      if r > 0 {
        r' := r - 1;
      } else if q > 0 {
        q', r' := q - 1, 3;
      } else if c > 0 {
        c', q', r' := c - 1, 24, 3;
      } else {
        e', c', q', r' := era - 1, 3, 24, 3;
      }
      LeapOfParts(e', c', q', r');
      DateOfParts(days - 1, e', c', q', r', YearLength(c', q', r') - 1);
    }
  }

  /** Both copies compute the date reached by stepping one day at a time, for
      every day number, and the date is a real one. */
  lemma CivilIsTheCalendar(days: nat)
    ensures CivilFromDaysU64(days) == CivilFromDaysI64(days) == DateOf(days)
    ensures ValidDate(DateOf(days))
  {
    var z := days + 719468;
    var c, q, r, doy := EraParts(z % 146097);
    CivilOfParts(days, z / 146097, c, q, r, doy);
    DateOfParts(days, z / 146097, c, q, r, doy);
    DateOfValid(days);
  }

  /** Dates stay within four digits exactly until 9999-12-31. */
  lemma YearWithinFourDigits(days: nat)
    ensures DateOf(days).year <= 9999 <==> days < 2932897
    ensures DateOf(days).year >= 1970
  {
    DateOfParts(2932896, 24, 3, 24, 3, 305);
    DateOfParts(2932897, 24, 3, 24, 3, 306);
    if days < 2932896 {
      DateOfIncreases(days, 2932896);
    } else if days > 2932897 {
      DateOfIncreases(2932897, days);
    }
    if days > 0 {
      DateOfIncreases(0, days);
    }
  }

  /** On every u64 epoch the i64 copy stays inside i64. */
  lemma CivilFitsI64(secs: nat)
    requires secs < 0x1_0000_0000_0000_0000
    ensures secs / 86400 + 719468 < 0x8000_0000_0000_0000
    ensures DateOf(secs / 86400).year < 0x8000_0000_0000_0000
  {
    var days := secs / 86400;
    var z := days + 719468;
    var c, q, r, doy := EraParts(z % 146097);
    DateOfParts(days, z / 146097, c, q, r, doy);
  }
}
