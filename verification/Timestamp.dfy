/** ISO 8601 timestamps as batch_engine/src/db.rs writes them, and what comparing
    them as TEXT decides. SQL compares `next_retry_at`, `lease_expires_at` and
    `created_at` as strings, so the leases are only as good as this order. */
module Timestamp {
  import opened Arith
  import opened Text
  import opened Calendar

  /** 10000-01-01T00:00:00Z, the first instant whose year needs five digits. */
  const YEAR_10000: nat := 253402300800

  /** `a + b` on u64 as a release build computes it. */
  function WrappingAdd(a: nat, b: nat): nat {
    (a + b) % U64
  }

  lemma SumFits(a: nat, b: nat)
    requires a + b < YEAR_10000
    ensures WrappingAdd(a, b) == a + b
  {
  }

  function FieldsText(h: nat, m: nat, s: nat): string {
    Padded(h, 2) + (":" + (Padded(m, 2) + (":" + (Padded(s, 2) + "Z"))))
  }

  function ClockText(daySecs: nat): string {
    FieldsText(daySecs / 3600, daySecs % 3600 / 60, daySecs % 60)
  }

  function DateText(d: Date, rest: string): string {
    Padded(d.year, 4) + ("-" + (Padded(d.month, 2) + ("-" + (Padded(d.day, 2) + ("T" + rest)))))
  }

  /** `format_epoch_iso8601`. */
  function Format(secs: nat): string {
    DateText(CivilFromDaysI64(secs / 86400), ClockText(secs % 86400))
  }

  /** `epoch_to_iso8601`, the copy in the client crate. */
  function FormatClient(secs: nat): string {
    DateText(CivilFromDaysU64(secs / 86400), ClockText(secs % 86400))
  }

  /** `epoch_plus_hours_iso8601`. */
  function FormatPlusHours(epoch: nat, hours: nat): string {
    Format(WrappingAdd(epoch, hours * 3600 % U64))
  }

  lemma CopiesAgree(secs: nat)
    ensures Format(secs) == FormatClient(secs)
  {
    CivilIsTheCalendar(secs / 86400);
  }

  lemma LessAfterSeparator(c: char, s: string, t: string)
    ensures Less([c] + s, [c] + t) <==> Less(s, t)
  {
    assert ([c] + s)[1..] == s && ([c] + t)[1..] == t;
  }

  lemma FieldsOrder(h: nat, m: nat, s: nat, h': nat, m': nat, s': nat)
    requires h < 24 && m < 60 && s < 60 && h' < 24 && m' < 60 && s' < 60
    ensures Less(FieldsText(h, m, s), FieldsText(h', m', s'))
        <==> h < h' || (h == h' && (m < m' || (m == m' && s < s')))
  {
    var x, x' := Padded(s, 2) + "Z", Padded(s', 2) + "Z";
    var y, y' := Padded(m, 2) + (":" + x), Padded(m', 2) + (":" + x');
    LessPaddedTwo(s, s', "Z", "Z");
    LessIrreflexive("Z");
    LessAfterSeparator(':', x, x');
    LessPaddedTwo(m, m', ":" + x, ":" + x');
    LessAfterSeparator(':', y, y');
    LessPaddedTwo(h, h', ":" + y, ":" + y');
  }

  lemma ClockFields(a: nat)
    requires a < 86400
    ensures a / 3600 < 24 && a % 3600 / 60 < 60 && a % 60 < 60
    ensures a == 3600 * (a / 3600) + 60 * (a % 3600 / 60) + a % 60
  {
    assert a % 3600 == a - 3600 * (a / 3600);
    assert a % 60 == a % 3600 % 60;
  }

  lemma ClockOrder(a: nat, b: nat)
    requires a < 86400 && b < 86400
    ensures Less(ClockText(a), ClockText(b)) <==> a < b
  {
    ClockFields(a);
    ClockFields(b);
    FieldsOrder(a / 3600, a % 3600 / 60, a % 60, b / 3600, b % 3600 / 60, b % 60);
  }

  lemma DateOrder(x: Date, y: Date, s: string, t: string)
    requires ValidDate(x) && ValidDate(y) && x.year < 10000 && y.year < 10000
    ensures Less(DateText(x, s), DateText(y, t)) <==> Before(x, y) || (x == y && Less(s, t))
  {
    var dx, dy := Padded(x.day, 2) + ("T" + s), Padded(y.day, 2) + ("T" + t);
    var mx, my := Padded(x.month, 2) + ("-" + dx), Padded(y.month, 2) + ("-" + dy);
    LessAfterSeparator('T', s, t);
    LessPaddedTwo(x.day, y.day, "T" + s, "T" + t);
    LessAfterSeparator('-', dx, dy);
    LessPaddedTwo(x.month, y.month, "-" + dx, "-" + dy);
    LessAfterSeparator('-', mx, my);
    LessPaddedFour(x.year, y.year, "-" + mx, "-" + my);
  }

  lemma FormatIsCalendar(secs: nat)
    ensures Format(secs) == DateText(DateOf(secs / 86400), ClockText(secs % 86400))
    ensures ValidDate(DateOf(secs / 86400))
    ensures DateOf(secs / 86400).year < 10000 <==> secs < YEAR_10000
    ensures DateOf(secs / 86400).year >= 1970
  {
    CivilIsTheCalendar(secs / 86400);
    YearWithinFourDigits(secs / 86400);
  }

  lemma DaysThenSeconds(a: nat, b: nat)
    ensures a < b <==> a / 86400 < b / 86400 || (a / 86400 == b / 86400 && a % 86400 < b % 86400)
  {
  }

  /** Below year 10000, text order is time order. */
  lemma TextOrderIsTimeOrder(a: nat, b: nat)
    requires a < YEAR_10000 && b < YEAR_10000
    ensures Less(Format(a), Format(b)) <==> a < b
  {
    var x, y := a / 86400, b / 86400;
    FormatIsCalendar(a);
    FormatIsCalendar(b);
    DateOrder(DateOf(x), DateOf(y), ClockText(a % 86400), ClockText(b % 86400));
    ClockOrder(a % 86400, b % 86400);
    DaysThenSeconds(a, b);
    if x < y {
      DateOfIncreases(x, y);
    } else if y < x {
      DateOfIncreases(y, x);
    }
  }

  /** Below year 10000 the formatter is injective, so `<=` on text is `<=` on time. */
  lemma TextAtMostIsTimeAtMost(a: nat, b: nat)
    requires a < YEAR_10000 && b < YEAR_10000
    ensures LessEq(Format(a), Format(b)) <==> a <= b
  {
    TextOrderIsTimeOrder(a, b);
    TextOrderIsTimeOrder(b, a);
    LessIrreflexive(Format(a));
    LessTotal(Format(a), Format(b));
    if LessEq(Format(a), Format(b)) && Less(Format(b), Format(a)) && Format(a) != Format(b) {
      LessTransitive(Format(a), Format(b), Format(a));
    }
  }

  /** Exactly twenty characters, exactly until year 10000. */
  lemma TwentyCharacters(secs: nat)
    ensures |Format(secs)| == 20 <==> secs < YEAR_10000
  {
    FormatIsCalendar(secs);
    var d, t := DateOf(secs / 86400), secs % 86400;
    ClockFields(t);
    PaddedTwo(d.month);
    PaddedTwo(d.day);
    PaddedTwo(t / 3600);
    PaddedTwo(t % 3600 / 60);
    PaddedTwo(t % 60);
    if d.year < 10000 {
      PaddedFour(d.year);
    } else {
      FiveDigits(d.year);
    }
  }

  lemma FiveDigits(n: nat)
    requires n >= 10000
    ensures |Decimal(n)| >= 5
  {
    assert |Decimal(n)| == 1 + |Decimal(n / 10)|;
    assert |Decimal(n / 10)| == 1 + |Decimal(n / 10 / 10)|;
    assert |Decimal(n / 10 / 10)| == 1 + |Decimal(n / 10 / 10 / 10)|;
    assert n / 10 / 10 / 10 >= 10;
  }

  lemma TwoDigitsRead(n: nat)
    requires n < 100
    ensures |Padded(n, 2)| == 2 && ParseDecimal(Padded(n, 2)) == Some(n)
  {
    PaddedTwo(n);
    var s := Padded(n, 2);
    assert s[..1] == [Digit(n / 10)] && s[..1][..0] == "";
    assert ParseDecimal(s[..1]) == Some(n / 10);
  }

  lemma FourDigitsRead(n: nat)
    requires n < 10000
    ensures |Padded(n, 4)| == 4 && ParseDecimal(Padded(n, 4)) == Some(n)
  {
    PaddedFour(n);
    var s := Padded(n, 4);
    var a, b, c := Digit(n / 1000), Digit(n / 100 % 10), Digit(n / 10 % 10);
    assert s[..3] == [a, b, c] && [a, b, c][..2] == [a, b] && [a, b][..1] == [a] && [a][..0] == "";
    assert ParseDecimal([a]) == Some(n / 1000);
    assert ParseDecimal([a, b]) == Some(n / 100) by {
      assert 10 * (n / 1000) + n / 100 % 10 == n / 100;
    }
    assert ParseDecimal([a, b, c]) == Some(n / 10) by {
      assert 10 * (n / 100) + n / 10 % 10 == n / 10;
    }
  }

  lemma ClockReadBack(daySecs: nat)
    requires daySecs < 86400
    ensures var t := ClockText(daySecs);
            && |t| == 9 && t[2] == ':' && t[5] == ':' && t[8] == 'Z'
            && ParseDecimal(t[0..2]) == Some(daySecs / 3600)
            && ParseDecimal(t[3..5]) == Some(daySecs % 3600 / 60)
            && ParseDecimal(t[6..8]) == Some(daySecs % 60)
  {
    hide ParseDecimal, Padded;
    ClockFields(daySecs);
    TwoDigitsRead(daySecs / 3600);
    TwoDigitsRead(daySecs % 3600 / 60);
    TwoDigitsRead(daySecs % 60);
    var t := ClockText(daySecs);
    assert t[0..2] == Padded(daySecs / 3600, 2);
    assert t[3..5] == Padded(daySecs % 3600 / 60, 2);
    assert t[6..8] == Padded(daySecs % 60, 2);
  }

  lemma DateReadBack(d: Date, rest: string)
    requires ValidDate(d) && d.year < 10000
    ensures var t := DateText(d, rest);
            && |t| == 11 + |rest| && t[4] == '-' && t[7] == '-' && t[10] == 'T' && t[11..] == rest
            && ParseDecimal(t[0..4]) == Some(d.year) && ParseDecimal(t[5..7]) == Some(d.month)
            && ParseDecimal(t[8..10]) == Some(d.day)
  {
    hide ParseDecimal, Padded;
    FourDigitsRead(d.year);
    TwoDigitsRead(d.month);
    TwoDigitsRead(d.day);
    var t := DateText(d, rest);
    assert t[0..4] == Padded(d.year, 4);
    assert t[5..7] == Padded(d.month, 2);
    assert t[8..10] == Padded(d.day, 2);
  }

  /** Below year 10000 a timestamp reads back, field by field, as the calendar date of its
      day and the time of day. */
  lemma FieldsReadBack(secs: nat)
    requires secs < YEAR_10000
    ensures var t := Format(secs); var d := DateOf(secs / 86400);
            && |t| == 20 && t[4] == '-' && t[7] == '-' && t[10] == 'T' && t[13] == ':' && t[16] == ':' && t[19] == 'Z'
            && ParseDecimal(t[0..4]) == Some(d.year) && ParseDecimal(t[5..7]) == Some(d.month)
            && ParseDecimal(t[8..10]) == Some(d.day)
            && ParseDecimal(t[11..13]) == Some(secs / 3600 % 24)
            && ParseDecimal(t[14..16]) == Some(secs / 60 % 60)
            && ParseDecimal(t[17..19]) == Some(secs % 60)
  {
    FormatIsCalendar(secs);
    hide Format, ParseDecimal, DateText, ClockText;
    var c := ClockText(secs % 86400);
    DateReadBack(DateOf(secs / 86400), c);
    ClockReadBack(secs % 86400);
    TimeOfDay(secs);
    var t := Format(secs);
    assert t[11..] == c;
    assert t[11..13] == c[0..2] && t[14..16] == c[3..5] && t[17..19] == c[6..8];
    assert t[13] == c[2] && t[16] == c[5] && t[19] == c[8];
  }

  lemma Sixties(a: nat, r: nat)
    requires r < 60
    ensures (60 * a + r) / 60 == a && (60 * a + r) % 60 == r
  {
  }

  lemma Hours(a: nat, r: nat)
    requires r < 3600
    ensures (3600 * a + r) / 3600 == a
  {
  }

  lemma Days(a: nat, r: nat)
    requires r < 24
    ensures (24 * a + r) % 24 == r
  {
  }

  lemma TimeOfDay(secs: nat)
    ensures secs % 86400 / 3600 == secs / 3600 % 24
    ensures secs % 86400 % 3600 / 60 == secs / 60 % 60
    ensures secs % 86400 % 60 == secs % 60
  {
    var d, r := secs / 86400, secs % 86400;
    var h, m, s := r / 3600, r % 3600 / 60, r % 60;
    ClockFields(r);
    Sixties(60 * (24 * d + h) + m, s);
    Sixties(24 * d + h, m);
    Hours(24 * d + h, 60 * m + s);
    Days(d, h);
    assert secs == 60 * (60 * (24 * d + h) + m) + s == 3600 * (24 * d + h) + (60 * m + s);
  }

  // ---- past year 9999 -------------------------------------------------------

  ghost predicate OrderAgreesBelow(bound: nat) {
    forall a: nat, b: nat :: a < bound && b < bound ==> (Less(Format(a), Format(b)) <==> a < b)
  }

  /** The first four digits of a year. */
  function LeadingFour(year: nat): (p: nat)
    ensures p < 10000 && (year >= 1000 ==> p >= 1000)
  {
    if year < 10000 then year else LeadingFour(year / 10)
  }

  lemma FourDigitsPadNothing(n: nat)
    requires 1000 <= n
    ensures Padded(n, 4) == Decimal(n) && (n < 10000 ==> |Decimal(n)| == 4)
  {
    DecimalStep(n);
    DecimalStep(n / 10);
    DecimalStep(n / 100);
    DecimalStep(n / 1000);
  }

  /** A later year is written as its first four digits and at least one more. */
  lemma {:induction false} FarYearText(year: nat) returns (more: string)
    requires year >= 10000
    ensures Decimal(year) == Padded(LeadingFour(year), 4) + more && |more| > 0 && '0' <= more[0] <= '9'
  {
    DecimalStep(year);
    var d := [Digit(year % 10)];
    if year / 10 < 10000 {
      FourDigitsPadNothing(year / 10);
      more := d;
    } else {
      var most := FarYearText(year / 10);
      more := most + d;
      assert Decimal(year) == Padded(LeadingFour(year), 4) + most + d;
    }
  }

  lemma DigitAfterDash(more: string, s: string, t: string)
    requires |more| > 0 && '0' <= more[0] <= '9'
    ensures !Less(more + s, "-" + t) && Less("-" + t, more + s)
  {
    assert (more + s)[0] == more[0] && ("-" + t)[0] == '-';
  }

  lemma FarYearSorts(far: nat, year: nat, s: string, t: string)
    requires year < 10000 <= far
    ensures Less(Padded(far, 4) + s, Padded(year, 4) + ("-" + t)) <==> LeadingFour(far) < year
    ensures Less(Padded(year, 4) + ("-" + t), Padded(far, 4) + s) <==> LeadingFour(far) >= year
  {
    hide Padded, Decimal, Less;
    FourDigitsPadNothing(far);
    var more := FarYearText(far);
    Associative(Padded(LeadingFour(far), 4), more, s);
    LessPaddedFour(LeadingFour(far), year, more + s, "-" + t);
    LessPaddedFour(year, LeadingFour(far), "-" + t, more + s);
    DigitAfterDash(more, s, t);
  }

  function YearOf(secs: nat): nat {
    DateOf(secs / 86400).year
  }

  /** A time past year 9999 sorts before one that is not exactly when the first four
      digits of its year are a smaller number than the other year. */
  lemma FarTimeSorts(a: nat, b: nat)
    requires a < YEAR_10000 <= b
    ensures Less(Format(b), Format(a)) <==> LeadingFour(YearOf(b)) < YearOf(a)
    ensures Less(Format(a), Format(b)) <==> LeadingFour(YearOf(b)) >= YearOf(a)
  {
    FormatIsCalendar(a);
    FormatIsCalendar(b);
    var x, y := DateOf(a / 86400), DateOf(b / 86400);
    var s := "-" + (Padded(y.month, 2) + ("-" + (Padded(y.day, 2) + ("T" + ClockText(b % 86400)))));
    var t := Padded(x.month, 2) + ("-" + (Padded(x.day, 2) + ("T" + ClockText(a % 86400))));
    FarYearSorts(y.year, x.year, s, t);
  }

  /** On the first day of year 10000 every four-digit timestamp sorts after. */
  lemma Year10000SortsFirst(a: nat, b: nat)
    requires a < YEAR_10000 <= b < YEAR_10000 + 86400
    ensures Less(Format(b), Format(a)) && !Less(Format(a), Format(b))
  {
    hide Format, Less;
    assert b / 86400 == 2932897;
    DateOfParts(2932897, 24, 3, 24, 3, 306);
    assert LeadingFour(10000) == 1000;
    FormatIsCalendar(a);
    FarTimeSorts(a, b);
  }

  /** The bound is exact: text order is time order on [0, bound) if and only if
      the bound is at most the start of year 10000. */
  lemma OrderAgreesExactly(bound: nat)
    ensures OrderAgreesBelow(bound) <==> bound <= YEAR_10000
  {
    if bound <= YEAR_10000 {
      forall a: nat, b: nat | a < bound && b < bound
        ensures Less(Format(a), Format(b)) <==> a < b
      {
        TextOrderIsTimeOrder(a, b);
      }
    } else {
      Year10000SortsFirst(YEAR_10000 - 1, YEAR_10000);
      assert !(Less(Format(YEAR_10000 - 1), Format(YEAR_10000)) <==> YEAR_10000 - 1 < YEAR_10000);
    }
  }

  /** When the reclaim query's `lease_expires_at < now` holds for a lease that
      expires at `expiry`: after that instant, or at once when the expiry already
      falls in year 10000. */
  lemma ExpiryTest(expiry: nat, now: nat)
    requires expiry < YEAR_10000 + 86400 && now < YEAR_10000
    ensures Less(Format(expiry), Format(now)) <==> expiry < now || expiry >= YEAR_10000
  {
    if expiry < YEAR_10000 {
      TextOrderIsTimeOrder(expiry, now);
    } else {
      Year10000SortsFirst(now, expiry);
    }
  }

  /** A job's `expires_at`, 24 hours on, sorts after its `created_at` exactly while
      it still falls before year 10000. */
  lemma ExpiresAfterCreation(epoch: nat)
    requires epoch < YEAR_10000
    ensures Less(Format(epoch), FormatPlusHours(epoch, 24)) <==> epoch + 24 * 3600 < YEAR_10000
  {
    hide Format, Less;
    if epoch + 86400 < YEAR_10000 {
      TextOrderIsTimeOrder(epoch, epoch + 86400);
    } else {
      Year10000SortsFirst(epoch, epoch + 86400);
    }
  }
}
