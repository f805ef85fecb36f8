/** Day numbers and dates of the proleptic Gregorian calendar (civil and days_of of mc/mc.c). */
module Calendar {
  const MIN_INT := -0x8000_0000
  const MAX_INT := 0x7FFF_FFFF
  const SHIFT := 719468

  datatype Date = Date(year: int, month: int, day: int)

  /* ---- the calendar ---- */

  predicate Leap(y: int) {
    y % 4 == 0 && (y % 100 != 0 || y % 400 == 0)
  }

  function MonthDays(y: int, m: int): int {
    if m == 2 then (if Leap(y) then 29 else 28)
    else if m == 4 || m == 6 || m == 9 || m == 11 then 30
    else 31
  }

  predicate ValidDate(t: Date) {
    1 <= t.month <= 12 && 1 <= t.day <= MonthDays(t.year, t.month)
  }

  function NextDate(t: Date): Date {
    if t.day < MonthDays(t.year, t.month) then t.(day := t.day + 1)
    else if t.month < 12 then Date(t.year, t.month + 1, 1)
    else Date(t.year + 1, 1, 1)
  }

  /* ---- the functions ---- */

  /** C's division: towards zero. */
  function Div(a: int, b: int): int
    requires b > 0
  {
    if a >= 0 then a / b else -((-a) / b)
  }

  function YearOfEra(doe: int): int {
    (doe - doe / 1460 + doe / 36524 - doe / 146096) / 365
  }

  /** The first day of the mp-th month, counted from March. */
  function MonthStart(mp: int): int {
    (153 * mp + 2) / 5
  }

  function YearStart(yoe: int): int {
    365 * yoe + yoe / 4 - yoe / 100
  }

  function Civil(z0: int): Date {
    var z := z0 + SHIFT;
    var era := Div(if z >= 0 then z else z - 146096, 146097);
    var doe := z - era * 146097;
    var yoe := YearOfEra(doe);
    var doy := doe - YearStart(yoe);
    var mp := (5 * doy + 2) / 153;
    var m := if mp < 10 then mp + 3 else mp - 9;
    Date(yoe + era * 400 + (if m <= 2 then 1 else 0), m, doy - MonthStart(mp) + 1)
  }

  function DaysOf(t: Date): int {
    var y := t.year - (if t.month <= 2 then 1 else 0);
    var era := Div(if y >= 0 then y else y - 399, 400);
    var yoe := y - era * 400;
    var doy := MonthStart(if t.month > 2 then t.month - 3 else t.month + 9) + t.day - 1;
    era * 146097 + (YearStart(yoe) + doy) - SHIFT
  }

  /* ---- eras, years and months ---- */

  lemma EraOf(z: int)
    ensures var era := Div(if z >= 0 then z else z - 146096, 146097); 0 <= z - era * 146097 < 146097
  {
  }

  lemma EraOfYear(y: int)
    ensures var era := Div(if y >= 0 then y else y - 399, 400); 0 <= y - era * 400 < 400
  {
  }

  lemma SameEra(a: int, x: int, b: int, y: int, n: int)
    requires n > 0 && a * n + x == b * n + y && 0 <= x < n && 0 <= y < n
    ensures a == b && x == y
  {
    if a < b { Multiples(a, b, n); }
    if b < a { Multiples(b, a, n); }
  }

  lemma Multiples(a: int, b: int, n: int)
    requires a < b && n > 0
    ensures a * n + n <= b * n
  {
    assert (b - a - 1) * n >= 0;
    assert (b - a - 1) * n == b * n - a * n - n;
  }

  /** The year that is in the c-th century, the q-th four years of it, and the s-th of those, of the era. */
  function YearIn(c: int, q: int, s: int): int {
    100 * c + 4 * q + s
  }

  /** The last day of a year from March to February is its 366th only before a leap year's March. */
  predicate DayOfYear(c: int, q: int, s: int, k: int) {
    && 0 <= c < 4 && 0 <= q < 25 && 0 <= s < 4 && 0 <= k
    && (k <= 364 || (k == 365 && s == 3 && (q < 24 || c == 3)))
  }

  lemma YearStartIs(c: int, q: int, s: int)
    requires 0 <= c < 4 && 0 <= q < 25 && 0 <= s < 4
    ensures YearStart(YearIn(c, q, s)) == 36524 * c + 1461 * q + 365 * s && 0 <= YearIn(c, q, s) < 400
  {
    var y := YearIn(c, q, s);
    assert y / 4 == 25 * c + q;
    assert y / 100 == c;
  }

  /** The quotients that YearOfEra is made of. */
  lemma Quotients(c: int, q: int, s: int, k: int)
    requires DayOfYear(c, q, s, k)
    ensures var doe := 36524 * c + 1461 * q + 365 * s + k;
            var late := 24 * c + q + 365 * s + k >= 1460;
            && doe / 1460 == 25 * c + q + (if late then 1 else 0)
            && doe / 36524 - doe / 146096 == c
            && (late ==> k >= 1) && (k == 365 ==> late)
  {
  }

  lemma YearFound(c: int, q: int, s: int, k: int)
    requires DayOfYear(c, q, s, k)
    ensures YearOfEra(36524 * c + 1461 * q + 365 * s + k) == YearIn(c, q, s)
  {
    Quotients(c, q, s, k);
  }

  /** Every day of an era is a day of one of its years. */
  lemma DayPlaced(doe: int) returns (c: int, q: int, s: int, k: int)
    requires 0 <= doe < 146097
    ensures DayOfYear(c, q, s, k) && doe == 36524 * c + 1461 * q + 365 * s + k
  {
    c := if doe >= 109572 then 3 else doe / 36524;
    var r := doe - 36524 * c;
    q := r / 1461;
    var t := r - 1461 * q;
    s := if t >= 1095 then 3 else t / 365;
    k := t - 365 * s;
  }

  /** How long a month counted from March can be. */
  function LengthFromMarch(mp: int): int {
    if mp == 1 || mp == 3 || mp == 6 || mp == 8 then 30 else if mp == 11 then 29 else 31
  }

  lemma MonthFound(mp: int, d: int)
    requires 0 <= mp <= 11 && 1 <= d <= LengthFromMarch(mp)
    ensures (5 * (MonthStart(mp) + d - 1) + 2) / 153 == mp
    ensures mp < 11 ==> MonthStart(mp + 1) == MonthStart(mp) + LengthFromMarch(mp)
    ensures MonthStart(0) == 0 && MonthStart(11) == 337
  {
  }

  /** The sum of the months before, rounded as MonthStart rounds. */
  lemma MonthBounds(doy: int, mp: int)
    requires 153 * mp <= 5 * doy + 2 < 153 * mp + 153
    ensures MonthStart(mp) <= doy < MonthStart(mp + 1)
  {
  }

  lemma DayInMonth(doy: int)
    requires 0 <= doy <= 365
    ensures var mp := (5 * doy + 2) / 153;
            0 <= mp <= 11 && MonthStart(mp) <= doy < MonthStart(mp) + LengthFromMarch(mp)
  {
    var mp := (5 * doy + 2) / 153;
    assert 153 * mp <= 5 * doy + 2 < 153 * mp + 153;
    MonthFound(mp, 1);
    MonthBounds(doy, mp);
  }

  /** February's 29th, and the year that it is in. */
  lemma LeapPlaced(era: int, c: int, q: int, s: int)
    requires 0 <= c < 4 && 0 <= q < 25 && 0 <= s < 4
    ensures Leap(400 * era + YearIn(c, q, s) + 1) <==> s == 3 && (q < 24 || c == 3)
  {
    var y := 400 * era + YearIn(c, q, s) + 1;
    if s < 3 {
      Remainder4(y, 100 * era + 25 * c + q, s + 1);
    } else {
      Remainder4(y, 100 * era + 25 * c + q + 1, 0);
      if q < 24 {
        Remainder100(y, 4 * era + c, 4 * (q + 1));
      } else {
        Remainder100(y, 4 * era + c + 1, 0);
        if c < 3 { Remainder400(y, era, 100 * (c + 1)); } else { Remainder400(y, era + 1, 0); }
      }
    }
  }

  lemma Remainder4(y: int, a: int, r: int)
    requires y == 4 * a + r && 0 <= r < 4
    ensures y % 4 == r
  {
  }

  lemma Remainder100(y: int, a: int, r: int)
    requires y == 100 * a + r && 0 <= r < 100
    ensures y % 100 == r
  {
  }

  lemma Remainder400(y: int, a: int, r: int)
    requires y == 400 * a + r && 0 <= r < 400
    ensures y % 400 == r
  {
  }

  /* ---- inverse to each other ---- */

  /** The year a day is in, counted from March, and the month of that year. */
  lemma CivilPlaced(z: int) returns (era: int, c: int, q: int, s: int, k: int, mp: int)
    ensures DayOfYear(c, q, s, k) && z + SHIFT == era * 146097 + (36524 * c + 1461 * q + 365 * s + k)
    ensures 0 <= mp <= 11 && MonthStart(mp) <= k < MonthStart(mp) + LengthFromMarch(mp)
    ensures Civil(z) == FromMarch(era * 400 + YearIn(c, q, s), mp, k - MonthStart(mp) + 1)
  {
    hide YearOfEra, YearStart, MonthStart, Div, DayOfYear, Civil, FromMarch, LengthFromMarch, YearIn;
    var n := z + SHIFT;
    EraOf(n);
    era := Div(if n >= 0 then n else n - 146096, 146097);
    c, q, s, k := DayPlaced(n - era * 146097);
    Bounded(c, q, s, k);
    YearFound(c, q, s, k);
    YearStartIs(c, q, s);
    DayInMonth(k);
    mp := (5 * k + 2) / 153;
    CivilIs(z, era, YearIn(c, q, s), k, mp);
  }

  lemma CivilIs(z: int, era: int, yoe: int, k: int, mp: int)
    requires era == Div(if z + SHIFT >= 0 then z + SHIFT else z + SHIFT - 146096, 146097)
    requires yoe == YearOfEra(z + SHIFT - era * 146097) && k == z + SHIFT - era * 146097 - YearStart(yoe)
             && mp == (5 * k + 2) / 153
    ensures Civil(z) == FromMarch(era * 400 + yoe, mp, k - MonthStart(mp) + 1)
  {
    hide Div, YearOfEra, YearStart, MonthStart;
  }

  lemma Bounded(c: int, q: int, s: int, k: int)
    requires DayOfYear(c, q, s, k)
    ensures 0 <= c < 4 && 0 <= q < 25 && 0 <= s < 4 && 0 <= k <= 365
  {
  }

  /** A date given by the year and the month counted from March. */
  function FromMarch(y: int, mp: int, d: int): Date {
    var m := if mp < 10 then mp + 3 else mp - 9;
    Date(y + (if m <= 2 then 1 else 0), m, d)
  }

  lemma FromMarchValid(era: int, c: int, q: int, s: int, k: int, mp: int)
    requires DayOfYear(c, q, s, k) && 0 <= mp <= 11 && MonthStart(mp) <= k < MonthStart(mp) + LengthFromMarch(mp)
    ensures ValidDate(FromMarch(era * 400 + YearIn(c, q, s), mp, k - MonthStart(mp) + 1))
  {
    hide Leap, MonthStart;
    LeapPlaced(era, c, q, s);
    FebruaryEnd();
  }

  lemma DaysOfFromMarch(era: int, yoe: int, mp: int, d: int)
    requires 0 <= yoe < 400 && 0 <= mp <= 11
    ensures DaysOf(FromMarch(era * 400 + yoe, mp, d))
            == era * 146097 + (YearStart(yoe) + MonthStart(mp) + d - 1) - SHIFT
  {
    hide Div, YearStart, MonthStart;
    var y := era * 400 + yoe;
    EraOfYear(y);
    var e := Div(if y >= 0 then y else y - 399, 400);
    SameEra(e, y - e * 400, era, yoe, 400);
  }

  /** civil gives a date of the calendar, and days_of takes it back. */
  lemma DaysOfCivil(z: int)
    ensures ValidDate(Civil(z)) && DaysOf(Civil(z)) == z
  {
    hide *;
    var era, c, q, s, k, mp := CivilPlaced(z);
    var t := FromMarch(era * 400 + YearIn(c, q, s), mp, k - MonthStart(mp) + 1);
    assert t == Civil(z);
    FromMarchValid(era, c, q, s, k, mp);
    Bounded(c, q, s, k);
    YearStartIs(c, q, s);
    DaysOfFromMarch(era, YearIn(c, q, s), mp, k - MonthStart(mp) + 1);
    assert DaysOf(t) == era * 146097 + (YearStart(YearIn(c, q, s)) + k) - SHIFT;
  }

  lemma FebruaryEnd()
    ensures MonthStart(11) == 337 && MonthStart(0) == 0
  {
  }

  /** The place in the era of a date of the calendar. */
  lemma DatePlaced(t: Date) returns (era: int, c: int, q: int, s: int, k: int, mp: int)
    requires ValidDate(t)
    ensures DayOfYear(c, q, s, k) && DaysOf(t) == era * 146097 + (36524 * c + 1461 * q + 365 * s + k) - SHIFT
    ensures 0 <= mp <= 11 && 1 <= t.day <= LengthFromMarch(mp) && k == MonthStart(mp) + t.day - 1
    ensures t == FromMarch(era * 400 + YearIn(c, q, s), mp, t.day)
  {
    hide *;
    var y := t.year - (if t.month <= 2 then 1 else 0);
    EraOfYear(y);
    era := Div(if y >= 0 then y else y - 399, 400);
    c, q, s := YearDigits(y - era * 400);
    ValidMonth(t);
    mp := if t.month > 2 then t.month - 3 else t.month + 9;
    k := MonthStart(mp) + t.day - 1;
    FromMarchOf(t, mp);
    var yoe := YearIn(c, q, s);
    assert t == FromMarch(era * 400 + yoe, mp, t.day);
    DayPlacedInYear(era, c, q, s, t);
    YearStartIs(c, q, s);
    DaysOfFromMarch(era, yoe, mp, t.day);
    assert DaysOf(t) == era * 146097 + (YearStart(yoe) + k) - SHIFT;
  }

  lemma ValidMonth(t: Date)
    requires ValidDate(t)
    ensures 1 <= t.month <= 12
  {
  }

  lemma YearDigits(yoe: int) returns (c: int, q: int, s: int)
    requires 0 <= yoe < 400
    ensures 0 <= c < 4 && 0 <= q < 25 && 0 <= s < 4 && yoe == YearIn(c, q, s)
  {
    c, q, s := yoe / 100, yoe % 100 / 4, yoe % 4;
  }

  lemma FromMarchOf(t: Date, mp: int)
    requires 1 <= t.month <= 12 && mp == if t.month > 2 then t.month - 3 else t.month + 9
    ensures t == FromMarch(t.year - (if t.month <= 2 then 1 else 0), mp, t.day)
  {
  }

  lemma DayPlacedInYear(era: int, c: int, q: int, s: int, t: Date)
    requires ValidDate(t) && 0 <= c < 4 && 0 <= q < 25 && 0 <= s < 4
    requires t.year - (if t.month <= 2 then 1 else 0) == era * 400 + YearIn(c, q, s)
    ensures var mp := if t.month > 2 then t.month - 3 else t.month + 9;
            1 <= t.day <= LengthFromMarch(mp) && DayOfYear(c, q, s, MonthStart(mp) + t.day - 1)
  {
    hide Leap, MonthStart, YearIn;
    LeapPlaced(era, c, q, s);
    assert t.month <= 2 ==> t.year == 400 * era + YearIn(c, q, s) + 1;
    FebruaryEnd();
    var mp := if t.month > 2 then t.month - 3 else t.month + 9;
    if mp < 11 { MonthWithinYear(mp); }
  }

  lemma MonthWithinYear(mp: int)
    requires 0 <= mp < 11
    ensures 0 <= MonthStart(mp) && MonthStart(mp) + LengthFromMarch(mp) <= 337
  {
  }

  /** days_of gives every date of the calendar its own day, and civil takes it back. */
  lemma CivilOfDays(t: Date)
    requires ValidDate(t)
    ensures Civil(DaysOf(t)) == t
  {
    hide *;
    var era, c, q, s, k, mp := DatePlaced(t);
    var u := FromMarch(era * 400 + YearIn(c, q, s), mp, t.day);
    assert t == u;
    var e, c', q', s', k', mp' := CivilPlaced(DaysOf(t));
    var u' := FromMarch(e * 400 + YearIn(c', q', s'), mp', k' - MonthStart(mp') + 1);
    assert Civil(DaysOf(t)) == u';
    DayBounds(c, q, s, k);
    DayBounds(c', q', s', k');
    SameEra(e, 36524 * c' + 1461 * q' + 365 * s' + k', era, 36524 * c + 1461 * q + 365 * s + k, 146097);
    YearFound(c, q, s, k);
    YearFound(c', q', s', k');
    assert YearIn(c, q, s) == YearIn(c', q', s');
    YearStartIs(c, q, s);
    YearStartIs(c', q', s');
    assert k == k';
    MonthFound(mp, t.day);
    MonthFound(mp', k' - MonthStart(mp') + 1);
    assert mp == mp';
  }

  lemma DayBounds(c: int, q: int, s: int, k: int)
    requires DayOfYear(c, q, s, k)
    ensures 0 <= c < 4 && 0 <= q < 25 && 0 <= s < 4 && 0 <= 36524 * c + 1461 * q + 365 * s + k < 146097
  {
  }

  /** Day 0 is 1 January 1970, and the next day's number is the next: the two together say what days_of is. */
  lemma DaysGoUpByOne(t: Date)
    requires ValidDate(t)
    ensures ValidDate(NextDate(t)) && DaysOf(NextDate(t)) == DaysOf(t) + 1
    ensures DaysOf(Date(1970, 1, 1)) == 0
  {
    hide Leap, DaysOf, MonthStart, YearStart;
    var era, c, q, s, k, mp := DatePlaced(t);
    LeapPlaced(era, c, q, s);
    EpochIsZero();
    FebruaryEnd();
    NextValid(t);
    var era', c', q', s', k', mp' := DatePlaced(NextDate(t));
    MonthFound(mp, t.day);
    if NextDate(t).month == 3 && NextDate(t).day == 1 {
      YearAfter(era, c, q, s, era', c', q', s');
    } else {
      SameEra(era, YearIn(c, q, s), era', YearIn(c', q', s'), 400);
      SameYear(c, q, s, c', q', s');
    }
  }

  lemma NextValid(t: Date)
    requires ValidDate(t)
    ensures ValidDate(NextDate(t))
  {
    hide Leap;
  }

  lemma SameYear(c: int, q: int, s: int, c': int, q': int, s': int)
    requires 0 <= c < 4 && 0 <= q < 25 && 0 <= s < 4 && 0 <= c' < 4 && 0 <= q' < 25 && 0 <= s' < 4
    requires YearIn(c, q, s) == YearIn(c', q', s')
    ensures c == c' && q == q' && s == s'
  {
  }

  lemma EpochIsZero()
    ensures DaysOf(Date(1970, 1, 1)) == 0
  {
  }

  /** From one March to the next. */
  lemma YearAfter(era: int, c: int, q: int, s: int, era': int, c': int, q': int, s': int)
    requires 0 <= c < 4 && 0 <= q < 25 && 0 <= s < 4 && 0 <= c' < 4 && 0 <= q' < 25 && 0 <= s' < 4
    requires era' * 400 + YearIn(c', q', s') == era * 400 + YearIn(c, q, s) + 1
    ensures era' * 146097 + (36524 * c' + 1461 * q' + 365 * s')
            == era * 146097 + (36524 * c + 1461 * q + 365 * s) + (if s == 3 && (q < 24 || c == 3) then 366 else 365)
  {
    if YearIn(c, q, s) < 399 {
      SameEra(era', YearIn(c', q', s'), era, YearIn(c, q, s) + 1, 400);
    } else {
      SameEra(era', YearIn(c', q', s'), era + 1, 0, 400);
    }
  }

  /* ---- 32 bits ---- */

  predicate Fits(n: int) {
    MIN_INT <= n <= MAX_INT
  }

  /** The days that civil can add its shift to. */
  predicate InRange(z: int) {
    MIN_INT <= z && z + SHIFT <= MAX_INT
  }

  /** Over the whole range no step of either function leaves 32 bits. */
  lemma NoOverflow(z: int)
    requires InRange(z)
    ensures var n := z + SHIFT;
            var era := Div(if n >= 0 then n else n - 146096, 146097);
            Fits(n) && Fits(n - 146096) && Fits(era * 146097) && Fits(era * 400 + 400) && Fits(era * 400 - 400)
    ensures var t := Civil(z);
            var y := t.year - (if t.month <= 2 then 1 else 0);
            var era := Div(if y >= 0 then y else y - 399, 400);
            Fits(t.year) && Fits(y) && Fits(y - 399) && Fits(era * 400) && Fits(era * 146097)
            && Fits(DaysOf(t) + SHIFT) && Fits(DaysOf(t))
  {
    hide Div, YearOfEra, YearStart, MonthStart;
    var n := z + SHIFT;
    EraOf(n);
    var era := Div(if n >= 0 then n else n - 146096, 146097);
    DaysOfCivil(z);
    var t := Civil(z);
    var e, c, q, s, k, mp := DatePlaced(t);
    SameEra(e, 36524 * c + 1461 * q + 365 * s + k, era, n - era * 146097, 146097);
    var y := t.year - (if t.month <= 2 then 1 else 0);
    EraOfYear(y);
    var ey := Div(if y >= 0 then y else y - 399, 400);
    SameEra(ey, y - ey * 400, e, YearIn(c, q, s), 400);
  }
}
