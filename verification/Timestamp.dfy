/** The timestamps of model/model.go. Section 5.1 of RFC 3339 asks that text
    order be time order; the fixed-width fraction is what makes that so. */
module Timestamp {
  import opened Base
  import opened Text

  // ----- The calendar -----

  predicate Leap(y: nat) {
    y % 4 == 0 && (y % 100 != 0 || y % 400 == 0)
  }

  function YearLen(y: nat): nat {
    if Leap(y) then 366 else 365
  }

  function MonthLen(y: nat, m: nat): (n: nat)
    requires 1 <= m <= 12
    ensures 28 <= n <= 31
  {
    if m == 2 then (if Leap(y) then 29 else 28)
    else if m == 4 || m == 6 || m == 9 || m == 11 then 30
    else 31
  }

  datatype Date = Date(year: nat, month: nat, day: nat)

  predicate ValidDate(d: Date) {
    1 <= d.month <= 12 && 1 <= d.day <= MonthLen(d.year, d.month)
  }

  function DaysBeforeYear(y: nat): nat {
    if y == 0 then 0 else DaysBeforeYear(y - 1) + YearLen(y - 1)
  }

  function DaysBeforeMonth(y: nat, m: nat): nat
    requires 1 <= m <= 13
  {
    if m == 1 then 0 else DaysBeforeMonth(y, m - 1) + MonthLen(y, m - 1)
  }

  /** The number of a day, counted from 1 January of year 0. */
  function DayNumber(d: Date): nat
    requires ValidDate(d)
  {
    DaysBeforeYear(d.year) + DaysBeforeMonth(d.year, d.month) + d.day - 1
  }

  function FindYear(n: nat, y: nat): nat
    requires DaysBeforeYear(y) <= n
    decreases n - DaysBeforeYear(y)
  {
    if n < DaysBeforeYear(y + 1) then y else FindYear(n, y + 1)
  }

  function FindMonth(y: nat, n: nat, m: nat): nat
    requires 1 <= m <= 12
    decreases 12 - m
  {
    if m == 12 || n < DaysBeforeMonth(y, m + 1) then m else FindMonth(y, n, m + 1)
  }

  function CivilDate(n: nat): Date {
    var y := FindYear(n, 0);
    YearFound(n, 0);
    var m := FindMonth(y, n - DaysBeforeYear(y), 1);
    MonthFound(y, n - DaysBeforeYear(y), 1);
    Date(y, m, n - DaysBeforeYear(y) - DaysBeforeMonth(y, m) + 1)
  }

  lemma {:induction false} YearFound(n: nat, y: nat)
    requires DaysBeforeYear(y) <= n
    ensures DaysBeforeYear(FindYear(n, y)) <= n < DaysBeforeYear(FindYear(n, y) + 1)
    decreases n - DaysBeforeYear(y)
  {
    if n >= DaysBeforeYear(y + 1) {
      YearFound(n, y + 1);
    }
  }

  lemma {:induction false} MonthFound(y: nat, n: nat, m: nat)
    requires 1 <= m <= 12 && DaysBeforeMonth(y, m) <= n
    ensures m <= FindMonth(y, n, m) <= 12 && DaysBeforeMonth(y, FindMonth(y, n, m)) <= n
    ensures n < DaysBeforeMonth(y, 13) ==> n < DaysBeforeMonth(y, FindMonth(y, n, m) + 1)
    decreases 12 - m
  {
    if m != 12 && n >= DaysBeforeMonth(y, m + 1) {
      MonthFound(y, n, m + 1);
    }
  }

  lemma MonthsFillYear(y: nat)
    ensures DaysBeforeMonth(y, 13) == YearLen(y)
  {
    var feb := MonthLen(y, 2);
    assert DaysBeforeMonth(y, 2) == 31;
    assert DaysBeforeMonth(y, 3) == 31 + feb;
    assert DaysBeforeMonth(y, 4) == 62 + feb;
    assert DaysBeforeMonth(y, 5) == 92 + feb;
    assert DaysBeforeMonth(y, 6) == 123 + feb;
    assert DaysBeforeMonth(y, 7) == 153 + feb;
    assert DaysBeforeMonth(y, 8) == 184 + feb;
    assert DaysBeforeMonth(y, 9) == 215 + feb;
    assert DaysBeforeMonth(y, 10) == 245 + feb;
    assert DaysBeforeMonth(y, 11) == 276 + feb;
    assert DaysBeforeMonth(y, 12) == 306 + feb;
  }

  lemma {:induction false} YearsIncrease(a: nat, b: nat)
    requires a < b
    ensures DaysBeforeYear(a) + YearLen(a) <= DaysBeforeYear(b)
    decreases b
  {
    if a < b - 1 {
      YearsIncrease(a, b - 1);
    }
  }

  lemma {:induction false} MonthsIncrease(y: nat, a: nat, b: nat)
    requires 1 <= a < b <= 13
    ensures DaysBeforeMonth(y, a) + MonthLen(y, a) <= DaysBeforeMonth(y, b)
    decreases b
  {
    if a < b - 1 {
      MonthsIncrease(y, a, b - 1);
    }
  }

  function DateFields(d: Date): seq<nat> {
    [d.year, d.month, d.day]
  }

  lemma DayInYear(d: Date)
    requires ValidDate(d)
    ensures DaysBeforeYear(d.year) <= DayNumber(d) < DaysBeforeYear(d.year) + YearLen(d.year)
  {
    MonthsIncrease(d.year, d.month, 13);
    MonthsFillYear(d.year);
  }

  /** An earlier date, field by field, is an earlier day. */
  lemma DateOrder(a: Date, b: Date)
    requires ValidDate(a) && ValidDate(b)
    requires a.year < b.year || (a.year == b.year && (a.month < b.month || (a.month == b.month && a.day < b.day)))
    ensures DayNumber(a) < DayNumber(b)
  {
    DayInYear(a);
    DayInYear(b);
    if a.year < b.year {
      YearsIncrease(a.year, b.year);
    } else if a.month < b.month {
      MonthsIncrease(a.year, a.month, b.month);
    }
  }

  /** Numbering days and dating them are inverse. */
  lemma CivilDateOf(n: nat)
    ensures ValidDate(CivilDate(n)) && DayNumber(CivilDate(n)) == n
  {
    YearFound(n, 0);
    var y := FindYear(n, 0);
    MonthsFillYear(y);
    MonthFound(y, n - DaysBeforeYear(y), 1);
  }

  lemma DateOfDay(d: Date)
    requires ValidDate(d)
    ensures CivilDate(DayNumber(d)) == d
  {
    var e := CivilDate(DayNumber(d));
    CivilDateOf(DayNumber(d));
    if e != d {
      if e.year < d.year || (e.year == d.year && (e.month < d.month || (e.month == d.month && e.day < d.day))) {
        DateOrder(e, d);
      } else {
        DateOrder(d, e);
      }
    }
  }

  function DaysBeforeYearClosed(y: nat): nat {
    365 * y + (y + 3) / 4 - (y + 99) / 100 + (y + 399) / 400
  }

  /** Rounding up grows by one just past each multiple. */
  lemma RoundUp(z: nat, k: nat)
    requires k > 0
    ensures (z + k) / k == (z + (k - 1)) / k + if z % k == 0 then 1 else 0
  {
    var q, r := z / k, z % k;
    assert (q + 1) * k == q * k + k;
    DivModUnique(z + k, k, q + 1, r);
    if r == 0 {
      DivModUnique(z + (k - 1), k, q, k - 1);
    } else {
      DivModUnique(z + (k - 1), k, q + 1, r - 1);
    }
  }

  lemma MultipleOf(z: nat, a: nat, b: nat)
    requires a > 0 && b > 0 && a * b > 0
    ensures z % (a * b) == 0 ==> z % a == 0
  {
    if z % (a * b) == 0 {
      var q := z / (a * b);
      assert (b * q) * a == q * (a * b);
      DivModUnique(z, a, b * q, 0);
    }
  }

  lemma {:induction false} ClosedForm(y: nat)
    ensures DaysBeforeYear(y) == DaysBeforeYearClosed(y)
  {
    if y > 0 {
      ClosedForm(y - 1);
      RoundUp(y - 1, 4);
      RoundUp(y - 1, 100);
      RoundUp(y - 1, 400);
      MultipleOf(y - 1, 4, 25);
      MultipleOf(y - 1, 100, 4);
    }
  }

  // ----- Instants -----

  const DAY: int := 86400 * SECOND
  /** Days from 1 January of year 0 to the Unix epoch. */
  const EPOCH_DAYS := 719_528
  const MIN_INSTANT: int := -EPOCH_DAYS * DAY
  const MAX_INSTANT: int := (3_652_425 - EPOCH_DAYS) * DAY

  /** An instant of years 0..9999 UTC, in nanoseconds since the Unix epoch. */
  type Instant = t: int | MIN_INSTANT <= t < MAX_INSTANT

  lemma EpochAndBounds()
    ensures DayNumber(Date(1970, 1, 1)) == EPOCH_DAYS
    ensures DaysBeforeYear(10000) == 3_652_425
  {
    ClosedForm(1970);
    ClosedForm(10000);
  }

  function DayOf(t: Instant): nat {
    (t - MIN_INSTANT) / DAY
  }

  function NanoOfDay(t: Instant): (n: nat)
    ensures n < DAY
  {
    (t - MIN_INSTANT) % DAY
  }

  function ClockFields(n: nat): seq<nat>
    requires n < DAY
  {
    [n / SECOND / 3600, n / SECOND / 60 % 60, n / SECOND % 60]
  }

  function SecondFields(t: Instant): seq<nat> {
    DateFields(CivilDate(DayOf(t))) + ClockFields(NanoOfDay(t))
  }

  const DATE_TIME: seq<Field> :=
    [Field(4, "-"), Field(2, "-"), Field(2, "T"), Field(2, ":"), Field(2, ":"), Field(2, "")]

  const FRACTION: seq<Field> := [Field(9, "Z")]

  lemma DayBound(t: Instant)
    ensures DayOf(t) < 3_652_425
  {
    assert MAX_INSTANT - MIN_INSTANT == 3_652_425 * DAY;
  }

  lemma YearBound(d: Date)
    requires ValidDate(d) && DayNumber(d) < 3_652_425
    ensures d.year < 10000
  {
    DayInYear(d);
    ClosedForm(10000);
    if d.year > 10000 { YearsIncrease(10000, d.year); }
  }

  lemma FourDigitYear(t: Instant)
    ensures ValidDate(CivilDate(DayOf(t))) && CivilDate(DayOf(t)).year < 10000
  {
    DayBound(t);
    CivilDateOf(DayOf(t));
    YearBound(CivilDate(DayOf(t)));
  }

  lemma Powers()
    ensures Pow10(2) == 100 && Pow10(4) == 10000 && Pow10(9) == SECOND
  {
    assert Pow10(4) == 100 * Pow10(2);
    assert Pow10(6) == 100 * Pow10(4);
    assert Pow10(9) == 1000 * Pow10(6);
  }

  lemma SecondFieldsFit(t: Instant)
    ensures Fits(SecondFields(t), DATE_TIME)
    ensures Fits([t % SECOND], FRACTION)
  {
    FourDigitYear(t);
    Powers();
    var d, c := DateFields(CivilDate(DayOf(t))), ClockFields(NanoOfDay(t));
    var v := SecondFields(t);
    assert v[0] == d[0] && v[1] == d[1] && v[2] == d[2];
    assert v[3] == c[0] && v[4] == c[1] && v[5] == c[2];
  }

  /** time.RFC3339 of the whole second an instant lies in. */
  function FormatSecond(t: Instant): string {
    SecondFieldsFit(t);
    Render(SecondFields(t), DATE_TIME) + "Z"
  }

  /** TimestampLayout: the fraction always has nine digits. */
  function FormatTimestamp(t: Instant): string {
    SecondFieldsFit(t);
    Render(SecondFields(t), DATE_TIME) + ("." + Render([t % SECOND], FRACTION))
  }

  lemma LayoutFields(v: seq<nat>)
    requires Fits(v, DATE_TIME)
    ensures |v| == 6 && v[0] < Pow10(4) && v[1] < Pow10(2) && v[2] < Pow10(2)
    ensures v[3] < Pow10(2) && v[4] < Pow10(2) && v[5] < Pow10(2)
    ensures Render(v, DATE_TIME) ==
      Digits(v[0], 4) + ("-" + (Digits(v[1], 2) + ("-" + (Digits(v[2], 2) + ("T"
      + (Digits(v[3], 2) + (":" + (Digits(v[4], 2) + (":" + Digits(v[5], 2))))))))))
  {
    var shape := DATE_TIME;
    assert shape[5].width == 2 && shape[4].width == 2 && shape[3].width == 2 && shape[2].width == 2;
    assert shape[1].width == 2 && shape[0].width == 4;
    LayoutTail(v[5..], shape[5..], v[5], "");
    assert Digits(v[5], 2) + "" == Digits(v[5], 2);
    LayoutStep(v, shape, 4);
    LayoutStep(v, shape, 3);
    LayoutStep(v, shape, 2);
    LayoutStep(v, shape, 1);
    LayoutStep(v, shape, 0);
    assert v[0..] == v && shape[0..] == shape;
  }

  lemma LayoutTail(v: seq<nat>, shape: seq<Field>, n: nat, after: string)
    requires |v| == |shape| == 1 && v[0] == n && shape[0] == Field(2, after) && n < Pow10(2)
    ensures Fits(v, shape) && Render(v, shape) == Digits(n, 2) + after
  {
    assert Render(v[1..], shape[1..]) == [];
    assert after + [] == after;
  }

  lemma LayoutStep(v: seq<nat>, shape: seq<Field>, i: nat)
    requires Fits(v, shape) && i < |v|
    ensures Fits(v[i..], shape[i..]) && Fits(v[i + 1..], shape[i + 1..])
    ensures Render(v[i..], shape[i..]) ==
              Digits(v[i], shape[i].width) + (shape[i].after + Render(v[i + 1..], shape[i + 1..]))
  {
    assert v[i..][1..] == v[i + 1..] && shape[i..][1..] == shape[i + 1..];
  }

  /** Section 5.6 of RFC 3339, in UTC: the whole-second text, then, in a timestamp, a
      point and nine digits. */
  lemma Layout(t: Instant)
    ensures Fits(SecondFields(t), DATE_TIME) && t % SECOND < Pow10(9)
    ensures
      var v := SecondFields(t);
      && |v| == 6 && v[0] < Pow10(4) && v[1] < Pow10(2) && v[2] < Pow10(2)
      && v[3] < Pow10(2) && v[4] < Pow10(2) && v[5] < Pow10(2)
      && (var text := Digits(v[0], 4) + ("-" + (Digits(v[1], 2) + ("-" + (Digits(v[2], 2) + ("T"
                      + (Digits(v[3], 2) + (":" + (Digits(v[4], 2) + (":" + Digits(v[5], 2))))))))));
          FormatSecond(t) == text + "Z" && FormatTimestamp(t) == text + ("." + (Digits(t % SECOND, 9) + "Z")))
      && ValidDate(Date(v[0], v[1], v[2])) && v[3] < 24 && v[4] < 60 && v[5] < 60
      && (DayNumber(Date(v[0], v[1], v[2])) - EPOCH_DAYS) * 86400 + v[3] * 3600 + v[4] * 60 + v[5] == t / SECOND
  {
    SecondFieldsFit(t);
    Powers();
    LayoutFields(SecondFields(t));
    FieldsOfInstant(t);
    assert Render([t % SECOND][1..], FRACTION[1..]) == [];
    assert "Z" + [] == "Z";
  }

  // ----- Order -----

  lemma SeqLess3(a: nat, b: nat, c: nat, d: nat, e: nat, f: nat)
    ensures SeqLess([a, b, c], [d, e, f]) <==> a < d || (a == d && (b < e || (b == e && c < f)))
    ensures [a, b, c] == [d, e, f] <==> a == d && b == e && c == f
  {
    assert [a, b, c][1..] == [b, c] && [d, e, f][1..] == [e, f];
    assert [b, c][1..] == [c] && [e, f][1..] == [f];
    assert [c][1..] == [] && [f][1..] == [];
    assert SeqLess([c], [f]) <==> c < f;
    assert SeqLess([b, c], [e, f]) <==> b < e || (b == e && c < f);
    var x, y := [a, b, c], [d, e, f];
    assert x[0] == a && x[1] == b && x[2] == c && y[0] == d && y[1] == e && y[2] == f;
  }

  lemma ClockOrder(m: nat, n: nat)
    requires m < DAY && n < DAY
    ensures SeqLess(ClockFields(m), ClockFields(n)) <==> m / SECOND < n / SECOND
    ensures ClockFields(m) == ClockFields(n) <==> m / SECOND == n / SECOND
  {
    var a, b := m / SECOND, n / SECOND;
    Sexagesimal(a);
    Sexagesimal(b);
    SeqLess3(a / 3600, a / 60 % 60, a % 60, b / 3600, b / 60 % 60, b % 60);
  }

  lemma Sexagesimal(a: nat)
    ensures a == (a / 3600) * 3600 + (a / 60 % 60) * 60 + a % 60
  {
    assert a / 3600 == a / 60 / 60;
  }

  lemma {:induction false} SeqLessConcat(a: seq<nat>, b: seq<nat>, c: seq<nat>, d: seq<nat>)
    requires |a| == |b| && |c| == |d|
    ensures SeqLess(a + c, b + d) <==> SeqLess(a, b) || (a == b && SeqLess(c, d))
    decreases |a|
  {
    if a == [] {
      assert a + c == c && b + d == d;
    } else {
      assert (a + c)[1..] == a[1..] + c && (b + d)[1..] == b[1..] + d;
      SeqLessConcat(a[1..], b[1..], c, d);
      assert a == [a[0]] + a[1..] && b == [b[0]] + b[1..];
    }
  }

  lemma DateFieldsOrder(m: nat, n: nat)
    ensures SeqLess(DateFields(CivilDate(m)), DateFields(CivilDate(n))) <==> m < n
    ensures DateFields(CivilDate(m)) == DateFields(CivilDate(n)) <==> m == n
  {
    CivilDateOf(m);
    CivilDateOf(n);
    var a, b := CivilDate(m), CivilDate(n);
    SeqLess3(a.year, a.month, a.day, b.year, b.month, b.day);
    if SeqLess(DateFields(a), DateFields(b)) {
      DateOrder(a, b);
    } else if a != b {
      DateOrder(b, a);
    }
  }

  /** Field by field is second by second. */
  lemma SecondFieldsOrder(s: Instant, t: Instant)
    ensures SeqLess(SecondFields(s), SecondFields(t)) <==> s / SECOND < t / SECOND
    ensures SecondFields(s) == SecondFields(t) <==> s / SECOND == t / SECOND
  {
    DateFieldsOrder(DayOf(s), DayOf(t));
    ClockOrder(NanoOfDay(s), NanoOfDay(t));
    SeqLessConcat(DateFields(CivilDate(DayOf(s))), DateFields(CivilDate(DayOf(t))),
                  ClockFields(NanoOfDay(s)), ClockFields(NanoOfDay(t)));
    SecondOfDay(s);
    SecondOfDay(t);
    var d, e := DateFields(CivilDate(DayOf(s))), DateFields(CivilDate(DayOf(t)));
    assert SecondFields(s)[..3] == d && SecondFields(t)[..3] == e;
    assert SecondFields(s)[3..] == ClockFields(NanoOfDay(s)) && SecondFields(t)[3..] == ClockFields(NanoOfDay(t));
  }

  lemma SecondOfDay(t: Instant)
    ensures t / SECOND == (DayOf(t) - EPOCH_DAYS) * 86400 + NanoOfDay(t) / SECOND
    ensures 0 <= NanoOfDay(t) / SECOND < 86400
    ensures t % SECOND == NanoOfDay(t) % SECOND
  {
    var d, n := DayOf(t), NanoOfDay(t);
    assert t == (d - EPOCH_DAYS) * DAY + n;
    assert t == ((d - EPOCH_DAYS) * 86400 + n / SECOND) * SECOND + n % SECOND;
    DivModUnique(t, SECOND, (d - EPOCH_DAYS) * 86400 + n / SECOND, n % SECOND);
  }

  lemma {:induction false} RenderLen(v: seq<nat>, w: seq<nat>, shape: seq<Field>)
    requires Fits(v, shape) && Fits(w, shape)
    ensures |Render(v, shape)| == |Render(w, shape)|
    ensures v == w <==> Render(v, shape) == Render(w, shape)
  {
    if shape != [] {
      RenderLen(v[1..], w[1..], shape[1..]);
      ParseRendered(v, shape, "");
      ParseRendered(w, shape, "");
      assert Render(v, shape) + "" == Render(v, shape) && Render(w, shape) + "" == Render(w, shape);
    }
  }

  /** The order of the timestamps' text is the order of the instants. */
  lemma TimestampOrder(s: Instant, t: Instant)
    ensures LexLess(FormatTimestamp(s), FormatTimestamp(t)) <==> s < t
  {
    SecondFieldsFit(s);
    SecondFieldsFit(t);
    RenderOrder(SecondFields(s), SecondFields(t), DATE_TIME);
    RenderOrder([s % SECOND], [t % SECOND], FRACTION);
    RenderLen(SecondFields(s), SecondFields(t), DATE_TIME);
    var a, b := Render([s % SECOND], FRACTION), Render([t % SECOND], FRACTION);
    LexConcat(".", ".", a, b);
    LexTrichotomy(".", ".");
    LexConcat(Render(SecondFields(s), DATE_TIME), Render(SecondFields(t), DATE_TIME), "." + a, "." + b);
    SecondFieldsOrder(s, t);
  }

  /** The whole-second text orders instants by their whole seconds. */
  lemma SecondOrder(s: Instant, t: Instant)
    ensures LexLess(FormatSecond(s), FormatSecond(t)) <==> s / SECOND < t / SECOND
  {
    SecondFieldsFit(s);
    SecondFieldsFit(t);
    RenderOrder(SecondFields(s), SecondFields(t), DATE_TIME);
    RenderLen(SecondFields(s), SecondFields(t), DATE_TIME);
    LexTrichotomy("Z", "Z");
    LexConcat(Render(SecondFields(s), DATE_TIME), Render(SecondFields(t), DATE_TIME), "Z", "Z");
    SecondFieldsOrder(s, t);
  }

  // ----- Parsing -----

  predicate ValidClock(v: seq<nat>)
    requires |v| == 6
  {
    ValidMonthDay(v) && v[3] < 24 && v[4] < 60 && v[5] < 60
  }

  predicate ValidMonthDay(v: seq<nat>)
    requires |v| == 6
  {
    ValidDate(Date(v[0], v[1], v[2]))
  }

  function SecondAt(v: seq<nat>): int
    requires |v| == 6 && ValidMonthDay(v)
  {
    (DayNumber(Date(v[0], v[1], v[2])) - EPOCH_DAYS) * 86400 + v[3] * 3600 + v[4] * 60 + v[5]
  }

  /** Any number of fraction digits; those past the ninth are dropped. */
  function Nanos(digits: string): nat
    requires AllDigits(digits)
  {
    if |digits| <= 9 then NumberOf(digits) * Pow10(9 - |digits|) else NumberOf(digits[..9])
  }

  /** What may follow the seconds: an optional fraction, then the zone Z. */
  function ParseFraction(s: string): Option<nat> {
    if s == "Z" then Some(0)
    else if |s| >= 3 && s[0] == '.' && s[|s| - 1] == 'Z' && AllDigits(s[1..|s| - 1]) then
      Some(Nanos(s[1..|s| - 1]))
    else None
  }

  /** time.Parse with time.RFC3339, on UTC timestamps. */
  function Parse(s: string): Option<int> {
    match ParseFields(s, DATE_TIME)
    case None => None
    case Some((v, rest)) =>
      if !ValidClock(v) then None
      else
        match ParseFraction(rest)
        case None => None
        case Some(nanos) => Some(SecondAt(v) * SECOND + nanos)
  }

  lemma FieldsOfInstant(t: Instant)
    ensures |SecondFields(t)| == 6 && ValidClock(SecondFields(t))
    ensures SecondAt(SecondFields(t)) == t / SECOND
  {
    FourDigitYear(t);
    CivilDateOf(DayOf(t));
    SecondOfDay(t);
    Sexagesimal(NanoOfDay(t) / SECOND);
    var d, c := DateFields(CivilDate(DayOf(t))), ClockFields(NanoOfDay(t));
    var v := SecondFields(t);
    assert v[0] == d[0] && v[1] == d[1] && v[2] == d[2];
    assert v[3] == c[0] && v[4] == c[1] && v[5] == c[2];
    assert Date(v[0], v[1], v[2]) == CivilDate(DayOf(t));
  }

  lemma ParseTail(t: Instant, tail: string, nanos: nat)
    requires ParseFraction(tail) == Some(nanos)
    ensures Fits(SecondFields(t), DATE_TIME)
    ensures Parse(Render(SecondFields(t), DATE_TIME) + tail) == Some(t / SECOND * SECOND + nanos)
  {
    SecondFieldsFit(t);
    var v := SecondFields(t);
    FieldsOfInstant(t);
    ParseRendered(v, DATE_TIME, tail);
  }

  lemma FractionOf(digits: string)
    requires AllDigits(digits) && digits != []
    ensures ParseFraction("." + (digits + "Z")) == Some(Nanos(digits))
  {
    var s := "." + (digits + "Z");
    assert s[1..|s| - 1] == digits;
  }

  lemma NineDigits(n: nat)
    requires n < SECOND
    ensures Fits([n], FRACTION)
    ensures ParseFraction("." + Render([n], FRACTION)) == Some(n)
  {
    Powers();
    NumberOfDigits(n, 9);
    FractionOf(Digits(n, 9));
    assert Render([n][1..], FRACTION[1..]) == [];
    assert "Z" + [] == "Z";
    assert Pow10(0) == 1;
  }

  /** The fixed-width timestamp loses nothing: parsing gives the instant back to
      the nanosecond. */
  lemma TimestampRoundTrip(t: Instant)
    ensures Parse(FormatTimestamp(t)) == Some(t)
  {
    NineDigits(t % SECOND);
    ParseTail(t, "." + Render([t % SECOND], FRACTION), t % SECOND);
  }

  /** The whole-second text gives back the second. */
  lemma SecondRoundTrip(t: Instant)
    ensures Parse(FormatSecond(t)) == Some(t / SECOND * SECOND)
  {
    ParseTail(t, "Z", 0);
  }

  // ----- Why the width is fixed -----

  function TrimZeros(digits: string): (r: string)
    ensures |r| <= |digits|
  {
    if digits != [] && digits[|digits| - 1] == '0' then TrimZeros(digits[..|digits| - 1]) else digits
  }

  /** time.RFC3339Nano, which trims the fraction's trailing zeros. */
  function FormatTrimmed(t: Instant): string {
    SecondFieldsFit(t);
    var head := Render(SecondFields(t), DATE_TIME);
    if t % SECOND == 0 then head + "Z"
    else head + ("." + (TrimZeros(Digits(t % SECOND, 9)) + "Z"))
  }

  /** What is left of the fraction of a second; nothing of a whole one. */
  function Fraction(t: Instant): string {
    Powers();
    TrimZeros(Digits(t % SECOND, 9))
  }

  lemma {:induction false} TrimFront(c: char, rest: string)
    ensures TrimZeros([c] + rest) == if TrimZeros(rest) == [] && c == '0' then [] else [c] + TrimZeros(rest)
    decreases |rest|
  {
    var s := [c] + rest;
    if rest != [] {
      assert s[..|s| - 1] == [c] + rest[..|rest| - 1];
      if rest[|rest| - 1] == '0' {
        TrimFront(c, rest[..|rest| - 1]);
      }
    } else {
      assert s[..0] == [];
    }
  }

  /** Only zeros trim to nothing, and nothing of the same length sorts before them. */
  lemma {:induction false} TrimmedAway(a: string, b: string)
    requires |a| == |b| && AllDigits(a) && TrimZeros(b) == []
    ensures !LexLess(a, b)
  {
    if b != [] {
      assert b == [b[0]] + b[1..];
      TrimFront(b[0], b[1..]);
      TrimmedAway(a[1..], b[1..]);
    }
  }

  /** Of two fractions of one width, the greater sorts first once trimmed exactly when
      it extends the smaller. */
  lemma {:induction false} TrimmedOrder(a: string, b: string)
    requires |a| == |b| && AllDigits(a) && AllDigits(b) && LexLess(a, b)
    ensures LexLess(TrimZeros(b) + "Z", TrimZeros(a) + "Z") <==> TrimZeros(a) <= TrimZeros(b)
    ensures TrimZeros(b) != []
    decreases |a|
  {
    var x, y := a[1..], b[1..];
    assert a == [a[0]] + x && b == [b[0]] + y;
    TrimFront(a[0], x);
    TrimFront(b[0], y);
    if a[0] == b[0] {
      TrimmedOrder(x, y);
      TrimmedSameHead(a[0], TrimZeros(x), TrimZeros(y), TrimZeros(a));
    } else {
      assert (TrimZeros(b) + "Z")[0] == b[0];
    }
  }

  lemma TrimmedSameHead(c: char, x: string, y: string, a: string)
    requires IsDigit(c) && (a == [c] + x || (a == [] && x == []))
    requires LexLess(y + "Z", x + "Z") <==> x <= y
    ensures LexLess([c] + y + "Z", a + "Z") <==> a <= [c] + y
  {
    assert ([c] + y + "Z")[1..] == y + "Z";
    assert a != [] ==> (a + "Z")[1..] == x + "Z";
    assert ([c] + x <= [c] + y) <==> x <= y by {
      assert ([c] + x)[1..] == x && ([c] + y)[1..] == y;
      if x <= y {
        assert y == x + y[|x|..];
        assert [c] + y == ([c] + x) + y[|x|..];
      }
    }
  }

  /** The text after the seconds. */
  function Tail(fraction: string): string {
    if fraction == [] then "Z" else "." + (fraction + "Z")
  }

  lemma {:induction false} ZeroTrims(w: nat)
    requires 0 < Pow10(w)
    ensures TrimZeros(Digits(0, w)) == []
  {
    if w > 0 {
      ZeroTrims(w - 1);
      assert Digits(0, w)[..w - 1] == Digits(0, w - 1);
    }
  }

  lemma NonzeroStays(n: nat)
    requires 0 < n < SECOND
    ensures TrimZeros(Digits(n, 9)) != []
  {
    Powers();
    DigitsOrder(0, n, 9);
    NumberOfDigits(0, 9);
    NumberOfDigits(n, 9);
    TrimmedOrder(Digits(0, 9), Digits(n, 9));
  }

  lemma TrimmedIs(t: Instant)
    ensures Fits(SecondFields(t), DATE_TIME)
    ensures FormatTrimmed(t) == Render(SecondFields(t), DATE_TIME) + Tail(Fraction(t))
  {
    SecondFieldsFit(t);
    Powers();
    if t % SECOND == 0 {
      ZeroTrims(9);
    } else {
      NonzeroStays(t % SECOND);
    }
  }

  lemma TailOrder(x: string, y: string)
    requires y != [] && AllDigits(y)
    requires x != [] ==> (LexLess(y + "Z", x + "Z") <==> x <= y)
    ensures LexLess(Tail(y), Tail(x)) <==> x <= y
  {
    if x != [] {
      LexConcat(".", ".", y + "Z", x + "Z");
      LexTrichotomy(".", ".");
    }
  }

  lemma {:induction false} TrimKeepsDigits(d: string)
    requires AllDigits(d)
    ensures AllDigits(TrimZeros(d))
  {
    if d != [] && d[|d| - 1] == '0' {
      TrimKeepsDigits(d[..|d| - 1]);
    }
  }

  /** With a trimmed fraction the later of two instants sorts first exactly when they
      fall in one second and its fraction extends the other's; an instant on the
      second has none, so any other in that second does. */
  lemma TrimmedBreaksOrder(s: Instant, t: Instant)
    requires s < t
    ensures LexLess(FormatTrimmed(t), FormatTrimmed(s)) <==> s / SECOND == t / SECOND && Fraction(s) <= Fraction(t)
  {
    TrimmedIs(s);
    TrimmedIs(t);
    SecondFieldsOrder(s, t);
    SecondFieldsOrder(t, s);
    RenderOrder(SecondFields(t), SecondFields(s), DATE_TIME);
    RenderLen(SecondFields(t), SecondFields(s), DATE_TIME);
    var d, e := Render(SecondFields(t), DATE_TIME), Render(SecondFields(s), DATE_TIME);
    LexConcat(d, e, Tail(Fraction(t)), Tail(Fraction(s)));
    if s / SECOND == t / SECOND {
      var m, n := s % SECOND, t % SECOND;
      Powers();
      DigitsOrder(m, n, 9);
      NumberOfDigits(m, 9);
      NumberOfDigits(n, 9);
      TrimmedOrder(Digits(m, 9), Digits(n, 9));
      TrimKeepsDigits(Digits(n, 9));
      TailOrder(Fraction(s), Fraction(t));
    }
  }

  lemma TimesTen(n: nat, k: nat)
    ensures 10 * (n * Pow10(k)) == n * Pow10(k + 1)
  {
    var p := Pow10(k);
    assert Pow10(k + 1) == 10 * p;
    assert 10 * (n * p) == n * (10 * p);
  }

  lemma LastZero(d: string)
    requires AllDigits(d) && d != [] && d[|d| - 1] == '0'
    ensures NumberOf(d) == 10 * NumberOf(d[..|d| - 1])
  {
  }

  /** Trailing zeros of a fraction carry no value. */
  lemma {:induction false} TrimValue(d: string)
    requires AllDigits(d)
    ensures AllDigits(TrimZeros(d)) && NumberOf(d) == NumberOf(TrimZeros(d)) * Pow10(|d| - |TrimZeros(d)|)
  {
    if d != [] && d[|d| - 1] == '0' {
      var front := d[..|d| - 1];
      TrimValue(front);
      LastZero(d);
      TimesTen(NumberOf(TrimZeros(front)), |front| - |TrimZeros(front)|);
    }
  }

  lemma TrimmedNanos(n: nat)
    requires n < Pow10(9) && TrimZeros(Digits(n, 9)) != []
    ensures ParseFraction("." + (TrimZeros(Digits(n, 9)) + "Z")) == Some(n)
  {
    var d := Digits(n, 9);
    NumberOfDigits(n, 9);
    TrimValue(d);
    FractionOf(TrimZeros(d));
  }

  lemma LongNanos(n: nat, more: string)
    requires n < Pow10(9) && AllDigits(more)
    ensures ParseFraction("." + ((Digits(n, 9) + more) + "Z")) == Some(n)
  {
    var d := Digits(n, 9);
    NumberOfDigits(n, 9);
    assert (d + more)[..9] == d;
    assert Pow10(0) == 1;
    assert more == [] ==> d + more == d;
    FractionOf(d + more);
  }

  /** Parsing takes any number of fraction digits or none: the trimmed text gives the
      instant back exactly as well, and digits past the ninth are dropped. */
  lemma AnyFraction(t: Instant, more: string)
    requires AllDigits(more)
    ensures Fits(SecondFields(t), DATE_TIME) && t % SECOND < Pow10(9)
    ensures Parse(FormatTrimmed(t)) == Some(t)
    ensures Parse(Render(SecondFields(t), DATE_TIME) + ("." + ((Digits(t % SECOND, 9) + more) + "Z"))) == Some(t)
  {
    SecondFieldsFit(t);
    Powers();
    var n := t % SECOND;
    LongNanos(n, more);
    ParseTail(t, "." + ((Digits(n, 9) + more) + "Z"), n);
    if n == 0 {
      SecondRoundTrip(t);
    } else {
      NonzeroStays(n);
      TrimmedNanos(n);
      ParseTail(t, "." + (TrimZeros(Digits(n, 9)) + "Z"), n);
    }
  }
}
