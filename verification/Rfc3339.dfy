/** `time.Format(time.RFC3339Nano)` in UTC: `YYYY-MM-DDThh:mm:ss[.fraction]Z`, where the
    fraction loses its trailing zeros (the `time-secfrac` of section 5.6 of RFC 3339). A time
    is a number of nanoseconds since the Unix epoch. */
module Rfc3339 {
  import opened ByteStrings

  type Time = int

  const SECOND: int := 1_000_000_000
  const MILLISECOND: int := 1_000_000
  const DAY_SECONDS: int := 86400

  // ---- decimal digits

  function Digits(n: nat, w: nat): (s: Str)
    ensures |s| == w
    ensures forall i | 0 <= i < w :: 48 <= s[i] <= 57
    decreases w, n
  {
    if w == 0 then [] else Digits(n / 10, w - 1) + [48 + n % 10]
  }

  function Pow10(w: nat): (p: nat)
    ensures p > 0
  {
    if w == 0 then 1 else 10 * Pow10(w - 1)
  }

  /** Fixed-width decimals compare as the numbers they show. */
  lemma {:induction false} DigitsOrder(m: nat, n: nat, w: nat)
    requires m < Pow10(w) && n < Pow10(w)
    ensures m < n ==> Less(Digits(m, w), Digits(n, w))
    ensures m != n ==> Digits(m, w) != Digits(n, w)
  {
    if w > 0 {
      var a, b := Digits(m / 10, w - 1), Digits(n / 10, w - 1);
      DigitsOrder(m / 10, n / 10, w - 1);
      if m / 10 == n / 10 {
        CompareCommonPrefix(a, [48 + m % 10], [48 + n % 10]);
        assert Digits(m, w)[w - 1] == 48 + m % 10 && Digits(n, w)[w - 1] == 48 + n % 10;
      } else {
        CompareFixedWidth(a, b, [48 + m % 10], [48 + n % 10]);
        assert Digits(m, w)[..w - 1] == a && Digits(n, w)[..w - 1] == b;
      }
    }
  }

  // ---- the proleptic Gregorian calendar

  /** Days from 0001-01-01 to the first day of a year. */
  function DaysBeforeYear(y: int): int
  {
    var n := y - 1;
    365 * n + n / 4 - n / 100 + n / 400
  }

  predicate Leap(y: int) { y % 4 == 0 && (y % 100 != 0 || y % 400 == 0) }

  lemma LeapYearLength(y: int)
    ensures DaysBeforeYear(y + 1) == DaysBeforeYear(y) + 365 + if Leap(y) then 1 else 0
  {
    assert y / 4 - (y - 1) / 4 == if y % 4 == 0 then 1 else 0;
    assert y / 100 - (y - 1) / 100 == if y % 100 == 0 then 1 else 0;
    assert y / 400 - (y - 1) / 400 == if y % 400 == 0 then 1 else 0;
    assert y % 400 == 0 ==> y % 100 == 0;
    assert y % 100 == 0 ==> y % 4 == 0;
  }

  lemma YearLength(y: int)
    ensures DaysBeforeYear(y) + 365 <= DaysBeforeYear(y + 1) <= DaysBeforeYear(y) + 366
  {
    LeapYearLength(y);
  }

  function YearFrom(y: int, d: int): (r: int)
    requires DaysBeforeYear(y) <= d
    ensures y <= r
    ensures DaysBeforeYear(r) <= d < DaysBeforeYear(r + 1)
    decreases d - DaysBeforeYear(y)
  {
    YearLength(y);
    if d < DaysBeforeYear(y + 1) then y else YearFrom(y + 1, d)
  }

  /** Days of the year before a month; month 13 is the year's length. */
  function DaysBeforeMonth(m: int, leap: bool): int
    requires 1 <= m <= 13
  {
    [0, 31, 59, 90, 120, 151, 181, 212, 243, 273, 304, 334, 365][m - 1] + if leap && m > 2 then 1 else 0
  }

  function MonthFrom(m: int, leap: bool, d: int): (r: int)
    requires 1 <= m <= 12
    requires DaysBeforeMonth(m, leap) <= d < DaysBeforeMonth(13, leap)
    ensures m <= r <= 12
    ensures DaysBeforeMonth(r, leap) <= d < DaysBeforeMonth(r + 1, leap)
    decreases 13 - m
  {
    if d < DaysBeforeMonth(m + 1, leap) then m else MonthFrom(m + 1, leap, d)
  }

  datatype Date = Date(year: int, month: int, day: int)

  /** Day 0 is 0001-01-01; the range is the years 0000 to 9999. */
  predicate FourDigitYear(d: int) { DaysBeforeYear(0) <= d < DaysBeforeYear(10000) }

  /** The year of a day. */
  function YearOf(d: int): (y: int)
    requires FourDigitYear(d)
    ensures 0 <= y <= 9999
    ensures DaysBeforeYear(y) <= d < DaysBeforeYear(y) + DaysBeforeMonth(13, Leap(y))
  {
    var y := YearFrom(0, d);
    YearMonotone(d, y);
    LeapYearLength(y);
    y
  }

  function Civil(d: int): (r: Date)
    requires FourDigitYear(d)
    ensures 0 <= r.year <= 9999 && 1 <= r.month <= 12 && 1 <= r.day <= 31
  {
    var y := YearOf(d);
    var inYear := d - DaysBeforeYear(y);
    var m := MonthFrom(1, Leap(y), inYear);
    Date(y, m, inYear - DaysBeforeMonth(m, Leap(y)) + 1)
  }

  lemma YearMonotone(d: int, y: int)
    requires FourDigitYear(d) && DaysBeforeYear(y) <= d
    ensures y <= 9999
  {
    if y > 9999 { YearsGrow(10000, y); }
  }

  lemma {:induction false} YearsGrow(x: int, y: int)
    requires x <= y
    ensures DaysBeforeYear(x) <= DaysBeforeYear(y)
    decreases y - x
  {
    if x < y { YearLength(x); YearsGrow(x + 1, y); }
  }

  predicate EarlierDate(a: Date, b: Date)
  {
    a.year < b.year || (a.year == b.year && (a.month < b.month || (a.month == b.month && a.day < b.day)))
  }

  /** Later days have later dates. */
  lemma CivilOrder(d: int, e: int)
    requires FourDigitYear(d) && FourDigitYear(e) && d < e
    ensures EarlierDate(Civil(d), Civil(e))
  {
    var a, b := Civil(d), Civil(e);
    if a.year > b.year { YearsGrow(b.year + 1, a.year); }
    if a.year == b.year && a.month > b.month { MonthsGrow(b.month + 1, a.month, Leap(a.year)); }
  }

  lemma MonthsGrow(m: int, n: int, leap: bool)
    requires 1 <= m <= n <= 13
    ensures DaysBeforeMonth(m, leap) <= DaysBeforeMonth(n, leap)
  {
  }

  // ---- the text of a whole second

  const EPOCH_DAY: int := 719162   // 1970-01-01

  predicate ValidDate(r: Date)
  {
    && 0 <= r.year <= 9999 && 1 <= r.month <= 12
    && 1 <= r.day <= DaysBeforeMonth(r.month + 1, Leap(r.year)) - DaysBeforeMonth(r.month, Leap(r.year))
  }

  function DayOf(r: Date): int
    requires ValidDate(r)
  {
    DaysBeforeYear(r.year) + DaysBeforeMonth(r.month, Leap(r.year)) + r.day - 1
  }

  /** Every date of the calendar is the civil date of its day. */
  lemma CivilOfDate(r: Date)
    requires ValidDate(r)
    ensures FourDigitYear(DayOf(r)) && Civil(DayOf(r)) == r
  {
    hide YearFrom; hide MonthFrom; hide DaysBeforeYear;
    var d := DayOf(r);
    DayInYear(r);
    YearFromUnique(d, r.year);
    MonthFromUnique(d - DaysBeforeYear(r.year), Leap(r.year), r.month);
  }

  lemma DayInYear(r: Date)
    requires ValidDate(r)
    ensures DaysBeforeYear(r.year) <= DayOf(r) < DaysBeforeYear(r.year + 1)
    ensures FourDigitYear(DayOf(r)) && 0 <= DayOf(r) - DaysBeforeYear(r.year) < DaysBeforeMonth(13, Leap(r.year))
  {
    hide DaysBeforeYear;
    LeapYearLength(r.year);
    MonthsGrow(1, r.month, Leap(r.year));
    MonthsGrow(r.month + 1, 13, Leap(r.year));
    YearsGrow(0, r.year);
    YearsGrow(r.year + 1, 10000);
  }

  lemma MonthFromUnique(d: int, leap: bool, m: int)
    requires 1 <= m <= 12 && DaysBeforeMonth(m, leap) <= d < DaysBeforeMonth(m + 1, leap)
    requires 0 <= d < DaysBeforeMonth(13, leap)
    ensures MonthFrom(1, leap, d) == m
  {
    hide MonthFrom;
    var r := MonthFrom(1, leap, d);
    if r < m { MonthsGrow(r + 1, m, leap); }
    if m < r { MonthsGrow(m + 1, r, leap); }
  }

  /** Day numbers and Unix time share their zero. */
  lemma EpochDay()
    ensures Civil(EPOCH_DAY) == Date(1970, 1, 1)
  {
    hide Civil;
    CivilOfDate(Date(1970, 1, 1));
  }

  lemma YearFromUnique(d: int, y: int)
    requires DaysBeforeYear(0) <= d && DaysBeforeYear(y) <= d < DaysBeforeYear(y + 1)
    ensures YearFrom(0, d) == y
  {
    hide YearFrom; hide DaysBeforeYear;
    var r := YearFrom(0, d);
    if r < y { YearsGrow(r + 1, y); }
    if y < r { YearsGrow(y + 1, r); }
  }

  function DateText(r: Date): (s: Str)
    requires 0 <= r.year <= 9999 && 1 <= r.month <= 12 && 1 <= r.day <= 31
    ensures |s| == 10
  {
    Digits(r.year, 4) + ([45] + (Digits(r.month, 2) + ([45] + Digits(r.day, 2))))
  }

  function ClockText(h: nat, m: nat, s: nat): (t: Str)
    ensures |t| == 8
  {
    Digits(h, 2) + ([58] + (Digits(m, 2) + ([58] + Digits(s, 2))))
  }

  predicate InRange(sec: int) { FourDigitYear(sec / DAY_SECONDS + EPOCH_DAY) }

  function SecondText(sec: int): (s: Str)
    requires InRange(sec)
    ensures |s| == 19
  {
    var c := sec % DAY_SECONDS;
    DateText(Civil(sec / DAY_SECONDS + EPOCH_DAY)) + ([84] + ClockText(c / 3600, c / 60 % 60, c % 60))
  }

  /** Ordering two concatenations by their fixed-width heads, then by their tails. */
  lemma HeadThenTail(a: Str, b: Str, x: Str, y: Str)
    requires |a| == |b|
    requires Less(a, b) || (a == b && Less(x, y))
    ensures Less(a + x, b + y)
  {
    if a == b { CompareCommonPrefix(a, x, y); } else { CompareFixedWidth(a, b, x, y); }
    CompareZero(a, b);
  }

  lemma Pow10Values()
    ensures Pow10(2) == 100 && Pow10(4) == 10000 && Pow10(9) == SECOND
  {
    assert Pow10(1) == 10;
    assert Pow10(3) == 1000;
    assert Pow10(5) == 100000;
    assert Pow10(6) == 1000000;
    assert Pow10(7) == 10000000;
    assert Pow10(8) == 100000000;
  }

  lemma DateTextOrder(a: Date, b: Date)
    requires 0 <= a.year <= 9999 && 1 <= a.month <= 12 && 1 <= a.day <= 31
    requires 0 <= b.year <= 9999 && 1 <= b.month <= 12 && 1 <= b.day <= 31
    requires EarlierDate(a, b)
    ensures Less(DateText(a), DateText(b))
  {
    Pow10Values();
    DigitsOrder(a.year, b.year, 4); DigitsOrder(a.month, b.month, 2); DigitsOrder(a.day, b.day, 2);
    var da, db := [45] + Digits(a.day, 2), [45] + Digits(b.day, 2);
    var ma, mb := [45] + (Digits(a.month, 2) + da), [45] + (Digits(b.month, 2) + db);
    if a.year == b.year {
      if a.month == b.month { HeadThenTail([45], [45], Digits(a.day, 2), Digits(b.day, 2)); }
      HeadThenTail(Digits(a.month, 2), Digits(b.month, 2), da, db);
      HeadThenTail([45], [45], Digits(a.month, 2) + da, Digits(b.month, 2) + db);
    }
    HeadThenTail(Digits(a.year, 4), Digits(b.year, 4), ma, mb);
  }

  lemma ClockTextOrder(h: nat, m: nat, s: nat, h': nat, m': nat, s': nat)
    requires h < 24 && m < 60 && s < 60 && h' < 24 && m' < 60 && s' < 60
    requires h < h' || (h == h' && (m < m' || (m == m' && s < s')))
    ensures Less(ClockText(h, m, s), ClockText(h', m', s'))
  {
    Pow10Values();
    DigitsOrder(h, h', 2); DigitsOrder(m, m', 2); DigitsOrder(s, s', 2);
    var sa, sb := [58] + Digits(s, 2), [58] + Digits(s', 2);
    var ma, mb := Digits(m, 2) + sa, Digits(m', 2) + sb;
    if h == h' {
      if m == m' { HeadThenTail([58], [58], Digits(s, 2), Digits(s', 2)); }
      HeadThenTail(Digits(m, 2), Digits(m', 2), sa, sb);
      HeadThenTail([58], [58], ma, mb);
    }
    HeadThenTail(Digits(h, 2), Digits(h', 2), [58] + ma, [58] + mb);
  }

  lemma ClockFields(c: int, d: int)
    requires 0 <= c < d < DAY_SECONDS
    ensures var h, m, s, h', m', s' := c / 3600, c / 60 % 60, c % 60, d / 3600, d / 60 % 60, d % 60;
            && 0 <= h < 24 && 0 <= h' < 24
            && (h < h' || (h == h' && (m < m' || (m == m' && s < s'))))
  {
    assert c == 60 * (c / 60) + c % 60 && d == 60 * (d / 60) + d % 60;
    assert c / 3600 == c / 60 / 60 && d / 3600 == d / 60 / 60;
    var x, y := c / 60, d / 60;
    assert x == 60 * (x / 60) + x % 60 && y == 60 * (y / 60) + y % 60;
    assert x <= y;
  }

  /** The 19 characters of a later second are greater. */
  lemma SecondTextOrder(s: int, t: int)
    requires InRange(s) && InRange(t) && s < t
    ensures Less(SecondText(s), SecondText(t))
  {
    var d, e := s / DAY_SECONDS + EPOCH_DAY, t / DAY_SECONDS + EPOCH_DAY;
    var c, c' := s % DAY_SECONDS, t % DAY_SECONDS;
    var cs, ct := ClockText(c / 3600, c / 60 % 60, c % 60), ClockText(c' / 3600, c' / 60 % 60, c' % 60);
    if d == e {
      ClockFields(c, c');
      ClockTextOrder(c / 3600, c / 60 % 60, c % 60, c' / 3600, c' / 60 % 60, c' % 60);
      HeadThenTail([84], [84], cs, ct);
    } else {
      CivilOrder(d, e);
      DateTextOrder(Civil(d), Civil(e));
    }
    HeadThenTail(DateText(Civil(d)), DateText(Civil(e)), [84] + cs, [84] + ct);
  }

  // ---- the fraction

  function TrimZeros(s: Str): (r: Str)
    ensures r <= s
    ensures r == [] || r[|r| - 1] != 48
    ensures forall i | |r| <= i < |s| :: s[i] == 48
  {
    if s == [] || s[|s| - 1] != 48 then s else TrimZeros(s[..|s| - 1])
  }

  /** Nothing for zero nanoseconds, otherwise a point and the significant digits. */
  function Fraction(nanos: nat): (s: Str)
    requires nanos < SECOND
    ensures forall i | 0 <= i < |s| :: s[i] == 46 || 48 <= s[i] <= 57
  {
    if nanos == 0 then [] else [46] + TrimZeros(Digits(nanos, 9))
  }

  predicate ValidTime(t: Time) { INT64_MIN <= t <= INT64_MAX }

  /** Every 64-bit nanosecond time has a four-digit year (1677 to 2262). */
  lemma Int64TimesInRange(t: Time)
    requires ValidTime(t)
    ensures InRange(t / SECOND)
  {
    assert t / SECOND / DAY_SECONDS + EPOCH_DAY >= -106752 + EPOCH_DAY;
    assert t / SECOND / DAY_SECONDS + EPOCH_DAY <= 106752 + EPOCH_DAY;
  }

  function Text(t: Time): (s: Str)
    requires ValidTime(t)
  {
    Int64TimesInRange(t);
    SecondText(t / SECOND) + Fraction(t % SECOND) + [90]
  }

  /** `2001-02-03T04:05:06.07Z`. */
  lemma TextExample()
    ensures Text(981_173_106_070_000_000) ==
            [50, 48, 48, 49, 45, 48, 50, 45, 48, 51, 84, 48, 52, 58, 48, 53, 58, 48, 54, 46, 48, 55, 90]
  {
    hide Civil; hide Digits; hide TrimZeros;
    var day := Date(2001, 2, 3);
    CivilOfDate(day);
    assert DayOf(day) == 981_173_106 / DAY_SECONDS + EPOCH_DAY;
    ExampleDigits();
    assert TrimZeros([48, 55, 48, 48, 48, 48, 48, 48, 48]) == [48, 55] by { TrimExample(); }
  }

  lemma ExampleDigits()
    ensures Digits(2001, 4) == [50, 48, 48, 49] && Digits(2, 2) == [48, 50] && Digits(3, 2) == [48, 51]
    ensures Digits(4, 2) == [48, 52] && Digits(5, 2) == [48, 53] && Digits(6, 2) == [48, 54]
    ensures Digits(70_000_000, 9) == [48, 55, 48, 48, 48, 48, 48, 48, 48]
  {
    hide Digits;
    DigitsStep(2, 1); DigitsStep(20, 2); DigitsStep(200, 3); DigitsStep(2001, 4);
    DigitsStep(0, 1); DigitsStep(2, 2); DigitsStep(3, 2); DigitsStep(4, 2); DigitsStep(5, 2); DigitsStep(6, 2);
    DigitsStep(7, 2); DigitsStep(70, 3); DigitsStep(700, 4); DigitsStep(7000, 5); DigitsStep(70_000, 6);
    DigitsStep(700_000, 7); DigitsStep(7_000_000, 8); DigitsStep(70_000_000, 9);
    DigitsNone(0);
  }

  /** The last digit is the remainder by ten. */
  lemma DigitsStep(n: nat, w: nat)
    requires w > 0
    ensures Digits(n, w) == Digits(n / 10, w - 1) + [48 + n % 10]
  {
  }

  lemma DigitsNone(n: nat)
    ensures Digits(n, 0) == []
  {
  }

  lemma TrimExample()
    ensures TrimZeros([48, 55, 48, 48, 48, 48, 48, 48, 48]) == [48, 55]
  {
    hide TrimZeros;
    var s: Str := [48, 55, 48, 48, 48, 48, 48, 48, 48];
    var r := TrimZeros(s);
    assert s[1] == 55 && (|r| > 0 ==> r[|r| - 1] == s[|r| - 1]);
    assert |r| == 2;
    assert r[0] == s[0] && r[1] == s[1];
  }

  lemma TextLength(t: Time)
    requires ValidTime(t)
    ensures |Text(t)| <= 30
  {
  }

  // ---- text order against time order

  predicate ProperPrefix(p: Str, q: Str) { p < q }

  /** When neither string starts the other, what follows them does not matter. */
  lemma {:induction false} CompareDiverging(a: Str, b: Str, x: Str, y: Str)
    requires !(a <= b) && !(b <= a)
    ensures Compare(a + x, b + y) == Compare(a, b) != 0
  {
    assert (a + x)[0] == a[0] && (b + y)[0] == b[0];
    if a[0] == b[0] {
      assert a == [a[0]] + a[1..] && b == [b[0]] + b[1..];
      assert (a + x)[1..] == a[1..] + x && (b + y)[1..] == b[1..] + y;
      CompareDiverging(a[1..], b[1..], x, y);
    }
  }

  /** A fraction that starts another one sorts after it once the zone letter is appended. */
  lemma ShorterSortsLater(p: Str, q: Str)
    requires ProperPrefix(p, q) && q[|p|] < 90
    ensures Less(q + [90], p + [90])
  {
    assert q == p + q[|p|..];
    assert q + [90] == p + (q[|p|..] + [90]);
    CompareCommonPrefix(p, q[|p|..] + [90], [90]);
    assert (q[|p|..] + [90])[0] == q[|p|];
  }

  lemma {:induction false} ZerosLeast(z: Str, r: Str)
    requires |z| == |r|
    requires forall i | 0 <= i < |z| :: z[i] == 48 <= r[i]
    ensures Compare(z, r) <= 0
  {
    if z != [] { ZerosLeast(z[1..], r[1..]); }
  }

  /** A proper prefix among fractions is the smaller number. */
  lemma PrefixIsSmaller(a: nat, b: nat)
    requires a < SECOND && b < SECOND
    requires ProperPrefix(Fraction(a), Fraction(b))
    ensures a < b
  {
    Pow10Values();
    if a > 0 {
      assert TrimZeros(Digits(a, 9)) == Fraction(a)[1..] && TrimZeros(Digits(b, 9)) == Fraction(b)[1..];
      TrimmedPrefix(Digits(a, 9), Digits(b, 9));
      DigitsOrder(b, a, 9);
      CompareFlip(Digits(a, 9), Digits(b, 9));
    }
  }

  lemma TrimmedPrefix(d: Str, e: Str)
    requires |d| == |e| && (forall i | 0 <= i < |e| :: 48 <= e[i])
    requires ProperPrefix(TrimZeros(d), TrimZeros(e))
    ensures Compare(d, e) <= 0 && d != e
  {
    ZerosAfter(TrimZeros(d), d, e);
  }

  lemma ZerosAfter(p: Str, d: Str, e: Str)
    requires |d| == |e| && p <= d && p <= e
    requires forall i | |p| <= i < |d| :: d[i] == 48 <= e[i]
    ensures Compare(d, e) <= 0
  {
    var x, y := d[|p|..], e[|p|..];
    assert d == p + x && e == p + y;
    CompareCommonPrefix(p, x, y);
    ZerosLeast(x, y);
  }

  lemma DivergingExtensions(p: Str, q: Str, d: Str, e: Str)
    requires p <= d && q <= e && !(p <= q) && !(q <= p)
    ensures Compare(d, e) == Compare(p, q)
  {
    assert d == p + d[|p|..] && e == q + e[|q|..];
    CompareDiverging(p, q, d[|p|..], e[|q|..]);
  }

  lemma SameHeadPrefix(c: Byte, p: Str, q: Str)
    ensures p <= q <==> [c] + p <= [c] + q
  {
    assert ([c] + p)[1..] == p && ([c] + q)[1..] == q;
  }

  /** Fractions that diverge compare as their numbers. */
  lemma DivergingFractions(a: nat, b: nat)
    requires a < SECOND && b < SECOND
    requires !(Fraction(a) <= Fraction(b)) && !(Fraction(b) <= Fraction(a))
    ensures Less(Fraction(a), Fraction(b)) <==> a < b
  {
    Pow10Values();
    var da, db := Digits(a, 9), Digits(b, 9);
    var p, q := TrimZeros(da), TrimZeros(db);
    assert Fraction(a) == [46] + p && Fraction(b) == [46] + q;
    CompareCommonPrefix([46], p, q);
    SameHeadPrefix(46, p, q); SameHeadPrefix(46, q, p);
    DivergingExtensions(p, q, da, db);
    DigitsOrder(a, b, 9); DigitsOrder(b, a, 9);
    CompareFlip(da, db);
  }

  /** Across seconds, text order is time order. */
  lemma TextOrderAcrossSeconds(t: Time, u: Time)
    requires ValidTime(t) && ValidTime(u) && t / SECOND < u / SECOND
    ensures Less(Text(t), Text(u))
  {
    Int64TimesInRange(t); Int64TimesInRange(u);
    SecondTextOrder(t / SECOND, u / SECOND);
    var x, y := Fraction(t % SECOND) + [90], Fraction(u % SECOND) + [90];
    assert Text(t) == SecondText(t / SECOND) + x && Text(u) == SecondText(u / SECOND) + y;
    HeadThenTail(SecondText(t / SECOND), SecondText(u / SECOND), x, y);
  }

  /** Whether one trimmed fraction is the start of the other. */
  predicate Clashing(t: Time, u: Time)
  {
    var p, q := Fraction(t % SECOND), Fraction(u % SECOND);
    ProperPrefix(p, q) || ProperPrefix(q, p)
  }

  /** Within a second, text order is time order exactly when neither trimmed fraction starts
      the other; when one does, the order is reversed. */
  lemma TextOrderWithinSecond(t: Time, u: Time)
    requires ValidTime(t) && ValidTime(u) && t / SECOND == u / SECOND
    ensures (Compare(Text(t), Text(u)) <= 0 <==> t <= u) <==> !Clashing(t, u)
    ensures t != u ==> Text(t) != Text(u)
  {
    Int64TimesInRange(t); Int64TimesInRange(u);
    var a, b, s := t % SECOND, u % SECOND, SecondText(t / SECOND);
    var p, q := Fraction(a), Fraction(b);
    assert Text(t) == s + (p + [90]) && Text(u) == s + (q + [90]);
    CompareCommonPrefix(s, p + [90], q + [90]);
    assert t - u == a - b;
    CompareZero(Text(t), Text(u));
    if p == q {
      SameFraction(a, b);
    } else if ProperPrefix(p, q) {
      PrefixIsSmaller(a, b); ShorterSortsLater(p, q); CompareFlip(p + [90], q + [90]);
    } else if ProperPrefix(q, p) {
      PrefixIsSmaller(b, a); ShorterSortsLater(q, p);
    } else {
      DivergingFractions(a, b);
      CompareDiverging(p, q, [90], [90]);
    }
  }

  lemma SameFraction(a: nat, b: nat)
    requires a < SECOND && b < SECOND && Fraction(a) == Fraction(b)
    ensures a == b
  {
    Pow10Values();
    if a > 0 {
      assert TrimZeros(Digits(a, 9)) == Fraction(a)[1..] && TrimZeros(Digits(b, 9)) == Fraction(b)[1..];
      SameTrimmed(Digits(a, 9), Digits(b, 9));
      DigitsOrder(a, b, 9);
    }
  }

  lemma SameTrimmed(d: Str, e: Str)
    requires |d| == |e| && TrimZeros(d) == TrimZeros(e)
    ensures d == e
  {
    forall i | 0 <= i < |d| ensures d[i] == e[i] {
      if i < |TrimZeros(d)| { assert TrimZeros(d)[i] == d[i] && TrimZeros(e)[i] == e[i]; }
    }
  }

  /** The misordering is real: half a second past sorts before the whole second. */
  lemma HalfSecondSortsFirst()
    ensures Less(Text(SECOND / 2), Text(0))
  {
    var d := Digits(500_000_000, 9);
    assert d[8] == 48;
    TextOrderWithinSecond(0, SECOND / 2);
    assert Fraction(0) == [];
    assert Clashing(0, SECOND / 2);
    CompareFlip(Text(0), Text(SECOND / 2));
    assert Compare(Text(0), Text(SECOND / 2)) > 0;
  }

  /** No time text starts another one, and none holds a NUL. */
  lemma TextShape(t: Time, u: Time)
    requires ValidTime(t) && ValidTime(u)
    ensures NulFree(Text(t))
    ensures Text(t) <= Text(u) ==> Text(t) == Text(u)
  {
    hide SecondText; hide Fraction;
    Int64TimesInRange(t); Int64TimesInRange(u);
    SecondTextAlphabet(t / SECOND); SecondTextAlphabet(u / SECOND);
    assert Text(t)[|Text(t)| - 1] == 90;
    assert forall i | 0 <= i < |Text(u)| - 1 :: Text(u)[i] != 90;
  }

  lemma SecondTextAlphabet(sec: int)
    requires InRange(sec)
    ensures forall i | 0 <= i < |SecondText(sec)| ::
              SecondText(sec)[i] in {45, 58, 84} || 48 <= SecondText(sec)[i] <= 57
  {
  }
}
