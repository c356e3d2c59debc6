// UTC instants and the text isoformat() prints for them (server/main.py keeps
// expiry times as text and lets SQL compare the text).

module IsoTime {
  import opened Wrappers
  import opened Text

  // Microseconds since 0001-01-01T00:00:00, up to the end of year 9999.
  const DAY: int := 86400000000
  const LAST_DAY: int := 3652059
  const END_OF_TIME: int := 315537897600000000

  type Instant = t: int | 0 <= t < END_OF_TIME

  // ---- calendar -----------------------------------------------------------------

  predicate IsLeap(y: nat) { y % 4 == 0 && (y % 100 != 0 || y % 400 == 0) }

  function DaysBeforeYear(y: nat): nat
    requires y >= 1
  {
    var p := y - 1; p * 365 + p / 4 - p / 100 + p / 400
  }

  function YearLength(y: nat): nat { if IsLeap(y) then 366 else 365 }

  function MonthLength(y: nat, m: nat): nat
  {
    if m == 2 then (if IsLeap(y) then 29 else 28) else if m in {4, 6, 9, 11} then 30 else 31
  }

  function DaysBeforeMonth(y: nat, m: nat): nat
    requires 1 <= m <= 13
  {
    if m == 1 then 0 else DaysBeforeMonth(y, m - 1) + MonthLength(y, m - 1)
  }

  lemma YearStep(y: nat)
    requires y >= 1
    ensures DaysBeforeYear(y + 1) == DaysBeforeYear(y) + YearLength(y)
  {
    DivStep(y - 1, 4);
    DivStep(y - 1, 100);
    DivStep(y - 1, 400);
    Divisors(y);
  }

  lemma Divisors(y: nat)
    ensures y % 400 == 0 ==> y % 100 == 0
    ensures y % 100 == 0 ==> y % 4 == 0
  {
    if y % 400 == 0 {
      DivUnique(y, 100, 4 * (y / 400), 0);
    }
    if y % 100 == 0 {
      DivUnique(y, 4, 25 * (y / 100), 0);
    }
  }

  lemma DivStep(p: nat, d: nat)
    requires d >= 2
    ensures (p + 1) / d == p / d + (if (p + 1) % d == 0 then 1 else 0)
  {
    var q, r := p / d, p % d;
    if r == d - 1 {
      assert p + 1 == d * (q + 1);
      DivUnique(p + 1, d, q + 1, 0);
    } else {
      DivUnique(p + 1, d, q, r + 1);
    }
  }

  lemma DivUnique(n: int, d: int, q: int, r: int)
    requires d > 0 && n == d * q + r && 0 <= r < d
    ensures n / d == q && n % d == r
  {
    var q', r' := n / d, n % d;
    assert n == d * q' + r';
    if q' > q {
      MulAtLeast(d, q' - q);
    } else if q' < q {
      MulAtLeast(d, q - q');
    }
  }

  lemma MulAtLeast(d: int, k: int)
    requires d > 0 && k >= 1
    ensures d * k >= d
  {}

  // Comparing numbers is comparing quotients, then remainders.
  lemma QuotientOrder(a: nat, b: nat, d: nat)
    requires d > 0
    ensures a < b <==> a / d < b / d || (a / d == b / d && a % d < b % d)
  {
    assert a == d * (a / d) + a % d && b == d * (b / d) + b % d;
    if a / d < b / d {
      MulAtLeast(d, b / d - a / d);
    } else if b / d < a / d {
      MulAtLeast(d, a / d - b / d);
    }
  }

  lemma MonthsFillYear(y: nat)
    ensures DaysBeforeMonth(y, 13) == YearLength(y)
  {
    var leap := YearLength(y) - 365;
    assert DaysBeforeMonth(y, 2) == 31;
    assert DaysBeforeMonth(y, 3) == 59 + leap;
    assert DaysBeforeMonth(y, 4) == 90 + leap;
    assert DaysBeforeMonth(y, 5) == 120 + leap;
    assert DaysBeforeMonth(y, 6) == 151 + leap;
    assert DaysBeforeMonth(y, 7) == 181 + leap;
    assert DaysBeforeMonth(y, 8) == 212 + leap;
    assert DaysBeforeMonth(y, 9) == 243 + leap;
    assert DaysBeforeMonth(y, 10) == 273 + leap;
    assert DaysBeforeMonth(y, 11) == 304 + leap;
    assert DaysBeforeMonth(y, 12) == 334 + leap;
  }

  function FindYear(day: nat, y: nat): (r: nat)
    requires y >= 1 && DaysBeforeYear(y) <= day
    ensures r >= y && DaysBeforeYear(r) <= day < DaysBeforeYear(r + 1)
    decreases day - DaysBeforeYear(y)
  {
    YearStep(y);
    if day < DaysBeforeYear(y + 1) then y else FindYear(day, y + 1)
  }

  function FindMonth(y: nat, k: nat, m: nat): (r: nat)
    requires 1 <= m <= 12 && DaysBeforeMonth(y, m) <= k < DaysBeforeMonth(y, 13)
    ensures 1 <= r <= 12 && DaysBeforeMonth(y, r) <= k < DaysBeforeMonth(y, r + 1)
    decreases 13 - m
  {
    if k < DaysBeforeMonth(y, m + 1) then m else FindMonth(y, k, m + 1)
  }

  datatype Date = Date(year: nat, month: nat, day: nat)

  predicate ValidDate(d: Date)
  {
    d.year >= 1 && 1 <= d.month <= 12 && 1 <= d.day <= MonthLength(d.year, d.month)
  }

  function DayNumber(d: Date): nat
    requires ValidDate(d)
  {
    DaysBeforeYear(d.year) + DaysBeforeMonth(d.year, d.month) + (d.day - 1)
  }

  function DateOf(n: nat): (d: Date)
    ensures ValidDate(d) && DayNumber(d) == n
  {
    var y := FindYear(n, 1);
    YearStep(y);
    MonthsFillYear(y);
    var k := n - DaysBeforeYear(y);
    var m := FindMonth(y, k, 1);
    Date(y, m, k - DaysBeforeMonth(y, m) + 1)
  }

  predicate DateLess(a: Date, b: Date)
  {
    a.year < b.year || (a.year == b.year && (a.month < b.month || (a.month == b.month && a.day < b.day)))
  }

  lemma {:induction false} YearsMonotone(y: nat, z: nat)
    requires 1 <= y <= z
    ensures DaysBeforeYear(y) <= DaysBeforeYear(z)
    decreases z - y
  {
    if y < z {
      YearStep(y);
      YearsMonotone(y + 1, z);
    }
  }

  lemma {:induction false} MonthsMonotone(y: nat, m: nat, n: nat)
    requires 1 <= m <= n <= 13
    ensures DaysBeforeMonth(y, m) <= DaysBeforeMonth(y, n)
    decreases n - m
  {
    if m < n {
      MonthsMonotone(y, m, n - 1);
    }
  }

  lemma WithinYear(d: Date)
    requires ValidDate(d)
    ensures DaysBeforeYear(d.year) <= DayNumber(d) < DaysBeforeYear(d.year + 1)
    ensures DaysBeforeMonth(d.year, d.month) <= DayNumber(d) - DaysBeforeYear(d.year)
      < DaysBeforeMonth(d.year, d.month + 1)
  {
    hide DaysBeforeYear, MonthLength;
    YearStep(d.year);
    MonthsFillYear(d.year);
    assert DaysBeforeMonth(d.year, d.month + 1)
        == DaysBeforeMonth(d.year, d.month) + MonthLength(d.year, d.month);
    MonthsMonotone(d.year, d.month + 1, 13);
  }

  lemma LaterDate(a: Date, b: Date)
    requires ValidDate(a) && ValidDate(b) && DateLess(a, b)
    ensures DayNumber(a) < DayNumber(b)
  {
    hide DaysBeforeYear, DaysBeforeMonth;
    WithinYear(a);
    WithinYear(b);
    if a.year < b.year {
      YearsMonotone(a.year + 1, b.year);
    } else if a.month < b.month {
      MonthsMonotone(a.year, a.month + 1, b.month);
    }
  }

  // Days in calendar order are days in numeric order.
  lemma DatesOrdered(m: nat, n: nat)
    ensures DateLess(DateOf(m), DateOf(n)) <==> m < n
  {
    hide DateOf, DayNumber;
    var a, b := DateOf(m), DateOf(n);
    if DateLess(a, b) {
      LaterDate(a, b);
    } else if DateLess(b, a) {
      LaterDate(b, a);
    }
  }

  // ---- fixed-width text and its order ----------------------------------------------

  // memcmp order, which is what SQLite's TEXT comparison and C's strcmp use.
  predicate TextLess(a: string, b: string)
  {
    if b == "" then false
    else if a == "" then true
    else a[0] < b[0] || (a[0] == b[0] && TextLess(a[1..], b[1..]))
  }

  function Pow10(w: nat): (p: nat)
    ensures p >= 1
  {
    if w == 0 then 1 else 10 * Pow10(w - 1)
  }

  // w decimal digits, zero-padded.
  function Fixed(v: nat, w: nat): (s: string)
    ensures |s| == w && forall i | 0 <= i < w :: IsDigit(s[i])
  {
    if w == 0 then "" else Fixed(v / 10, w - 1) + [Digit(v % 10)]
  }

  lemma TextLessSplit(p: string, q: string, x: string, y: string)
    requires |p| == |q|
    ensures TextLess(p + x, q + y) <==> TextLess(p, q) || (p == q && TextLess(x, y))
  {
    if p == "" {
      assert p + x == x && q + y == y;
    } else {
      assert (p + x)[1..] == p[1..] + x && (q + y)[1..] == q[1..] + y;
      TextLessSplit(p[1..], q[1..], x, y);
      assert p == q <==> p[0] == q[0] && p[1..] == q[1..];
    }
  }

  lemma {:induction false} FixedOrder(u: nat, v: nat, w: nat)
    requires u < Pow10(w) && v < Pow10(w)
    ensures TextLess(Fixed(u, w), Fixed(v, w)) <==> u < v
    ensures Fixed(u, w) == Fixed(v, w) <==> u == v
  {
    if w > 0 {
      var a, b := Fixed(u / 10, w - 1), Fixed(v / 10, w - 1);
      FixedOrder(u / 10, v / 10, w - 1);
      var x, y := [Digit(u % 10)], [Digit(v % 10)];
      OneDigitOrder(u % 10, v % 10);
      TextLessSplit(a, b, x, y);
      assert a + x == b + y <==> a == b && x == y by {
        assert (a + x)[..w - 1] == a && (b + y)[..w - 1] == b;
        assert (a + x)[w - 1..] == x && (b + y)[w - 1..] == y;
      }
    }
  }

  lemma OneDigitOrder(u: nat, v: nat)
    requires u < 10 && v < 10
    ensures TextLess([Digit(u)], [Digit(v)]) <==> u < v
    ensures [Digit(u)] == [Digit(v)] <==> u == v
  {
    var a, b := Digit(u), Digit(v);
    assert a as int == u + 48 && b as int == v + 48;
    assert [a][1..] == "" && [b][1..] == "";
    assert [a][0] == a && [b][0] == b;
  }

  // A fixed-width field followed by its separator.
  function Field(v: nat, w: nat, sep: string): string { Fixed(v, w) + sep }

  lemma FieldOrder(u: nat, v: nat, w: nat, sep: string, x: string, y: string)
    requires u < Pow10(w) && v < Pow10(w)
    ensures TextLess(Field(u, w, sep) + x, Field(v, w, sep) + y) <==> u < v || (u == v && TextLess(x, y))
  {
    FixedOrder(u, v, w);
    assert Field(u, w, sep) + x == Fixed(u, w) + (sep + x);
    assert Field(v, w, sep) + y == Fixed(v, w) + (sep + y);
    TextLessSplit(Fixed(u, w), Fixed(v, w), sep + x, sep + y);
    TextLessSplit(sep, sep, x, y);
    NotLessThanItself(sep);
  }

  lemma {:induction false} NotLessThanItself(s: string)
    ensures !TextLess(s, s)
  {
    if s != "" {
      NotLessThanItself(s[1..]);
    }
  }

  // ---- isoformat() -----------------------------------------------------------------

  datatype Clock = Clock(hour: nat, minute: nat, second: nat, micro: nat)

  function ClockOf(r: nat): (c: Clock)
    requires r < DAY
    ensures c.hour < 24 && c.minute < 60 && c.second < 60 && c.micro < 1000000
  {
    Clock(r / 3600000000, r % 3600000000 / 60000000, r % 60000000 / 1000000, r % 1000000)
  }

  // The fraction is left out when it is zero.
  function Fraction(micro: nat): string
  {
    if micro == 0 then "+00:00" else "." + Field(micro, 6, "+00:00")
  }

  function ClockText(c: Clock): string
  {
    Field(c.hour, 2, ":") + (Field(c.minute, 2, ":") + (Field(c.second, 2, "") + Fraction(c.micro)))
  }

  function DateText(d: Date, rest: string): string
  {
    Field(d.year, 4, "-") + (Field(d.month, 2, "-") + (Field(d.day, 2, "T") + rest))
  }

  function Iso(t: Instant): string { DateText(DateOf(t / DAY), ClockText(ClockOf(t % DAY))) }

  lemma Powers()
    ensures Pow10(2) == 100 && Pow10(4) == 10000 && Pow10(6) == 1000000
  {
    assert Pow10(1) == 10;
    assert Pow10(2) == 100;
    assert Pow10(3) == 1000;
    assert Pow10(4) == 10000;
    assert Pow10(5) == 100000;
  }

  lemma FractionOrder(u: nat, v: nat)
    requires u < 1000000 && v < 1000000
    ensures TextLess(Fraction(u), Fraction(v)) <==> u < v
  {
    Powers();
    NotLessThanItself("+00:00");
    hide Pow10;
    if u != 0 && v != 0 {
      TextLessSplit(".", ".", Field(u, 6, "+00:00"), Field(v, 6, "+00:00"));
      NotLessThanItself(".");
      FieldOrder(u, v, 6, "+00:00", "", "");
      assert Field(u, 6, "+00:00") + "" == Field(u, 6, "+00:00");
      assert Field(v, 6, "+00:00") + "" == Field(v, 6, "+00:00");
    } else {
      assert u == 0 ==> Fraction(u)[0] == '+';
      assert u != 0 ==> Fraction(u)[0] == '.';
      assert v == 0 ==> Fraction(v)[0] == '+';
      assert v != 0 ==> Fraction(v)[0] == '.';
    }
  }

  predicate ClockLess(a: Clock, b: Clock)
  {
    a.hour < b.hour || (a.hour == b.hour && (a.minute < b.minute || (a.minute == b.minute
      && (a.second < b.second || (a.second == b.second && a.micro < b.micro)))))
  }

  lemma ClockTextOrder(r: nat, q: nat)
    requires r < DAY && q < DAY
    ensures TextLess(ClockText(ClockOf(r)), ClockText(ClockOf(q))) <==> ClockLess(ClockOf(r), ClockOf(q))
  {
    Powers();
    var a, b := ClockOf(r), ClockOf(q);
    hide Pow10, Field, Fraction, TextLess, ClockOf;
    FractionOrder(a.micro, b.micro);
    FieldOrder(a.second, b.second, 2, "", Fraction(a.micro), Fraction(b.micro));
    var x, y := Field(a.second, 2, "") + Fraction(a.micro), Field(b.second, 2, "") + Fraction(b.micro);
    FieldOrder(a.minute, b.minute, 2, ":", x, y);
    FieldOrder(a.hour, b.hour, 2, ":", Field(a.minute, 2, ":") + x, Field(b.minute, 2, ":") + y);
  }

  lemma ClocksOrdered(r: nat, q: nat)
    requires r < DAY && q < DAY
    ensures ClockLess(ClockOf(r), ClockOf(q)) <==> r < q
  {
    QuotientOrder(r, q, 3600000000);
    QuotientOrder(r % 3600000000, q % 3600000000, 60000000);
    QuotientOrder(r % 60000000, q % 60000000, 1000000);
    NestedRemainders(r);
    NestedRemainders(q);
  }

  lemma NestedRemainders(r: nat)
    ensures r % 3600000000 % 60000000 == r % 60000000
    ensures r % 60000000 % 1000000 == r % 1000000
  {
    RemainderOfMultiple(r, 60000000, 60);
    RemainderOfMultiple(r, 1000000, 60);
  }

  lemma RemainderOfMultiple(r: nat, d: nat, k: nat)
    requires d > 0 && k > 0
    ensures r % (d * k) % d == r % d
  {
    var q, s := r / (d * k), r % (d * k);
    var a, b := s / d, s % d;
    calc {
      r;
      d * k * q + (d * a + b);
      d * (k * q + a) + b;
    }
    DivUnique(r, d, k * q + a, b);
  }

  lemma YearInRange(t: Instant)
    ensures DateOf(t / DAY).year < 10000
  {
    assert t / DAY < LAST_DAY;
    assert DaysBeforeYear(10000) == LAST_DAY;
    WithinYear(DateOf(t / DAY));
  }

  lemma SmallFields(d: Date)
    requires ValidDate(d)
    ensures d.month < 100 && d.day < 100
  {}

  lemma DateTextOrder(a: Date, b: Date, x: string, y: string)
    requires ValidDate(a) && ValidDate(b) && a.year < 10000 && b.year < 10000
    ensures TextLess(DateText(a, x), DateText(b, y)) <==> DateLess(a, b) || (a == b && TextLess(x, y))
  {
    Powers();
    SmallFields(a);
    SmallFields(b);
    hide Pow10, Field, TextLess, ValidDate;
    FieldOrder(a.day, b.day, 2, "T", x, y);
    var p, q := Field(a.day, 2, "T") + x, Field(b.day, 2, "T") + y;
    FieldOrder(a.month, b.month, 2, "-", p, q);
    FieldOrder(a.year, b.year, 4, "-", Field(a.month, 2, "-") + p, Field(b.month, 2, "-") + q);
  }

  // Main result: comparing the printed text compares the instants, although the
  // texts differ in length when a fraction is zero.
  lemma IsoOrder(t: Instant, u: Instant)
    ensures TextLess(Iso(t), Iso(u)) <==> t < u
  {
    hide TextLess, DateText, ClockText, ClockLess, DateLess, ClockOf, DateOf;
    var m, n := t / DAY, u / DAY;
    var r, q := t % DAY, u % DAY;
    YearInRange(t);
    YearInRange(u);
    DatesOrdered(m, n);
    DatesOrdered(n, m);
    ClockTextOrder(r, q);
    ClocksOrdered(r, q);
    DateTextOrder(DateOf(m), DateOf(n), ClockText(ClockOf(r)), ClockText(ClockOf(q)));
    assert DateOf(m) == DateOf(n) ==> m == n;
    assert t < u <==> m < n || (m == n && r < q);
  }

  // ---- fromisoformat() on what isoformat() prints --------------------------------------

  function FixedValue(s: string): nat
  {
    if s == "" then 0
    else 10 * FixedValue(s[..|s| - 1]) + (if IsDigit(s[|s| - 1]) then DigitValue(s[|s| - 1]) else 0)
  }

  lemma {:induction false} FixedRoundTrip(v: nat, w: nat)
    requires v < Pow10(w)
    ensures FixedValue(Fixed(v, w)) == v
  {
    if w > 0 {
      var s := Fixed(v, w);
      FixedRoundTrip(v / 10, w - 1);
      assert s[..|s| - 1] == Fixed(v / 10, w - 1);
      DigitOf(v % 10);
    }
  }

  lemma DigitOf(d: nat)
    requires d < 10
    ensures DigitValue(Digit(d)) == d
  {}

  // Read a field of w digits and its separator of k characters.
  function Take(s: string, w: nat, k: nat): (nat, string)
  {
    if |s| < w + k then (0, "") else (FixedValue(s[..w]), s[w + k..])
  }

  lemma TakeField(v: nat, w: nat, sep: string, rest: string)
    requires v < Pow10(w)
    ensures Take(Field(v, w, sep) + rest, w, |sep|) == (v, rest)
  {
    FixedRoundTrip(v, w);
    var s := Field(v, w, sep) + rest;
    assert s[..w] == Fixed(v, w) && s[w + |sep|..] == rest;
  }

  function ParseClock(s: string): Clock
  {
    var (hour, s1) := Take(s, 2, 1);
    var (minute, s2) := Take(s1, 2, 1);
    var (second, s3) := Take(s2, 2, 0);
    Clock(hour, minute, second, if s3 != "" && s3[0] == '.' then Take(s3[1..], 6, 6).0 else 0)
  }

  function ParseDate(s: string): (Date, string)
  {
    var (year, s1) := Take(s, 4, 1);
    var (month, s2) := Take(s1, 2, 1);
    var (day, s3) := Take(s2, 2, 1);
    (Date(year, month, day), s3)
  }

  function Micros(d: Date, c: Clock): int
    requires ValidDate(d)
  {
    DayNumber(d) * DAY + c.hour * 3600000000 + c.minute * 60000000 + c.second * 1000000 + c.micro
  }

  function FromIso(s: string): Option<int>
  {
    var (d, rest) := ParseDate(s);
    if ValidDate(d) then Some(Micros(d, ParseClock(rest))) else None
  }

  lemma FractionRead(micro: nat)
    requires micro < 1000000
    ensures var s := Fraction(micro);
      s != "" && (if s[0] == '.' then Take(s[1..], 6, 6).0 else 0) == micro
  {
    Powers();
    hide Take, Pow10;
    if micro != 0 {
      TakeField(micro, 6, "+00:00", "");
      assert Field(micro, 6, "+00:00") + "" == Field(micro, 6, "+00:00");
      assert Fraction(micro)[1..] == Field(micro, 6, "+00:00");
    }
  }

  lemma ClockRead(r: nat)
    requires r < DAY
    ensures ParseClock(ClockText(ClockOf(r))) == ClockOf(r)
  {
    Powers();
    var c := ClockOf(r);
    hide Take, Pow10, Field, Fraction, ClockOf;
    var s3 := Fraction(c.micro);
    var s2 := Field(c.second, 2, "") + s3;
    var s1 := Field(c.minute, 2, ":") + s2;
    TakeField(c.hour, 2, ":", s1);
    TakeField(c.minute, 2, ":", s2);
    TakeField(c.second, 2, "", s3);
    FractionRead(c.micro);
  }

  lemma DateRead(d: Date, rest: string)
    requires ValidDate(d) && d.year < 10000
    ensures ParseDate(DateText(d, rest)) == (d, rest)
  {
    Powers();
    SmallFields(d);
    hide Take, Pow10, Field, ValidDate;
    var s2 := Field(d.day, 2, "T") + rest;
    var s1 := Field(d.month, 2, "-") + s2;
    TakeField(d.year, 4, "-", s1);
    TakeField(d.month, 2, "-", s2);
    TakeField(d.day, 2, "T", rest);
  }

  lemma ClockTotal(r: nat)
    requires r < DAY
    ensures var c := ClockOf(r); c.hour * 3600000000 + c.minute * 60000000 + c.second * 1000000 + c.micro == r
  {
    assert r == 3600000000 * (r / 3600000000) + r % 3600000000;
    assert r % 3600000000 == 60000000 * (r % 3600000000 / 60000000) + r % 60000000;
    assert r % 60000000 == 1000000 * (r % 60000000 / 1000000) + r % 1000000;
  }

  lemma IsoRoundTrip(t: Instant)
    ensures FromIso(Iso(t)) == Some(t)
  {
    hide DateText, ClockText, ParseDate, ParseClock, ClockOf, DateOf, DayNumber;
    var n, r := t / DAY, t % DAY;
    YearInRange(t);
    DateRead(DateOf(n), ClockText(ClockOf(r)));
    ClockRead(r);
    ClockTotal(r);
    assert t == n * DAY + r;
  }

  // ---- the text and the calendar, written out ---------------------------------------------

  const MONTHS: seq<nat> := [31, 28, 31, 30, 31, 30, 31, 31, 30, 31, 30, 31]

  // The Gregorian calendar, and instants as microseconds of its days.
  lemma Calendar(y: nat, m: nat)
    requires 1 <= m <= 12
    ensures IsLeap(y) <==> y % 400 == 0 || (y % 4 == 0 && y % 100 != 0)
    ensures YearLength(y) == 365 + (if IsLeap(y) then 1 else 0)
    ensures MonthLength(y, m) == MONTHS[m - 1] + (if m == 2 && IsLeap(y) then 1 else 0)
    ensures DAY == 24 * 60 * 60 * 1_000_000 && END_OF_TIME == 3652059 * DAY
  {
    Divisors(y);
  }

  lemma FirstMonths(y: nat)
    ensures DaysBeforeMonth(y, 1) == 0 && DaysBeforeMonth(y, 2) == 31
    ensures DaysBeforeMonth(y, 3) == if IsLeap(y) then 60 else 59
    ensures DaysBeforeMonth(y, 12) == if IsLeap(y) then 335 else 334
  {
    MonthsFillYear(y);
    assert DaysBeforeMonth(y, 13) == DaysBeforeMonth(y, 12) + 31;
    assert DaysBeforeMonth(y, 2) == DaysBeforeMonth(y, 1) + 31;
  }

  // Day 0 is the first of January of year 1; the day after the last of a month is the
  // first of the next, and the day after the last of a year the first of the next.
  lemma DaysFollow(y: nat, m: nat)
    requires y >= 1 && 1 <= m <= 12
    ensures DayNumber(Date(1, 1, 1)) == 0
    ensures var last := Date(y, m, MonthLength(y, m));
      var next := if m < 12 then Date(y, m + 1, 1) else Date(y + 1, 1, 1);
      DayNumber(next) == DayNumber(last) + 1
    ensures forall d | 1 <= d < MonthLength(y, m) :: DayNumber(Date(y, m, d + 1)) == DayNumber(Date(y, m, d)) + 1
  {
    YearStep(y);
    MonthsFillYear(y);
    hide IsLeap;
    assert DaysBeforeMonth(y, m + 1) == DaysBeforeMonth(y, m) + MonthLength(y, m);
    assert DaysBeforeMonth(y + 1, 1) == 0 && DaysBeforeMonth(1, 1) == 0;
    assert DaysBeforeYear(1) == 0;
  }

  lemma KnownDays()
    ensures DayNumber(Date(1970, 1, 1)) == 719162 && DayNumber(Date(2000, 2, 29)) == 730178
    ensures DayNumber(Date(1900, 3, 1)) == 693654 && DayNumber(Date(2025, 1, 1)) == 739251
    ensures DayNumber(Date(9999, 12, 31)) == 3652058
  {
    FirstMonths(1970);
    FirstMonths(2000);
    FirstMonths(1900);
    FirstMonths(2025);
    FirstMonths(9999);
    hide DaysBeforeMonth;
  }

  lemma {:induction false} FixedUnique(s: string, v: nat, w: nat)
    requires |s| == w && (forall i | 0 <= i < w :: '0' <= s[i] <= '9') && FixedValue(s) == v
    ensures s == Fixed(v, w)
  {
    if w > 0 {
      var front, last := s[..w - 1], s[w - 1];
      var f, d := FixedValue(front), DigitValue(last);
      FixedUnique(front, f, w - 1);
      assert v == 10 * f + d;
      hide FixedValue, DigitValue;
      assert v / 10 == f && v % 10 == d;
      assert s == front + [last];
    }
  }

  // A field of w digits is the one such text with its value.
  lemma FixedIs(s: string, v: nat, w: nat)
    requires v < Pow10(w) && |s| == w && forall i | 0 <= i < w :: '0' <= s[i] <= '9'
    ensures s == Fixed(v, w) <==> FixedValue(s) == v
  {
    FixedRoundTrip(v, w);
    if FixedValue(s) == v {
      FixedUnique(s, v, w);
    }
  }

  // What is printed: date, T, time, the fraction if it is not zero, and the UTC offset,
  // for the one date and clock that make up the instant.
  lemma IsoText(t: Instant, d: Date, c: Clock)
    requires ValidDate(d) && c.hour < 24 && c.minute < 60 && c.second < 60 && c.micro < 1_000_000
    requires t == DayNumber(d) * DAY + ((c.hour * 60 + c.minute) * 60 + c.second) * 1_000_000 + c.micro
    ensures Iso(t) ==
      Fixed(d.year, 4) + "-" + Fixed(d.month, 2) + "-" + Fixed(d.day, 2) + "T"
      + Fixed(c.hour, 2) + ":" + Fixed(c.minute, 2) + ":" + Fixed(c.second, 2)
      + (if c.micro == 0 then "" else "." + Fixed(c.micro, 6)) + "+00:00"
  {
    hide DateOf, DayNumber, ClockOf, Fixed;
    var q, r := t / DAY, t % DAY;
    ClockFits(c);
    assert q == DayNumber(d) && r == ((c.hour * 60 + c.minute) * 60 + c.second) * 1_000_000 + c.micro;
    SameDate(d);
    SameClock(c, r);
    TextFlat(d, c);
  }

  lemma ClockFits(c: Clock)
    requires c.hour < 24 && c.minute < 60 && c.second < 60 && c.micro < 1_000_000
    ensures 0 <= ((c.hour * 60 + c.minute) * 60 + c.second) * 1_000_000 + c.micro < DAY
  {}

  lemma SameDate(d: Date)
    requires ValidDate(d)
    ensures DateOf(DayNumber(d)) == d
  {
    hide DateOf, DayNumber, ValidDate;
    var e := DateOf(DayNumber(d));
    if DateLess(d, e) {
      LaterDate(d, e);
    } else if DateLess(e, d) {
      LaterDate(e, d);
    }
  }

  lemma SameClock(c: Clock, r: nat)
    requires c.hour < 24 && c.minute < 60 && c.second < 60 && c.micro < 1_000_000 && r < DAY
    requires r == ((c.hour * 60 + c.minute) * 60 + c.second) * 1_000_000 + c.micro
    ensures ClockOf(r) == c
  {
    var b := ClockOf(r);
    ClockTotal(r);
    hide ClockOf;
    assert b.hour * 3600 + b.minute * 60 + b.second == c.hour * 3600 + c.minute * 60 + c.second && b.micro == c.micro;
    assert b.hour * 60 + b.minute == c.hour * 60 + c.minute && b.second == c.second;
  }

  lemma TextFlat(d: Date, c: Clock)
    ensures DateText(d, ClockText(c)) ==
      Fixed(d.year, 4) + "-" + Fixed(d.month, 2) + "-" + Fixed(d.day, 2) + "T"
      + Fixed(c.hour, 2) + ":" + Fixed(c.minute, 2) + ":" + Fixed(c.second, 2)
      + (if c.micro == 0 then "" else "." + Fixed(c.micro, 6)) + "+00:00"
  {
    hide Fixed;
    var f := (if c.micro == 0 then "" else "." + Fixed(c.micro, 6)) + "+00:00";
    assert Fraction(c.micro) == f;
    var clock := Fixed(c.hour, 2) + ":" + Fixed(c.minute, 2) + ":" + Fixed(c.second, 2) + f;
    assert ClockText(c) == clock;
    assert DateText(d, clock) == Fixed(d.year, 4) + "-" + Fixed(d.month, 2) + "-" + Fixed(d.day, 2) + "T" + clock;
  }
}
