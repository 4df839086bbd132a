/** UTC timestamps as the standard formatter writes them, and their order as text. */
module Timestamps {
  import opened Ordering
  import opened Numerals

  /** A UTC moment of the years 0 to 9999, down to nanoseconds. */
  datatype Instant = Instant(year: nat, month: nat, day: nat, hour: nat, minute: nat, second: nat, nanos: nat)

  predicate ValidInstant(t: Instant) {
    && t.year < 10000 && 1 <= t.month <= 12 && 1 <= t.day <= 31
    && t.hour < 24 && t.minute < 60 && t.second < 60 && t.nanos < 1_000_000_000
  }

  /** Time order of whole seconds. */
  predicate SecondBefore(a: Instant, b: Instant) {
    || a.year < b.year
    || (a.year == b.year && (a.month < b.month
    || (a.month == b.month && (a.day < b.day
    || (a.day == b.day && (a.hour < b.hour
    || (a.hour == b.hour && (a.minute < b.minute
    || (a.minute == b.minute && a.second < b.second)))))))))
  }

  predicate SameSecond(a: Instant, b: Instant) { a.(nanos := 0) == b.(nanos := 0) }

  /** Time order. */
  predicate Before(a: Instant, b: Instant) { SecondBefore(a, b) || (SameSecond(a, b) && a.nanos < b.nanos) }

  /** Exactly `w` digits. */
  function Pad(n: nat, w: nat): (s: string)
    ensures |s| == w
  {
    if w == 0 then [] else Pad(n / 10, w - 1) + [Digit(n % 10)]
  }

  const ZONE := "+00:00"

  /** Fraction groups of three digits each; trailing zero groups are left out. */
  function Group3(g3: nat): string { if g3 == 0 then ZONE else Pad(g3, 3) + ZONE }

  function Group2(g2: nat, g3: nat): string { if g2 == 0 && g3 == 0 then ZONE else Pad(g2, 3) + Group3(g3) }

  /** No fraction, or 3, 6 or 9 digits, then the zone. */
  function Fraction(nanos: nat): string {
    if nanos == 0 then ZONE
    else "." + Pad(nanos / 1_000_000, 3) + Group2(nanos / 1000 % 1000, nanos % 1000)
  }

  function AfterMinute(t: Instant, tail: string): string { Pad(t.second, 2) + tail }
  function AfterHour(t: Instant, tail: string): string { Pad(t.minute, 2) + ":" + AfterMinute(t, tail) }
  function AfterDay(t: Instant, tail: string): string { Pad(t.hour, 2) + ":" + AfterHour(t, tail) }
  function AfterMonth(t: Instant, tail: string): string { Pad(t.day, 2) + "T" + AfterDay(t, tail) }
  function AfterYear(t: Instant, tail: string): string { Pad(t.month, 2) + "-" + AfterMonth(t, tail) }

  /** `YYYY-MM-DDThh:mm:ss`, then fraction and zone. */
  function Stamp(t: Instant, tail: string): string { Pad(t.year, 4) + "-" + AfterYear(t, tail) }

  /** `YYYY-MM-DDThh:mm:ss[.fff[fff[fff]]]+00:00` */
  function Formatted(t: Instant): string { Stamp(t, Fraction(t.nanos)) }

  // ---- Order of the parts ----

  lemma CodesConcat(a: string, b: string)
    ensures Codes(a + b) == Codes(a) + Codes(b)
  {}

  lemma TextConcat(a: string, b: string, x: string, y: string)
    requires |a| == |b|
    ensures TextLess(a + x, b + y) <==> TextLess(a, b) || (a == b && TextLess(x, y))
  {
    CodesConcat(a, x);
    CodesConcat(b, y);
    LexConcat(Codes(a), Codes(b), Codes(x), Codes(y));
    if Codes(a) == Codes(b) { CodesInjective(a, b); }
  }

  lemma SameHead(h: string, x: string, y: string)
    ensures TextLess(h + x, h + y) <==> TextLess(x, y)
  {
    TextConcat(h, h, x, y);
    LexTrichotomy(Codes(h), Codes(h));
  }

  lemma FirstChars(x: string, y: string)
    requires x != [] && y != [] && x[0] < y[0]
    ensures TextLess(x, y) && !TextLess(y, x)
  {}

  lemma OneChar(c: char, d: char)
    ensures TextLess([c], [d]) <==> c < d
  {
    assert Codes([c]) == [c as int] && Codes([d]) == [d as int];
    var x, y := [c as int], [d as int];
    assert x[1..] == [] && y[1..] == [] && !LexLess(x[1..], y[1..]);
    assert LexLess(x, y) <==> x[0] < y[0];
  }

  lemma {:induction false} PadOrder(a: nat, b: nat, w: nat)
    requires a < Pow10(w) && b < Pow10(w)
    ensures TextLess(Pad(a, w), Pad(b, w)) <==> a < b
    ensures Pad(a, w) == Pad(b, w) <==> a == b
  {
    if w > 0 {
      var x, y := Pad(a / 10, w - 1), Pad(b / 10, w - 1);
      PadOrder(a / 10, b / 10, w - 1);
      LastDigit(x, y, a % 10, b % 10);
    }
  }

  lemma LastDigit(x: string, y: string, c: nat, d: nat)
    requires |x| == |y| && c < 10 && d < 10
    ensures TextLess(x + [Digit(c)], y + [Digit(d)]) <==> TextLess(x, y) || (x == y && c < d)
    ensures x + [Digit(c)] == y + [Digit(d)] <==> x == y && c == d
  {
    TextConcat(x, y, [Digit(c)], [Digit(d)]);
    OneChar(Digit(c), Digit(d));
    if x + [Digit(c)] == y + [Digit(d)] {
      assert (x + [Digit(c)])[..|x|] == x && (y + [Digit(d)])[..|y|] == y;
      assert (x + [Digit(c)])[|x|] == Digit(c) && (y + [Digit(d)])[|y|] == Digit(d);
    }
  }

  /** A fixed-width number, a separator, and the rest. */
  lemma NumberThen(a: nat, b: nat, w: nat, sep: string, x: string, y: string)
    requires a < Pow10(w) && b < Pow10(w)
    ensures TextLess(Pad(a, w) + sep + x, Pad(b, w) + sep + y) <==> a < b || (a == b && TextLess(x, y))
  {
    PadOrder(a, b, w);
    assert Pad(a, w) + sep + x == Pad(a, w) + (sep + x) && Pad(b, w) + sep + y == Pad(b, w) + (sep + y);
    TextConcat(Pad(a, w), Pad(b, w), sep + x, sep + y);
    SameHead(sep, x, y);
  }

  lemma Widths()
    ensures Pow10(2) == 100 && Pow10(3) == 1000 && Pow10(4) == 10000
  {}

  /** Leaving the trailing groups out sorts before writing them. */
  lemma ZoneBeforeDigits(g: nat, rest: string)
    ensures TextLess(ZONE, Pad(g, 3) + rest) && !TextLess(Pad(g, 3) + rest, ZONE)
  {
    var p := Pad(g, 3);
    assert p == Pad(g / 10, 2) + [Digit(g % 10)] && Pad(g / 10, 2) == Pad(g / 10 / 10, 1) + [Digit(g / 10 % 10)];
    assert Pad(g / 10 / 10, 1) == [] + [Digit(g / 10 / 10 % 10)];
    assert p[0] == Digit(g / 10 / 10 % 10);
    FirstChars(ZONE, p + rest);
  }

  lemma ZoneNotBelowItself()
    ensures !TextLess(ZONE, ZONE)
  {}

  lemma Group3Order(a: nat, b: nat)
    requires a < 1000 && b < 1000
    ensures TextLess(Group3(a), Group3(b)) <==> a < b
  {
    Widths();
    ZoneNotBelowItself();
    ZoneBeforeDigits(a, ZONE);
    ZoneBeforeDigits(b, ZONE);
    NumberThen(a, b, 3, "", ZONE, ZONE);
    assert Pad(a, 3) + "" == Pad(a, 3) && Pad(b, 3) + "" == Pad(b, 3);
  }

  lemma Group2Order(a2: nat, a3: nat, b2: nat, b3: nat)
    requires a2 < 1000 && a3 < 1000 && b2 < 1000 && b3 < 1000
    ensures TextLess(Group2(a2, a3), Group2(b2, b3)) <==> a2 < b2 || (a2 == b2 && a3 < b3)
  {
    Widths();
    ZoneNotBelowItself();
    ZoneBeforeDigits(a2, Group3(a3));
    ZoneBeforeDigits(b2, Group3(b3));
    Group3Order(a3, b3);
    NumberThen(a2, b2, 3, "", Group3(a3), Group3(b3));
    assert Pad(a2, 3) + "" == Pad(a2, 3) && Pad(b2, 3) + "" == Pad(b2, 3);
  }

  lemma FractionOrder(a: nat, b: nat)
    requires a < 1_000_000_000 && b < 1_000_000_000
    ensures TextLess(Fraction(a), Fraction(b)) <==> a < b
  {
    if a != 0 && b != 0 {
      NonZeroOrder(a, b);
    } else {
      ZeroFirst(a, b);
    }
  }

  lemma ZeroFirst(a: nat, b: nat)
    requires a == 0 || b == 0
    ensures TextLess(Fraction(a), Fraction(b)) <==> a < b
  {
    ZoneNotBelowItself();
    if b != 0 { FirstChars(ZONE, Fraction(b)); }
    if a != 0 { FirstChars(ZONE, Fraction(a)); }
  }

  lemma NonZeroOrder(a: nat, b: nat)
    requires 0 < a < 1_000_000_000 && 0 < b < 1_000_000_000
    ensures TextLess(Fraction(a), Fraction(b)) <==> a < b
  {
    Groups(a);
    Groups(b);
    GroupsOrder(a / 1_000_000, a / 1000 % 1000, a % 1000, b / 1_000_000, b / 1000 % 1000, b % 1000);
  }

  /** Three groups of three digits compare as numbers do. */
  lemma GroupsOrder(a1: nat, a2: nat, a3: nat, b1: nat, b2: nat, b3: nat)
    requires a1 < 1000 && a2 < 1000 && a3 < 1000 && b1 < 1000 && b2 < 1000 && b3 < 1000
    ensures TextLess("." + Pad(a1, 3) + Group2(a2, a3), "." + Pad(b1, 3) + Group2(b2, b3))
       <==> a1 * 1_000_000 + a2 * 1000 + a3 < b1 * 1_000_000 + b2 * 1000 + b3
  {
    Widths();
    Group2Order(a2, a3, b2, b3);
    var x, y := Group2(a2, a3), Group2(b2, b3);
    NumberThen(a1, b1, 3, "", x, y);
    AfterPoint(Pad(a1, 3), x, Pad(b1, 3), y);
  }

  lemma AfterPoint(p: string, x: string, q: string, y: string)
    ensures TextLess("." + p + x, "." + q + y) <==> TextLess(p + "" + x, q + "" + y)
  {
    assert "." + p + x == "." + (p + "" + x) && "." + q + y == "." + (q + "" + y);
    SameHead(".", p + "" + x, q + "" + y);
  }

  lemma Groups(n: nat)
    requires n < 1_000_000_000
    ensures n == n / 1_000_000 * 1_000_000 + n / 1000 % 1000 * 1000 + n % 1000
    ensures n / 1_000_000 < 1000
  {}

  /** Text order of formatted timestamps is time order, whatever their fraction lengths. */
  lemma FormatOrder(a: Instant, b: Instant)
    requires ValidInstant(a) && ValidInstant(b)
    ensures TextLess(Formatted(a), Formatted(b)) <==> Before(a, b)
    ensures TextLe(Formatted(a), Formatted(b)) <==> !Before(b, a)
  {
    FormatLess(a, b);
    FormatLess(b, a);
    TextOrder(Formatted(a), Formatted(b));
    TextOrder(Formatted(b), Formatted(a));
  }

  lemma FormatLess(a: Instant, b: Instant)
    requires ValidInstant(a) && ValidInstant(b)
    ensures TextLess(Formatted(a), Formatted(b)) <==> Before(a, b)
  {
    FractionOrder(a.nanos, b.nanos);
    StampOrder(a, b, Fraction(a.nanos), Fraction(b.nanos));
  }

  /** The second decides, then what follows it. */
  lemma StampOrder(a: Instant, b: Instant, x: string, y: string)
    requires ValidInstant(a) && ValidInstant(b)
    ensures TextLess(Stamp(a, x), Stamp(b, y)) <==> SecondBefore(a, b) || (SameSecond(a, b) && TextLess(x, y))
  {
    Widths();
    ClockOrder(a, b, x, y);
    NumberThen(a.day, b.day, 2, "T", AfterDay(a, x), AfterDay(b, y));
    NumberThen(a.month, b.month, 2, "-", AfterMonth(a, x), AfterMonth(b, y));
    NumberThen(a.year, b.year, 4, "-", AfterYear(a, x), AfterYear(b, y));
  }

  lemma ClockOrder(a: Instant, b: Instant, x: string, y: string)
    requires ValidInstant(a) && ValidInstant(b)
    ensures TextLess(AfterDay(a, x), AfterDay(b, y)) <==>
      a.hour < b.hour || (a.hour == b.hour && (a.minute < b.minute || (a.minute == b.minute && (a.second < b.second
      || (a.second == b.second && TextLess(x, y))))))
  {
    Widths();
    NumberThen(a.second, b.second, 2, "", x, y);
    assert Pad(a.second, 2) + "" == Pad(a.second, 2) && Pad(b.second, 2) + "" == Pad(b.second, 2);
    NumberThen(a.minute, b.minute, 2, ":", AfterMinute(a, x), AfterMinute(b, y));
    NumberThen(a.hour, b.hour, 2, ":", AfterHour(a, x), AfterHour(b, y));
  }
}

/** Bounds written with `Z` against timestamps written with `+00:00`, compared as text. */
module ZuluBounds {
  import opened Ordering
  import opened Numerals
  import opened Timestamps

  /** The first `w` of the nine fraction digits, as a number. */
  function Leading(nanos: nat, w: nat): nat
    requires w <= 9
  {
    Quotient(nanos, Pow10(9 - w));
    nanos / Pow10(9 - w)
  }

  function ZuluFraction(nanos: nat, w: nat): string
    requires w <= 9
  {
    if w == 0 then "Z" else "." + Pad(Leading(nanos, w), w) + "Z"
  }

  /** `YYYY-MM-DDThh:mm:ss[.f...]Z` with `w` fraction digits. */
  function Zulu(t: Instant, w: nat): string
    requires w <= 9
  {
    Stamp(t, ZuluFraction(t.nanos, w))
  }

  // ---- Digits ----

  lemma {:induction false} Pow10Sum(a: nat, b: nat)
    ensures Pow10(a + b) == Pow10(a) * Pow10(b)
  {
    if a > 0 { Pow10Sum(a - 1, b); }
  }

  /** The first digits of a number are those of its quotient. */
  lemma {:induction false} PadPrefix(v: nat, w: nat, m: nat)
    requires m <= w
    ensures Pad(v, w)[..m] == Pad(v / Pow10(w - m), m)
  {
    if m < w {
      var init := Pad(v / 10, w - 1);
      assert Pad(v, w) == init + [Digit(v % 10)] && (init + [Digit(v % 10)])[..m] == init[..m];
      PadPrefix(v / 10, w - 1, m);
      DivTen(v, Pow10(w - 1 - m));
    } else {
      assert Pad(v, w)[..w] == Pad(v, w);
      assert v / 1 == v;
    }
  }

  /** Different numbers of digits, then `Z` on the one side and the zone on the other: the common digits decide. */
  lemma DigitsThenZone(x: string, y: string)
    requires (forall c :: c in x ==> IsDigit(c)) && forall c :: c in y ==> IsDigit(c)
    ensures var m := if |x| < |y| then |x| else |y|;
      TextLess(y + "Z", x + ZONE) <==> TextLess(y[..m], x[..m])
  {
    var m := if |x| < |y| then |x| else |y|;
    var x', y' := x[m..] + ZONE, y[m..] + "Z";
    assert x + ZONE == x[..m] + x' && y + "Z" == y[..m] + y';
    TextConcat(y[..m], x[..m], y', x');
    if |y| == m {
      assert y'[0] == 'Z';
      assert x'[0] == '+' || x'[0] in x;
    } else {
      assert x'[0] == '+' && y'[0] in y;
    }
    FirstChars(x', y');
  }

  // ---- Fractions ----

  /** How many fraction digits the formatter writes. */
  function Shown(nanos: nat): nat {
    if nanos == 0 then 0 else if nanos % 1000 != 0 then 9 else if nanos / 1000 % 1000 != 0 then 6 else 3
  }

  lemma Powers()
    ensures Pow10(0) == 1 && Pow10(3) == 1000 && Pow10(6) == 1_000_000 && Pow10(9) == 1_000_000_000
  {
    assert Pow10(3) == 10 * Pow10(2) && Pow10(2) == 10 * Pow10(1);
    Pow10Sum(3, 3);
    Pow10Sum(6, 3);
  }

  lemma PadDigits(n: nat, w: nat)
    ensures forall c :: c in Pad(n, w) ==> IsDigit(c)
  {}

  /** Three more digits. */
  lemma PadMore(v: nat, g: nat, w: nat)
    requires g < 1000
    ensures Pad(v * 1000 + g, w + 3) == Pad(v, w) + Pad(g, 3)
  {
    var n := v * 1000 + g;
    var a, b, c := Digit(g / 10 / 10 % 10), Digit(g / 10 % 10), Digit(g % 10);
    assert Pad(g, 3) == Pad(g / 10, 2) + [c] && Pad(g / 10, 2) == Pad(g / 10 / 10, 1) + [b];
    assert Pad(g / 10 / 10, 1) == [] + [a];
    assert n / 10 == v * 100 + g / 10 && n / 10 / 10 == v * 10 + g / 10 / 10 && n / 10 / 10 / 10 == v;
    assert Pad(n, w + 3) == Pad(n / 10, w + 2) + [c] && Pad(n / 10, w + 2) == Pad(n / 10 / 10, w + 1) + [b];
    assert Pad(n / 10 / 10, w + 1) == Pad(v, w) + [a];
  }

  /** The formatter's groups are the leading digits. */
  lemma FractionDigits(nanos: nat)
    requires 0 < nanos < 1_000_000_000
    ensures var n := Shown(nanos); Fraction(nanos) == "." + Pad(Leading(nanos, n), n) + ZONE
  {
    LeadingGroups(nanos);
    GroupsByThousands(nanos);
    var g1, g2, g3 := nanos / 1_000_000, nanos / 1000 % 1000, nanos % 1000;
    GroupDigits(g1, g2, g3);
    Point(Pad(g1, 3), Group2(g2, g3));
    Point(Pad(Leading(nanos, Shown(nanos)), Shown(nanos)), ZONE);
  }

  lemma Point(p: string, x: string)
    ensures "." + p + x == "." + (p + x)
  {}

  lemma LeadingGroups(nanos: nat)
    ensures Leading(nanos, 3) == nanos / 1_000_000 && Leading(nanos, 6) == nanos / 1000 && Leading(nanos, 9) == nanos
  {
    Powers();
  }

  lemma GroupDigits(g1: nat, g2: nat, g3: nat)
    requires g2 < 1000 && g3 < 1000
    ensures g3 != 0 ==> Pad(g1, 3) + Group2(g2, g3) == Pad((g1 * 1000 + g2) * 1000 + g3, 9) + ZONE
    ensures g3 == 0 && g2 != 0 ==> Pad(g1, 3) + Group2(g2, g3) == Pad(g1 * 1000 + g2, 6) + ZONE
    ensures g3 == 0 && g2 == 0 ==> Pad(g1, 3) + Group2(g2, g3) == Pad(g1, 3) + ZONE
  {
    PadMore(g1, g2, 3);
    PadMore(g1 * 1000 + g2, g3, 6);
  }

  lemma ShownExact(nanos: nat)
    requires 0 < nanos < 1_000_000_000
    ensures Leading(nanos, Shown(nanos)) * Pow10(9 - Shown(nanos)) == nanos
  {
    Powers();
    Groups(nanos);
  }

  lemma GroupsByThousands(nanos: nat)
    requires nanos < 1_000_000_000
    ensures var g1, g2, g3 := nanos / 1_000_000, nanos / 1000 % 1000, nanos % 1000;
      nanos / 1000 == g1 * 1000 + g2 && nanos == (nanos / 1000) * 1000 + g3
  {}

  lemma ShownUnits(top: nat, u: nat, k: nat)
    requires k > 0
    ensures top > u / k <==> top * k > u
  {
    var q := u / k;
    assert u == q * k + u % k;
    if top > q { LessTimes(q, top, k); } else if top < q { LessTimes(top, q, k); }
  }

  lemma {:induction false} LeadingTwice(nanos: nat, n: nat, w: nat)
    requires n <= w <= 9
    ensures Leading(nanos, w) / Pow10(w - n) == Leading(nanos, n)
    decreases w - n
  {
    if n < w {
      LeadingTwice(nanos, n, w - 1);
      DivTenAfter(nanos, Pow10(9 - w));
      DivTen(Leading(nanos, w), Pow10(w - 1 - n));
    } else {
      assert Leading(nanos, w) / 1 == Leading(nanos, w);
    }
  }

  lemma DivTenAfter(v: nat, p: nat)
    requires p > 0
    ensures v / p / 10 == v / (10 * p)
  {
    var q := v / p;
    var r := v - q * p;
    assert v == (q / 10) * (10 * p) + ((q % 10) * p + r) by {
      assert q == (q / 10) * 10 + q % 10;
      assert q * p == (q / 10) * (10 * p) + (q % 10) * p;
    }
    LessTimes(q % 10, 10, p);
    DivUnique(v, 10 * p, q / 10, (q % 10) * p + r);
  }

  /** Cutting a timestamp that shows `n` digits to its own digits or to more of them compares the same way. */
  lemma SameComparison(a: nat, b: nat, n: nat, w: nat)
    requires n <= w <= 9 && Leading(a, n) * Pow10(9 - n) == a
    ensures Leading(b, n) < Leading(a, n) <==> Leading(b, w) < Leading(a, w)
  {
    LeadingTwice(b, n, w);
    ShownUnits(Leading(a, n), Leading(b, w), Pow10(w - n));
    ShownLeading(a, n, w);
  }

  lemma ShownLeading(a: nat, n: nat, w: nat)
    requires n <= w <= 9 && Leading(a, n) * Pow10(9 - n) == a
    ensures Leading(a, w) == Leading(a, n) * Pow10(w - n)
  {
    var top, k, p := Leading(a, n), Pow10(w - n), Pow10(9 - w);
    Pow10Sum(w - n, 9 - w);
    Regroup(top, k, p);
    DivUnique(a, p, top * k, 0);
  }

  lemma Regroup(a: nat, b: nat, c: nat)
    ensures a * (b * c) == (a * b) * c
  {}

  lemma LeadingFits(nanos: nat, w: nat)
    requires nanos < 1_000_000_000 && w <= 9
    ensures Leading(nanos, w) < Pow10(w)
  {
    Powers();
    Pow10Sum(w, 9 - w);
    DivLess(nanos, Pow10(9 - w), Pow10(w));
  }

  lemma DivLess(v: nat, p: nat, q: nat)
    requires p > 0 && v < q * p
    ensures v / p < q
  {
    var d := v / p;
    assert v == d * p + v % p;
    if d > q { LessTimes(q, d, p); }
  }

  /** The bound sorts before the timestamp exactly when it is earlier by a unit of the last digit it shows. */
  lemma FractionAgainstZulu(a: nat, b: nat, w: nat)
    requires a < 1_000_000_000 && b < 1_000_000_000 && w <= 9
    ensures TextLess(ZuluFraction(b, w), Fraction(a)) <==> Leading(b, w) < Leading(a, w)
  {
    if a == 0 || w == 0 {
      NoDigits(a, b, w);
    } else {
      FractionDigits(a);
      ShownExact(a);
      var n := Shown(a);
      DigitsAgainstZulu(a, b, n, w);
      PointFirst(Pad(Leading(a, n), n), Pad(Leading(b, w), w));
    }
  }

  lemma NoDigits(a: nat, b: nat, w: nat)
    requires a < 1_000_000_000 && w <= 9 && (a == 0 || w == 0)
    ensures !TextLess(ZuluFraction(b, w), Fraction(a)) && Leading(a, w) == 0
  {
    if w == 0 { LeadingFits(a, 0); }
    if a == 0 { DivUnique(0, Pow10(9 - w), 0, 0); }
    FirstChars(Fraction(a), ZuluFraction(b, w));
  }

  lemma PointFirst(x: string, y: string)
    ensures TextLess("." + y + "Z", "." + x + ZONE) <==> TextLess(y + "Z", x + ZONE)
  {
    assert "." + x + ZONE == "." + (x + ZONE) && "." + y + "Z" == "." + (y + "Z");
    SameHead(".", y + "Z", x + ZONE);
  }

  lemma DigitsAgainstZulu(a: nat, b: nat, n: nat, w: nat)
    requires a < 1_000_000_000 && b < 1_000_000_000 && n <= 9 && w <= 9 && Leading(a, n) * Pow10(9 - n) == a
    ensures TextLess(Pad(Leading(b, w), w) + "Z", Pad(Leading(a, n), n) + ZONE) <==> Leading(b, w) < Leading(a, w)
  {
    var x, y := Pad(Leading(a, n), n), Pad(Leading(b, w), w);
    var m := if n < w then n else w;
    PadDigits(Leading(a, n), n);
    PadDigits(Leading(b, w), w);
    DigitsThenZone(x, y);
    PadPrefix(Leading(a, n), n, m);
    PadPrefix(Leading(b, w), w, m);
    LeadingTwice(a, m, n);
    LeadingTwice(b, m, w);
    LeadingFits(a, m);
    LeadingFits(b, m);
    PadOrder(Leading(b, m), Leading(a, m), m);
    if n < w { SameComparison(a, b, n, w); }
  }

  // ---- Whole timestamps ----

  /** `t` lies after the whole unit, a second or a digit place of it, that begins at `b`'s written part. */
  predicate PastUnit(b: Instant, w: nat, t: Instant)
    requires w <= 9
  {
    SecondBefore(b, t) || (SameSecond(b, t) && Leading(b.nanos, w) < Leading(t.nanos, w))
  }

  lemma ZuluOrder(t: Instant, b: Instant, w: nat)
    requires ValidInstant(t) && ValidInstant(b) && w <= 9
    ensures TextLess(Zulu(b, w), Formatted(t)) <==> PastUnit(b, w, t)
    ensures TextLess(Formatted(t), Zulu(b, w)) <==> !PastUnit(b, w, t)
  {
    StampOrder(b, t, ZuluFraction(b.nanos, w), Fraction(t.nanos));
    FractionAgainstZulu(t.nanos, b.nanos, w);
    ZuluDiffers(t, b, w);
    TextOrder(Formatted(t), Zulu(b, w));
    TextOrder(Zulu(b, w), Formatted(t));
  }

  lemma ZuluDiffers(t: Instant, b: Instant, w: nat)
    requires w <= 9
    ensures Zulu(b, w) != Formatted(t)
  {
    var x, y := Zulu(b, w), Formatted(t);
    assert x[|x| - 1] == 'Z' && y[|y| - 1] == '0';
  }
}

/** Reading a formatted timestamp back, character by character. */
module TimestampReading {
  import opened Numerals
  import opened Timestamps
  import opened ZuluBounds

  /** `w` digits from position `i` on spell `n`. */
  predicate NumberAt(s: string, i: nat, w: nat, n: nat) {
    i + w <= |s| && (forall c :: c in s[i..i + w] ==> IsDigit(c)) && Value(s[i..i + w]) == n
  }

  predicate CharAt(s: string, i: nat, c: char) { i < |s| && s[i] == c }

  lemma {:induction false} ValuePad(n: nat, w: nat)
    requires n < Pow10(w)
    ensures (forall c :: c in Pad(n, w) ==> IsDigit(c)) && Value(Pad(n, w)) == n
  {
    if w > 0 {
      ValuePad(n / 10, w - 1);
      var s := Pad(n, w);
      assert s[..|s| - 1] == Pad(n / 10, w - 1);
    }
  }

  /** A padded number in front. */
  lemma NumberFront(n: nat, w: nat, rest: string)
    requires n < Pow10(w)
    ensures NumberAt(Pad(n, w) + rest, 0, w, n) && (Pad(n, w) + rest)[w..] == rest
  {
    ValuePad(n, w);
    assert (Pad(n, w) + rest)[0..w] == Pad(n, w);
  }

  lemma Further(s: string, k: nat, i: nat)
    requires k <= |s|
    ensures forall w, n :: NumberAt(s[k..], i, w, n) ==> NumberAt(s, k + i, w, n)
    ensures forall c :: CharAt(s[k..], i, c) ==> CharAt(s, k + i, c)
    ensures k + i <= |s| ==> s[k..][i..] == s[k + i..]
  {
    forall w, n | NumberAt(s[k..], i, w, n) ensures NumberAt(s, k + i, w, n) {
      assert s[k..][i..i + w] == s[k + i..k + i + w];
    }
  }

  /** A padded number and a separator from position `k` on. */
  lemma FieldAt(s: string, k: nat, n: nat, w: nat, sep: char, rest: string)
    requires k <= |s| && n < Pow10(w) && s[k..] == Pad(n, w) + [sep] + rest
    ensures NumberAt(s, k, w, n) && CharAt(s, k + w, sep) && k + w + 1 <= |s| && s[k + w + 1..] == rest
  {
    assert s[k..] == Pad(n, w) + ([sep] + rest);
    NumberFront(n, w, [sep] + rest);
    Further(s, k, 0);
    Further(s, k, w);
    assert CharAt(s[k..], w, sep);
    assert s[k + w + 1..] == s[k + w..][1..];
  }

  /** The fields of date and time stand at fixed positions behind each other; then comes the tail. */
  lemma StampReads(t: Instant, tail: string)
    requires ValidInstant(t)
    ensures var s := Stamp(t, tail);
      && NumberAt(s, 0, 4, t.year) && CharAt(s, 4, '-') && NumberAt(s, 5, 2, t.month) && CharAt(s, 7, '-')
      && NumberAt(s, 8, 2, t.day) && CharAt(s, 10, 'T') && NumberAt(s, 11, 2, t.hour) && CharAt(s, 13, ':')
      && NumberAt(s, 14, 2, t.minute) && CharAt(s, 16, ':') && NumberAt(s, 17, 2, t.second)
      && |s| >= 19 && s[19..] == tail
  {
    Widths();
    var s := Stamp(t, tail);
    assert s[0..] == s;
    FieldAt(s, 0, t.year, 4, '-', AfterYear(t, tail));
    FieldAt(s, 5, t.month, 2, '-', AfterMonth(t, tail));
    FieldAt(s, 8, t.day, 2, 'T', AfterDay(t, tail));
    FieldAt(s, 11, t.hour, 2, ':', AfterHour(t, tail));
    FieldAt(s, 14, t.minute, 2, ':', AfterMinute(t, tail));
    NumberFront(t.second, 2, tail);
    Further(s, 17, 0);
    Further(s, 17, 2);
  }

  /** A point and `n` digits for the nanoseconds, three, six or nine, with no group of zeros at the end. */
  ghost predicate FractionAt(s: string, i: nat, n: nat, nanos: nat) {
    && (n == 3 || n == 6 || n == 9) && CharAt(s, i, '.') && NumberAt(s, i + 1, n, Leading(nanos, n))
    && Leading(nanos, n) * Pow10(9 - n) == nanos && (n > 3 ==> Leading(nanos, n) % 1000 != 0)
  }

  /** Nothing for a whole second, else the fraction; then the zone. */
  lemma FractionReads(nanos: nat)
    requires 0 < nanos < 1_000_000_000
    ensures var s, n := Fraction(nanos), Shown(nanos);
      FractionAt(s, 0, n, nanos) && |s| == n + 7 && s[1 + n..] == "+00:00"
  {
    var s, n := Fraction(nanos), Shown(nanos);
    FractionDigits(nanos);
    ShownExact(nanos);
    LeadingFits(nanos, n);
    LastGroup(nanos);
    Point(Pad(Leading(nanos, n), n), ZONE);
    assert s[1..] == Pad(Leading(nanos, n), n) + ZONE;
    NumberFront(Leading(nanos, n), n, ZONE);
    Further(s, 1, 0);
    Further(s, 1, n);
  }

  lemma LastGroup(nanos: nat)
    requires 0 < nanos < 1_000_000_000
    ensures Shown(nanos) > 3 ==> Leading(nanos, Shown(nanos)) % 1000 != 0
  {
    LeadingGroups(nanos);
  }

  /** The formatter's text reads back as the moment it stands for. */
  lemma FormatReads(t: Instant)
    requires ValidInstant(t)
    ensures var s := Formatted(t);
      && NumberAt(s, 0, 4, t.year) && CharAt(s, 4, '-') && NumberAt(s, 5, 2, t.month) && CharAt(s, 7, '-')
      && NumberAt(s, 8, 2, t.day) && CharAt(s, 10, 'T') && NumberAt(s, 11, 2, t.hour) && CharAt(s, 13, ':')
      && NumberAt(s, 14, 2, t.minute) && CharAt(s, 16, ':') && NumberAt(s, 17, 2, t.second)
      && |s| >= 19 && TailReads(s, t.nanos)
  {
    StampReads(t, Fraction(t.nanos));
    if t.nanos > 0 { TailAfterSecond(Formatted(t), t.nanos); }
  }

  /** Behind the seconds: the zone alone, or the fraction and the zone. */
  ghost predicate TailReads(s: string, nanos: nat)
    requires |s| >= 19
  {
    if nanos == 0 then s[19..] == "+00:00"
    else exists n: nat :: FractionAt(s, 19, n, nanos) && |s| == n + 26 && s[20 + n..] == "+00:00"
  }

  lemma TailAfterSecond(s: string, nanos: nat)
    requires 0 < nanos < 1_000_000_000 && |s| >= 19 && s[19..] == Fraction(nanos)
    ensures TailReads(s, nanos)
  {
    var n := Shown(nanos);
    FractionReads(nanos);
    Further(s, 19, 0);
    Further(s, 19, 1);
    Further(s, 19, 1 + n);
    assert FractionAt(s, 19, n, nanos) && |s| == n + 26 && s[20 + n..] == "+00:00";
  }
}

/** Queries, the two audit stores, and their agreement. */
module AuditStores {
  import opened Wrappers
  import opened Ordering
  import opened Sequences
  import opened AuditEvents
  import opened Timestamps
  import opened ZuluBounds

  datatype AuditQuery = AuditQuery(
    since: Option<string>,
    until: Option<string>,
    kind: Option<EventKind>,
    destination: Option<string>,
    actor: Option<string>,
    piiOnly: Option<bool>)

  predicate Matches(q: AuditQuery, e: AuditEvent) {
    if q.since.Some? && TextLess(e.timestamp, q.since.value) then false
    else if q.until.Some? && TextLess(q.until.value, e.timestamp) then false
    else if q.kind.Some? && e.kind != q.kind.value then false
    else if q.destination.Some? && e.destination != q.destination.value then false
    else if q.actor.Some? && e.actor != q.actor.value then false
    else if q.piiOnly.Some? && e.piiFlag != q.piiOnly.value then false
    else true
  }

  function Retains(cutoff: string): AuditEvent -> bool { (e: AuditEvent) => TextLe(cutoff, e.timestamp) }

  function Selects(q: AuditQuery): AuditEvent -> bool { (e: AuditEvent) => Matches(q, e) }

  method FilterEvents(es: seq<AuditEvent>, keep: AuditEvent -> bool) returns (r: seq<AuditEvent>)
    ensures r == Filtered(es, keep)
  {
    r := [];
    assert es[0..] == es;
    for i := 0 to |es|
      invariant r + Filtered(es[i..], keep) == Filtered(es, keep)
    {
      FilteredStep(es, keep, i, r);
      if keep(es[i]) { r := r + [es[i]]; }
    }
    assert es[|es|..] == [] && r + [] == r;
  }

  lemma FilteredStep(es: seq<AuditEvent>, keep: AuditEvent -> bool, i: nat, r: seq<AuditEvent>)
    requires i < |es|
    ensures r + Filtered(es[i..], keep) == (if keep(es[i]) then r + [es[i]] else r) + Filtered(es[i + 1..], keep)
  {
    assert es[i..][0] == es[i] && es[i..][1..] == es[i + 1..];
    var rest := Filtered(es[i + 1..], keep);
    assert r + ([es[i]] + rest) == (r + [es[i]]) + rest;
    assert [] + rest == rest;
  }

  class InMemoryAuditStore {
    var events: seq<AuditEvent>

    constructor ()
      ensures events == []
    {
      events := [];
    }

    method Append(e: AuditEvent)
      modifies this
      ensures events == old(events) + [e]
    {
      events := events + [e];
    }

    method Query(q: AuditQuery) returns (r: seq<AuditEvent>)
      ensures r == Filtered(events, Selects(q))
    {
      r := FilterEvents(events, Selects(q));
    }

    /** Keeps the events not before the cutoff, in order. */
    method PurgeBefore(cutoff: string)
      modifies this
      ensures events == Filtered(old(events), Retains(cutoff))
    {
      events := FilterEvents(events, Retains(cutoff));
    }
  }

  type Records = map<string, AuditEvent>

  function Purged(records: Records, cutoff: string, failing: set<string>): Records {
    map id | id in records && (TextLe(cutoff, records[id].timestamp) || id in failing) :: records[id]
  }

  predicate OlderFirst(a: AuditEvent, b: AuditEvent) { TextLe(a.timestamp, b.timestamp) }

  /** Events keyed by their id. */
  class PluresDbAuditStore {
    var records: Records

    ghost predicate Valid()
      reads this
    {
      forall id :: id in records ==> records[id].id == id
    }

    constructor ()
      ensures Valid() && records == map[]
    {
      records := map[];
    }

    method Append(e: AuditEvent)
      requires Valid()
      modifies this
      ensures Valid() && records == old(records)[e.id := e]
    {
      records := records[e.id := e];
    }

    /** Every stored event once, in whatever order the store lists them. */
    method List() returns (es: seq<AuditEvent>)
      requires Valid()
      ensures NoDuplicates(es) && forall e :: e in es <==> e in records.Values
    {
      es := [];
      var todo := records.Keys;
      while todo != {}
        invariant todo <= records.Keys && NoDuplicates(es)
        invariant forall e :: e in es <==> e.id in records && e.id !in todo && records[e.id] == e
        decreases todo
      {
        var id :| id in todo;
        assert records[id] !in es;
        es := es + [records[id]];
        todo := todo - {id};
      }
    }

    method Query(q: AuditQuery) returns (r: seq<AuditEvent>)
      requires Valid()
      ensures forall e :: e in r <==> e in records.Values && Matches(q, e)
    {
      var es := List();
      r := FilterEvents(es, Selects(q));
    }

    /** Everything, in chronological order. */
    method All() returns (r: seq<AuditEvent>)
      requires Valid()
      ensures forall i, j :: 0 <= i < j < |r| ==> TextLe(r[i].timestamp, r[j].timestamp)
      ensures NoDuplicates(r) && forall e :: e in r <==> e in records.Values
    {
      var es := List();
      OlderFirstTotal();
      SortSorts(es, OlderFirst);
      PermutationDistinct(es, SortBy(es, OlderFirst));
      r := SortBy(es, OlderFirst);
    }

    /** Deletes older events one by one; a failed delete leaves its event for the next purge. */
    method PurgeBefore(cutoff: string, failing: set<string>)
      requires Valid()
      modifies this
      ensures Valid() && records == Purged(old(records), cutoff, failing)
      ensures forall id :: id in records <==>
        id in old(records) && (id in failing || TextLe(cutoff, old(records)[id].timestamp))
      ensures forall id :: id in records ==> records[id] == old(records)[id]
    {
      var es := List();
      var doomed: seq<string> := [];
      for i := 0 to |es|
        invariant forall id :: id in doomed <==>
          exists k :: 0 <= k < i && es[k].id == id && TextLess(es[k].timestamp, cutoff)
      {
        if TextLess(es[i].timestamp, cutoff) { doomed := doomed + [es[i].id]; }
      }
      ghost var before := records;
      forall id | id in before ensures id in doomed <==> !TextLe(cutoff, before[id].timestamp) {
        TextOrder(before[id].timestamp, cutoff);
        assert before[id] in before.Values;
        var k :| 0 <= k < |es| && es[k] == before[id];
        forall l | 0 <= l < |es| && es[l].id == id ensures es[l] == before[id] { assert es[l] in es; }
      }
      for i := 0 to |doomed|
        invariant Valid()
        invariant forall id :: id in records <==> id in before && (id !in doomed[..i] || id in failing)
        invariant forall id :: id in records ==> records[id] == before[id]
      {
        assert doomed[..i + 1] == doomed[..i] + [doomed[i]];
        if doomed[i] !in failing { records := records - {doomed[i]}; }
      }
      assert doomed[..|doomed|] == doomed;
    }
  }

  lemma OlderFirstTotal()
    ensures TotalPreorder(OlderFirst)
  {
    forall a: AuditEvent, b: AuditEvent
      ensures OlderFirst(a, b) || OlderFirst(b, a)
    {
      TextOrder(a.timestamp, b.timestamp);
    }
    forall a: AuditEvent, b: AuditEvent, c: AuditEvent | OlderFirst(a, b) && OlderFirst(b, c) ensures OlderFirst(a, c) {
      TextTransitive(a.timestamp, b.timestamp, c.timestamp);
    }
  }

  // ---- Text comparison means time comparison ----

  /** A bound left out, written as the formatter does, or written with `digits` fraction digits and `Z`. */
  datatype Bound = Open | Offset(at: Instant) | UtcZ(at: Instant, digits: nat) {
    predicate Valid() { !Open? ==> ValidInstant(at) && (UtcZ? ==> digits <= 9) }

    function Text(): Option<string>
      requires Valid()
    {
      match this
      case Open => None
      case Offset(b) => Some(Formatted(b))
      case UtcZ(b, w) => Some(Zulu(b, w))
    }

    /** As a lower bound a `Z` bound drops the whole unit it names. */
    predicate From(t: Instant)
      requires Valid()
    {
      match this
      case Open => true
      case Offset(b) => !Before(t, b)
      case UtcZ(b, w) => PastUnit(b, w, t)
    }

    /** As an upper bound it keeps that unit. */
    predicate To(t: Instant)
      requires Valid()
    {
      match this
      case Open => true
      case Offset(b) => !Before(b, t)
      case UtcZ(b, w) => !PastUnit(b, w, t)
    }
  }

  lemma BoundText(b: Bound, t: Instant)
    requires ValidInstant(t) && b.Valid() && !b.Open?
    ensures b.From(t) <==> !TextLess(Formatted(t), b.Text().value)
    ensures b.To(t) <==> !TextLess(b.Text().value, Formatted(t))
  {
    match b
    case Offset(at) =>
      FormatOrder(t, at);
      FormatOrder(at, t);
    case UtcZ(at, w) => ZuluOrder(t, at, w);
  }

  /** A query bounded below, above, both or not at all keeps exactly the events in range that pass its other filters. */
  lemma WindowQuery(q: AuditQuery, e: AuditEvent, t: Instant, since: Bound, until: Bound)
    requires ValidInstant(t) && since.Valid() && until.Valid()
    requires e.timestamp == Formatted(t) && q.since == since.Text() && q.until == until.Text()
    ensures Matches(q, e) <==>
      && since.From(t) && until.To(t)
      && (q.kind.Some? ==> e.kind == q.kind.value)
      && (q.destination.Some? ==> e.destination == q.destination.value)
      && (q.actor.Some? ==> e.actor == q.actor.value)
      && (q.piiOnly.Some? ==> e.piiFlag == q.piiOnly.value)
  {
    if !since.Open? { BoundText(since, t); }
    if !until.Open? { BoundText(until, t); }
  }

  /** `since` with a whole second and `Z` drops the very events of that second. */
  lemma ZuluSinceDropsItsSecond(q: AuditQuery, e: AuditEvent, t: Instant)
    requires ValidInstant(t) && e.timestamp == Formatted(t) && q.since == Some(Zulu(t, 0))
    ensures !Matches(q, e)
  {
    ZuluOrder(t, t, 0);
  }

  /** A purge keeps exactly the events not before the cutoff time. */
  lemma PurgeWindow(es: seq<AuditEvent>, e: AuditEvent, t: Instant, cutoff: Instant)
    requires ValidInstant(t) && ValidInstant(cutoff) && e.timestamp == Formatted(t) && e in es
    ensures e in Filtered(es, Retains(Formatted(cutoff))) <==> !Before(t, cutoff)
  {
    FormatOrder(cutoff, t);
  }

  // ---- Agreement of the two stores ----

  datatype Op = Append(event: AuditEvent) | Purge(cutoff: string)

  function InMemory(ops: seq<Op>): seq<AuditEvent> {
    if ops == [] then []
    else
      var es := InMemory(ops[..|ops| - 1]);
      match ops[|ops| - 1]
      case Append(e) => es + [e]
      case Purge(cutoff) => Filtered(es, Retains(cutoff))
  }

  function InPluresDb(ops: seq<Op>): Records {
    if ops == [] then map[]
    else
      var rs := InPluresDb(ops[..|ops| - 1]);
      match ops[|ops| - 1]
      case Append(e) => rs[e.id := e]
      case Purge(cutoff) => Purged(rs, cutoff, {})
  }

  ghost predicate FreshIds(ops: seq<Op>) {
    forall i, j :: 0 <= i < j < |ops| && ops[i].Append? && ops[j].Append? ==> ops[i].event.id != ops[j].event.id
  }

  lemma {:induction false} InMemoryAppended(ops: seq<Op>, e: AuditEvent)
    requires e in InMemory(ops)
    ensures exists i :: 0 <= i < |ops| && ops[i] == Append(e)
  {
    var init := ops[..|ops| - 1];
    if e in InMemory(init) {
      InMemoryAppended(init, e);
      var i :| 0 <= i < |init| && init[i] == Append(e);
      assert ops[i] == Append(e);
    } else {
      assert ops[|ops| - 1] == Append(e);
    }
  }

  lemma LastIdNew(ops: seq<Op>)
    requires FreshIds(ops) && ops != [] && ops[|ops| - 1].Append?
    ensures forall e :: e in InMemory(ops[..|ops| - 1]) ==> e.id != ops[|ops| - 1].event.id
  {
    var init := ops[..|ops| - 1];
    forall e | e in InMemory(init) ensures e.id != ops[|ops| - 1].event.id {
      InMemoryAppended(init, e);
      var i :| 0 <= i < |init| && init[i] == Append(e);
      assert ops[i] == init[i];
    }
  }

  /** After any operations with fresh ids and successful deletes both stores hold the same events. */
  lemma {:induction false} StoresAgree(ops: seq<Op>, e: AuditEvent)
    requires FreshIds(ops)
    ensures e in InMemory(ops) <==> e.id in InPluresDb(ops) && InPluresDb(ops)[e.id] == e
  {
    if ops != [] {
      var init, op := ops[..|ops| - 1], ops[|ops| - 1];
      StoresAgree(init, e);
      if op.Append? { LastIdNew(ops); }
    }
  }

  /** Hence both answer a query with the same set of events. */
  lemma QueriesAgree(ops: seq<Op>, q: AuditQuery, e: AuditEvent)
    requires FreshIds(ops)
    ensures e in Filtered(InMemory(ops), Selects(q)) <==>
      e.id in InPluresDb(ops) && InPluresDb(ops)[e.id] == e && Matches(q, e)
  {
    StoresAgree(ops, e);
  }

  ghost predicate OnlyAppends(ops: seq<Op>) { forall op :: op in ops ==> op.Append? }

  /** On appends alone the stores agree exactly when no two different events share an id. */
  lemma AppendsAgreeExactly(ops: seq<Op>)
    requires OnlyAppends(ops)
    ensures (forall e :: e in InMemory(ops) <==> e.id in InPluresDb(ops) && InPluresDb(ops)[e.id] == e)
       <==> forall i, j :: 0 <= i < |ops| && 0 <= j < |ops| && ops[i].event.id == ops[j].event.id ==> ops[i] == ops[j]
  {
    InMemoryAll(ops);
    PluresDbLast(ops);
    if forall e :: e in InMemory(ops) <==> e.id in InPluresDb(ops) && InPluresDb(ops)[e.id] == e {
      forall i, j | 0 <= i < |ops| && 0 <= j < |ops| && ops[i].event.id == ops[j].event.id ensures ops[i] == ops[j] {
        assert ops[i].event in InMemory(ops) && ops[j].event in InMemory(ops);
      }
    }
  }

  lemma {:induction false} InMemoryAll(ops: seq<Op>)
    requires OnlyAppends(ops)
    ensures forall e :: e in InMemory(ops) <==> exists i :: 0 <= i < |ops| && ops[i].event == e
  {
    if ops != [] {
      var init := ops[..|ops| - 1];
      assert ops == init + [ops[|ops| - 1]] && ops[|ops| - 1] in ops;
      InMemoryAll(init);
      forall e ensures e in InMemory(ops) <==> exists i :: 0 <= i < |ops| && ops[i].event == e {
        if e in InMemory(init) {
          var i :| 0 <= i < |init| && init[i].event == e;
          assert ops[i].event == e;
        }
        if i :| 0 <= i < |ops| && ops[i].event == e {
          assert i < |init| ==> init[i].event == e;
        }
      }
    }
  }

  lemma {:induction false} PluresDbLast(ops: seq<Op>)
    requires OnlyAppends(ops)
    ensures forall id :: id in InPluresDb(ops) <==> exists i :: 0 <= i < |ops| && ops[i].event.id == id
    ensures forall id :: id in InPluresDb(ops) ==>
      InPluresDb(ops)[id].id == id && exists i :: 0 <= i < |ops| && ops[i].event == InPluresDb(ops)[id]
  {
    if ops != [] {
      var init := ops[..|ops| - 1];
      assert ops == init + [ops[|ops| - 1]] && ops[|ops| - 1] in ops;
      PluresDbLast(init);
      forall id ensures id in InPluresDb(ops) <==> exists i :: 0 <= i < |ops| && ops[i].event.id == id {
        if id in InPluresDb(init) {
          var i :| 0 <= i < |init| && init[i].event.id == id;
          assert ops[i].event.id == id;
        }
        if i :| 0 <= i < |ops| && ops[i].event.id == id {
          assert i < |init| ==> init[i].event.id == id;
        }
      }
      forall id | id in InPluresDb(ops)
        ensures InPluresDb(ops)[id].id == id && exists i :: 0 <= i < |ops| && ops[i].event == InPluresDb(ops)[id]
      {
        if id != ops[|ops| - 1].event.id {
          var i :| 0 <= i < |init| && init[i].event == InPluresDb(init)[id];
          assert ops[i].event == InPluresDb(ops)[id];
        } else {
          assert ops[|ops| - 1].event == InPluresDb(ops)[id];
        }
      }
    }
  }
}
