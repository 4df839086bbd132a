/** Cron expressions: parsing a field into the set of values it admits. */
module Cron {
  import opened Wrappers
  import opened Numerals

  /** The Unicode White_Space characters. */
  predicate IsWhitespace(c: char) {
    var n := c as int;
    || 9 <= n <= 13 || n == 0x20 || n == 0x85 || n == 0xA0 || n == 0x1680
    || 0x2000 <= n <= 0x200A || n == 0x2028 || n == 0x2029 || n == 0x202F || n == 0x205F || n == 0x3000
  }

  function TrimStart(s: string): string {
    if s != [] && IsWhitespace(s[0]) then TrimStart(s[1..]) else s
  }

  function TrimEnd(s: string): string {
    if s != [] && IsWhitespace(s[|s| - 1]) then TrimEnd(s[..|s| - 1]) else s
  }

  function Trim(s: string): string { TrimEnd(TrimStart(s)) }

  function SplitOn(s: string, c: char): (parts: seq<string>)
    ensures parts != []
  {
    if s == [] then [""]
    else
      var rest := SplitOn(s[1..], c);
      if s[0] == c then [""] + rest else [[s[0]] + rest[0]] + rest[1..]
  }

  /** Words between runs of whitespace. */
  function SplitWhitespace(s: string): seq<string> {
    if s == [] then []
    else if IsWhitespace(s[0]) then SplitWhitespace(s[1..])
    else
      var rest := SplitWhitespace(s[1..]);
      if |s| > 1 && !IsWhitespace(s[1]) && rest != [] then [[s[0]] + rest[0]] + rest[1..]
      else [[s[0]]] + rest
  }

  /** Splits at the first `c`. */
  function SplitOnce(s: string, c: char): Option<(string, string)> {
    if s == [] then None
    else if s[0] == c then Some(([], s[1..]))
    else
      match SplitOnce(s[1..], c)
      case None => None
      case Some((a, b)) => Some(([s[0]] + a, b))
  }

  predicate AllDigits(s: string) { forall c :: c in s ==> IsDigit(c) }

  /** A 32-bit unsigned number, with an optional plus sign. */
  function ParseU32(s: string): Option<nat> {
    var digits := if s != [] && s[0] == '+' then s[1..] else s;
    if digits != [] && AllDigits(digits) && Value(digits) < 0x1_0000_0000 then Some(Value(digits)) else None
  }

  /** Unsigned subtraction; the code must never let it go below zero. */
  function Minus(a: nat, b: nat): nat
    requires b <= a
  {
    a - b
  }

  function Step(part: string): Option<(string, nat)> {
    match SplitOnce(part, '/')
    case None => Some((part, 1))
    case Some((lhs, rhs)) =>
      match ParseU32(rhs)
      case Some(step) => if step > 0 then Some((lhs, step)) else None
      case None => None
  }

  predicate InBase(base: string, value: nat, min: nat, max: nat) {
    if base == "*" then min <= value <= max
    else
      match SplitOnce(base, '-')
      case Some((a, b)) =>
        (match (ParseU32(a), ParseU32(b))
         case (Some(start), Some(end)) => start >= min && end <= max && start <= end && start <= value <= end
         case _ => false)
      case None =>
        match ParseU32(base)
        case Some(v) => min <= v <= max && v == value
        case None => false
  }

  predicate MatchesPart(part: string, value: nat, min: nat, max: nat) {
    if part == "" then false
    else
      match Step(part)
      case None => false
      case Some((base, step)) =>
        if !InBase(base, value, min, max) then false
        else if step == 1 then true
        else if base == "*" then Minus(value, min) % step == 0
        else
          match SplitOnce(base, '-')
          case Some((a, _)) =>
            (match ParseU32(a)
             case Some(start) => Minus(value, start) % step == 0
             case None => false)
          case None => true
  }

  predicate MatchesField(field: string, value: nat, min: nat, max: nat) {
    field == "*" || exists part :: part in SplitOn(field, ',') && MatchesPart(Trim(part), value, min, max)
  }

  // ---- What a field means ----

  /** `lo, lo+step, ...` up to `hi`, or nothing. */
  datatype Progression = Nothing | From(lo: nat, hi: nat, step: nat)

  ghost function Values(p: Progression): set<nat> {
    match p
    case Nothing => {}
    case From(lo, hi, step) => set v: nat | lo <= v <= hi && OnStep(v, lo, step)
  }

  predicate OnStep(v: nat, lo: nat, step: nat)
    requires lo <= v
  {
    step != 0 && (v - lo) % step == 0
  }

  /** The progression a part denotes: the whole range, a sub-range, or a single value (step ignored). */
  function Denoted(part: string, min: nat, max: nat): Progression {
    match Step(part)
    case None => Nothing
    case Some((base, step)) =>
      if base == "*" then From(min, max, step)
      else
        match SplitOnce(base, '-')
        case Some((a, b)) =>
          (match (ParseU32(a), ParseU32(b))
           case (Some(start), Some(end)) =>
             if min <= start && end <= max && start <= end then From(start, end, step) else Nothing
           case _ => Nothing)
        case None =>
          match ParseU32(base)
          case Some(v) => if min <= v <= max then From(v, v, 1) else Nothing
          case None => Nothing
  }

  /** A part matches exactly the values of its progression. */
  lemma PartMeans(part: string, value: nat, min: nat, max: nat)
    ensures MatchesPart(part, value, min, max) <==> value in Values(Denoted(part, min, max))
  {}

  /** The values admitted by some part of the field. */
  ghost function FieldValues(field: string, min: nat, max: nat): set<nat> {
    set v: nat, part | part in SplitOn(field, ',') && v in Values(Denoted(Trim(part), min, max)) :: v
  }

  lemma {:induction false} SplitWithout(s: string, c: char)
    requires c !in s
    ensures SplitOn(s, c) == [s]
  {
    if s != [] {
      assert s[0] in s && c !in s[1..];
      SplitWithout(s[1..], c);
      assert s == [s[0]] + s[1..];
    }
  }

  /** A field matches an in-range value exactly when one of its parts admits it. */
  lemma FieldMeans(field: string, value: nat, min: nat, max: nat)
    requires min <= value <= max
    ensures MatchesField(field, value, min, max) <==> value in FieldValues(field, min, max)
  {
    if field == "*" {
      SplitWithout(field, ',');
      assert SplitOn(field, ',')[0] == "*";
      assert Trim("*") == "*";
      assert SplitOnce("*", '/').None? by { assert "*"[1..] == ""; }
      assert value in Values(Denoted("*", min, max));
    } else {
      forall part | part in SplitOn(field, ',')
        ensures MatchesPart(Trim(part), value, min, max) <==> value in Values(Denoted(Trim(part), min, max))
      {
        PartMeans(Trim(part), value, min, max);
      }
    }
  }

  // ---- Whole expressions ----

  /** The calendar fields a moment falls on; weekdays count from Sunday. */
  datatype Civil = Civil(minute: nat, hour: nat, day: nat, month: nat, weekday: nat)

  predicate MatchesExpr(expr: string, c: Civil) {
    var parts := SplitWhitespace(expr);
    |parts| == 5
    && MatchesField(parts[0], c.minute, 0, 59) && MatchesField(parts[1], c.hour, 0, 23)
    && MatchesField(parts[2], c.day, 1, 31) && MatchesField(parts[3], c.month, 1, 12)
    && MatchesField(parts[4], c.weekday, 0, 6)
  }

  // ---- What the texts of parts, fields and expressions mean ----

  lemma {:induction false} SplitOnceAt(a: string, c: char, b: string)
    requires c !in a
    ensures SplitOnce(a + [c] + b, c) == Some((a, b))
  {
    var s := a + [c] + b;
    if a == [] {
      assert s[1..] == b;
    } else {
      assert a[0] in a && s[1..] == a[1..] + [c] + b && a == [a[0]] + a[1..];
      SplitOnceAt(a[1..], c, b);
    }
  }

  lemma {:induction false} SplitOnceWithout(s: string, c: char)
    requires c !in s
    ensures SplitOnce(s, c) == None
  {
    if s != [] {
      assert s[0] in s;
      SplitOnceWithout(s[1..], c);
    }
  }

  lemma NumberParses(n: nat)
    requires n < 0x1_0000_0000
    ensures ParseU32(Decimal(n)) == Some(n) && '-' !in Decimal(n) && '/' !in Decimal(n) && Decimal(n) != "*"
  {
    var s := Decimal(n);
    assert s[0] in s && IsDigit(s[0]);
    ValueOfDecimal(n);
    assert !IsDigit('-') && !IsDigit('/');
  }

  // A star admits the whole range; with a slash and k behind it, every k-th value from the lowest on.
  lemma StarMeans(value: nat, min: nat, max: nat, k: nat)
    requires 0 < k < 0x1_0000_0000
    ensures MatchesPart("*", value, min, max) <==> min <= value <= max
    ensures MatchesPart("*" + "/" + Decimal(k), value, min, max) <==>
      min <= value <= max && (value - min) % k == 0
  {
    SplitOnceWithout("*", '/');
    SplitOnceAt("*", '/', Decimal(k));
    NumberParses(k);
  }

  /** A number admits itself alone. */
  lemma NumberMeans(n: nat, value: nat, min: nat, max: nat)
    requires n < 0x1_0000_0000
    ensures MatchesPart(Decimal(n), value, min, max) <==> value == n && min <= n <= max
  {
    NumberParses(n);
    SplitOnceWithout(Decimal(n), '/');
    SplitOnceWithout(Decimal(n), '-');
  }

  lemma RangeTexts(a: nat, b: nat)
    requires a < 0x1_0000_0000 && b < 0x1_0000_0000
    ensures var range := Decimal(a) + "-" + Decimal(b);
      range != "*" && '/' !in range && SplitOnce(range, '-') == Some((Decimal(a), Decimal(b)))
  {
    var range := Decimal(a) + "-" + Decimal(b);
    NumberParses(a);
    NumberParses(b);
    SplitOnceAt(Decimal(a), '-', Decimal(b));
    assert range[|Decimal(a)|] == '-';
  }

  /** `a-b` admits the values from a to b, if all of them are in range. */
  lemma RangeMeans(a: nat, b: nat, value: nat, min: nat, max: nat)
    requires a < 0x1_0000_0000 && b < 0x1_0000_0000
    ensures MatchesPart(Decimal(a) + "-" + Decimal(b), value, min, max) <==> min <= a <= value <= b <= max
  {
    var range := Decimal(a) + "-" + Decimal(b);
    NumberParses(a);
    NumberParses(b);
    RangeTexts(a, b);
    SplitOnceWithout(range, '/');
  }

  lemma RangePart(part: string, base: string, x: string, y: string, a: nat, b: nat, k: nat,
                  value: nat, min: nat, max: nat)
    requires part != "" && k > 0 && Step(part) == Some((base, k)) && base != "*" && SplitOnce(base, '-') == Some((x, y))
    requires ParseU32(x) == Some(a) && ParseU32(y) == Some(b)
    ensures MatchesPart(part, value, min, max) <==> min <= a <= value <= b <= max && (value - a) % k == 0
  {}

  /** `a-b/k` admits every k-th of them, from a on. */
  lemma SteppedRangeMeans(a: nat, b: nat, k: nat, value: nat, min: nat, max: nat)
    requires a < 0x1_0000_0000 && b < 0x1_0000_0000 && 0 < k < 0x1_0000_0000
    ensures MatchesPart(Decimal(a) + "-" + Decimal(b) + "/" + Decimal(k), value, min, max) <==>
      min <= a <= value <= b <= max && (value - a) % k == 0
  {
    var range := Decimal(a) + "-" + Decimal(b);
    RangeTexts(a, b);
    SteppedText(range, k);
    NumberParses(a);
    NumberParses(b);
    RangePart(range + "/" + Decimal(k), range, Decimal(a), Decimal(b), a, b, k, value, min, max);
  }

  lemma SteppedText(base: string, k: nat)
    requires '/' !in base && 0 < k < 0x1_0000_0000
    ensures Step(base + "/" + Decimal(k)) == Some((base, k))
  {
    NumberParses(k);
    SplitOnceAt(base, '/', Decimal(k));
  }

  function Joined(parts: seq<string>, c: char): string {
    if parts == [] then "" else if |parts| == 1 then parts[0] else parts[0] + [c] + Joined(parts[1..], c)
  }

  /** The parts hold no separator, and joined by it they are the field. */
  lemma {:induction false} SplitOnExactly(s: string, c: char)
    ensures Joined(SplitOn(s, c), c) == s && forall part :: part in SplitOn(s, c) ==> c !in part
  {
    if s != [] {
      var rest := SplitOn(s[1..], c);
      SplitOnExactly(s[1..], c);
      if s[0] == c {
        assert ([""] + rest)[1..] == rest && s == [c] + s[1..];
      } else {
        var parts := [[s[0]] + rest[0]] + rest[1..];
        assert parts[1..] == rest[1..];
        assert |rest| > 1 ==> Joined(parts, c) == [s[0]] + (rest[0] + [c] + Joined(rest[1..], c));
        assert rest[0] in rest && forall part :: part in rest[1..] ==> part in rest;
      }
    }
  }

  lemma {:induction false} TrimStartExactly(s: string) returns (a: string)
    ensures s == a + TrimStart(s) && forall c :: c in a ==> IsWhitespace(c)
    ensures TrimStart(s) == "" || !IsWhitespace(TrimStart(s)[0])
  {
    if s != [] && IsWhitespace(s[0]) {
      var b := TrimStartExactly(s[1..]);
      a := [s[0]] + b;
    } else {
      a := "";
    }
  }

  lemma {:induction false} TrimEndExactly(s: string) returns (b: string)
    ensures s == TrimEnd(s) + b && forall c :: c in b ==> IsWhitespace(c)
    ensures TrimEnd(s) == "" || !IsWhitespace(TrimEnd(s)[|TrimEnd(s)| - 1])
  {
    if s != [] && IsWhitespace(s[|s| - 1]) {
      var a := TrimEndExactly(s[..|s| - 1]);
      b := a + [s[|s| - 1]];
    } else {
      b := "";
    }
  }

  /** Trimming takes off white space at both ends, and all of it. */
  lemma TrimExactly(s: string) returns (a: string, b: string)
    ensures s == a + Trim(s) + b && forall c :: c in a || c in b ==> IsWhitespace(c)
    ensures Trim(s) != "" ==> !IsWhitespace(Trim(s)[0]) && !IsWhitespace(Trim(s)[|Trim(s)| - 1])
  {
    a := TrimStartExactly(s);
    b := TrimEndExactly(TrimStart(s));
    assert TrimStart(s) == Trim(s) + b;
    assert Trim(s) != "" ==> TrimStart(s)[0] == Trim(s)[0];
    assert s == a + (Trim(s) + b);
  }

  predicate IsWord(w: string) { w != "" && forall c :: c in w ==> !IsWhitespace(c) }

  lemma {:induction false} OneWord(w: string)
    requires IsWord(w)
    ensures SplitWhitespace(w) == [w]
  {
    assert w[0] in w && w == [w[0]] + w[1..];
    if |w| > 1 {
      assert w[1] in w && w[1..][0] == w[1];
      OneWord(w[1..]);
      assert [[w[0]] + w[1..]] + [w[1..]][1..] == [w];
    } else {
      assert w[1..] == "" && [w[0]] == w;
    }
  }

  /** A word, white space, and the words of the rest. */
  lemma {:induction false} WordThen(w: string, c: char, rest: string)
    requires IsWord(w) && IsWhitespace(c)
    ensures SplitWhitespace(w + [c] + rest) == [w] + SplitWhitespace(rest)
  {
    var s := w + [c] + rest;
    assert w[0] in w && w == [w[0]] + w[1..] && s[0] == w[0];
    if |w| > 1 {
      assert w[1] in w && s[1..] == w[1..] + [c] + rest && s[1] == w[1];
      WordThen(w[1..], c, rest);
      assert ([w[1..]] + SplitWhitespace(rest))[1..] == SplitWhitespace(rest);
    } else {
      assert s[1..] == [c] + rest && ([c] + rest)[1..] == rest && s[1] == c && [s[0]] == w;
    }
  }

  predicate InRange(c: Civil) {
    c.minute <= 59 && c.hour <= 23 && 1 <= c.day <= 31 && 1 <= c.month <= 12 && c.weekday <= 6
  }

  /** Five words admit, in this order, the minute, the hour, the day of the month, the month and the day of the week. */
  lemma FiveFields(v: string, w: string, x: string, y: string, z: string, c: Civil)
    requires IsWord(v) && IsWord(w) && IsWord(x) && IsWord(y) && IsWord(z) && InRange(c)
    ensures MatchesExpr(v + " " + (w + " " + (x + " " + (y + " " + z))), c) <==>
      && c.minute in FieldValues(v, 0, 59) && c.hour in FieldValues(w, 0, 23) && c.day in FieldValues(x, 1, 31)
      && c.month in FieldValues(y, 1, 12) && c.weekday in FieldValues(z, 0, 6)
  {
    FiveMatches(v, w, x, y, z, c);
    FieldMeans(v, c.minute, 0, 59);
    FieldMeans(w, c.hour, 0, 23);
    FieldMeans(x, c.day, 1, 31);
    FieldMeans(y, c.month, 1, 12);
    FieldMeans(z, c.weekday, 0, 6);
  }

  lemma FiveMatches(v: string, w: string, x: string, y: string, z: string, c: Civil)
    requires IsWord(v) && IsWord(w) && IsWord(x) && IsWord(y) && IsWord(z)
    ensures MatchesExpr(v + " " + (w + " " + (x + " " + (y + " " + z))), c) <==>
      && MatchesField(v, c.minute, 0, 59) && MatchesField(w, c.hour, 0, 23) && MatchesField(x, c.day, 1, 31)
      && MatchesField(y, c.month, 1, 12) && MatchesField(z, c.weekday, 0, 6)
  {
    FiveWords(v, w, x, y, z);
  }

  lemma FiveWords(v: string, w: string, x: string, y: string, z: string)
    requires IsWord(v) && IsWord(w) && IsWord(x) && IsWord(y) && IsWord(z)
    ensures SplitWhitespace(v + " " + (w + " " + (x + " " + (y + " " + z)))) == [v, w, x, y, z]
  {
    OneWord(z);
    WordThen(y, ' ', z);
    WordThen(x, ' ', y + " " + z);
    WordThen(w, ' ', x + " " + (y + " " + z));
    WordThen(v, ' ', w + " " + (x + " " + (y + " " + z)));
  }
}
