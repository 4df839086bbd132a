/** Decimal numerals as the standard formatter prints them. */
module Numerals {

  function Digit(d: nat): char
    requires d < 10
  {
    ('0' as int + d) as char
  }

  predicate IsDigit(c: char) { '0' <= c <= '9' }

  function Decimal(n: nat): (s: string)
    ensures s != [] && forall c :: c in s ==> IsDigit(c)
  {
    if n < 10 then [Digit(n)] else Decimal(n / 10) + [Digit(n % 10)]
  }

  /** Reads a run of digits back as a number. */
  function Value(s: string): nat
    requires forall c :: c in s ==> IsDigit(c)
  {
    if s == [] then 0
    else
      assert IsDigit(s[|s| - 1]);
      Value(s[..|s| - 1]) * 10 + (s[|s| - 1] as int - '0' as int)
  }

  lemma {:induction false} ValueOfDecimal(n: nat)
    ensures Value(Decimal(n)) == n
  {
    if n < 10 {
      assert Value([Digit(n)]) == Value([]) * 10 + n by { assert [Digit(n)][..0] == []; }
    } else {
      ValueOfDecimal(n / 10);
      var s := Decimal(n);
      assert s[..|s| - 1] == Decimal(n / 10);
    }
  }

  lemma DecimalInjective(m: nat, n: nat)
    requires Decimal(m) == Decimal(n)
    ensures m == n
  {
    ValueOfDecimal(m);
    ValueOfDecimal(n);
  }

  // ---- Digits by place ----

  function Pow10(w: nat): (p: nat)
    ensures p > 0
  {
    if w == 0 then 1 else 10 * Pow10(w - 1)
  }

  lemma Quotient(v: nat, p: nat)
    requires p > 0
    ensures v / p >= 0 && v == v / p * p + v % p && v % p < p
  {
    if v / p < 0 { LessTimes(v / p, 0, p); }
  }

  lemma DivTen(v: nat, p: nat)
    requires p > 0
    ensures v / 10 / p == v / (10 * p)
  {
    var q := v / (10 * p);
    var r := v - q * (10 * p);
    assert v == 10 * (q * p) + r && 0 <= r < 10 * p;
    assert v / 10 == q * p + r / 10 && r / 10 < p;
    DivUnique(v / 10, p, q, r / 10);
  }

  lemma DivUnique(v: nat, p: nat, q: nat, r: nat)
    requires p > 0 && r < p && v == q * p + r
    ensures v / p == q
  {
    if v / p > q { LessTimes(q, v / p, p); }
    if v / p < q { LessTimes(v / p, q, p); }
  }

  lemma {:induction false} LessTimes(a: int, b: int, p: nat)
    requires a < b
    ensures a * p + p <= b * p
    decreases b - a
  {
    assert b * p == (b - 1) * p + p;
    if a + 1 < b { LessTimes(a, b - 1, p); }
  }

  lemma {:induction false} NoLeadingZero(n: nat)
    ensures Decimal(n)[0] == '0' ==> n == 0 && |Decimal(n)| == 1
  {
    if n >= 10 { NoLeadingZero(n / 10); }
  }

  function DigitOf(c: char): int { c as int - '0' as int }

  /** The digit `i` places from the right is that of the number, and there are no more digits than it needs. */
  lemma {:induction false} DecimalDigits(n: nat, i: nat)
    ensures i < |Decimal(n)| ==> DigitOf(Decimal(n)[|Decimal(n)| - 1 - i]) == n / Pow10(i) % 10
    ensures n < Pow10(|Decimal(n)|)
    ensures Decimal(n)[0] == '0' ==> |Decimal(n)| == 1
  {
    NoLeadingZero(n);
    if n >= 10 {
      DecimalDigits(n / 10, if i > 0 then i - 1 else 0);
      if i > 0 { DivTen(n, Pow10(i - 1)); }
    }
  }
}

/** The numbered placeholders that stand for redacted values. */
module Tokens {
  import opened Wrappers
  import opened Numerals

  datatype PIIType = Email | Phone | SSN | CreditCard | Name | Address

  function Tag(t: PIIType): string {
    match t
    case Email => "EMAIL"
    case Phone => "PHONE"
    case SSN => "SSN"
    case CreditCard => "CREDIT_CARD"
    case Name => "NAME"
    case Address => "ADDRESS"
  }

  function FromTag(tag: string): Option<PIIType> {
    if tag == "EMAIL" then Some(Email)
    else if tag == "PHONE" then Some(Phone)
    else if tag == "SSN" then Some(SSN)
    else if tag == "CREDIT_CARD" then Some(CreditCard)
    else if tag == "NAME" then Some(Name)
    else if tag == "ADDRESS" then Some(Address)
    else None
  }

  lemma TagRoundTrip(t: PIIType)
    ensures FromTag(Tag(t)) == Some(t)
  {}

  lemma TagUnique(tag: string)
    requires FromTag(tag).Some?
    ensures tag == Tag(FromTag(tag).value)
  {}

  /** `[TAG_N]` */
  function Token(t: PIIType, n: nat): string {
    "[" + Tag(t) + "_" + Decimal(n) + "]"
  }

  /** Position of the last `c` in `s`. */
  function LastIndexOf(s: string, c: char): Option<nat> {
    if s == [] then None
    else if s[|s| - 1] == c then Some(|s| - 1)
    else LastIndexOf(s[..|s| - 1], c)
  }

  lemma {:induction false} LastIndexAfter(pre: string, c: char, post: string)
    requires c !in post
    ensures LastIndexOf(pre + [c] + post, c) == Some(|pre|)
  {
    var s := pre + [c] + post;
    if post != [] {
      assert s[..|s| - 1] == pre + [c] + post[..|post| - 1];
      LastIndexAfter(pre, c, post[..|post| - 1]);
    }
  }

  /** The tag part of a placeholder, split off at the last underscore. */
  function TagFromPlaceholder(p: string): Option<string> {
    if p == [] || p[0] != '[' then None
    else
      var rest := p[1..];
      if rest == [] || rest[|rest| - 1] != ']' then None
      else
        var inner := rest[..|rest| - 1];
        match LastIndexOf(inner, '_')
        case None => None
        case Some(k) => if k <= |inner| then Some(inner[..k]) else None
  }

  lemma TagOfToken(t: PIIType, n: nat)
    ensures TagFromPlaceholder(Token(t, n)) == Some(Tag(t))
  {
    var p := Token(t, n);
    var inner := Tag(t) + "_" + Decimal(n);
    assert p[1..][..|p| - 2] == inner;
    LastIndexAfter(Tag(t), '_', Decimal(n));
    assert inner[..|Tag(t)|] == Tag(t);
  }

  /** Tokens are numbered per type: distinct types or numbers give distinct tokens. */
  lemma TokenInjective(t: PIIType, m: nat, u: PIIType, n: nat)
    requires Token(t, m) == Token(u, n)
    ensures t == u && m == n
  {
    TagOfToken(t, m);
    TagOfToken(u, n);
    TagRoundTrip(t);
    TagRoundTrip(u);
    var p := Token(t, m);
    var k := |Tag(t)| + 2;
    assert p[k..|p| - 1] == Decimal(m);
    assert p[k..|p| - 1] == Decimal(n);
    DecimalInjective(m, n);
  }

  /** Bracketed text: `[` only at the front and `]` only at the end. */
  predicate Bracketed(p: string) {
    && |p| >= 2 && p[0] == '[' && p[|p| - 1] == ']'
    && (forall i :: 0 < i < |p| ==> p[i] != '[')
    && (forall i :: 0 <= i < |p| - 1 ==> p[i] != ']')
  }

  lemma TokenBracketed(t: PIIType, n: nat)
    ensures Bracketed(Token(t, n))
  {
    var p, d := Token(t, n), Decimal(n);
    var k := |Tag(t)| + 2;
    forall i | 0 < i < |p| - 1 ensures p[i] != '[' && p[i] != ']' {
      if i >= k { assert p[i] == d[i - k] && d[i - k] in d; }
    }
  }

  /** No token is a proper prefix of another. */
  lemma PrefixFree(p: string, q: string)
    requires Bracketed(p) && Bracketed(q) && p <= q
    ensures p == q
  {
    assert q[|p| - 1] == ']';
  }
}
