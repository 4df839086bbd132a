/** Exactly when the scanning detectors report spans that meet. */
module Overlaps {
  import opened Numerals
  import opened Tokens
  import opened Restoring
  import opened Regions
  import opened Redaction
  import opened Detectors

  predicate Meet(a: nat, b: nat, c: nat, d: nat) { a < d && c < b }

  // ---- Counting digits ----

  lemma {:induction false} DigitCountConcat(a: string, b: string)
    ensures DigitCount(a + b) == DigitCount(a) + DigitCount(b)
    decreases |b|
  {
    if b == [] {
      assert a + b == a;
    } else {
      assert (a + b)[..|a + b| - 1] == a + b[..|b| - 1];
      DigitCountConcat(a, b[..|b| - 1]);
    }
  }

  lemma {:induction false} DigitCountBounds(s: string)
    ensures DigitCount(s) <= |s|
    ensures DigitCount(s) == 0 <==> forall c :: c in s ==> !IsDigit(c)
  {
    if s != [] {
      DigitCountBounds(s[..|s| - 1]);
      assert s == s[..|s| - 1] + [s[|s| - 1]];
    }
  }

  lemma {:induction false} DigitCountAll(s: string)
    requires AllDigits(s)
    ensures DigitCount(s) == |s|
  {
    if s != [] {
      assert s[|s| - 1] in s;
      DigitCountAll(s[..|s| - 1]);
    }
  }

  lemma DigitCountWithin(text: string, b: nat, s: nat, e: nat, z: nat)
    requires b <= s <= e <= z <= |text|
    ensures DigitCount(text[b..z]) == DigitCount(text[b..s]) + DigitCount(text[s..e]) + DigitCount(text[e..z])
  {
    assert text[b..z] == text[b..s] + text[s..e] + text[e..z];
    DigitCountConcat(text[b..s] + text[s..e], text[e..z]);
    DigitCountConcat(text[b..s], text[s..e]);
  }

  // ---- Stretches ----

  /** Every allowed character lies in a stretch. */
  lemma StretchAround(text: string, rule: RunRule, k: nat) returns (b: nat, e: nat)
    requires k < |text| && rule.Allows(text[k])
    ensures Stretch(text, rule, b, e) && b <= k < e
  {
    b, e := k, k + 1;
    while b > 0 && rule.Allows(text[b - 1])
      invariant b <= k && forall i :: b <= i <= k ==> rule.Allows(text[i])
    {
      b := b - 1;
    }
    while e < |text| && rule.Allows(text[e])
      invariant k < e <= |text| && forall i :: b <= i < e ==> rule.Allows(text[i])
    {
      e := e + 1;
    }
  }

  lemma FirstStart(text: string, rule: RunRule, b: nat, k: nat) returns (s: nat)
    requires b <= k < |text| && rule.Starts(text[k])
    ensures b <= s <= k && rule.Starts(text[s]) && forall i :: b <= i < s ==> !rule.Starts(text[i])
  {
    s := b;
    while !rule.Starts(text[s])
      invariant b <= s <= k && forall i :: b <= i < s ==> !rule.Starts(text[i])
      decreases k - s
    {
      s := s + 1;
    }
  }

  /** A run span is the stretch from its first starting character on, and has all its digits. */
  lemma SpanOfStretch(text: string, rule: RunRule, b: nat, s: nat, e: nat)
    requires Stretch(text, rule, b, e) && b <= s < e
    requires rule.Starts(text[s]) && forall k :: b <= k < s ==> !rule.Starts(text[k])
    ensures DigitCount(text[s..e]) == DigitCount(text[b..e])
    ensures RunSpan(text, rule, s, e) <==> rule.least <= DigitCount(text[b..e]) <= rule.most
  {
    DigitCountWithin(text, b, s, e, e);
    DigitCountBounds(text[b..s]);
    DigitCountBounds(text[e..e]);
    if RunSpan(text, rule, s, e) {
      var c :| 0 <= c <= s && TrimmedRun(text, rule, c, s, e);
      StretchUnique(text, rule, b, e, c, e, s);
    } else if rule.least <= DigitCount(text[b..e]) <= rule.most {
      assert TrimmedRun(text, rule, b, s, e);
    }
  }

  /** The stretch behind a run span. */
  lemma StretchOfSpan(text: string, rule: RunRule, s: nat, e: nat) returns (b: nat)
    requires RunSpan(text, rule, s, e)
    ensures TrimmedRun(text, rule, b, s, e) && DigitCount(text[s..e]) == DigitCount(text[b..e])
  {
    b :| 0 <= b <= s && TrimmedRun(text, rule, b, s, e);
    SpanOfStretch(text, rule, b, s, e);
  }

  /** Two run spans of one rule that meet are the same. */
  lemma RunsDisjoint(text: string, rule: RunRule, s: nat, e: nat, s': nat, e': nat)
    requires RunSpan(text, rule, s, e) && RunSpan(text, rule, s', e') && Meet(s, e, s', e')
    ensures s == s' && e == e'
  {
    var b := StretchOfSpan(text, rule, s, e);
    var b' := StretchOfSpan(text, rule, s', e');
    var k := if s < s' then s' else s;
    StretchUnique(text, rule, b, e, b', e', k);
  }

  /**
   * Allowed characters from `lo` to `hi`, the first a digit, meet a run span exactly when the stretch around them
   * has an admissible number of digits.
   */
  lemma MeetsRun(text: string, rule: RunRule, lo: nat, hi: nat, b: nat, z: nat)
    requires lo < hi <= |text| && IsDigit(text[lo]) && forall k :: lo <= k < hi ==> rule.Allows(text[k])
    requires Stretch(text, rule, b, z) && b <= lo < z
    ensures hi <= z
    ensures (exists s: nat, e: nat :: RunSpan(text, rule, s, e) && Meet(lo, hi, s, e))
       <==> rule.least <= DigitCount(text[b..z]) <= rule.most
  {
    var s := FirstStart(text, rule, b, lo);
    SpanOfStretch(text, rule, b, s, z);
    if s': nat, e': nat :| RunSpan(text, rule, s', e') && Meet(lo, hi, s', e') {
      var b' := StretchOfSpan(text, rule, s', e');
      var k := if lo < s' then s' else lo;
      StretchUnique(text, rule, b, z, b', e', k);
      SpanOfStretch(text, rule, b', s', e');
    }
  }

  // ---- Cards and phones, SSNs and both ----

  lemma CardAllowed(text: string, s: nat, e: nat)
    requires RunSpan(text, CARD, s, e)
    ensures s < e <= |text| && IsDigit(text[s])
    ensures forall k :: s <= k < e ==> CARD.Allows(text[k]) && PHONE.Allows(text[k])
  {
    var b := StretchOfSpan(text, CARD, s, e);
  }

  lemma SsnAllowed(text: string, i: nat)
    requires SsnAt(text, i)
    ensures i + 11 <= |text| && IsDigit(text[i])
    ensures forall k :: i <= k < i + 11 ==> CARD.Allows(text[k]) && PHONE.Allows(text[k])
  {
    forall k | i <= k < i + 11 ensures CARD.Allows(text[k]) && PHONE.Allows(text[k]) {
      assert k == i + 3 || k == i + 6 || DigitAt(text, k);
    }
    assert DigitAt(text, i);
  }

  /** A card span meets a phone span exactly when the phone stretch around it has at most 15 digits. */
  lemma CardMeetsPhone(text: string, s: nat, e: nat, b: nat, z: nat)
    requires RunSpan(text, CARD, s, e) && Stretch(text, PHONE, b, z) && b <= s < z
    ensures (exists s': nat, e': nat :: RunSpan(text, PHONE, s', e') && Meet(s, e, s', e')) <==>
      DigitCount(text[b..z]) <= 15
  {
    CardAllowed(text, s, e);
    MeetsRun(text, PHONE, s, e, b, z);
    var c := StretchOfSpan(text, CARD, s, e);
    DigitCountWithin(text, b, s, e, z);
  }

  /** An SSN meets a phone or card span exactly when the stretch around it has an admissible number of digits. */
  lemma SsnMeetsRun(text: string, i: nat, rule: RunRule, b: nat, z: nat)
    requires SsnAt(text, i) && (rule == PHONE || rule == CARD) && Stretch(text, rule, b, z) && b <= i < z
    ensures (exists s: nat, e: nat :: RunSpan(text, rule, s, e) && Meet(i, i + 11, s, e))
       <==> rule.least <= DigitCount(text[b..z]) <= rule.most
  {
    SsnAllowed(text, i);
    MeetsRun(text, rule, i, i + 11, b, z);
  }

  // ---- E-mail addresses and the others ----

  ghost predicate EmailAt(text: string, a: nat) { exists s: nat, e: nat :: EmailAround(text, s, a, e) }

  /** Only address characters between two positions. */
  ghost predicate OneWord(text: string, a: nat, b: nat)
    requires b <= |text|
  {
    forall k :: a < k < b ==> IsEmailChar(text[k])
  }

  /** Two addresses meet exactly when only address characters stand between their `@`s. */
  lemma EmailsMeet(text: string, s: nat, a: nat, e: nat, s': nat, a': nat, e': nat)
    requires EmailAround(text, s, a, e) && EmailAround(text, s', a', e') && a < a'
    ensures Meet(s, e, s', e') <==> OneWord(text, a, a')
  {
    assert !IsEmailChar(text[a]) && !IsEmailChar(text[a']);
    assert a < s' && !IsEmailChar(text[s' - 1]);
    if Meet(s, e, s', e') {
      forall k | a < k < a' ensures IsEmailChar(text[k]) { assert k < e || s' <= k; }
    }
  }

  /** In a run span: the stretch around has an admissible number of digits, and a starting character comes no later. */
  ghost predicate RunReaches(text: string, rule: RunRule, k: nat) {
    exists b: nat, z: nat, j: nat :: Stretch(text, rule, b, z) && b <= j <= k < z && rule.Starts(text[j])
      && rule.least <= DigitCount(text[b..z]) <= rule.most
  }

  lemma RunReachesExactly(text: string, rule: RunRule, k: nat)
    ensures RunReaches(text, rule, k) <==> exists s: nat, e: nat :: RunSpan(text, rule, s, e) && s <= k < e
  {
    if s: nat, e: nat :| RunSpan(text, rule, s, e) && s <= k < e {
      var b := StretchOfSpan(text, rule, s, e);
      SpanOfStretch(text, rule, b, s, e);
      assert Stretch(text, rule, b, e) && b <= s <= k < e && rule.Starts(text[s]);
    }
    if RunReaches(text, rule, k) {
      var b: nat, z: nat, j: nat :| Stretch(text, rule, b, z) && b <= j <= k < z && rule.Starts(text[j])
        && rule.least <= DigitCount(text[b..z]) <= rule.most;
      var s := FirstStart(text, rule, b, j);
      SpanOfStretch(text, rule, b, s, z);
    }
  }

  /** An address meets a phone or card span exactly when such a span reaches one of its characters. */
  lemma EmailMeetsRun(text: string, s: nat, e: nat, rule: RunRule)
    requires EmailSpan(text, s, e)
    ensures (exists s': nat, e': nat :: RunSpan(text, rule, s', e') && Meet(s, e, s', e'))
       <==> exists k: nat :: s <= k < e && RunReaches(text, rule, k)
  {
    if s': nat, e': nat :| RunSpan(text, rule, s', e') && Meet(s, e, s', e') {
      RunReachesExactly(text, rule, if s < s' then s' else s);
    }
    if k: nat :| s <= k < e && RunReaches(text, rule, k) {
      RunReachesExactly(text, rule, k);
      var s': nat, e': nat :| RunSpan(text, rule, s', e') && s' <= k < e';
      assert Meet(s, e, s', e');
    }
  }

  /** An address meets an SSN exactly when it holds it whole. */
  lemma EmailMeetsSsn(text: string, s: nat, e: nat, i: nat)
    requires EmailSpan(text, s, e) && SsnAt(text, i)
    ensures Meet(s, e, i, i + 11) <==> s <= i && i + 11 <= e
  {
    SsnEmailChars(text, i);
    assert s > 0 ==> !IsEmailChar(text[s - 1]);
    assert e < |text| ==> !IsEmailChar(text[e]);
  }

  lemma SsnEmailChars(text: string, i: nat)
    requires SsnAt(text, i)
    ensures i + 11 <= |text| && forall k :: i <= k < i + 11 ==> IsEmailChar(text[k])
  {
    forall k | i <= k < i + 11 ensures IsEmailChar(text[k]) { assert k == i + 3 || k == i + 6 || DigitAt(text, k); }
  }

  ghost predicate EmailsApart(text: string) {
    forall a: nat, b: nat :: a < b < |text| && EmailAt(text, a) && EmailAt(text, b) ==> !OneWord(text, a, b)
  }

  ghost predicate EmailsApartFrom(text: string, rule: RunRule) {
    forall s: nat, e: nat, k: nat :: EmailSpan(text, s, e) && s <= k < e ==> !RunReaches(text, rule, k)
  }

  ghost predicate EmailsApartFromSsns(text: string) {
    forall s: nat, e: nat, i: nat :: EmailSpan(text, s, e) && SsnAt(text, i) ==> i < s || e < i + 11
  }

  lemma EmailsApartExactly(text: string)
    ensures EmailsApart(text) <==>
      forall s: nat, e: nat, s': nat, e': nat ::
        EmailSpan(text, s, e) && EmailSpan(text, s', e') && (s != s' || e != e') ==> !Meet(s, e, s', e')
  {
    if EmailsApart(text) {
      forall s: nat, e: nat, s': nat, e': nat | EmailSpan(text, s, e) && EmailSpan(text, s', e') && (s != s' || e != e')
        ensures !Meet(s, e, s', e')
      {
        EmailsApartMeans(text, s, e, s', e');
      }
    } else {
      var a: nat, b: nat :| a < b < |text| && EmailAt(text, a) && EmailAt(text, b) && OneWord(text, a, b);
      var s: nat, e: nat :| EmailAround(text, s, a, e);
      var s': nat, e': nat :| EmailAround(text, s', b, e');
      EmailsMeet(text, s, a, e, s', b, e');
      EmailsAdvance(text, s, a, e, b, s');
      assert EmailSpan(text, s, e) && EmailSpan(text, s', e');
    }
  }

  lemma EmailsApartMeans(text: string, s: nat, e: nat, s': nat, e': nat)
    requires EmailsApart(text) && EmailSpan(text, s, e) && EmailSpan(text, s', e') && (s != s' || e != e')
    ensures !Meet(s, e, s', e')
  {
    var a: nat :| EmailAround(text, s, a, e);
    var b: nat :| EmailAround(text, s', b, e');
    assert EmailAt(text, a) && EmailAt(text, b);
    if a < b { EmailsMeet(text, s, a, e, s', b, e'); }
    if b < a { EmailsMeet(text, s', b, e', s, a, e); }
    if a == b { EmailUnique(text, s, a, e, s', e'); }
  }

  lemma EmailsApartFromExactly(text: string, rule: RunRule)
    ensures EmailsApartFrom(text, rule) <==>
      forall s: nat, e: nat, s': nat, e': nat :: EmailSpan(text, s, e) && RunSpan(text, rule, s', e') ==>
        !Meet(s, e, s', e')
  {
    if EmailsApartFrom(text, rule) {
      forall s: nat, e: nat, s': nat, e': nat | EmailSpan(text, s, e) && RunSpan(text, rule, s', e')
        ensures !Meet(s, e, s', e')
      {
        EmailMeetsRun(text, s, e, rule);
      }
    } else {
      var s: nat, e: nat, k: nat :| EmailSpan(text, s, e) && s <= k < e && RunReaches(text, rule, k);
      EmailMeetsRun(text, s, e, rule);
    }
  }

  lemma EmailsApartFromSsnsExactly(text: string)
    ensures EmailsApartFromSsns(text) <==>
      forall s: nat, e: nat, i: nat :: EmailSpan(text, s, e) && SsnAt(text, i) ==> !Meet(s, e, i, i + 11)
  {
    forall s: nat, e: nat, i: nat | EmailSpan(text, s, e) && SsnAt(text, i)
      ensures Meet(s, e, i, i + 11) <==> s <= i && i + 11 <= e
    {
      EmailMeetsSsn(text, s, e, i);
    }
  }

  // ---- All together ----

  predicate Enabled(cfg: Config, kind: PIIType) {
    match kind
    case Email => cfg.email.enabled
    case Phone => cfg.phone.enabled
    case SSN => cfg.ssn.enabled
    case CreditCard => cfg.card.enabled
    case Name => cfg.name.enabled
    case Address => cfg.address.enabled
  }

  /** Reported by one of the scanning detectors. */
  ghost predicate Scanned(text: string, cfg: Config, m: PIIMatch) { Enabled(cfg, m.kind) && Finds(text, m.kind, m) }

  ghost predicate CardsApart(text: string) {
    forall s: nat, e: nat, b: nat, z: nat :: RunSpan(text, CARD, s, e) && Stretch(text, PHONE, b, z) && b <= s < z ==>
      DigitCount(text[b..z]) > 15
  }

  ghost predicate SsnsApart(text: string, rule: RunRule) {
    forall i: nat, b: nat, z: nat :: SsnAt(text, i) && Stretch(text, rule, b, z) && b <= i < z ==>
      !(rule.least <= DigitCount(text[b..z]) <= rule.most)
  }

  /** No stretch holds spans of two enabled kinds, and no word two addresses. */
  ghost predicate Apart(text: string, cfg: Config) {
    && (cfg.email.enabled ==> EmailsApart(text))
    && (cfg.email.enabled && cfg.phone.enabled ==> EmailsApartFrom(text, PHONE))
    && (cfg.email.enabled && cfg.card.enabled ==> EmailsApartFrom(text, CARD))
    && (cfg.email.enabled && cfg.ssn.enabled ==> EmailsApartFromSsns(text))
    && (cfg.phone.enabled && cfg.card.enabled ==> CardsApart(text))
    && (cfg.phone.enabled && cfg.ssn.enabled ==> SsnsApart(text, PHONE))
    && (cfg.card.enabled && cfg.ssn.enabled ==> SsnsApart(text, CARD))
  }

  ghost predicate Disjoint(m: PIIMatch, n: PIIMatch) { !Meet(m.start, m.end, n.start, n.end) }

  lemma CardsApartExactly(text: string)
    ensures CardsApart(text) <==>
      forall s: nat, e: nat, s': nat, e': nat :: RunSpan(text, CARD, s, e) && RunSpan(text, PHONE, s', e') ==>
        !Meet(s, e, s', e')
  {
    if CardsApart(text) {
      forall s: nat, e: nat, s': nat, e': nat | RunSpan(text, CARD, s, e) && RunSpan(text, PHONE, s', e')
        ensures !Meet(s, e, s', e')
      {
        CardAllowed(text, s, e);
        var b, z := StretchAround(text, PHONE, s);
        CardMeetsPhone(text, s, e, b, z);
      }
    } else {
      var s: nat, e: nat, b: nat, z: nat :| RunSpan(text, CARD, s, e) && Stretch(text, PHONE, b, z) && b <= s < z
        && DigitCount(text[b..z]) <= 15;
      CardMeetsPhone(text, s, e, b, z);
    }
  }

  lemma SsnsApartExactly(text: string, rule: RunRule)
    requires rule == PHONE || rule == CARD
    ensures SsnsApart(text, rule) <==>
      forall i: nat, s: nat, e: nat :: SsnAt(text, i) && RunSpan(text, rule, s, e) ==> !Meet(i, i + 11, s, e)
  {
    if SsnsApart(text, rule) {
      forall i: nat, s: nat, e: nat | SsnAt(text, i) && RunSpan(text, rule, s, e) ensures !Meet(i, i + 11, s, e) {
        SsnAllowed(text, i);
        var b, z := StretchAround(text, rule, i);
        SsnMeetsRun(text, i, rule, b, z);
      }
    } else {
      var i: nat, b: nat, z: nat :| SsnAt(text, i) && Stretch(text, rule, b, z) && b <= i < z
        && rule.least <= DigitCount(text[b..z]) <= rule.most;
      SsnMeetsRun(text, i, rule, b, z);
    }
  }

  ghost predicate AllDisjoint(text: string, cfg: Config) {
    forall m, n :: Scanned(text, cfg, m) && Scanned(text, cfg, n) && m != n ==> Disjoint(m, n)
  }

  lemma SameKindDisjoint(text: string, m: PIIMatch, n: PIIMatch)
    requires Finds(text, m.kind, m) && Finds(text, n.kind, n) && m.kind == n.kind && m != n
    requires m.kind == Email ==> EmailsApart(text)
    ensures Disjoint(m, n)
  {
    if !Disjoint(m, n) {
      match m.kind
      case Phone => RunsDisjoint(text, PHONE, m.start, m.end, n.start, n.end);
      case CreditCard => RunsDisjoint(text, CARD, m.start, m.end, n.start, n.end);
      case SSN =>
        if m.start < n.start { SsnsDisjoint(text, m.start, n.start); }
        if n.start < m.start { SsnsDisjoint(text, n.start, m.start); }
      case Email => EmailsApartMeans(text, m.start, m.end, n.start, n.end);
      case _ =>
    }
  }

  lemma ApartDisjoint(text: string, cfg: Config, m: PIIMatch, n: PIIMatch)
    requires Apart(text, cfg) && Scanned(text, cfg, m) && Scanned(text, cfg, n) && m != n
    ensures Disjoint(m, n)
  {
    if m.kind == n.kind {
      SameKindDisjoint(text, m, n);
    } else if m.kind == Email {
      EmailDisjoint(text, cfg, m, n);
    } else if n.kind == Email {
      EmailDisjoint(text, cfg, n, m);
    } else {
      CardsApartExactly(text);
      SsnsApartExactly(text, PHONE);
      SsnsApartExactly(text, CARD);
    }
  }

  lemma EmailDisjoint(text: string, cfg: Config, m: PIIMatch, n: PIIMatch)
    requires Apart(text, cfg) && Scanned(text, cfg, m) && Scanned(text, cfg, n) && m.kind == Email && n.kind != Email
    ensures Disjoint(m, n)
  {
    match n.kind
    case Phone => EmailsApartFromExactly(text, PHONE);
    case CreditCard => EmailsApartFromExactly(text, CARD);
    case SSN => EmailsApartFromSsnsExactly(text);
    case _ =>
  }

  lemma DisjointApart(text: string, cfg: Config)
    requires AllDisjoint(text, cfg)
    ensures Apart(text, cfg)
  {
    if cfg.phone.enabled && cfg.card.enabled { CardDisjointApart(text, cfg); }
    SsnsApartExactly(text, PHONE);
    SsnsApartExactly(text, CARD);
    if cfg.phone.enabled && cfg.ssn.enabled { SsnDisjointApart(text, cfg, PHONE); }
    if cfg.card.enabled && cfg.ssn.enabled { SsnDisjointApart(text, cfg, CARD); }
    if cfg.email.enabled { EmailDisjointApart(text, cfg); }
  }

  lemma CardDisjointApart(text: string, cfg: Config)
    requires AllDisjoint(text, cfg) && cfg.phone.enabled && cfg.card.enabled
    ensures CardsApart(text)
  {
    CardsApartExactly(text);
    forall s: nat, e: nat, s': nat, e': nat | RunSpan(text, CARD, s, e) && RunSpan(text, PHONE, s', e')
      ensures !Meet(s, e, s', e')
    {
      ScannedPair(text, cfg, PIIMatch(CreditCard, s, e), PIIMatch(Phone, s', e'));
    }
  }

  lemma EmailDisjointApart(text: string, cfg: Config)
    requires AllDisjoint(text, cfg) && cfg.email.enabled
    ensures EmailsApart(text)
    ensures cfg.phone.enabled ==> EmailsApartFrom(text, PHONE)
    ensures cfg.card.enabled ==> EmailsApartFrom(text, CARD)
    ensures cfg.ssn.enabled ==> EmailsApartFromSsns(text)
  {
    EmailsApartExactly(text);
    forall s: nat, e: nat, s': nat, e': nat | EmailSpan(text, s, e) && EmailSpan(text, s', e') && (s != s' || e != e')
      ensures !Meet(s, e, s', e')
    {
      ScannedPair(text, cfg, PIIMatch(Email, s, e), PIIMatch(Email, s', e'));
    }
    if cfg.phone.enabled { EmailRunDisjoint(text, cfg, PHONE); }
    if cfg.card.enabled { EmailRunDisjoint(text, cfg, CARD); }
    if cfg.ssn.enabled {
      EmailsApartFromSsnsExactly(text);
      forall s: nat, e: nat, i: nat | EmailSpan(text, s, e) && SsnAt(text, i) ensures !Meet(s, e, i, i + 11) {
        ScannedPair(text, cfg, PIIMatch(Email, s, e), PIIMatch(SSN, i, i + 11));
      }
    }
  }

  lemma EmailRunDisjoint(text: string, cfg: Config, rule: RunRule)
    requires AllDisjoint(text, cfg) && (rule == PHONE || rule == CARD) && Enabled(cfg, rule.kind) && cfg.email.enabled
    ensures EmailsApartFrom(text, rule)
  {
    EmailsApartFromExactly(text, rule);
    forall s: nat, e: nat, s': nat, e': nat | EmailSpan(text, s, e) && RunSpan(text, rule, s', e')
      ensures !Meet(s, e, s', e')
    {
      ScannedPair(text, cfg, PIIMatch(Email, s, e), PIIMatch(rule.kind, s', e'));
    }
  }

  lemma ScannedPair(text: string, cfg: Config, m: PIIMatch, n: PIIMatch)
    requires AllDisjoint(text, cfg) && Scanned(text, cfg, m) && Scanned(text, cfg, n) && m != n
    ensures !Meet(m.start, m.end, n.start, n.end)
  {
    assert Disjoint(m, n);
  }

  lemma SsnDisjointApart(text: string, cfg: Config, rule: RunRule)
    requires AllDisjoint(text, cfg) && (rule == PHONE || rule == CARD) && Enabled(cfg, rule.kind) && cfg.ssn.enabled
    ensures SsnsApart(text, rule)
  {
    SsnsApartExactly(text, rule);
    forall i: nat, s: nat, e: nat | SsnAt(text, i) && RunSpan(text, rule, s, e) ensures !Meet(i, i + 11, s, e) {
      ScannedPair(text, cfg, PIIMatch(SSN, i, i + 11), PIIMatch(rule.kind, s, e));
    }
  }

  /** The scanning detectors' spans are pairwise disjoint exactly when the text keeps the enabled kinds apart. */
  lemma ScannedDisjointExactly(text: string, cfg: Config)
    ensures AllDisjoint(text, cfg) <==> Apart(text, cfg)
  {
    if AllDisjoint(text, cfg) { DisjointApart(text, cfg); }
    if Apart(text, cfg) {
      forall m, n | Scanned(text, cfg, m) && Scanned(text, cfg, n) && m != n ensures Disjoint(m, n) {
        ApartDisjoint(text, cfg, m, n);
      }
    }
  }

  /** Hence exactly then the documented promise holds of their spans in the detector's result. */
  lemma DetectedDisjointExactly(text: string, cfg: Config, matches: seq<PIIMatch>)
    requires InDetectionOrder(text, cfg, matches)
    ensures (forall m, n :: m in matches && n in matches && Scanned(text, cfg, m) && Scanned(text, cfg, n) && m != n ==>
               Disjoint(m, n))
       <==> Apart(text, cfg)
  {
    DetectionMembers(text, cfg, matches);
    forall m | Scanned(text, cfg, m) ensures m in matches { assert Reported(text, cfg, m); }
    ScannedDisjointExactly(text, cfg);
  }

  /** The 13 digits `4111111111111` are a phone and a card at once. */
  lemma OverlapExample()
    ensures RunSpan("4111111111111", PHONE, 0, 13) && RunSpan("4111111111111", CARD, 0, 13)
    ensures !CardsApart("4111111111111")
  {
    PlainDigits("4111111111111");
  }

  /** Thirteen to fifteen digits are a phone and a card at once. */
  lemma PlainDigits(text: string)
    requires AllDigits(text) && 13 <= |text| <= 15
    ensures RunSpan(text, PHONE, 0, |text|) && RunSpan(text, CARD, 0, |text|) && !CardsApart(text)
  {
    var n := |text|;
    assert text[0..n] == text;
    DigitCountAll(text);
    assert TrimmedRun(text, PHONE, 0, 0, n) && TrimmedRun(text, CARD, 0, 0, n);
    assert RunSpan(text, CARD, 0, n) && Stretch(text, PHONE, 0, n) && DigitCount(text[0..n]) == n;
  }

  /** Two addresses that share the word between their `@`s. */
  lemma EmailsShareWord(x: string, y: string, z: string, text: string)
    requires EmailWord(x) && EmailWord(y) && EmailWord(z) && '.' in y && '.' in z
    requires text == x + "@" + y + "@" + z
    ensures var b, c := |x| + 1, |x| + 1 + |y|; EmailSpan(text, 0, c) && EmailSpan(text, b, |text|)
    ensures !EmailsApart(text)
  {
    var b, c := |x| + 1, |x| + 1 + |y|;
    assert text[..|x|] == x && text[b..c] == y && text[c + 1..] == z;
    forall k | 0 <= k < |text| ensures k == |x| || k == c || IsEmailChar(text[k]) {
      assert k < |x| ==> text[k] == x[k];
      assert b <= k < c ==> text[k] == y[k - b];
      assert c < k ==> text[k] == z[k - c - 1];
    }
    assert text[c + 1..|text|] == z;
    assert EmailAround(text, 0, |x|, c) && EmailAround(text, b, c, |text|);
    assert EmailAt(text, |x|) && EmailAt(text, c) && OneWord(text, |x|, c);
  }

  predicate EmailWord(s: string) { s != "" && forall k :: 0 <= k < |s| ==> IsEmailChar(s[k]) }

  /** In particular `a@b.c@d.e`: the addresses `a@b.c` and `b.c@d.e`. */
  lemma EmailOverlapExample()
    ensures var text := "a" + "@" + "b.c" + "@" + "d.e";
      EmailSpan(text, 0, 5) && EmailSpan(text, 2, 9) && !EmailsApart(text)
  {
    EmailsShareWord("a", "b.c", "d.e", "a" + "@" + "b.c" + "@" + "d.e");
  }

  // ---- A detected value in front of its own token ----

  lemma TokenShape()
    ensures var t := Token(Phone, 1); |t| == 9 && t[0] == '[' && '-' !in t && '@' !in t
  {
    assert Token(Phone, 1) == "[PHONE_1]";
  }

  /** Ten to twelve digits in front of a phone token: the phone detector reports the digits, the others nothing. */
  lemma OnlyTheDigits(digits: string, text: string)
    requires AllDigits(digits) && 10 <= |digits| <= 12 && text == digits + Token(Phone, 1)
    ensures forall s: nat, e: nat :: RunSpan(text, PHONE, s, e) <==> s == 0 && e == |digits|
    ensures forall s: nat, e: nat :: !RunSpan(text, CARD, s, e)
    ensures forall i: nat :: !SsnAt(text, i)
    ensures forall s: nat, e: nat :: !EmailSpan(text, s, e)
  {
    TokenShape();
    var n := |digits|;
    assert text[..n] == digits && text[n] == '[';
    forall k | 0 <= k < n ensures IsDigit(text[k]) { assert digits[k] in digits; }
    forall s: nat, a: nat, e: nat ensures !EmailAround(text, s, a, e) {
      assert n <= a < |text| ==> text[a] == Token(Phone, 1)[a - n];
    }
    assert text[0..n] == digits;
    DigitCountAll(digits);
    assert TrimmedRun(text, PHONE, 0, 0, n);
    forall s: nat, e: nat, rule | RunSpan(text, rule, s, e) && (rule == PHONE || rule == CARD)
      ensures s == 0 && e == n && rule == PHONE
    {
      var b := StretchOfSpan(text, rule, s, e);
      DigitCountBounds(text[s..e]);
      if s < n { StretchUnique(text, rule, 0, n, b, e, s); }
    }
    forall i: nat ensures !SsnAt(text, i) {
      if i + 11 <= |text| {
        assert text[i + 3] == if i + 3 < n then digits[i + 3] else Token(Phone, 1)[i + 3 - n];
      }
    }
  }

  lemma OnlyOneFound(digits: string, text: string)
    requires AllDigits(digits) && 10 <= |digits| <= 12 && text == digits + Token(Phone, 1)
    ensures forall m :: m == PIIMatch(Phone, 0, |digits|) <==> Finds(text, m.kind, m)
  {
    OnlyTheDigits(digits, text);
  }

  lemma OneRegion(text: string, m: PIIMatch)
    requires m.start <= m.end <= |text|
    ensures var v := text[m.start..m.end];
      && InBounds(text, [m]) && Ledger(text, [m]) == [Mint(m.kind, 1, v)]
      && Redacted(text, [m]) == Cut(text[0..m.start], Token(m.kind, 1), v, End(text[m.end..]))
  {
    var ms, v := [m], text[m.start..m.end];
    assert InBounds(text, ms) && ms[1..] == [];
    assert Kept(ms, 0) == [ms[0]] + Kept(ms[1..], m.end);
    assert Kept(ms, 0) == ms;
    var one := Issue([], m.kind, v);
    assert one == [Mint(m.kind, 1, v)];
    assert IssueAll([], text, ms) == IssueAll(one, text, ms[1..]);
    assert TokenFor(one, v) == Token(m.kind, 1);
    assert DocOf(text, ms[1..], m.end, one) == End(text[m.end..]);
    KeptChain(text, ms, 0);
    assert Redacted(text, ms) == DocOf(text, ms, 0, one);
  }

  /** Restoring loses every such text. */
  lemma RestoreLosesDetected(digits: string, text: string)
    requires AllDigits(digits) && 10 <= |digits| <= 12 && text == digits + Token(Phone, 1)
    ensures var ms := [PIIMatch(Phone, 0, |digits|)];
      && InBounds(text, ms) && (forall m :: m in ms ==> Finds(text, m.kind, m))
      && Keyed(Entries(Ledger(text, ms)))
      && Restored(Entries(Ledger(text, ms)), Shown(Redacted(text, ms))) != text
  {
    OnlyTheDigits(digits, text);
    var ms, tok := [PIIMatch(Phone, 0, |digits|)], Token(Phone, 1);
    OneRegion(text, ms[0]);
    assert text[0..|digits|] == digits;
    var es := Entries(Ledger(text, ms));
    assert es == [Entry(tok, digits)];
    assert Redacted(text, ms) == Cut(text[0..0], tok, digits, End(text[|digits|..]));
    assert text[|digits|..] == tok && tok <= tok[0..];
    forall e | e in es ensures '[' !in e.value {}
    RestoreLosesStrayToken(text, ms, es[0]);
  }

  /** In particular `8005551234[PHONE_1]`. */
  lemma RestoreNotAlwaysLossless()
    ensures var text, ms := "8005551234" + "[PHONE_1]", [PIIMatch(Phone, 0, 10)];
      && InBounds(text, ms)
      && (forall m :: m in ms <==> Finds(text, m.kind, m))
      && Keyed(Entries(Ledger(text, ms)))
      && Restored(Entries(Ledger(text, ms)), Shown(Redacted(text, ms))) != text
  {
    assert Token(Phone, 1) == "[PHONE_1]";
    var digits := "8005551234";
    OnlyTheDigits(digits, digits + "[PHONE_1]");
    OnlyOneFound(digits, digits + "[PHONE_1]");
    RestoreLosesDetected(digits, digits + "[PHONE_1]");
  }
}
