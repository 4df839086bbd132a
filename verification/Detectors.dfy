/** The scanning detectors and the sorted list of spans they make together. */
module Detectors {
  import opened Wrappers
  import opened Ordering
  import opened Sequences
  import opened Numerals
  import opened Tokens
  import opened Restoring
  import opened Regions
  import opened Redaction
  import opened StrayTokens

  function DigitCount(s: string): nat {
    if s == [] then 0 else DigitCount(s[..|s| - 1]) + (if IsDigit(s[|s| - 1]) then 1 else 0)
  }

  // ---- Runs of allowed characters: phones and cards ----

  /** What a run detector looks for: characters that may start and continue a run, and digit bounds. */
  datatype RunRule = RunRule(kind: PIIType, extra: set<char>, plusStarts: bool, least: nat, most: nat) {
    predicate Starts(c: char) { IsDigit(c) || (plusStarts && c == '+') }

    predicate Allows(c: char) { Starts(c) || c in extra }
  }

  const PHONE := RunRule(Phone, {'-', ' ', '(', ')', '.'}, true, 10, 15)
  const CARD := RunRule(CreditCard, {'-', ' '}, false, 13, 16)

  /** A longest stretch of allowed characters. */
  ghost predicate Stretch(text: string, rule: RunRule, b: nat, e: nat) {
    && b < e <= |text|
    && (forall k :: b <= k < e ==> rule.Allows(text[k]))
    && (b == 0 || !rule.Allows(text[b - 1]))
    && (e == |text| || !rule.Allows(text[e]))
  }

  /** The stretch from its first starting character on, with a valid number of digits. */
  ghost predicate TrimmedRun(text: string, rule: RunRule, b: nat, s: nat, e: nat) {
    && Stretch(text, rule, b, e) && b <= s < e
    && rule.Starts(text[s]) && (forall k :: b <= k < s ==> !rule.Starts(text[k]))
    && rule.least <= DigitCount(text[s..e]) <= rule.most
  }

  ghost predicate RunSpan(text: string, rule: RunRule, s: nat, e: nat) {
    exists b :: 0 <= b <= s && TrimmedRun(text, rule, b, s, e)
  }

  lemma StretchUnique(text: string, rule: RunRule, b: nat, e: nat, b': nat, e': nat, k: nat)
    requires Stretch(text, rule, b, e) && Stretch(text, rule, b', e')
    requires b <= k < e && b' <= k < e'
    ensures b == b' && e == e'
  {}

  /** Spans found so far: in order, disjoint, and exactly those starting before `i`. */
  ghost predicate FoundUpTo(out: seq<PIIMatch>, kind: PIIType, i: nat, span: (nat, nat) -> bool) {
    && (forall p, q :: 0 <= p < q < |out| ==> out[p].end <= out[q].start)
    && (forall m :: m in out ==> m.kind == kind && m.start < m.end && m.start < i)
    && (forall s: nat, e: nat :: PIIMatch(kind, s, e) in out <==> s < i && span(s, e))
  }

  ghost function RunSpans(text: string, rule: RunRule): (nat, nat) -> bool {
    (s: nat, e: nat) => RunSpan(text, rule, s, e)
  }

  /** From `i` as far as the allowed characters go, counting digits. */
  method RunFrom(text: string, rule: RunRule, i: nat) returns (j: nat, digits: nat)
    requires i < |text|
    ensures i <= j <= |text| && (forall k :: i <= k < j ==> rule.Allows(text[k]))
    ensures j == |text| || !rule.Allows(text[j])
    ensures digits == DigitCount(text[i..j])
  {
    digits := 0;
    j := i;
    while j < |text| && rule.Allows(text[j])
      invariant i <= j <= |text|
      invariant forall k :: i <= k < j ==> rule.Allows(text[k])
      invariant digits == DigitCount(text[i..j])
    {
      assert text[i..j + 1][..j - i] == text[i..j];
      if IsDigit(text[j]) { digits := digits + 1; }
      j := j + 1;
    }
  }

  /** Spans of one kind by ascending start, and exactly the given ones. */
  ghost predicate Lists(out: seq<PIIMatch>, kind: PIIType, span: (nat, nat) -> bool) {
    && (forall p, q :: 0 <= p < q < |out| ==> out[p].start < out[q].start)
    && (forall m :: m in out ==> m.kind == kind && m.start < m.end)
    && (forall s: nat, e: nat :: PIIMatch(kind, s, e) in out <==> span(s, e))
  }

  /** One pass over the text; after a run the scan resumes at its end. */
  method DetectRuns(text: string, rule: RunRule) returns (out: seq<PIIMatch>)
    ensures Lists(out, rule.kind, RunSpans(text, rule))
    ensures forall p, q :: 0 <= p < q < |out| ==> out[p].end <= out[q].start
  {
    out := [];
    var n := |text|;
    var i: nat := 0;
    ghost var b: nat := 0;          // start of the stretch being skipped
    ghost var closed := false;      // the last stretch ended exactly here
    while i < n
      invariant i <= n
      invariant closed ==> i == n || !rule.Allows(text[i])
      invariant !closed ==> b <= i && (b == 0 || !rule.Allows(text[b - 1]))
      invariant !closed ==> forall k :: b <= k < i ==> rule.Allows(text[k]) && !rule.Starts(text[k])
      invariant FoundUpTo(out, rule.kind, i, RunSpans(text, rule))
      invariant forall m :: m in out ==> m.end <= i
    {
      if !rule.Starts(text[i]) {
        if !rule.Allows(text[i]) { b, closed := i + 1, false; }
        i := i + 1;
        continue;
      }
      var j, digits := RunFrom(text, rule, i);
      assert Stretch(text, rule, b, j);
      OnlyFirstStart(text, rule, b, i, j);
      if rule.least <= digits <= rule.most {
        assert TrimmedRun(text, rule, b, i, j);
        out := out + [PIIMatch(rule.kind, i, j)];
      }
      i, closed := j, true;
    }
    forall s: nat, e: nat ensures PIIMatch(rule.kind, s, e) in out <==> RunSpans(text, rule)(s, e) {}
    forall p, q | 0 <= p < q < |out| ensures out[p].start < out[q].start { assert out[p] in out; }
  }

  /** Within one stretch only the first starting character can begin a span. */
  lemma OnlyFirstStart(text: string, rule: RunRule, b: nat, i: nat, j: nat)
    requires Stretch(text, rule, b, j) && b <= i < j && rule.Starts(text[i])
    requires forall k :: b <= k < i ==> !rule.Starts(text[k])
    ensures forall s: nat, e: nat :: i <= s < j && RunSpan(text, rule, s, e) ==> s == i && e == j
    ensures RunSpan(text, rule, i, j) <==> rule.least <= DigitCount(text[i..j]) <= rule.most
  {
    forall s: nat, e: nat | i <= s < j && RunSpan(text, rule, s, e) ensures s == i && e == j {
      var b' :| 0 <= b' <= s && TrimmedRun(text, rule, b', s, e);
      StretchUnique(text, rule, b, j, b', e, s);
    }
    if rule.least <= DigitCount(text[i..j]) <= rule.most { assert TrimmedRun(text, rule, b, i, j); }
  }

  // ---- Social security numbers ----

  ghost predicate DigitAt(text: string, k: int) { 0 <= k < |text| && IsDigit(text[k]) }

  /** `DDD-DD-DDDD`, not flanked by a digit on either side. */
  ghost predicate SsnAt(text: string, i: nat) {
    && i + 11 <= |text|
    && (forall k :: i <= k < i + 11 && k != i + 3 && k != i + 6 ==> DigitAt(text, k))
    && text[i + 3] == '-' && text[i + 6] == '-'
    && !DigitAt(text, i - 1) && !DigitAt(text, i + 11)
  }

  predicate AllDigits(s: string) { forall c :: c in s ==> IsDigit(c) }

  lemma AllDigitsAt(text: string, a: nat, b: nat)
    requires a <= b <= |text|
    ensures AllDigits(text[a..b]) <==> forall k :: a <= k < b ==> DigitAt(text, k)
  {
    var s := text[a..b];
    if AllDigits(s) {
      forall k | a <= k < b ensures DigitAt(text, k) { assert s[k - a] in s; }
    }
    if forall k :: a <= k < b ==> DigitAt(text, k) {
      forall c | c in s ensures IsDigit(c) {
        var k :| 0 <= k < |s| && s[k] == c;
        assert DigitAt(text, a + k);
      }
    }
  }

  lemma SsnPattern(text: string, i: nat)
    requires i + 11 <= |text|
    ensures SsnAt(text, i) <==>
      && AllDigits(text[i..i + 3]) && text[i + 3] == '-' && AllDigits(text[i + 4..i + 6])
      && text[i + 6] == '-' && AllDigits(text[i + 7..i + 11])
      && (i == 0 || !IsDigit(text[i - 1])) && (i + 11 == |text| || !IsDigit(text[i + 11]))
  {
    AllDigitsAt(text, i, i + 3);
    AllDigitsAt(text, i + 4, i + 6);
    AllDigitsAt(text, i + 7, i + 11);
  }

  ghost function SsnSpans(text: string): (nat, nat) -> bool {
    (s: nat, e: nat) => e == s + 11 && SsnAt(text, s)
  }

  method DetectSsns(text: string) returns (out: seq<PIIMatch>)
    ensures Lists(out, SSN, SsnSpans(text))
    ensures forall p, q :: 0 <= p < q < |out| ==> out[p].end <= out[q].start
  {
    out := [];
    var i := 0;
    while i + 11 <= |text|
      invariant 0 <= i
      invariant forall p, q :: 0 <= p < q < |out| ==> out[p].end <= out[q].start
      invariant forall m :: m in out ==> m.kind == SSN && m.end == m.start + 11 && SsnAt(text, m.start)
      invariant forall s: nat :: PIIMatch(SSN, s, s + 11) in out <==> SsnAt(text, s) && s < i
    {
      SsnPattern(text, i);
      if AllDigits(text[i..i + 3]) && text[i + 3] == '-' && AllDigits(text[i + 4..i + 6])
         && text[i + 6] == '-' && AllDigits(text[i + 7..i + 11]) {
        var beforeOk := i == 0 || !IsDigit(text[i - 1]);
        var afterOk := i + 11 == |text| || !IsDigit(text[i + 11]);
        if beforeOk && afterOk {
          forall p | 0 <= p < |out| ensures out[p].end <= i {
            assert out[p] in out && PIIMatch(SSN, out[p].start, out[p].start + 11) in out;
            SsnsDisjoint(text, out[p].start, i);
          }
          out := out + [PIIMatch(SSN, i, i + 11)];
        }
      }
      i := i + 1;
    }
    forall s: nat, e: nat ensures PIIMatch(SSN, s, e) in out <==> SsnSpans(text)(s, e) {
      assert e == s + 11 ==> (PIIMatch(SSN, s, s + 11) in out <==> SsnAt(text, s));
    }
    forall p, q | 0 <= p < q < |out| ensures out[p].start < out[q].start { assert out[p] in out; }
  }

  /** Two of them never overlap. */
  lemma SsnsDisjoint(text: string, i: nat, j: nat)
    requires SsnAt(text, i) && SsnAt(text, j) && i < j
    ensures i + 11 <= j
  {}

  // ---- E-mail addresses ----

  predicate IsEmailChar(c: char) { 'a' <= c <= 'z' || 'A' <= c <= 'Z' || IsDigit(c) || c in {'.', '-', '_', '+'} }

  /** From `s` to `e` the `@` at `a` with the address characters on both sides as far as they go, a dot behind it. */
  ghost predicate EmailAround(text: string, s: nat, a: nat, e: nat) {
    && s < a && a + 1 < e <= |text| && text[a] == '@'
    && (forall k :: s <= k < e && k != a ==> IsEmailChar(text[k]))
    && (s == 0 || !IsEmailChar(text[s - 1])) && (e == |text| || !IsEmailChar(text[e]))
    && '.' in text[a + 1..e]
  }

  ghost predicate EmailSpan(text: string, s: nat, e: nat) { exists a: nat :: EmailAround(text, s, a, e) }

  ghost function EmailSpans(text: string): (nat, nat) -> bool { (s: nat, e: nat) => EmailSpan(text, s, e) }

  /** The one address around an `@` before `i`. */
  ghost predicate EmailBefore(text: string, i: nat, s: nat, e: nat) {
    exists a: nat :: a < i && EmailAround(text, s, a, e)
  }

  method LocalStart(text: string, a: nat) returns (s: nat)
    requires a <= |text|
    ensures s <= a && (s == 0 || !IsEmailChar(text[s - 1])) && forall k :: s <= k < a ==> IsEmailChar(text[k])
  {
    s := a;
    while s > 0 && IsEmailChar(text[s - 1])
      invariant s <= a && forall k :: s <= k < a ==> IsEmailChar(text[k])
    {
      s := s - 1;
    }
  }

  method DomainEnd(text: string, b: nat) returns (e: nat)
    requires b <= |text|
    ensures b <= e <= |text| && (e == |text| || !IsEmailChar(text[e]))
    ensures forall k :: b <= k < e ==> IsEmailChar(text[k])
  {
    e := b;
    while e < |text| && IsEmailChar(text[e])
      invariant b <= e <= |text| && forall k :: b <= k < e ==> IsEmailChar(text[k])
    {
      e := e + 1;
    }
  }

  /** What surrounds an `@` is determined. */
  lemma EmailUnique(text: string, s: nat, a: nat, e: nat, s': nat, e': nat)
    requires a < |text| && s <= a < e <= |text|
    requires (s == 0 || !IsEmailChar(text[s - 1])) && forall k :: s <= k < a ==> IsEmailChar(text[k])
    requires (e == |text| || !IsEmailChar(text[e])) && forall k :: a < k < e ==> IsEmailChar(text[k])
    requires EmailAround(text, s', a, e')
    ensures s == s' && e == e'
  {}

  lemma EmailsAdvance(text: string, s: nat, a: nat, e: nat, i: nat, s': nat)
    requires EmailAround(text, s, a, e) && a < i <= |text| && s' < i && forall k :: s' <= k < i ==> IsEmailChar(text[k])
    ensures s < s'
  {}

  lemma StartsLater(text: string, out: seq<PIIMatch>, i: nat, s: nat)
    requires i <= |text| && s < i && forall k :: s <= k < i ==> IsEmailChar(text[k])
    requires forall m :: m in out ==> EmailBefore(text, i, m.start, m.end)
    ensures forall p :: 0 <= p < |out| ==> out[p].start < s
  {
    forall p | 0 <= p < |out| ensures out[p].start < s {
      assert out[p] in out;
      var a: nat :| a < i && EmailAround(text, out[p].start, a, out[p].end);
      EmailsAdvance(text, out[p].start, a, out[p].end, i, s);
    }
  }

  /** Every `@` in turn, with the characters around it. */
  method DetectEmails(text: string) returns (out: seq<PIIMatch>)
    ensures Lists(out, Email, EmailSpans(text))
  {
    out := [];
    for i := 0 to |text|
      invariant forall p, q :: 0 <= p < q < |out| ==> out[p].start < out[q].start
      invariant forall m :: m in out ==> m.kind == Email && EmailBefore(text, i, m.start, m.end)
      invariant forall s: nat, e: nat :: EmailBefore(text, i, s, e) ==> PIIMatch(Email, s, e) in out
    {
      if text[i] == '@' {
        ghost var before := out;
        var s := LocalStart(text, i);
        var e := DomainEnd(text, i + 1);
        if s < i && i + 1 < e && '.' in text[i + 1..e] {
          StartsLater(text, out, i, s);
          assert EmailAround(text, s, i, e);
          out := out + [PIIMatch(Email, s, e)];
        }
        EmailsSoFar(text, i, s, e, before, out);
      } else {
        EmailsSkip(text, i);
      }
    }
    forall s: nat, e: nat ensures PIIMatch(Email, s, e) in out <==> EmailSpans(text)(s, e) {
      EmailsAllBefore(text, s, e);
    }
  }

  lemma EmailsAllBefore(text: string, s: nat, e: nat)
    ensures EmailSpan(text, s, e) <==> EmailBefore(text, |text|, s, e)
  {
    if EmailSpan(text, s, e) {
      var a: nat :| EmailAround(text, s, a, e);
      assert a < |text|;
    }
  }

  lemma EmailsSkip(text: string, i: nat)
    requires i < |text| && text[i] != '@'
    ensures forall s: nat, e: nat :: EmailBefore(text, i + 1, s, e) <==> EmailBefore(text, i, s, e)
  {
    var n := i + 1;
    forall s: nat, e: nat ensures EmailBefore(text, n, s, e) <==> EmailBefore(text, i, s, e) {
      if EmailBefore(text, n, s, e) {
        var a: nat :| a < n && EmailAround(text, s, a, e);
        assert a < i;
      }
    }
  }

  lemma EmailsSoFar(text: string, i: nat, s: nat, e: nat, before: seq<PIIMatch>, out: seq<PIIMatch>)
    requires i < |text| && text[i] == '@' && s <= i < e <= |text|
    requires (s == 0 || !IsEmailChar(text[s - 1])) && forall k :: s <= k < i ==> IsEmailChar(text[k])
    requires (e == |text| || !IsEmailChar(text[e])) && forall k :: i < k < e ==> IsEmailChar(text[k])
    requires forall m :: m in before ==> m.kind == Email && EmailBefore(text, i, m.start, m.end)
    requires forall s: nat, e: nat :: EmailBefore(text, i, s, e) ==> PIIMatch(Email, s, e) in before
    requires out == before + (if EmailAround(text, s, i, e) then [PIIMatch(Email, s, e)] else [])
    ensures forall m :: m in out ==> m.kind == Email && EmailBefore(text, i + 1, m.start, m.end)
    ensures forall s: nat, e: nat :: EmailBefore(text, i + 1, s, e) ==> PIIMatch(Email, s, e) in out
  {
    var n := i + 1;
    forall m | m in out ensures m.kind == Email && EmailBefore(text, n, m.start, m.end) {
      if m in before { assert EmailBefore(text, i, m.start, m.end); }
    }
    forall s': nat, e': nat | EmailBefore(text, n, s', e') ensures PIIMatch(Email, s', e') in out {
      var a: nat :| a < n && EmailAround(text, s', a, e');
      if a == i { EmailUnique(text, s, i, e, s', e'); } else { assert EmailBefore(text, i, s', e'); }
    }
  }

  // ---- All detectors together ----

  predicate Occurs(text: string, k: int, p: string) { 0 <= k && k + |p| <= |text| && text[k..k + |p|] == p }

  /** `p` stands at `k`, and at no earlier place from `from` on. */
  ghost predicate FirstAt(text: string, from: nat, p: string, k: int) {
    from <= k && Occurs(text, k, p) && forall j :: from <= j < k ==> !Occurs(text, j, p)
  }

  ghost predicate NoneFrom(text: string, from: nat, p: string) { forall k :: from <= k ==> !Occurs(text, k, p) }

  lemma OccursFrom(text: string, s: nat, p: string)
    requires s <= |text|
    ensures forall k :: s <= k ==> (Occurs(text, k, p) <==> Occurs(text[s..], k - s, p))
  {
    forall k | s <= k ensures Occurs(text, k, p) <==> Occurs(text[s..], k - s, p) {
      if k + |p| <= |text| { assert text[k..k + |p|] == text[s..][k - s..k - s + |p|]; }
    }
  }

  function Find(s: string, p: string): (r: Option<nat>)
    ensures r.Some? ==> FirstAt(s, 0, p, r.value)
    ensures r.None? ==> NoneFrom(s, 0, p)
  {
    if p <= s then Some(0)
    else if s == [] then None
    else
      OccursFrom(s, 1, p);
      match Find(s[1..], p)
      case None => None
      case Some(k) => Some(k + 1)
  }

  function FindFrom(text: string, s: nat, p: string): (r: Option<nat>)
    requires s <= |text|
    ensures r.Some? ==> FirstAt(text, s, p, r.value)
    ensures r.None? ==> NoneFrom(text, s, p)
  {
    OccursFrom(text, s, p);
    match Find(text[s..], p)
    case None => None
    case Some(k) => Some(s + k)
  }

  /** Byte range of a run of words: from the first place of its first word to the end of the next place of its last. */
  function WordRunOffsets(text: string, first: nat, end: nat, words: seq<string>): (r: Option<(nat, nat)>)
    requires forall w :: w in words ==> w != []
    ensures r.Some? ==> r.value.0 < r.value.1 <= |text| && first < end <= |words|
    ensures r.Some? ==> FirstAt(text, 0, words[first], r.value.0)
    ensures r.Some? ==> FirstAt(text, r.value.0, words[end - 1], r.value.1 - |words[end - 1]|)
    ensures r.None? && first < end <= |words| ==>
      forall s: nat :: FirstAt(text, 0, words[first], s) ==> NoneFrom(text, s, words[end - 1])
  {
    if first >= end || end > |words| then None
    else
      var a, z := words[first], words[end - 1];
      assert a in words && z in words;
      match FindFrom(text, 0, a)
      case None => None
      case Some(s) =>
        match FindFrom(text, s, z)
        case None => None
        case Some(p) => Some((s, p + |z|))
  }

  /** One category's switch, and the spans its other detectors and custom patterns find. */
  datatype Category = Category(enabled: bool, others: seq<PIIMatch>)

  datatype Config = Config(
    email: Category, phone: Category, ssn: Category, card: Category, name: Category, address: Category)

  ghost predicate OthersInBounds(text: string, cfg: Config) {
    forall c :: c in [cfg.email, cfg.phone, cfg.ssn, cfg.card, cfg.name, cfg.address] ==> InBounds(text, c.others)
  }

  predicate StartsEarlier(a: PIIMatch, b: PIIMatch) { a.start <= b.start }

  /** What the enabled categories report. */
  ghost predicate Reported(text: string, cfg: Config, m: PIIMatch) {
    || (cfg.email.enabled && (m in cfg.email.others || (m.kind == Email && EmailSpan(text, m.start, m.end))))
    || (cfg.phone.enabled && (m in cfg.phone.others || (m.kind == Phone && RunSpan(text, PHONE, m.start, m.end))))
    || (cfg.ssn.enabled && (m in cfg.ssn.others || (m.kind == SSN && m.end == m.start + 11 && SsnAt(text, m.start))))
    || (cfg.card.enabled && (m in cfg.card.others || (m.kind == CreditCard && RunSpan(text, CARD, m.start, m.end))))
    || (cfg.name.enabled && m in cfg.name.others)
    || (cfg.address.enabled && m in cfg.address.others)
  }

  /** Which spans the modelled detector of a kind reports. */
  ghost function SpansOf(text: string, kind: PIIType): (nat, nat) -> bool {
    match kind
    case Phone => RunSpans(text, PHONE)
    case SSN => SsnSpans(text)
    case CreditCard => RunSpans(text, CARD)
    case Email => EmailSpans(text)
    case _ => (s: nat, e: nat) => false
  }

  ghost predicate Finds(text: string, kind: PIIType, m: PIIMatch) {
    m.kind == kind && SpansOf(text, kind)(m.start, m.end)
  }

  /** An enabled category contributes its own detector's spans in text order, then the others. */
  ghost predicate Contributes(text: string, kind: PIIType, category: Category, part: seq<PIIMatch>) {
    if category.enabled then exists found :: Lists(found, kind, SpansOf(text, kind)) && part == found + category.others
    else part == []
  }

  method DetectCategory(text: string, kind: PIIType, category: Category) returns (part: seq<PIIMatch>)
    ensures Contributes(text, kind, category, part)
  {
    if !category.enabled { return []; }
    var found: seq<PIIMatch> := [];
    if kind == Email {
      found := DetectEmails(text);
    } else if kind == Phone {
      found := DetectRuns(text, PHONE);
    } else if kind == SSN {
      found := DetectSsns(text);
    } else if kind == CreditCard {
      found := DetectRuns(text, CARD);
    }
    assert Lists(found, kind, SpansOf(text, kind));
    part := found + category.others;
  }

  lemma PartMembers(text: string, kind: PIIType, category: Category, part: seq<PIIMatch>, m: PIIMatch)
    requires Contributes(text, kind, category, part)
    ensures m in part <==> category.enabled && (m in category.others || Finds(text, kind, m))
  {
    if category.enabled {
      var found :| Lists(found, kind, SpansOf(text, kind)) && part == found + category.others;
      assert m.kind == kind ==> m == PIIMatch(kind, m.start, m.end);
    }
  }

  /** What each category contributes, in the fixed order of the categories. */
  datatype Parts = Parts(email: seq<PIIMatch>, phone: seq<PIIMatch>, ssn: seq<PIIMatch>, card: seq<PIIMatch>,
                         name: seq<PIIMatch>, address: seq<PIIMatch>)
  {
    function Joined(): seq<PIIMatch> { email + phone + ssn + card + name + address }
  }

  ghost predicate Collects(text: string, cfg: Config, ps: Parts) {
    && Contributes(text, Email, cfg.email, ps.email) && Contributes(text, Phone, cfg.phone, ps.phone)
    && Contributes(text, SSN, cfg.ssn, ps.ssn) && Contributes(text, CreditCard, cfg.card, ps.card)
    && Contributes(text, Name, cfg.name, ps.name) && Contributes(text, Address, cfg.address, ps.address)
  }

  /** The contributions sorted by start; spans with equal start keep their order. */
  ghost predicate InDetectionOrder(text: string, cfg: Config, matches: seq<PIIMatch>) {
    exists ps :: Collects(text, cfg, ps) && matches == SortBy(ps.Joined(), StartsEarlier)
  }

  method DetectPii(text: string, cfg: Config) returns (matches: seq<PIIMatch>)
    requires OthersInBounds(text, cfg)
    ensures InDetectionOrder(text, cfg, matches)
    ensures SortedByStart(matches) && InBounds(text, matches)
    ensures forall m :: m in matches <==> Reported(text, cfg, m)
  {
    var e := DetectCategory(text, Email, cfg.email);
    var p := DetectCategory(text, Phone, cfg.phone);
    var s := DetectCategory(text, SSN, cfg.ssn);
    var c := DetectCategory(text, CreditCard, cfg.card);
    var n := DetectCategory(text, Name, cfg.name);
    var a := DetectCategory(text, Address, cfg.address);
    var ps := Parts(e, p, s, c, n, a);
    assert Collects(text, cfg, ps);
    matches := SortBy(ps.Joined(), StartsEarlier);
    DetectionMembers(text, cfg, matches);
    forall m | m in matches ensures m.start <= m.end <= |text| { ReportedInBounds(text, cfg, m); }
  }

  lemma JoinedMembers(text: string, cfg: Config, ps: Parts, m: PIIMatch)
    requires Collects(text, cfg, ps)
    ensures m in ps.Joined() <==> Reported(text, cfg, m)
  {
    PartMembers(text, Email, cfg.email, ps.email, m);
    PartMembers(text, Phone, cfg.phone, ps.phone, m);
    PartMembers(text, SSN, cfg.ssn, ps.ssn, m);
    PartMembers(text, CreditCard, cfg.card, ps.card, m);
    PartMembers(text, Name, cfg.name, ps.name, m);
    PartMembers(text, Address, cfg.address, ps.address, m);
  }

  lemma DetectionMembers(text: string, cfg: Config, matches: seq<PIIMatch>)
    requires InDetectionOrder(text, cfg, matches)
    ensures forall m :: m in matches <==> Reported(text, cfg, m)
    ensures SortedByStart(matches)
  {
    var ps :| Collects(text, cfg, ps) && matches == SortBy(ps.Joined(), StartsEarlier);
    SortSorts(ps.Joined(), StartsEarlier);
    assert Sorted(matches, StartsEarlier);
    var joined := ps.Joined();
    forall m ensures m in joined <==> Reported(text, cfg, m) { JoinedMembers(text, cfg, ps, m); }
  }

  lemma ReportedInBounds(text: string, cfg: Config, m: PIIMatch)
    requires OthersInBounds(text, cfg) && Reported(text, cfg, m)
    ensures m.start <= m.end <= |text|
  {}

  // ---- The result is determined ----

  lemma ListsUnique(a: seq<PIIMatch>, b: seq<PIIMatch>, kind: PIIType, span: (nat, nat) -> bool)
    requires Lists(a, kind, span) && Lists(b, kind, span)
    ensures a == b
  {
    forall m ensures m in a <==> m in b { assert m.kind == kind ==> m == PIIMatch(kind, m.start, m.end); }
    StartsDistinct(a, kind, span);
    StartsDistinct(b, kind, span);
    SameElements(a, b);
    SortedUnique(a, b, StartsEarlier);
  }

  lemma StartsDistinct(a: seq<PIIMatch>, kind: PIIType, span: (nat, nat) -> bool)
    requires Lists(a, kind, span)
    ensures NoDuplicates(a) && Sorted(a, StartsEarlier) && Separates(a, StartsEarlier)
  {}

  lemma ContributesUnique(text: string, kind: PIIType, category: Category, a: seq<PIIMatch>, b: seq<PIIMatch>)
    requires Contributes(text, kind, category, a) && Contributes(text, kind, category, b)
    ensures a == b
  {
    if category.enabled {
      var f :| Lists(f, kind, SpansOf(text, kind)) && a == f + category.others;
      var g :| Lists(g, kind, SpansOf(text, kind)) && b == g + category.others;
      ListsUnique(f, g, kind, SpansOf(text, kind));
    }
  }

  /** Text and configuration determine the list, the order of spans with equal start included. */
  lemma DetectionUnique(text: string, cfg: Config, x: seq<PIIMatch>, y: seq<PIIMatch>)
    requires InDetectionOrder(text, cfg, x) && InDetectionOrder(text, cfg, y)
    ensures x == y
  {
    var ps :| Collects(text, cfg, ps) && x == SortBy(ps.Joined(), StartsEarlier);
    var qs :| Collects(text, cfg, qs) && y == SortBy(qs.Joined(), StartsEarlier);
    ContributesUnique(text, Email, cfg.email, ps.email, qs.email);
    ContributesUnique(text, Phone, cfg.phone, ps.phone, qs.phone);
    ContributesUnique(text, SSN, cfg.ssn, ps.ssn, qs.ssn);
    ContributesUnique(text, CreditCard, cfg.card, ps.card, qs.card);
    ContributesUnique(text, Name, cfg.name, ps.name, qs.name);
    ContributesUnique(text, Address, cfg.address, ps.address, qs.address);
  }

  // ---- Spans with one start ----

  /** The categories in the order they are asked. */
  function CategoryRank(kind: PIIType): nat {
    match kind
    case Email => 0
    case Phone => 1
    case SSN => 2
    case CreditCard => 3
    case Name => 4
    case Address => 5
  }

  /** Custom patterns of a category report its kind. */
  ghost predicate OwnKinds(cfg: Config) {
    && (forall m :: m in cfg.email.others ==> m.kind == Email)
    && (forall m :: m in cfg.phone.others ==> m.kind == Phone)
    && (forall m :: m in cfg.ssn.others ==> m.kind == SSN)
    && (forall m :: m in cfg.card.others ==> m.kind == CreditCard)
    && (forall m :: m in cfg.name.others ==> m.kind == Name)
    && (forall m :: m in cfg.address.others ==> m.kind == Address)
  }

  ghost predicate RankedBetween(s: seq<PIIMatch>, lo: nat, hi: nat) {
    && (forall m :: m in s ==> lo <= CategoryRank(m.kind) <= hi)
    && forall i, j :: 0 <= i < j < |s| ==> CategoryRank(s[i].kind) <= CategoryRank(s[j].kind)
  }

  lemma RankedConcat(a: seq<PIIMatch>, b: seq<PIIMatch>, lo: nat, mid: nat, hi: nat)
    requires RankedBetween(a, lo, mid) && RankedBetween(b, mid, hi) && lo <= mid <= hi
    ensures RankedBetween(a + b, lo, hi)
  {}

  lemma PartRanked(text: string, kind: PIIType, category: Category, part: seq<PIIMatch>)
    requires Contributes(text, kind, category, part) && forall m :: m in category.others ==> m.kind == kind
    ensures RankedBetween(part, CategoryRank(kind), CategoryRank(kind))
  {
    forall m | m in part ensures m.kind == kind { PartMembers(text, kind, category, part, m); }
    forall i | 0 <= i < |part| ensures part[i].kind == kind { assert part[i] in part; }
  }

  /** Of two spans with one start, the one whose category is asked first comes first. */
  lemma TiesByCategory(text: string, cfg: Config, matches: seq<PIIMatch>, i: nat, j: nat)
    requires InDetectionOrder(text, cfg, matches) && OwnKinds(cfg)
    requires i < j < |matches| && matches[i].start == matches[j].start
    ensures CategoryRank(matches[i].kind) <= CategoryRank(matches[j].kind)
  {
    var ps :| Collects(text, cfg, ps) && matches == SortBy(ps.Joined(), StartsEarlier);
    SortSorts(ps.Joined(), StartsEarlier);
    var p, q := TiesKept(ps.Joined(), StartsEarlier, i, j);
    JoinedRanked(text, cfg, ps);
  }

  lemma JoinedRanked(text: string, cfg: Config, ps: Parts)
    requires Collects(text, cfg, ps) && OwnKinds(cfg)
    ensures RankedBetween(ps.Joined(), 0, 5)
  {
    PartRanked(text, Email, cfg.email, ps.email);
    PartRanked(text, Phone, cfg.phone, ps.phone);
    PartRanked(text, SSN, cfg.ssn, ps.ssn);
    PartRanked(text, CreditCard, cfg.card, ps.card);
    PartRanked(text, Name, cfg.name, ps.name);
    PartRanked(text, Address, cfg.address, ps.address);
    var a := ps.email + ps.phone;
    var b := a + ps.ssn;
    var c := b + ps.card;
    var d := c + ps.name;
    Widen(ps.phone, 1);
    RankedConcat(ps.email, ps.phone, 0, 0, 1);
    Widen(ps.ssn, 2);
    RankedConcat(a, ps.ssn, 0, 1, 2);
    Widen(ps.card, 3);
    RankedConcat(b, ps.card, 0, 2, 3);
    Widen(ps.name, 4);
    RankedConcat(c, ps.name, 0, 3, 4);
    Widen(ps.address, 5);
    RankedConcat(d, ps.address, 0, 4, 5);
  }

  lemma Widen(s: seq<PIIMatch>, n: nat)
    requires n > 0 && RankedBetween(s, n, n)
    ensures RankedBetween(s, n - 1, n)
  {}

  // ---- Detected values and the round trip ----

  ghost predicate PlainSpans(text: string, ms: seq<PIIMatch>)
    requires InBounds(text, ms)
  {
    forall m :: m in ms ==> '[' !in text[m.start..m.end]
  }

  /** What the scanning detectors find never holds a bracket. */
  lemma RunsPlain(text: string, rule: RunRule, s: nat, e: nat)
    requires RunSpan(text, rule, s, e) && (rule == PHONE || rule == CARD)
    ensures s < e <= |text| && '[' !in text[s..e]
  {}

  lemma SsnsPlain(text: string, i: nat)
    requires SsnAt(text, i)
    ensures '[' !in text[i..i + 11]
  {
    var w := text[i..i + 11];
    forall c | c in w ensures c != '[' {
      var k :| 0 <= k < 11 && w[k] == c;
      assert k == 3 || k == 6 || DigitAt(text, i + k);
    }
  }

  lemma EmailsPlain(text: string, s: nat, e: nat)
    requires EmailSpan(text, s, e)
    ensures s < e <= |text| && '[' !in text[s..e]
  {
    var a: nat :| EmailAround(text, s, a, e);
    var w := text[s..e];
    forall c | c in w ensures c != '[' {
      var k :| 0 <= k < |w| && w[k] == c;
      assert s + k == a || IsEmailChar(text[s + k]);
    }
  }

  lemma {:induction false} LedgerPlain(text: string, kept: seq<PIIMatch>, ledger: seq<Mint>)
    requires InBounds(text, kept) && PlainSpans(text, kept)
    requires forall x :: x in ledger ==> '[' !in x.value
    ensures forall x :: x in IssueAll(ledger, text, kept) ==> '[' !in x.value
    decreases |kept|
  {
    if kept != [] {
      assert kept[0] in kept;
      LedgerPlain(text, kept[1..], Issue(ledger, kept[0].kind, text[kept[0].start..kept[0].end]));
    }
  }

  /** What these detectors find never holds `[`: the round trip is lossless exactly without stray tokens. */
  lemma DetectedRoundTrip(text: string, ms: seq<PIIMatch>)
    requires InBounds(text, ms) && forall m :: m in ms ==> Finds(text, m.kind, m)
    ensures InBounds(text, Kept(ms, 0)) && Keyed(Entries(Ledger(text, ms)))
    ensures Restored(Entries(Ledger(text, ms)), Shown(Redacted(text, ms))) == text
       <==> !Strays(text, Kept(ms, 0), Ledger(text, ms), RestoreOrder(text, ms))
  {
    KeptChain(text, ms, 0);
    forall m | m in ms ensures '[' !in text[m.start..m.end] {
      assert Finds(text, m.kind, m);
      match m.kind
      case Phone => RunsPlain(text, PHONE, m.start, m.end);
      case CreditCard => RunsPlain(text, CARD, m.start, m.end);
      case SSN => SsnsPlain(text, m.start);
      case Email => EmailsPlain(text, m.start, m.end);
      case _ =>
    }
    LedgerPlain(text, Kept(ms, 0), []);
    var ledger := Ledger(text, ms);
    forall e | e in Entries(ledger) ensures '[' !in e.value {
      var i :| 0 <= i < |ledger| && Entries(ledger)[i] == e;
      assert ledger[i] in ledger;
    }
    RestoreExact(text, ms);
  }
}
