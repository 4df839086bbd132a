/** Redacting detected spans into numbered tokens, scrubbing them, and restoring the text. */
module Redaction {
  import opened Wrappers
  import opened Ordering
  import opened Sequences
  import opened Tokens
  import opened Restoring
  import opened Regions

  // ---- Which tokens are minted ----

  /** A token minted for a value: the `num`-th of its kind. */
  datatype Mint = Mint(kind: PIIType, num: nat, value: string)

  function Counted(ledger: seq<Mint>, k: PIIType): nat {
    if ledger == [] then 0
    else Counted(ledger[..|ledger| - 1], k) + (if ledger[|ledger| - 1].kind == k then 1 else 0)
  }

  function Lookup(ledger: seq<Mint>, value: string): (m: Option<Mint>)
    ensures m.Some? ==> m.value in ledger && m.value.value == value
    ensures m.None? ==> forall x :: x in ledger ==> x.value != value
  {
    if ledger == [] then None
    else if ledger[0].value == value then Some(ledger[0])
    else Lookup(ledger[1..], value)
  }

  function TokenFor(ledger: seq<Mint>, value: string): string {
    match Lookup(ledger, value)
    case Some(m) => Token(m.kind, m.num)
    case None => ""
  }

  /** A new value gets the next number of its kind; a known value gets nothing new. */
  function Issue(ledger: seq<Mint>, kind: PIIType, value: string): seq<Mint> {
    if Lookup(ledger, value).Some? then ledger
    else ledger + [Mint(kind, Counted(ledger, kind) + 1, value)]
  }

  function IssueAll(ledger: seq<Mint>, text: string, kept: seq<PIIMatch>): seq<Mint>
    requires InBounds(text, kept)
    decreases |kept|
  {
    if kept == [] then ledger
    else
      assert kept[0] in kept;
      IssueAll(Issue(ledger, kept[0].kind, text[kept[0].start..kept[0].end]), text, kept[1..])
  }

  /** Values are distinct and each kind is numbered 1, 2, 3, ... in minting order. */
  ghost predicate WellIssued(ledger: seq<Mint>) {
    ledger == []
    || (var init, m := ledger[..|ledger| - 1], ledger[|ledger| - 1];
        && WellIssued(init)
        && m.num == Counted(init, m.kind) + 1
        && forall x :: x in init ==> x.value != m.value)
  }

  lemma LookupExtends(ledger: seq<Mint>, more: seq<Mint>, value: string)
    requires Lookup(ledger, value).Some?
    ensures Lookup(ledger + more, value) == Lookup(ledger, value)
  {
    assert (ledger + more)[0] == ledger[0];
    if ledger[0].value != value {
      assert (ledger + more)[1..] == ledger[1..] + more;
      LookupExtends(ledger[1..], more, value);
    }
  }

  lemma {:induction false} IssueAllExtends(ledger: seq<Mint>, text: string, kept: seq<PIIMatch>)
    requires InBounds(text, kept) && WellIssued(ledger)
    ensures WellIssued(IssueAll(ledger, text, kept))
    ensures ledger <= IssueAll(ledger, text, kept)
    decreases |kept|
  {
    if kept != [] {
      var k := kept[0];
      assert k in kept;
      IssueKeeps(ledger, k.kind, text[k.start..k.end]);
      IssueAllExtends(Issue(ledger, k.kind, text[k.start..k.end]), text, kept[1..]);
    }
  }

  lemma LookupInLonger(ledger: seq<Mint>, longer: seq<Mint>, value: string)
    requires ledger <= longer && Lookup(ledger, value).Some?
    ensures Lookup(longer, value) == Lookup(ledger, value)
  {
    LookupExtends(ledger, longer[|ledger|..], value);
    assert longer == ledger + longer[|ledger|..];
  }

  lemma {:induction false} IssueAllKeeps(ledger: seq<Mint>, text: string, kept: seq<PIIMatch>)
    requires InBounds(text, kept) && WellIssued(ledger)
    ensures forall m :: m in kept ==> Lookup(IssueAll(ledger, text, kept), text[m.start..m.end]).Some?
    decreases |kept|
  {
    if kept != [] {
      var k, tail := kept[0], kept[1..];
      assert k in kept && kept == [k] + tail;
      var v := text[k.start..k.end];
      var next := Issue(ledger, k.kind, v);
      IssueKeeps(ledger, k.kind, v);
      IssueAllExtends(next, text, tail);
      IssueAllKeeps(next, text, tail);
      LookupInLonger(next, IssueAll(next, text, tail), v);
    }
  }

  lemma IssueKeeps(ledger: seq<Mint>, kind: PIIType, value: string)
    requires WellIssued(ledger)
    ensures WellIssued(Issue(ledger, kind, value))
    ensures ledger <= Issue(ledger, kind, value)
    ensures Lookup(Issue(ledger, kind, value), value).Some?
  {
    var next := Issue(ledger, kind, value);
    if next != ledger {
      assert next[..|next| - 1] == ledger;
      assert next[|next| - 1] in next;
    }
  }

  lemma {:induction false} CountedMonotone(ledger: seq<Mint>, i: nat, k: PIIType)
    requires i <= |ledger|
    ensures Counted(ledger[..i], k) <= Counted(ledger, k)
  {
    if i == |ledger| {
      assert ledger[..i] == ledger;
    } else {
      var init := ledger[..|ledger| - 1];
      CountedMonotone(init, i, k);
      assert init[..i] == ledger[..i];
    }
  }

  lemma {:induction false} IssuedAt(ledger: seq<Mint>, i: nat)
    requires WellIssued(ledger) && i < |ledger|
    ensures ledger[i].num == Counted(ledger[..i], ledger[i].kind) + 1 <= Counted(ledger, ledger[i].kind)
    ensures forall j :: 0 <= j < i ==> ledger[j].value != ledger[i].value
  {
    var init := ledger[..|ledger| - 1];
    if i < |ledger| - 1 {
      IssuedAt(init, i);
      assert init[..i] == ledger[..i];
      CountedMonotone(ledger, |ledger| - 1, ledger[i].kind);
    } else {
      forall j | 0 <= j < i ensures ledger[j].value != ledger[i].value { assert ledger[j] in init; }
    }
  }

  /** Values and (kind, number) pairs both identify a minted token. */
  lemma IssuedDistinct(ledger: seq<Mint>, i: nat, j: nat)
    requires WellIssued(ledger) && i < j < |ledger|
    ensures ledger[i].value != ledger[j].value
    ensures ledger[i].kind == ledger[j].kind ==> ledger[i].num < ledger[j].num
  {
    IssuedAt(ledger, i);
    IssuedAt(ledger, j);
    var k := ledger[i].kind;
    var upto := ledger[..j];
    assert upto[..i + 1][..i] == ledger[..i] && upto[..i + 1][i] == ledger[i];
    CountedMonotone(upto, i + 1, k);
  }

  function Entries(ledger: seq<Mint>): (es: seq<Entry>)
    ensures |es| == |ledger|
    ensures forall i :: 0 <= i < |es| ==> es[i] == Entry(Token(ledger[i].kind, ledger[i].num), ledger[i].value)
  {
    seq(|ledger|, i requires 0 <= i < |ledger| => Entry(Token(ledger[i].kind, ledger[i].num), ledger[i].value))
  }

  lemma EntriesSnoc(ledger: seq<Mint>, m: Mint)
    ensures Entries(ledger + [m]) == Entries(ledger) + [Entry(Token(m.kind, m.num), m.value)]
  {}

  /** Distinct values have distinct tokens. */
  lemma EntriesKeyed(ledger: seq<Mint>)
    requires WellIssued(ledger)
    ensures Keyed(Entries(ledger))
  {
    var es := Entries(ledger);
    forall e | e in es ensures Bracketed(e.token) {
      var i :| 0 <= i < |es| && es[i] == e;
      TokenBracketed(ledger[i].kind, ledger[i].num);
    }
    forall i, j | 0 <= i < |es| && 0 <= j < |es| && es[i].token == es[j].token ensures i == j {
      TokenInjective(ledger[i].kind, ledger[i].num, ledger[j].kind, ledger[j].num);
      if i < j { IssuedDistinct(ledger, i, j); }
      if j < i { IssuedDistinct(ledger, j, i); }
    }
  }

  // ---- The redacted document ----

  /** Gaps verbatim from the text, each replaced region as the token of its value. */
  function DocOf(text: string, kept: seq<PIIMatch>, cursor: nat, ledger: seq<Mint>): Doc
    requires Chain(text, kept, cursor)
    decreases |kept|
  {
    if kept == [] then End(text[cursor..])
    else
      var m := kept[0];
      var v := text[m.start..m.end];
      Cut(text[cursor..m.start], TokenFor(ledger, v), v, DocOf(text, kept[1..], m.end, ledger))
  }

  lemma {:induction false} DocFull(text: string, kept: seq<PIIMatch>, cursor: nat, ledger: seq<Mint>)
    requires Chain(text, kept, cursor)
    ensures Full(DocOf(text, kept, cursor, ledger)) == text[cursor..]
    decreases |kept|
  {
    if kept != [] {
      var m := kept[0];
      DocFull(text, kept[1..], m.end, ledger);
      assert text[cursor..m.start] + text[m.start..m.end] + text[m.end..] == text[cursor..];
    }
  }

  // ---- What redacting and scrubbing do to the text ----

  /** The token that stands for each region. */
  function TokensOf(text: string, kept: seq<PIIMatch>, ledger: seq<Mint>): (ts: seq<string>)
    requires InBounds(text, kept)
    ensures |ts| == |kept|
    ensures forall i :: 0 <= i < |kept| ==> ts[i] == TokenFor(ledger, text[kept[i].start..kept[i].end])
  {
    seq(|kept|, i requires 0 <= i < |kept| =>
      assert kept[i] in kept;
      TokenFor(ledger, text[kept[i].start..kept[i].end]))
  }

  function Masks(n: nat, mask: string): (ts: seq<string>)
    ensures |ts| == n && forall i :: 0 <= i < n ==> ts[i] == mask
  {
    seq(n, i => mask)
  }

  /** Shown, the document is the text with every region's token spliced in. */
  lemma {:induction false} ShownSpliced(text: string, kept: seq<PIIMatch>, cursor: nat, ledger: seq<Mint>)
    returns (cuts: seq<nat>)
    requires Chain(text, kept, cursor) && InBounds(text, kept)
    ensures Spliced(Shown(DocOf(text, kept, cursor, ledger)), text, kept, cursor, TokensOf(text, kept, ledger), cuts)
    decreases |kept|, 1
  {
    if kept == [] {
      SplicedNone(text, cursor);
      cuts := [0];
    } else {
      var rest := TailSpliced(text, kept, cursor, ledger);
      var p := TokenFor(ledger, text[kept[0].start..kept[0].end]);
      cuts := [0] + Shifted(rest, kept[0].start - cursor + |p|);
      var tail := Shown(DocOf(text, kept[1..], kept[0].end, ledger));
      var ts := TokensOf(text, kept[1..], ledger);
      FirstToken(text, kept, ledger);
      SplicedMore(text, kept, cursor, p, tail, ts, rest, TokensOf(text, kept, ledger), cuts);
    }
  }

  lemma {:induction false} TailSpliced(text: string, kept: seq<PIIMatch>, cursor: nat, ledger: seq<Mint>)
    returns (cuts: seq<nat>)
    requires kept != [] && Chain(text, kept, cursor) && InBounds(text, kept)
    ensures InBounds(text, kept[1..])
    ensures Spliced(Shown(DocOf(text, kept[1..], kept[0].end, ledger)), text, kept[1..], kept[0].end,
                    TokensOf(text, kept[1..], ledger), cuts)
    decreases |kept|, 0
  {
    assert kept == [kept[0]] + kept[1..];
    cuts := ShownSpliced(text, kept[1..], kept[0].end, ledger);
  }

  lemma FirstToken(text: string, kept: seq<PIIMatch>, ledger: seq<Mint>)
    requires kept != [] && InBounds(text, kept) && InBounds(text, kept[1..]) && kept[0] in kept
    ensures TokensOf(text, kept, ledger)
         == [TokenFor(ledger, text[kept[0].start..kept[0].end])] + TokensOf(text, kept[1..], ledger)
  {}

  /** Masked, it is the text with the mask spliced in for every region. */
  lemma {:induction false} MaskedSpliced(
      text: string, kept: seq<PIIMatch>, cursor: nat, ledger: seq<Mint>, mask: string)
    returns (cuts: seq<nat>)
    requires Chain(text, kept, cursor)
    ensures Spliced(Masked(DocOf(text, kept, cursor, ledger), mask), text, kept, cursor, Masks(|kept|, mask), cuts)
    decreases |kept|
  {
    if kept == [] {
      SplicedNone(text, cursor);
      cuts := [0];
    } else {
      var rest := MaskedSpliced(text, kept[1..], kept[0].end, ledger, mask);
      cuts := [0] + Shifted(rest, kept[0].start - cursor + |mask|);
      var tail, n := Masked(DocOf(text, kept[1..], kept[0].end, ledger), mask), |kept| - 1;
      assert Masks(|kept|, mask) == [mask] + Masks(n, mask);
      SplicedMore(text, kept, cursor, mask, tail, Masks(n, mask), rest, Masks(|kept|, mask), cuts);
    }
  }

  lemma RedactedSpliced(text: string, ms: seq<PIIMatch>)
    requires InBounds(text, ms)
    ensures Chain(text, Kept(ms, 0), 0) && InBounds(text, Kept(ms, 0))
    ensures exists cuts :: Spliced(Shown(Redacted(text, ms)), text, Kept(ms, 0), 0,
                                   TokensOf(text, Kept(ms, 0), Ledger(text, ms)), cuts)
  {
    KeptChain(text, ms, 0);
    var kept, ledger := Kept(ms, 0), Ledger(text, ms);
    var cuts := ShownSpliced(text, kept, 0, ledger);
    assert Spliced(Shown(Redacted(text, ms)), text, kept, 0, TokensOf(text, kept, ledger), cuts);
  }

  lemma ScrubbedSpliced(text: string, ms: seq<PIIMatch>, mask: string)
    requires InBounds(text, ms)
    ensures Chain(text, Kept(ms, 0), 0)
    ensures exists cuts :: Spliced(Masked(Redacted(text, ms), mask), text, Kept(ms, 0), 0,
                                   Masks(|Kept(ms, 0)|, mask), cuts)
    ensures |Masked(Redacted(text, ms), mask)| == |text| - TotalLength(Kept(ms, 0)) + |Kept(ms, 0)| * |mask|
  {
    KeptChain(text, ms, 0);
    var kept := Kept(ms, 0);
    var cuts := MaskedSpliced(text, kept, 0, Ledger(text, ms), mask);
    SplicedLength(Masked(Redacted(text, ms), mask), text, kept, 0, mask, Masks(|kept|, mask), cuts);
  }

  // ---- The order of the tokens ----

  function ValueAt(text: string, m: PIIMatch): string
    requires m.start <= m.end <= |text|
  {
    text[m.start..m.end]
  }

  /** No earlier region holds the same value. */
  ghost predicate FirstSeen(text: string, kept: seq<PIIMatch>, k: nat)
    requires InBounds(text, kept) && k < |kept|
  {
    forall j :: 0 <= j < k ==> ValueAt(text, kept[j]) != ValueAt(text, kept[k])
  }

  predicate MintedFor(text: string, x: Mint, m: PIIMatch)
    requires m.start <= m.end <= |text|
  {
    x.kind == m.kind && x.value == ValueAt(text, m)
  }

  /** The minted values are those of the regions, in order of their first appearance and with its kind. */
  ghost predicate MintedInOrder(text: string, kept: seq<PIIMatch>, ledger: seq<Mint>, firsts: seq<nat>)
    requires InBounds(text, kept)
  {
    && |firsts| == |ledger|
    && (forall i :: 0 <= i < |firsts| ==> firsts[i] < |kept| && MintedFor(text, ledger[i], kept[firsts[i]]))
    && (forall i, j :: 0 <= i < j < |firsts| ==> firsts[i] < firsts[j])
    && (forall k :: 0 <= k < |kept| ==> (k in firsts <==> FirstSeen(text, kept, k)))
  }

  lemma {:induction false} IssueAllSnoc(ledger: seq<Mint>, text: string, kept: seq<PIIMatch>, m: PIIMatch)
    requires InBounds(text, kept) && InBounds(text, kept + [m]) && m.start <= m.end <= |text|
    ensures IssueAll(ledger, text, kept + [m]) == Issue(IssueAll(ledger, text, kept), m.kind, ValueAt(text, m))
    decreases |kept|
  {
    if kept == [] {
      assert [] + [m] == [m] && [m][1..] == [];
      assert IssueAll(ledger, text, [m]) == IssueAll(Issue(ledger, m.kind, ValueAt(text, m)), text, []);
    } else {
      assert (kept + [m])[1..] == kept[1..] + [m] && kept[0] in kept;
      IssueAllSnoc(Issue(ledger, kept[0].kind, ValueAt(text, kept[0])), text, kept[1..], m);
    }
  }

  lemma {:induction false} LedgerInOrder(text: string, kept: seq<PIIMatch>) returns (firsts: seq<nat>)
    requires InBounds(text, kept)
    ensures MintedInOrder(text, kept, IssueAll([], text, kept), firsts)
    decreases |kept|
  {
    if kept == [] {
      firsts := [];
    } else {
      var n := |kept| - 1;
      var init, m := kept[..n], kept[n];
      assert kept == init + [m] && m in kept;
      var before := LedgerInOrder(text, init);
      IssueAllSnoc([], text, init, m);
      firsts := if FirstSeen(text, kept, n) then before + [n] else before;
      OneMoreMinted(text, kept, n, IssueAll([], text, init), before, firsts);
    }
  }

  lemma ValueMinted(text: string, kept: seq<PIIMatch>, ledger: seq<Mint>, firsts: seq<nat>, value: string)
    requires InBounds(text, kept) && MintedInOrder(text, kept, ledger, firsts)
    ensures Lookup(ledger, value).Some? <==> exists j :: 0 <= j < |kept| && ValueAt(text, kept[j]) == value
  {
    if Lookup(ledger, value).Some? {
      var i :| 0 <= i < |ledger| && ledger[i].value == value;
      assert MintedFor(text, ledger[i], kept[firsts[i]]);
    }
    if j :| 0 <= j < |kept| && ValueAt(text, kept[j]) == value {
      var k := FirstWith(text, kept, j);
      assert k in firsts;
      var i :| 0 <= i < |firsts| && firsts[i] == k;
      assert MintedFor(text, ledger[i], kept[firsts[i]]) && ledger[i] in ledger;
    }
  }

  lemma {:induction false} FirstWith(text: string, kept: seq<PIIMatch>, j: nat) returns (k: nat)
    requires InBounds(text, kept) && j < |kept|
    ensures k <= j && FirstSeen(text, kept, k) && ValueAt(text, kept[k]) == ValueAt(text, kept[j])
  {
    if i: nat :| i < j && ValueAt(text, kept[i]) == ValueAt(text, kept[j]) {
      k := FirstWith(text, kept, i);
    } else {
      k := j;
    }
  }

  lemma OneMoreMinted(
      text: string, kept: seq<PIIMatch>, n: nat, ledger: seq<Mint>, before: seq<nat>, firsts: seq<nat>)
    requires InBounds(text, kept) && |kept| == n + 1 && InBounds(text, kept[..n])
    requires MintedInOrder(text, kept[..n], ledger, before)
    requires firsts == if FirstSeen(text, kept, n) then before + [n] else before
    ensures MintedInOrder(text, kept, Issue(ledger, kept[n].kind, ValueAt(text, kept[n])), firsts)
  {
    NewExactly(text, kept, n, ledger, before);
    FirstsIn(text, kept, n, before, firsts);
    MintsIn(text, kept, n, ledger, before, firsts);
  }

  lemma MintsIn(text: string, kept: seq<PIIMatch>, n: nat, ledger: seq<Mint>, before: seq<nat>, firsts: seq<nat>)
    requires InBounds(text, kept) && |kept| == n + 1 && InBounds(text, kept[..n]) && |before| == |ledger|
    requires forall i :: 0 <= i < |before| ==> before[i] < n && MintedFor(text, ledger[i], kept[..n][before[i]])
    requires firsts == if Lookup(ledger, ValueAt(text, kept[n])).None? then before + [n] else before
    ensures var next := Issue(ledger, kept[n].kind, ValueAt(text, kept[n]));
      && |firsts| == |next|
      && forall i :: 0 <= i < |firsts| ==> firsts[i] < |kept| && MintedFor(text, next[i], kept[firsts[i]])
  {
    var next := Issue(ledger, kept[n].kind, ValueAt(text, kept[n]));
    forall i | 0 <= i < |firsts| ensures firsts[i] < |kept| && MintedFor(text, next[i], kept[firsts[i]]) {
      if i < |before| { assert MintedFor(text, ledger[i], kept[..n][before[i]]); }
    }
  }

  lemma NewExactly(text: string, kept: seq<PIIMatch>, n: nat, ledger: seq<Mint>, before: seq<nat>)
    requires InBounds(text, kept) && |kept| == n + 1 && InBounds(text, kept[..n])
    requires MintedInOrder(text, kept[..n], ledger, before)
    ensures FirstSeen(text, kept, n) <==> Lookup(ledger, ValueAt(text, kept[n])).None?
  {
    ValueMinted(text, kept[..n], ledger, before, ValueAt(text, kept[n]));
    assert forall j :: 0 <= j < n ==> kept[..n][j] == kept[j];
  }

  lemma FirstsIn(text: string, kept: seq<PIIMatch>, n: nat, before: seq<nat>, firsts: seq<nat>)
    requires InBounds(text, kept) && |kept| == n + 1 && InBounds(text, kept[..n])
    requires forall k :: 0 <= k < n ==> (k in before <==> FirstSeen(text, kept[..n], k))
    requires forall i :: 0 <= i < |before| ==> before[i] < n
    requires firsts == if FirstSeen(text, kept, n) then before + [n] else before
    ensures forall k :: 0 <= k < |kept| ==> (k in firsts <==> FirstSeen(text, kept, k))
  {
    forall k | 0 <= k < |kept| ensures k in firsts <==> FirstSeen(text, kept, k) {
      if k < n {
        assert FirstSeen(text, kept[..n], k) <==> FirstSeen(text, kept, k);
      }
    }
  }

  /** Values are minted in the order of their first appearance, and those of one kind get rising numbers. */
  lemma LedgerByFirstAppearance(text: string, ms: seq<PIIMatch>)
    requires InBounds(text, ms)
    ensures InBounds(text, Kept(ms, 0))
    ensures exists firsts :: MintedInOrder(text, Kept(ms, 0), Ledger(text, ms), firsts)
    ensures forall i, j :: 0 <= i < j < |Ledger(text, ms)| && Ledger(text, ms)[i].kind == Ledger(text, ms)[j].kind ==>
      Ledger(text, ms)[i].num < Ledger(text, ms)[j].num
  {
    KeptChain(text, ms, 0);
    var firsts := LedgerInOrder(text, Kept(ms, 0));
    assert MintedInOrder(text, Kept(ms, 0), Ledger(text, ms), firsts);
    IssueAllExtends([], text, Kept(ms, 0));
    NumbersRise(Ledger(text, ms));
  }

  lemma {:induction false} NumbersRise(ledger: seq<Mint>)
    requires WellIssued(ledger)
    ensures forall i, j :: 0 <= i < j < |ledger| && ledger[i].kind == ledger[j].kind ==> ledger[i].num < ledger[j].num
  {
    if ledger != [] {
      var n := |ledger| - 1;
      var init := ledger[..n];
      NumbersRise(init);
      forall i | 0 <= i < n && ledger[i].kind == ledger[n].kind ensures ledger[i].num < ledger[n].num {
        NumberedFromOne(init, ledger[n].kind, ledger[i].num);
        assert init[i].num == ledger[i].num <= Counted(init, ledger[n].kind);
      }
      forall i, j | 0 <= i < j < |ledger| && ledger[i].kind == ledger[j].kind ensures ledger[i].num < ledger[j].num {
        if j < n { assert init[i].num < init[j].num; }
      }
    }
  }

  lemma {:induction false} DocCovered(text: string, kept: seq<PIIMatch>, cursor: nat, ledger: seq<Mint>)
    requires Chain(text, kept, cursor) && InBounds(text, kept) && WellIssued(ledger)
    requires forall m :: m in kept ==> Lookup(ledger, text[m.start..m.end]).Some?
    ensures Covered(DocOf(text, kept, cursor, ledger), Entries(ledger))
    decreases |kept|
  {
    if kept != [] {
      var k := kept[0];
      assert k in kept;
      var m := Lookup(ledger, text[k.start..k.end]).value;
      TokenBracketed(m.kind, m.num);
      var i :| 0 <= i < |ledger| && ledger[i] == m;
      assert Entries(ledger)[i] == Entry(Token(m.kind, m.num), m.value);
      DocCovered(text, kept[1..], k.end, ledger);
    }
  }

  function Ledger(text: string, ms: seq<PIIMatch>): seq<Mint>
    requires InBounds(text, ms)
  {
    KeptChain(text, ms, 0);
    IssueAll([], text, Kept(ms, 0))
  }

  function Redacted(text: string, ms: seq<PIIMatch>): Doc
    requires InBounds(text, ms)
  {
    KeptChain(text, ms, 0);
    DocOf(text, Kept(ms, 0), 0, Ledger(text, ms))
  }

  /** The document and the map redaction returns belong together. */
  lemma RedactedFacts(text: string, ms: seq<PIIMatch>)
    requires InBounds(text, ms)
    ensures WellIssued(Ledger(text, ms))
    ensures Keyed(Entries(Ledger(text, ms)))
    ensures Covered(Redacted(text, ms), Entries(Ledger(text, ms)))
    ensures Full(Redacted(text, ms)) == text
  {
    KeptChain(text, ms, 0);
    var kept := Kept(ms, 0);
    IssueAllExtends([], text, kept);
    IssueAllKeeps([], text, kept);
    EntriesKeyed(Ledger(text, ms));
    DocCovered(text, kept, 0, Ledger(text, ms));
    DocFull(text, kept, 0, Ledger(text, ms));
    assert text[0..] == text;
  }

  // ---- Restoring ----

  /** Longest token first, as the restoring pass sorts its entries. */
  predicate LongerFirst(a: Entry, b: Entry) { |a.token| >= |b.token| }

  function Restored(entries: seq<Entry>, text: string): string
    requires forall e :: e in entries ==> e.token != []
  {
    SortSorts(entries, LongerFirst);
    ReplaceAll(text, SortBy(entries, LongerFirst))
  }

  /** Longer tokens come first, and tokens of one length in the order of the map. */
  lemma RestoredLongestFirst(entries: seq<Entry>, i: nat, j: nat) returns (p: nat, q: nat)
    requires |SortBy(entries, LongerFirst)| == |entries| && i < j < |entries|
    ensures |SortBy(entries, LongerFirst)[i].token| >= |SortBy(entries, LongerFirst)[j].token|
    ensures p < |entries| && entries[p] == SortBy(entries, LongerFirst)[i]
    ensures q < |entries| && entries[q] == SortBy(entries, LongerFirst)[j]
    ensures |entries[p].token| == |entries[q].token| ==> p < q
  {
    var r := SortBy(entries, LongerFirst);
    SortSorts(entries, LongerFirst);
    assert LongerFirst(r[i], r[j]);
    if LongerFirst(r[j], r[i]) {
      p, q := TiesKept(entries, LongerFirst, i, j);
    } else {
      p := PlaceOf(entries, r, i);
      q := PlaceOf(entries, r, j);
    }
  }

  method Restore(entries: seq<Entry>, text: string) returns (result: string)
    requires forall e :: e in entries ==> e.token != []
    ensures result == Restored(entries, text)
  {
    if entries == [] { return text; }
    var sorted := SortBy(entries, LongerFirst);
    SortSorts(entries, LongerFirst);
    result := text;
    for i := 0 to |sorted|
      invariant ReplaceAll(result, sorted[i..]) == ReplaceAll(text, sorted)
    {
      assert sorted[i..][0] == sorted[i] && sorted[i..][1..] == sorted[i + 1..];
      result := Replace(result, sorted[i].token, sorted[i].value);
    }
  }

  lemma PermutationKeeps(entries: seq<Entry>, order: seq<Entry>, d: Doc)
    requires Keyed(entries) && Covered(d, entries) && multiset(order) == multiset(entries)
    ensures Keyed(order) && Covered(d, order)
  {
    forall e ensures e in order <==> e in entries {
      assert e in order <==> e in multiset(order);
      assert e in entries <==> e in multiset(entries);
    }
    CoveredBySet(d, entries, order);
    forall i, j | 0 <= i < |order| && 0 <= j < |order| && order[i].token == order[j].token ensures i == j {
      assert order[i] in entries && order[j] in entries;
      SameEntry(entries, order[i], order[j]);
      if i != j {
        var lo, hi := if i < j then i else j, if i < j then j else i;
        TwiceInSequence(order, lo, hi);
        OnceWhenKeyed(entries, order[lo]);
      }
    }
  }

  lemma {:induction false} OnceWhenKeyed(entries: seq<Entry>, e: Entry)
    requires Keyed(entries)
    ensures multiset(entries)[e] <= 1
  {
    if entries != [] {
      KeyedTail(entries);
      OnceWhenKeyed(entries[1..], e);
      assert entries == [entries[0]] + entries[1..];
      forall k | 0 <= k < |entries[1..]| ensures entries[1..][k] != entries[0] {
        assert entries[1..][k] == entries[k + 1];
      }
    }
  }

  lemma {:induction false} CoveredBySet(d: Doc, a: seq<Entry>, b: seq<Entry>)
    requires Covered(d, a) && forall e :: e in a ==> e in b
    ensures Covered(d, b)
  {
    if d.Cut? { CoveredBySet(d.rest, a, b); }
  }

  /** Losslessness: a text holding none of the minted tokens comes back exactly, in any order. */
  lemma RedactThenRestoreAnyOrder(text: string, ms: seq<PIIMatch>, order: seq<Entry>)
    requires InBounds(text, ms)
    requires multiset(order) == multiset(Entries(Ledger(text, ms)))
    requires forall e :: e in Entries(Ledger(text, ms)) ==> !Contains(text, e.token)
    ensures (forall e :: e in order ==> e.token != [])
         && ReplaceAll(Shown(Redacted(text, ms)), order) == text
  {
    RedactedFacts(text, ms);
    var es, d := Entries(Ledger(text, ms)), Redacted(text, ms);
    PermutationKeeps(es, order, d);
    forall e | e in order ensures !Contains(Full(d), e.token) {
      assert e in multiset(order);
      assert e in es;
    }
    AbsentTokensClean(d, order);
    CleanRestores(d, order);
  }

  lemma RedactThenRestore(text: string, ms: seq<PIIMatch>)
    requires InBounds(text, ms)
    requires forall e :: e in Entries(Ledger(text, ms)) ==> !Contains(text, e.token)
    ensures Keyed(Entries(Ledger(text, ms)))
    ensures Restored(Entries(Ledger(text, ms)), Shown(Redacted(text, ms))) == text
  {
    RedactedFacts(text, ms);
    var es := Entries(Ledger(text, ms));
    SortSorts(es, LongerFirst);
    RedactThenRestoreAnyOrder(text, ms, SortBy(es, LongerFirst));
  }

  lemma ContainsHead(s: string, p: string)
    requires p != []
    ensures Contains(s, p) ==> p[0] in s
  {}

  /** In particular every text without an opening bracket. */
  lemma RestoreBracketFree(text: string, ms: seq<PIIMatch>)
    requires InBounds(text, ms) && '[' !in text
    ensures Keyed(Entries(Ledger(text, ms)))
    ensures Restored(Entries(Ledger(text, ms)), Shown(Redacted(text, ms))) == text
  {
    RedactedFacts(text, ms);
    forall e | e in Entries(Ledger(text, ms)) ensures !Contains(text, e.token) {
      ContainsHead(text, e.token);
    }
    RedactThenRestore(text, ms);
  }

  /** When no value holds `[`, the round trip is lossless exactly for clean documents. */
  lemma RestoreIffClean(text: string, ms: seq<PIIMatch>)
    requires InBounds(text, ms) && PlainValues(Entries(Ledger(text, ms)))
    ensures Keyed(Entries(Ledger(text, ms)))
    ensures Keyed(SortBy(Entries(Ledger(text, ms)), LongerFirst))
    ensures Restored(Entries(Ledger(text, ms)), Shown(Redacted(text, ms))) == text
       <==> Clean(Redacted(text, ms), SortBy(Entries(Ledger(text, ms)), LongerFirst))
  {
    RedactedFacts(text, ms);
    var es, d := Entries(Ledger(text, ms)), Redacted(text, ms);
    SortSorts(es, LongerFirst);
    var order := SortBy(es, LongerFirst);
    PermutationKeeps(es, order, d);
    RestoresIffClean(d, order);
  }

  /** A minted token left standing in a gap always loses text. */
  lemma RestoreLosesStrayToken(text: string, ms: seq<PIIMatch>, e: Entry)
    requires InBounds(text, ms) && PlainValues(Entries(Ledger(text, ms)))
    requires e in Entries(Ledger(text, ms)) && GapContains(Redacted(text, ms), e.token)
    ensures Keyed(Entries(Ledger(text, ms)))
    ensures Restored(Entries(Ledger(text, ms)), Shown(Redacted(text, ms))) != text
  {
    RestoreIffClean(text, ms);
    RedactedFacts(text, ms);
    var es, d := Entries(Ledger(text, ms)), Redacted(text, ms);
    SortSorts(es, LongerFirst);
    PermutationKeeps(es, SortBy(es, LongerFirst), d);
    StrayStaysDirty(d, SortBy(es, LongerFirst), e);
  }

  lemma {:induction false} StrayStaysDirty(d: Doc, order: seq<Entry>, e: Entry)
    requires Keyed(order) && Covered(d, order) && e in order && GapContains(d, e.token)
    ensures !Clean(d, order)
    decreases |order|
  {
    var first := order[0];
    if !GapContains(d, first.token) {
      StrayKept(d, first, e.token);
      ResolveCovered(d, order);
      KeyedTail(order);
      StrayStaysDirty(Resolve(d, first), order[1..], e);
    }
  }

  lemma {:induction false} PrependGap(s: string, d: Doc, p: string)
    ensures Contains(s, p) || GapContains(d, p) ==> GapContains(Prepend(s, d), p)
  {
    var head := if d.End? then d.tail else d.gap;
    if Contains(s, p) { ContainsWider([], s, head, p); assert [] + s + head == s + head; }
    if Contains(head, p) { ContainsWider(s, head, [], p); assert s + head + [] == s + head; }
  }

  lemma {:induction false} StrayKept(d: Doc, first: Entry, p: string)
    requires first.token != [] && !GapContains(d, first.token) && GapContains(d, p)
    ensures GapContains(Resolve(d, first), p)
  {
    match d
    case End(t) => ReplaceAbsent(t, first.token, first.value);
    case Cut(g, q, o, r) =>
      ReplaceAbsent(g, first.token, first.value);
      if GapContains(r, p) { StrayKept(r, first, p); }
      if Contains(g, p) { ContainsWider([], g, first.value, p); assert [] + g + first.value == g + first.value; }
      PrependGap(g + first.value, Resolve(r, first), p);
  }

  // ---- The redacting and scrubbing passes ----

  datatype Audit = Audit(counts: map<PIIType, nat>, total: nat)

  function AuditOf(ledger: seq<Mint>): Audit {
    Audit(map k: PIIType | Counted(ledger, k) > 0 :: Counted(ledger, k), |ledger|)
  }

  ghost predicate CountersMatch(counters: map<string, nat>, ledger: seq<Mint>) {
    && (forall k: PIIType :: Counted(ledger, k) == if Tag(k) in counters then counters[Tag(k)] else 0)
    && (forall t :: t in counters ==> counters[t] > 0)
  }

  ghost predicate AssignedMatch(placeholders: map<string, string>, ledger: seq<Mint>) {
    forall v :: (v in placeholders <==> Lookup(ledger, v).Some?)
             && (v in placeholders ==> placeholders[v] == TokenFor(ledger, v))
  }

  lemma CountersStep(counters: map<string, nat>, ledger: seq<Mint>, kind: PIIType, num: nat, value: string)
    requires CountersMatch(counters, ledger)
    ensures CountersMatch(counters[Tag(kind) := Counted(ledger, kind) + 1], ledger + [Mint(kind, num, value)])
  {
    var next := ledger + [Mint(kind, num, value)];
    assert next[..|next| - 1] == ledger;
    forall k: PIIType ensures Tag(k) == Tag(kind) ==> k == kind {
      TagRoundTrip(k);
      TagRoundTrip(kind);
    }
  }

  lemma AssignedStep(placeholders: map<string, string>, ledger: seq<Mint>, m: Mint)
    requires AssignedMatch(placeholders, ledger) && Lookup(ledger, m.value).None?
    ensures AssignedMatch(placeholders[m.value := Token(m.kind, m.num)], ledger + [m])
  {
    forall v ensures Lookup(ledger + [m], v) ==
        if v == m.value then Some(m) else Lookup(ledger, v) {
      LookupAppend(ledger, m, v);
    }
  }

  lemma {:induction false} LookupAppend(ledger: seq<Mint>, m: Mint, v: string)
    ensures Lookup(ledger + [m], v) ==
      if Lookup(ledger, v).Some? then Lookup(ledger, v) else if v == m.value then Some(m) else None
  {
    if ledger == [] {
      assert (ledger + [m])[1..] == [];
    } else {
      assert (ledger + [m])[1..] == ledger[1..] + [m];
      LookupAppend(ledger[1..], m, v);
    }
  }

  // What is left to do from span `i` on: the rest of the document, and of the ledger.

  function RestDoc(text: string, ms: seq<PIIMatch>, i: nat, cursor: nat, ledger: seq<Mint>): Doc
    requires InBounds(text, ms) && i <= |ms| && cursor <= |text|
  {
    KeptChain(text, ms[i..], cursor);
    DocOf(text, Kept(ms[i..], cursor), cursor, ledger)
  }

  function RestIssued(text: string, ms: seq<PIIMatch>, i: nat, cursor: nat, ledger: seq<Mint>): seq<Mint>
    requires InBounds(text, ms) && i <= |ms| && cursor <= |text|
  {
    KeptChain(text, ms[i..], cursor);
    IssueAll(ledger, text, Kept(ms[i..], cursor))
  }

  lemma RestSkip(text: string, ms: seq<PIIMatch>, i: nat, cursor: nat, final: seq<Mint>, ledger: seq<Mint>)
    requires InBounds(text, ms) && i < |ms| && cursor <= |text| && ms[i].start < cursor
    ensures RestDoc(text, ms, i, cursor, final) == RestDoc(text, ms, i + 1, cursor, final)
    ensures RestIssued(text, ms, i, cursor, ledger) == RestIssued(text, ms, i + 1, cursor, ledger)
  {
    assert ms[i..][0] == ms[i] && ms[i..][1..] == ms[i + 1..];
  }

  lemma RestCut(text: string, ms: seq<PIIMatch>, i: nat, cursor: nat, final: seq<Mint>)
    requires InBounds(text, ms) && i < |ms| && cursor <= |text| && ms[i].start >= cursor
    ensures ms[i].start <= ms[i].end <= |text|
    ensures var m := ms[i]; var v := text[m.start..m.end];
      RestDoc(text, ms, i, cursor, final)
        == Cut(text[cursor..m.start], TokenFor(final, v), v, RestDoc(text, ms, i + 1, m.end, final))
  {
    var m := ms[i];
    assert m in ms;
    assert ms[i..][0] == m && ms[i..][1..] == ms[i + 1..];
    var rest := Kept(ms[i + 1..], m.end);
    assert Kept(ms[i..], cursor) == [m] + rest;
    assert ([m] + rest)[1..] == rest;
  }

  lemma RestDone(text: string, ms: seq<PIIMatch>, cursor: nat, final: seq<Mint>, ledger: seq<Mint>)
    requires InBounds(text, ms) && cursor <= |text|
    ensures RestDoc(text, ms, |ms|, cursor, final) == End(text[cursor..])
    ensures RestIssued(text, ms, |ms|, cursor, ledger) == ledger
  {
    assert ms[|ms|..] == [];
  }

  lemma RestStart(text: string, ms: seq<PIIMatch>)
    requires InBounds(text, ms)
    ensures RestDoc(text, ms, 0, 0, Ledger(text, ms)) == Redacted(text, ms)
    ensures RestIssued(text, ms, 0, 0, []) == Ledger(text, ms)
  {
    assert ms[0..] == ms;
  }

  lemma NothingDetected(text: string)
    ensures Redacted(text, []) == End(text) && Ledger(text, []) == []
    ensures AuditOf([]) == Audit(map[], 0)
  {
    assert text[0..] == text;
  }

  /** The output so far, extended by a gap and a token, stays a prefix of the shown document. */
  lemma RestShown(text: string, ms: seq<PIIMatch>, i: nat, cursor: nat, final: seq<Mint>, result: string)
    requires InBounds(text, ms) && i < |ms| && cursor <= |text| && ms[i].start >= cursor
    ensures ms[i].start <= ms[i].end <= |text|
    ensures var m := ms[i]; var p := TokenFor(final, text[m.start..m.end]);
      result + Shown(RestDoc(text, ms, i, cursor, final))
        == (if m.start > cursor then result + text[cursor..m.start] else result) + p
         + Shown(RestDoc(text, ms, i + 1, m.end, final))
  {
    RestCut(text, ms, i, cursor, final);
    var m := ms[i];
    var g, p, s := text[cursor..m.start], TokenFor(final, text[m.start..m.end]),
      Shown(RestDoc(text, ms, i + 1, m.end, final));
    Regrouped(result, g, p, s);
  }

  lemma Regrouped(r: string, g: string, p: string, s: string)
    ensures r + (g + p + s) == (if g != [] then r + g else r) + p + s
  {
    assert r + (g + p + s) == r + g + p + s;
  }

  /** The same for the scrubbed text, where every region becomes the fixed mask. */
  lemma RestMasked(text: string, ms: seq<PIIMatch>, i: nat, cursor: nat, final: seq<Mint>, result: string)
    requires InBounds(text, ms) && i < |ms| && cursor <= |text| && ms[i].start >= cursor
    ensures ms[i].start <= ms[i].end <= |text|
    ensures var m := ms[i];
      result + Masked(RestDoc(text, ms, i, cursor, final), REDACTED)
        == (if m.start > cursor then result + text[cursor..m.start] else result) + REDACTED
         + Masked(RestDoc(text, ms, i + 1, m.end, final), REDACTED)
  {
    RestCut(text, ms, i, cursor, final);
    var m := ms[i];
    var g, s := text[cursor..m.start], Masked(RestDoc(text, ms, i + 1, m.end, final), REDACTED);
    assert result + (g + REDACTED + s) == result + g + REDACTED + s;
    assert g == [] ==> result + g == result;
  }

  lemma RestIssue(text: string, ms: seq<PIIMatch>, i: nat, cursor: nat, ledger: seq<Mint>)
    requires InBounds(text, ms) && i < |ms| && cursor <= |text| && ms[i].start >= cursor
    ensures ms[i].start <= ms[i].end <= |text|
    ensures var m := ms[i];
      RestIssued(text, ms, i, cursor, ledger)
        == RestIssued(text, ms, i + 1, m.end, Issue(ledger, m.kind, text[m.start..m.end]))
  {
    var m := ms[i];
    assert m in ms;
    assert ms[i..][0] == m && ms[i..][1..] == ms[i + 1..];
    var rest := Kept(ms[i + 1..], m.end);
    assert Kept(ms[i..], cursor) == [m] + rest;
    assert ([m] + rest)[1..] == rest;
  }

  function FromTags(counts: map<string, nat>): map<PIIType, nat> {
    map t | t in counts && FromTag(t).Some? :: FromTag(t).value := counts[t]
  }

  lemma FromTagsAt(counts: map<string, nat>, k: PIIType)
    ensures k in FromTags(counts) <==> Tag(k) in counts
    ensures k in FromTags(counts) ==> FromTags(counts)[k] == counts[Tag(k)]
  {
    TagRoundTrip(k);
    if Tag(k) in counts { assert FromTag(Tag(k)).value in FromTags(counts); }
    if k in FromTags(counts) {
      var t :| t in counts && FromTag(t).Some? && FromTag(t).value == k && FromTags(counts)[k] == counts[t];
      TagUnique(t);
    }
  }

  lemma FromTagsCounts(counts: map<string, nat>, ledger: seq<Mint>)
    requires CountersMatch(counts, ledger)
    ensures FromTags(counts) == AuditOf(ledger).counts
  {
    var got := FromTags(counts);
    forall k: PIIType ensures (k in got <==> Counted(ledger, k) > 0) && (k in got ==> got[k] == Counted(ledger, k)) {
      FromTagsAt(counts, k);
    }
  }

  /** The tag counts read back from the placeholders are the ledger's counts. */
  lemma TagCounted(counts: map<string, nat>, ledger: seq<Mint>, i: nat)
    requires i < |ledger| && CountersMatch(counts, ledger[..i])
    ensures TagFromPlaceholder(Entries(ledger)[i].token) == Some(Tag(ledger[i].kind))
    ensures var tag := Tag(ledger[i].kind);
      CountersMatch(counts[tag := (if tag in counts then counts[tag] else 0) + 1], ledger[..i + 1])
  {
    var m := ledger[i];
    TagOfToken(m.kind, m.num);
    CountersStep(counts, ledger[..i], m.kind, m.num, m.value);
    assert ledger[..i + 1] == ledger[..i] + [m];
  }

  method CountByTag(entries: seq<Entry>, ghost ledger: seq<Mint>) returns (counts: map<PIIType, nat>)
    requires entries == Entries(ledger)
    ensures counts == AuditOf(ledger).counts
  {
    var typeCounts: map<string, nat> := map[];
    for i := 0 to |entries|
      invariant CountersMatch(typeCounts, ledger[..i])
    {
      var tag := TagFromPlaceholder(entries[i].token);
      TagCounted(typeCounts, ledger, i);
      if tag.Some? {
        typeCounts := typeCounts[tag.value := (if tag.value in typeCounts then typeCounts[tag.value] else 0) + 1];
      }
    }
    assert ledger[..|entries|] == ledger;
    FromTagsCounts(typeCounts, ledger);
    counts := FromTags(typeCounts);
  }

  function NextNumber(counters: map<string, nat>, kind: PIIType): nat {
    (if Tag(kind) in counters then counters[Tag(kind)] else 0) + 1
  }

  lemma MintCounters(counters: map<string, nat>, ledger: seq<Mint>, kind: PIIType, value: string, n: nat)
    requires CountersMatch(counters, ledger) && Lookup(ledger, value).None? && n == NextNumber(counters, kind)
    ensures n == Counted(ledger, kind) + 1
    ensures CountersMatch(counters[Tag(kind) := n], Issue(ledger, kind, value))
  {
    CountersStep(counters, ledger, kind, n, value);
  }

  lemma MintPlaceholders(placeholders: map<string, string>, ledger: seq<Mint>, kind: PIIType, value: string, n: nat)
    requires AssignedMatch(placeholders, ledger) && Lookup(ledger, value).None? && n == Counted(ledger, kind) + 1
    ensures AssignedMatch(placeholders[value := Token(kind, n)], Issue(ledger, kind, value))
  {
    AssignedStep(placeholders, ledger, Mint(kind, n, value));
  }

  lemma MintEntries(ledger: seq<Mint>, kind: PIIType, value: string, n: nat)
    requires WellIssued(ledger) && Lookup(ledger, value).None? && n == Counted(ledger, kind) + 1
    ensures WellIssued(Issue(ledger, kind, value))
    ensures Entries(Issue(ledger, kind, value)) == Entries(ledger) + [Entry(Token(kind, n), value)]
  {
    var m := Mint(kind, n, value);
    IssuedNew(ledger, m);
    IssueKeeps(ledger, kind, value);
    EntriesSnoc(ledger, m);
  }

  lemma IssuedNew(ledger: seq<Mint>, m: Mint)
    requires Lookup(ledger, m.value).None? && m.num == Counted(ledger, m.kind) + 1
    ensures Issue(ledger, m.kind, m.value) == ledger + [m]
  {}

  /** A token issued now is the one the final ledger assigns. */
  lemma FinalToken(text: string, ms: seq<PIIMatch>, i: nat, cursor: nat, ledger: seq<Mint>, value: string)
    requires InBounds(text, ms) && i <= |ms| && cursor <= |text|
    requires WellIssued(ledger) && Lookup(ledger, value).Some?
    ensures TokenFor(RestIssued(text, ms, i, cursor, ledger), value) == TokenFor(ledger, value)
  {
    KeptChain(text, ms[i..], cursor);
    IssueAllExtends(ledger, text, Kept(ms[i..], cursor));
    LookupInLonger(ledger, RestIssued(text, ms, i, cursor, ledger), value);
  }

  /** The per-type counters, the de-duplication map and the entries, as one pass grows them. */
  datatype Minting = Minting(counters: map<string, nat>, placeholders: map<string, string>, entries: seq<Entry>)

  ghost predicate Tracks(mint: Minting, ledger: seq<Mint>) {
    && WellIssued(ledger) && mint.entries == Entries(ledger)
    && CountersMatch(mint.counters, ledger) && AssignedMatch(mint.placeholders, ledger)
  }

  function Minted(mint: Minting, kind: PIIType, value: string, n: nat): Minting {
    Minting(mint.counters[Tag(kind) := n], mint.placeholders[value := Token(kind, n)],
            mint.entries + [Entry(Token(kind, n), value)])
  }

  lemma MintStep(mint: Minting, ledger: seq<Mint>, kind: PIIType, value: string, n: nat)
    requires Tracks(mint, ledger) && value !in mint.placeholders && n == NextNumber(mint.counters, kind)
    ensures Tracks(Minted(mint, kind, value, n), Issue(ledger, kind, value))
    ensures Token(kind, n) == TokenFor(Issue(ledger, kind, value), value)
  {
    MintCounters(mint.counters, ledger, kind, value, n);
    MintPlaceholders(mint.placeholders, ledger, kind, value, n);
    MintEntries(ledger, kind, value, n);
    assert value in Minted(mint, kind, value, n).placeholders;
  }

  /** Reuses the placeholder of a known value, or mints the next one of its kind. */
  method PlaceholderFor(mint: Minting, kind: PIIType, original: string, ghost ledger: seq<Mint>)
    returns (placeholder: string, next: Minting)
    requires Tracks(mint, ledger)
    ensures Tracks(next, Issue(ledger, kind, original))
    ensures placeholder == TokenFor(Issue(ledger, kind, original), original)
  {
    if original in mint.placeholders { return mint.placeholders[original], mint; }
    var tag := Tag(kind);
    var counter := (if tag in mint.counters then mint.counters[tag] else 0) + 1;
    MintStep(mint, ledger, kind, original, counter);
    placeholder := Token(kind, counter);
    next := Minting(mint.counters[tag := counter],
                    mint.placeholders[original := placeholder],
                    mint.entries + [Entry(placeholder, original)]);
  }

  method Redact(text: string, ms: seq<PIIMatch>)
    returns (result: string, entries: seq<Entry>, audit: Audit)
    requires InBounds(text, ms)
    ensures result == Shown(Redacted(text, ms))
    ensures Chain(text, Kept(ms, 0), 0) && InBounds(text, Kept(ms, 0))
    ensures exists cuts :: Spliced(result, text, Kept(ms, 0), 0, TokensOf(text, Kept(ms, 0), Ledger(text, ms)), cuts)
    ensures entries == Entries(Ledger(text, ms))
    ensures audit == AuditOf(Ledger(text, ms))
  {
    if ms == [] {
      NothingDetected(text);
      RedactedSpliced(text, ms);
      return text, [], Audit(map[], 0);
    }
    ghost var final, target := Ledger(text, ms), Shown(Redacted(text, ms));
    var mint := Minting(map[], map[], []);
    result := [];
    var cursor: nat := 0;
    ghost var ledger: seq<Mint> := [];
    RestStart(text, ms);
    for i := 0 to |ms|
      invariant cursor <= |text|
      invariant RestIssued(text, ms, i, cursor, ledger) == final
      invariant Tracks(mint, ledger)
      invariant result + Shown(RestDoc(text, ms, i, cursor, final)) == target
    {
      var m := ms[i];
      if m.start < cursor {
        RestSkip(text, ms, i, cursor, final, ledger);
        continue;
      }
      RestShown(text, ms, i, cursor, final, result);
      RestIssue(text, ms, i, cursor, ledger);
      if m.start > cursor { result := result + text[cursor..m.start]; }
      var original := text[m.start..m.end];
      var placeholder;
      placeholder, mint := PlaceholderFor(mint, m.kind, original, ledger);
      IssueKeeps(ledger, m.kind, original);
      ledger := Issue(ledger, m.kind, original);
      FinalToken(text, ms, i + 1, m.end, ledger, original);
      result := result + placeholder;
      cursor := m.end;
    }
    RestDone(text, ms, cursor, final, ledger);
    if cursor < |text| { result := result + text[cursor..]; }
    entries := mint.entries;
    var counts := CountByTag(entries, ledger);
    audit := Audit(counts, |entries|);
    RedactedSpliced(text, ms);
  }

  const REDACTED := "[REDACTED]"

  method ScrubText(text: string, ms: seq<PIIMatch>) returns (result: string)
    requires InBounds(text, ms)
    ensures result == Masked(Redacted(text, ms), REDACTED)
    ensures Chain(text, Kept(ms, 0), 0)
    ensures exists cuts :: Spliced(result, text, Kept(ms, 0), 0, Masks(|Kept(ms, 0)|, "[REDACTED]"), cuts)
    ensures |result| == |text| - TotalLength(Kept(ms, 0)) + 10 * |Kept(ms, 0)|
  {
    ScrubbedSpliced(text, ms, REDACTED);
    if ms == [] {
      NothingDetected(text);
      return text;
    }
    ghost var final, target := Ledger(text, ms), Masked(Redacted(text, ms), REDACTED);
    RestStart(text, ms);
    result := [];
    var cursor: nat := 0;
    for i := 0 to |ms|
      invariant cursor <= |text|
      invariant result + Masked(RestDoc(text, ms, i, cursor, final), REDACTED) == target
    {
      var m := ms[i];
      if m.start < cursor {
        RestSkip(text, ms, i, cursor, final, final);
        continue;
      }
      RestMasked(text, ms, i, cursor, final, result);
      if m.start > cursor { result := result + text[cursor..m.start]; }
      result := result + REDACTED;
      cursor := m.end;
    }
    RestDone(text, ms, cursor, final, final);
    if cursor < |text| { result := result + text[cursor..]; }
  }

  // ---- The audit ----

  function CountedAll(ledger: seq<Mint>): nat {
    Counted(ledger, Email) + Counted(ledger, Phone) + Counted(ledger, SSN)
    + Counted(ledger, CreditCard) + Counted(ledger, Name) + Counted(ledger, Address)
  }

  lemma {:induction false} CountsAddUp(ledger: seq<Mint>)
    ensures CountedAll(ledger) == |ledger|
  {
    if ledger != [] { CountsAddUp(ledger[..|ledger| - 1]); }
  }

  lemma {:induction false} ValuesDistinct(ledger: seq<Mint>)
    requires WellIssued(ledger)
    ensures |ledger| == |set m | m in ledger :: m.value|
  {
    if ledger != [] {
      var init, m := ledger[..|ledger| - 1], ledger[|ledger| - 1];
      ValuesDistinct(init);
      var vs := set x | x in init :: x.value;
      assert ledger == init + [m];
      assert (set x | x in ledger :: x.value) == vs + {m.value};
    }
  }

  /** The audit counts add up to the number of distinct values replaced. */
  lemma AuditAddsUp(text: string, ms: seq<PIIMatch>)
    requires InBounds(text, ms)
    ensures var l := Ledger(text, ms);
      && CountedAll(l) == AuditOf(l).total == |set m | m in l :: m.value|
      && forall k: PIIType :: Counted(l, k) == if k in AuditOf(l).counts then AuditOf(l).counts[k] else 0
  {
    RedactedFacts(text, ms);
    CountsAddUp(Ledger(text, ms));
    ValuesDistinct(Ledger(text, ms));
  }

  /** The tokens of one kind carry exactly the numbers 1 up to its count. */
  lemma {:induction false} NumberedFromOne(ledger: seq<Mint>, k: PIIType, n: nat)
    requires WellIssued(ledger)
    ensures 1 <= n <= Counted(ledger, k) <==> exists i :: 0 <= i < |ledger| && ledger[i].kind == k && ledger[i].num == n
  {
    if ledger != [] {
      var init, m := ledger[..|ledger| - 1], ledger[|ledger| - 1];
      NumberedFromOne(init, k, n);
      if 1 <= n <= Counted(ledger, k) {
        if n <= Counted(init, k) {
          var i :| 0 <= i < |init| && init[i].kind == k && init[i].num == n;
          assert ledger[i].kind == k && ledger[i].num == n;
        } else {
          assert ledger[|ledger| - 1].kind == k && ledger[|ledger| - 1].num == n;
        }
      }
      if i :| 0 <= i < |ledger| && ledger[i].kind == k && ledger[i].num == n {
        IssuedAt(ledger, i);
      }
    }
  }
}
