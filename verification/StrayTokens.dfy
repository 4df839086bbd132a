/** Which texts redaction cannot restore, told from the text, the replaced regions and the tokens alone. */
module StrayTokens {
  import opened Ordering
  import opened Restoring
  import opened Regions
  import opened Redaction

  predicate OccursAt(text: string, i: nat, p: string) { i + |p| <= |text| && text[i..i + |p|] == p }

  /** The region does not touch the `n` characters from `i` on. */
  predicate Clear(m: PIIMatch, i: nat, n: nat) { m.end <= i || m.start >= i + n }

  function TokenAt(text: string, ledger: seq<Mint>, m: PIIMatch): string
    requires m.start <= m.end <= |text|
  {
    TokenFor(ledger, text[m.start..m.end])
  }

  ghost predicate InTail(order: seq<Entry>, j: nat, token: string) {
    exists k :: j <= k < |order| && order[k].token == token
  }

  /** The text holds the `j`-th token at `i`, clear of every region whose token is replaced then or later. */
  ghost predicate StrayAt(text: string, kept: seq<PIIMatch>, ledger: seq<Mint>, order: seq<Entry>, j: nat, i: nat)
    requires InBounds(text, kept)
  {
    && j < |order| && OccursAt(text, i, order[j].token)
    && forall m :: m in kept && InTail(order, j, TokenAt(text, ledger, m)) ==> Clear(m, i, |order[j].token|)
  }

  // ---- Gaps are the stretches clear of all regions ----

  lemma {:induction false} ChainStarts(text: string, ks: seq<PIIMatch>, c: nat)
    requires Chain(text, ks, c)
    ensures forall m :: m in ks ==> c <= m.start <= m.end <= |text|
    decreases |ks|
  {
    if ks != [] {
      ChainStarts(text, ks[1..], ks[0].end);
      assert ks == [ks[0]] + ks[1..];
    }
  }

  ghost predicate ClearOfAll(ks: seq<PIIMatch>, i: nat, n: nat) { forall m :: m in ks ==> Clear(m, i, n) }

  lemma ContainsOccurs(text: string, a: nat, b: nat, p: string)
    requires a <= b <= |text|
    ensures Contains(text[a..b], p) <==> exists i :: a <= i && i + |p| <= b && OccursAt(text, i, p)
  {
    var s := text[a..b];
    if Contains(s, p) {
      var k :| 0 <= k <= |s| && p <= s[k..];
      assert s[k..][..|p|] == text[a + k..a + k + |p|];
      assert OccursAt(text, a + k, p);
    }
    if i: nat :| a <= i && i + |p| <= b && OccursAt(text, i, p) {
      assert s[i - a..][..|p|] == text[i..i + |p|];
      assert p <= s[i - a..];
    }
  }

  lemma {:induction false} GapStatic(text: string, ks: seq<PIIMatch>, c: nat, ledger: seq<Mint>, p: string)
    requires Chain(text, ks, c) && p != []
    ensures GapContains(DocOf(text, ks, c, ledger), p) <==>
      exists i :: c <= i && OccursAt(text, i, p) && ClearOfAll(ks, i, |p|)
    decreases |ks|
  {
    if ks == [] {
      ContainsOccurs(text, c, |text|, p);
      assert text[c..|text|] == text[c..];
      if i: nat :| c <= i && OccursAt(text, i, p) { assert ClearOfAll(ks, i, |p|); }
    } else {
      var m, rest := ks[0], ks[1..];
      assert ks == [m] + rest;
      ChainStarts(text, rest, m.end);
      ContainsOccurs(text, c, m.start, p);
      GapStatic(text, rest, m.end, ledger, p);
      if i: nat :| c <= i && i + |p| <= m.start && OccursAt(text, i, p) { assert ClearOfAll(ks, i, |p|); }
      if i: nat :| m.end <= i && OccursAt(text, i, p) && ClearOfAll(rest, i, |p|) { assert ClearOfAll(ks, i, |p|); }
      if i: nat :| c <= i && OccursAt(text, i, p) && ClearOfAll(ks, i, |p|) {
        assert m in ks && Clear(m, i, |p|) && ClearOfAll(rest, i, |p|);
      }
    }
  }

  // ---- Resolving a token drops its regions ----

  function Drop(text: string, ks: seq<PIIMatch>, ledger: seq<Mint>, token: string): (r: seq<PIIMatch>)
    requires InBounds(text, ks)
    ensures InBounds(text, r)
    ensures forall m :: m in r <==> m in ks && TokenAt(text, ledger, m) != token
  {
    if ks == [] then []
    else
      assert ks == [ks[0]] + ks[1..];
      (if TokenAt(text, ledger, ks[0]) == token then [] else [ks[0]]) + Drop(text, ks[1..], ledger, token)
  }

  lemma ChainEarlier(text: string, ks: seq<PIIMatch>, c: nat, b: nat)
    requires Chain(text, ks, c) && b <= c
    ensures Chain(text, ks, b)
  {}

  lemma {:induction false} ChainDrop(text: string, ks: seq<PIIMatch>, c: nat, ledger: seq<Mint>, token: string)
    requires InBounds(text, ks) && Chain(text, ks, c)
    ensures Chain(text, Drop(text, ks, ledger, token), c)
    decreases |ks|
  {
    if ks != [] {
      var m, rest := ks[0], Drop(text, ks[1..], ledger, token);
      assert m in ks;
      ChainDrop(text, ks[1..], m.end, ledger, token);
      if TokenAt(text, ledger, m) == token {
        assert [] + rest == rest;
        ChainEarlier(text, rest, m.end, c);
      } else {
        assert ([m] + rest)[1..] == rest;
      }
    }
  }

  lemma PrependDoc(text: string, ks: seq<PIIMatch>, b: nat, c: nat, ledger: seq<Mint>)
    requires Chain(text, ks, c) && b <= c <= |text|
    ensures Chain(text, ks, b) && Prepend(text[b..c], DocOf(text, ks, c, ledger)) == DocOf(text, ks, b, ledger)
  {
    if ks == [] {
      assert text[b..c] + text[c..] == text[b..];
    } else {
      assert text[b..c] + text[c..ks[0].start] == text[b..ks[0].start];
    }
  }

  /** Regions of the token hold its value. */
  ghost predicate Valued(text: string, ks: seq<PIIMatch>, ledger: seq<Mint>, e: Entry)
    requires InBounds(text, ks)
  {
    forall m :: m in ks && TokenAt(text, ledger, m) == e.token ==> text[m.start..m.end] == e.value
  }

  lemma {:induction false} ResolveDrops(text: string, ks: seq<PIIMatch>, c: nat, ledger: seq<Mint>, e: Entry)
    requires InBounds(text, ks) && Chain(text, ks, c) && Valued(text, ks, ledger, e) && e.token != []
    requires !GapContains(DocOf(text, ks, c, ledger), e.token)
    ensures Chain(text, Drop(text, ks, ledger, e.token), c)
    ensures Resolve(DocOf(text, ks, c, ledger), e) == DocOf(text, Drop(text, ks, ledger, e.token), c, ledger)
    decreases |ks|
  {
    ChainDrop(text, ks, c, ledger, e.token);
    if ks == [] {
      ReplaceAbsent(text[c..], e.token, e.value);
    } else {
      assert ks[0] in ks;
      ReplaceAbsent(text[c..ks[0].start], e.token, e.value);
      ResolveDrops(text, ks[1..], ks[0].end, ledger, e);
      var rest := Drop(text, ks[1..], ledger, e.token);
      if TokenAt(text, ledger, ks[0]) == e.token {
        DropRegion(text, ks[0], rest, c, ledger);
        assert [] + rest == rest;
      } else {
        assert ([ks[0]] + rest)[1..] == rest;
      }
    }
  }

  lemma DropRegion(text: string, m: PIIMatch, rest: seq<PIIMatch>, c: nat, ledger: seq<Mint>)
    requires c <= m.start <= m.end <= |text| && Chain(text, rest, m.end)
    ensures Chain(text, rest, c)
    ensures Prepend(text[c..m.start] + text[m.start..m.end], DocOf(text, rest, m.end, ledger)) ==
      DocOf(text, rest, c, ledger)
  {
    assert text[c..m.start] + text[m.start..m.end] == text[c..m.end];
    PrependDoc(text, rest, c, m.end, ledger);
  }

  // ---- Cleanness without replaying ----

  ghost predicate Known(text: string, ks: seq<PIIMatch>, ledger: seq<Mint>, order: seq<Entry>)
    requires InBounds(text, ks)
  {
    && (forall m :: m in ks ==> InTail(order, 0, TokenAt(text, ledger, m)))
    && (forall e :: e in order ==> Valued(text, ks, ledger, e))
  }

  lemma StrayNow(text: string, ks: seq<PIIMatch>, ledger: seq<Mint>, order: seq<Entry>)
    requires InBounds(text, ks) && Chain(text, ks, 0) && order != [] && order[0].token != []
      && Known(text, ks, ledger, order)
    ensures GapContains(DocOf(text, ks, 0, ledger), order[0].token) <==>
      exists i :: StrayAt(text, ks, ledger, order, 0, i)
  {
    var p := order[0].token;
    GapStatic(text, ks, 0, ledger, p);
    if i: nat :| 0 <= i && OccursAt(text, i, p) && ClearOfAll(ks, i, |p|) {
      assert StrayAt(text, ks, ledger, order, 0, i);
    }
    if i: nat :| StrayAt(text, ks, ledger, order, 0, i) { assert ClearOfAll(ks, i, |p|); }
  }

  lemma TailShift(order: seq<Entry>, j: nat, token: string)
    requires order != []
    ensures InTail(order, j + 1, token) <==> InTail(order[1..], j, token)
  {
    if k :| j + 1 <= k < |order| && order[k].token == token { assert order[1..][k - 1].token == token; }
    if k :| j <= k < |order[1..]| && order[1..][k].token == token { assert order[k + 1].token == token; }
  }

  lemma StrayLater(text: string, ks: seq<PIIMatch>, ledger: seq<Mint>, order: seq<Entry>, j: nat, i: nat)
    requires InBounds(text, ks) && order != [] && Keyed(order)
    ensures StrayAt(text, ks, ledger, order, j + 1, i) <==>
      StrayAt(text, Drop(text, ks, ledger, order[0].token), ledger, order[1..], j, i)
  {
    forall m | m in ks
      ensures InTail(order, j + 1, TokenAt(text, ledger, m)) <==>
        m in Drop(text, ks, ledger, order[0].token) && InTail(order[1..], j, TokenAt(text, ledger, m))
    {
      TailShift(order, j, TokenAt(text, ledger, m));
    }
  }

  ghost predicate Strays(text: string, ks: seq<PIIMatch>, ledger: seq<Mint>, order: seq<Entry>)
    requires InBounds(text, ks)
  {
    exists j, i :: StrayAt(text, ks, ledger, order, j, i)
  }

  lemma StraySplit(text: string, ks: seq<PIIMatch>, ledger: seq<Mint>, order: seq<Entry>)
    requires InBounds(text, ks) && order != [] && Keyed(order)
    ensures Strays(text, ks, ledger, order) <==>
      (exists i :: StrayAt(text, ks, ledger, order, 0, i))
      || Strays(text, Drop(text, ks, ledger, order[0].token), ledger, order[1..])
  {
    var ks' := Drop(text, ks, ledger, order[0].token);
    if j: nat, i: nat :| StrayAt(text, ks, ledger, order, j, i) {
      if j > 0 {
        StrayLater(text, ks, ledger, order, j - 1, i);
        assert StrayAt(text, ks', ledger, order[1..], j - 1, i);
      }
    }
    if j: nat, i: nat :| StrayAt(text, ks', ledger, order[1..], j, i) {
      StrayLater(text, ks, ledger, order, j, i);
      assert StrayAt(text, ks, ledger, order, j + 1, i);
    }
  }

  /** The document is clean exactly when the text holds no stray token. */
  lemma {:induction false} CleanStatic(text: string, ks: seq<PIIMatch>, ledger: seq<Mint>, order: seq<Entry>)
    requires InBounds(text, ks) && Chain(text, ks, 0) && Keyed(order) && Known(text, ks, ledger, order)
    ensures Clean(DocOf(text, ks, 0, ledger), order) <==> !Strays(text, ks, ledger, order)
    decreases |order|
  {
    if order != [] {
      StrayNow(text, ks, ledger, order);
      StraySplit(text, ks, ledger, order);
      KnownTail(text, ks, ledger, order);
      KeyedTail(order);
      ChainDrop(text, ks, 0, ledger, order[0].token);
      assert order[0] in order;
      CleanStatic(text, Drop(text, ks, ledger, order[0].token), ledger, order[1..]);
      if !GapContains(DocOf(text, ks, 0, ledger), order[0].token) { ResolveDrops(text, ks, 0, ledger, order[0]); }
    }
  }

  lemma KnownTail(text: string, ks: seq<PIIMatch>, ledger: seq<Mint>, order: seq<Entry>)
    requires InBounds(text, ks) && order != [] && Known(text, ks, ledger, order)
    ensures Known(text, Drop(text, ks, ledger, order[0].token), ledger, order[1..])
  {
    var ks' := Drop(text, ks, ledger, order[0].token);
    forall m | m in ks' ensures InTail(order[1..], 0, TokenAt(text, ledger, m)) {
      TailShift(order, 0, TokenAt(text, ledger, m));
      assert InTail(order, 0, TokenAt(text, ledger, m));
    }
    forall e | e in order[1..] ensures Valued(text, ks', ledger, e) { assert e in order; }
  }

  // ---- The round trip ----

  /** The entries in the order the restoring pass applies them. */
  function RestoreOrder(text: string, ms: seq<PIIMatch>): seq<Entry>
    requires InBounds(text, ms)
  {
    SortBy(Entries(Ledger(text, ms)), LongerFirst)
  }

  lemma OrderKnown(text: string, ms: seq<PIIMatch>)
    requires InBounds(text, ms)
    ensures InBounds(text, Kept(ms, 0)) && Chain(text, Kept(ms, 0), 0) && Keyed(RestoreOrder(text, ms))
    ensures Known(text, Kept(ms, 0), Ledger(text, ms), RestoreOrder(text, ms))
  {
    KeptChain(text, ms, 0);
    RedactedFacts(text, ms);
    var ks, ledger, es, order := Kept(ms, 0), Ledger(text, ms), Entries(Ledger(text, ms)), RestoreOrder(text, ms);
    IssueAllKeeps([], text, ks);
    SortSorts(es, LongerFirst);
    PermutationKeeps(es, order, Redacted(text, ms));
    forall m | m in ks ensures InTail(order, 0, TokenAt(text, ledger, m)) {
      var e := EntryOf(text, ledger, m);
      assert e in order;
    }
    forall e | e in order ensures Valued(text, ks, ledger, e) {
      forall m | m in ks && TokenAt(text, ledger, m) == e.token ensures text[m.start..m.end] == e.value {
        var d := EntryOf(text, ledger, m);
        SameEntry(es, d, e);
      }
    }
  }

  lemma EntryOf(text: string, ledger: seq<Mint>, m: PIIMatch) returns (e: Entry)
    requires m.start <= m.end <= |text| && Lookup(ledger, text[m.start..m.end]).Some?
    ensures e in Entries(ledger) && e.token == TokenAt(text, ledger, m) && e.value == text[m.start..m.end]
  {
    var x := Lookup(ledger, text[m.start..m.end]).value;
    var i :| 0 <= i < |ledger| && ledger[i] == x;
    e := Entries(ledger)[i];
  }

  /** Whatever the values hold: without such tokens the round trip is exact. */
  lemma RestoreWithoutStrays(text: string, ms: seq<PIIMatch>)
    requires InBounds(text, ms)
    ensures InBounds(text, Kept(ms, 0)) && Keyed(Entries(Ledger(text, ms)))
    ensures !Strays(text, Kept(ms, 0), Ledger(text, ms), RestoreOrder(text, ms)) ==>
      Restored(Entries(Ledger(text, ms)), Shown(Redacted(text, ms))) == text
  {
    OrderKnown(text, ms);
    RedactedFacts(text, ms);
    var es, order, d := Entries(Ledger(text, ms)), RestoreOrder(text, ms), Redacted(text, ms);
    SortSorts(es, LongerFirst);
    PermutationKeeps(es, order, d);
    CleanStatic(text, Kept(ms, 0), Ledger(text, ms), order);
    if Clean(d, order) { CleanRestores(d, order); }
  }

  /**
   * For values without `[`, the round trip is exact if and only if the text holds no token outside the regions
   * whose tokens are replaced at the same time or later.
   */
  lemma RestoreExact(text: string, ms: seq<PIIMatch>)
    requires InBounds(text, ms) && PlainValues(Entries(Ledger(text, ms)))
    ensures InBounds(text, Kept(ms, 0)) && Keyed(Entries(Ledger(text, ms)))
    ensures Restored(Entries(Ledger(text, ms)), Shown(Redacted(text, ms))) == text
       <==> !Strays(text, Kept(ms, 0), Ledger(text, ms), RestoreOrder(text, ms))
  {
    OrderKnown(text, ms);
    RestoreWithoutStrays(text, ms);
    RestoreIffClean(text, ms);
    CleanStatic(text, Kept(ms, 0), Ledger(text, ms), RestoreOrder(text, ms));
  }
}
