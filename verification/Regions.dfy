/** Detected spans, which of them are replaced, and what a text looks like with the regions replaced. */
module Regions {
  import opened Tokens

  datatype PIIMatch = PIIMatch(kind: PIIType, start: nat, end: nat)

  ghost predicate InBounds(text: string, ms: seq<PIIMatch>) {
    forall m :: m in ms ==> m.start <= m.end <= |text|
  }

  // ---- Which spans are replaced ----

  /** The spans the left-to-right pass replaces: those not starting before the cursor. */
  function Kept(ms: seq<PIIMatch>, cursor: nat): seq<PIIMatch> {
    if ms == [] then []
    else if ms[0].start < cursor then Kept(ms[1..], cursor)
    else [ms[0]] + Kept(ms[1..], ms[0].end)
  }

  /** Disjoint spans of the text in order, none starting before the cursor. */
  ghost predicate Chain(text: string, ms: seq<PIIMatch>, cursor: nat) {
    if ms == [] then cursor <= |text|
    else cursor <= ms[0].start <= ms[0].end <= |text| && Chain(text, ms[1..], ms[0].end)
  }

  /** The replaced regions are disjoint and ordered, and come from the detected spans. */
  lemma {:induction false} KeptChain(text: string, ms: seq<PIIMatch>, cursor: nat)
    requires InBounds(text, ms) && cursor <= |text|
    ensures Chain(text, Kept(ms, cursor), cursor)
    ensures forall m :: m in Kept(ms, cursor) ==> m in ms
  {
    if ms != [] {
      assert ms[0] in ms && InBounds(text, ms[1..]);
      KeptChain(text, ms[1..], if ms[0].start < cursor then cursor else ms[0].end);
    }
  }

  ghost predicate SortedByStart(ms: seq<PIIMatch>) {
    forall i, j :: 0 <= i < j < |ms| ==> ms[i].start <= ms[j].start
  }

  ghost predicate StartsIn(m: PIIMatch, regions: seq<PIIMatch>) {
    exists k :: k in regions && k.start <= m.start < k.end
  }

  /** Every non-empty span starts inside a replaced region, or behind the cursor. */
  lemma {:induction false} KeptCovers(ms: seq<PIIMatch>, cursor: nat, m: PIIMatch)
    requires SortedByStart(ms) && m in ms && m.start < m.end
    ensures m.start < cursor || StartsIn(m, Kept(ms, cursor))
  {
    var kept := Kept(ms, cursor);
    if ms[0].start < cursor {
      if m != ms[0] { KeptCovers(ms[1..], cursor, m); }
    } else {
      assert ms[0] in kept;
      if m != ms[0] {
        var i :| 0 < i < |ms| && ms[i] == m;
        assert ms[1..][i - 1] == m;
        KeptCovers(ms[1..], ms[0].end, m);
        if m.start >= ms[0].end {
          var k :| k in Kept(ms[1..], ms[0].end) && k.start <= m.start < k.end;
          assert k in kept;
        }
      }
    }
  }

  /** The indices of the replaced spans: exactly those no earlier replaced span reaches into. */
  ghost predicate Greedy(ms: seq<PIIMatch>, cursor: nat, kept: seq<PIIMatch>, picks: seq<nat>) {
    && |picks| == |kept|
    && (forall k :: 0 <= k < |picks| ==> picks[k] < |ms| && ms[picks[k]] == kept[k])
    && (forall k, l :: 0 <= k < l < |picks| ==> picks[k] < picks[l])
    && (forall i :: 0 <= i < |ms| ==> (i in picks <==> Reachable(ms, cursor, picks, i)))
  }

  ghost predicate Reachable(ms: seq<PIIMatch>, cursor: nat, picks: seq<nat>, i: int)
    requires 0 <= i < |ms| && forall k :: 0 <= k < |picks| ==> picks[k] < |ms|
  {
    cursor <= ms[i].start && forall k :: 0 <= k < |picks| && picks[k] < i ==> ms[picks[k]].end <= ms[i].start
  }

  function Later(picks: seq<nat>): (r: seq<nat>)
    ensures |r| == |picks| && forall k :: 0 <= k < |picks| ==> r[k] == picks[k] + 1
  {
    seq(|picks|, k requires 0 <= k < |picks| => picks[k] + 1)
  }

  /** A span is replaced exactly when it starts behind every replaced span before it. */
  lemma {:induction false} KeptGreedily(ms: seq<PIIMatch>, cursor: nat) returns (picks: seq<nat>)
    requires forall m :: m in ms ==> m.start <= m.end
    ensures Greedy(ms, cursor, Kept(ms, cursor), picks)
  {
    if ms == [] {
      picks := [];
    } else {
      var m, tail := ms[0], ms[1..];
      assert m in ms && ms == [m] + tail;
      if m.start < cursor {
        var rest := KeptGreedily(tail, cursor);
        picks := Later(rest);
        PicksAfterSkip(ms, cursor, rest);
      } else {
        var rest := KeptGreedily(tail, m.end);
        picks := [0] + Later(rest);
        PicksAfterFirst(ms, cursor, rest);
      }
    }
  }

  lemma LaterHas(picks: seq<nat>, i: int)
    ensures i in Later(picks) <==> i - 1 in picks
  {
    if i - 1 in picks {
      var k :| 0 <= k < |picks| && picks[k] == i - 1;
      assert Later(picks)[k] == i;
    }
  }

  lemma PicksAfterSkip(ms: seq<PIIMatch>, cursor: nat, rest: seq<nat>)
    requires ms != [] && ms[0].start < cursor && Greedy(ms[1..], cursor, Kept(ms[1..], cursor), rest)
    ensures Greedy(ms, cursor, Kept(ms, cursor), Later(rest))
  {
    var picks := Later(rest);
    forall i | 0 <= i < |ms| ensures i in picks <==> Reachable(ms, cursor, picks, i) {
      LaterHas(rest, i);
      if i > 0 {
        assert i - 1 in rest <==> Reachable(ms[1..], cursor, rest, i - 1);
        forall k | 0 <= k < |rest| ensures ms[picks[k]] == ms[1..][rest[k]] {}
      }
    }
  }

  lemma PicksAfterFirst(ms: seq<PIIMatch>, cursor: nat, rest: seq<nat>)
    requires ms != [] && cursor <= ms[0].start <= ms[0].end
    requires Greedy(ms[1..], ms[0].end, Kept(ms[1..], ms[0].end), rest)
    ensures Greedy(ms, cursor, Kept(ms, cursor), [0] + Later(rest))
  {
    FirstThenLater(ms, ms[0], rest, Kept(ms[1..], ms[0].end));
    FirstReaches(ms, cursor, rest);
  }

  lemma FirstThenLater(ms: seq<PIIMatch>, m: PIIMatch, rest: seq<nat>, kept: seq<PIIMatch>)
    requires ms != [] && m == ms[0] && |rest| == |kept|
    requires forall k :: 0 <= k < |rest| ==> rest[k] < |ms[1..]| && ms[1..][rest[k]] == kept[k]
    requires forall k, l :: 0 <= k < l < |rest| ==> rest[k] < rest[l]
    ensures var picks := [0] + Later(rest);
      && (forall k :: 0 <= k < |picks| ==> picks[k] < |ms| && ms[picks[k]] == ([m] + kept)[k])
      && (forall k, l :: 0 <= k < l < |picks| ==> picks[k] < picks[l])
  {
    var picks := [0] + Later(rest);
    forall k | 0 <= k < |picks| ensures picks[k] < |ms| && ms[picks[k]] == ([m] + kept)[k] {
      if k > 0 { assert picks[k] == rest[k - 1] + 1 && ms[1..][rest[k - 1]] == kept[k - 1]; }
    }
  }

  lemma FirstReaches(ms: seq<PIIMatch>, cursor: nat, rest: seq<nat>)
    requires ms != [] && cursor <= ms[0].start <= ms[0].end
    requires forall k :: 0 <= k < |rest| ==> rest[k] < |ms[1..]|
    requires forall i :: 0 <= i < |ms[1..]| ==> (i in rest <==> Reachable(ms[1..], ms[0].end, rest, i))
    requires forall k :: 0 <= k < |[0] + Later(rest)| ==> ([0] + Later(rest))[k] < |ms|
    ensures var picks := [0] + Later(rest);
      forall i :: 0 <= i < |ms| ==> (i in picks <==> Reachable(ms, cursor, picks, i))
  {
    var picks := [0] + Later(rest);
    forall i | 0 <= i < |ms| ensures i in picks <==> Reachable(ms, cursor, picks, i) {
      LaterHas(rest, i);
      if i > 0 { ReachablePast(ms, cursor, rest, picks, i); }
    }
  }

  lemma ReachablePast(ms: seq<PIIMatch>, cursor: nat, rest: seq<nat>, picks: seq<nat>, i: nat)
    requires ms != [] && cursor <= ms[0].start <= ms[0].end && 0 < i < |ms|
    requires forall k :: 0 <= k < |rest| ==> rest[k] < |ms| - 1
    requires |picks| == |rest| + 1 && picks[0] == 0 && forall k :: 0 < k < |picks| ==> picks[k] == rest[k - 1] + 1
    ensures Reachable(ms, cursor, picks, i) <==> Reachable(ms[1..], ms[0].end, rest, i - 1)
  {
    if Reachable(ms, cursor, picks, i) {
      forall k | 0 <= k < |rest| && rest[k] < i - 1 ensures ms[1..][rest[k]].end <= ms[1..][i - 1].start {
        assert picks[k + 1] < i;
      }
    }
    if Reachable(ms[1..], ms[0].end, rest, i - 1) {
      forall k | 0 <= k < |picks| && picks[k] < i ensures ms[picks[k]].end <= ms[i].start {
        if k > 0 { assert rest[k - 1] < i - 1; }
      }
    }
  }

  // ---- The text with the regions replaced ----

  /** The text between two regions, the first from `cursor`, the last to the end. */
  function Gap(text: string, kept: seq<PIIMatch>, cursor: nat, i: nat): string
    requires i <= |kept| && Chain(text, kept, cursor)
  {
    ChainIndexed(text, kept, cursor);
    text[(if i == 0 then cursor else kept[i - 1].end)..(if i == |kept| then |text| else kept[i].start)]
  }

  lemma {:induction false} ChainIndexed(text: string, kept: seq<PIIMatch>, cursor: nat)
    requires Chain(text, kept, cursor)
    ensures cursor <= |text| && forall i :: 0 <= i < |kept| ==>
      (if i == 0 then cursor else kept[i - 1].end) <= kept[i].start <= kept[i].end <= |text|
    decreases |kept|
  {
    if kept != [] {
      ChainIndexed(text, kept[1..], kept[0].end);
      forall i | 0 < i < |kept| ensures kept[i - 1].end <= kept[i].start <= kept[i].end <= |text| {
        assert kept[1..][i - 1] == kept[i];
        assert i > 1 ==> kept[1..][i - 2] == kept[i - 1];
      }
    }
  }

  /**
   * `result` is the first gap, the first substitute, the second gap, the second substitute and so on, up to the
   * last gap; gap `i` begins at `cuts[i]`.
   */
  ghost predicate Spliced(
      result: string, text: string, kept: seq<PIIMatch>, cursor: nat, subs: seq<string>, cuts: seq<nat>)
    requires Chain(text, kept, cursor)
  {
    && |subs| == |kept| && |cuts| == |kept| + 1 && cuts[0] == 0
    && (forall i :: 0 <= i <= |kept| ==> HasGap(result, cuts[i], Gap(text, kept, cursor, i)))
    && (forall i :: 0 <= i < |kept| ==> HasSub(result, cuts[i] + |Gap(text, kept, cursor, i)|, subs[i], cuts[i + 1]))
    && cuts[|kept|] + |Gap(text, kept, cursor, |kept|)| == |result|
  }

  predicate HasGap(result: string, at: nat, gap: string) { at + |gap| <= |result| && result[at..at + |gap|] == gap }

  predicate HasSub(result: string, at: nat, sub: string, next: nat) {
    at + |sub| == next <= |result| && result[at..next] == sub
  }

  function Shifted(cuts: seq<nat>, n: nat): (r: seq<nat>)
    ensures |r| == |cuts| && forall k :: 0 <= k < |cuts| ==> r[k] == cuts[k] + n
  {
    seq(|cuts|, k requires 0 <= k < |cuts| => cuts[k] + n)
  }

  lemma SplicedNone(text: string, cursor: nat)
    requires cursor <= |text|
    ensures Spliced(text[cursor..], text, [], cursor, [], [0])
  {}

  /** One gap and one substitute in front. */
  lemma SplicedMore(
      text: string, kept: seq<PIIMatch>, cursor: nat, sub: string, rest: string, subs: seq<string>, cuts: seq<nat>,
      subs': seq<string>, cuts': seq<nat>)
    requires kept != [] && Chain(text, kept, cursor) && Spliced(rest, text, kept[1..], kept[0].end, subs, cuts)
    requires subs' == [sub] + subs && cuts' == [0] + Shifted(cuts, kept[0].start - cursor + |sub|)
    ensures Spliced(text[cursor..kept[0].start] + sub + rest, text, kept, cursor, subs', cuts')
  {
    var gap := text[cursor..kept[0].start];
    var head := gap + sub;
    var result := head + rest;
    HeadOf(gap, sub, rest);
    assert Gap(text, kept, cursor, 0) == gap;
    GapsMore(text, kept, cursor, head, rest, subs, cuts, cuts');
    SubsMore(text, kept, cursor, head, rest, subs, cuts, subs', cuts');
    assert cuts'[1] == |head| && subs'[0] == sub;
    GapLater(text, kept, cursor, |kept|);
  }

  lemma GapsMore(
      text: string, kept: seq<PIIMatch>, cursor: nat, head: string, rest: string, subs: seq<string>, cuts: seq<nat>,
      cuts': seq<nat>)
    requires kept != [] && Chain(text, kept, cursor) && Spliced(rest, text, kept[1..], kept[0].end, subs, cuts)
    requires |cuts'| == |kept| + 1 && forall i :: 0 < i <= |kept| ==> cuts'[i] == cuts[i - 1] + |head|
    ensures forall i :: 0 < i <= |kept| ==> HasGap(head + rest, cuts'[i], Gap(text, kept, cursor, i))
  {
    forall i | 0 < i <= |kept| ensures HasGap(head + rest, cuts'[i], Gap(text, kept, cursor, i)) {
      GapMore(text, kept, cursor, head, rest, subs, cuts, i);
    }
  }

  lemma SubsMore(
      text: string, kept: seq<PIIMatch>, cursor: nat, head: string, rest: string, subs: seq<string>, cuts: seq<nat>,
      subs': seq<string>, cuts': seq<nat>)
    requires kept != [] && Chain(text, kept, cursor) && Spliced(rest, text, kept[1..], kept[0].end, subs, cuts)
    requires |subs'| == |kept| && |cuts'| == |kept| + 1
    requires forall i :: 0 < i <= |kept| ==> cuts'[i] == cuts[i - 1] + |head|
    requires forall i :: 0 < i < |kept| ==> subs'[i] == subs[i - 1]
    ensures forall i :: 0 < i < |kept| ==>
      HasSub(head + rest, cuts'[i] + |Gap(text, kept, cursor, i)|, subs'[i], cuts'[i + 1])
  {
    forall i | 0 < i < |kept|
      ensures HasSub(head + rest, cuts'[i] + |Gap(text, kept, cursor, i)|, subs'[i], cuts'[i + 1])
    {
      SubMore(text, kept, cursor, head, rest, subs, cuts, i);
    }
  }

  lemma HeadOf(gap: string, sub: string, rest: string)
    ensures HasGap(gap + sub + rest, 0, gap) && HasSub(gap + sub + rest, |gap|, sub, |gap + sub|)
  {}

  lemma GapMore(
      text: string, kept: seq<PIIMatch>, cursor: nat, head: string, rest: string, subs: seq<string>, cuts: seq<nat>,
      i: nat)
    requires kept != [] && Chain(text, kept, cursor) && Spliced(rest, text, kept[1..], kept[0].end, subs, cuts)
    requires 0 < i <= |kept|
    ensures HasGap(head + rest, cuts[i - 1] + |head|, Gap(text, kept, cursor, i))
  {
    GapLater(text, kept, cursor, i);
    assert HasGap(rest, cuts[i - 1], Gap(text, kept[1..], kept[0].end, i - 1));
    InTail(head, rest, cuts[i - 1], Gap(text, kept, cursor, i));
  }

  lemma SubMore(
      text: string, kept: seq<PIIMatch>, cursor: nat, head: string, rest: string, subs: seq<string>, cuts: seq<nat>,
      i: nat)
    requires kept != [] && Chain(text, kept, cursor) && Spliced(rest, text, kept[1..], kept[0].end, subs, cuts)
    requires 0 < i < |kept|
    ensures HasSub(head + rest, cuts[i - 1] + |head| + |Gap(text, kept, cursor, i)|, subs[i - 1], cuts[i] + |head|)
  {
    var at := cuts[i - 1] + |Gap(text, kept[1..], kept[0].end, i - 1)|;
    GapLater(text, kept, cursor, i);
    assert HasSub(rest, at, subs[i - 1], cuts[i - 1 + 1]);
    InTail(head, rest, at, subs[i - 1]);
  }

  lemma InTail(head: string, rest: string, at: nat, part: string)
    requires HasGap(rest, at, part)
    ensures HasGap(head + rest, at + |head|, part)
  {
    assert (head + rest)[at + |head|..at + |head| + |part|] == rest[at..at + |part|];
  }

  lemma GapLater(text: string, kept: seq<PIIMatch>, cursor: nat, i: nat)
    requires kept != [] && Chain(text, kept, cursor) && 0 < i <= |kept|
    ensures Gap(text, kept, cursor, i) == Gap(text, kept[1..], kept[0].end, i - 1)
  {
    ChainIndexed(text, kept, cursor);
    assert i > 1 ==> kept[1..][i - 2] == kept[i - 1];
    assert i < |kept| ==> kept[1..][i - 1] == kept[i];
  }

  // ---- Lengths ----

  function TotalLength(kept: seq<PIIMatch>): int {
    if kept == [] then 0 else kept[0].end - kept[0].start + TotalLength(kept[1..])
  }

  /** Equal substitutes: the length is that of the text, less the regions, plus the substitutes. */
  lemma {:induction false} SplicedLength(
      result: string, text: string, kept: seq<PIIMatch>, cursor: nat, sub: string, subs: seq<string>, cuts: seq<nat>)
    requires Chain(text, kept, cursor) && Spliced(result, text, kept, cursor, subs, cuts)
    requires forall i :: 0 <= i < |subs| ==> subs[i] == sub
    ensures |result| == |text| - cursor - TotalLength(kept) + |kept| * |sub|
  {
    var n := |kept|;
    ChainIndexed(text, kept, cursor);
    CutAt(result, text, kept, cursor, sub, subs, cuts, n);
    assert kept[..n] == kept;
  }

  lemma {:induction false} CutAt(
      result: string, text: string, kept: seq<PIIMatch>, cursor: nat, sub: string, subs: seq<string>, cuts: seq<nat>,
      i: nat)
    requires Chain(text, kept, cursor) && Spliced(result, text, kept, cursor, subs, cuts) && i <= |kept|
    requires forall i :: 0 <= i < |subs| ==> subs[i] == sub
    ensures cuts[i] == (if i == 0 then 0 else kept[i - 1].end - cursor) - TotalLength(kept[..i]) + i * |sub|
  {
    if i > 0 {
      var k := i - 1;
      CutAt(result, text, kept, cursor, sub, subs, cuts, k);
      CutAfter(result, text, kept, cursor, subs, cuts, k);
      LengthSnoc(kept[..k], kept[k]);
      assert kept[..i] == kept[..k] + [kept[k]];
      OneTimesMore(k, |sub|);
    } else {
      assert kept[..0] == [];
    }
  }

  lemma CutAfter(
      result: string, text: string, kept: seq<PIIMatch>, cursor: nat, subs: seq<string>, cuts: seq<nat>, k: nat)
    requires Chain(text, kept, cursor) && Spliced(result, text, kept, cursor, subs, cuts) && k < |kept|
    ensures cuts[k + 1] == cuts[k] + kept[k].start - (if k == 0 then cursor else kept[k - 1].end) + |subs[k]|
  {
    ChainIndexed(text, kept, cursor);
    assert HasSub(result, cuts[k] + |Gap(text, kept, cursor, k)|, subs[k], cuts[k + 1]);
  }

  lemma OneTimesMore(k: nat, n: nat)
    ensures (k + 1) * n == k * n + n
  {}

  lemma {:induction false} LengthSnoc(kept: seq<PIIMatch>, m: PIIMatch)
    ensures TotalLength(kept + [m]) == TotalLength(kept) + m.end - m.start
  {
    if kept != [] {
      assert (kept + [m])[1..] == kept[1..] + [m];
      LengthSnoc(kept[1..], m);
    } else {
      assert [m][1..] == [];
    }
  }
}
