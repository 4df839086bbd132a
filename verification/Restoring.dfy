/** Literal search-and-replace, and what it does to text made of tokens and gaps. */
module Restoring {
  import opened Tokens

  /** Leftmost, non-overlapping replacement of every `p`. */
  function Replace(s: string, p: string, o: string): string
    requires p != []
  {
    if s == [] then []
    else if p <= s then o + Replace(s[|p|..], p, o)
    else [s[0]] + Replace(s[1..], p, o)
  }

  // ---- What a replacement leaves ----

  function Glued(parts: seq<string>, sep: string): string {
    if parts == [] then "" else if |parts| == 1 then parts[0] else parts[0] + sep + Glued(parts[1..], sep)
  }

  /** The stretches between the occurrences of `p`. */
  function Between(s: string, p: string): (parts: seq<string>)
    requires p != []
    ensures parts != []
  {
    if s == [] then [""]
    else if p <= s then [""] + Between(s[|p|..], p)
    else
      var rest := Between(s[1..], p);
      [[s[0]] + rest[0]] + rest[1..]
  }

  /** `p` starts nowhere in the stretch, be it completed by what follows. */
  ghost predicate NoneStarts(part: string, follow: string, p: string) {
    forall i :: 0 <= i < |part| ==> !(p <= (part + follow)[i..])
  }

  lemma GluedFront(c: char, parts: seq<string>, sep: string)
    requires parts != []
    ensures Glued([[c] + parts[0]] + parts[1..], sep) == [c] + Glued(parts, sep)
  {
    var front := [[c] + parts[0]] + parts[1..];
    assert front[1..] == parts[1..];
    if |parts| > 1 {
      assert [c] + parts[0] + sep + Glued(parts[1..], sep) == [c] + (parts[0] + sep + Glued(parts[1..], sep));
    }
  }

  lemma GluedNew(parts: seq<string>, sep: string)
    requires parts != []
    ensures Glued([""] + parts, sep) == sep + Glued(parts, sep)
  {
    assert ([""] + parts)[1..] == parts;
  }

  /** Replacing exchanges the separators of the stretches between the leftmost occurrences, and nothing else. */
  lemma {:induction false} ReplaceBetween(s: string, p: string, o: string)
    requires p != []
    ensures Glued(Between(s, p), p) == s && Glued(Between(s, p), o) == Replace(s, p, o)
    ensures var parts := Between(s, p); forall k :: 0 <= k < |parts| ==>
      NoneStarts(parts[k], if k == |parts| - 1 then "" else p, p)
    decreases |s|
  {
    if s != [] {
      if p <= s {
        ReplaceBetween(s[|p|..], p, o);
        GluedNew(Between(s[|p|..], p), p);
        GluedNew(Between(s[|p|..], p), o);
        assert s == p + s[|p|..];
      } else {
        var rest := Between(s[1..], p);
        ReplaceBetween(s[1..], p, o);
        GluedFront(s[0], rest, p);
        GluedFront(s[0], rest, o);
        FirstStretch(s, rest, p);
      }
    }
  }

  lemma FirstStretch(s: string, rest: seq<string>, p: string)
    requires p != [] && s != [] && !(p <= s) && rest != [] && Glued(rest, p) == s[1..]
    requires NoneStarts(rest[0], if |rest| == 1 then "" else p, p)
    ensures NoneStarts([s[0]] + rest[0], if |rest| == 1 then "" else p, p)
  {
    var follow := if |rest| == 1 then "" else p;
    var part := [s[0]] + rest[0];
    assert part + follow <= s;
    forall i | 0 <= i < |part| ensures !(p <= (part + follow)[i..]) {
      if i == 0 {
        assert (part + follow)[0..] == part + follow;
      } else {
        assert (part + follow)[i..] == (rest[0] + follow)[i - 1..];
      }
    }
  }

  predicate Contains(s: string, p: string) {
    exists i :: 0 <= i <= |s| && p <= s[i..]
  }

  /** A redacted text: gaps left in place, each followed by a token for a hidden value. */
  datatype Doc =
    | End(tail: string)
    | Cut(gap: string, token: string, value: string, rest: Doc)

  /** The text with the tokens showing. */
  function Shown(d: Doc): string {
    match d
    case End(t) => t
    case Cut(g, p, _, r) => g + p + Shown(r)
  }

  /** The text with the values in place. */
  function Full(d: Doc): string {
    match d
    case End(t) => t
    case Cut(g, _, o, r) => g + o + Full(r)
  }

  /** The text with one fixed mask in place of every token. */
  function Masked(d: Doc, mask: string): string {
    match d
    case End(t) => t
    case Cut(g, _, _, r) => g + mask + Masked(r, mask)
  }

  ghost predicate GapContains(d: Doc, p: string) {
    match d
    case End(t) => Contains(t, p)
    case Cut(g, _, _, r) => Contains(g, p) || GapContains(r, p)
  }

  datatype Entry = Entry(token: string, value: string)

  /** Every token of the text has its entry, and every token is bracketed. */
  ghost predicate Covered(d: Doc, entries: seq<Entry>) {
    match d
    case End(_) => true
    case Cut(_, p, o, r) => Bracketed(p) && Entry(p, o) in entries && Covered(r, entries)
  }

  /** Entries with bracketed tokens, one entry per token. */
  ghost predicate Keyed(entries: seq<Entry>) {
    && (forall e :: e in entries ==> Bracketed(e.token))
    && (forall i, j :: 0 <= i < |entries| && 0 <= j < |entries| && entries[i].token == entries[j].token ==> i == j)
  }

  function Prepend(s: string, d: Doc): Doc {
    match d
    case End(t) => End(s + t)
    case Cut(g, p, o, r) => Cut(s + g, p, o, r)
  }

  /** The tokens of `e` replaced by its value; gaps that also hold the token's text change too. */
  function Resolve(d: Doc, e: Entry): Doc
    requires e.token != []
  {
    match d
    case End(t) => End(Replace(t, e.token, e.value))
    case Cut(g, p, o, r) =>
      var g' := Replace(g, e.token, e.value);
      if p == e.token then Prepend(g' + e.value, Resolve(r, e)) else Cut(g', p, o, Resolve(r, e))
  }

  lemma PrependShows(s: string, d: Doc)
    ensures Shown(Prepend(s, d)) == s + Shown(d)
    ensures Full(Prepend(s, d)) == s + Full(d)
  {}

  // ---- Replacement never crosses a token boundary ----

  /** Text without `[` holds no start of a bracketed pattern. */
  lemma {:induction false} ReplaceSkips(x: string, y: string, p: string, o: string)
    requires Bracketed(p) && '[' !in x
    ensures Replace(x + y, p, o) == x + Replace(y, p, o)
  {
    if x == [] {
      assert x + y == y;
    } else {
      assert (x + y)[0] == x[0] && x[0] in x;
      assert (x + y)[1..] == x[1..] + y;
      ReplaceSkips(x[1..], y, p, o);
      assert x == [x[0]] + x[1..];
    }
  }

  /** A bracketed pattern that starts in a gap lies within it. */
  lemma StartsWithin(g: string, y: string, p: string)
    requires Bracketed(p) && g != [] && (y == [] || y[0] == '[')
    ensures p <= g + y <==> p <= g
  {
    var w := g + y;
    if y != [] { assert w[|g|] == '['; }
  }

  /** A bracketed pattern that starts at a token is that token. */
  lemma StartsAtToken(q: string, y: string, p: string)
    requires Bracketed(p) && Bracketed(q)
    ensures p <= q + y <==> p == q
  {
    assert (q + y)[|q| - 1] == ']';
    if p <= q + y { PrefixFree(p, q); }
  }

  /** Before a token or the end, replacement acts on the gap alone. */
  lemma {:induction false} ReplaceGap(g: string, y: string, p: string, o: string)
    requires Bracketed(p) && (y == [] || y[0] == '[')
    ensures Replace(g + y, p, o) == Replace(g, p, o) + Replace(y, p, o)
    decreases |g|
  {
    if g == [] {
      assert g + y == y;
    } else {
      StartsWithin(g, y, p);
      if p <= g {
        ReplaceGap(g[|p|..], y, p, o);
        GapHit(g, y, p, o);
      } else {
        ReplaceGap(g[1..], y, p, o);
        GapMiss(g, y, p, o);
      }
    }
  }

  lemma GapHit(g: string, y: string, p: string, o: string)
    requires p != [] && p <= g && p <= g + y
    requires Replace(g[|p|..] + y, p, o) == Replace(g[|p|..], p, o) + Replace(y, p, o)
    ensures Replace(g + y, p, o) == Replace(g, p, o) + Replace(y, p, o)
  {
    ReplaceHit(g + y, p, o);
    ReplaceHit(g, p, o);
    DropJoined(g, y, |p|);
    Shift(o, Replace(g[|p|..], p, o), Replace(y, p, o));
  }

  lemma GapMiss(g: string, y: string, p: string, o: string)
    requires p != [] && g != [] && !(p <= g) && !(p <= g + y)
    requires Replace(g[1..] + y, p, o) == Replace(g[1..], p, o) + Replace(y, p, o)
    ensures Replace(g + y, p, o) == Replace(g, p, o) + Replace(y, p, o)
  {
    ReplaceMiss(g + y, p, o);
    ReplaceMiss(g, p, o);
    DropJoined(g, y, 1);
    Shift([g[0]], Replace(g[1..], p, o), Replace(y, p, o));
  }

  lemma DropJoined(g: string, y: string, n: nat)
    requires n <= |g|
    ensures (g + y)[n..] == g[n..] + y && (g != [] ==> (g + y)[0] == g[0])
  {}

  lemma ReplaceHit(s: string, p: string, o: string)
    requires p != [] && p <= s
    ensures Replace(s, p, o) == o + Replace(s[|p|..], p, o)
  {}

  lemma ReplaceMiss(s: string, p: string, o: string)
    requires p != [] && s != [] && !(p <= s)
    ensures Replace(s, p, o) == [s[0]] + Replace(s[1..], p, o)
  {}

  lemma Shift(a: string, b: string, c: string)
    ensures (a + b) + c == a + (b + c)
  {}

  /** At a token, replacement takes exactly that token or leaves it whole. */
  lemma ReplaceAtToken(q: string, y: string, p: string, o: string)
    requires Bracketed(p) && Bracketed(q)
    ensures Replace(q + y, p, o) == (if p == q then o else q) + Replace(y, p, o)
  {
    var s := q + y;
    StartsAtToken(q, y, p);
    if p == q {
      assert s[|p|..] == y;
    } else {
      assert s[1..] == q[1..] + y;
      ReplaceSkips(q[1..], y, p, o);
      assert q == [q[0]] + q[1..];
      assert [q[0]] + (q[1..] + Replace(y, p, o)) == q + Replace(y, p, o);
    }
  }

  ghost predicate TokensBracketed(d: Doc) {
    d.Cut? ==> Bracketed(d.token) && TokensBracketed(d.rest)
  }

  /** One replacement over the shown text is one resolution of the document. */
  lemma {:induction false} ReplaceResolves(d: Doc, e: Entry)
    requires TokensBracketed(d) && Bracketed(e.token)
    ensures Replace(Shown(d), e.token, e.value) == Shown(Resolve(d, e))
    ensures TokensBracketed(Resolve(d, e))
  {
    match d
    case End(t) =>
    case Cut(g, q, v, r) =>
      var p, o := e.token, e.value;
      ReplaceResolves(r, e);
      var tail := q + Shown(r);
      assert Shown(d) == g + tail;
      ReplaceGap(g, tail, p, o);
      ReplaceAtToken(q, Shown(r), p, o);
      var g', r' := Replace(g, p, o), Resolve(r, e);
      if p == q {
        PrependShows(g' + o, r');
        Shift(g', o, Shown(r'));
      } else {
        Shift(g', q, Shown(r'));
      }
  }

  // ---- Gaps that do not hold the token stay as they are ----

  lemma ContainsShift(s: string, p: string)
    requires s != []
    ensures Contains(s[1..], p) ==> Contains(s, p)
  {}

  lemma {:induction false} ReplaceAbsent(s: string, p: string, o: string)
    requires p != [] && !Contains(s, p)
    ensures Replace(s, p, o) == s
  {
    if s != [] {
      assert s[0..] == s;
      assert !(p <= s);
      ContainsShift(s, p);
      ReplaceAbsent(s[1..], p, o);
    }
  }

  lemma ContainsWider(a: string, s: string, b: string, p: string)
    requires Contains(s, p)
    ensures Contains(a + s + b, p)
  {
    var i :| 0 <= i <= |s| && p <= s[i..];
    var w := a + s + b;
    assert w[|a| + i..] == s[i..] + b;
  }

  /** A gap is a stretch of the full text. */
  lemma {:induction false} GapInFull(d: Doc, p: string)
    requires GapContains(d, p)
    ensures Contains(Full(d), p)
  {
    match d
    case End(t) =>
    case Cut(g, q, o, r) =>
      if Contains(g, p) {
        ContainsWider([], g, o + Full(r), p);
        assert [] + g + (o + Full(r)) == Full(d);
      } else {
        GapInFull(r, p);
        ContainsWider(g + o, Full(r), [], p);
        assert (g + o) + Full(r) + [] == Full(d);
      }
  }

  /** Resolving a token absent from the gaps keeps the full text. */
  lemma {:induction false} ResolveKeepsFull(d: Doc, e: Entry, entries: seq<Entry>)
    requires Covered(d, entries) && Keyed(entries) && e in entries
    requires !GapContains(d, e.token)
    ensures Full(Resolve(d, e)) == Full(d)
  {
    match d
    case End(t) =>
      ReplaceAbsent(t, e.token, e.value);
    case Cut(g, q, o, r) =>
      ReplaceAbsent(g, e.token, e.value);
      ResolveKeepsFull(r, e, entries);
      if q == e.token {
        SameEntry(entries, Entry(q, o), e);
        PrependShows(g + o, Resolve(r, e));
        assert (g + o) + Full(r) == g + o + Full(r);
      }
  }

  lemma SameEntry(entries: seq<Entry>, a: Entry, b: Entry)
    requires Keyed(entries) && a in entries && b in entries && a.token == b.token
    ensures a == b
  {}

  lemma {:induction false} PrependCovered(s: string, d: Doc, entries: seq<Entry>)
    requires Covered(d, entries)
    ensures Covered(Prepend(s, d), entries)
  {}

  lemma {:induction false} ResolveCovered(d: Doc, entries: seq<Entry>)
    requires Keyed(entries) && entries != [] && Covered(d, entries)
    ensures Covered(Resolve(d, entries[0]), entries[1..])
  {
    var e := entries[0];
    match d
    case End(t) =>
    case Cut(g, q, o, r) =>
      ResolveCovered(r, entries);
      if q == e.token {
        PrependCovered(Replace(g, e.token, e.value) + e.value, Resolve(r, e), entries[1..]);
      } else {
        assert entries == [e] + entries[1..];
      }
  }

  lemma {:induction false} CoveredBracketed(d: Doc, entries: seq<Entry>)
    requires Covered(d, entries)
    ensures TokensBracketed(d)
  {
    if d.Cut? { CoveredBracketed(d.rest, entries); }
  }

  // ---- Replacing one entry after another ----

  /** The entries applied in the given order, as the restoring loop applies them. */
  function ReplaceAll(s: string, entries: seq<Entry>): string
    requires forall e :: e in entries ==> e.token != []
    decreases |entries|
  {
    if entries == [] then s
    else ReplaceAll(Replace(s, entries[0].token, entries[0].value), entries[1..])
  }

  /** The document after resolving the entries in order. */
  function ResolveAll(d: Doc, entries: seq<Entry>): Doc
    requires forall e :: e in entries ==> e.token != []
    decreases |entries|
  {
    if entries == [] then d else ResolveAll(Resolve(d, entries[0]), entries[1..])
  }

  /** At the moment a token is replaced, no gap of the partly restored text holds it. */
  ghost predicate Clean(d: Doc, entries: seq<Entry>)
    requires forall e :: e in entries ==> e.token != []
    decreases |entries|
  {
    entries == []
    || (!GapContains(d, entries[0].token) && Clean(Resolve(d, entries[0]), entries[1..]))
  }

  lemma KeyedTail(entries: seq<Entry>)
    requires Keyed(entries) && entries != []
    ensures Keyed(entries[1..])
  {}

  /** Clean documents are restored exactly. */
  lemma {:induction false} CleanRestores(d: Doc, entries: seq<Entry>)
    requires Keyed(entries) && Covered(d, entries) && Clean(d, entries)
    ensures ReplaceAll(Shown(d), entries) == Full(d)
    decreases |entries|
  {
    if entries != [] {
      var e := entries[0];
      CoveredBracketed(d, entries);
      ReplaceResolves(d, e);
      ResolveKeepsFull(d, e, entries);
      ResolveCovered(d, entries);
      KeyedTail(entries);
      CleanRestores(Resolve(d, e), entries[1..]);
    }
  }

  /** A text holding none of the tokens stays clean, whatever the order. */
  lemma {:induction false} AbsentTokensClean(d: Doc, entries: seq<Entry>)
    requires Keyed(entries) && Covered(d, entries)
    requires forall e :: e in entries ==> !Contains(Full(d), e.token)
    ensures Clean(d, entries)
    decreases |entries|
  {
    if entries != [] {
      var e := entries[0];
      if GapContains(d, e.token) { GapInFull(d, e.token); }
      ResolveKeepsFull(d, e, entries);
      ResolveCovered(d, entries);
      KeyedTail(entries);
      AbsentTokensClean(Resolve(d, e), entries[1..]);
    }
  }

  // ---- Without brackets in the values, a dirty gap loses text for good ----

  function Opens(s: string): nat {
    if s == [] then 0 else (if s[0] == '[' then 1 else 0) + Opens(s[1..])
  }

  lemma {:induction false} OpensConcat(a: string, b: string)
    ensures Opens(a + b) == Opens(a) + Opens(b)
  {
    if a == [] {
      assert a + b == b;
    } else {
      assert (a + b)[1..] == a[1..] + b;
      OpensConcat(a[1..], b);
    }
  }

  lemma {:induction false} OpensNone(s: string)
    requires '[' !in s
    ensures Opens(s) == 0
  {
    if s != [] { assert s[0] in s; OpensNone(s[1..]); }
  }

  lemma OpensBracketed(p: string)
    requires Bracketed(p)
    ensures Opens(p) == 1
  {
    OpensNone(p[1..]);
  }

  lemma {:induction false} ReplaceLosesOpens(s: string, p: string, o: string)
    requires Bracketed(p) && '[' !in o
    ensures Opens(Replace(s, p, o)) <= Opens(s)
    ensures Contains(s, p) ==> Opens(Replace(s, p, o)) < Opens(s)
    decreases |s|
  {
    if s == [] {
    } else if p <= s {
      assert s == p + s[|p|..];
      ReplaceLosesOpens(s[|p|..], p, o);
      OpensConcat(p, s[|p|..]);
      OpensConcat(o, Replace(s[|p|..], p, o));
      OpensNone(o);
      OpensBracketed(p);
    } else {
      ReplaceLosesOpens(s[1..], p, o);
      if Contains(s, p) {
        var i :| 0 <= i <= |s| && p <= s[i..];
        assert i > 0 && s[i..] == s[1..][i - 1..];
        assert Contains(s[1..], p);
      }
      OpensConcat([s[0]], Replace(s[1..], p, o));
      assert [s[0]][1..] == [];
    }
  }

  /** Opening brackets that stand in the gaps. */
  function GapOpens(d: Doc): nat {
    match d
    case End(t) => Opens(t)
    case Cut(g, _, _, r) => Opens(g) + GapOpens(r)
  }

  ghost predicate PlainValues(entries: seq<Entry>) {
    forall e :: e in entries ==> '[' !in e.value
  }

  lemma {:induction false} FullOpens(d: Doc, entries: seq<Entry>)
    requires Covered(d, entries) && PlainValues(entries)
    ensures Opens(Full(d)) == GapOpens(d)
  {
    match d
    case End(t) =>
    case Cut(g, p, o, r) =>
      FullOpens(r, entries);
      OpensConcat(g + o, Full(r));
      OpensConcat(g, o);
      assert '[' !in Entry(p, o).value;
      OpensNone(o);
  }

  lemma PrependOpens(s: string, d: Doc)
    ensures GapOpens(Prepend(s, d)) == Opens(s) + GapOpens(d)
  {
    match d
    case End(t) => OpensConcat(s, t);
    case Cut(g, p, o, r) => OpensConcat(s, g);
  }

  lemma {:induction false} ResolveLosesOpens(d: Doc, e: Entry)
    requires Bracketed(e.token) && '[' !in e.value
    ensures GapOpens(Resolve(d, e)) <= GapOpens(d)
    ensures GapContains(d, e.token) ==> GapOpens(Resolve(d, e)) < GapOpens(d)
  {
    match d
    case End(t) => ReplaceLosesOpens(t, e.token, e.value);
    case Cut(g, p, o, r) =>
      ReplaceLosesOpens(g, e.token, e.value);
      ResolveLosesOpens(r, e);
      if p == e.token {
        var g' := Replace(g, e.token, e.value);
        PrependOpens(g' + e.value, Resolve(r, e));
        OpensConcat(g', e.value);
        OpensNone(e.value);
      }
  }

  /** Restoring never adds an opening bracket to the gaps, and loses one if a gap is dirty. */
  lemma {:induction false} RestoredOpens(d: Doc, entries: seq<Entry>)
    requires Keyed(entries) && Covered(d, entries) && PlainValues(entries)
    ensures Opens(ReplaceAll(Shown(d), entries)) <= GapOpens(d)
    ensures !Clean(d, entries) ==> Opens(ReplaceAll(Shown(d), entries)) < GapOpens(d)
    decreases |entries|
  {
    if entries == [] {
      assert d.End?;
    } else {
      var e := entries[0];
      CoveredBracketed(d, entries);
      ReplaceResolves(d, e);
      ResolveLosesOpens(d, e);
      ResolveCovered(d, entries);
      KeyedTail(entries);
      RestoredOpens(Resolve(d, e), entries[1..]);
    }
  }

  /** With bracket-free values, cleanness is exactly when restoring gives the text back. */
  lemma RestoresIffClean(d: Doc, entries: seq<Entry>)
    requires Keyed(entries) && Covered(d, entries) && PlainValues(entries)
    ensures ReplaceAll(Shown(d), entries) == Full(d) <==> Clean(d, entries)
  {
    if Clean(d, entries) {
      CleanRestores(d, entries);
    } else {
      RestoredOpens(d, entries);
      FullOpens(d, entries);
    }
  }

  /** With brackets in the values it is not: a value that is its own token restores a dirty gap unharmed. */
  lemma DirtyCanRestore(p: string)
    requires Bracketed(p)
    ensures var d, entries := Cut(p, p, p, End("")), [Entry(p, p)];
      Keyed(entries) && Covered(d, entries) && !Clean(d, entries) && ReplaceAll(Shown(d), entries) == Full(d)
  {
    var d, entries := Cut(p, p, p, End("")), [Entry(p, p)];
    assert Entry(p, p) in entries && entries[1..] == [];
    assert p <= p[0..] && Contains(p, p);
    assert Shown(d) == p + (p + "");
    ReplaceAtToken(p, p + "", p, p);
    ReplaceAtToken(p, "", p, p);
  }
}
