/** Result and option types shared by every component. */
module Wrappers {
  datatype Option<+T> = None | Some(value: T)

  datatype Result<+T, +E> = Ok(value: T) | Err(error: E)
}

/** Raw bytes. */
module Bytes {
  type byte = x: int | 0 <= x < 256
}

/** Orders on byte strings and text, and the stable sort the components call. */
module Ordering {

  /** Strict lexicographic order; on UTF-8 text, byte order and code point order coincide. */
  predicate LexLess(a: seq<int>, b: seq<int>) {
    b != [] && (a == [] || a[0] < b[0] || (a[0] == b[0] && LexLess(a[1..], b[1..])))
  }

  predicate LexLe(a: seq<int>, b: seq<int>) {
    a == b || LexLess(a, b)
  }

  lemma {:induction false} LexTransitive(a: seq<int>, b: seq<int>, c: seq<int>)
    requires LexLess(a, b) && LexLess(b, c)
    ensures LexLess(a, c)
  {
    if a != [] && a[0] == b[0] == c[0] {
      LexTransitive(a[1..], b[1..], c[1..]);
    }
  }

  lemma {:induction false} LexTrichotomy(a: seq<int>, b: seq<int>)
    ensures LexLess(a, b) || a == b || LexLess(b, a)
    ensures !(LexLess(a, b) && LexLess(b, a))
    ensures !LexLess(a, a)
  {
    if a != [] {
      LexTrichotomy(a[1..], a[1..]);
      if b != [] {
        LexTrichotomy(a[1..], b[1..]);
        assert a == [a[0]] + a[1..] && b == [b[0]] + b[1..];
      }
    }
  }

  /** Comparing concatenations: the first parts decide unless they are equal. */
  lemma {:induction false} LexConcat(a: seq<int>, b: seq<int>, x: seq<int>, y: seq<int>)
    requires |a| == |b|
    ensures LexLess(a + x, b + y) <==> LexLess(a, b) || (a == b && LexLess(x, y))
  {
    if a == [] {
      assert a + x == x && b + y == y;
    } else {
      LexConcat(a[1..], b[1..], x, y);
      assert (a + x)[1..] == a[1..] + x && (b + y)[1..] == b[1..] + y;
      assert a == [a[0]] + a[1..] && b == [b[0]] + b[1..];
    }
  }

  /** The code points of a text. */
  function Codes(s: string): (c: seq<int>)
    ensures |c| == |s| && forall i :: 0 <= i < |s| ==> c[i] == s[i] as int
  {
    seq(|s|, i requires 0 <= i < |s| => s[i] as int)
  }

  lemma CodesInjective(a: string, b: string)
    requires Codes(a) == Codes(b)
    ensures a == b
  {}

  predicate TextLess(a: string, b: string) { LexLess(Codes(a), Codes(b)) }

  predicate TextLe(a: string, b: string) { LexLe(Codes(a), Codes(b)) }

  lemma TextOrder(a: string, b: string)
    ensures TextLe(a, b) || TextLe(b, a)
    ensures TextLe(a, b) && TextLe(b, a) ==> a == b
    ensures TextLess(a, b) <==> TextLe(a, b) && a != b
    ensures TextLess(a, b) <==> !TextLe(b, a)
  {
    LexTrichotomy(Codes(a), Codes(b));
    if Codes(a) == Codes(b) { CodesInjective(a, b); }
  }

  lemma TextTransitive(a: string, b: string, c: string)
    requires TextLe(a, b) && TextLe(b, c)
    ensures TextLe(a, c)
  {
    if LexLess(Codes(a), Codes(b)) && LexLess(Codes(b), Codes(c)) {
      LexTransitive(Codes(a), Codes(b), Codes(c));
    }
  }

  ghost predicate TotalPreorder<T(!new)>(le: (T, T) -> bool) {
    && (forall a, b :: le(a, b) || le(b, a))
    && (forall a, b, c :: le(a, b) && le(b, c) ==> le(a, c))
  }

  ghost predicate Sorted<T>(s: seq<T>, le: (T, T) -> bool) {
    forall i, j :: 0 <= i < j < |s| ==> le(s[i], s[j])
  }

  function Insert<T>(x: T, s: seq<T>, le: (T, T) -> bool): seq<T> {
    if s == [] then [x]
    else if le(x, s[0]) then [x] + s
    else [s[0]] + Insert(x, s[1..], le)
  }

  /** Stable sort: an element goes before the later ones it is equivalent to. */
  function SortBy<T>(s: seq<T>, le: (T, T) -> bool): seq<T> {
    if s == [] then [] else Insert(s[0], SortBy(s[1..], le), le)
  }

  lemma {:induction false} InsertPermutes<T>(x: T, s: seq<T>, le: (T, T) -> bool)
    ensures multiset(Insert(x, s, le)) == multiset(s) + multiset{x}
  {
    if s != [] {
      assert s == [s[0]] + s[1..];
      if !le(x, s[0]) { InsertPermutes(x, s[1..], le); }
    }
  }

  lemma SortedCons<T>(x: T, s: seq<T>, le: (T, T) -> bool)
    requires Sorted(s, le) && forall y :: y in s ==> le(x, y)
    ensures Sorted([x] + s, le)
  {}

  lemma {:induction false} InsertSorts<T(!new)>(x: T, s: seq<T>, le: (T, T) -> bool)
    requires TotalPreorder(le) && Sorted(s, le)
    ensures Sorted(Insert(x, s, le), le)
  {
    if s != [] {
      var tail := s[1..];
      assert Sorted(tail, le);
      if le(x, s[0]) {
        forall y | y in s ensures le(x, y) { assert y == s[0] || le(s[0], y); }
        SortedCons(x, s, le);
      } else {
        InsertSorts(x, tail, le);
        var r := Insert(x, tail, le);
        forall y | y in r ensures le(s[0], y) {
          InsertPermutes(x, tail, le);
          assert y in multiset(r);
          if y != x {
            assert y in tail;
            var k :| 0 <= k < |tail| && tail[k] == y;
            assert le(s[0], s[k + 1]);
          }
        }
        SortedCons(s[0], r, le);
      }
    }
  }

  lemma Arrangement<T>(s: seq<T>, t: seq<T>)
    requires multiset(s) == multiset(t)
    ensures |s| == |t| && forall x :: x in s <==> x in t
  {
    assert |multiset(s)| == |s| && |multiset(t)| == |t|;
    forall x ensures x in s <==> x in t {
      assert x in s <==> x in multiset(s);
      assert x in t <==> x in multiset(t);
    }
  }

  lemma {:induction false} SortSorts<T(!new)>(s: seq<T>, le: (T, T) -> bool)
    requires TotalPreorder(le)
    ensures Sorted(SortBy(s, le), le)
    ensures multiset(SortBy(s, le)) == multiset(s)
    ensures |SortBy(s, le)| == |s|
    ensures forall x :: x in s <==> x in SortBy(s, le)
  {
    if s != [] {
      SortSorts(s[1..], le);
      InsertSorts(s[0], SortBy(s[1..], le), le);
      InsertPermutes(s[0], SortBy(s[1..], le), le);
      assert s == [s[0]] + s[1..];
    }
    Arrangement(SortBy(s, le), s);
  }

  /** Equivalent elements of `s` are equal: the order separates them. */
  ghost predicate Separates<T>(s: seq<T>, le: (T, T) -> bool) {
    forall a, b :: a in s && b in s && le(a, b) && le(b, a) ==> a == b
  }

  lemma SortedHeads<T>(s: seq<T>, t: seq<T>, le: (T, T) -> bool)
    requires Sorted(s, le) && Sorted(t, le) && multiset(s) == multiset(t) && Separates(s, le)
    requires s != [] && t != []
    ensures s[0] == t[0]
  {
    assert s[0] in multiset(t) && t[0] in multiset(s);
    var i :| 0 <= i < |t| && t[i] == s[0];
    var j :| 0 <= j < |s| && s[j] == t[0];
    if i > 0 && j > 0 {
      assert le(t[0], t[i]) && le(s[0], s[j]);
    }
  }

  lemma SameTails<T>(s: seq<T>, t: seq<T>)
    requires s != [] && t != [] && s[0] == t[0] && multiset(s) == multiset(t)
    ensures multiset(s[1..]) == multiset(t[1..])
    ensures forall x :: x in s[1..] ==> x in s
  {
    assert s == [s[0]] + s[1..] && t == [t[0]] + t[1..];
    assert multiset(s[1..]) == multiset(s) - multiset{s[0]};
    assert multiset(t[1..]) == multiset(t) - multiset{t[0]};
  }

  /** A sorted arrangement is unique when the order separates its elements. */
  lemma {:induction false} SortedUnique<T>(s: seq<T>, t: seq<T>, le: (T, T) -> bool)
    requires Sorted(s, le) && Sorted(t, le) && multiset(s) == multiset(t) && Separates(s, le)
    ensures s == t
  {
    assert |multiset(s)| == |multiset(t)|;
    if s != [] {
      SortedHeads(s, t, le);
      var s', t' := s[1..], t[1..];
      SameTails(s, t);
      SortedUnique(s', t', le);
      assert s == [s[0]] + s' && t == [s[0]] + t';
    }
  }

  /** Sorting forgets the input order exactly when the order separates the elements. */
  lemma SortForgetsOrder<T(!new)>(s: seq<T>, t: seq<T>, le: (T, T) -> bool)
    requires TotalPreorder(le) && multiset(s) == multiset(t) && Separates(s, le)
    ensures SortBy(s, le) == SortBy(t, le)
  {
    SortSorts(s, le);
    SortSorts(t, le);
    SortedUnique(SortBy(s, le), SortBy(t, le), le);
  }

  /** Sorting something sorted changes nothing. */
  lemma {:induction false} SortedStays<T(!new)>(s: seq<T>, le: (T, T) -> bool)
    requires Sorted(s, le)
    ensures SortBy(s, le) == s
  {
    if s != [] {
      SortedStays(s[1..], le);
      if |s| > 1 { assert le(s[0], s[1]); }
    }
  }

  /** The elements equivalent to `x`, in the order they come. */
  function Alike<T>(s: seq<T>, le: (T, T) -> bool, x: T): seq<T> {
    if s == [] then []
    else (if le(s[0], x) && le(x, s[0]) then [s[0]] else []) + Alike(s[1..], le, x)
  }

  lemma AlikeCons<T>(a: T, s: seq<T>, le: (T, T) -> bool, x: T)
    ensures Alike([a] + s, le, x) == (if le(a, x) && le(x, a) then [a] else []) + Alike(s, le, x)
  {
    assert ([a] + s)[1..] == s;
  }

  lemma SwapEmpty<T>(a: seq<T>, b: seq<T>, s: seq<T>)
    requires a == [] || b == []
    ensures a + (b + s) == b + (a + s)
  {}

  lemma {:induction false} InsertKeepsAlike<T(!new)>(y: T, s: seq<T>, le: (T, T) -> bool, x: T)
    requires TotalPreorder(le)
    ensures Alike(Insert(y, s, le), le, x) == (if le(y, x) && le(x, y) then [y] else []) + Alike(s, le, x)
  {
    if s == [] || le(y, s[0]) {
      AlikeCons(y, s, le, x);
      assert s == [] ==> [y] + s == [y];
    } else {
      InsertKeepsAlike(y, s[1..], le, x);
      AlikeCons(s[0], Insert(y, s[1..], le), le, x);
      var a, b := if le(s[0], x) && le(x, s[0]) then [s[0]] else [], if le(y, x) && le(x, y) then [y] else [];
      SwapEmpty(a, b, Alike(s[1..], le, x));
    }
  }

  /** The sort is stable: equivalent elements keep their order. */
  lemma {:induction false} SortStable<T(!new)>(s: seq<T>, le: (T, T) -> bool, x: T)
    requires TotalPreorder(le)
    ensures Alike(SortBy(s, le), le, x) == Alike(s, le, x)
  {
    if s != [] {
      SortStable(s[1..], le, x);
      InsertKeepsAlike(s[0], SortBy(s[1..], le), le, x);
    }
  }

  /** An element goes behind exactly those it may not precede. */
  lemma {:induction false} InsertAt<T>(x: T, s: seq<T>, le: (T, T) -> bool) returns (k: nat)
    ensures k <= |s| && Insert(x, s, le) == s[..k] + [x] + s[k..]
    ensures forall m :: 0 <= m < k ==> !le(x, s[m])
  {
    if s == [] || le(x, s[0]) {
      k := 0;
    } else {
      var j := InsertAt(x, s[1..], le);
      k := j + 1;
      assert s[..k] == [s[0]] + s[1..][..j] && s[k..] == s[1..][j..];
      forall m | 0 <= m < k ensures !le(x, s[m]) {
        if m > 0 { assert s[m] == s[1..][m - 1]; }
      }
    }
  }

  /** Two elements that may stand either way come from two places in that order. */
  lemma {:induction false} TiesKept<T(!new)>(s: seq<T>, le: (T, T) -> bool, i: nat, j: nat) returns (p: nat, q: nat)
    requires TotalPreorder(le) && |SortBy(s, le)| == |s| && i < j < |s| && le(SortBy(s, le)[j], SortBy(s, le)[i])
    ensures p < q < |s| && s[p] == SortBy(s, le)[i] && s[q] == SortBy(s, le)[j]
  {
    var tail := s[1..];
    var r := SortBy(tail, le);
    SortSorts(tail, le);
    var k, i', j' := TieBefore(s[0], r, le, i, j);
    if i == k {
      q := PlaceOf(tail, r, j');
      p, q := 0, q + 1;
    } else {
      p, q := TiesKept(tail, le, i', j');
      p, q := p + 1, q + 1;
    }
  }

  /** Where two elements stood before another went in at `k`. */
  lemma TieBefore<T>(x: T, r: seq<T>, le: (T, T) -> bool, i: nat, j: nat) returns (k: nat, i': nat, j': nat)
    requires |Insert(x, r, le)| == |r| + 1 && i < j <= |r| && le(Insert(x, r, le)[j], Insert(x, r, le)[i])
    ensures k != j && j' < |r| && r[j'] == Insert(x, r, le)[j]
    ensures if i == k then Insert(x, r, le)[i] == x else i' < j' && r[i'] == Insert(x, r, le)[i]
  {
    k := InsertAt(x, r, le);
    i', j' := if i <= k then i else i - 1, if j < k then j else j - 1;
  }

  lemma PlaceOf<T>(s: seq<T>, r: seq<T>, j: nat) returns (q: nat)
    requires j < |r| && forall x :: x in s <==> x in r
    ensures q < |s| && s[q] == r[j]
  {
    assert r[j] in s;
    q :| 0 <= q < |s| && s[q] == r[j];
  }

  /** Orders things by a text they carry. */
  function OnText<T>(key: T -> string): (T, T) -> bool { (a: T, b: T) => TextLe(key(a), key(b)) }

  lemma OnTextTotal<T(!new)>(key: T -> string)
    ensures TotalPreorder(OnText(key))
    ensures forall a, b :: OnText(key)(a, b) && OnText(key)(b, a) ==> key(a) == key(b)
  {
    var le := OnText(key);
    forall a, b ensures le(a, b) || le(b, a) { TextOrder(key(a), key(b)); }
    forall a, b | le(a, b) && le(b, a) ensures key(a) == key(b) { TextOrder(key(a), key(b)); }
    forall a, b, c | le(a, b) && le(b, c) ensures le(a, c) { TextTransitive(key(a), key(b), key(c)); }
  }
}

/** Sequences without repetitions. */
module Sequences {
  ghost predicate NoDuplicates<T>(s: seq<T>) {
    forall i, j :: 0 <= i < |s| && 0 <= j < |s| && s[i] == s[j] ==> i == j
  }

  /** The elements that pass, in the order they come. */
  function Filtered<T(!new)>(s: seq<T>, keep: T -> bool): (r: seq<T>)
    ensures forall x :: x in r <==> x in s && keep(x)
  {
    if s == [] then []
    else
      assert s == [s[0]] + s[1..];
      (if keep(s[0]) then [s[0]] else []) + Filtered(s[1..], keep)
  }

  /** Two of them come from two places in that order. */
  lemma {:induction false} FilteredInOrder<T(!new)>(s: seq<T>, keep: T -> bool, i: nat, j: nat) returns (p: nat, q: nat)
    requires i < j < |Filtered(s, keep)|
    ensures p < q < |s| && s[p] == Filtered(s, keep)[i] && s[q] == Filtered(s, keep)[j]
  {
    var r := Filtered(s[1..], keep);
    if !keep(s[0]) {
      p, q := FilteredInOrder(s[1..], keep, i, j);
      p, q := p + 1, q + 1;
    } else if i > 0 {
      p, q := FilteredInOrder(s[1..], keep, i - 1, j - 1);
      p, q := p + 1, q + 1;
    } else {
      assert r[j - 1] in s[1..];
      q :| 0 <= q < |s| - 1 && s[1..][q] == r[j - 1];
      p, q := 0, q + 1;
    }
  }

  /** Each as often as it was there. */
  lemma {:induction false} FilteredCounts<T(!new)>(s: seq<T>, keep: T -> bool, x: T)
    ensures multiset(Filtered(s, keep))[x] == if keep(x) then multiset(s)[x] else 0
  {
    if s != [] {
      FilteredCounts(s[1..], keep, x);
      assert s == [s[0]] + s[1..];
    }
  }

  lemma NoDuplicatesTail<T>(s: seq<T>)
    requires s != [] && NoDuplicates(s)
    ensures NoDuplicates(s[1..]) && s[0] !in s[1..]
  {
    var t := s[1..];
    forall i, j | 0 <= i < |t| && 0 <= j < |t| && t[i] == t[j] ensures i == j {
      assert s[i + 1] == s[j + 1];
    }
    forall i | 0 <= i < |t| ensures t[i] != s[0] {
      assert t[i] == s[i + 1];
    }
  }

  lemma {:induction false} SameElements<T>(s: seq<T>, t: seq<T>)
    requires NoDuplicates(s) && NoDuplicates(t) && forall x :: x in s <==> x in t
    ensures multiset(s) == multiset(t)
  {
    forall x: T ensures multiset(s)[x] == multiset(t)[x] {
      CountOnce(s, x);
      CountOnce(t, x);
    }
  }

  lemma {:induction false} CountOnce<T>(s: seq<T>, x: T)
    requires NoDuplicates(s)
    ensures multiset(s)[x] == if x in s then 1 else 0
  {
    if s != [] {
      NoDuplicatesTail(s);
      CountOnce(s[1..], x);
      assert s == [s[0]] + s[1..];
    }
  }

  lemma TwiceInSequence<T>(s: seq<T>, i: nat, j: nat)
    requires i < j < |s| && s[i] == s[j]
    ensures multiset(s)[s[i]] >= 2
  {
    assert s == s[..j] + s[j..];
    assert s[..j][i] in s[..j] && s[j..][0] in s[j..];
  }

  lemma PermutationDistinct<T>(s: seq<T>, t: seq<T>)
    requires NoDuplicates(s) && multiset(s) == multiset(t)
    ensures NoDuplicates(t)
  {
    forall i, j | 0 <= i < |t| && 0 <= j < |t| && t[i] == t[j] ensures i == j {
      var lo, hi := if i < j then i else j, if i < j then j else i;
      if lo != hi {
        TwiceInSequence(t, lo, hi);
        CountOnce(s, t[lo]);
      }
    }
  }

  function Map<T, U>(f: T -> U, s: seq<T>): (r: seq<U>)
    ensures |r| == |s| && forall i :: 0 <= i < |s| ==> r[i] == f(s[i])
  {
    seq(|s|, i requires 0 <= i < |s| => f(s[i]))
  }

  function Without<T>(t: seq<T>, i: nat): seq<T>
    requires i < |t|
  {
    t[..i] + t[i + 1..]
  }

  lemma WithoutMultiset<T>(t: seq<T>, i: nat)
    requires i < |t|
    ensures multiset(t) == multiset(Without(t, i)) + multiset{t[i]}
  {
    assert t == t[..i] + [t[i]] + t[i + 1..];
  }

  lemma MapWithout<T, U>(f: T -> U, t: seq<T>, i: nat)
    requires i < |t|
    ensures Without(Map(f, t), i) == Map(f, Without(t, i))
  {
    var x, y := Without(Map(f, t), i), Map(f, Without(t, i));
    forall k | 0 <= k < |x| ensures x[k] == y[k] {
      assert x[k] == if k < i then f(t[k]) else f(t[k + 1]);
    }
  }

  /** The images of two arrangements are two arrangements of the images. */
  lemma {:induction false} MapPermutes<T, U>(f: T -> U, s: seq<T>, t: seq<T>)
    requires multiset(s) == multiset(t)
    ensures multiset(Map(f, s)) == multiset(Map(f, t))
    decreases |s|
  {
    if s == [] {
      assert |t| == |multiset(t)|;
    } else {
      assert s[0] in multiset(t);
      var i :| 0 <= i < |t| && t[i] == s[0];
      WithoutMultiset(s, 0);
      WithoutMultiset(t, i);
      assert multiset(Without(s, 0)) == multiset(s) - multiset{s[0]};
      assert multiset(Without(t, i)) == multiset(t) - multiset{s[0]};
      MapPermutes(f, Without(s, 0), Without(t, i));
      WithoutMultiset(Map(f, s), 0);
      WithoutMultiset(Map(f, t), i);
      MapWithout(f, s, 0);
      MapWithout(f, t, i);
    }
  }

  // ---- Yields one behind the other ----

  /** What each item yields, one after the other. */
  function Gather<T, U>(f: T -> seq<U>, es: seq<T>): seq<U> {
    if es == [] then [] else Gather(f, es[..|es| - 1]) + f(es[|es| - 1])
  }

  /** The yields lie one behind the other in `out`, that of the `i`-th item from `cuts[i]` to `cuts[i + 1]`. */
  ghost predicate Laid<T, U>(f: T -> seq<U>, es: seq<T>, out: seq<U>, cuts: seq<nat>) {
    && |cuts| == |es| + 1 && cuts[0] == 0 && cuts[|es|] == |out|
    && forall i :: 0 <= i < |es| ==> LaidAt(f(es[i]), out, cuts[i], cuts[i + 1])
  }

  ghost predicate LaidAt<U>(part: seq<U>, out: seq<U>, from: nat, to: nat) {
    from <= to <= |out| && out[from..to] == part
  }

  lemma {:induction false} GatherLaid<T, U>(f: T -> seq<U>, es: seq<T>) returns (cuts: seq<nat>)
    ensures Laid(f, es, Gather(f, es), cuts)
  {
    if es == [] {
      cuts := [0];
    } else {
      var n := |es| - 1;
      var init, out := es[..n], Gather(f, es[..n]);
      var before := GatherLaid(f, init);
      cuts := before + [|out + f(es[n])|];
      forall i | 0 <= i < |es| ensures LaidAt(f(es[i]), out + f(es[n]), cuts[i], cuts[i + 1]) {
        if i < n { assert LaidAt(f(init[i]), out, before[i], before[i + 1]); }
      }
    }
  }

  /** One more yield in front. */
  lemma LaidCons<T, U>(f: T -> seq<U>, e: T, es: seq<T>, out: seq<U>, cuts: seq<nat>) returns (longer: seq<nat>)
    requires Laid(f, es, out, cuts)
    ensures Laid(f, [e] + es, f(e) + out, longer)
  {
    var n := |f(e)|;
    longer := [0] + seq(|cuts|, k requires 0 <= k < |cuts| => cuts[k] + n);
    forall i | 0 <= i < |es| + 1 ensures LaidAt(f(([e] + es)[i]), f(e) + out, longer[i], longer[i + 1]) {
      if i > 0 { LaidLater(f(e), f(es[i - 1]), out, cuts[i - 1], cuts[i - 1 + 1]); }
    }
  }

  lemma LaidLater<U>(head: seq<U>, part: seq<U>, out: seq<U>, from: nat, to: nat)
    requires LaidAt(part, out, from, to)
    ensures LaidAt(part, head + out, from + |head|, to + |head|)
  {}
}
