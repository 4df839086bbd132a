/** Deterministic git object bytes and ids for blobs and trees. */
module GitProjection {
  import opened Wrappers
  import opened Bytes
  import opened Ordering
  import opened Sequences
  import opened Numerals

  datatype TreeEntry = TreeEntry(mode: seq<byte>, name: seq<byte>, oid: seq<byte>)

  datatype ProjectionError = EmptyEntryName | DuplicateEntryName(name: seq<byte>)

  datatype ObjectKind = BlobKind | TreeKind

  datatype ProjectedObject = ProjectedObject(bytes: seq<byte>, oid: seq<byte>)

  const SPACE: byte := 32
  const NUL: byte := 0
  const SLASH: byte := 47
  const DIR_MODE: seq<byte> := [52, 48, 48, 48, 48]        // "40000"
  const BLOB_TAG: seq<byte> := [98, 108, 111, 98]           // "blob"
  const TREE_TAG: seq<byte> := [116, 114, 101, 101]         // "tree"

  function HeaderTag(kind: ObjectKind): seq<byte> {
    match kind
    case BlobKind => BLOB_TAG
    case TreeKind => TREE_TAG
  }

  function DigitByte(c: char): (b: byte)
    requires IsDigit(c)
    ensures 48 <= b <= 57
  {
    c as int
  }

  function Ascii(digits: string): (b: seq<byte>)
    requires forall c :: c in digits ==> IsDigit(c)
    ensures |b| == |digits| && forall i :: 0 <= i < |digits| ==> b[i] == digits[i] as int && 48 <= b[i] <= 57
  {
    assert forall i :: 0 <= i < |digits| ==> digits[i] in digits;
    seq(|digits|, i requires 0 <= i < |digits| && IsDigit(digits[i]) => DigitByte(digits[i]))
  }

  /** `<type> <length>\0<content>` */
  function ObjectBytes(kind: ObjectKind, content: seq<byte>): seq<byte> {
    HeaderTag(kind) + [SPACE] + Ascii(Decimal(|content|)) + [NUL] + content
  }

  method HashGitObject(kind: ObjectKind, content: seq<byte>, sha: seq<byte> -> seq<byte>)
    returns (oid: seq<byte>, bytes: seq<byte>)
    ensures bytes == ObjectBytes(kind, content) && oid == sha(bytes)
    ensures IsGitObject(bytes, kind, content)
  {
    var header := HeaderTag(kind) + [SPACE] + Ascii(Decimal(|content|)) + [NUL];
    bytes := [];
    bytes := bytes + header;
    bytes := bytes + content;
    assert bytes == ObjectBytes(kind, content);
    ObjectReads(kind, content);
    oid := sha(bytes);
  }

  // ---- Reading a header ----

  predicate DecimalBytes(b: seq<byte>) { b != [] && forall i :: 0 <= i < |b| ==> 48 <= b[i] <= 57 }

  function NumberIn(b: seq<byte>): nat
    requires forall i :: 0 <= i < |b| ==> 48 <= b[i] <= 57
  {
    if b == [] then 0 else 10 * NumberIn(b[..|b| - 1]) + (b[|b| - 1] - 48)
  }

  /**
   * The first space stands at `space` behind the word for the kind, the first zero byte at `nul`; between them a
   * decimal number without leading zero says how many bytes follow, and these are the content.
   */
  ghost predicate HeaderReads(b: seq<byte>, kind: ObjectKind, content: seq<byte>, space: nat, nul: nat) {
    && space < nul < |b| && b[space] == 32 && b[nul] == 0
    && 32 !in b[..space] && 0 !in b[..nul]
    && b[..space] == (if kind.BlobKind? then [98, 108, 111, 98] else [116, 114, 101, 101])
    && DecimalBytes(b[space + 1..nul]) && (b[space + 1] == 48 ==> nul == space + 2)
    && NumberIn(b[space + 1..nul]) == |b[nul + 1..]| && b[nul + 1..] == content
  }

  ghost predicate IsGitObject(b: seq<byte>, kind: ObjectKind, content: seq<byte>) {
    exists space: nat, nul: nat :: HeaderReads(b, kind, content, space, nul)
  }

  lemma {:induction false} NumberOfDigits(s: string)
    requires forall c :: c in s ==> IsDigit(c)
    ensures NumberIn(Ascii(s)) == Value(s)
  {
    if s != [] {
      var n := |s| - 1;
      var init := s[..n];
      NumberOfDigits(init);
      SameBytes(Ascii(s)[..n], Ascii(init), s);
      assert s[n] in s;
    }
  }

  lemma SameBytes(a: seq<byte>, b: seq<byte>, s: string)
    requires |a| == |b| <= |s|
    requires forall i :: 0 <= i < |a| ==> a[i] == s[i] as int && b[i] == s[i] as int
    ensures a == b
  {}

  lemma DigitBytes(n: nat)
    ensures DecimalBytes(Ascii(Decimal(n))) && NumberIn(Ascii(Decimal(n))) == n
    ensures Ascii(Decimal(n))[0] == 48 ==> |Ascii(Decimal(n))| == 1
  {
    var s := Decimal(n);
    forall i | 0 <= i < |s| ensures 48 <= Ascii(s)[i] <= 57 { assert s[i] in s; }
    NumberOfDigits(s);
    ValueOfDecimal(n);
    NoLeadingZero(n);
  }

  /** Every object is written that way. */
  lemma ObjectReads(kind: ObjectKind, content: seq<byte>)
    ensures IsGitObject(ObjectBytes(kind, content), kind, content)
  {
    var tag, digits := HeaderTag(kind), Ascii(Decimal(|content|));
    DigitBytes(|content|);
    var b := ObjectBytes(kind, content);
    Layout(tag, digits, content);
    TagPlain(kind, digits);
    assert HeaderReads(b, kind, content, |tag|, |tag| + 1 + |digits|);
  }

  lemma TagPlain(kind: ObjectKind, digits: seq<byte>)
    requires DecimalBytes(digits)
    ensures 32 !in HeaderTag(kind) && 0 !in HeaderTag(kind) + [SPACE] + digits
    ensures HeaderTag(kind) == if kind.BlobKind? then [98, 108, 111, 98] else [116, 114, 101, 101]
  {}

  lemma Layout(tag: seq<byte>, digits: seq<byte>, content: seq<byte>)
    ensures var b, n := tag + [SPACE] + digits + [NUL] + content, |tag| + 1 + |digits|;
      && |b| == n + 1 + |content| && b[..|tag|] == tag && b[|tag|] == 32 && b[|tag| + 1..n] == digits
      && b[..n] == tag + [SPACE] + digits && b[n] == 0 && b[n + 1..] == content
  {}

  function ProjectBlob(content: seq<byte>, sha: seq<byte> -> seq<byte>): ProjectedObject {
    ProjectedObject(ObjectBytes(BlobKind, content), sha(ObjectBytes(BlobKind, content)))
  }

  // ---- Tree objects ----

  /** The name, with a slash appended for a subtree. */
  function SortKey(e: TreeEntry): seq<int> {
    if e.mode == DIR_MODE then e.name + [SLASH] else e.name
  }

  predicate KeyLe(a: TreeEntry, b: TreeEntry) { LexLe(SortKey(a), SortKey(b)) }

  function EncodeEntry(e: TreeEntry): seq<byte> { e.mode + [SPACE] + e.name + [NUL] + e.oid }

  function EncodeEntries(es: seq<TreeEntry>): seq<byte> {
    if es == [] then [] else EncodeEntry(es[0]) + EncodeEntries(es[1..])
  }

  /** The first name shared by two neighbours. */
  function FirstDuplicate(es: seq<TreeEntry>): Option<seq<byte>> {
    if |es| < 2 then None
    else if es[0].name == es[1].name then Some(es[0].name)
    else FirstDuplicate(es[1..])
  }

  ghost predicate HasEmptyName(es: seq<TreeEntry>) { exists e :: e in es && e.name == [] }

  ghost function Projected(es: seq<TreeEntry>, sha: seq<byte> -> seq<byte>): Result<ProjectedObject, ProjectionError> {
    var sorted := SortBy(es, KeyLe);
    if HasEmptyName(es) then Err(EmptyEntryName)
    else
      match FirstDuplicate(sorted)
      case Some(name) => Err(DuplicateEntryName(name))
      case None =>
        var bytes := ObjectBytes(TreeKind, EncodeEntries(sorted));
        Ok(ProjectedObject(bytes, sha(bytes)))
  }

  method ProjectTree(es: seq<TreeEntry>, sha: seq<byte> -> seq<byte>)
    returns (r: Result<ProjectedObject, ProjectionError>)
    ensures r == Projected(es, sha)
  {
    for i := 0 to |es|
      invariant forall j :: 0 <= j < i ==> es[j].name != []
    {
      if es[i].name == [] { return Err(EmptyEntryName); }
    }
    var sorted := SortBy(es, KeyLe);
    var duplicate := FindDuplicate(sorted);
    if duplicate.Some? { return Err(DuplicateEntryName(duplicate.value)); }
    var content := EncodeAll(sorted);
    var oid, bytes := HashGitObject(TreeKind, content, sha);
    return Ok(ProjectedObject(bytes, oid));
  }

  method FindDuplicate(sorted: seq<TreeEntry>) returns (name: Option<seq<byte>>)
    ensures name == FirstDuplicate(sorted)
  {
    var i := 0;
    assert sorted[0..] == sorted;
    while i + 1 < |sorted|
      invariant 0 <= i <= |sorted|
      invariant FirstDuplicate(sorted[i..]) == FirstDuplicate(sorted)
    {
      assert sorted[i..][0] == sorted[i] && sorted[i..][1] == sorted[i + 1] && sorted[i..][1..] == sorted[i + 1..];
      if sorted[i].name == sorted[i + 1].name { return Some(sorted[i].name); }
      i := i + 1;
    }
    return None;
  }

  lemma EncodeStep(content: seq<byte>, sorted: seq<TreeEntry>, k: nat)
    requires k < |sorted|
    ensures content + EncodeEntries(sorted[k..])
      == ((((content + sorted[k].mode) + [SPACE]) + sorted[k].name) + [NUL]) + sorted[k].oid
         + EncodeEntries(sorted[k + 1..])
  {}

  method EncodeAll(sorted: seq<TreeEntry>) returns (content: seq<byte>)
    ensures content == EncodeEntries(sorted)
  {
    content := [];
    assert sorted[0..] == sorted;
    for k := 0 to |sorted|
      invariant content + EncodeEntries(sorted[k..]) == EncodeEntries(sorted)
    {
      var e := sorted[k];
      EncodeStep(content, sorted, k);
      content := content + e.mode;
      content := content + [SPACE];
      content := content + e.name;
      content := content + [NUL];
      content := content + e.oid;
    }
    assert sorted[|sorted|..] == [] && content + [] == content;
  }

  // ---- Independence from input order ----

  ghost predicate PlainNames(es: seq<TreeEntry>) { forall e :: e in es ==> SLASH !in e.name }

  lemma KeyOrderTotal()
    ensures TotalPreorder(KeyLe) && TotalPreorder(LexLe)
  {
    forall a, b ensures LexLe(a, b) || LexLe(b, a) { LexTrichotomy(a, b); }
    forall a, b, c | LexLe(a, b) && LexLe(b, c) ensures LexLe(a, c) {
      if LexLess(a, b) && LexLess(b, c) { LexTransitive(a, b, c); }
    }
  }

  function Keys(es: seq<TreeEntry>): (ks: seq<seq<int>>)
    ensures |ks| == |es| && forall i :: 0 <= i < |es| ==> ks[i] == SortKey(es[i])
  {
    Map(SortKey, es)
  }

  /** The sorted keys are the same for every arrangement. */
  lemma SortedKeysAgree(a: seq<TreeEntry>, b: seq<TreeEntry>)
    requires multiset(a) == multiset(b)
    ensures Keys(SortBy(a, KeyLe)) == Keys(SortBy(b, KeyLe))
  {
    KeyOrderTotal();
    SortSorts(a, KeyLe);
    SortSorts(b, KeyLe);
    var x, y := SortBy(a, KeyLe), SortBy(b, KeyLe);
    MapPermutes(SortKey, x, y);
    forall k, l | k in Keys(x) && l in Keys(x) && LexLe(k, l) && LexLe(l, k) ensures k == l { LexTrichotomy(k, l); }
    SortedUnique(Keys(x), Keys(y), LexLe);
  }

  /** Without slashes in names, a slash in the key marks a subtree. */
  lemma SlashMarksTree(e: TreeEntry)
    requires SLASH !in e.name
    ensures SLASH in SortKey(e) <==> e.mode == DIR_MODE
    ensures e.name == if e.mode == DIR_MODE then SortKey(e)[..|SortKey(e)| - 1] else SortKey(e)
  {}

  lemma KeyTellsName(a: TreeEntry, b: TreeEntry)
    requires SortKey(a) == SortKey(b) && SLASH !in a.name && SLASH !in b.name
    ensures a.name == b.name
  {
    SlashMarksTree(a);
    SlashMarksTree(b);
  }

  lemma {:induction false} SameKeysSameDuplicate(x: seq<TreeEntry>, y: seq<TreeEntry>)
    requires Keys(x) == Keys(y) && PlainNames(x) && PlainNames(y)
    ensures FirstDuplicate(x) == FirstDuplicate(y)
  {
    assert |x| == |Keys(x)| == |Keys(y)| == |y|;
    if |x| >= 2 {
      assert Keys(x)[0] == Keys(y)[0] && Keys(x)[1] == Keys(y)[1];
      KeyTellsName(x[0], y[0]);
      KeyTellsName(x[1], y[1]);
      assert Keys(x[1..]) == Keys(x)[1..] && Keys(y[1..]) == Keys(y)[1..];
      SameKeysSameDuplicate(x[1..], y[1..]);
    }
  }

  lemma {:induction false} NoNeighbours(x: seq<TreeEntry>, i: nat)
    requires FirstDuplicate(x).None? && i + 1 < |x|
    ensures x[i].name != x[i + 1].name
  {
    if i > 0 { NoNeighbours(x[1..], i - 1); }
  }

  lemma NeighboursIncrease(x: seq<TreeEntry>, i: nat)
    requires Sorted(x, KeyLe) && PlainNames(x) && FirstDuplicate(x).None? && i + 1 < |x|
    ensures LexLess(SortKey(x[i]), SortKey(x[i + 1]))
  {
    NoNeighbours(x, i);
    assert KeyLe(x[i], x[i + 1]) && x[i] in x && x[i + 1] in x;
    if SortKey(x[i]) == SortKey(x[i + 1]) { KeyTellsName(x[i], x[i + 1]); }
  }

  lemma {:induction false} IncreasesTo(x: seq<TreeEntry>, i: nat, j: nat)
    requires Sorted(x, KeyLe) && PlainNames(x) && FirstDuplicate(x).None? && i < j < |x|
    ensures LexLess(SortKey(x[i]), SortKey(x[j]))
    decreases j
  {
    NeighboursIncrease(x, j - 1);
    if i < j - 1 {
      IncreasesTo(x, i, j - 1);
      LexTransitive(SortKey(x[i]), SortKey(x[j - 1]), SortKey(x[j]));
    }
  }

  /** Sorted without equal neighbours: the keys strictly increase. */
  lemma SuccessIncreases(x: seq<TreeEntry>)
    requires Sorted(x, KeyLe) && PlainNames(x) && FirstDuplicate(x).None?
    ensures forall i, j :: 0 <= i < j < |x| ==> LexLess(SortKey(x[i]), SortKey(x[j]))
  {
    forall i, j | 0 <= i < j < |x| ensures LexLess(SortKey(x[i]), SortKey(x[j])) {
      IncreasesTo(x, i, j);
    }
  }

  /** What is written for an entry. */
  function Written(): TreeEntry -> seq<byte> { (e: TreeEntry) => e.mode + [32] + e.name + [0] + e.oid }

  lemma {:induction false} EncodeLaid(es: seq<TreeEntry>) returns (cuts: seq<nat>)
    ensures Laid(Written(), es, EncodeEntries(es), cuts)
  {
    if es == [] {
      cuts := [0];
    } else {
      var rest := EncodeLaid(es[1..]);
      cuts := LaidCons(Written(), es[0], es[1..], EncodeEntries(es[1..]), rest);
      assert [es[0]] + es[1..] == es;
    }
  }

  /** A subtree, whose mode is `40000`, compares as if its name ended in a slash. */
  function Compared(e: TreeEntry): seq<int> { if e.mode == [52, 48, 48, 48, 48] then e.name + [47] else e.name }

  /**
   * A tree object holds mode, space, name, zero byte and id of every entry, one entry behind the other, in ascending
   * order of the compared names.
   */
  lemma ProjectedLayout(es: seq<TreeEntry>, sha: seq<byte> -> seq<byte>)
    returns (sorted: seq<TreeEntry>, content: seq<byte>, cuts: seq<nat>)
    requires Projected(es, sha).Ok?
    ensures multiset(sorted) == multiset(es)
    ensures forall i, j :: 0 <= i < j < |sorted| ==> LexLe(Compared(sorted[i]), Compared(sorted[j]))
    ensures Laid(Written(), sorted, content, cuts)
    ensures IsGitObject(Projected(es, sha).value.bytes, TreeKind, content)
    ensures Projected(es, sha).value.oid == sha(Projected(es, sha).value.bytes)
  {
    KeyOrderTotal();
    SortSorts(es, KeyLe);
    sorted := SortBy(es, KeyLe);
    content := EncodeEntries(sorted);
    cuts := EncodeLaid(sorted);
    ObjectReads(TreeKind, content);
    forall i, j | 0 <= i < j < |sorted| ensures LexLe(Compared(sorted[i]), Compared(sorted[j])) {
      assert KeyLe(sorted[i], sorted[j]);
    }
  }

  /** An empty name is reported first; a reported name is one that two entries share. */
  lemma ProjectionErrors(es: seq<TreeEntry>, sha: seq<byte> -> seq<byte>)
    ensures Projected(es, sha) == Err(EmptyEntryName) <==> exists e :: e in es && e.name == []
    ensures Projected(es, sha).Err? && Projected(es, sha).error.DuplicateEntryName? ==>
      exists i, j :: 0 <= i < j < |es| && es[i].name == es[j].name == Projected(es, sha).error.name
  {
    var sorted := SortBy(es, KeyLe);
    if FirstDuplicate(sorted).Some? {
      SortedPermutes(es);
      var i, j := DuplicateShared(es, sorted);
    }
  }

  lemma SortedPermutes(es: seq<TreeEntry>)
    ensures multiset(SortBy(es, KeyLe)) == multiset(es)
  {
    KeyOrderTotal();
    SortSorts(es, KeyLe);
  }

  lemma DuplicateShared(es: seq<TreeEntry>, sorted: seq<TreeEntry>) returns (i: nat, j: nat)
    requires multiset(sorted) == multiset(es) && FirstDuplicate(sorted).Some?
    ensures i < j < |es| && es[i].name == es[j].name == FirstDuplicate(sorted).value
  {
    var k := DuplicateIndex(sorted);
    i, j := TwoPlaces(es, sorted, k, k + 1);
    if j < i { i, j := j, i; }
  }

  lemma TwoPlaces<T>(s: seq<T>, r: seq<T>, k: nat, l: nat) returns (i: nat, j: nat)
    requires multiset(s) == multiset(r) && k < l < |r|
    ensures i < |s| && j < |s| && i != j && s[i] == r[k] && s[j] == r[l]
  {
    assert r[k] in multiset(s) && r[l] in multiset(s);
    i :| 0 <= i < |s| && s[i] == r[k];
    if r[k] == r[l] {
      assert r == r[..l] + r[l..] && r[..l][k] == r[k] && r[l..][0] == r[l];
      assert multiset(r)[r[k]] >= 2;
      assert s == s[..i] + [s[i]] + s[i + 1..];
      assert multiset(s[..i] + s[i + 1..])[r[k]] >= 1;
      assert r[k] in s[..i] + s[i + 1..];
      j :| 0 <= j < |s| && j != i && s[j] == r[k];
    } else {
      j :| 0 <= j < |s| && s[j] == r[l];
    }
  }

  /** Without a duplicate the sorted arrangement is unique. */
  lemma SuccessSorted(x: seq<TreeEntry>, y: seq<TreeEntry>)
    requires Sorted(x, KeyLe) && Sorted(y, KeyLe) && multiset(x) == multiset(y)
    requires FirstDuplicate(x).None? && PlainNames(x)
    ensures x == y
  {
    SuccessIncreases(x);
    forall e, f | e in x && f in x && KeyLe(e, f) && KeyLe(f, e) ensures e == f {
      var i :| 0 <= i < |x| && x[i] == e;
      var j :| 0 <= j < |x| && x[j] == f;
      LexTrichotomy(SortKey(e), SortKey(f));
    }
    SortedUnique(x, y, KeyLe);
  }

  /** Any permutation of the entries projects to the same object, or to the same error. */
  lemma OrderIrrelevant(a: seq<TreeEntry>, b: seq<TreeEntry>, sha: seq<byte> -> seq<byte>)
    requires multiset(a) == multiset(b) && PlainNames(a)
    ensures Projected(a, sha) == Projected(b, sha)
  {
    forall e ensures e in a <==> e in b { assert e in a <==> e in multiset(b); }
    KeyOrderTotal();
    SortSorts(a, KeyLe);
    SortSorts(b, KeyLe);
    SortedKeysAgree(a, b);
    var x, y := SortBy(a, KeyLe), SortBy(b, KeyLe);
    SameKeysSameDuplicate(x, y);
    if FirstDuplicate(x).None? { SuccessSorted(x, y); }
  }

  // ---- When projection succeeds ----

  /** A key strictly between a file's and a same-named directory's. */
  ghost predicate Separated(es: seq<TreeEntry>, f: TreeEntry, g: TreeEntry) {
    exists e :: e in es && LexLess(SortKey(f), SortKey(e)) && LexLess(SortKey(e), SortKey(g))
  }

  ghost predicate FilesAndDirectoriesApart(es: seq<TreeEntry>) {
    forall f, g :: f in es && g in es && f.name == g.name && f.mode != DIR_MODE && g.mode == DIR_MODE ==>
      Separated(es, f, g)
  }

  lemma SortedSuccess(x: seq<TreeEntry>)
    requires Sorted(x, KeyLe) && PlainNames(x) && FirstDuplicate(x).None?
    ensures NoDuplicates(Keys(x)) && FilesAndDirectoriesApart(x)
  {
    SuccessIncreases(x);
    forall i, j | 0 <= i < |x| && 0 <= j < |x| && Keys(x)[i] == Keys(x)[j] ensures i == j {
      LexTrichotomy(SortKey(x[i]), SortKey(x[j]));
    }
    forall f, g | f in x && g in x && f.name == g.name && f.mode != DIR_MODE && g.mode == DIR_MODE
      ensures Separated(x, f, g)
    {
      SameNameSeparated(x, f, g);
    }
  }

  lemma SeparatedBySet(x: seq<TreeEntry>, y: seq<TreeEntry>)
    requires forall e :: e in x <==> e in y
    ensures FilesAndDirectoriesApart(x) ==> FilesAndDirectoriesApart(y)
  {
    if FilesAndDirectoriesApart(x) {
      forall f, g | f in y && g in y && f.name == g.name && f.mode != DIR_MODE && g.mode == DIR_MODE
        ensures Separated(y, f, g)
      {
        assert Separated(x, f, g);
        var e :| e in x && LexLess(SortKey(f), SortKey(e)) && LexLess(SortKey(e), SortKey(g));
        assert e in y;
      }
    }
  }

  /** Same-named neighbours are caught; a same-named file and directory pass if some key lies between. */
  lemma SuccessExact(es: seq<TreeEntry>, sha: seq<byte> -> seq<byte>)
    requires PlainNames(es)
    ensures Projected(es, sha).Ok? <==>
      !HasEmptyName(es) && NoDuplicates(Keys(es)) && FilesAndDirectoriesApart(es)
  {
    KeyOrderTotal();
    SortSorts(es, KeyLe);
    var x := SortBy(es, KeyLe);
    MapPermutes(SortKey, es, x);
    SeparatedBySet(es, x);
    SeparatedBySet(x, es);
    if FirstDuplicate(x).None? {
      SortedSuccess(x);
      PermutationDistinct(Keys(x), Keys(es));
    } else if NoDuplicates(Keys(es)) {
      PermutationDistinct(Keys(es), Keys(x));
      var f, g := DuplicateNotSeparated(x);
    }
  }

  lemma DirectoryAfterFile(f: TreeEntry, g: TreeEntry)
    requires f.name == g.name && f.mode != DIR_MODE && g.mode == DIR_MODE
    ensures LexLess(SortKey(f), SortKey(g))
  {
    LexConcat(f.name, f.name, [], [SLASH as int]);
    assert f.name + [] == f.name;
  }

  lemma SameNameSeparated(x: seq<TreeEntry>, f: TreeEntry, g: TreeEntry)
    requires Sorted(x, KeyLe) && PlainNames(x) && FirstDuplicate(x).None?
    requires f in x && g in x && f.name == g.name && f.mode != DIR_MODE && g.mode == DIR_MODE
    ensures Separated(x, f, g)
  {
    SuccessIncreases(x);
    DirectoryAfterFile(f, g);
    var i :| 0 <= i < |x| && x[i] == f;
    var j :| 0 <= j < |x| && x[j] == g;
    LexTrichotomy(SortKey(f), SortKey(g));
    assert i < j;
    NoNeighbours(x, i);
    assert x[i + 1] in x;
  }

  /** The first same-named neighbours have nothing between them. */
  lemma DuplicateNotSeparated(x: seq<TreeEntry>) returns (f: TreeEntry, g: TreeEntry)
    requires Sorted(x, KeyLe) && FirstDuplicate(x).Some? && NoDuplicates(Keys(x))
    ensures f in x && g in x && f.name == g.name && f.mode != DIR_MODE && g.mode == DIR_MODE
    ensures !Separated(x, f, g)
  {
    var i := DuplicateIndex(x);
    f, g := x[i], x[i + 1];
    assert Keys(x)[i] != Keys(x)[i + 1] && KeyLe(f, g);
    if f.mode == DIR_MODE { DirectoryAfterFile(g, f); LexTrichotomy(SortKey(f), SortKey(g)); }
    forall e | e in x ensures !(LexLess(SortKey(f), SortKey(e)) && LexLess(SortKey(e), SortKey(g))) {
      var k :| 0 <= k < |x| && x[k] == e;
      assert k <= i ==> LexLe(SortKey(e), SortKey(f));
      assert k > i ==> LexLe(SortKey(g), SortKey(e));
      LexTrichotomy(SortKey(e), SortKey(f));
      LexTrichotomy(SortKey(e), SortKey(g));
    }
  }

  lemma {:induction false} DuplicateIndex(x: seq<TreeEntry>) returns (i: nat)
    requires FirstDuplicate(x).Some?
    ensures i + 1 < |x| && x[i].name == x[i + 1].name && FirstDuplicate(x) == Some(x[i].name)
  {
    if x[0].name == x[1].name {
      i := 0;
    } else {
      var j := DuplicateIndex(x[1..]);
      i := j + 1;
    }
  }

  // ---- Unique decoding ----

  /** Splits at the first `stop`. */
  function TakeUntil(b: seq<byte>, stop: byte): (r: Option<(seq<byte>, seq<byte>)>)
    ensures r.Some? ==> |r.value.1| < |b|
  {
    if b == [] then None
    else if b[0] == stop then Some(([], b[1..]))
    else
      match TakeUntil(b[1..], stop)
      case None => None
      case Some((x, y)) => Some(([b[0]] + x, y))
  }

  lemma {:induction false} TakeUntilStops(x: seq<byte>, stop: byte, y: seq<byte>)
    requires stop !in x
    ensures TakeUntil(x + [stop] + y, stop) == Some((x, y))
  {
    var b := x + [stop] + y;
    if x == [] {
      assert b[1..] == y;
    } else {
      assert b[0] == x[0] && b[1..] == x[1..] + [stop] + y;
      assert x[0] in x;
      TakeUntilStops(x[1..], stop, y);
      assert x == [x[0]] + x[1..];
    }
  }

  /** Reads a tree object's content back into entries. */
  function DecodeEntries(b: seq<byte>): Option<seq<TreeEntry>>
    decreases |b|
  {
    if b == [] then Some([])
    else
      match TakeUntil(b, SPACE)
      case None => None
      case Some((mode, b1)) =>
        match TakeUntil(b1, NUL)
        case None => None
        case Some((name, b2)) =>
          if |b2| < 20 then None
          else
            match DecodeEntries(b2[20..])
            case None => None
            case Some(rest) => Some([TreeEntry(mode, name, b2[..20])] + rest)
  }

  ghost predicate WellFormedEntry(e: TreeEntry) { SPACE !in e.mode && NUL !in e.name && |e.oid| == 20 }

  lemma {:induction false} DecodeEncode(es: seq<TreeEntry>)
    requires forall e :: e in es ==> WellFormedEntry(e)
    ensures DecodeEntries(EncodeEntries(es)) == Some(es)
  {
    if es != [] {
      var e, rest := es[0], EncodeEntries(es[1..]);
      assert e in es;
      var b := EncodeEntries(es);
      var after := e.name + [NUL] + (e.oid + rest);
      assert b == e.mode + [SPACE] + after;
      TakeUntilStops(e.mode, SPACE, after);
      TakeUntilStops(e.name, NUL, e.oid + rest);
      assert (e.oid + rest)[..20] == e.oid && (e.oid + rest)[20..] == rest;
      DecodeEncode(es[1..]);
      assert es == [e] + es[1..];
    }
  }

  /** Splits an object into its tag and content. */
  function DecodeObject(b: seq<byte>): Option<(seq<byte>, seq<byte>)> {
    match TakeUntil(b, SPACE)
    case None => None
    case Some((tag, rest)) =>
      match TakeUntil(rest, NUL)
      case None => None
      case Some((_, content)) => Some((tag, content))
  }

  lemma ObjectDecodes(kind: ObjectKind, content: seq<byte>)
    ensures DecodeObject(ObjectBytes(kind, content)) == Some((HeaderTag(kind), content))
  {
    var digits := Ascii(Decimal(|content|));
    var rest := digits + [NUL] + content;
    assert ObjectBytes(kind, content) == HeaderTag(kind) + [SPACE] + rest;
    TakeUntilStops(HeaderTag(kind), SPACE, rest);
    TakeUntilStops(digits, NUL, content);
  }

  /** Equal object bytes mean equal kind and content. */
  lemma ObjectsInjective(k: ObjectKind, c: seq<byte>, l: ObjectKind, d: seq<byte>)
    requires ObjectBytes(k, c) == ObjectBytes(l, d)
    ensures k == l && c == d
  {
    ObjectDecodes(k, c);
    ObjectDecodes(l, d);
    assert BLOB_TAG[0] != TREE_TAG[0];
  }

  // ---- Nested directory trees ----

  datatype GitNode = Blob(content: seq<byte>) | Tree(children: seq<Child>)

  datatype Child = Child(mode: seq<byte>, name: seq<byte>, node: GitNode)

  function NodeBytes(n: GitNode, sha: seq<byte> -> seq<byte>): seq<byte>
    decreases n
  {
    match n
    case Blob(c) => ProjectBlob(c, sha).bytes
    case Tree(cs) => ObjectBytes(TreeKind, EncodeEntries(SortBy(EntriesOf(cs, sha), KeyLe)))
  }

  function EntriesOf(cs: seq<Child>, sha: seq<byte> -> seq<byte>): (es: seq<TreeEntry>)
    ensures |es| == |cs|
    decreases cs
  {
    if cs == [] then []
    else [TreeEntry(cs[0].mode, cs[0].name, sha(NodeBytes(cs[0].node, sha)))] + EntriesOf(cs[1..], sha)
  }

  /** The object id of a directory tree, built bottom-up. */
  function Oid(n: GitNode, sha: seq<byte> -> seq<byte>): seq<byte> { sha(NodeBytes(n, sha)) }

  /** A successful projection of a directory's entries is its object. */
  lemma ProjectedIsNode(cs: seq<Child>, sha: seq<byte> -> seq<byte>)
    requires Projected(EntriesOf(cs, sha), sha).Ok?
    ensures Projected(EntriesOf(cs, sha), sha).value == ProjectedObject(NodeBytes(Tree(cs), sha), Oid(Tree(cs), sha))
  {}

  // ---- Equal roots mean equal trees ----

  ghost predicate WellFormedNode(n: GitNode)
    decreases n
  {
    n.Tree? ==> WellFormedChildren(n.children)
  }

  ghost predicate WellFormedChildren(cs: seq<Child>)
    decreases cs
  {
    cs == [] || (SPACE !in cs[0].mode && NUL !in cs[0].name && WellFormedNode(cs[0].node)
      && WellFormedChildren(cs[1..]))
  }

  /** The bytes of every object of the tree. */
  ghost function AllBytes(n: GitNode, sha: seq<byte> -> seq<byte>): set<seq<byte>>
    decreases n
  {
    {NodeBytes(n, sha)} + (if n.Tree? then ChildrenBytes(n.children, sha) else {})
  }

  ghost function ChildrenBytes(cs: seq<Child>, sha: seq<byte> -> seq<byte>): set<seq<byte>>
    decreases cs
  {
    if cs == [] then {} else AllBytes(cs[0].node, sha) + ChildrenBytes(cs[1..], sha)
  }

  ghost predicate CollisionFree(objects: set<seq<byte>>, sha: seq<byte> -> seq<byte>) {
    forall x, y :: x in objects && y in objects && sha(x) == sha(y) ==> x == y
  }

  predicate ChildLe(a: Child, b: Child) {
    LexLe(SortKey(TreeEntry(a.mode, a.name, [])), SortKey(TreeEntry(b.mode, b.name, [])))
  }

  /** Children in git order at every level. */
  function Canon(n: GitNode): GitNode
    decreases n
  {
    match n
    case Blob(_) => n
    case Tree(cs) => Tree(SortBy(CanonAll(cs), ChildLe))
  }

  function CanonAll(cs: seq<Child>): (r: seq<Child>)
    ensures |r| == |cs|
    ensures forall i :: 0 <= i < |cs| ==> r[i].mode == cs[i].mode && r[i].name == cs[i].name
    decreases cs
  {
    if cs == [] then [] else [cs[0].(node := Canon(cs[0].node))] + CanonAll(cs[1..])
  }

  /** Entry and canonical child, side by side, in the order of the entries. */
  ghost predicate Matches(es: seq<TreeEntry>, ks: seq<Child>, cs: seq<Child>, sha: seq<byte> -> seq<byte>) {
    && |es| == |ks|
    && forall i :: 0 <= i < |es| ==> Paired(es[i], ks[i], cs, sha)
  }

  ghost predicate Paired(e: TreeEntry, k: Child, cs: seq<Child>, sha: seq<byte> -> seq<byte>) {
    exists c :: c in cs && MatchesAt(e, k, c, sha)
  }

  ghost predicate MatchesAt(e: TreeEntry, k: Child, c: Child, sha: seq<byte> -> seq<byte>) {
    && e == TreeEntry(c.mode, c.name, Oid(c.node, sha))
    && k == Child(c.mode, c.name, Canon(c.node))
  }

  lemma MatchesTail(es: seq<TreeEntry>, ks: seq<Child>, cs: seq<Child>, sha: seq<byte> -> seq<byte>)
    requires es != [] && Matches(es, ks, cs, sha)
    ensures Matches(es[1..], ks[1..], cs, sha)
  {}

  lemma MatchesCons(e: TreeEntry, k: Child, c: Child, es: seq<TreeEntry>, ks: seq<Child>, cs: seq<Child>,
                    sha: seq<byte> -> seq<byte>)
    requires MatchesAt(e, k, c, sha) && c in cs && Matches(es, ks, cs, sha)
    ensures Matches([e] + es, [k] + ks, cs, sha)
  {}

  lemma {:induction false} InsertMatches(e: TreeEntry, k: Child, c: Child, es: seq<TreeEntry>, ks: seq<Child>,
                                         cs: seq<Child>, sha: seq<byte> -> seq<byte>)
    requires MatchesAt(e, k, c, sha) && c in cs && Matches(es, ks, cs, sha)
    ensures Matches(Insert(e, es, KeyLe), Insert(k, ks, ChildLe), cs, sha)
  {
    if es == [] {
      MatchesCons(e, k, c, es, ks, cs, sha);
    } else {
      assert Paired(es[0], ks[0], cs, sha);
      var c0 :| c0 in cs && MatchesAt(es[0], ks[0], c0, sha);
      assert KeyLe(e, es[0]) == ChildLe(k, ks[0]);
      if KeyLe(e, es[0]) {
        MatchesCons(e, k, c, es, ks, cs, sha);
      } else {
        MatchesTail(es, ks, cs, sha);
        InsertMatches(e, k, c, es[1..], ks[1..], cs, sha);
        MatchesCons(es[0], ks[0], c0, Insert(e, es[1..], KeyLe), Insert(k, ks[1..], ChildLe), cs, sha);
      }
    }
  }

  /** Sorting entries and sorting canonical children go in step. */
  lemma {:induction false} SortMatches(cs: seq<Child>, all: seq<Child>, sha: seq<byte> -> seq<byte>)
    requires forall c :: c in cs ==> c in all
    ensures Matches(SortBy(EntriesOf(cs, sha), KeyLe), SortBy(CanonAll(cs), ChildLe), all, sha)
  {
    if cs != [] {
      assert cs[0] in cs;
      SortMatches(cs[1..], all, sha);
      var es, ks := EntriesOf(cs, sha), CanonAll(cs);
      assert es[1..] == EntriesOf(cs[1..], sha) && ks[1..] == CanonAll(cs[1..]);
      assert MatchesAt(es[0], ks[0], cs[0], sha);
      InsertMatches(es[0], ks[0], cs[0], SortBy(es[1..], KeyLe), SortBy(ks[1..], ChildLe), all, sha);
    }
  }

  lemma {:induction false} ChildFacts(cs: seq<Child>, c: Child, sha: seq<byte> -> seq<byte>)
    requires WellFormedChildren(cs) && c in cs
    ensures SPACE !in c.mode && NUL !in c.name && WellFormedNode(c.node)
    ensures AllBytes(c.node, sha) <= ChildrenBytes(cs, sha)
    decreases cs
  {
    if c != cs[0] { ChildFacts(cs[1..], c, sha); }
  }

  ghost predicate TwentyBytes(sha: seq<byte> -> seq<byte>) { forall x :: |sha(x)| == 20 }

  /** Equal ids without collisions among the objects involved: the same tree, up to listing order. */
  lemma {:induction false} EqualOidsEqualTrees(a: GitNode, b: GitNode, sha: seq<byte> -> seq<byte>)
    requires WellFormedNode(a) && WellFormedNode(b) && TwentyBytes(sha)
    requires CollisionFree(AllBytes(a, sha) + AllBytes(b, sha), sha)
    requires Oid(a, sha) == Oid(b, sha)
    ensures Canon(a) == Canon(b)
    decreases a
  {
    assert NodeBytes(a, sha) == NodeBytes(b, sha);
    match (a, b) {
      case (Blob(c), Blob(d)) => ObjectsInjective(BlobKind, c, BlobKind, d);
      case (Tree(cs), Tree(ds)) => EqualTreesEqualChildren(a, b, sha);
      case (Blob(c), Tree(ds)) => KindsDiffer(c, ds, sha);
      case (Tree(cs), Blob(d)) => KindsDiffer(d, cs, sha);
    }
  }

  lemma KindsDiffer(c: seq<byte>, cs: seq<Child>, sha: seq<byte> -> seq<byte>)
    ensures NodeBytes(Blob(c), sha) != NodeBytes(Tree(cs), sha)
  {
    assert NodeBytes(Blob(c), sha)[0] == 98 && NodeBytes(Tree(cs), sha)[0] == 116;
  }

  lemma MatchedEntriesWellFormed(es: seq<TreeEntry>, ks: seq<Child>, cs: seq<Child>, sha: seq<byte> -> seq<byte>)
    requires Matches(es, ks, cs, sha) && WellFormedChildren(cs) && TwentyBytes(sha)
    ensures forall e :: e in es ==> WellFormedEntry(e)
  {
    forall e | e in es ensures WellFormedEntry(e) {
      var i :| 0 <= i < |es| && es[i] == e;
      var c :| c in cs && MatchesAt(es[i], ks[i], c, sha);
      ChildFacts(cs, c, sha);
    }
  }

  lemma {:induction false} EqualTreesEqualChildren(a: GitNode, b: GitNode, sha: seq<byte> -> seq<byte>)
    requires a.Tree? && b.Tree? && WellFormedNode(a) && WellFormedNode(b) && TwentyBytes(sha)
    requires CollisionFree(AllBytes(a, sha) + AllBytes(b, sha), sha)
    requires NodeBytes(a, sha) == NodeBytes(b, sha)
    ensures Canon(a) == Canon(b)
    decreases a, 1
  {
    var cs, ds := a.children, b.children;
    var x, y := SortBy(EntriesOf(cs, sha), KeyLe), SortBy(EntriesOf(ds, sha), KeyLe);
    var k, l := SortBy(CanonAll(cs), ChildLe), SortBy(CanonAll(ds), ChildLe);
    SortMatches(cs, cs, sha);
    SortMatches(ds, ds, sha);
    MatchedEntriesWellFormed(x, k, cs, sha);
    MatchedEntriesWellFormed(y, l, ds, sha);
    SameEntries(x, y);
    forall i | 0 <= i < |x| ensures k[i] == l[i] {
      var c :| c in cs && MatchesAt(x[i], k[i], c, sha);
      var d :| d in ds && MatchesAt(y[i], l[i], d, sha);
      EqualChildren(a, b, sha, c, d);
    }
  }

  lemma {:induction false} EqualChildren(a: GitNode, b: GitNode, sha: seq<byte> -> seq<byte>, c: Child, d: Child)
    requires a.Tree? && b.Tree? && WellFormedNode(a) && WellFormedNode(b) && TwentyBytes(sha)
    requires CollisionFree(AllBytes(a, sha) + AllBytes(b, sha), sha)
    requires c in a.children && d in b.children && Oid(c.node, sha) == Oid(d.node, sha)
    ensures Canon(c.node) == Canon(d.node)
    decreases a, 0
  {
    ChildFacts(a.children, c, sha);
    ChildFacts(b.children, d, sha);
    ChildSmaller(a, c);
    assert AllBytes(c.node, sha) <= AllBytes(a, sha) && AllBytes(d.node, sha) <= AllBytes(b, sha);
    EqualOidsEqualTrees(c.node, d.node, sha);
  }

  lemma ChildSmaller(n: GitNode, c: Child)
    requires n.Tree? && c in n.children
    ensures c.node < n
  {}

  lemma SameEntries(x: seq<TreeEntry>, y: seq<TreeEntry>)
    requires forall e :: e in x || e in y ==> WellFormedEntry(e)
    requires ObjectBytes(TreeKind, EncodeEntries(x)) == ObjectBytes(TreeKind, EncodeEntries(y))
    ensures x == y
  {
    ObjectsInjective(TreeKind, EncodeEntries(x), TreeKind, EncodeEntries(y));
    DecodeEncode(x);
    DecodeEncode(y);
  }

  // ---- Contents at every path ----

  datatype Found = FoundBlob(content: seq<byte>) | FoundTree

  /** What sits at a path of (mode, name) steps. */
  ghost function At(n: GitNode, path: seq<(seq<byte>, seq<byte>)>): set<Found>
    decreases n, |path|
  {
    if path == [] then {if n.Blob? then FoundBlob(n.content) else FoundTree}
    else if n.Blob? then {}
    else AtAny(n.children, path)
  }

  ghost function AtAny(cs: seq<Child>, path: seq<(seq<byte>, seq<byte>)>): set<Found>
    requires path != []
    decreases cs, |path|
  {
    if cs == [] then {}
    else (if (cs[0].mode, cs[0].name) == path[0] then At(cs[0].node, path[1..]) else {}) + AtAny(cs[1..], path)
  }

  lemma {:induction false} AtAnyInsert(c: Child, cs: seq<Child>, path: seq<(seq<byte>, seq<byte>)>)
    requires path != []
    ensures AtAny(Insert(c, cs, ChildLe), path) == AtAny([c], path) + AtAny(cs, path)
  {
    assert [c][1..] == [];
    if cs != [] && !ChildLe(c, cs[0]) {
      AtAnyInsert(c, cs[1..], path);
      var r := [cs[0]] + Insert(c, cs[1..], ChildLe);
      assert r[0] == cs[0] && r[1..] == Insert(c, cs[1..], ChildLe);
    } else {
      assert ([c] + cs)[0] == c && ([c] + cs)[1..] == cs;
    }
  }

  lemma {:induction false} AtAnySort(cs: seq<Child>, path: seq<(seq<byte>, seq<byte>)>)
    requires path != []
    ensures AtAny(SortBy(cs, ChildLe), path) == AtAny(cs, path)
  {
    if cs != [] {
      AtAnySort(cs[1..], path);
      AtAnyInsert(cs[0], SortBy(cs[1..], ChildLe), path);
      assert [cs[0]][1..] == [];
    }
  }

  /** The canonical form has the same contents at every path. */
  lemma {:induction false} CanonKeepsContents(n: GitNode, path: seq<(seq<byte>, seq<byte>)>)
    ensures At(Canon(n), path) == At(n, path)
    decreases n, |path|
  {
    if path != [] && n.Tree? {
      CanonAllKeepsContents(n.children, path);
      AtAnySort(CanonAll(n.children), path);
    }
  }

  lemma {:induction false} CanonAllKeepsContents(cs: seq<Child>, path: seq<(seq<byte>, seq<byte>)>)
    requires path != []
    ensures AtAny(CanonAll(cs), path) == AtAny(cs, path)
    decreases cs, |path|
  {
    if cs != [] {
      CanonKeepsContents(cs[0].node, path[1..]);
      CanonAllKeepsContents(cs[1..], path);
      assert CanonAll(cs)[1..] == CanonAll(cs[1..]);
    }
  }

  /** Two directory trees with the same root id have the same modes and contents at every path. */
  lemma EqualRootsEqualContents(a: GitNode, b: GitNode, sha: seq<byte> -> seq<byte>, path: seq<(seq<byte>, seq<byte>)>)
    requires WellFormedNode(a) && WellFormedNode(b) && TwentyBytes(sha)
    requires CollisionFree(AllBytes(a, sha) + AllBytes(b, sha), sha)
    requires Oid(a, sha) == Oid(b, sha)
    ensures At(a, path) == At(b, path)
  {
    EqualOidsEqualTrees(a, b, sha);
    CanonKeepsContents(a, path);
    CanonKeepsContents(b, path);
  }

  const FILE_MODE: seq<byte> := [49, 48, 48, 54, 52, 52]             // "100644"
  const FOO: seq<byte> := [102, 111, 111]                             // "foo"
  const FOO_BAR: seq<byte> := [102, 111, 111, 45, 98, 97, 114]        // "foo-bar"

  /** A file and a directory may share a name when another key sorts between them. */
  lemma SameNameCanPass(oid: seq<byte>, sha: seq<byte> -> seq<byte>)
    ensures
      var es := [TreeEntry(FILE_MODE, FOO, oid), TreeEntry(FILE_MODE, FOO_BAR, oid), TreeEntry(DIR_MODE, FOO, oid)];
      Projected(es, sha).Ok?
  {
    assert FILE_MODE[0] != DIR_MODE[0];
    var f, m, g := TreeEntry(FILE_MODE, FOO, oid), TreeEntry(FILE_MODE, FOO_BAR, oid), TreeEntry(DIR_MODE, FOO, oid);
    var es := [f, m, g];
    assert FOO_BAR == FOO + [45, 98, 97, 114];
    LexConcat(FOO, FOO, [], [45, 98, 97, 114]);
    LexConcat(FOO, FOO, [45, 98, 97, 114], [SLASH as int]);
    assert FOO + [] == FOO;
    assert LexLess(SortKey(f), SortKey(m)) && LexLess(SortKey(m), SortKey(g));
    LexTransitive(SortKey(f), SortKey(m), SortKey(g));
    assert Sorted(es, KeyLe);
    SortedStays(es, KeyLe);
    assert |FOO| != |FOO_BAR|;
    assert es[1..] == [m, g] && es[1..][1..] == [g];
    assert FirstDuplicate([m, g]).None? by { assert [m, g][1..] == [g]; }
    assert FirstDuplicate(es).None?;
    forall e | e in es ensures e.name != [] {}
  }
}
