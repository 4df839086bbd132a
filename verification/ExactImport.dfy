/** Importing a directory tree exactly, and materializing it again. */
module ExactImport {
  import opened Wrappers
  import opened Bytes
  import opened Ordering
  import opened Sequences
  import opened ExactTree
  import opened FileSystem

  // ---- Modes ----

  function OctalDigit(n: nat): (c: char)
    requires n < 8
    ensures '0' <= c <= '7' && c as int - 48 == n
  {
    ('0' as int + n) as char
  }

  /** The low nine permission bits, as four octal digits. */
  function ModeText(mode: nat): (s: string)
    ensures |s| == 4 && s[0] == '0' && forall c :: c in s ==> '0' <= c <= '7'
    ensures (s[1] as int - 48) * 64 + (s[2] as int - 48) * 8 + (s[3] as int - 48) == mode % 512
  {
    var m := mode % 512;
    OctalSplit(m);
    ['0', OctalDigit(m / 64), OctalDigit(m / 8 % 8), OctalDigit(m % 8)]
  }

  lemma OctalSplit(m: nat)
    requires m < 512
    ensures m / 64 < 8 && m / 64 * 64 + m / 8 % 8 * 8 + m % 8 == m
  {
    assert m / 8 / 8 == m / 64;
  }

  function OctalValue(s: string): Option<nat> {
    if s == [] then Some(0)
    else if !('0' <= s[|s| - 1] <= '7') then None
    else
      match OctalValue(s[..|s| - 1])
      case None => None
      case Some(v) => Some(v * 8 + (s[|s| - 1] as int - '0' as int))
  }

  /** Base-8 parsing of a 32-bit number, with an optional plus sign. */
  function ParseOctal(s: string): Option<nat> {
    var digits := if s != [] && s[0] == '+' then s[1..] else s;
    if digits == [] then None
    else
      match OctalValue(digits)
      case Some(v) => if v < 0x1_0000_0000 then Some(v) else None
      case None => None
  }

  lemma OctalStep(s: string, v: nat, d: nat)
    requires OctalValue(s) == Some(v) && d < 8
    ensures OctalValue(s + [OctalDigit(d)]) == Some(v * 8 + d)
  {
    assert (s + [OctalDigit(d)])[..|s|] == s;
  }

  lemma OctalDigits(m: nat)
    requires m < 512
    ensures m / 64 < 8 && m == (m / 64 * 8 + m / 8 % 8) * 8 + m % 8
  {}

  lemma ModeRoundTrip(mode: nat)
    ensures ParseOctal(ModeText(mode)) == Some(mode % 512)
  {
    var m := mode % 512;
    var a, b, c := m / 64, m / 8 % 8, m % 8;
    OctalDigits(m);
    OctalStep("", 0, 0);
    OctalStep([OctalDigit(0)], 0, a);
    OctalStep([OctalDigit(0)] + [OctalDigit(a)], a, b);
    OctalStep([OctalDigit(0)] + [OctalDigit(a)] + [OctalDigit(b)], a * 8 + b, c);
    assert "" + [OctalDigit(0)] == [OctalDigit(0)];
    assert ModeText(mode) == [OctalDigit(0)] + [OctalDigit(a)] + [OctalDigit(b)] + [OctalDigit(c)];
  }

  // ---- Line endings ----

  const LF: byte := 10
  const CR: byte := 13

  ghost predicate CrlfAt(content: seq<byte>, i: int) {
    0 < i < |content| && content[i] == LF && content[i - 1] == CR
  }

  ghost predicate LoneLfAt(content: seq<byte>, i: int) {
    0 <= i < |content| && content[i] == LF && (i == 0 || content[i - 1] != CR)
  }

  /** Text without a line break counts as ending lines with LF. */
  ghost predicate EndingsFit(content: seq<byte>, encoding: string, e: LineEndings) {
    && (e.NotApplicable? <==> encoding == "binary")
    && (e.Mixed? <==> encoding != "binary" && (exists i :: CrlfAt(content, i)) && (exists i :: LoneLfAt(content, i)))
    && (e.Crlf? <==> encoding != "binary" && (exists i :: CrlfAt(content, i)) && !(exists i :: LoneLfAt(content, i)))
    && (e.Lf? <==> encoding != "binary" && !(exists i :: CrlfAt(content, i)))
  }

  /** Text without any newline counts as LF. */
  method DetectLineEndings(content: seq<byte>, encoding: string) returns (e: LineEndings)
    ensures EndingsFit(content, encoding, e)
  {
    if encoding == "binary" { return NotApplicable; }
    var hasCrlf, hasLoneLf := false, false;
    var i := 0;
    while i < |content|
      invariant 0 <= i <= |content|
      invariant hasCrlf <==> exists j :: j < i && CrlfAt(content, j)
      invariant hasLoneLf <==> exists j :: j < i && LoneLfAt(content, j)
    {
      if content[i] == LF {
        if i > 0 && content[i - 1] == CR {
          assert CrlfAt(content, i);
          hasCrlf := true;
        } else {
          assert LoneLfAt(content, i);
          hasLoneLf := true;
        }
      }
      i := i + 1;
    }
    return if hasCrlf && hasLoneLf then Mixed else if hasCrlf then Crlf else Lf;
  }

  // ---- Importing ----

  /** The content hash and the UTF-8 test, as given functions. */
  datatype Probe = Probe(contentHash: seq<byte> -> string, isUtf8: seq<byte> -> bool)

  /** The artifact and blob record one file or link exactly. */
  ghost predicate Captures(f: ImportedFile, p: Path, e: DiskEntry, probe: Probe) {
    var a := f.artifact;
    && a.originalPath == Join(p)
    && match e
       case Dir => false
       case Link(target) =>
         && a.isSymlink && a.symlinkTarget == Some(target) && f.blob == []
         && a.blob == probe.contentHash([]) && a.encoding == "binary" && a.lineEndings == NotApplicable
         && a.mode == "0777"
       case File(content, mode) =>
         && !a.isSymlink && a.symlinkTarget == None && f.blob == content
         && a.blob == probe.contentHash(content) && a.mode == ModeText(mode)
         && a.encoding == (if probe.isUtf8(content) then "utf-8" else "binary")
         && EndingsFit(content, a.encoding, a.lineEndings)
  }

  /** The tree lists every entry outside `todo` once, and nothing else. */
  ghost predicate DescribesPart(d: Disk, todo: set<Path>, t: ImportedTree, probe: Probe) {
    && NoDuplicates(t.directories) && NoDuplicates(t.files) && DistinctFilePaths(t.files)
    && (forall s :: s in t.directories ==>
          (var p := Split(s); p in d && p !in todo && d[p].Dir? && s == Join(p)))
    && (forall f :: f in t.files ==>
          (var p := Split(f.artifact.originalPath); p in d && p !in todo && Captures(f, p, d[p], probe)))
    && (forall p :: p in d && p !in todo && d[p].Dir? ==> Join(p) in t.directories)
    && (forall p :: p in d && p !in todo && !d[p].Dir? ==>
          exists f :: f in t.files && f.artifact.originalPath == Join(p))
  }

  /** The tree lists every entry of the disk once, and nothing else. */
  ghost predicate Describes(d: Disk, t: ImportedTree, probe: Probe) {
    DescribesPart(d, {}, t, probe)
  }

  ghost predicate OwnIds(t: ImportedTree, ids: seq<string>, used: nat)
    requires used <= |ids|
  {
    && (forall f :: f in t.files ==> f.artifact.procedureId in ids[..used])
    && (forall f, g :: f in t.files && g in t.files && f.artifact.procedureId == g.artifact.procedureId ==> f == g)
  }

  lemma SplitOfEntry(d: Disk, p: Path)
    requires WellFormed(d) && p in d
    ensures Split(Join(p)) == p
  {
    SplitJoin(p);
  }

  lemma NoDuplicatesSnoc<T>(s: seq<T>, x: T)
    requires NoDuplicates(s) && x !in s
    ensures NoDuplicates(s + [x])
  {}

  lemma AddDirectoryDescribes(d: Disk, todo: set<Path>, t: ImportedTree, probe: Probe, p: Path)
    requires WellFormed(d) && DescribesPart(d, todo, t, probe) && p in todo && p in d && d[p].Dir?
    ensures DescribesPart(d, todo - {p}, t.(directories := t.directories + [Join(p)]), probe)
  {
    SplitOfEntry(d, p);
    NoDuplicatesSnoc(t.directories, Join(p));
  }

  lemma AddFileDescribes(d: Disk, todo: set<Path>, t: ImportedTree, probe: Probe, p: Path, f: ImportedFile)
    requires WellFormed(d) && DescribesPart(d, todo, t, probe) && p in todo && p in d && Captures(f, p, d[p], probe)
    ensures DescribesPart(d, todo - {p}, t.(files := t.files + [f]), probe)
  {
    SplitOfEntry(d, p);
    NoDuplicatesSnoc(t.files, f);
    var t' := t.(files := t.files + [f]);
    forall q | q in d && q !in todo - {p} && !d[q].Dir?
      ensures exists g :: g in t'.files && g.artifact.originalPath == Join(q)
    {
      if q == p {
        assert f in t'.files;
      } else {
        var g :| g in t.files && g.artifact.originalPath == Join(q);
        assert g in t'.files;
      }
    }
  }

  lemma FreshId(t: ImportedTree, ids: seq<string>, used: nat, f: ImportedFile)
    requires NoDuplicates(ids) && used < |ids| && OwnIds(t, ids, used) && f.artifact.procedureId == ids[used]
    ensures OwnIds(t.(files := t.files + [f]), ids, used + 1)
    ensures f !in t.files
  {}

  lemma CanonicalDescribes(d: Disk, t: ImportedTree, probe: Probe)
    requires Describes(d, t, probe)
    ensures Describes(d, Canonicalize(t), probe)
    ensures Canonicalize(Canonicalize(t)) == Canonicalize(t)
    ensures forall f :: f in t.files <==> f in Canonicalize(t).files
  {
    OrdersTotal();
    SortSorts(t.directories, TextLe);
    SortSorts(t.files, PathLe);
    PermutationDistinct(t.directories, SortBy(t.directories, TextLe));
    PermutationDistinct(t.files, SortBy(t.files, PathLe));
    SortedStays(SortBy(t.directories, TextLe), TextLe);
    SortedStays(SortBy(t.files, PathLe), PathLe);
    var t' := Canonicalize(t);
    forall p | p in d && !d[p].Dir? ensures exists f :: f in t'.files && f.artifact.originalPath == Join(p) {
      var f :| f in t.files && f.artifact.originalPath == Join(p);
      assert f in t'.files;
    }
  }

  function LinkFile(p: Path, target: string, id: string, probe: Probe): ImportedFile {
    ImportedFile(
      ExactArtifact(id, probe.contentHash([]), ModeText(511), "binary", true, Some(target), Join(p), NotApplicable), [])
  }

  method ImportEntry(p: Path, e: DiskEntry, id: string, probe: Probe) returns (file: ImportedFile)
    requires !e.Dir?
    ensures Captures(file, p, e, probe) && file.artifact.procedureId == id
  {
    match e {
      case Link(target) => return LinkFile(p, target, id, probe);
      case File(content, mode) =>
        var encoding := if probe.isUtf8(content) then "utf-8" else "binary";
        var endings := DetectLineEndings(content, encoding);
        return ImportedFile(
          ExactArtifact(id, probe.contentHash(content), ModeText(mode), encoding, false, None, Join(p), endings),
          content);
    }
  }

  /** One walk over all entries, in whatever order the walk yields them; each file takes a fresh id. */
  method ImportTree(d: Disk, ids: seq<string>, probe: Probe) returns (tree: ImportedTree)
    requires WellFormed(d) && NoDuplicates(ids) && |ids| >= |d|
    ensures Describes(d, tree, probe)
    ensures Canonicalize(tree) == tree
    ensures forall i, j :: 0 <= i < j < |tree.directories| ==> TextLe(tree.directories[i], tree.directories[j])
    ensures forall i, j :: 0 <= i < j < |tree.files| ==>
      TextLe(tree.files[i].artifact.originalPath, tree.files[j].artifact.originalPath)
    ensures forall f :: f in tree.files ==> f.artifact.procedureId in ids
    ensures forall f, g :: f in tree.files && g in tree.files && f.artifact.procedureId == g.artifact.procedureId ==>
      f == g
  {
    tree := ImportedTree([], []);
    var todo, used: nat := d.Keys, 0;
    while todo != {}
      invariant todo <= d.Keys && used + |todo| <= |ids|
      invariant DescribesPart(d, todo, tree, probe) && OwnIds(tree, ids, used)
      decreases todo
    {
      var p :| p in todo;
      if d[p].Dir? {
        AddDirectoryDescribes(d, todo, tree, probe, p);
        tree := tree.(directories := tree.directories + [Join(p)]);
      } else {
        var file := ImportEntry(p, d[p], ids[used], probe);
        AddFileDescribes(d, todo, tree, probe, p, file);
        FreshId(tree, ids, used, file);
        tree, used := tree.(files := tree.files + [file]), used + 1;
      }
      todo := todo - {p};
    }
    CanonicalDescribes(d, tree, probe);
    CanonicalOrder(tree);
    tree := Canonicalize(tree);
  }
}
