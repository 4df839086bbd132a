/** The imported file tree: artifact metadata, file content, and the canonical order. */
module ExactTree {
  import opened Wrappers
  import opened Bytes
  import opened Ordering
  import opened Sequences

  datatype LineEndings = Lf | Crlf | Mixed | NotApplicable

  datatype ExactArtifact = ExactArtifact(
    procedureId: string,
    blob: string,
    mode: string,
    encoding: string,
    isSymlink: bool,
    symlinkTarget: Option<string>,
    originalPath: string,
    lineEndings: LineEndings)

  datatype ImportedFile = ImportedFile(artifact: ExactArtifact, blob: seq<byte>)

  datatype ImportedTree = ImportedTree(directories: seq<string>, files: seq<ImportedFile>)

  predicate PathLe(a: ImportedFile, b: ImportedFile) {
    TextLe(a.artifact.originalPath, b.artifact.originalPath)
  }

  /** Directories and files in ascending path order. */
  function Canonicalize(t: ImportedTree): ImportedTree {
    ImportedTree(SortBy(t.directories, TextLe), SortBy(t.files, PathLe))
  }

  lemma OrdersTotal()
    ensures TotalPreorder(TextLe) && TotalPreorder(PathLe)
  {
    forall a: string, b: string ensures TextLe(a, b) || TextLe(b, a) { TextOrder(a, b); }
    forall a: string, b: string, c: string | TextLe(a, b) && TextLe(b, c) ensures TextLe(a, c) {
      TextTransitive(a, b, c);
    }
  }

  /** Both lists ascend by path. */
  lemma CanonicalOrder(t: ImportedTree)
    ensures var c := Canonicalize(t);
      && (forall i, j :: 0 <= i < j < |c.directories| ==> TextLe(c.directories[i], c.directories[j]))
      && (forall i, j :: 0 <= i < j < |c.files| ==>
            TextLe(c.files[i].artifact.originalPath, c.files[j].artifact.originalPath))
      && multiset(c.directories) == multiset(t.directories) && multiset(c.files) == multiset(t.files)
  {
    OrdersTotal();
    SortSorts(t.directories, TextLe);
    SortSorts(t.files, PathLe);
    var c := Canonicalize(t);
    forall i, j | 0 <= i < j < |c.files| ensures PathLe(c.files[i], c.files[j]) {}
  }

  ghost predicate DistinctFilePaths(files: seq<ImportedFile>) {
    forall f, g :: f in files && g in files && f.artifact.originalPath == g.artifact.originalPath ==> f == g
  }

  /** Two trees with the same entries have one canonical form. */
  lemma CanonicalUnique(s: ImportedTree, t: ImportedTree)
    requires NoDuplicates(s.directories) && NoDuplicates(t.directories)
    requires NoDuplicates(s.files) && NoDuplicates(t.files) && DistinctFilePaths(s.files)
    requires forall p :: p in s.directories <==> p in t.directories
    requires forall f :: f in s.files <==> f in t.files
    ensures Canonicalize(s) == Canonicalize(t)
  {
    OrdersTotal();
    SameElements(s.directories, t.directories);
    SameElements(s.files, t.files);
    forall a, b | a in s.directories && b in s.directories && TextLe(a, b) && TextLe(b, a) ensures a == b {
      TextOrder(a, b);
    }
    forall a, b | a in s.files && b in s.files && PathLe(a, b) && PathLe(b, a) ensures a == b {
      TextOrder(a.artifact.originalPath, b.artifact.originalPath);
    }
    SortForgetsOrder(s.directories, t.directories, TextLe);
    SortForgetsOrder(s.files, t.files, PathLe);
  }
}
