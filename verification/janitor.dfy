/** What deleteFileOrDir does to the filesystem: a missing path is left alone,
    a plain file is removed, a directory has each immediate child removed
    (File.delete, which fails on a non-empty directory, so nothing recurses)
    and is then removed itself if that left it empty. */
module Janitor {
  import opened Columns

  /** The immediate children of d. */
  function Children(fs: FileSystem, parent: string -> string, d: string): set<string>
  {
    set c | c in fs.Keys && c != d && parent(c) == d
  }

  /** File.delete succeeds: the path exists and is a file or an empty directory. */
  predicate Deletable(fs: FileSystem, parent: string -> string, c: string)
  {
    c in fs && (fs[c] == File || Children(fs, parent, c) == {})
  }

  /** The filesystem after deleteFileOrDir(p). */
  function AfterDeleteFileOrDir(fs: FileSystem, parent: string -> string, p: string): (after: FileSystem)
    ensures p !in fs ==> after == fs
    ensures forall q :: q in after ==> q in fs && after[q] == fs[q]
    ensures forall q :: q in fs && q !in after ==>
              q == p || (fs[p] == Dir && q in Children(fs, parent, p))
    ensures p in fs && fs[p] == File ==> after == fs - {p}
    ensures p in fs && fs[p] == Dir ==>
              forall c :: c in Children(fs, parent, p) ==> (c in after <==> !Deletable(fs, parent, c))
    ensures p in fs && fs[p] == Dir ==>
              (p !in after <==> forall c :: c in Children(fs, parent, p) ==> Deletable(fs, parent, c))
  {
    if p !in fs then fs
    else if fs[p] == File then fs - {p}
    else
      var gone := set c | c in Children(fs, parent, p) && Deletable(fs, parent, c);
      var rest := fs - gone;
      assert forall c :: c in Children(rest, parent, p) <==>
                         c in Children(fs, parent, p) && !Deletable(fs, parent, c);
      if Children(rest, parent, p) == {} then rest - {p} else rest
  }

  /** A directory holding only files goes entirely: its files, then itself. */
  lemma FlatDirectoryRemoved(fs: FileSystem, parent: string -> string, p: string)
    requires p in fs && fs[p] == Dir
    requires forall c :: c in Children(fs, parent, p) ==> fs[c] == File
    ensures var after := AfterDeleteFileOrDir(fs, parent, p);
      p !in after && forall c :: c in Children(fs, parent, p) ==> c !in after
  {
    forall c | c in Children(fs, parent, p)
      ensures Deletable(fs, parent, c)
    {
    }
  }

  /** A directory holding a non-empty subdirectory survives, and so does that
      subdirectory: nothing recurses. */
  lemma NestedDirectorySurvives(fs: FileSystem, parent: string -> string, p: string, sub: string, g: string)
    requires p in fs && fs[p] == Dir
    requires sub in fs && sub != p && parent(sub) == p && fs[sub] == Dir
    requires g in fs && g != sub && parent(g) == sub
    ensures var after := AfterDeleteFileOrDir(fs, parent, p);
      p in after && sub in after
  {
    assert sub in Children(fs, parent, p);
    assert g in Children(fs, parent, sub);
    assert !Deletable(fs, parent, sub);
  }

  /** Removing paths whose parent is d does not change whether any other
      child of d is deletable: siblings are not each other's children. */
  lemma SiblingsUnaffected(fs: FileSystem, parent: string -> string, d: string, gone: set<string>, c: string)
    requires forall g :: g in gone ==> parent(g) == d
    requires c in fs && c !in gone && c != d && parent(c) == d
    ensures Deletable(fs - gone, parent, c) <==> Deletable(fs, parent, c)
  {
    assert Children(fs - gone, parent, c) == Children(fs, parent, c);
  }

  /** The filesystem after deleteFileOrDir on each path of ps in turn. */
  function DeleteAll(fs: FileSystem, parent: string -> string, ps: seq<string>): (after: FileSystem)
    ensures forall q :: q in after ==> q in fs && after[q] == fs[q]
    ensures forall q :: q in fs && q !in ps && (forall i :: 0 <= i < |ps| ==> parent(q) != ps[i]) ==>
              q in after
    decreases |ps|
  {
    if ps == [] then fs
    else DeleteAll(AfterDeleteFileOrDir(fs, parent, ps[0]), parent, ps[1..])
  }

  /** Deleting one more path after a batch is deleting the longer batch. */
  lemma {:induction false} DeleteAllSnoc(fs: FileSystem, parent: string -> string, ps: seq<string>, p: string)
    ensures DeleteAll(fs, parent, ps + [p]) == AfterDeleteFileOrDir(DeleteAll(fs, parent, ps), parent, p)
    decreases |ps|
  {
    if ps == [] {
      assert ps + [p] == [p];
    } else {
      assert (ps + [p])[1..] == ps[1..] + [p];
      DeleteAllSnoc(AfterDeleteFileOrDir(fs, parent, ps[0]), parent, ps[1..], p);
    }
  }
}
