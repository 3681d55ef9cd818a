/**
  The folder tree the program works on, as values: every entry under the base
  folder is a path (the sequence of its name components, relative to the base
  folder, which is the path `[]`) mapped to a file with its timestamp or to a
  directory. A well-formed tree has the parent of every entry present as a
  directory.
 */
module FileTree {

  type Path = seq<string>

  /** A file carries the timestamp the renamer sorts by (its creation time where
      the platform records one, its modification time otherwise). */
  datatype Entry = File(timestamp: int) | Dir

  type Tree = map<Path, Entry>

  function Parent(p: Path): Path
    requires p != []
  {
    p[..|p| - 1]
  }

  /** `d` is `q` or an ancestor of `q`. */
  predicate IsPrefix(d: Path, q: Path)
  {
    |d| <= |q| && q[..|d|] == d
  }

  lemma PrefixTransitive(a: Path, b: Path, c: Path)
    requires IsPrefix(a, b) && IsPrefix(b, c)
    ensures IsPrefix(a, c)
  {
    assert c[..|a|] == c[..|b|][..|a|];
  }

  /** Every entry other than the base folder sits in a directory of the tree. */
  ghost predicate WellFormed(m: Tree)
  {
    forall p {:trigger Parent(p)} :: p in m && p != [] ==> Parent(p) in m && m[Parent(p)].Dir?
  }

  /** `p` has at least one entry directly inside it (Python's `any(p.iterdir())`). */
  predicate HasChildren(m: Tree, p: Path)
  {
    exists c :: c in m && c != [] && Parent(c) == p
  }

  /** The set of paths of files. */
  function Files(m: Tree): set<Path>
  {
    set p | p in m && m[p].File?
  }

  /** In a well-formed tree every ancestor of an entry is present, and every
      proper ancestor is a directory. */
  lemma {:induction false} AncestorPresent(m: Tree, q: Path, n: nat)
    requires WellFormed(m) && q in m && n <= |q|
    ensures q[..n] in m
    ensures n < |q| ==> m[q[..n]].Dir?
  {
    if n < |q| {
      var p := Parent(q);
      if n < |p| {
        AncestorPresent(m, p, n);
        assert p[..n] == q[..n];
      } else {
        assert q[..n] == p;
      }
    } else {
      assert q[..n] == q;
    }
  }

  /** A well-formed tree with any entry below the base folder has the base
      folder as a directory. */
  lemma RootIsDir(m: Tree, p: Path)
    requires WellFormed(m) && p in m && p != []
    ensures [] in m && m[[]].Dir?
  {
    AncestorPresent(m, p, 0);
  }

  /** An entry strictly below `p` means `p` has a child: a directory without
      children has no entries below it at all. */
  lemma DescendantMeansChild(m: Tree, p: Path)
    requires WellFormed(m)
    ensures forall q {:trigger IsPrefix(p, q)} :: q in m && IsPrefix(p, q) && q != p ==> HasChildren(m, p)
  {
    forall q | q in m && IsPrefix(p, q) && q != p
      ensures HasChildren(m, p)
    {
      var c := q[..|p| + 1];
      AncestorPresent(m, q, |p| + 1);
      assert Parent(c) == p;
    }
  }

  /** The tree after renaming the entry at `src` to `dst`. */
  function Moved(m: Tree, src: Path, dst: Path): (r: Tree)
    requires src in m
    ensures r.Keys == m.Keys - {src} + {dst}
    ensures r[dst] == m[src]
    ensures forall p :: p != src && p != dst ==> (p in r <==> p in m) && (p in m ==> r[p] == m[p])
  {
    (m - {src})[dst := m[src]]
  }

  /** Moving a file to a free name directly in the base folder keeps the tree
      well-formed, since a file has no entries below it. */
  lemma MovedWellFormed(m: Tree, src: Path, dst: Path)
    requires WellFormed(m) && src in m && m[src].File? && src != []
    requires dst !in m && |dst| == 1
    ensures WellFormed(Moved(m, src, dst))
  {
    RootIsDir(m, src);
    var r := Moved(m, src, dst);
    forall p | p in r && p != [] ensures Parent(p) in r && r[Parent(p)].Dir? {
      if p != dst {
        assert Parent(p) != src;
      }
    }
  }

  /** A move that does not overwrite anything keeps the number of files. */
  lemma MovedFiles(m: Tree, src: Path, dst: Path)
    requires src in m && m[src].File? && dst !in m
    ensures Files(Moved(m, src, dst)) == Files(m) - {src} + {dst}
    ensures |Files(Moved(m, src, dst))| == |Files(m)|
  {
    var fs := Files(m);
    assert Files(Moved(m, src, dst)) == fs - {src} + {dst};
    assert |fs - {src}| == |fs| - 1;
  }

  /** Removing a directory without children keeps the tree well-formed. */
  lemma RemovedWellFormed(m: Tree, p: Path)
    requires WellFormed(m) && p in m && p != [] && !HasChildren(m, p)
    ensures WellFormed(m - {p})
  {
  }

  /** A tree obtained by removing only directories below the base folder has the
      same files, and keeps the base folder. */
  lemma OnlyDirsRemoved(m: Tree, m': Tree)
    requires m'.Keys <= m.Keys
    requires forall p :: p in m' ==> m'[p] == m[p]
    requires forall p :: p in m && p !in m' ==> p != [] && m[p].Dir?
    ensures Files(m') == Files(m)
    ensures [] in m ==> [] in m'
  {
  }
}
