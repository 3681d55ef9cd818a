/**
  The renumbering run: collect the image files anywhere below the base folder,
  sort them stably by timestamp, move the i-th of them to `{i}{suffix}` directly
  in the base folder (bumping a counter, `{i}_1{suffix}`, `{i}_2{suffix}`, ...,
  while the name is taken by another entry), then remove the directories that
  are empty, deepest first.
 */
module PhotoNumbering {
  import opened Names
  import opened Sorting
  import opened FileTree

  /** One collected image file: where it is and the timestamp it is sorted by. */
  datatype Photo = Photo(path: Path, timestamp: int)

  /** How a run ends: the base folder is missing, no image file was found (both
      before anything is changed), or the files were renamed and the empty
      directories cleaned up, with the two counts the run reports. */
  datatype Outcome = NotFound | NoPhotos | Done(processed: nat, removed: nat)

  /** `p` is a file below the base folder whose name has a recognised image
      extension. */
  predicate IsPhoto(m: Tree, p: Path)
  {
    p != [] && p in m && m[p].File? && IsImageName(p[|p| - 1])
  }

  /** The image files of `listing`, in listing order, with their timestamps. */
  function SelectPhotos(listing: seq<Path>, m: Tree): (r: seq<Photo>)
    ensures |r| <= |listing|
  {
    if listing == [] then []
    else
      var p := listing[|listing| - 1];
      SelectPhotos(listing[..|listing| - 1], m) +
        (if IsPhoto(m, p) then [Photo(p, m[p].timestamp)] else [])
  }

  /** Selection: a record is collected iff its path is listed and is an image
      file, and its timestamp is that file's. */
  /** Selection keeps listing order: the selection of two listings one after
      the other is the one selection followed by the other. */
  lemma {:induction false} SelectPhotosConcat(a: seq<Path>, b: seq<Path>, m: Tree)
    ensures SelectPhotos(a + b, m) == SelectPhotos(a, m) + SelectPhotos(b, m)
  {
    if b == [] {
      assert a + b == a;
    } else {
      var init := b[..|b| - 1];
      SelectPhotosConcat(a, init, m);
      assert (a + b)[..|a + b| - 1] == a + init;
    }
  }

  lemma {:induction false} SelectPhotosMembers(listing: seq<Path>, m: Tree, r: Photo)
    ensures r in SelectPhotos(listing, m) <==>
      r.path in listing && IsPhoto(m, r.path) && r.timestamp == m[r.path].timestamp
  {
    if listing != [] {
      var init := listing[..|listing| - 1];
      assert listing == init + [listing[|listing| - 1]];
      SelectPhotosMembers(init, m, r);
    }
  }

  /** When the listing enumerates the tree, the collected paths are exactly the
      image files below the base folder: directories and other files are never
      collected. */
  lemma SelectionIsImageFiles(listing: seq<Path>, m: Tree, p: Path)
    requires forall q :: q in listing <==> q in m && q != []
    ensures (exists r :: r in SelectPhotos(listing, m) && r.path == p) <==>
      p in m && m[p].File? && p != [] && IsImageName(p[|p| - 1])
  {
    if p in m && m[p].File? && p != [] && IsImageName(p[|p| - 1]) {
      SelectPhotosMembers(listing, m, Photo(p, m[p].timestamp));
    }
    forall r | r in SelectPhotos(listing, m) && r.path == p ensures IsPhoto(m, p) {
      SelectPhotosMembers(listing, m, r);
    }
  }

  function Timestamp(r: Photo): int
  {
    r.timestamp
  }

  /** The key that orders deepest paths first (Python sorts by the number of
      path parts with `reverse=True`, which is stable as well). */
  function DepthDescending(p: Path): int
  {
    -|p|
  }

  /** No collected record has path `p`. */
  ghost predicate NotCollected(photos: seq<Photo>, p: Path)
  {
    forall r :: r in photos ==> r.path != p
  }

  /** Every entry below `d`, and `d`, is a directory that the cleanup listing
      contains and that can be removed. */
  ghost predicate CleanBelow(m: Tree, d: Path, listing: seq<Path>, undeletable: set<Path>)
  {
    forall q {:trigger IsPrefix(d, q)} :: q in m && IsPrefix(d, q) ==> m[q].Dir? && q in listing && q !in undeletable
  }

  /** The collision loop stops at counter value k: the candidate name for k is
      free or is the file's own path, and for every smaller value the candidate
      was taken by another entry. This fixes k uniquely. */
  ghost predicate FirstFree(m: Tree, index: nat, suffix: string, src: Path, k: nat)
  {
    ([CandidateName(index, suffix, k)] !in m || [CandidateName(index, suffix, k)] == src) &&
    forall j :: 0 <= j < k ==>
      [CandidateName(index, suffix, j)] in m && [CandidateName(index, suffix, j)] != src
  }

  lemma FirstFreeUnique(m: Tree, index: nat, suffix: string, src: Path, j: nat, k: nat)
    requires FirstFree(m, index, suffix, src, j) && FirstFree(m, index, suffix, src, k)
    ensures j == k
  {
  }

  /** The names the collision loop has tried and found taken after n bumps. */
  ghost function TriedNames(index: nat, suffix: string, n: nat): set<Path>
  {
    if n == 0 then {} else TriedNames(index, suffix, n - 1) + {[CandidateName(index, suffix, n - 1)]}
  }

  /** The candidate for a counter value not reached yet has not been tried. */
  lemma {:induction false} NotYetTried(index: nat, suffix: string, n: nat, k: nat)
    requires k >= n
    ensures [CandidateName(index, suffix, k)] !in TriedNames(index, suffix, n)
  {
    if n > 0 {
      NotYetTried(index, suffix, n - 1, k);
      if CandidateName(index, suffix, k) == CandidateName(index, suffix, n - 1) {
        CandidateNameInjective(index, suffix, k, n - 1);
      }
    }
  }

  lemma SmallerRemainder(keys: set<Path>, tried: set<Path>, t: Path)
    requires t in keys && t !in tried
    ensures |keys - (tried + {t})| < |keys - tried|
  {
    assert keys - (tried + {t}) == (keys - tried) - {t};
  }

  /** The timestamp order of the collected files is a stable permutation. */
  lemma PhotoSortIsStable(photos: seq<Photo>)
    ensures multiset(SortBy(photos, Timestamp)) == multiset(photos)
    ensures SortedBy(SortBy(photos, Timestamp), Timestamp)
    ensures forall t :: WithKey(SortBy(photos, Timestamp), Timestamp, t) == WithKey(photos, Timestamp, t)
  {
    forall t ensures WithKey(SortBy(photos, Timestamp), Timestamp, t) == WithKey(photos, Timestamp, t) {
      SortByStable(photos, Timestamp, t);
    }
  }

  /** In the deepest-first order no entry after position i is deeper than the
      entry at i. */
  lemma DeeperComesFirst(order: seq<Path>, i: nat, j: nat)
    requires SortedBy(order, DepthDescending)
    ensures i < j < |order| ==> |order[j]| <= |order[i]|
  {
    if i < j < |order| {
      assert DepthDescending(order[i]) <= DepthDescending(order[j]);
    }
  }

  /** The cleanup visits every listed entry exactly as often as it is listed, in
      non-increasing depth, keeping the listing order among entries of equal
      depth. */
  lemma CleanupOrder(listing: seq<Path>)
    ensures var order := SortBy(listing, DepthDescending);
      multiset(order) == multiset(listing) &&
      (forall i, j :: 0 <= i < j < |order| ==> |order[j]| <= |order[i]|) &&
      (forall t :: WithKey(order, DepthDescending, t) == WithKey(listing, DepthDescending, t))
  {
    var order := SortBy(listing, DepthDescending);
    forall i, j | 0 <= i < j < |order| ensures |order[j]| <= |order[i]| {
      DeeperComesFirst(order, i, j);
    }
    forall t ensures WithKey(order, DepthDescending, t) == WithKey(listing, DepthDescending, t) {
      SortByStable(listing, DepthDescending, t);
    }
  }

  /** When the entry at position i of the deepest-first order is a directory
      that is clean below, every child it had was visited earlier and, by the
      loop's invariant, is already gone; so at its turn it has no children. */
  lemma ChildrenRemovedFirst(order: seq<Path>, i: nat, initial: Tree, current: Tree,
                             listing: seq<Path>, undeletable: set<Path>)
    requires i < |order|
    requires SortedBy(order, DepthDescending) && multiset(order) == multiset(listing)
    requires current.Keys <= initial.Keys
    requires forall d :: d in order[..i] && d != [] && CleanBelow(initial, d, listing, undeletable) ==>
      d !in current
    ensures order[i] != [] && CleanBelow(initial, order[i], listing, undeletable) ==>
      !HasChildren(current, order[i])
  {
    var p := order[i];
    forall c | c in initial && c != [] && Parent(c) == p && CleanBelow(initial, p, listing, undeletable)
      ensures c in order[..i] && CleanBelow(initial, c, listing, undeletable)
    {
      assert IsPrefix(p, c);
      forall q | q in initial && IsPrefix(c, q) ensures IsPrefix(p, q) {
        PrefixTransitive(p, c, q);
      }
      assert c in multiset(order);
      var j :| 0 <= j < |order| && order[j] == c;
      DeeperComesFirst(order, i, j);
      assert c == order[..i][j];
    }
  }

  /** What the cleanup loop keeps between `initial` and the `current` tree after
      visiting `visited` and counting `removed`: only directories below the base
      folder that were listed and removable are gone, nothing else changed, a
      removed directory has nothing left below it, the count is the number of
      entries gone, and every visited directory that was clean below is gone. */
  ghost predicate CleanupInvariant(initial: Tree, current: Tree, listing: seq<Path>, undeletable: set<Path>,
                                   visited: seq<Path>, removed: nat)
  {
    current.Keys <= initial.Keys &&
    (forall p :: p in current ==> current[p] == initial[p]) &&
    (forall p :: p in initial && p !in current ==>
      p != [] && initial[p].Dir? && p in listing && p !in undeletable) &&
    (forall p, q {:trigger IsPrefix(p, q)} :: p in initial && p !in current && q in initial && IsPrefix(p, q) ==> q !in current) &&
    removed == |initial.Keys - current.Keys| &&
    (forall d :: d in visited && d != [] && CleanBelow(initial, d, listing, undeletable) ==> d !in current)
  }

  /** Removing an empty, removable directory `p` keeps the cleanup invariant. */
  lemma CleanupRemove(initial: Tree, before: Tree, listing: seq<Path>, undeletable: set<Path>,
                      visited: seq<Path>, removed: nat, p: Path)
    requires WellFormed(before)
    requires CleanupInvariant(initial, before, listing, undeletable, visited, removed)
    requires p in listing && p != [] && p in before && before[p].Dir? && !HasChildren(before, p) && p !in undeletable
    ensures CleanupInvariant(initial, before - {p}, listing, undeletable, visited + [p], removed + 1)
  {
    var after := before - {p};
    DescendantMeansChild(before, p);
    assert initial.Keys - after.Keys == (initial.Keys - before.Keys) + {p};
    forall q | q in initial && q !in after
      ensures q != [] && initial[q].Dir? && q in listing && q !in undeletable
    {
      if q != p {
        assert q !in before;
      }
    }
    forall p', q | p' in initial && p' !in after && q in initial && IsPrefix(p', q)
      ensures q !in after
    {
      if p' != p {
        assert p' !in before;
      }
    }
    forall d | d in visited + [p] && d != [] && CleanBelow(initial, d, listing, undeletable)
      ensures d !in after
    {
      if d != p {
        assert d in visited;
      }
    }
  }

  /** Visiting `p` without removing it keeps the cleanup invariant: a `p` that is
      clean below has no children at its turn, so it is kept only when it is
      already gone. */
  lemma CleanupKeep(initial: Tree, before: Tree, listing: seq<Path>, undeletable: set<Path>,
                    visited: seq<Path>, removed: nat, p: Path)
    requires CleanupInvariant(initial, before, listing, undeletable, visited, removed)
    requires p != [] && CleanBelow(initial, p, listing, undeletable) ==> !HasChildren(before, p)
    requires !(p != [] && p in before && before[p].Dir? && !HasChildren(before, p) && p !in undeletable)
    ensures CleanupInvariant(initial, before, listing, undeletable, visited + [p], removed)
  {
    assert IsPrefix(p, p);
    forall d | d in visited + [p] && d != [] && CleanBelow(initial, d, listing, undeletable)
      ensures d !in before
    {
      if d != p {
        assert d in visited;
      }
    }
  }

  /** The visit of position i of the deepest-first order keeps the cleanup
      invariant, whether it removed the entry there or not. */
  lemma CleanupVisit(order: seq<Path>, i: nat, initial: Tree, before: Tree, listing: seq<Path>,
                     undeletable: set<Path>, removed: nat, gone: bool)
    requires i < |order|
    requires SortedBy(order, DepthDescending) && multiset(order) == multiset(listing)
    requires WellFormed(before)
    requires CleanupInvariant(initial, before, listing, undeletable, order[..i], removed)
    requires var p := order[i];
      gone == (p != [] && p in before && before[p].Dir? && !HasChildren(before, p) && p !in undeletable)
    ensures CleanupInvariant(initial, if gone then before - {order[i]} else before, listing, undeletable,
                             order[..i + 1], if gone then removed + 1 else removed)
  {
    var p := order[i];
    assert order[..i + 1] == order[..i] + [p];
    assert p in multiset(listing);
    ChildrenRemovedFirst(order, i, initial, before, listing, undeletable);
    if gone {
      CleanupRemove(initial, before, listing, undeletable, order[..i], removed, p);
    } else {
      CleanupKeep(initial, before, listing, undeletable, order[..i], removed, p);
    }
  }

  /** Once every listed entry has been visited, the invariant speaks of the whole
      listing. */
  lemma CleanupVisitedAll(initial: Tree, current: Tree, listing: seq<Path>, undeletable: set<Path>,
                          order: seq<Path>, removed: nat)
    requires CleanupInvariant(initial, current, listing, undeletable, order, removed)
    requires multiset(order) == multiset(listing)
    ensures current.Keys <= initial.Keys
    ensures forall p :: p in current ==> current[p] == initial[p]
    ensures forall p :: p in initial && p !in current ==>
      p != [] && initial[p].Dir? && p in listing && p !in undeletable
    ensures forall p, q {:trigger IsPrefix(p, q)} :: p in initial && p !in current && q in initial && IsPrefix(p, q) ==>
      q !in current
    ensures removed == |initial.Keys - current.Keys|
    ensures forall d :: d in listing && d != [] && CleanBelow(initial, d, listing, undeletable) ==>
      d !in current
    ensures CleanedUp(initial, current, listing, undeletable, removed)
  {
    forall d | d in listing ensures d in order {
      assert d in multiset(order);
    }
  }

  /** What the cleanup pass over `listing` leaves behind: the cleanup invariant
      with every listed entry visited. */
  ghost predicate CleanedUp(initial: Tree, current: Tree, listing: seq<Path>, undeletable: set<Path>,
                            removed: nat)
  {
    CleanupInvariant(initial, current, listing, undeletable, listing, removed)
  }

  /** The sorted selection holds the same records as the selection, all of them
      with an image name. */
  lemma SortedSelection(listing: seq<Path>, m: Tree)
    ensures var selected := SelectPhotos(listing, m);
      var sorted := SortBy(selected, Timestamp);
      |sorted| == |selected| &&
      (forall r :: r in sorted ==> r.path != [] && IsImageName(r.path[|r.path| - 1])) &&
      (forall p :: NotCollected(selected, p) ==> NotCollected(sorted, p))
  {
    var selected := SelectPhotos(listing, m);
    var sorted := SortBy(selected, Timestamp);
    forall r | r in sorted ensures r in selected && r.path != [] && IsImageName(r.path[|r.path| - 1]) {
      assert r in multiset(selected);
      SelectPhotosMembers(listing, m, r);
    }
  }

  /** What the renaming loop keeps between `initial` and the `current` tree: the
      base folder stays, no file is lost, and every new entry sits directly in
      the base folder. */
  ghost predicate RenameInvariant(initial: Tree, current: Tree)
  {
    ([] in initial ==> [] in current) &&
    |Files(current)| == |Files(initial)| &&
    (forall p :: p in current && p !in initial ==> |p| == 1)
  }

  /** One step of the renaming loop keeps the invariant: it moves a collected file
      to a free name directly in the base folder, or changes nothing. */
  lemma RenameStep(initial: Tree, photos: seq<Photo>, failing: set<Path>, n: nat, before: Tree,
                   target: Path, k: nat, ok: bool, after: Tree)
    requires n < |photos| && RenameInvariant(initial, before)
    requires Step(photos, failing, n, before, target, k, ok, after)
    ensures RenameInvariant(initial, after)
  {
    var src := photos[n].path;
    if ok && target != src {
      assert target !in before;
      MovedFiles(before, src, target);
      forall p | p in after && p !in initial ensures |p| == 1 {
        if p != target {
          assert p in before;
        }
      }
    }
  }

  /** One step of the renaming loop for the file at `src` with sequence number
      `index`, from tree `before` to tree `after`: the collision loop stopped at
      counter value k with the name `target`; the step counts (`ok`) iff the file
      already has that name or is still a file whose move does not fail; and the
      file is moved exactly when the step counts and the file does not have
      that name already. */
  ghost predicate MoveStep(index: nat, src: Path, failing: set<Path>, before: Tree,
                           target: Path, k: nat, ok: bool, after: Tree)
    requires src != []
  {
    target == [CandidateName(index, Suffix(src[|src| - 1]), k)] &&
    FirstFree(before, index, Suffix(src[|src| - 1]), src, k) &&
    ok == (target == src || (src in before && before[src].File? && src !in failing)) &&
    after == if ok && target != src then Moved(before, src, target) else before
  }

  /** Step n of the renaming loop handles record n with sequence number n + 1. */
  ghost predicate Step(photos: seq<Photo>, failing: set<Path>, n: nat, before: Tree,
                       target: Path, k: nat, ok: bool, after: Tree)
    requires n < |photos|
  {
    photos[n].path != [] && MoveStep(n + 1, photos[n].path, failing, before, target, k, ok, after)
  }

  /** A step is determined by the tree it starts from, its record and the
      failing moves: the counter value, the name chosen, whether it counts and
      the tree it leaves are the same whichever way the step is taken. */
  lemma StepDeterministic(photos: seq<Photo>, failing: set<Path>, n: nat, before: Tree,
                          target: Path, k: nat, ok: bool, after: Tree,
                          target': Path, k': nat, ok': bool, after': Tree)
    requires n < |photos|
    requires Step(photos, failing, n, before, target, k, ok, after)
    requires Step(photos, failing, n, before, target', k', ok', after')
    ensures k == k' && target == target' && ok == ok' && after == after'
  {
    var src := photos[n].path;
    FirstFreeUnique(before, n + 1, Suffix(src[|src| - 1]), src, k, k');
  }

  /** The renaming loop's record of its first |targets| steps, starting from
      `initial`: step j went from `trees[j]` to `trees[j + 1]`, tried names up
      to counter value `ks[j]`, chose `targets[j]` and counted iff `oks[j]`. */
  ghost predicate Trace(initial: Tree, photos: seq<Photo>, failing: set<Path>, trees: seq<Tree>,
                        targets: seq<Path>, ks: seq<nat>, oks: seq<bool>)
  {
    var n := |targets|;
    n <= |photos| && |ks| == n && |oks| == n && |trees| == n + 1 && trees[0] == initial &&
    forall j {:trigger targets[j]} :: 0 <= j < n ==>
      Step(photos, failing, j, trees[j], targets[j], ks[j], oks[j], trees[j + 1])
  }

  /** A trace grows by the step just taken. */
  lemma TraceStep(initial: Tree, photos: seq<Photo>, failing: set<Path>, trees: seq<Tree>,
                  targets: seq<Path>, ks: seq<nat>, oks: seq<bool>,
                  target: Path, k: nat, ok: bool, after: Tree)
    requires Trace(initial, photos, failing, trees, targets, ks, oks) && |targets| < |photos|
    requires Step(photos, failing, |targets|, trees[|targets|], target, k, ok, after)
    ensures Trace(initial, photos, failing, trees + [after], targets + [target], ks + [k], oks + [ok])
  {
    var n := |targets|;
    var trees', targets', ks', oks' := trees + [after], targets + [target], ks + [k], oks + [ok];
    forall j | 0 <= j < n + 1
      ensures Step(photos, failing, j, trees'[j], targets'[j], ks'[j], oks'[j], trees'[j + 1])
    {
      if j < n {
        assert trees'[j] == trees[j] && trees'[j + 1] == trees[j + 1];
        assert targets'[j] == targets[j] && ks'[j] == ks[j] && oks'[j] == oks[j];
      }
    }
  }

  /** The number of records that counted. */
  function CountTrue(oks: seq<bool>): (c: nat)
    ensures c <= |oks|
    ensures c == |oks| <==> forall j :: 0 <= j < |oks| ==> oks[j]
  {
    if oks == [] then 0
    else CountTrue(oks[..|oks| - 1]) + if oks[|oks| - 1] then 1 else 0
  }

  lemma CountTrueAppend(oks: seq<bool>, ok: bool)
    ensures CountTrue(oks + [ok]) == CountTrue(oks) + if ok then 1 else 0
  {
    assert (oks + [ok])[..|oks|] == oks;
  }

  /** No record's file is one whose move fails. */
  ghost predicate NoneFailing(photos: seq<Photo>, failing: set<Path>)
  {
    forall r :: r in photos ==> r.path !in failing
  }

  /** No two records of `photos` are for the same path. */
  ghost predicate DistinctPaths(photos: seq<Photo>)
  {
    forall a, b :: 0 <= a < b < |photos| ==> photos[a].path != photos[b].path
  }

  /** The records from position i on are for files of `initial` that are still
      where they were, unchanged, in `current`. */
  ghost predicate Pending(initial: Tree, current: Tree, photos: seq<Photo>, i: nat)
  {
    forall j :: i <= j < |photos| ==>
      photos[j].path in initial && initial[photos[j].path].File? &&
      photos[j].path in current && current[photos[j].path] == initial[photos[j].path]
  }

  /** Where step j has put the file of record j, as seen in `current`, in a run
      over records for distinct files that were all present at the start: the
      record counted iff its file already had its name or its move did not fail;
      if it counted, its file is under its target name; if not, its file is
      unchanged where it was; and a moved file's old path is gone unless some
      target reused it. */
  ghost predicate PlacedAt(initial: Tree, current: Tree, photos: seq<Photo>, failing: set<Path>,
                           targets: seq<Path>, oks: seq<bool>, j: nat)
    requires j < |photos| && j < |targets| && j < |oks|
  {
    var src := photos[j].path;
    src in initial &&
    oks[j] == (targets[j] == src || src !in failing) &&
    (oks[j] ==> targets[j] in current && current[targets[j]] == initial[src]) &&
    (!oks[j] ==> src in current && current[src] == initial[src]) &&
    (oks[j] && targets[j] != src && src !in targets ==> src !in current)
  }

  /** Where the first |targets| steps have put the files: each record so far is
      placed, and the files of the records still to come are untouched and carry
      none of the names chosen so far. */
  ghost predicate Placed(initial: Tree, current: Tree, photos: seq<Photo>, failing: set<Path>,
                         targets: seq<Path>, oks: seq<bool>)
  {
    var n := |targets|;
    n <= |photos| && |oks| == n &&
    Pending(initial, current, photos, n) &&
    (forall j, m :: 0 <= j < n <= m < |photos| ==> targets[j] != photos[m].path) &&
    forall j :: 0 <= j < n ==> PlacedAt(initial, current, photos, failing, targets, oks, j)
  }

  /** Whatever the records, the renaming changes nothing but the collected files
      and the names chosen: an entry under any other name was there before,
      unchanged, and an entry other than a collected file is still there,
      unchanged. */
  ghost predicate Untouched(initial: Tree, current: Tree, photos: seq<Photo>, targets: seq<Path>)
  {
    (forall p :: p in current && p !in targets ==> p in initial && current[p] == initial[p]) &&
    (forall p :: p in initial && NotCollected(photos, p) ==> p in current && current[p] == initial[p])
  }

  /** A step keeps everything else untouched. */
  lemma UntouchedStep(initial: Tree, photos: seq<Photo>, failing: set<Path>, targets: seq<Path>,
                      before: Tree, target: Path, k: nat, ok: bool, after: Tree)
    requires |targets| < |photos| && Untouched(initial, before, photos, targets)
    requires Step(photos, failing, |targets|, before, target, k, ok, after)
    ensures Untouched(initial, after, photos, targets + [target])
  {
    var src := photos[|targets|].path;
    assert photos[|targets|] in photos;
    assert target == src || target !in before;
    forall p | p in after && p !in targets + [target] ensures p in initial && after[p] == initial[p] {
      assert p in before && after[p] == before[p];
    }
  }

  /** A step leaves the records already placed where they were. */
  lemma PlacedAtKept(initial: Tree, photos: seq<Photo>, failing: set<Path>, targets: seq<Path>, oks: seq<bool>,
                     before: Tree, target: Path, k: nat, ok: bool, after: Tree, j: nat)
    requires DistinctPaths(photos) && j < |targets| < |photos| && |oks| == |targets|
    requires PlacedAt(initial, before, photos, failing, targets, oks, j)
    requires targets[j] != photos[|targets|].path
    requires Step(photos, failing, |targets|, before, target, k, ok, after)
    ensures PlacedAt(initial, after, photos, failing, targets + [target], oks + [ok], j)
  {
    var src := photos[|targets|].path;
    var targets', oks' := targets + [target], oks + [ok];
    assert targets'[j] == targets[j] && oks'[j] == oks[j];
    assert photos[j].path != src;
    assert target == src || target !in before;
  }

  /** After step n its record is placed. */
  lemma PlacedAtNew(initial: Tree, photos: seq<Photo>, failing: set<Path>, targets: seq<Path>, oks: seq<bool>,
                    before: Tree, target: Path, k: nat, ok: bool, after: Tree)
    requires |targets| < |photos| && |oks| == |targets|
    requires Pending(initial, before, photos, |targets|)
    requires Step(photos, failing, |targets|, before, target, k, ok, after)
    ensures PlacedAt(initial, after, photos, failing, targets + [target], oks + [ok], |targets|)
  {
    var n := |targets|;
    assert (targets + [target])[n] == target && (oks + [ok])[n] == ok;
  }

  /** A step keeps the placement facts, extended by the record just handled. */
  lemma PlaceStep(initial: Tree, photos: seq<Photo>, failing: set<Path>, targets: seq<Path>, oks: seq<bool>,
                  before: Tree, target: Path, k: nat, ok: bool, after: Tree)
    requires DistinctPaths(photos) && |targets| < |photos|
    requires Placed(initial, before, photos, failing, targets, oks)
    requires Step(photos, failing, |targets|, before, target, k, ok, after)
    ensures Placed(initial, after, photos, failing, targets + [target], oks + [ok])
  {
    var n := |targets|;
    var src := photos[n].path;
    var targets', oks' := targets + [target], oks + [ok];
    assert target == src || target !in before;
    forall m | n + 1 <= m < |photos|
      ensures targets'[n] != photos[m].path && photos[m].path != src && photos[m].path in before
    {
    }
    forall j | 0 <= j < n + 1 ensures PlacedAt(initial, after, photos, failing, targets', oks', j) {
      if j < n {
        PlacedAtKept(initial, photos, failing, targets, oks, before, target, k, ok, after, j);
      } else {
        PlacedAtNew(initial, photos, failing, targets, oks, before, target, k, ok, after);
      }
    }
  }

  /** Everything the renaming loop keeps after the steps recorded in the trace,
      with the placement facts when the records are for distinct files that
      were all present at the start. */
  ghost predicate RenameLoop(initial: Tree, current: Tree, photos: seq<Photo>, failing: set<Path>,
                             trees: seq<Tree>, targets: seq<Path>, ks: seq<nat>, oks: seq<bool>,
                             distinct: bool)
  {
    Trace(initial, photos, failing, trees, targets, ks, oks) && trees[|targets|] == current &&
    RenameInvariant(initial, current) &&
    Untouched(initial, current, photos, targets) &&
    (distinct ==> Placed(initial, current, photos, failing, targets, oks))
  }

  /** One step of the renaming loop keeps all of it. */
  lemma RenameLoopStep(initial: Tree, before: Tree, photos: seq<Photo>, failing: set<Path>,
                       trees: seq<Tree>, targets: seq<Path>, ks: seq<nat>, oks: seq<bool>, distinct: bool,
                       target: Path, k: nat, ok: bool, after: Tree)
    requires RenameLoop(initial, before, photos, failing, trees, targets, ks, oks, distinct)
    requires |targets| < |photos| && (distinct ==> DistinctPaths(photos))
    requires Step(photos, failing, |targets|, before, target, k, ok, after)
    ensures RenameLoop(initial, after, photos, failing, trees + [after], targets + [target], ks + [k],
                       oks + [ok], distinct)
  {
    RenameStep(initial, photos, failing, |targets|, before, target, k, ok, after);
    TraceStep(initial, photos, failing, trees, targets, ks, oks, target, k, ok, after);
    UntouchedStep(initial, photos, failing, targets, before, target, k, ok, after);
    if distinct {
      PlaceStep(initial, photos, failing, targets, oks, before, target, k, ok, after);
    }
  }

  /** With no failing move, every record counts and its file ends up, unchanged,
      under its candidate name directly in the base folder. */
  lemma AllPlaced(initial: Tree, final: Tree, photos: seq<Photo>, failing: set<Path>, trees: seq<Tree>,
                  targets: seq<Path>, ks: seq<nat>, oks: seq<bool>)
    requires Trace(initial, photos, failing, trees, targets, ks, oks) && |targets| == |photos|
    requires Placed(initial, final, photos, failing, targets, oks)
    requires NoneFailing(photos, failing)
    ensures CountTrue(oks) == |photos|
    ensures forall j :: 0 <= j < |photos| ==>
      |targets[j]| == 1 && targets[j] in final &&
      photos[j].path in initial && final[targets[j]] == initial[photos[j].path]
  {
    forall j | 0 <= j < |photos|
      ensures oks[j] && |targets[j]| == 1 && targets[j] in final &&
        photos[j].path in initial && final[targets[j]] == initial[photos[j].path]
    {
      assert photos[j] in photos && PlacedAt(initial, final, photos, failing, targets, oks, j);
      assert Step(photos, failing, j, trees[j], targets[j], ks[j], oks[j], trees[j + 1]);
    }
  }

  /** A listing without repetitions gives one record per path. */
  lemma {:induction false} SelectPhotosDistinct(listing: seq<Path>, m: Tree)
    requires Distinct(listing)
    ensures DistinctPaths(SelectPhotos(listing, m))
  {
    if listing != [] {
      var init, p := listing[..|listing| - 1], listing[|listing| - 1];
      assert listing == init + [p];
      assert Distinct(init);
      SelectPhotosDistinct(init, m);
      var s := SelectPhotos(init, m);
      forall r | r in s ensures r.path != p {
        SelectPhotosMembers(init, m, r);
      }
    }
  }

  /** With one record per path, a path determines its record. */
  lemma SamePathSameIndex(s: seq<Photo>, i: nat, j: nat)
    requires DistinctPaths(s) && i < |s| && j < |s|
    ensures s[i].path == s[j].path ==> i == j
  {
  }

  /** In a permutation of records with one record per path, two records with the
      same path are the same record. */
  lemma SamePathSameRecord(selected: seq<Photo>, sorted: seq<Photo>)
    requires multiset(sorted) == multiset(selected) && DistinctPaths(selected)
    ensures forall a, b :: 0 <= a < |sorted| && 0 <= b < |sorted| && sorted[a].path == sorted[b].path ==>
      sorted[a] == sorted[b]
  {
    forall a, b | 0 <= a < |sorted| && 0 <= b < |sorted| && sorted[a].path == sorted[b].path
      ensures sorted[a] == sorted[b]
    {
      assert sorted[a] in multiset(selected) && sorted[b] in multiset(selected);
      var i :| 0 <= i < |selected| && selected[i] == sorted[a];
      var j :| 0 <= j < |selected| && selected[j] == sorted[b];
      SamePathSameIndex(selected, i, j);
    }
  }

  /** The records in the order they are numbered: the image files of the
      listing, sorted stably by timestamp. */
  function Numbered(listing: seq<Path>, m: Tree): seq<Photo>
  {
    SortBy(SelectPhotos(listing, m), Timestamp)
  }

  /** The sorted selection still has one record per path, and each is for a file
      of the tree. */
  lemma SortedPending(listing: seq<Path>, m: Tree)
    requires Distinct(listing)
    ensures DistinctPaths(Numbered(listing, m))
    ensures Pending(m, m, Numbered(listing, m), 0)
  {
    var selected := SelectPhotos(listing, m);
    var sorted := SortBy(selected, Timestamp);
    SelectPhotosDistinct(listing, m);
    assert Distinct(selected);
    PermutationDistinct(selected, sorted);
    SamePathSameRecord(selected, sorted);
    forall j | 0 <= j < |sorted| ensures sorted[j].path in m && m[sorted[j].path].File? {
      assert sorted[j] in multiset(selected);
      SelectPhotosMembers(listing, m, sorted[j]);
    }
  }

  /** The records are for distinct files that were all present at the start. */
  ghost predicate DistinctPresent(initial: Tree, photos: seq<Photo>)
  {
    DistinctPaths(photos) && Pending(initial, initial, photos, 0)
  }

  /** A finished renaming run from `initial` to `final`: the trace covers every
      record and the loop's facts hold. */
  ghost predicate Renamed(initial: Tree, final: Tree, photos: seq<Photo>, failing: set<Path>,
                          trees: seq<Tree>, targets: seq<Path>, ks: seq<nat>, oks: seq<bool>)
  {
    |targets| == |photos| &&
    RenameLoop(initial, final, photos, failing, trees, targets, ks, oks, DistinctPresent(initial, photos))
  }

  /** What a finished renaming run guarantees: each record's step is in the
      trace, the base folder stays, no file is lost, new entries sit directly in
      the base folder, nothing but the collected files and the chosen names is
      touched; for distinct present records, every file is where its step put
      it; and with no failing move as well, every record counts. */
  lemma RenamedFacts(initial: Tree, final: Tree, photos: seq<Photo>, failing: set<Path>,
                     trees: seq<Tree>, targets: seq<Path>, ks: seq<nat>, oks: seq<bool>)
    requires Renamed(initial, final, photos, failing, trees, targets, ks, oks)
    ensures Trace(initial, photos, failing, trees, targets, ks, oks) && |targets| == |photos|
    ensures trees[|photos|] == final
    ensures CountTrue(oks) <= |photos|
    ensures [] in initial ==> [] in final
    ensures |Files(final)| == |Files(initial)|
    ensures forall p :: p in final && p !in initial ==> |p| == 1
    ensures Untouched(initial, final, photos, targets)
    ensures DistinctPresent(initial, photos) ==> Placed(initial, final, photos, failing, targets, oks)
    ensures DistinctPresent(initial, photos) && NoneFailing(photos, failing) ==> CountTrue(oks) == |photos|
  {
    if DistinctPresent(initial, photos) && NoneFailing(photos, failing) {
      AllPlaced(initial, final, photos, failing, trees, targets, ks, oks);
    }
  }

  /** The folder tree below the base folder, changed in place by the run. */
  class FolderTree {
    var entries: Tree

    ghost predicate Valid()
      reads this
    {
      WellFormed(entries)
    }

    constructor (initial: Tree)
      requires WellFormed(initial)
      ensures Valid() && entries == initial
    {
      entries := initial;
    }

    /** The collection loop: appends, in listing order, every listed image file
        with its timestamp. */
    method CollectPhotos(listing: seq<Path>) returns (photos: seq<Photo>)
      ensures photos == SelectPhotos(listing, entries)
    {
      photos := [];
      for i := 0 to |listing|
        invariant photos == SelectPhotos(listing[..i], entries)
      {
        var p := listing[i];
        assert listing[..i + 1] == listing[..i] + [p];
        if p != [] && p in entries && entries[p].File? && IsImageName(p[|p| - 1]) {
          photos := photos + [Photo(p, entries[p].timestamp)];
        }
      }
      assert listing[..|listing|] == listing;
    }

    /** The collision loop for the file at `src` with sequence number `index`:
        starting from `{index}{suffix}`, bump the counter while the name exists
        in the base folder and is not the file itself. It terminates because
        every bump tries a name not tried before and the tree is finite. */
    method ResolveTarget(index: nat, suffix: string, src: Path) returns (target: Path, k: nat)
      requires DotSuffix(suffix)
      ensures target == [CandidateName(index, suffix, k)]
      ensures FirstFree(entries, index, suffix, src, k)
    {
      var newFilename := Decimal(index) + suffix;
      target := [newFilename];
      var counter := 1;
      var originalFilename := newFilename;
      while target in entries && target != src
        invariant counter >= 1
        invariant originalFilename == CandidateName(index, suffix, 0)
        invariant newFilename == CandidateName(index, suffix, counter - 1)
        invariant target == [newFilename]
        invariant TriedNames(index, suffix, counter - 1) <= entries.Keys
        invariant forall j :: 0 <= j < counter - 1 ==>
          [CandidateName(index, suffix, j)] in entries && [CandidateName(index, suffix, j)] != src
        decreases |entries.Keys - TriedNames(index, suffix, counter - 1)|
      {
        NotYetTried(index, suffix, counter - 1, counter - 1);
        SmallerRemainder(entries.Keys, TriedNames(index, suffix, counter - 1), target);
        assert forall j :: 0 <= j < counter ==>
          [CandidateName(index, suffix, j)] in entries && [CandidateName(index, suffix, j)] != src;
        RebuiltName(index, suffix, counter);
        var parts := RSplitDot(originalFilename);
        var namePart, extPart := parts.0, parts.1;
        newFilename := namePart + "_" + Decimal(counter) + "." + extPart;
        target := [newFilename];
        counter := counter + 1;
      }
      k := counter - 1;
    }

    /** One step of the renaming loop for the file at `src` with sequence number
        `index`: resolve the target; if it is the file itself, nothing changes and
        the file counts as processed; otherwise the file is moved there unless
        the move fails (it is in `failing`, or is no longer a file), in which case
        nothing changes and it does not count. */
    method MovePhoto(index: nat, src: Path, failing: set<Path>) returns (ok: bool, target: Path, k: nat)
      requires Valid()
      requires src != [] && IsImageName(src[|src| - 1])
      modifies this
      ensures Valid()
      ensures MoveStep(index, src, failing, old(entries), target, k, ok, entries)
    {
      var suffix := Suffix(src[|src| - 1]);
      ImageNameHasSuffix(src[|src| - 1]);
      target, k := ResolveTarget(index, suffix, src);
      if target == src {
        ok := true;
      } else if src in entries && entries[src].File? && src !in failing {
        MovedWellFormed(entries, src, target);
        entries := Moved(entries, src, target);
        ok := true;
      } else {
        ok := false;
      }
    }

    /** The renaming loop: the file at sorted position i (0-based) gets sequence
        number i + 1. Every file is either left in place, moved to a free name
        directly in the base folder, or skipped after a failed move; an entry that
        is not among `photos` is never touched, and no file is lost. The ghost
        results record every step: the tree before it, the counter value the
        collision loop stopped at, the name chosen and whether the record
        counted. */
    method RenamePhotos(photos: seq<Photo>, failing: set<Path>)
      returns (processed: nat, ghost trees: seq<Tree>, ghost targets: seq<Path>,
               ghost ks: seq<nat>, ghost oks: seq<bool>)
      requires Valid()
      requires forall r :: r in photos ==> r.path != [] && IsImageName(r.path[|r.path| - 1])
      modifies this
      ensures Valid()
      ensures Renamed(old(entries), entries, photos, failing, trees, targets, ks, oks)
      ensures processed == CountTrue(oks)
    {
      processed := 0;
      trees, targets, ks, oks := [entries], [], [], [];
      ghost var distinct := DistinctPresent(old(entries), photos);
      for i := 0 to |photos|
        invariant Valid()
        invariant RenameLoop(old(entries), entries, photos, failing, trees, targets, ks, oks, distinct)
        invariant |targets| == i && processed == CountTrue(oks)
      {
        var src := photos[i].path;
        assert photos[i] in photos;
        ghost var before := entries;
        var ok, target, k := MovePhoto(i + 1, src, failing);
        assert Step(photos, failing, i, before, target, k, ok, entries);
        RenameLoopStep(old(entries), before, photos, failing, trees, targets, ks, oks, distinct,
                       target, k, ok, entries);
        CountTrueAppend(oks, ok);
        trees, targets, ks, oks := trees + [entries], targets + [target], ks + [k], oks + [ok];
        if ok {
          processed := processed + 1;
        }
      }
    }

    /** The whole run. `enumerate` gives the recursive listing of a tree in the
        order the platform yields it; `failing` holds the files whose move
        raises; `undeletable` holds the directories whose removal raises. The
        ghost results are the renaming loop's record of its steps and the tree
        the cleanup pass starts from. */
    method OrganizePhotos(enumerate: Tree -> seq<Path>, failing: set<Path>, undeletable: set<Path>)
      returns (outcome: Outcome, ghost trees: seq<Tree>, ghost targets: seq<Path>,
               ghost ks: seq<nat>, ghost oks: seq<bool>, ghost renamed: Tree)
      requires Valid()
      modifies this
      ensures Valid()
      ensures outcome.NotFound? <==> [] !in old(entries)
      ensures outcome.NoPhotos? <==>
        [] in old(entries) && SelectPhotos(enumerate(old(entries)), old(entries)) == []
      ensures !outcome.Done? ==> entries == old(entries)
      ensures outcome.Done? ==>
        outcome.processed <= |SelectPhotos(enumerate(old(entries)), old(entries))|
      ensures [] in old(entries) ==> [] in entries
      ensures |Files(entries)| == |Files(old(entries))|
      ensures forall p ::
        (p in old(entries) && old(entries)[p].File? &&
         NotCollected(SelectPhotos(enumerate(old(entries)), old(entries)), p)) ==>
        p in entries && entries[p] == old(entries)[p]
      ensures forall p :: p in entries && p !in old(entries) ==> |p| == 1
      ensures (outcome.Done? && Distinct(enumerate(old(entries))) &&
               (forall r :: r in SelectPhotos(enumerate(old(entries)), old(entries)) ==> r.path !in failing)) ==>
        outcome.processed == |SelectPhotos(enumerate(old(entries)), old(entries))|
      ensures outcome.Done? ==>
        var order := Numbered(enumerate(old(entries)), old(entries));
        Trace(old(entries), order, failing, trees, targets, ks, oks) && |targets| == |order| &&
        trees[|order|] == renamed && outcome.processed == CountTrue(oks) &&
        Untouched(old(entries), renamed, order, targets)
      ensures (outcome.Done? && Distinct(enumerate(old(entries)))) ==>
        Placed(old(entries), renamed, Numbered(enumerate(old(entries)), old(entries)), failing, targets, oks)
      ensures outcome.Done? ==> CleanedUp(renamed, entries, enumerate(renamed), undeletable, outcome.removed)
    {
      if [] !in entries {
        return NotFound, [], [], [], [], entries;
      }
      var photos := CollectPhotos(enumerate(entries));
      if photos == [] {
        return NoPhotos, [], [], [], [], entries;
      }
      SortedSelection(enumerate(entries), entries);
      if Distinct(enumerate(entries)) {
        SortedPending(enumerate(entries), entries);
      }
      ghost var selected := photos;
      photos := SortBy(photos, Timestamp);
      assert forall r :: r in photos ==> r in multiset(selected);
      var processed;
      processed, trees, targets, ks, oks := RenamePhotos(photos, failing);
      renamed := entries;
      RenamedFacts(old(entries), renamed, photos, failing, trees, targets, ks, oks);
      var removed := CleanupEmptyFolders(enumerate(entries), undeletable);
      OnlyDirsRemoved(renamed, entries);
      outcome := Done(processed, removed);
    }

    /** One visit of the cleanup loop: `p` is removed when it is a directory other
        than the base folder, has no entries, and its removal does not fail. */
    method RemoveIfEmpty(p: Path, undeletable: set<Path>) returns (gone: bool)
      requires Valid()
      modifies this
      ensures Valid()
      ensures gone == (p != [] && p in old(entries) && old(entries)[p].Dir? &&
                       !HasChildren(old(entries), p) && p !in undeletable)
      ensures entries == if gone then old(entries) - {p} else old(entries)
    {
      gone := false;
      if p in entries && entries[p].Dir? && p != [] {
        if !HasChildren(entries, p) && p !in undeletable {
          RemovedWellFormed(entries, p);
          entries := entries - {p};
          gone := true;
        }
      }
    }

    /** The cleanup pass: visit the listed entries deepest first and remove every
        directory other than the base folder that has no entries at its turn,
        unless its removal fails. */
    method CleanupEmptyFolders(listing: seq<Path>, undeletable: set<Path>) returns (removed: nat)
      requires Valid()
      modifies this
      ensures Valid()
      ensures entries.Keys <= old(entries).Keys
      ensures forall p :: p in entries ==> entries[p] == old(entries)[p]
      ensures forall p :: p in old(entries) && p !in entries ==>
        p != [] && old(entries)[p].Dir? && p in listing && p !in undeletable
      ensures forall p, q {:trigger IsPrefix(p, q)} :: p in old(entries) && p !in entries && q in old(entries) && IsPrefix(p, q) ==>
        q !in entries
      ensures removed == |old(entries).Keys - entries.Keys|
      ensures forall d :: d in listing && d != [] && CleanBelow(old(entries), d, listing, undeletable) ==>
        d !in entries
      ensures CleanedUp(old(entries), entries, listing, undeletable, removed)
    {
      var order := SortBy(listing, DepthDescending);
      removed := 0;
      for i := 0 to |order|
        invariant Valid()
        invariant CleanupInvariant(old(entries), entries, listing, undeletable, order[..i], removed)
      {
        ghost var before := entries;
        var gone := RemoveIfEmpty(order[i], undeletable);
        CleanupVisit(order, i, old(entries), before, listing, undeletable, removed, gone);
        if gone {
          removed := removed + 1;
        }
      }
      assert order[..|order|] == order;
      CleanupVisitedAll(old(entries), entries, listing, undeletable, order, removed);
    }
  }
}

