/**
  A second run over the result of a first run can move files again.
 */
module RunTwice {
  import opened Names
  import opened Sorting
  import opened FileTree
  import opened PhotoNumbering

  /** `1.jpg` (timestamp 2) in the base folder, `sub/a.jpg` (timestamp 1) in a
      directory below it, and the listing of that tree. */
  const FirstTree: Tree := map[[] := Dir, ["1.jpg"] := File(2), ["sub"] := Dir, ["sub", "a.jpg"] := File(1)]
  const FirstListing: seq<Path> := [["1.jpg"], ["sub"], ["sub", "a.jpg"]]

  /** The tree the first run leaves, and its listing. */
  const SecondTree: Tree := map[[] := Dir, ["1_1.jpg"] := File(1), ["2.jpg"] := File(2)]
  const SecondListing: seq<Path> := [["1_1.jpg"], ["2.jpg"]]

  /** The order the two runs number the files in. */
  const FirstOrderSeq: seq<Photo> := [Photo(["sub", "a.jpg"], 1), Photo(["1.jpg"], 2)]
  const SecondOrderSeq: seq<Photo> := [Photo(["1_1.jpg"], 1), Photo(["2.jpg"], 2)]

  lemma LastDotAt(s: string, i: nat)
    requires i < |s| && s[i] == '.' && forall k :: i < k < |s| ==> s[k] != '.'
    ensures LastIndex(s, '.') == i
  {
  }

  lemma Suffixes()
    ensures Suffix("1.jpg") == ".jpg" && Suffix("a.jpg") == ".jpg"
    ensures Suffix("1_1.jpg") == ".jpg" && Suffix("2.jpg") == ".jpg"
  {
    LastDotAt("1.jpg", 1);
    LastDotAt("a.jpg", 1);
    LastDotAt("1_1.jpg", 3);
    LastDotAt("2.jpg", 1);
  }

  lemma Candidates()
    ensures CandidateName(1, ".jpg", 0) == "1.jpg"
    ensures CandidateName(1, ".jpg", 1) == "1_1.jpg"
    ensures CandidateName(2, ".jpg", 0) == "2.jpg"
  {
    assert Decimal(1) == "1" && Decimal(2) == "2";
  }

  /** Any name whose suffix is `.jpg` is an image name. */
  lemma JpgIsImage(name: string)
    requires Suffix(name) == ".jpg"
    ensures IsImageName(name)
  {
    assert Lower(".jpg") == ".jpg";
  }

  lemma JpgNames()
    ensures IsImageName("1.jpg") && IsImageName("a.jpg") && IsImageName("1_1.jpg") && IsImageName("2.jpg")
  {
    Suffixes();
    JpgIsImage("1.jpg");
    JpgIsImage("a.jpg");
    JpgIsImage("1_1.jpg");
    JpgIsImage("2.jpg");
  }

  lemma SortOne(a: Photo)
    ensures SortBy([a], Timestamp) == [a]
  {
    assert [a][..0] == [];
  }

  /** A stable sort of two records by timestamp keeps them in order when the
      first is not later. */
  lemma SortTwoInOrder(a: Photo, b: Photo)
    requires a.timestamp <= b.timestamp
    ensures SortBy([a, b], Timestamp) == [a, b]
  {
    SortOne(a);
    assert [a, b][..1] == [a];
  }

  /** Inserting an earlier record after a later one puts it in front. */
  lemma InsertEarlier(a: Photo, b: Photo)
    requires a.timestamp > b.timestamp
    ensures Insert(b, [a], Timestamp) == [b, a]
  {
    assert [a][..0] == [];
    assert Insert(b, [], Timestamp) == [b];
  }

  /** ... and swaps them when the first is later. */
  lemma SortTwoSwapped(a: Photo, b: Photo)
    requires a.timestamp > b.timestamp
    ensures SortBy([a, b], Timestamp) == [b, a]
  {
    SortOne(a);
    assert [a, b][..1] == [a] && [a, b][1] == b;
    InsertEarlier(a, b);
  }

  /** A file entry directly in the base folder with an image name is a photo,
      with that entry's timestamp. */
  lemma TopPhoto(m: Tree, p: Path, name: string, t: int)
    requires p == [name] && p in m && m[p] == File(t) && IsImageName(name)
    ensures IsPhoto(m, p) && m[p].timestamp == t
  {
  }

  /** ... and so is one a directory further down. */
  lemma SubPhoto(m: Tree, p: Path, dir: string, name: string, t: int)
    requires p == [dir, name] && p in m && m[p] == File(t) && IsImageName(name)
    ensures IsPhoto(m, p) && m[p].timestamp == t
  {
  }

  lemma FirstTreeTop()
    ensures ["1.jpg"] in FirstTree && FirstTree[["1.jpg"]] == File(2)
  {
  }

  lemma FirstTreeSub()
    ensures ["sub"] in FirstTree && FirstTree[["sub"]] == Dir
  {
  }

  lemma FirstTreeNested()
    ensures ["sub", "a.jpg"] in FirstTree && FirstTree[["sub", "a.jpg"]] == File(1)
  {
  }

  lemma SecondTreeBumped()
    ensures ["1_1.jpg"] in SecondTree && SecondTree[["1_1.jpg"]] == File(1)
  {
  }

  lemma SecondTreeSecond()
    ensures ["2.jpg"] in SecondTree && SecondTree[["2.jpg"]] == File(2)
  {
  }

  lemma FirstTreePhotos()
    ensures IsPhoto(FirstTree, ["1.jpg"]) && FirstTree[["1.jpg"]].timestamp == 2
    ensures !IsPhoto(FirstTree, ["sub"])
    ensures IsPhoto(FirstTree, ["sub", "a.jpg"]) && FirstTree[["sub", "a.jpg"]].timestamp == 1
  {
    JpgNames();
    FirstTreeTop();
    FirstTreeSub();
    FirstTreeNested();
    TopPhoto(FirstTree, ["1.jpg"], "1.jpg", 2);
    SubPhoto(FirstTree, ["sub", "a.jpg"], "sub", "a.jpg", 1);
  }

  lemma SecondTreePhotos()
    ensures IsPhoto(SecondTree, ["1_1.jpg"]) && SecondTree[["1_1.jpg"]].timestamp == 1
    ensures IsPhoto(SecondTree, ["2.jpg"]) && SecondTree[["2.jpg"]].timestamp == 2
  {
    JpgNames();
    SecondTreeBumped();
    SecondTreeSecond();
    TopPhoto(SecondTree, ["1_1.jpg"], "1_1.jpg", 1);
    TopPhoto(SecondTree, ["2.jpg"], "2.jpg", 2);
  }

  /** What the selection keeps of one path. */
  function Kept(m: Tree, p: Path): seq<Photo>
  {
    if IsPhoto(m, p) then [Photo(p, m[p].timestamp)] else []
  }

  lemma SelectOne(m: Tree, a: Path)
    ensures SelectPhotos([a], m) == Kept(m, a)
  {
    assert [a][..0] == [];
  }

  lemma SelectTwo(m: Tree, a: Path, b: Path)
    ensures SelectPhotos([a, b], m) == Kept(m, a) + Kept(m, b)
  {
    SelectOne(m, a);
    SelectOne(m, b);
    SelectPhotosConcat([a], [b], m);
    assert [a] + [b] == [a, b];
  }

  lemma SelectThree(m: Tree, a: Path, b: Path, c: Path)
    ensures SelectPhotos([a, b, c], m) == Kept(m, a) + Kept(m, b) + Kept(m, c)
  {
    SelectTwo(m, a, b);
    SelectOne(m, c);
    SelectPhotosConcat([a, b], [c], m);
    assert [a, b] + [c] == [a, b, c];
  }

  lemma FirstSelection()
    ensures SelectPhotos(FirstListing, FirstTree) == [Photo(["1.jpg"], 2), Photo(["sub", "a.jpg"], 1)]
  {
    FirstTreePhotos();
    SelectThree(FirstTree, ["1.jpg"], ["sub"], ["sub", "a.jpg"]);
  }

  lemma SecondSelection()
    ensures SelectPhotos(SecondListing, SecondTree) == [Photo(["1_1.jpg"], 1), Photo(["2.jpg"], 2)]
  {
    SecondTreePhotos();
    SelectTwo(SecondTree, ["1_1.jpg"], ["2.jpg"]);
  }

  lemma FirstOrder()
    ensures Numbered(FirstListing, FirstTree) == FirstOrderSeq
  {
    FirstSelection();
    SortTwoSwapped(Photo(["1.jpg"], 2), Photo(["sub", "a.jpg"], 1));
  }

  lemma SecondOrder()
    ensures Numbered(SecondListing, SecondTree) == SecondOrderSeq
  {
    SecondSelection();
    SortTwoInOrder(Photo(["1_1.jpg"], 1), Photo(["2.jpg"], 2));
  }

  /** The tree after the first move of the first run, and after its second. */
  const MidTree: Tree := map[[] := Dir, ["1.jpg"] := File(2), ["sub"] := Dir, ["1_1.jpg"] := File(1)]
  const RenamedTree: Tree := map[[] := Dir, ["sub"] := Dir, ["1_1.jpg"] := File(1), ["2.jpg"] := File(2)]

  lemma FirstTreeFacts()
    ensures FirstFree(FirstTree, 1, ".jpg", ["sub", "a.jpg"], 1)
    ensures Moved(FirstTree, ["sub", "a.jpg"], ["1_1.jpg"]) == MidTree
  {
    Candidates();
    assert ["1_1.jpg"] !in FirstTree && ["1.jpg"] in FirstTree;
  }

  lemma MidTreeFacts()
    ensures FirstFree(MidTree, 2, ".jpg", ["1.jpg"], 0)
    ensures Moved(MidTree, ["1.jpg"], ["2.jpg"]) == RenamedTree
  {
    Candidates();
    assert ["2.jpg"] !in MidTree;
  }

  lemma SecondTreeFacts()
    ensures FirstFree(SecondTree, 1, ".jpg", ["1_1.jpg"], 0)
  {
    Candidates();
    assert ["1.jpg"] !in SecondTree;
  }

  lemma FirstStepOne()
    ensures Step(FirstOrderSeq, {}, 0, FirstTree, ["1_1.jpg"], 1, true, MidTree)
  {
    Suffixes();
    Candidates();
    FirstTreeFacts();
  }

  lemma FirstStepTwo()
    ensures Step(FirstOrderSeq, {}, 1, MidTree, ["2.jpg"], 0, true, RenamedTree)
  {
    Suffixes();
    Candidates();
    MidTreeFacts();
  }

  lemma SecondStepOne()
    ensures Step(SecondOrderSeq, {}, 0, SecondTree, ["1.jpg"], 0, true,
                 Moved(SecondTree, ["1_1.jpg"], ["1.jpg"]))
  {
    Suffixes();
    Candidates();
    SecondTreeFacts();
  }

  /** The first step of the first run: `1.jpg` is taken, so `sub/a.jpg` becomes
      `1_1.jpg`. */
  lemma FirstRunStepOne(trees: seq<Tree>, targets: seq<Path>, ks: seq<nat>, oks: seq<bool>)
    requires Trace(FirstTree, Numbered(FirstListing, FirstTree), {}, trees, targets, ks, oks) && |targets| >= 1
    ensures targets[0] == ["1_1.jpg"] && oks[0] && trees[1] == MidTree
  {
    var order := Numbered(FirstListing, FirstTree);
    FirstOrder();
    assert Step(order, {}, 0, trees[0], targets[0], ks[0], oks[0], trees[1]);
    FirstStepOne();
    StepDeterministic(order, {}, 0, FirstTree, targets[0], ks[0], oks[0], trees[1], ["1_1.jpg"], 1, true, MidTree);
  }

  /** The second step of the first run: `2.jpg` is free, so `1.jpg` becomes
      `2.jpg`. */
  lemma FirstRunStepTwo(trees: seq<Tree>, targets: seq<Path>, ks: seq<nat>, oks: seq<bool>)
    requires Trace(FirstTree, Numbered(FirstListing, FirstTree), {}, trees, targets, ks, oks) && |targets| == 2
    requires trees[1] == MidTree
    ensures targets[1] == ["2.jpg"] && oks[1] && trees[2] == RenamedTree
  {
    var order := Numbered(FirstListing, FirstTree);
    FirstOrder();
    assert Step(order, {}, 1, trees[1], targets[1], ks[1], oks[1], trees[2]);
    FirstStepTwo();
    StepDeterministic(order, {}, 1, MidTree, targets[1], ks[1], oks[1], trees[2], ["2.jpg"], 0, true, RenamedTree);
  }

  /** Nothing but `sub` itself lies below `sub` once `sub/a.jpg` has moved. */
  lemma SubIsCleanBelow(listing: seq<Path>)
    requires ["sub"] in listing
    ensures CleanBelow(RenamedTree, ["sub"], listing, {})
  {
    forall q | q in RenamedTree && IsPrefix(["sub"], q) ensures q == ["sub"] {
      assert q[..1] == ["sub"];
    }
  }

  lemma SubRemoved(listing: seq<Path>, final: Tree, removed: nat)
    requires ["sub"] in listing && CleanedUp(RenamedTree, final, listing, {}, removed)
    ensures ["sub"] !in final
  {
    SubIsCleanBelow(listing);
  }

  /** The cleanup never removes the base folder or a file. */
  lemma OthersKept(listing: seq<Path>, final: Tree, removed: nat)
    requires CleanedUp(RenamedTree, final, listing, {}, removed)
    ensures [] in final && ["1_1.jpg"] in final && ["2.jpg"] in final
  {
    assert RenamedTree[["1_1.jpg"]].File? && RenamedTree[["2.jpg"]].File?;
  }

  /** The cleanup keeps the base folder and the files, and removes `sub`. */
  lemma CleanupKeys(listing: seq<Path>, final: Tree, removed: nat)
    requires ["sub"] in listing && CleanedUp(RenamedTree, final, listing, {}, removed)
    ensures final.Keys == SecondTree.Keys
  {
    SubRemoved(listing, final, removed);
    OthersKept(listing, final, removed);
    assert final.Keys <= RenamedTree.Keys;
  }

  /** RenamedTree is SecondTree with `sub` added. */
  lemma RenamedHasSub()
    ensures RenamedTree.Keys - SecondTree.Keys == {["sub"]}
  {
    assert ["sub"] !in SecondTree;
    assert RenamedTree.Keys == SecondTree.Keys + {["sub"]};
  }

  lemma RenamedAgrees()
    ensures forall p :: p in SecondTree ==> p in RenamedTree && RenamedTree[p] == SecondTree[p]
  {
    assert SecondTree.Keys == {[], ["1_1.jpg"], ["2.jpg"]};
  }

  /** The cleanup after the first run removes `sub`, which is left empty, and
      nothing else. */
  lemma FirstRunCleanup(listing: seq<Path>, final: Tree, removed: nat)
    requires ["sub"] in listing && CleanedUp(RenamedTree, final, listing, {}, removed)
    ensures final == SecondTree && removed == 1
  {
    CleanupKeys(listing, final, removed);
    RenamedHasSub();
    RenamedAgrees();
    assert RenamedTree.Keys - final.Keys == {["sub"]};
    assert final == SecondTree;
  }

  /** The first step of the second run: `1.jpg` is free again, so `1_1.jpg` is
      moved there. */
  lemma SecondRunStepOne(trees: seq<Tree>, targets: seq<Path>, ks: seq<nat>, oks: seq<bool>)
    requires Trace(SecondTree, Numbered(SecondListing, SecondTree), {}, trees, targets, ks, oks) && |targets| >= 1
    ensures targets[0] == ["1.jpg"] && oks[0] && trees[1] == Moved(SecondTree, ["1_1.jpg"], ["1.jpg"])
  {
    var order := Numbered(SecondListing, SecondTree);
    SecondOrder();
    assert Step(order, {}, 0, trees[0], targets[0], ks[0], oks[0], trees[1]);
    SecondStepOne();
    StepDeterministic(order, {}, 0, SecondTree, targets[0], ks[0], oks[0], trees[1], ["1.jpg"], 0, true,
                      Moved(SecondTree, ["1_1.jpg"], ["1.jpg"]));
  }

  /** The first run renames `sub/a.jpg` to `1_1.jpg` and `1.jpg` to `2.jpg`. */
  lemma FirstRun(trees: seq<Tree>, targets: seq<Path>, ks: seq<nat>, oks: seq<bool>)
    requires Trace(FirstTree, Numbered(FirstListing, FirstTree), {}, trees, targets, ks, oks) && |targets| == 2
    ensures targets == [["1_1.jpg"], ["2.jpg"]] && oks[0] && oks[1] && trees[2] == RenamedTree
  {
    FirstRunStepOne(trees, targets, ks, oks);
    FirstRunStepTwo(trees, targets, ks, oks);
    assert targets == [targets[0], targets[1]];
  }

  /** A second run over the result of a first need not find every file in
      place: a name that was taken during the first run can be free on the
      second. The first run over FirstTree with no failing move numbers
      `sub/a.jpg` first: `1.jpg` is taken, so it becomes `1_1.jpg`; then `1.jpg`
      becomes `2.jpg`; the cleanup, over any listing that names `sub`, removes
      the empty `sub` and leaves SecondTree. The second run over SecondTree
      numbers `1_1.jpg` first, finds `1.jpg` free and moves the file there. The
      statement covers every trace the model allows. */
  lemma SecondRunMovesAgain(trees: seq<Tree>, targets: seq<Path>, ks: seq<nat>, oks: seq<bool>,
                            listing: seq<Path>, final: Tree, removed: nat,
                            trees': seq<Tree>, targets': seq<Path>, ks': seq<nat>, oks': seq<bool>)
    requires Trace(FirstTree, Numbered(FirstListing, FirstTree), {}, trees, targets, ks, oks) && |targets| == 2
    requires ["sub"] in listing && CleanedUp(trees[2], final, listing, {}, removed)
    requires Trace(final, Numbered(SecondListing, final), {}, trees', targets', ks', oks') && |targets'| >= 1
    ensures targets == [["1_1.jpg"], ["2.jpg"]] && oks[0] && oks[1]
    ensures final == SecondTree && removed == 1
    ensures targets'[0] == ["1.jpg"] && oks'[0] && trees'[1] == Moved(SecondTree, ["1_1.jpg"], ["1.jpg"])
  {
    FirstRun(trees, targets, ks, oks);
    FirstRunCleanup(listing, final, removed);
    SecondRunStepOne(trees', targets', ks', oks');
  }
}
