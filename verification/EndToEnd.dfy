/** The whole way of a share: from the directory tree over the diff and its packets to the
    records a superpeer keeps for the peer. */
module EndToEnd {
  import opened Common
  import opened FileIndex
  import opened ShareDiff
  import opened ShareDiffer
  import opened ShareMerge
  import opened ShareMoves
  import opened Shipping
  import opened Delivery
  import opened NameTests

  ghost predicate GoodRecs(share: seq<Rec>) {
    forall i :: 0 <= i < |share| && share[i].FileRec? ==> FitsLine(share[i].name)
  }

  ghost predicate GoodFiles(files: seq<File>) {
    forall i :: 0 <= i < |files| ==> FitsLine(files[i].name)
  }

  ghost predicate GoodTree(dir: Dir) {
    GoodFiles(dir.files) && forall n :: 0 <= n < |dir.subs| ==> GoodTree(dir.subs[n])
  }

  lemma {:induction false} AddedSendable(files: seq<File>)
    requires GoodFiles(files)
    ensures AllSendable(Added(files))
  {
    if files != [] {
      AddedSendable(files[..|files| - 1]);
    }
  }

  lemma {:induction false} DroppedSendable(recs: seq<Rec>)
    requires GoodRecs(recs)
    ensures AllSendable(Dropped(recs))
  {
    if recs != [] {
      DroppedSendable(recs[..|recs| - 1]);
    }
  }

  lemma {:induction false} BothSendable(a: seq<Change>, b: seq<Change>)
    requires AllSendable(a) && AllSendable(b)
    ensures AllSendable(a + b)
  {}

  lemma {:induction false} ComparedSendable(r: Rec, f: File)
    requires r.FileRec? && FitsLine(r.name) && FitsLine(f.name)
    ensures AllSendable(Compared(r, f))
  {}

  lemma {:induction false} MergedSendable(share: seq<Rec>, pos: nat, end: nat, files: seq<File>)
    requires pos <= end <= |share| && forall i :: pos <= i < end ==> share[i].FileRec?
    requires GoodRecs(share) && GoodFiles(files)
    ensures AllSendable(Merged(share, pos, end, files))
    decreases |files|, end - pos
  {
    hide AllSendable, Added, Dropped, Compared, StrCmp;
    if files == [] || pos == end {
      AddedSendable(files);
      DroppedSendable(share[pos..end]);
      BothSendable(Added(files), Dropped(share[pos..end]));
    } else {
      var m := StrCmp(share[pos].name, files[0].name);
      ComparedSendable(share[pos], files[0]);
      MergedSendable(share, if m <= 0 then pos + 1 else pos, end, if m >= 0 then files[1..] else files);
      BothSendable(Compared(share[pos], files[0]), Merged(share, if m <= 0 then pos + 1 else pos, end, if m >= 0 then files[1..] else files));
    }
  }

  lemma {:induction false} FileChangesSendable(share: seq<Rec>, pos: nat, dir: Dir)
    requires AtDir(share, pos) && GoodRecs(share) && GoodFiles(dir.files)
    ensures AllSendable(FileChanges(share, pos, dir))
  {
    hide Added, Dropped, Merged, StrCmp;
    AddedSendable(dir.files);
    if pos < |share| {
      var end := SectionEnd(share, pos + 1);
      DroppedSendable(share[pos + 1..end]);
      MergedSendable(share, pos + 1, end, dir.files);
    }
  }

  lemma {:induction false} DirChangesSendable(share: seq<Rec>, pos: nat, dir: Dir)
    requires AtDir(share, pos) && GoodRecs(share) && GoodTree(dir)
    ensures AllSendable(DirChanges(share, pos, dir))
    decreases dir, |share| - pos, |dir.subs| + 1
  {
    hide AllSendable, FileChanges, StepAt, PosAfter;
    var p := PosAfter(share, pos, dir);
    FileChangesSendable(share, pos, dir);
    match StepAt(share, pos, dir)
    case Again =>
      DirChangesSendable(share, p, dir);
      BothSendable(FileChanges(share, pos, dir), DirChanges(share, p, dir));
    case Stall =>
      Regroup(FileChanges(share, pos, dir), [], []);
    case Go =>
      SubChangesSendable(share, p, dir, |dir.subs|);
      BothSendable(FileChanges(share, pos, dir), SubChanges(share, p, dir, |dir.subs|));
  }

  lemma {:induction false} SubChangesSendable(share: seq<Rec>, pos: nat, dir: Dir, n: nat)
    requires AtDir(share, pos) && n <= |dir.subs| && GoodRecs(share) && GoodTree(dir)
    ensures AllSendable(SubChanges(share, pos, dir, n))
    decreases dir, |share| - pos, n
  {
    hide DirChanges;
    if n > 0 {
      var p := Visits(share, pos, dir, n - 1).pos;
      SubChangesSendable(share, pos, dir, n - 1);
      DirChangesSendable(share, p, dir.subs[n - 1]);
      BothSendable(SubChanges(share, pos, dir, n - 1), DirChanges(share, p, dir.subs[n - 1]));
    }
  }

  lemma {:induction false} AllChangesSendable(share: seq<Rec>, root: Dir)
    requires AtDir(share, 0) && GoodRecs(share) && GoodTree(root)
    ensures AllSendable(AllChanges(share, root))
  {
    hide DirChanges, Visit, Stalls, StepAt, Dropped;
    DirChangesSendable(share, 0, root);
    DroppedSendable(share[Visit(share, 0, root).pos..]);
    BothSendable(DirChanges(share, 0, root), TopChanges(share, 0, root, true));
  }

  /** A file that is left over is shared still, and any other is not overtaken. */
  ghost predicate KeepsFile(olds: seq<Dir>, root: Dir, id: FileId) {
    var share := FlatListing(olds);
    if id in Ids(LeftOver(share, root)) then id in Ids(FlatListing(Seen(share, 0, root)))
    else !Overtaken(olds, Seen(share, 0, root), id)
  }

  ghost predicate Keeps(olds: seq<Dir>, root: Dir) {
    forall id :: KeepsFile(olds, root, id)
  }

  /** The same in terms of the inputs, with the directories in the order of their paths. */
  ghost predicate KeepsSorted(olds: seq<Dir>, root: Dir) {
    forall id :: KeepsFileSorted(olds, root, id)
  }

  ghost predicate KeepsFileSorted(olds: seq<Dir>, root: Dir, id: FileId) {
    if LeftBehind(olds, root, id) then id in Ids(FlatListing(Reached(olds, root, false).dirs))
    else !MovedUp(olds, Flatten(root), id)
  }

  /** A peer updates its share while its superpeer knows the old one; times can be trusted, `scandir`
      sorts and no file is shared twice. The superpeer ends up with the files of the new index if and
      only if every file that is left over of the old one is among them, which with the same root is
      none, and no other file is overtaken: the merge of the old paths with the new ones never comes
      to its new directory before the old one. With the directories in the order of their paths there
      is more to say:
      - the update fails if and only if the root is guarded;
      - the new index lists the directories not below the first guarded one, in order, and so
        the whole tree if and only if there is none below it;
      - a file is overtaken if and only if it has moved to a directory whose path compares below;
      - a file is left over if and only if the root has moved up past the old one and the file is
        above everything below the new one.
      With `tests == AsCoded` the superpeer compares names as the code does. */
  method UpdateShare(index: Index, ip: u32, port: u16, share: seq<Rec>, root: Dir, indices: nat -> u16, repeats: nat -> nat, tests: Tests,
                     ghost olds: seq<Dir>, ghost all: set<Record>)
    returns (ok: bool, renewed: seq<Rec>)
    requires index.Valid() && Mirrors(index.recs, Ids(share), ip, port) && share == FlatListing(olds)
    requires GoodRecs(share) && GoodTree(root) && Trust(share, root)
    requires OnceEach(Ids(share)) && OnceEach(Ids(Listing(root)))
    requires FilesSorted(olds) && FilesSorted(Flatten(root))
    requires tests == AsCoded ==> ToldApart(index.filehash, all) && index.recs <= all && Recorded(Ids(Listing(root)), ip, port, all)
    modifies index
    ensures index.Valid() && ok == !Stalls(share, 0, root)
    ensures tests == AsCoded ==> index.recs <= all
    ensures !ok ==> renewed == share && index.recs == old(index.recs)
    ensures ok ==> renewed == FlatListing(Seen(share, 0, root)) && FilesSorted(Seen(share, 0, root)) && OnceEach(Ids(renewed))
    ensures ok ==> (Mirrors(index.recs, Ids(renewed), ip, port) <==> Keeps(olds, root))
    ensures SortedDirs(olds) && SortedDirs(Flatten(root)) ==>
      && ok == !Guarded(olds, root)
      && (ok ==> renewed == FlatListing(Reached(olds, root, false).dirs) && SortedDirs(Reached(olds, root, false).dirs))
      && (ok ==> (renewed == Listing(root) <==> !Misses(olds, Flatten(root))))
      && (ok ==> (Mirrors(index.recs, Ids(renewed), ip, port) <==> KeepsSorted(olds, root)))
  {
    hide Coherent, Trust, Listing, FlatListing, Flatten, Seen, Visit, Stalls, AllChanges, Ids, Signed, Replayed, Withdraws, Delivered, PackedAll, LeftOver, AllSendable, GoodTree, SortedDirs, Guarded, Reached, Misses, MovedUp, Overtaken, FilesSorted, OnceEach, Mirrors, Keeps, KeepsSorted, ToldApart;
    var changes;
    ok, renewed, changes := CreateDiff(share, root);
    if SortedDirs(olds) && SortedDirs(Flatten(root)) {
      OnSortedInput(olds, root);
    }
    if !ok {
      return;
    }
    OnceInSeen(share, root);
    SeenFilesSorted(share, root);
    KeptIf(olds, root);
    AllChangesSendable(share, root);
    EndToEndWithRest(index.recs, Ids(share), changes, Ids(renewed), Ids(LeftOver(share, root)), ip, port);
    if tests == AsCoded {
      SeenIsPart(share, 0, root);
      ChangesRecorded(index.recs, Ids(share), Ids(Listing(root)), changes, ip, port, all);
    }
    ShipShare(index, ip, port, PackedAll(changes), indices, repeats, tests, changes, all);
  }

  ghost predicate Recorded(files: multiset<FileId>, ip: u32, port: u16, all: set<Record>) {
    forall id :: id in files ==> RecordOf(id, ip, port) in all
  }

  /** A diff speaks of files of the old share and of the tree only. */
  lemma {:induction false} ChangesRecorded(recs: set<Record>, files: multiset<FileId>, tree: multiset<FileId>, changes: seq<Change>, ip: u32, port: u16, all: set<Record>)
    requires Mirrors(recs, files, ip, port) && recs <= all && Recorded(tree, ip, port, all)
    requires Signed(changes, Minus) <= files && Signed(changes, Plus) <= tree
    ensures forall c :: c in changes ==> RecordOf(c.id, ip, port) in all
  {
    hide Signed;
    forall c | c in changes
      ensures RecordOf(c.id, ip, port) in all
    {
      SignedHas(changes, c.id, c.sign);
      if c.sign == Minus {
        assert c == Change(Minus, c.id) && Signed(changes, Minus)[c.id] <= files[c.id];
        assert RecordOf(c.id, ip, port) in recs;
      } else {
        assert c == Change(Plus, c.id) && Signed(changes, Plus)[c.id] <= tree[c.id];
      }
    }
  }

  lemma {:induction false} KeptIf(olds: seq<Dir>, root: Dir)
    requires FilesSorted(olds) && FilesSorted(Flatten(root))
    requires Trust(FlatListing(olds), root) && OnceEach(Ids(FlatListing(olds))) && OnceEach(Ids(Listing(root)))
    ensures var share := FlatListing(olds);
      Keeps(olds, root) <==>
      forall id :: if id in Ids(LeftOver(share, root)) then id in Ids(FlatListing(Seen(share, 0, root))) else !Withdraws(AllChanges(share, root), id)
  {
    hide Overtaken, FilesSorted, Trust, Listing, FlatListing, Flatten, Seen, AllChanges, Ids, Withdraws, OnceEach, LeftOver;
    var share := FlatListing(olds);
    forall id
      ensures KeepsFile(olds, root, id) <==>
        if id in Ids(LeftOver(share, root)) then id in Ids(FlatListing(Seen(share, 0, root))) else !Withdraws(AllChanges(share, root), id)
    {
      if id !in Ids(LeftOver(share, root)) {
        WithdrawnIffOvertaken(olds, root, id);
      }
    }
  }

  lemma {:induction false} OnSortedInput(olds: seq<Dir>, root: Dir)
    requires SortedDirs(olds) && SortedDirs(Flatten(root))
    ensures Seen(FlatListing(olds), 0, root) == Reached(olds, root, false).dirs && SortedDirs(Reached(olds, root, false).dirs)
    ensures Visit(FlatListing(olds), 0, root).cut <==> Misses(olds, Flatten(root))
    ensures Stalls(FlatListing(olds), 0, root) <==> Guarded(olds, root)
    ensures Keeps(olds, root) <==> KeepsSorted(olds, root)
  {
    hide Overtaken, FlatListing, Flatten, Seen, Visit, Stalls, Ids, SortedDirs, Guarded, Reached, Misses, MovedUp, LeftOver, LeftBehind;
    RootReached(olds, root);
    ReachedInOrder(olds, root, false);
    CutIffMissed(olds, root);
    forall id
      ensures KeepsFile(olds, root, id) <==> KeepsFileSorted(olds, root, id)
    {
      OvertakenWhenSorted(olds, root, id);
      LeftOverIsBehind(olds, root, id);
    }
  }

  ghost predicate NoneOvertaken(olds: seq<Dir>, ds: seq<Dir>) {
    forall id :: !Overtaken(olds, ds, id)
  }

  /** With the same root nothing is left over, so it is the files that are overtaken that decide. */
  lemma {:induction false} SameRootKeeps(olds: seq<Dir>, root: Dir)
    requires olds == [] || olds[0].path == root.path
    ensures Keeps(olds, root) <==> NoneOvertaken(olds, Seen(FlatListing(olds), 0, root))
  {
    hide Overtaken, FlatListing, Seen, KeepsFile;
    if Keeps(olds, root) {
      forall id
        ensures !Overtaken(olds, Seen(FlatListing(olds), 0, root), id)
      {
        assert KeepsFile(olds, root, id);
        SameRootKeepsFile(olds, root, id);
      }
    }
    if NoneOvertaken(olds, Seen(FlatListing(olds), 0, root)) {
      forall id
        ensures KeepsFile(olds, root, id)
      {
        assert !Overtaken(olds, Seen(FlatListing(olds), 0, root), id);
        SameRootKeepsFile(olds, root, id);
      }
    }
  }

  lemma {:induction false} SameRootKeepsFile(olds: seq<Dir>, root: Dir, id: FileId)
    requires olds == [] || olds[0].path == root.path
    ensures KeepsFile(olds, root, id) <==> !Overtaken(olds, Seen(FlatListing(olds), 0, root), id)
  {
    hide Overtaken, Seen, Ids;
    NoIds();
    NothingLeft(olds, root);
  }

  // ---- one update after the other

  /** The directories of the index after an update: a failed one leaves the index as it was. */
  ghost function Indexed(olds: seq<Dir>, root: Dir): seq<Dir> {
    if Stalls(FlatListing(olds), 0, root) then olds else Seen(FlatListing(olds), 0, root)
  }

  ghost function IndexedAll(olds: seq<Dir>, roots: seq<Dir>): seq<Dir> {
    if roots == [] then olds else Indexed(IndexedAll(olds, roots[..|roots| - 1]), roots[|roots| - 1])
  }

  /** What an update relies on. */
  ghost predicate Shareable(olds: seq<Dir>, root: Dir) {
    && GoodTree(root) && FilesSorted(Flatten(root)) && OnceEach(Ids(Listing(root)))
    && Trust(FlatListing(olds), root)
  }

  /** The update goes through and parts the records from the files. */
  ghost predicate Loses(olds: seq<Dir>, root: Dir) {
    !Stalls(FlatListing(olds), 0, root) && !Keeps(olds, root)
  }

  lemma {:induction false} IndexedNext(olds: seq<Dir>, roots: seq<Dir>, k: nat)
    requires k < |roots|
    ensures IndexedAll(olds, roots[..k + 1]) == Indexed(IndexedAll(olds, roots[..k]), roots[k])
  {
    assert roots[..k + 1][..k] == roots[..k];
  }

  lemma {:induction false} GoodIn(dir: Dir, d: Dir)
    requires GoodTree(dir) && d in Flatten(dir)
    ensures GoodFiles(d.files)
    decreases dir, |dir.subs| + 1
  {
    hide GoodFiles, FlattenSubs;
    if d != dir {
      GoodInBelow(dir, |dir.subs|, d);
    }
  }

  lemma {:induction false} GoodInBelow(dir: Dir, n: nat, d: Dir)
    requires GoodTree(dir) && n <= |dir.subs| && d in FlattenSubs(dir, n)
    ensures GoodFiles(d.files)
    decreases dir, n
  {
    hide GoodFiles, Flatten;
    if d in FlattenSubs(dir, n - 1) {
      GoodInBelow(dir, n - 1, d);
    } else {
      GoodIn(dir.subs[n - 1], d);
    }
  }

  lemma {:induction false} GoodListing(ds: seq<Dir>)
    requires forall d :: d in ds ==> GoodFiles(d.files)
    ensures GoodRecs(FlatListing(ds))
  {
    if ds != [] {
      GoodListing(ds[1..]);
      GoodOwn(ds[0]);
      GoodBoth(Own(ds[0]), FlatListing(ds[1..]));
    }
  }

  lemma {:induction false} GoodOwn(d: Dir)
    requires GoodFiles(d.files)
    ensures GoodRecs(Own(d))
  {
    assert forall i :: 0 < i < |Own(d)| ==> Own(d)[i] == RecOf(d.files[i - 1]);
  }

  lemma {:induction false} GoodBoth(a: seq<Rec>, b: seq<Rec>)
    requires GoodRecs(a) && GoodRecs(b)
    ensures GoodRecs(a + b)
  {}

  lemma {:induction false} GoodSeen(share: seq<Rec>, root: Dir)
    requires AtDir(share, 0) && GoodTree(root)
    ensures GoodRecs(FlatListing(Seen(share, 0, root)))
  {
    hide GoodTree, GoodFiles, GoodRecs, Seen, Flatten, FlatListing;
    forall d | d in Seen(share, 0, root)
      ensures GoodFiles(d.files)
    {
      SeenIn(share, 0, root, d);
      GoodIn(root, d);
    }
    GoodListing(Seen(share, 0, root));
  }

  /** Any number of updates: as long as none of them overtakes a file or leaves one over, the
      superpeer has exactly the files of the peer's index, whichever of the updates fail and whatever
      they miss. */
  method UpdateAgainAndAgain(index: Index, ip: u32, port: u16, share: seq<Rec>, roots: seq<Dir>, indices: nat -> u16, repeats: nat -> nat, tests: Tests,
                             ghost olds: seq<Dir>, ghost all: set<Record>)
    returns (renewed: seq<Rec>)
    requires index.Valid() && Mirrors(index.recs, Ids(share), ip, port)
    requires share == FlatListing(olds) && GoodRecs(share) && FilesSorted(olds) && OnceEach(Ids(share))
    requires forall k :: 0 <= k < |roots| ==> Shareable(IndexedAll(olds, roots[..k]), roots[k])
    requires forall k :: 0 <= k < |roots| ==> !Loses(IndexedAll(olds, roots[..k]), roots[k])
    requires tests == AsCoded ==> ToldApart(index.filehash, all) && index.recs <= all
    requires tests == AsCoded ==> forall k :: 0 <= k < |roots| ==> Recorded(Ids(Listing(roots[k])), ip, port, all)
    modifies index
    ensures index.Valid() && renewed == FlatListing(IndexedAll(olds, roots))
    ensures Mirrors(index.recs, Ids(renewed), ip, port)
  {
    hide Coherent, Trust, Listing, FlatListing, Flatten, Seen, Stalls, Ids, GoodTree, GoodRecs, SortedDirs, Guarded, Reached, Misses, MovedUp, Overtaken, FilesSorted, OnceEach, Mirrors, IndexedAll, Keeps, KeepsSorted, ToldApart, Recorded;
    renewed := share;
    ghost var dirs := olds;
    StartIndexed(olds, roots);
    for k := 0 to |roots|
      invariant index.Valid() && dirs == IndexedAll(olds, roots[..k]) && renewed == FlatListing(dirs)
      invariant Mirrors(index.recs, Ids(renewed), ip, port) && (tests == AsCoded ==> index.recs <= all)
      invariant GoodRecs(renewed) && FilesSorted(dirs) && OnceEach(Ids(renewed))
    {
      IndexedNext(olds, roots, k);
      GoodSeen(renewed, roots[k]);
      var ok, next := UpdateShare(index, ip, port, renewed, roots[k], indices, repeats, tests, dirs, all);
      dirs, renewed := Indexed(dirs, roots[k]), next;
    }
    assert roots[..|roots|] == roots;
  }

  lemma {:induction false} StartIndexed(olds: seq<Dir>, roots: seq<Dir>)
    ensures IndexedAll(olds, roots[..0]) == olds
  {}

  /** A file that moved to a directory that is visited earlier is forgotten by the superpeer
      although the peer still shares it, once, as before. */
  lemma {:induction false} MovedFileIsForgotten(x: File, ip: u32, port: u16)
    ensures var share, root, id := Listing(BeforeMove(x)), AfterMove(x), FileId(x.md5, x.name);
      && Ids(share) == multiset{id} == Ids(Listing(root))
      && Withdraws(AllChanges(share, root), id)
      && Delivered({RecordOf(id, ip, port)}, AllChanges(share, root), ip, port) == {}
  {
    hide AllChanges, Listing, Ids, Withdraws, Delivered;
    MovedFileIsWithdrawn(x);
    PlusThenMinus(FileId(x.md5, x.name), ip, port);
    MovedListing(x);
    ListingAfterMove(x);
    OneRecordedFile(x);
  }

  lemma {:induction false} PlusThenMinus(id: FileId, ip: u32, port: u16)
    ensures var changes := [Change(Plus, id), Change(Minus, id)];
      Withdraws(changes, id) && Delivered({RecordOf(id, ip, port)}, changes, ip, port) == {}
  {
    var changes := [Change(Plus, id), Change(Minus, id)];
    assert changes[0] == Change(Plus, id) && changes[1] == Change(Minus, id);
    assert changes[..1] == [Change(Plus, id)] && changes[..1][..0] == [];
    assert Delivered({RecordOf(id, ip, port)}, changes[..1], ip, port) == {RecordOf(id, ip, port)};
  }

  lemma {:induction false} ListingAfterMove(x: File)
    ensures Listing(AfterMove(x)) == [DirRec(1, ROOT), DirRec(2, A), RecOf(x), DirRec(2, B)]
  {
    hide Listing, Listings;
    var dir := AfterMove(x);
    ListingParts(dir);
    ListingsNext(dir, 0);
    ListingsNext(dir, 1);
    LeafListing(dir.subs[0]);
    LeafListing(dir.subs[1]);
  }

  lemma {:induction false} OneRecordedFile(x: File)
    ensures Ids(MovedShare(x)) == multiset{FileId(x.md5, x.name)}
    ensures Ids([DirRec(1, ROOT), DirRec(2, A), RecOf(x), DirRec(2, B)]) == multiset{FileId(x.md5, x.name)}
  {
    hide Ids;
    NoIds();
    NewRec([], DirRec(1, ROOT));
    var one := [DirRec(1, ROOT)];
    assert [] + one == one;
    NewRec(one, DirRec(1, A));
    NewRec(one + [DirRec(1, A)], DirRec(1, B));
    NewRec(one + [DirRec(1, A)] + [DirRec(1, B)], RecOf(x));
    assert MovedShare(x) == one + [DirRec(1, A)] + [DirRec(1, B)] + [RecOf(x)];
    NewRec(one, DirRec(2, A));
    NewRec(one + [DirRec(2, A)], RecOf(x));
    NewRec(one + [DirRec(2, A)] + [RecOf(x)], DirRec(2, B));
    assert [DirRec(1, ROOT), DirRec(2, A), RecOf(x), DirRec(2, B)] == one + [DirRec(2, A)] + [RecOf(x)] + [DirRec(2, B)];
  }
}
