/** What `create_diff` (src/client/shared.c) does in terms of the directories of the old index and
    of the tree: which files its diff withdraws last; and, where both come in the order of their
    paths, which directories it misses. */
module ShareMoves {
  import opened Common
  import opened ShareDiff
  import opened ShareMerge

  // ---- the walk through an index of whole directories

  /** The index lists exactly the directories `rest` from `pos` on. */
  ghost predicate Remains(share: seq<Rec>, pos: nat, rest: seq<Dir>) {
    AtDir(share, pos) && share[pos..] == FlatListing(rest)
  }

  lemma {:induction false} RemainsAll(olds: seq<Dir>)
    ensures Remains(FlatListing(olds), 0, olds)
  {
    var share := FlatListing(olds);
    assert share[0..] == share;
  }

  lemma {:induction false} SectionParts(share: seq<Rec>, pos: nat, r: Rec, files: seq<Rec>, tail: seq<Rec>)
    requires pos <= |share| && share[pos..] == [r] + files + tail
    ensures var e := pos + 1 + |files|;
      && e <= |share| && share[pos] == r && share[pos + 1..e] == files && share[e..] == tail
      && (tail != [] ==> share[e] == tail[0])
  {
    var rest := share[pos..];
    assert share[pos] == rest[0];
    assert share[pos + 1..pos + 1 + |files|] == rest[1..1 + |files|];
    assert share[pos + 1 + |files|..] == rest[1 + |files|..];
  }

  /** The section of the first of them. */
  lemma {:induction false} FirstSection(share: seq<Rec>, pos: nat, rest: seq<Dir>)
    requires Remains(share, pos, rest)
    ensures rest == [] <==> pos == |share|
    ensures rest != [] ==>
      var e := SectionEnd(share, pos + 1);
      && share[pos] == DirRec(rest[0].mtime, rest[0].path)
      && share[pos + 1..e] == FileRecs(rest[0].files)
      && Remains(share, e, rest[1..])
  {
    hide FlatListing, FileRecs, Own, SectionEnd;
    ListingUnfolds(rest);
    if rest != [] {
      var r, files, tail := DirRec(rest[0].mtime, rest[0].path), FileRecs(rest[0].files), FlatListing(rest[1..]);
      SectionParts(share, pos, r, files, tail);
      SectionIs(share, pos + 1, files);
    }
  }

  /** One record of the walk is one step of the merge. */
  lemma {:induction false} StepMerges(share: seq<Rec>, pos: nat, dir: Dir, olds: seq<Dir>, ds: seq<Dir>) returns (rest: seq<Dir>)
    requires Remains(share, pos, olds) && ds != [] && ds[0] == dir
    ensures Remains(share, PosAfter(share, pos, dir), rest)
    ensures Merge(olds, ds) ==
      FileChanges(share, pos, dir) + Merge(rest, if StepAt(share, pos, dir) == Again then ds else ds[1..])
    ensures rest == match StepAt(share, pos, dir)
                    case Again => if olds == [] then [] else olds[1..]
                    case Stall => []
                    case Go => if olds == [] || Below(dir.path, olds[0].path) then olds else olds[1..]
  {
    hide Merged, FileMerge, FlatListing, Added, Dropped, Len, RecLen, StrCmp, Merge;
    FirstSection(share, pos, olds);
    MergeStep(olds, ds);
    rest := olds;
    if olds != [] {
      CmpBack(olds[0].path, dir.path);
      NotBoth(olds[0].path, dir.path);
      if !Below(dir.path, olds[0].path) {
        rest := if StepAt(share, pos, dir) == Stall then [] else olds[1..];
        SectionMerge(share, pos + 1, SectionEnd(share, pos + 1), olds[0].files, dir.files);
      }
    }
    NoListing();
  }

  lemma {:induction false} MergeStep(olds: seq<Dir>, ds: seq<Dir>)
    requires ds != []
    ensures Merge(olds, ds) ==
      if olds == [] || Below(ds[0].path, olds[0].path) then Added(ds[0].files) + Merge(olds, ds[1..])
      else if Below(olds[0].path, ds[0].path) then Dropped(FileRecs(olds[0].files)) + Merge(olds[1..], ds)
      else DirMerge(olds[0], ds[0]) + Merge(Next(olds, ds[0]), ds[1..])
  {
    hide Below, DirMerge, Next, Added, Dropped, FileRecs;
  }

  lemma {:induction false} ListingUnfolds(ds: seq<Dir>)
    ensures ds != [] ==> FlatListing(ds) == [DirRec(ds[0].mtime, ds[0].path)] + FileRecs(ds[0].files) + FlatListing(ds[1..])
  {}

  lemma {:induction false} NoListing()
    ensures FlatListing([]) == []
  {}

  /** The changes of a walk are those of the merge with the directories it comes to. */
  lemma {:induction false} WalkMerges(share: seq<Rec>, pos: nat, dir: Dir, olds: seq<Dir>, ds: seq<Dir>) returns (rest: seq<Dir>)
    requires Remains(share, pos, olds)
    ensures Remains(share, Visit(share, pos, dir).pos, rest)
    ensures Merge(olds, Seen(share, pos, dir) + ds) == DirChanges(share, pos, dir) + Merge(rest, ds)
    decreases dir, |share| - pos, |dir.subs| + 1
  {
    hide Merge, StepAt, PosAfter, FileChanges, SeenSubs, SubChanges, FlatListing, Visits;
    var seen := Seen(share, pos, dir) + ds;
    var p := PosAfter(share, pos, dir);
    rest := StepMerges(share, pos, dir, olds, seen);
    match StepAt(share, pos, dir)
    case Again =>
      ghost var next := rest;
      rest := WalkMerges(share, p, dir, next, ds);
      Regroup(FileChanges(share, pos, dir), DirChanges(share, p, dir), Merge(rest, ds));
    case Stall =>
      assert seen[1..] == ds;
    case Go =>
      ghost var next := rest;
      assert seen[1..] == SeenSubs(share, p, dir, |dir.subs|) + ds;
      rest := WalkMergesBelow(share, p, dir, |dir.subs|, next, ds);
      Regroup(FileChanges(share, pos, dir), SubChanges(share, p, dir, |dir.subs|), Merge(rest, ds));
  }

  lemma {:induction false} WalkMergesBelow(share: seq<Rec>, pos: nat, dir: Dir, n: nat, olds: seq<Dir>, ds: seq<Dir>) returns (rest: seq<Dir>)
    requires Remains(share, pos, olds) && n <= |dir.subs|
    ensures Remains(share, Visits(share, pos, dir, n).pos, rest)
    ensures Merge(olds, SeenSubs(share, pos, dir, n) + ds) == SubChanges(share, pos, dir, n) + Merge(rest, ds)
    decreases dir, |share| - pos, n
  {
    hide Merge, FlatListing, Visit, Seen, DirChanges;
    if n == 0 {
      rest := olds;
      assert [] + ds == ds;
    } else {
      var p := Visits(share, pos, dir, n - 1).pos;
      var a, b := SeenSubs(share, pos, dir, n - 1), Seen(share, p, dir.subs[n - 1]);
      var next := WalkMergesBelow(share, pos, dir, n - 1, olds, b + ds);
      rest := WalkMerges(share, p, dir.subs[n - 1], next, ds);
      Regroup(a, b, ds);
      Regroup(SubChanges(share, pos, dir, n - 1), DirChanges(share, p, dir.subs[n - 1]), Merge(rest, ds));
    }
  }

  lemma {:induction false} MergeWithNone(olds: seq<Dir>)
    ensures Merge(olds, []) == Dropped(FlatListing(olds))
  {
    hide Dropped;
    if olds == [] {
      NoChanges();
    } else {
      MergeWithNone(olds[1..]);
      var files := FileRecs(olds[0].files);
      DroppedJoin(Own(olds[0]), FlatListing(olds[1..]));
      DroppedJoin([DirRec(olds[0].mtime, olds[0].path)], files);
      DirDropsNothing(olds[0]);
    }
  }

  lemma {:induction false} DirDropsNothing(dir: Dir)
    ensures Dropped([DirRec(dir.mtime, dir.path)]) == []
  {}

  lemma {:induction false} DroppedJoin(a: seq<Rec>, b: seq<Rec>)
    ensures Dropped(a + b) == Dropped(a) + Dropped(b)
  {
    if b == [] {
      assert a + b == a;
    } else {
      var n := |b| - 1;
      assert (a + b)[..|a| + n] == a + b[..n];
      DroppedJoin(a, b[..n]);
    }
  }

  /** The whole diff is the merge of the old directories with the ones the walk comes to, but for
      the withdrawals of what is left over. */
  lemma {:induction false} DiffIsMerge(olds: seq<Dir>, root: Dir)
    ensures Merge(olds, Seen(FlatListing(olds), 0, root)) == AllChanges(FlatListing(olds), root) + Dropped(LeftOver(FlatListing(olds), root))
  {
    hide Merge, Visit, Seen, DirChanges, Dropped, Stalls, FlatListing, StepAt;
    var share := FlatListing(olds);
    RemainsAll(olds);
    var rest := WalkMerges(share, 0, root, olds, []);
    assert Seen(share, 0, root) + [] == Seen(share, 0, root);
    MergeWithNone(rest);
    FirstSection(share, Visit(share, 0, root).pos, rest);
    NoListing();
    NoChanges();
    StalledAtTheEnd(share, root);
    var dirs := DirChanges(share, 0, root);
    assert dirs + [] == dirs && dirs + [] + Dropped(FlatListing(rest)) == dirs + Dropped(FlatListing(rest));
    assert dirs + Dropped(FlatListing(rest)) + [] == dirs + Dropped(FlatListing(rest));
  }

  lemma {:induction false} StalledAtTheEnd(share: seq<Rec>, root: Dir)
    requires AtDir(share, 0)
    ensures Stalls(share, 0, root) && StepAt(share, 0, root) != Again ==> Visit(share, 0, root).pos == |share|
  {}

  // ---- which directories the walk misses

  /** The index has the directory unchanged, directly before a short tail. */
  ghost predicate Guarded(olds: seq<Dir>, dir: Dir) {
    exists i :: 0 <= i < |olds| && olds[i].path == dir.path && olds[i].mtime == dir.mtime && Short(FlatListing(olds[i + 1..]))
  }

  /** The directories of a tree without those below the first guarded one. */
  datatype Reach = Reach(dirs: seq<Dir>, stalled: bool)

  ghost function Reached(olds: seq<Dir>, dir: Dir, stalled: bool): (r: Reach)
    ensures r.dirs != [] && r.dirs[0] == dir
    decreases dir, |dir.subs| + 1
  {
    if !stalled && Guarded(olds, dir) then Reach([dir], true)
    else
      var below := ReachedSubs(olds, dir, |dir.subs|, stalled);
      Reach([dir] + below.dirs, below.stalled)
  }

  ghost function ReachedSubs(olds: seq<Dir>, dir: Dir, n: nat, stalled: bool): Reach
    requires n <= |dir.subs|
    decreases dir, n
  {
    if n == 0 then Reach([], stalled)
    else
      var before := ReachedSubs(olds, dir, n - 1, stalled);
      var last := Reached(olds, dir.subs[n - 1], before.stalled);
      Reach(before.dirs + last.dirs, last.stalled)
  }

  /** The directories passed so far all compare below `path`. */
  ghost predicate Ahead(olds: seq<Dir>, m: nat, path: seq<byte>) {
    m <= |olds| && forall i :: 0 <= i < m ==> Below(olds[i].path, path)
  }

  /** What is left of the index: nothing once a visit has failed. */
  ghost function Left(olds: seq<Dir>, m: nat, stalled: bool): seq<Dir>
    requires m <= |olds|
  {
    if stalled then [] else olds[m..]
  }

  /** The directories passed so far compare below everything that is above the last of `ds`. */
  ghost predicate Passed(olds: seq<Dir>, m: nat, ds: seq<Dir>) {
    m <= |olds| && ds != [] && forall i :: 0 <= i < m ==> !Below(ds[|ds| - 1].path, olds[i].path)
  }

  /** The directories that are left all compare above the last of `ds`. */
  ghost predicate Stops(olds: seq<Dir>, m: nat, ds: seq<Dir>) {
    ds != [] && forall i :: m <= i < |olds| ==> Below(ds[|ds| - 1].path, olds[i].path)
  }

  lemma {:induction false} StopsAt(olds: seq<Dir>, m: nat, dir: Dir)
    requires SortedDirs(olds) && m <= |olds| && (m < |olds| ==> !Below(olds[m].path, dir.path))
    ensures Stops(olds, if m < |olds| && olds[m].path == dir.path then m + 1 else m, [dir])
  {
    hide Below;
    if m < |olds| && olds[m].path != dir.path {
      if !Below(dir.path, olds[m].path) {
        SamePath(olds[m].path, dir.path);
      }
      forall i | m < i < |olds|
        ensures Below(dir.path, olds[i].path)
      {
        BelowBelow(dir.path, olds[m].path, olds[i].path);
      }
    }
  }

  lemma {:induction false} StopsOn(olds: seq<Dir>, m: nat, ds: seq<Dir>, next: seq<Dir>)
    requires Stops(olds, m, next)
    ensures Stops(olds, m, ds + next)
  {}

  lemma {:induction false} PassedIsAhead(olds: seq<Dir>, m: nat, ds: seq<Dir>, next: seq<Dir>)
    requires Passed(olds, m, ds) && SortedDirs(ds + next) && next != []
    ensures Ahead(olds, m, next[0].path)
  {
    hide Below;
    var last := ds[|ds| - 1];
    assert (ds + next)[|ds| - 1] == last && (ds + next)[|ds|] == next[0];
    forall i | 0 <= i < m
      ensures Below(olds[i].path, next[0].path)
    {
      if !Below(olds[i].path, last.path) {
        SamePath(olds[i].path, last.path);
      } else {
        BelowBelow(olds[i].path, last.path, next[0].path);
      }
    }
  }

  lemma {:induction false} AheadIsPassed(olds: seq<Dir>, m: nat, dir: Dir)
    requires Ahead(olds, m, dir.path)
    ensures Passed(olds, m, [dir])
  {
    hide Below;
    forall i | 0 <= i < m
      ensures !Below(dir.path, olds[i].path)
    {
      NotBoth(dir.path, olds[i].path);
    }
  }

  lemma {:induction false} PassedOne(olds: seq<Dir>, m: nat, dir: Dir)
    requires Ahead(olds, m, dir.path) && m < |olds| && olds[m].path == dir.path
    ensures Passed(olds, m + 1, [dir])
  {
    hide Below;
    AheadIsPassed(olds, m, dir);
    NotBoth(dir.path, dir.path);
  }

  lemma {:induction false} PassedOn(olds: seq<Dir>, m: nat, ds: seq<Dir>, next: seq<Dir>)
    requires Passed(olds, m, next)
    ensures Passed(olds, m, ds + next)
  {}

  lemma {:induction false} SortedParts(a: seq<Dir>, b: seq<Dir>)
    requires SortedDirs(a + b)
    ensures SortedDirs(a) && SortedDirs(b)
    ensures forall x, y :: x in a && y in b ==> Below(x.path, y.path)
  {
    var all := a + b;
    assert forall i :: 0 <= i < |a| ==> a[i] == all[i];
    assert forall i :: 0 <= i < |b| ==> b[i] == all[|a| + i];
  }

  lemma {:induction false} SortedAt(ds: seq<Dir>, i: nat, j: nat)
    requires SortedDirs(ds) && i < |ds| && j < |ds|
    ensures i < j ==> Below(ds[i].path, ds[j].path)
  {}

  /** Where the walk comes to `dir`, it is guarded if and only if the next old directory guards it. */
  lemma {:induction false} GuardAt(olds: seq<Dir>, m: nat, dir: Dir)
    requires SortedDirs(olds) && Ahead(olds, m, dir.path) && (m < |olds| ==> !Below(olds[m].path, dir.path))
    ensures Guarded(olds, dir) <==>
      m < |olds| && olds[m].path == dir.path && olds[m].mtime == dir.mtime && Short(FlatListing(olds[m + 1..]))
  {
    hide Below, Short, FlatListing;
    if Guarded(olds, dir) {
      var i :| 0 <= i < |olds| && olds[i].path == dir.path && olds[i].mtime == dir.mtime && Short(FlatListing(olds[i + 1..]));
      NotBoth(dir.path, dir.path);
      assert m <= i;
      SortedAt(olds, m, i);
    }
  }

  /** What one step of the walk is on sorted input. */
  lemma {:induction false} StepIs(share: seq<Rec>, pos: nat, dir: Dir, olds: seq<Dir>, m: nat, stalled: bool)
    requires SortedDirs(olds) && Ahead(olds, m, dir.path) && Remains(share, pos, Left(olds, m, stalled))
    ensures match StepAt(share, pos, dir)
            case Again =>
              && !stalled && m < |olds| && Ahead(olds, m + 1, dir.path)
              && Remains(share, PosAfter(share, pos, dir), olds[m + 1..])
            case Stall =>
              !stalled && Guarded(olds, dir) && Remains(share, PosAfter(share, pos, dir), [])
            case Go =>
              && (stalled || !Guarded(olds, dir))
              && var m' := if !stalled && m < |olds| && olds[m].path == dir.path then m + 1 else m;
                 && Passed(olds, m', [dir]) && (!stalled ==> Stops(olds, m', [dir]))
                 && Remains(share, PosAfter(share, pos, dir), Left(olds, m', stalled))
  {
    hide FlatListing, Short, StrCmp, Guarded, FileRecs, Passed, Stops, SectionEnd;
    var rest := Left(olds, m, stalled);
    FirstSection(share, pos, rest);
    AheadIsPassed(olds, m, dir);
    NoListing();
    if !stalled && m < |olds| {
      assert rest[0] == olds[m] && rest[1..] == olds[m + 1..];
      CmpBack(olds[m].path, dir.path);
      NotBoth(olds[m].path, dir.path);
      if olds[m].path == dir.path {
        PassedOne(olds, m, dir);
      }
      if !Below(olds[m].path, dir.path) {
        GuardAt(olds, m, dir);
        StopsAt(olds, m, dir);
      }
    } else if !stalled {
      GuardAt(olds, m, dir);
      StopsAt(olds, m, dir);
    }
  }

  /** On sorted input the walk comes to exactly the directories not below the first guarded one. */
  lemma {:induction false} SeenIsReached(share: seq<Rec>, pos: nat, dir: Dir, olds: seq<Dir>, m: nat, stalled: bool) returns (m': nat)
    requires SortedDirs(olds) && SortedDirs(Flatten(dir))
    requires Ahead(olds, m, dir.path) && Remains(share, pos, Left(olds, m, stalled))
    ensures var r := Reached(olds, dir, stalled);
      && Seen(share, pos, dir) == r.dirs
      && Passed(olds, m', Flatten(dir)) && (!r.stalled ==> Stops(olds, m', Flatten(dir)))
      && Remains(share, Visit(share, pos, dir).pos, Left(olds, m', r.stalled))
    decreases dir, |share| - pos, |dir.subs| + 1
  {
    hide StepAt, PosAfter, SeenSubs, Visits, ReachedSubs, Ahead, Passed, Stops, Guarded, SortedDirs, FlattenSubs;
    StepIs(share, pos, dir, olds, m, stalled);
    var p := PosAfter(share, pos, dir);
    match StepAt(share, pos, dir)
    case Again =>
      m' := SeenIsReached(share, p, dir, olds, m + 1, false);
    case Stall =>
      StartPassed(olds, Flatten(dir));
      m' := 0;
    case Go =>
      var next := if !stalled && m < |olds| && olds[m].path == dir.path then m + 1 else m;
      m' := SeenBelowIsReached(share, p, dir, |dir.subs|, olds, next, stalled);
  }

  lemma {:induction false} StartPassed(olds: seq<Dir>, ds: seq<Dir>)
    requires ds != []
    ensures Passed(olds, 0, ds)
  {}

  lemma {:induction false} SeenBelowIsReached(share: seq<Rec>, pos: nat, dir: Dir, n: nat, olds: seq<Dir>, m: nat, stalled: bool) returns (m': nat)
    requires n <= |dir.subs| && SortedDirs(olds) && SortedDirs([dir] + FlattenSubs(dir, n))
    requires Passed(olds, m, [dir]) && (!stalled ==> Stops(olds, m, [dir])) && Remains(share, pos, Left(olds, m, stalled))
    ensures var r := ReachedSubs(olds, dir, n, stalled);
      && SeenSubs(share, pos, dir, n) == r.dirs
      && Passed(olds, m', [dir] + FlattenSubs(dir, n)) && (!r.stalled ==> Stops(olds, m', [dir] + FlattenSubs(dir, n)))
      && Remains(share, Visits(share, pos, dir, n).pos, Left(olds, m', r.stalled))
    decreases dir, |share| - pos, n
  {
    hide Seen, Visit, Reached, Ahead, Passed, Stops, SortedDirs, Flatten, FlatListing;
    if n == 0 {
      assert [dir] + [] == [dir];
      m' := m;
    } else {
      var before, sub := FlattenSubs(dir, n - 1), dir.subs[n - 1];
      Regroup([dir], before, Flatten(sub));
      SortedParts([dir] + before, Flatten(sub));
      var next := SeenBelowIsReached(share, pos, dir, n - 1, olds, m, stalled);
      var r := ReachedSubs(olds, dir, n - 1, stalled);
      PassedIsAhead(olds, next, [dir] + before, Flatten(sub));
      m' := SeenIsReached(share, Visits(share, pos, dir, n - 1).pos, sub, olds, next, r.stalled);
      PassedOn(olds, m', [dir] + before, Flatten(sub));
      if !ReachedSubs(olds, dir, n, stalled).stalled {
        StopsOn(olds, m', [dir] + before, Flatten(sub));
      }
    }
  }

  /** The walk of the whole diff. */
  lemma {:induction false} RootReached(olds: seq<Dir>, root: Dir)
    requires SortedDirs(olds) && SortedDirs(Flatten(root))
    ensures Seen(FlatListing(olds), 0, root) == Reached(olds, root, false).dirs
  {
    hide Seen, Reached, FlatListing, SortedDirs, Flatten, Visit;
    RemainsAll(olds);
    assert olds[0..] == olds;
    var _ := SeenIsReached(FlatListing(olds), 0, root, olds, 0, false);
  }

  // ---- the first guarded directory decides

  ghost function FirstGuarded(olds: seq<Dir>, ds: seq<Dir>): Option<Dir> {
    if ds == [] then None else if Guarded(olds, ds[0]) then Some(ds[0]) else FirstGuarded(olds, ds[1..])
  }

  lemma {:induction false} FirstGuardedJoin(olds: seq<Dir>, a: seq<Dir>, b: seq<Dir>)
    ensures FirstGuarded(olds, a + b) == if FirstGuarded(olds, a).Some? then FirstGuarded(olds, a) else FirstGuarded(olds, b)
  {
    hide Guarded;
    if a == [] {
      assert a + b == b;
    } else {
      assert (a + b)[1..] == a[1..] + b;
      FirstGuardedJoin(olds, a[1..], b);
    }
  }

  /** Directories are missed if and only if the first guarded one has some below it. */
  ghost predicate Misses(olds: seq<Dir>, ds: seq<Dir>) {
    var g := FirstGuarded(olds, ds);
    g.Some? && g.value.subs != []
  }

  lemma {:induction false} ReachedUnlessMissed(olds: seq<Dir>, dir: Dir, stalled: bool)
    ensures var r, all := Reached(olds, dir, stalled), Flatten(dir);
      && (r.stalled <==> stalled || FirstGuarded(olds, all).Some?)
      && if !stalled && Misses(olds, all) then |r.dirs| < |all| else r.dirs == all
    decreases dir, |dir.subs| + 1
  {
    hide Guarded, FlattenSubs, ReachedSubs;
    SomeBelow(dir);
    if stalled || !Guarded(olds, dir) {
      ReachedBelowUnlessMissed(olds, dir, |dir.subs|, stalled);
    }
  }

  lemma {:induction false} ReachedBelowUnlessMissed(olds: seq<Dir>, dir: Dir, n: nat, stalled: bool)
    requires n <= |dir.subs|
    ensures var r, all := ReachedSubs(olds, dir, n, stalled), FlattenSubs(dir, n);
      && (r.stalled <==> stalled || FirstGuarded(olds, all).Some?)
      && if !stalled && Misses(olds, all) then |r.dirs| < |all| else r.dirs == all
    decreases dir, n
  {
    hide Guarded, Flatten, Reached;
    if n > 0 {
      var before := ReachedSubs(olds, dir, n - 1, stalled);
      ReachedBelowUnlessMissed(olds, dir, n - 1, stalled);
      ReachedUnlessMissed(olds, dir.subs[n - 1], before.stalled);
      FirstGuardedJoin(olds, FlattenSubs(dir, n - 1), Flatten(dir.subs[n - 1]));
    }
  }

  /** On sorted input: the walk misses directories if and only if the first directory of the
      tree that is unchanged and has its section directly before a short tail has directories
      below it; and the whole diff fails if and only if the root is such a directory. */
  lemma {:induction false} CutIffMissed(olds: seq<Dir>, root: Dir)
    requires SortedDirs(olds) && SortedDirs(Flatten(root))
    ensures Visit(FlatListing(olds), 0, root).cut <==> Misses(olds, Flatten(root))
    ensures Stalls(FlatListing(olds), 0, root) <==> Guarded(olds, root)
  {
    hide Visit, Seen, Reached, FlatListing, SortedDirs, Flatten, Misses;
    RootReached(olds, root);
    ReachedUnlessMissed(olds, root, false);
    SeenUnlessCut(FlatListing(olds), 0, root);
    StallsAtRoot(olds, root);
  }

  lemma {:induction false} StallsAtRoot(olds: seq<Dir>, root: Dir)
    requires SortedDirs(olds)
    ensures Stalls(FlatListing(olds), 0, root) <==> Guarded(olds, root)
  {
    hide FlatListing, SortedDirs, Guarded, Stalls;
    RemainsAll(olds);
    assert olds[0..] == olds;
    StallsIffGuarded(FlatListing(olds), 0, root, olds, 0);
  }

  lemma {:induction false} StallsIffGuarded(share: seq<Rec>, pos: nat, dir: Dir, olds: seq<Dir>, m: nat)
    requires SortedDirs(olds) && Ahead(olds, m, dir.path) && Remains(share, pos, olds[m..])
    ensures Stalls(share, pos, dir) <==> Guarded(olds, dir)
    decreases |share| - pos
  {
    hide FlatListing, SortedDirs, Guarded, StepAt, PosAfter, Ahead;
    StepIs(share, pos, dir, olds, m, false);
    if StepAt(share, pos, dir) == Again {
      StallsIffGuarded(share, PosAfter(share, pos, dir), dir, olds, m + 1);
    }
  }

  // ---- the directories a walk comes to are some of the tree's, in order

  lemma {:induction false} ReachedInOrder(olds: seq<Dir>, dir: Dir, stalled: bool)
    requires SortedDirs(Flatten(dir))
    ensures SortedDirs(Reached(olds, dir, stalled).dirs)
    ensures forall x :: x in Reached(olds, dir, stalled).dirs ==> x in Flatten(dir)
    decreases dir, |dir.subs| + 1
  {
    hide Guarded, FlattenSubs, ReachedSubs, SortedDirs;
    SortedOne(dir, FlattenSubs(dir, |dir.subs|));
    if stalled || !Guarded(olds, dir) {
      ReachedBelowInOrder(olds, dir, |dir.subs|, stalled);
      var below := ReachedSubs(olds, dir, |dir.subs|, stalled).dirs;
      SortedSome([dir], FlattenSubs(dir, |dir.subs|), [dir], below);
    }
  }

  lemma {:induction false} ReachedBelowInOrder(olds: seq<Dir>, dir: Dir, n: nat, stalled: bool)
    requires n <= |dir.subs| && SortedDirs(FlattenSubs(dir, n))
    ensures SortedDirs(ReachedSubs(olds, dir, n, stalled).dirs)
    ensures forall x :: x in ReachedSubs(olds, dir, n, stalled).dirs ==> x in FlattenSubs(dir, n)
    decreases dir, n
  {
    hide Guarded, Flatten, Reached, SortedDirs;
    if n == 0 {
      SortedNone();
    } else {
      var before := ReachedSubs(olds, dir, n - 1, stalled);
      var a, b := FlattenSubs(dir, n - 1), Flatten(dir.subs[n - 1]);
      SortedParts(a, b);
      ReachedBelowInOrder(olds, dir, n - 1, stalled);
      ReachedInOrder(olds, dir.subs[n - 1], before.stalled);
      SortedSome(a, b, before.dirs, Reached(olds, dir.subs[n - 1], before.stalled).dirs);
    }
  }

  lemma {:induction false} SortedNone()
    ensures SortedDirs([])
  {}

  lemma {:induction false} SortedOne(dir: Dir, ds: seq<Dir>)
    requires SortedDirs([dir] + ds)
    ensures SortedDirs([dir]) && SortedDirs(ds)
  {
    SortedParts([dir], ds);
  }

  lemma {:induction false} SortedSome(a: seq<Dir>, b: seq<Dir>, x: seq<Dir>, y: seq<Dir>)
    requires SortedDirs(a + b) && SortedDirs(x) && SortedDirs(y)
    requires forall d :: d in x ==> d in a
    requires forall d :: d in y ==> d in b
    ensures SortedDirs(x + y)
  {
    SortedParts(a, b);
    SortedJoin(x, y);
  }

  lemma {:induction false} SortedJoin(a: seq<Dir>, b: seq<Dir>)
    requires SortedDirs(a) && SortedDirs(b)
    requires forall x, y :: x in a && y in b ==> Below(x.path, y.path)
    ensures SortedDirs(a + b)
  {
    var all := a + b;
    forall i, j | 0 <= i < j < |all|
      ensures Below(all[i].path, all[j].path)
    {
      if i < |a| <= j {
        assert all[i] in a && all[j] in b;
      }
    }
  }

  /** A directory that is missed comes after a guarded one. */
  lemma {:induction false} MissedIsAbove(olds: seq<Dir>, dir: Dir, stalled: bool, x: Dir)
    requires SortedDirs(Flatten(dir)) && x in Flatten(dir) && x !in Reached(olds, dir, stalled).dirs
    ensures exists g :: g in Flatten(dir) && Guarded(olds, g) && Below(g.path, x.path)
    decreases dir, |dir.subs| + 1
  {
    hide Guarded, FlattenSubs, ReachedSubs, SortedDirs;
    SortedOne(dir, FlattenSubs(dir, |dir.subs|));
    SortedParts([dir], FlattenSubs(dir, |dir.subs|));
    if stalled || !Guarded(olds, dir) {
      MissedBelowIsAbove(olds, dir, |dir.subs|, stalled, x);
    } else {
      assert dir in Flatten(dir) && dir in [dir];
    }
  }

  lemma {:induction false} MissedBelowIsAbove(olds: seq<Dir>, dir: Dir, n: nat, stalled: bool, x: Dir)
    requires n <= |dir.subs| && SortedDirs(FlattenSubs(dir, n))
    requires x in FlattenSubs(dir, n) && x !in ReachedSubs(olds, dir, n, stalled).dirs
    ensures exists g :: g in FlattenSubs(dir, n) && Guarded(olds, g) && Below(g.path, x.path)
    decreases dir, n
  {
    hide Guarded, Flatten, Reached, SortedDirs;
    var before := ReachedSubs(olds, dir, n - 1, stalled);
    SortedParts(FlattenSubs(dir, n - 1), Flatten(dir.subs[n - 1]));
    if x in FlattenSubs(dir, n - 1) {
      MissedBelowIsAbove(olds, dir, n - 1, stalled, x);
    } else {
      MissedIsAbove(olds, dir.subs[n - 1], before.stalled, x);
    }
  }

  /** No file of the index is in a directory above a guarded one. */
  lemma {:induction false} NoFileAbove(olds: seq<Dir>, g: Dir, i: nat, id: FileId)
    requires SortedDirs(olds) && Guarded(olds, g) && i < |olds| && Below(g.path, olds[i].path)
    ensures id !in IdsIn(olds[i].files)
  {
    hide Below, Short, FlatListing;
    var k :| 0 <= k < |olds| && olds[k].path == g.path && olds[k].mtime == g.mtime && Short(FlatListing(olds[k + 1..]));
    SortedAt(olds, i, k);
    NotBoth(olds[i].path, g.path);
    NotBoth(g.path, g.path);
    var tail := olds[k + 1..];
    IsShort(tail);
    ShortHasNoFiles(tail, id);
    NoPlace(tail, id, i - k - 1);
    assert tail[i - k - 1] == olds[i];
  }

  lemma {:induction false} IsShort(ds: seq<Dir>)
    requires Short(FlatListing(ds))
    ensures Len(FlatListing(ds)) < READ_AHEAD
  {}

  /** A file moves up among the directories the walk comes to if and only if it does in the tree. */
  lemma {:induction false} MovedUpIsReached(olds: seq<Dir>, root: Dir, id: FileId)
    requires SortedDirs(olds) && SortedDirs(Flatten(root))
    ensures MovedUp(olds, Reached(olds, root, false).dirs, id) <==> MovedUp(olds, Flatten(root), id)
  {
    hide Below, IdsIn, SortedDirs, Reached, Flatten, Guarded;
    var seen, all := Reached(olds, root, false).dirs, Flatten(root);
    ReachedInOrder(olds, root, false);
    if MovedUp(olds, seen, id) {
      var i, j :| 0 <= i < |olds| && 0 <= j < |seen| && Below(seen[j].path, olds[i].path)
        && id in IdsIn(olds[i].files) && id in IdsIn(seen[j].files);
      MovedUpWith(olds, all, id, i, seen[j]);
    }
    if MovedUp(olds, all, id) {
      var i, j :| 0 <= i < |olds| && 0 <= j < |all| && Below(all[j].path, olds[i].path)
        && id in IdsIn(olds[i].files) && id in IdsIn(all[j].files);
      var x := all[j];
      if x !in seen {
        MissedIsAbove(olds, root, false, x);
        var g :| g in all && Guarded(olds, g) && Below(g.path, x.path);
        BelowBelow(g.path, x.path, olds[i].path);
        NoFileAbove(olds, g, i, id);
        assert false;
      } else {
        MovedUpWith(olds, seen, id, i, x);
      }
    }
  }

  lemma {:induction false} MovedUpWith(olds: seq<Dir>, ds: seq<Dir>, id: FileId, i: nat, d: Dir)
    requires i < |olds| && d in ds && Below(d.path, olds[i].path) && id in IdsIn(olds[i].files) && id in IdsIn(d.files)
    ensures MovedUp(olds, ds, id)
  {
    hide Below, IdsIn;
    var j :| 0 <= j < |ds| && ds[j] == d;
    assert Below(ds[j].path, olds[i].path) && id in IdsIn(ds[j].files);
  }

  // ---- the merge's conditions from those of the diff

  lemma {:induction false} OwnIds(files: seq<File>, id: FileId)
    ensures Ids(FileRecs(files))[id] > 0 <==> id in IdsIn(files)
  {
    if files != [] {
      OwnIds(files[..|files| - 1], id);
      LastFile(files);
      assert FileRecs(files)[..|files| - 1] == FileRecs(files[..|files| - 1]);
    }
  }

  lemma {:induction false} DirIds(dir: Dir, id: FileId)
    ensures Ids(Own(dir))[id] > 0 <==> id in IdsIn(dir.files)
  {
    hide Ids;
    NoIds();
    OwnIds(dir.files, id);
    assert [] + [DirRec(dir.mtime, dir.path)] == [DirRec(dir.mtime, dir.path)];
    NewRec([], DirRec(dir.mtime, dir.path));
    IdsJoin([DirRec(dir.mtime, dir.path)], FileRecs(dir.files));
  }

  /** The ids of a list of directories: those of the first and those of the rest. */
  lemma {:induction false} FlatIds(ds: seq<Dir>)
    requires ds != []
    ensures Ids(FlatListing(ds)) == Ids(Own(ds[0])) + Ids(FlatListing(ds[1..]))
  {
    hide Ids, Own;
    IdsJoin(Own(ds[0]), FlatListing(ds[1..]));
  }

  lemma {:induction false} FlatHas(ds: seq<Dir>, i: nat, id: FileId)
    requires i < |ds| && id in IdsIn(ds[i].files)
    ensures Ids(FlatListing(ds))[id] > 0
  {
    hide Ids, Own, FlatListing, IdsIn;
    FlatIds(ds);
    if i == 0 {
      DirIds(ds[0], id);
    } else {
      assert ds[1..][i - 1] == ds[i];
      FlatHas(ds[1..], i - 1, id);
    }
  }

  /** If no file occurs twice in an index, no two of its directories have one in common. */
  lemma {:induction false} OnceIsApart(ds: seq<Dir>)
    requires OnceEach(Ids(FlatListing(ds)))
    ensures Apart(ds)
  {
    hide Ids, Own, FlatListing, IdsIn, OnceEach;
    if ds != [] {
      FlatIds(ds);
      OncePart(Ids(FlatListing(ds)), Ids(Own(ds[0])), Ids(FlatListing(ds[1..])));
      OnceIsApart(ds[1..]);
      forall i, j | 0 <= i < j < |ds|
        ensures IdsIn(ds[i].files) !! IdsIn(ds[j].files)
      {
        if i > 0 {
          assert ds[i] == ds[1..][i - 1] && ds[j] == ds[1..][j - 1];
        } else {
          forall id | id in IdsIn(ds[i].files)
            ensures id !in IdsIn(ds[j].files)
          {
            NotTwice(ds, j, id);
          }
        }
      }
    }
  }

  lemma {:induction false} OncePart(all: multiset<FileId>, a: multiset<FileId>, b: multiset<FileId>)
    requires OnceEach(all) && all == a + b
    ensures OnceEach(b) && forall id :: a[id] > 0 ==> b[id] == 0
  {
    forall id
      ensures b[id] <= 1 && (a[id] > 0 ==> b[id] == 0)
    {
      assert all[id] == a[id] + b[id];
    }
  }

  lemma {:induction false} NotTwice(ds: seq<Dir>, j: nat, id: FileId)
    requires OnceEach(Ids(FlatListing(ds))) && 0 < j < |ds| && id in IdsIn(ds[0].files)
    ensures id !in IdsIn(ds[j].files)
  {
    hide Ids, Own, FlatListing, IdsIn;
    FlatIds(ds);
    DirIds(ds[0], id);
    OncePart(Ids(FlatListing(ds)), Ids(Own(ds[0])), Ids(FlatListing(ds[1..])));
    if id in IdsIn(ds[j].files) {
      assert ds[1..][j - 1] == ds[j];
      FlatHas(ds[1..], j - 1, id);
      assert false;
    }
  }

  /** The section of every directory of the index. */
  lemma {:induction false} SectionOf(olds: seq<Dir>, i: nat) returns (k: nat)
    requires i <= |olds|
    ensures Remains(FlatListing(olds), k, olds[i..])
  {
    hide FlatListing, SectionEnd;
    if i == 0 {
      k := 0;
      assert olds[0..] == olds;
      RemainsAll(olds);
    } else {
      var before := SectionOf(olds, i - 1);
      FirstSection(FlatListing(olds), before, olds[i - 1..]);
      assert olds[i - 1..][1..] == olds[i..];
      k := SectionEnd(FlatListing(olds), before + 1);
    }
  }

  lemma {:induction false} TrustIn(share: seq<Rec>, dir: Dir, d: Dir)
    requires Trust(share, dir) && d in Flatten(dir)
    ensures Trust(share, d)
    decreases dir, |dir.subs| + 1
  {
    hide Trust, FlattenSubs;
    if d != dir {
      TrustInBelow(share, dir, |dir.subs|, d);
    }
  }

  lemma {:induction false} TrustInBelow(share: seq<Rec>, dir: Dir, n: nat, d: Dir)
    requires Trust(share, dir) && n <= |dir.subs| && d in FlattenSubs(dir, n)
    ensures Trust(share, d)
    decreases dir, n
  {
    hide Trust, Flatten;
    if d in FlattenSubs(dir, n - 1) {
      TrustInBelow(share, dir, n - 1, d);
    } else {
      TrustBelow(share, dir, n - 1);
      TrustIn(share, dir.subs[n - 1], d);
    }
  }

  lemma {:induction false} SameRecs(a: seq<File>, b: seq<File>)
    requires FileRecs(a) == FileRecs(b)
    ensures a == b
  {
    forall i | 0 <= i < |a|
      ensures a[i] == b[i]
    {
      assert FileRecs(a)[i] == FileRecs(b)[i];
    }
  }

  lemma {:induction false} TrustAgrees(olds: seq<Dir>, i: nat, d: Dir)
    requires Trust(FlatListing(olds), d) && i < |olds|
    ensures DirsAgree(olds[i], d)
  {
    hide FlatListing, FileRecs, SectionEnd, TrustSection;
    var share, o := FlatListing(olds), olds[i];
    var k := SectionOf(olds, i);
    FirstSection(share, k, olds[i..]);
    if o.path == d.path {
      assert TrustDirAt(share, k, d) && TrustFilesAt(share, k, d);
      if o.mtime == d.mtime {
        SameRecs(o.files, d.files);
      } else {
        SectionAgrees(share, k + 1, SectionEnd(share, k + 1), o.files, d.files);
      }
    }
  }

  lemma {:induction false} SectionAgrees(share: seq<Rec>, start: nat, end: nat, os: seq<File>, fs: seq<File>)
    requires start <= end <= |share| && share[start..end] == FileRecs(os) && TrustSection(share, start, end, fs)
    ensures FilesAgree(os, fs)
  {
    forall o, f | o in os && f in fs && o.name == f.name && o.mtime == f.mtime
      ensures o.md5 == f.md5
    {
      var i :| 0 <= i < |os| && os[i] == o;
      assert share[start + i] == FileRecs(os)[i];
      assert TrustRec(share[start + i], f);
    }
  }

  lemma {:induction false} SeenIn(share: seq<Rec>, pos: nat, dir: Dir, d: Dir)
    requires AtDir(share, pos) && d in Seen(share, pos, dir)
    ensures d in Flatten(dir)
    decreases dir, |share| - pos, |dir.subs| + 1
  {
    hide StepAt, PosAfter, SeenSubs, FlattenSubs;
    var p := PosAfter(share, pos, dir);
    match StepAt(share, pos, dir)
    case Again => SeenIn(share, p, dir, d);
    case Stall =>
    case Go =>
      if d != dir {
        SeenBelowIn(share, p, dir, |dir.subs|, d);
      }
  }

  lemma {:induction false} SeenBelowIn(share: seq<Rec>, pos: nat, dir: Dir, n: nat, d: Dir)
    requires AtDir(share, pos) && n <= |dir.subs| && d in SeenSubs(share, pos, dir, n)
    ensures d in FlattenSubs(dir, n)
    decreases dir, |share| - pos, n
  {
    hide Seen, Flatten, Visits;
    if d in SeenSubs(share, pos, dir, n - 1) {
      SeenBelowIn(share, pos, dir, n - 1, d);
    } else {
      SeenIn(share, Visits(share, pos, dir, n - 1).pos, dir.subs[n - 1], d);
    }
  }

  lemma {:induction false} SeenFilesSorted(share: seq<Rec>, root: Dir)
    requires AtDir(share, 0) && FilesSorted(Flatten(root))
    ensures FilesSorted(Seen(share, 0, root))
  {
    hide Seen, Flatten, SortedFiles;
    forall d | d in Seen(share, 0, root)
      ensures SortedFiles(d.files)
    {
      SeenIn(share, 0, root, d);
    }
  }

  /** A new index has no more files than the tree, even where the walk misses directories. */
  lemma {:induction false} OnceInSeen(share: seq<Rec>, root: Dir)
    requires AtDir(share, 0) && OnceEach(Ids(Listing(root)))
    ensures OnceEach(Ids(FlatListing(Seen(share, 0, root))))
  {
    hide Ids, Listing, Seen, FlatListing;
    SeenIsPart(share, 0, root);
    var part, all := Ids(FlatListing(Seen(share, 0, root))), Ids(Listing(root));
    forall id
      ensures part[id] <= 1
    {
      assert part[id] <= all[id];
    }
  }

  lemma {:induction false} DroppedSigns(recs: seq<Rec>, id: FileId)
    ensures Change(Plus, id) !in Dropped(recs) && (Change(Minus, id) in Dropped(recs) <==> id in Ids(recs))
  {
    if recs != [] {
      DroppedSigns(recs[..|recs| - 1], id);
    }
  }

  /** The diff of a share withdraws a file it has announced before if and only if the file is
      overtaken: the merge of the two lists of paths comes to its new directory first. (What is left
      over of the old index, under a root that has changed, is not withdrawn at all.) */
  lemma {:induction false} WithdrawnIffOvertaken(olds: seq<Dir>, root: Dir, id: FileId)
    requires FilesSorted(olds) && FilesSorted(Flatten(root))
    requires Trust(FlatListing(olds), root) && OnceEach(Ids(FlatListing(olds))) && OnceEach(Ids(Listing(root)))
    requires id !in Ids(LeftOver(FlatListing(olds), root))
    ensures Withdraws(AllChanges(FlatListing(olds), root), id) <==> Overtaken(olds, Seen(FlatListing(olds), 0, root), id)
  {
    hide Trust, FlatListing, Ids, Listing, Flatten, AllChanges, Merge, Withdraws, Overtaken, FilesSorted, Seen, Apart, OnceEach, Dropped, LeftOver;
    var share := FlatListing(olds);
    var seen := Seen(share, 0, root);
    DiffIsMerge(olds, root);
    DroppedSigns(LeftOver(share, root), id);
    OneSign(Dropped(LeftOver(share, root)), id);
    WithdrawsJoin(AllChanges(share, root), Dropped(LeftOver(share, root)), id);
    OnceIsApart(olds);
    OnceInSeen(share, root);
    OnceIsApart(seen);
    SeenFilesSorted(share, root);
    forall i, j | 0 <= i < |olds| && 0 <= j < |seen|
      ensures DirsAgree(olds[i], seen[j])
    {
      SeenIn(share, 0, root, seen[j]);
      TrustIn(share, root, seen[j]);
      TrustAgrees(olds, i, seen[j]);
    }
    OvertakenIsWithdrawn(olds, seen, id);
  }

  /** With the directories in the order of their paths: if and only if the file has moved up, from a
      directory of the index to one whose path compares below. */
  lemma {:induction false} WithdrawnIffMovedUp(olds: seq<Dir>, root: Dir, id: FileId)
    requires FilesSorted(olds) && FilesSorted(Flatten(root))
    requires Trust(FlatListing(olds), root) && OnceEach(Ids(FlatListing(olds))) && OnceEach(Ids(Listing(root)))
    requires SortedDirs(olds) && SortedDirs(Flatten(root)) && id !in Ids(LeftOver(FlatListing(olds), root))
    ensures Withdraws(AllChanges(FlatListing(olds), root), id) <==> MovedUp(olds, Flatten(root), id)
  {
    hide Trust, FlatListing, Ids, Listing, Flatten, Reached, AllChanges, Withdraws, MovedUp, Overtaken, SortedDirs, FilesSorted, Seen, OnceEach, LeftOver;
    WithdrawnIffOvertaken(olds, root, id);
    OvertakenWhenSorted(olds, root, id);
  }

  lemma {:induction false} OvertakenWhenSorted(olds: seq<Dir>, root: Dir, id: FileId)
    requires SortedDirs(olds) && SortedDirs(Flatten(root))
    ensures Overtaken(olds, Seen(FlatListing(olds), 0, root), id) <==> MovedUp(olds, Flatten(root), id)
  {
    hide FlatListing, Flatten, Reached, MovedUp, Overtaken, SortedDirs, Seen;
    RootReached(olds, root);
    ReachedInOrder(olds, root, false);
    OvertakenIsMovedUp(olds, Reached(olds, root, false).dirs, id);
    MovedUpIsReached(olds, root, id);
  }

  /** The file is in a directory of the index above all those of the tree, and the root has moved up
      past the one the index began with. */
  ghost predicate LeftBehind(olds: seq<Dir>, root: Dir, id: FileId) {
    var all := Flatten(root);
    && olds != [] && Below(olds[0].path, root.path)
    && exists i :: 0 <= i < |olds| && id in IdsIn(olds[i].files) && Below(all[|all| - 1].path, olds[i].path)
  }

  lemma {:induction false} FlatHolds(ds: seq<Dir>, id: FileId) returns (i: nat)
    requires id in Ids(FlatListing(ds))
    ensures i < |ds| && id in IdsIn(ds[i].files)
  {
    hide Ids, Own, FlatListing, IdsIn;
    NoListing();
    NoIds();
    FlatIds(ds);
    DirIds(ds[0], id);
    if id in IdsIn(ds[0].files) {
      i := 0;
    } else {
      i := FlatHolds(ds[1..], id);
      i := i + 1;
    }
  }

  /** With the directories in order, these are the files that are left over. */
  lemma {:induction false} LeftOverIsBehind(olds: seq<Dir>, root: Dir, id: FileId)
    requires SortedDirs(olds) && SortedDirs(Flatten(root))
    ensures id in Ids(LeftOver(FlatListing(olds), root)) <==> LeftBehind(olds, root, id)
  {
    hide Seen, Reached, FlatListing, SortedDirs, Flatten, Visit, Ids, IdsIn, Below, Guarded;
    var share, all := FlatListing(olds), Flatten(root);
    RemainsAll(olds);
    assert olds[0..] == olds;
    NoIds();
    RootStep(olds, root);
    if StepAt(share, 0, root) == Again {
      var m := SeenIsReached(share, 0, root, olds, 0, false);
      var stalled := Reached(olds, root, false).stalled;
      if id in Ids(LeftOver(share, root)) {
        var i := FlatHolds(Left(olds, m, stalled), id);
        assert !stalled && Left(olds, m, stalled)[i] == olds[m + i];
      }
      if LeftBehind(olds, root, id) {
        var i :| 0 <= i < |olds| && id in IdsIn(olds[i].files) && Below(all[|all| - 1].path, olds[i].path);
        if stalled {
          StalledHasNoneAbove(olds, root, i, id);
          assert false;
        } else {
          assert Passed(olds, m, all);
          assert i >= m && Left(olds, m, stalled)[i - m] == olds[i];
          FlatHas(Left(olds, m, stalled), i - m, id);
        }
      }
    }
  }

  lemma {:induction false} RootStep(olds: seq<Dir>, root: Dir)
    ensures StepAt(FlatListing(olds), 0, root) == Again <==> olds != [] && Below(olds[0].path, root.path)
  {
    hide Own, Short, SectionEnd;
  }

  /** Once a visit has failed no file lies above the tree. */
  lemma {:induction false} StalledHasNoneAbove(olds: seq<Dir>, root: Dir, i: nat, id: FileId)
    requires SortedDirs(olds) && SortedDirs(Flatten(root)) && Reached(olds, root, false).stalled
    requires i < |olds| && Below(Flatten(root)[|Flatten(root)| - 1].path, olds[i].path)
    ensures id !in IdsIn(olds[i].files)
  {
    hide Below, IdsIn, Reached, Flatten, Guarded;
    var all := Flatten(root);
    ReachedUnlessMissed(olds, root, false);
    var k := FirstGuardedAt(olds, all);
    if k < |all| - 1 {
      BelowBelow(all[k].path, all[|all| - 1].path, olds[i].path);
    }
    NoFileAbove(olds, all[k], i, id);
  }

  lemma {:induction false} FirstGuardedAt(olds: seq<Dir>, ds: seq<Dir>) returns (k: nat)
    requires FirstGuarded(olds, ds).Some?
    ensures k < |ds| && Guarded(olds, ds[k])
  {
    hide Guarded;
    if Guarded(olds, ds[0]) {
      k := 0;
    } else {
      k := FirstGuardedAt(olds, ds[1..]);
      k := k + 1;
    }
  }

  // ---- trees whose directories come in the order of their paths

  const SLASH: byte := 47

  ghost predicate AboveSlash(name: seq<byte>) {
    forall i :: 0 <= i < |name| ==> name[i] > SLASH
  }

  /** The path of a subdirectory: that of the directory, a slash, and a name. */
  ghost predicate Named(dir: Dir, sub: Dir, name: seq<byte>) {
    sub.path == dir.path + [SLASH] + name && AboveSlash(name)
  }

  function NameIn(dir: Dir, sub: Dir): seq<byte> {
    if |sub.path| <= |dir.path| then [] else sub.path[|dir.path| + 1..]
  }

  /** Subdirectories in the order of their names, all octets of these above the slash. */
  ghost predicate WellNamed(dir: Dir) {
    && (forall n :: 0 <= n < |dir.subs| ==> Named(dir, dir.subs[n], NameIn(dir, dir.subs[n])))
    && (forall m, n :: 0 <= m < n < |dir.subs| ==> Below(NameIn(dir, dir.subs[m]), NameIn(dir, dir.subs[n])))
    && (forall n :: 0 <= n < |dir.subs| ==> WellNamed(dir.subs[n]))
  }

  /** `path` is that of the directory `p` or of something below it. */
  ghost predicate Under(p: seq<byte>, path: seq<byte>) {
    path == p || (|p| < |path| && path[..|p|] == p && path[|p|] == SLASH)
  }

  lemma {:induction false} CmpAfter(p: seq<byte>, a: seq<byte>, b: seq<byte>)
    ensures StrCmp(p + a, p + b) == StrCmp(a, b)
  {
    if p == [] {
      assert p + a == a && p + b == b;
    } else {
      assert (p + a)[1..] == p[1..] + a && (p + b)[1..] == p[1..] + b;
      CmpAfter(p[1..], a, b);
    }
  }

  /** Two names decide, whatever follows a slash behind them. */
  lemma {:induction false} NamesDecide(a: seq<byte>, b: seq<byte>, s: seq<byte>, t: seq<byte>)
    requires Below(a, b) && AboveSlash(a) && AboveSlash(b)
    requires (s != [] ==> s[0] == SLASH) && (t != [] ==> t[0] == SLASH)
    ensures Below(a + s, b + t)
  {
    if a == [] {
      assert a + s == s && (b + t)[0] == b[0];
    } else if a[0] == b[0] {
      assert (a + s)[1..] == a[1..] + s && (b + t)[1..] == b[1..] + t;
      NamesDecide(a[1..], b[1..], s, t);
    } else {
      assert (a + s)[0] == a[0] && (b + t)[0] == b[0];
    }
  }

  lemma {:induction false} UnderSplit(p: seq<byte>, path: seq<byte>) returns (rest: seq<byte>)
    requires Under(p, path)
    ensures path == p + rest && (rest != [] ==> rest[0] == SLASH)
  {
    rest := path[|p|..];
  }

  /** What is under one subdirectory compares below what is under a later one. */
  lemma {:induction false} SubsInOrder(dir: Dir, m: nat, n: nat, x: seq<byte>, y: seq<byte>)
    requires WellNamed(dir) && m < n < |dir.subs| && Under(dir.subs[m].path, x) && Under(dir.subs[n].path, y)
    ensures Below(x, y)
  {
    hide WellNamed, Under, Below, AboveSlash;
    var a, b := NameIn(dir, dir.subs[m]), NameIn(dir, dir.subs[n]);
    SubNames(dir, m, n);
    var s := UnderSplit(dir.subs[m].path, x);
    var t := UnderSplit(dir.subs[n].path, y);
    var p := dir.path + [SLASH];
    NamesDecide(a, b, s, t);
    assert x == p + (a + s) && y == p + (b + t);
    BelowAfter(p, a + s, b + t);
  }

  lemma {:induction false} BelowAfter(p: seq<byte>, a: seq<byte>, b: seq<byte>)
    requires Below(a, b)
    ensures Below(p + a, p + b)
  {
    CmpAfter(p, a, b);
  }

  lemma {:induction false} SubNames(dir: Dir, m: nat, n: nat)
    requires WellNamed(dir) && m < n < |dir.subs|
    ensures Named(dir, dir.subs[m], NameIn(dir, dir.subs[m])) && Named(dir, dir.subs[n], NameIn(dir, dir.subs[n]))
    ensures Below(NameIn(dir, dir.subs[m]), NameIn(dir, dir.subs[n]))
  {
    hide Named, Below, NameIn;
  }

  lemma {:induction false} UnderUnder(p: seq<byte>, q: seq<byte>, path: seq<byte>)
    requires Under(p, q) && Under(q, path)
    ensures Under(p, path)
  {
    if path != q {
      assert path[..|p|] == path[..|q|][..|p|];
      assert p != q ==> path[|p|] == path[..|q|][|p|];
    }
  }

  lemma {:induction false} UnderIsAbove(p: seq<byte>, path: seq<byte>)
    requires Under(p, path) && path != p
    ensures Below(p, path)
  {
    var rest := UnderSplit(p, path);
    CmpAfter(p, [], rest);
    assert p + [] == p;
  }

  lemma {:induction false} SubIsUnder(dir: Dir, n: nat)
    requires WellNamed(dir) && n < |dir.subs|
    ensures Under(dir.path, dir.subs[n].path) && dir.subs[n].path != dir.path && WellNamed(dir.subs[n])
  {
    assert Named(dir, dir.subs[n], NameIn(dir, dir.subs[n]));
    assert dir.subs[n].path[..|dir.path|] == dir.path;
  }

  /** With such names the directories of a tree are in the order of their paths. */
  lemma {:induction false} TreeIsSorted(dir: Dir)
    requires WellNamed(dir)
    ensures SortedDirs(Flatten(dir)) && forall x :: x in Flatten(dir) ==> Under(dir.path, x.path)
    decreases dir, |dir.subs| + 1
  {
    hide WellNamed, FlattenSubs, Below;
    TreeIsSortedBelow(dir, |dir.subs|);
    var below := FlattenSubs(dir, |dir.subs|);
    forall y | y in below
      ensures Below(dir.path, y.path) && Under(dir.path, y.path)
    {
      var n :| 0 <= n < |dir.subs| && Under(dir.subs[n].path, y.path);
      SubIsUnder(dir, n);
      UnderUnder(dir.path, dir.subs[n].path, y.path);
      UnderIsAbove(dir.path, y.path);
    }
    SortedJoin([dir], below);
  }

  lemma {:induction false} TreeIsSortedBelow(dir: Dir, n: nat)
    requires WellNamed(dir) && n <= |dir.subs|
    ensures SortedDirs(FlattenSubs(dir, n))
    ensures forall y :: y in FlattenSubs(dir, n) ==> exists m :: 0 <= m < n && Under(dir.subs[m].path, y.path)
    decreases dir, n
  {
    hide WellNamed, Flatten, Below, Under, SortedDirs;
    if n == 0 {
      SortedNone();
    } else {
      var a, b := FlattenSubs(dir, n - 1), Flatten(dir.subs[n - 1]);
      TreeIsSortedBelow(dir, n - 1);
      SubIsUnder(dir, n - 1);
      TreeIsSorted(dir.subs[n - 1]);
      forall x, y | x in a && y in b
        ensures Below(x.path, y.path)
      {
        var m :| 0 <= m < n - 1 && Under(dir.subs[m].path, x.path);
        SubsInOrder(dir, m, n - 1, x.path, y.path);
      }
      SortedJoin(a, b);
    }
  }

  // ---- names with octets below the slash

  const S: seq<byte> := [47, 115]
  const SA: seq<byte> := [47, 115, 47, 97]
  const SAX: seq<byte> := [47, 115, 47, 97, 47, 120]
  const SA_B: seq<byte> := [47, 115, 47, 97, 45, 98]

  /** "/s" with "/s/a/x" and, next to "a", "/s/a-b" that holds `f`. */
  function WithX(f: File): Dir {
    Dir(S, 1, [], [Dir(SA, 1, [], [Dir(SAX, 1, [], [])]), Dir(SA_B, 1, [f], [])])
  }

  /** The same without "/s/a/x". */
  function WithoutX(f: File): Dir {
    Dir(S, 1, [], [Dir(SA, 2, [], []), Dir(SA_B, 1, [f], [])])
  }

  function DirsWithX(f: File): seq<Dir> {
    [WithX(f), Dir(SA, 1, [], [Dir(SAX, 1, [], [])]), Dir(SAX, 1, [], []), Dir(SA_B, 1, [f], [])]
  }

  function DirsWithoutX(f: File): seq<Dir> {
    [WithoutX(f), Dir(SA, 2, [], []), Dir(SA_B, 1, [f], [])]
  }

  lemma {:induction false} FlattenTwo(dir: Dir)
    requires |dir.subs| == 2
    ensures Flatten(dir) == [dir] + Flatten(dir.subs[0]) + Flatten(dir.subs[1])
  {
    assert FlattenSubs(dir, 0) == [];
    assert FlattenSubs(dir, 1) == FlattenSubs(dir, 0) + Flatten(dir.subs[0]);
    assert FlattenSubs(dir, 2) == FlattenSubs(dir, 1) + Flatten(dir.subs[1]);
  }

  lemma {:induction false} FlattenLeaf(dir: Dir)
    requires dir.subs == []
    ensures Flatten(dir) == [dir]
  {}

  lemma {:induction false} FlattenOne(dir: Dir)
    requires |dir.subs| == 1
    ensures Flatten(dir) == [dir] + Flatten(dir.subs[0])
  {
    assert FlattenSubs(dir, 0) == [];
    assert FlattenSubs(dir, 1) == FlattenSubs(dir, 0) + Flatten(dir.subs[0]);
  }

  lemma {:induction false} FlattenBoth(f: File)
    ensures Flatten(WithX(f)) == DirsWithX(f) && Flatten(WithoutX(f)) == DirsWithoutX(f)
  {
    hide Flatten;
    var a, b := WithX(f).subs[0], WithX(f).subs[1];
    FlattenTwo(WithX(f));
    FlattenOne(a);
    FlattenLeaf(a.subs[0]);
    FlattenLeaf(b);
    FlattenTwo(WithoutX(f));
    FlattenLeaf(WithoutX(f).subs[0]);
  }

  lemma {:induction false} SiblingPaths()
    ensures Below(S, SA) && Below(SA, SAX) && Below(SA, SA_B) && Below(SA_B, SAX)
  {
    assert S[1..] == [115] && SA[1..] == [115, 47, 97] && SAX[1..] == [115, 47, 97, 47, 120] && SA_B[1..] == [115, 47, 97, 45, 98];
    assert S[1..][1..] == [] && SA[1..][1..] == [47, 97] && SAX[1..][1..] == [47, 97, 47, 120] && SA_B[1..][1..] == [47, 97, 45, 98];
    assert SA[1..][1..][1..] == [97] && SAX[1..][1..][1..] == [97, 47, 120] && SA_B[1..][1..][1..] == [97, 45, 98];
    assert SA[1..][1..][1..][1..] == [] && SAX[1..][1..][1..][1..] == [47, 120] && SA_B[1..][1..][1..][1..] == [45, 98];
  }

  lemma {:induction false} NothingLeft(olds: seq<Dir>, root: Dir)
    requires olds == [] || olds[0].path == root.path
    ensures LeftOver(FlatListing(olds), root) == [] && Dropped(LeftOver(FlatListing(olds), root)) == []
  {
    hide Visit, Own;
    NoChanges();
  }

  /** A tail with a file is not short. */
  lemma {:induction false} FileTailIsLong(share: seq<Rec>, k: nat)
    requires k < |share| && share[|share| - 1].FileRec?
    ensures !Short(share[k..])
    decreases |share| - k
  {
    LenFrom(share, k);
    if k < |share| - 1 {
      FileTailIsLong(share, k + 1);
    }
  }

  lemma {:induction false} ShareWithX(f: File)
    ensures FlatListing(DirsWithX(f)) == [DirRec(1, S), DirRec(1, SA), DirRec(1, SAX), DirRec(1, SA_B), RecOf(f)]
  {
    var ds := DirsWithX(f);
    assert ds[1..][1..][1..] == [ds[3]] && ds[1..][1..] == [ds[2], ds[3]] && ds[1..] == [ds[1], ds[2], ds[3]];
    assert FlatListing([ds[3]]) == [DirRec(1, SA_B), RecOf(f)];
    assert FlatListing([ds[2], ds[3]]) == [DirRec(1, SAX), DirRec(1, SA_B), RecOf(f)] by {
      assert [ds[2], ds[3]][1..] == [ds[3]];
    }
    assert FlatListing(ds[1..]) == [DirRec(1, SA), DirRec(1, SAX), DirRec(1, SA_B), RecOf(f)];
  }

  /** The dash compares below the slash, so "/s/a-b" comes before "/s/a/x" for `strcmp` and after
      it in the tree: once "/s/a/x" is gone, the unchanged `f` in "/s/a-b" is announced again and
      then withdrawn. No file has moved. */
  lemma {:induction false} SiblingIsWithdrawn(f: File)
    ensures AllChanges(Listing(WithX(f)), WithoutX(f)) == [Change(Plus, FileIdOf(f)), Change(Minus, FileIdOf(f))]
    ensures forall id :: !MovedUp(Flatten(WithX(f)), Flatten(WithoutX(f)), id)
  {
    hide Listing, Flatten, FlatListing, AllChanges, Seen, Merge, Visit, Below, IdsIn, Short, Len;
    var olds, ds := DirsWithX(f), DirsWithoutX(f);
    FlattenBoth(f);
    ListingIsFlat(WithX(f));
    ShareWithX(f);
    var share := FlatListing(olds);
    forall k | 0 < k < |share|
      ensures !Short(share[k..])
    {
      FileTailIsLong(share, k);
    }
    NothingIsCut(share, 0, WithoutX(f));
    SeenUnlessCut(share, 0, WithoutX(f));
    DiffIsMerge(olds, WithoutX(f));
    NothingLeft(olds, WithoutX(f));
    MergeSiblings(f);
    SiblingPaths();
    NotBoth(SA_B, SA_B);
    NothingElse(f);
  }

  lemma {:induction false} NothingElse(f: File)
    ensures forall i, id :: 0 <= i < 3 ==> id !in IdsIn(DirsWithX(f)[i].files)
    ensures forall j, id :: 0 <= j < 2 ==> id !in IdsIn(DirsWithoutX(f)[j].files)
  {}

  lemma {:induction false} MergeSiblings(f: File)
    ensures Merge(DirsWithX(f), DirsWithoutX(f)) == [Change(Plus, FileIdOf(f)), Change(Minus, FileIdOf(f))]
  {
    hide FlatListing, Below, Added, Dropped, Next, Merge;
    var olds, ds := DirsWithX(f), DirsWithoutX(f);
    SiblingPaths();
    MergeBoth(olds, ds);
    MergeBoth(olds[1..], ds[1..]);
    assert olds[1..] == [olds[1], olds[2], olds[3]] && ds[1..] == [ds[1], ds[2]];
    assert olds[1..][1..] == [olds[2], olds[3]] && ds[1..][1..] == [ds[2]];
    NextWithFile(olds, ds[0]);
    NextWithFile(olds[1..], ds[1]);
    NoChanges();
    assert FileRecs([]) == [];
    MergeLast(olds[2], olds[3], ds[2]);
    OneOfEach(f);
    assert DirMerge(olds[0], ds[0]) == [] && DirMerge(olds[1], ds[1]) == [];
  }

  /** The same directory on both sides. */
  lemma {:induction false} MergeBoth(olds: seq<Dir>, ds: seq<Dir>)
    requires olds != [] && ds != [] && olds[0].path == ds[0].path
    ensures Merge(olds, ds) == DirMerge(olds[0], ds[0]) + Merge(Next(olds, ds[0]), ds[1..])
  {
    hide Below, DirMerge, Next;
    NotBoth(olds[0].path, ds[0].path);
  }

  /** A new directory before two old ones, the first of them empty. */
  lemma {:induction false} MergeLast(a: Dir, b: Dir, d: Dir)
    requires Below(d.path, a.path) && a.files == []
    ensures Merge([a, b], [d]) == Added(d.files) + Dropped(FileRecs(b.files))
  {
    hide Below, Added, Dropped, Next;
    NoChanges();
    assert FileRecs([]) == [] && [a, b][1..] == [b] && [d][1..] == [] && [b][1..] == [];
    assert Merge([b], []) == Dropped(FileRecs(b.files)) + Merge([], []);
    assert Merge([a, b], []) == Dropped([]) + Merge([b], []);
  }

  lemma {:induction false} OneOfEach(f: File)
    ensures Added([f]) == [Change(Plus, FileIdOf(f))] && Dropped(FileRecs([f])) == [Change(Minus, FileIdOf(f))]
  {
    assert [f][..0] == [] && FileRecs([f]) == [RecOf(f)] && [RecOf(f)][..0] == [];
  }

  lemma {:induction false} NextWithFile(olds: seq<Dir>, d: Dir)
    requires |olds| > 1 && |olds[|olds| - 1].files| == 1
    ensures Next(olds, d) == olds[1..]
  {
    hide FlatListing, Own, Len;
    var last := [olds[|olds| - 1]];
    FlatOne(last[0]);
    OwnLen(last[0]);
    assert olds[1..] == olds[1..|olds| - 1] + last;
    FlatJoin(olds[1..|olds| - 1], last);
    LenJoin(FlatListing(olds[1..|olds| - 1]), FlatListing(last));
  }
}
