/** `create_diff` (src/client/shared.c): the merge of the old share index with the directory
    tree, with its cursor that moves forward and back and its two output files. */
module ShareDiffer {
  import opened Common
  import opened ShareDiff
  import opened ShareFile

  class Differ {
    const share: seq<Rec>
    var pos: nat
    var renewed: seq<Rec>
    var changes: seq<Change>
    ghost var kept: multiset<FileId>

    ghost predicate Valid()
      reads this
    {
      pos <= |share| && Balanced(share, pos, renewed, changes, kept)
    }

    constructor (share: seq<Rec>)
      ensures Valid() && this.share == share && pos == 0 && renewed == [] && changes == []
    {
      this.share := share;
      pos, renewed, changes, kept := 0, [], [], multiset{};
    }

    // ---- one record at a time

    method ReadDir() returns (r: Rec)
      requires Valid() && pos < |share| && share[pos].DirRec?
      modifies `pos
      ensures Valid() && pos == old(pos) + 1 && r == share[old(pos)]
    {
      NextRec(share, pos);
      r := share[pos];
      pos := pos + 1;
    }

    /** Seeks back over a directory record. */
    method Unread()
      requires Valid() && 0 < pos && share[pos - 1].DirRec?
      modifies `pos
      ensures Valid() && pos == old(pos) - 1
    {
      NextRec(share, pos - 1);
      pos := pos - 1;
    }

    method WriteDir(dir: Dir)
      requires Valid()
      modifies `renewed
      ensures Valid() && renewed == old(renewed) + [DirRec(dir.mtime, dir.path)]
    {
      NewRec(renewed, DirRec(dir.mtime, dir.path));
      renewed := renewed + [DirRec(dir.mtime, dir.path)];
    }

    method WriteDiff(c: Change)
      modifies `changes
      ensures changes == old(changes) + [c]
      ensures forall sign :: Signed(changes, sign) == Signed(old(changes), sign) + if c.sign == sign then multiset{c.id} else multiset{}
    {
      forall sign {
        NewChange(changes, c, sign);
      }
      changes := changes + [c];
    }

    method AddSharedFile(f: File)
      requires Valid()
      modifies `renewed, `changes
      ensures Valid()
      ensures renewed == old(renewed) + [RecOf(f)] && changes == old(changes) + [Change(Plus, FileId(f.md5, f.name))]
    {
      hide Ids, Signed;
      NewRec(renewed, RecOf(f));
      renewed := renewed + [RecOf(f)];
      WriteDiff(Change(Plus, FileId(f.md5, f.name)));
    }

    /** The file record at the cursor has no file any more. */
    method RemoveFile()
      requires Valid() && pos < |share| && share[pos].FileRec?
      modifies `pos, `changes
      ensures Valid() && pos == old(pos) + 1
      ensures changes == old(changes) + [Change(Minus, FileId(share[old(pos)].md5, share[old(pos)].name))]
    {
      hide Ids, Signed;
      NextRec(share, pos);
      WriteDiff(Change(Minus, FileId(share[pos].md5, share[pos].name)));
      pos := pos + 1;
    }

    /** The record at the cursor is still right. */
    method CopyRec()
      requires Valid() && pos < |share|
      modifies `pos, `renewed, `kept
      ensures Valid() && pos == old(pos) + 1 && renewed == old(renewed) + [share[old(pos)]]
    {
      hide Ids, Signed;
      NextRec(share, pos);
      NewRec(renewed, share[pos]);
      renewed := renewed + [share[pos]];
      kept := kept + IdOf(share[pos]);
      pos := pos + 1;
    }

    /** The record at the cursor has a file with new contents: `f`. */
    method UpdateFile(f: File)
      requires Valid() && pos < |share| && share[pos].FileRec? && share[pos].name == f.name
      modifies `pos, `renewed, `changes
      ensures Valid() && pos == old(pos) + 1 && renewed == old(renewed) + [RecOf(f)]
      ensures changes == old(changes) + [Change(Minus, FileId(share[old(pos)].md5, f.name)), Change(Plus, FileId(f.md5, f.name))]
    {
      hide Balanced;
      RemoveFile();
      AddSharedFile(f);
    }

    // ---- one directory at a time

    method AddSharedFiles(files: seq<File>, start: nat)
      requires Valid() && start <= |files|
      modifies `renewed, `changes
      ensures Valid() && renewed == old(renewed) + FileRecs(files[start..])
      ensures changes == old(changes) + Added(files[start..])
    {
      hide Balanced, FileRecs, Added;
      NoFiles(files, start);
      NoChanges();
      assert files[start..start] == [];
      var i := start;
      while i < |files|
        invariant start <= i <= |files|
        invariant Valid() && renewed == old(renewed) + FileRecs(files[start..i])
        invariant changes == old(changes) + Added(files[start..i])
      {
        NextFile(files, start, i);
        AddedNext(files, start, i);
        AddSharedFile(files[i]);
        i := i + 1;
      }
      assert files[start..|files|] == files[start..];
    }

    method AddDir(dir: Dir)
      requires Valid()
      modifies `renewed, `changes
      ensures Valid() && renewed == old(renewed) + Own(dir) && changes == old(changes) + Added(dir.files)
    {
      hide Balanced, FileRecs;
      OwnAppended(renewed, dir);
      WriteDir(dir);
      AddSharedFiles(dir.files, 0);
      assert dir.files[0..] == dir.files;
    }

    method RemoveDir()
      requires Valid()
      modifies `pos, `changes
      ensures Valid() && pos == SectionEnd(share, old(pos))
      ensures changes == old(changes) + Dropped(share[old(pos)..pos])
    {
      hide Balanced, Dropped;
      NoChanges();
      assert share[pos..pos] == [];
      while pos < |share|
        invariant Valid() && old(pos) <= pos && SectionEnd(share, pos) == SectionEnd(share, old(pos))
        invariant changes == old(changes) + Dropped(share[old(pos)..pos])
        decreases |share| - pos
      {
        if share[pos].DirRec? {
          break;
        }
        DroppedNext(share, old(pos), pos);
        RemoveFile();
      }
    }

    method RemoveAllFiles()
      requires Valid()
      modifies `pos, `changes
      ensures Valid() && pos == |share|
      ensures changes == old(changes) + Dropped(share[old(pos)..])
    {
      hide Balanced, Dropped;
      NoChanges();
      assert share[pos..pos] == [];
      while pos < |share|
        invariant Valid() && old(pos) <= pos
        invariant changes == old(changes) + Dropped(share[old(pos)..pos])
        decreases |share| - pos
      {
        DroppedNext(share, old(pos), pos);
        if share[pos].DirRec? {
          var _ := ReadDir();
        } else {
          RemoveFile();
        }
      }
      assert share[old(pos)..pos] == share[old(pos)..];
    }

    /** Reads ahead before it looks at the tag, so a short tail of directories fails it. */
    method CopyDir() returns (ok: bool)
      requires Valid()
      modifies `pos, `renewed, `kept
      ensures var e := SectionEnd(share, old(pos));
        && Valid()
        && renewed == old(renewed) + share[old(pos)..e]
        && ok == !Short(share[e..]) && (ok <==> |IndexOctets(share[e..])| == 0 || |IndexOctets(share[e..])| >= 21)
        && pos == if ok then e else |share|
    {
      hide Ids, Signed, IndexOctets;
      ShortIsOctets(share[SectionEnd(share, pos)..]);
      ok := true;
      while pos < |share|
        invariant Valid() && SectionEnd(share, pos) == SectionEnd(share, old(pos))
        invariant old(pos) <= pos && renewed == old(renewed) + share[old(pos)..pos]
        decreases |share| - pos
      {
        if Short(share[pos..]) {
          LenFrom(share, pos);
          ShortTailHasNoFile(share, pos);
          pos := |share|;
          return false;
        }
        if share[pos].DirRec? {
          break;
        }
        CopyRec();
      }
    }

    /** Compares the record at the cursor with `f`; goes back if it comes after `f`. */
    method MergeFile(f: File) returns (written: bool)
      requires Valid() && pos < |share| && share[pos].FileRec?
      modifies `pos, `renewed, `changes, `kept
      ensures Valid() && old(pos) <= pos && SectionEnd(share, pos) == SectionEnd(share, old(pos))
      ensures var m := StrCmp(share[old(pos)].name, f.name);
        written == (m >= 0) && pos == (if m <= 0 then old(pos) + 1 else old(pos))
      ensures changes == old(changes) + Compared(share[old(pos)], f)
      ensures !written ==> renewed == old(renewed)
      ensures written && TrustRec(share[old(pos)], f) ==> renewed == old(renewed) + [RecOf(f)]
    {
      hide Balanced;
      var m := StrCmp(share[pos].name, f.name);
      written := m >= 0;
      if m == 0 {
        if share[pos].mtime == f.mtime {
          CopyRec();
        } else {
          UpdateFile(f);
        }
      } else if m < 0 {
        RemoveFile();
      } else {
        AddSharedFile(f);
      }
    }

    /** The loop of `update_dir`: `i` files are dealt with when the records or the files end. */
    method MergeFiles(files: seq<File>) returns (i: nat)
      requires Valid()
      modifies `pos, `renewed, `changes, `kept
      ensures Valid() && SectionEnd(share, pos) == SectionEnd(share, old(pos)) && old(pos) <= pos
      ensures i <= |files| && (i == |files| || pos == SectionEnd(share, old(pos)))
      ensures TrustSection(share, old(pos), SectionEnd(share, old(pos)), files) ==> renewed == old(renewed) + FileRecs(files[0..i])
      ensures Merging(share, old(pos), old(changes), pos, SectionEnd(share, old(pos)), files, i, changes)
    {
      hide Balanced, FileRecs, TrustRec, TrustSection, Merged, Merging, Compared, StrCmp, SectionEnd;
      i := 0;
      NoFiles(files, 0);
      ghost var end := SectionEnd(share, pos);
      MergingStarts(share, pos, changes, files);
      while i < |files|
        invariant Valid() && SectionEnd(share, pos) == end && old(pos) <= pos
        invariant i <= |files|
        invariant TrustSection(share, old(pos), end, files) ==> renewed == old(renewed) + FileRecs(files[0..i])
        invariant Merging(share, old(pos), old(changes), pos, end, files, i, changes)
        decreases |files| - i, |share| - pos
      {
        if pos == |share| || share[pos].DirRec? {
          AtEnd(share, pos);
          break;
        }
        NextFile(files, 0, i);
        MergingNext(share, old(pos), old(changes), pos, end, files, i, changes);
        if TrustSection(share, old(pos), end, files) {
          TrustOne(share, old(pos), end, files, pos, i);
        }
        var written := MergeFile(files[i]);
        if written {
          i := i + 1;
        }
      }
    }

    /** Merges the files of a changed directory with its records. */
    method UpdateDir(dir: Dir)
      requires Valid()
      modifies `pos, `renewed, `changes, `kept
      ensures Valid() && pos == SectionEnd(share, old(pos))
      ensures TrustSection(share, old(pos), pos, dir.files) ==> renewed == old(renewed) + FileRecs(dir.files)
      ensures changes == old(changes) + Merged(share, old(pos), pos, dir.files)
    {
      hide Balanced, FileRecs, TrustSection, Merged, Merging, Added, Dropped, SectionEnd;
      ghost var end := SectionEnd(share, pos);
      var i := MergeFiles(dir.files);
      AllFiles(dir.files, i);
      MergingEnds(share, old(pos), old(changes), pos, end, dir.files, i, changes);
      AddSharedFiles(dir.files, i);
      RemoveDir();
    }

    /** The records of `dir` itself: of the directory and of its files. */
    method DiffFiles(dir: Dir, ghost q: nat) returns (step: Step)
      requires Valid() && AtDir(share, pos)
      modifies `pos, `renewed, `changes, `kept
      ensures Valid() && step == StepAt(share, old(pos), dir) && pos == PosAfter(share, old(pos), dir)
      ensures step != Again && Known(share, q, old(pos), dir) ==> renewed == old(renewed) + Own(dir)
      ensures step == Again ==> renewed == old(renewed)
      ensures changes == old(changes) + FileChanges(share, old(pos), dir)
    {
      hide Balanced, FileRecs, Listing, Listings, Trust, Tracks, Short, Own, Known, TrustSection, SectionEnd, Merged, Added, Dropped, StrCmp, Ids, Signed, IndexOctets, TrustRec, Len, RecLen;
      NoChanges();
      assert changes + [] == changes;
      OwnAppended(renewed, dir);
      if Known(share, q, pos, dir) && pos < |share| && share[pos].path == dir.path {
        KnownFiles(share, q, pos, dir);
      }
      step := Go;
      if pos == |share| {
        AddDir(dir);
      } else {
        var r := ReadDir();
        if r.path == dir.path {
          WriteDir(dir);
          if r.mtime == dir.mtime {
            var ok := CopyDir();
            step := if ok then Go else Stall;
          } else {
            UpdateDir(dir);
          }
        } else if StrCmp(r.path, dir.path) < 0 {
          RemoveDir();
          step := Again;
        } else {
          Unread();
          AddDir(dir);
        }
      }
    }

    /** The directories below `dir`; the failure of a nested visit is ignored. */
    method DiffSubs(dir: Dir, ghost q: nat)
      requires Valid() && AtDir(share, pos)
      modifies `pos, `renewed, `changes, `kept
      ensures Valid() && AtDir(share, pos) && pos == Visits(share, old(pos), dir, |dir.subs|).pos
      ensures Trust(share, dir) || Tracks(share, q, old(pos), Listings(dir, |dir.subs|)) ==>
        renewed == old(renewed) + FlatListing(SeenSubs(share, old(pos), dir, |dir.subs|))
      ensures changes == old(changes) + SubChanges(share, old(pos), dir, |dir.subs|)
      decreases dir, |share| - pos, 0
    {
      hide Balanced, Trust, Visit, Visits, Seen, SeenSubs, FlatListing, OnTrack, Tracks, At, Listings, Listing, SubChanges, DirChanges, StepAt, Stalls, Flatten, RecLen, Ids;
      var n := 0;
      ghost var known := Trust(share, dir) || Tracks(share, q, pos, Listings(dir, |dir.subs|));
      NoSubs(share, pos, dir, renewed, changes);
      while n < |dir.subs|
        invariant n <= |dir.subs|
        invariant Valid() && old(pos) <= pos && AtDir(share, pos) && pos == Visits(share, old(pos), dir, n).pos
        invariant known ==> renewed == old(renewed) + FlatListing(SeenSubs(share, old(pos), dir, n))
        invariant changes == old(changes) + SubChanges(share, old(pos), dir, n)
      {
        if known {
          KnownSub(share, q, old(pos), dir, n);
        }
        NextSub(share, old(pos), dir, n);
        NextChanges(share, old(pos), dir, n, old(changes));
        NextWritten(old(renewed), share, old(pos), dir, n);
        var _ := Diff(dir.subs[n], false, q + |Listings(dir, n)|);
        n := n + 1;
      }
    }

    /** `diff`: visits `dir` and the directories below it. */
    method Diff(dir: Dir, top: bool, ghost q: nat) returns (ok: bool)
      requires Valid() && AtDir(share, pos)
      modifies `pos, `renewed, `changes, `kept
      ensures Valid() && old(pos) <= pos && AtDir(share, pos)
      ensures ok == !Stalls(share, old(pos), dir)
      ensures pos == if top && ok && StepAt(share, old(pos), dir) != Again then |share| else Visit(share, old(pos), dir).pos
      ensures Known(share, q, old(pos), dir) ==> renewed == old(renewed) + FlatListing(Seen(share, old(pos), dir))
      ensures changes == old(changes) + DirChanges(share, old(pos), dir) + TopChanges(share, old(pos), dir, top)
      decreases dir, |share| - pos, 1
    {
      hide Balanced, FileRecs, Listing, Trust, At, Short, Listings, Visits, Seen, SeenSubs, FlatListing, PosAfter, StepAt, Own, OnTrack, Tracks, Dropped, FileChanges, SubChanges;
      ghost var known := Known(share, q, pos, dir);
      SeenWritten(renewed, share, pos, dir);
      var step := DiffFiles(dir, q);
      ghost var after, before := PosAfter(share, old(pos), dir), old(changes);
      if step == Again {
        if known {
          NeverAgain(share, q, old(pos), dir);
        }
        Regroup(before, FileChanges(share, old(pos), dir), DirChanges(share, after, dir));
        ok := Diff(dir, false, q);
        return;
      }
      ok := step == Go;
      if ok {
        if known {
          KnownSubs(share, q, old(pos), dir);
        }
        Regroup(before, FileChanges(share, old(pos), dir), SubChanges(share, after, dir, |dir.subs|));
        DiffSubs(dir, q + |Own(dir)|);
        if top {
          RemoveAllFiles();
        }
      } else {
        Regroup(before, FileChanges(share, old(pos), dir), []);
      }
    }
  }

  /** `create_diff`: the new index replaces the old one only if the visit of the root succeeds. */
  method CreateDiff(share: seq<Rec>, root: Dir) returns (ok: bool, index: seq<Rec>, changes: seq<Change>)
    requires AtDir(share, 0)
    ensures ok == !Stalls(share, 0, root)
    ensures !ok ==> index == share
    ensures ok && (Trust(share, root) || share == Listing(root)) ==>
      index == FlatListing(Seen(share, 0, root)) && (index == Listing(root) <==> !Visit(share, 0, root).cut)
    ensures changes == AllChanges(share, root) && Signed(changes, Minus) <= Ids(share)
    ensures ok ==> Signed(changes, Plus) <= Ids(index)
    ensures ok ==> Replayed(Ids(share), changes) == Ids(index) + Ids(LeftOver(share, root))
  {
    hide Trust, Listing, Visit, Seen, FlatListing, DirChanges, TopChanges, Replayed, Signed, Ids, Tracks, StepAt, Stalls, Balanced;
    if share == Listing(root) {
      ListsItself(root);
    }
    var d := new Differ(share);
    ok := d.Diff(root, true, 0);
    index := if ok then d.renewed else share;
    changes := d.changes;
    WholeUnlessCut(share, root);
    BalancedReplay(share, d.pos, d.renewed, d.changes, d.kept);
    NoIds();
    assert share[|share|..] == [];
    assert [] + DirChanges(share, 0, root) == DirChanges(share, 0, root);
    assert [] + FlatListing(Seen(share, 0, root)) == FlatListing(Seen(share, 0, root));
  }

  lemma WholeUnlessCut(share: seq<Rec>, root: Dir)
    requires AtDir(share, 0)
    ensures FlatListing(Seen(share, 0, root)) == Listing(root) <==> !Visit(share, 0, root).cut
  {
    hide Listing, Visit, Seen, FlatListing, Flatten;
    SeenUnlessCut(share, 0, root);
    ListingIsFlat(root);
    if Visit(share, 0, root).cut {
      FewerDirs(Seen(share, 0, root), Flatten(root));
    }
  }

  /** With the root the old index began with, replaying the diff gives the new index. */
  lemma SameRootLeavesNothing(share: seq<Rec>, root: Dir)
    requires AtDir(share, 0) && (share == [] || share[0].path == root.path)
    ensures LeftOver(share, root) == []
  {}

  /** The share was "/s" with `x` in "/s/b" and is narrowed to "/s/a": `x` is never withdrawn. */
  lemma ChangedRootLeavesFiles(x: File)
    ensures var share, root := [DirRec(1, ROOT), DirRec(1, B), RecOf(x)], Dir(A, 1, [], []);
      LeftOver(share, root) == [DirRec(1, B), RecOf(x)] && Ids(LeftOver(share, root)) == multiset{FileId(x.md5, x.name)}
  {
    var share, root := [DirRec(1, ROOT), DirRec(1, B), RecOf(x)], Dir(A, 1, [], []);
    assert SectionEnd(share, 1) == 1;
    RootsCompare();
    assert StepAt(share, 0, root) == Again && PosAfter(share, 0, root) == 1;
    assert StepAt(share, 1, root) == Go && PosAfter(share, 1, root) == 1;
    assert Visits(share, 1, root, 0) == Walk(1, false);
    assert Visit(share, 1, root).pos == 1;
    assert Visit(share, 0, root).pos == 1;
    NoIds();
    assert [] + [DirRec(1, B)] == [DirRec(1, B)] && [DirRec(1, B)] + [RecOf(x)] == [DirRec(1, B), RecOf(x)];
    NewRec([], DirRec(1, B));
    NewRec([DirRec(1, B)], RecOf(x));
  }

  lemma RootsCompare()
    ensures StrCmp(ROOT, A) < 0 && StrCmp(B, A) > 0
  {
    assert ROOT[1..] == [115] && A[1..] == [115, 47, 97] && B[1..] == [115, 47, 98];
    assert ROOT[1..][1..] == [] && A[1..][1..] == [47, 97] && B[1..][1..] == [47, 98];
    assert A[1..][1..][1..] == [97] && B[1..][1..][1..] == [98];
  }

  /** "/s" with an empty subdirectory "/s/a", both unchanged: the read ahead after the root
      gets 10 octets of the 21 it insists on, and `create_diff` fails. */
  lemma UnchangedTreeCanFail()
    ensures var a := Dir([47, 115, 47, 97], 1, [], []);
      var root := Dir([47, 115], 1, [], [a]);
      Stalls(Listing(root), 0, root)
  {
    var a := Dir([47, 115, 47, 97], 1, [], []);
    var root := Dir([47, 115], 1, [], [a]);
    var share := [DirRec(1, root.path), DirRec(1, a.path)];
    assert Listing(a) == [DirRec(1, a.path)];
    assert Listings(root, 1) == Listings(root, 0) + Listing(a);
    assert Listing(root) == share;
    assert SectionEnd(share, 1) == 1;
    assert share[1..] == [DirRec(1, a.path)];
    assert Len(share[1..]) == 10 + Len([]);
  }

  /** Whether it does depends on the length of the last path: 14 octets are too few, 15 are enough. */
  lemma {:induction false} ReadAheadBoundary(path: seq<byte>)
    ensures var root := Dir([47, 115], 1, [], [Dir(path, 1, [], [])]);
      Stalls(Listing(root), 0, root) <==> |path| <= 14
  {
    var a := Dir(path, 1, [], []);
    var root := Dir([47, 115], 1, [], [a]);
    var share := [DirRec(1, root.path), DirRec(1, path)];
    assert Listing(a) == [DirRec(1, path)];
    assert Listings(root, 1) == Listings(root, 0) + Listing(a);
    assert Listing(root) == share;
    assert SectionEnd(share, 1) == 1 && share[1..] == [DirRec(1, path)] && share[1..][1..] == [];
    ShortIsOctets(share[1..]);
    WrittenLength(1, path);
    assert StepAt(share, 0, root) == if |path| <= 14 then Stall else Go;
  }

  lemma {:induction false} WrittenLength(mtime: u32, path: seq<byte>)
    ensures |IndexOctets([DirRec(mtime, path)])| == |path| + 6
  {
    assert [DirRec(mtime, path)][1..] == [];
    assert IndexOctets([]) == [];
  }

  /** The same below a changed root: the failure is ignored, and "/s/a/b" is lost. */
  lemma NestedFailureLosesDirectories()
    ensures var b := Dir([47, 115, 47, 97, 47, 98], 1, [], []);
      var a := Dir([47, 115, 47, 97], 1, [], [b]);
      var share := Listing(Dir([47, 115], 1, [], [a]));
      var root := Dir([47, 115], 2, [], [a]);
      !Stalls(share, 0, root) && Visit(share, 0, root).cut
  {
    var b := Dir([47, 115, 47, 97, 47, 98], 1, [], []);
    var a := Dir([47, 115, 47, 97], 1, [], [b]);
    var before := Dir([47, 115], 1, [], [a]);
    var share := [DirRec(1, before.path), DirRec(1, a.path), DirRec(1, b.path)];
    assert Listing(b) == [DirRec(1, b.path)];
    assert Listings(a, 1) == Listings(a, 0) + Listing(b);
    assert Listing(a) == [DirRec(1, a.path), DirRec(1, b.path)];
    assert Listings(before, 1) == Listings(before, 0) + Listing(a);
    assert Listing(before) == share;
    var root := Dir([47, 115], 2, [], [a]);
    assert SectionEnd(share, 1) == 1 && SectionEnd(share, 2) == 2;
    assert share[2..] == [DirRec(1, b.path)];
    assert Len(share[2..]) == 12 + Len([]);
    assert StepAt(share, 0, root) == Go && PosAfter(share, 0, root) == 1;
    assert StepAt(share, 1, a) == Stall;
    assert Visit(share, 1, a).cut;
    assert Visits(share, 1, root, 0) == Walk(1, false);
    assert root.subs[0] == a && Visits(share, 1, root, 1).cut;
  }

  // ---- a file that moves

  const ROOT: seq<byte> := [47, 115]
  const A: seq<byte> := [47, 115, 47, 97]
  const B: seq<byte> := [47, 115, 47, 98]

  /** "/s" with `x` in "/s/b", then with `x` in "/s/a". */
  function BeforeMove(x: File): Dir {
    Dir(ROOT, 1, [], [Dir(A, 1, [], []), Dir(B, 1, [x], [])])
  }

  function AfterMove(x: File): Dir {
    Dir(ROOT, 1, [], [Dir(A, 2, [x], []), Dir(B, 2, [], [])])
  }

  function MovedShare(x: File): seq<Rec> {
    [DirRec(1, ROOT), DirRec(1, A), DirRec(1, B), RecOf(x)]
  }

  lemma ListingsNext(dir: Dir, n: nat)
    requires n < |dir.subs|
    ensures Listings(dir, 0) == [] && Listings(dir, n + 1) == Listings(dir, n) + Listing(dir.subs[n])
  {}

  lemma LeafListing(dir: Dir)
    requires dir.subs == []
    ensures Listing(dir) == Own(dir)
  {}

  lemma MovedListing(x: File)
    ensures Listing(BeforeMove(x)) == MovedShare(x)
  {
    hide Listing, Listings;
    var dir := BeforeMove(x);
    ListingParts(dir);
    ListingsNext(dir, 0);
    ListingsNext(dir, 1);
    LeafListing(dir.subs[0]);
    LeafListing(dir.subs[1]);
  }

  /** The sections of the share and what the walk does at each directory. */
  lemma MovedSteps(x: File)
    ensures var share, a, b := MovedShare(x), AfterMove(x).subs[0], AfterMove(x).subs[1];
      && SectionEnd(share, 1) == 1 && SectionEnd(share, 2) == 2 && SectionEnd(share, 3) == 4
      && StepAt(share, 0, AfterMove(x)) == Go && PosAfter(share, 0, AfterMove(x)) == 1
      && StepAt(share, 1, a) == Go && PosAfter(share, 1, a) == 2
      && StepAt(share, 2, b) == Go && PosAfter(share, 2, b) == 4
  {
    hide Len, RecLen;
    var share := MovedShare(x);
    assert SectionEnd(share, 4) == 4;
    assert SectionEnd(share, 3) == 4;
    LongTail(share, x);
  }

  lemma LongTail(share: seq<Rec>, x: File)
    requires share == MovedShare(x)
    ensures !Short(share[1..])
  {
    LenFrom(share, 1);
    LenFrom(share, 2);
    LenFrom(share, 3);
  }

  /** `x` is announced in the directory that is visited first, and withdrawn in the other. */
  lemma MovedFileIsWithdrawn(x: File)
    ensures AllChanges(Listing(BeforeMove(x)), AfterMove(x)) == [Change(Plus, FileId(x.md5, x.name)), Change(Minus, FileId(x.md5, x.name))]
  {
    hide Listing, StepAt, PosAfter, SectionEnd, DirChanges, SubChanges, Visit, Visits, Added, Dropped, BeforeMove, StrCmp, Stalls, Compared;
    var share, dir := MovedShare(x), AfterMove(x);
    MovedListing(x);
    MovedSteps(x);
    MovedFiles(share, x);
    Leaf(share, 1, dir.subs[0]);
    Leaf(share, 2, dir.subs[1]);
    TwoSubs(share, 1, dir);
    Unfold(share, dir);
    OneFile(x);
    assert share[4..] == [];
  }

  lemma MovedFiles(share: seq<Rec>, x: File)
    requires share == MovedShare(x)
    ensures FileChanges(share, 0, AfterMove(x)) == []
    ensures FileChanges(share, 1, AfterMove(x).subs[0]) == Added([x])
    ensures FileChanges(share, 2, AfterMove(x).subs[1]) == Dropped([RecOf(x)])
  {
    hide Added, Dropped, StepAt, PosAfter;
    MovedSteps(x);
    NoChanges();
    assert share[2..2] == [] && share[3..4] == [RecOf(x)];
    assert Merged(share, 2, 2, [x]) == Added([x]) + Dropped(share[2..2]);
    assert Merged(share, 3, 4, []) == Added([]) + Dropped(share[3..4]);
  }

  lemma Unfold(share: seq<Rec>, dir: Dir)
    requires AtDir(share, 0) && StepAt(share, 0, dir) == Go
    ensures !Stalls(share, 0, dir) && Visit(share, 0, dir) == Visits(share, PosAfter(share, 0, dir), dir, |dir.subs|)
    ensures DirChanges(share, 0, dir) == FileChanges(share, 0, dir) + SubChanges(share, PosAfter(share, 0, dir), dir, |dir.subs|)
  {
    hide FileChanges, SubChanges, Visits, StepAt, PosAfter;
  }

  /** A directory without subdirectories. */
  lemma Leaf(share: seq<Rec>, pos: nat, dir: Dir)
    requires AtDir(share, pos) && StepAt(share, pos, dir) == Go && dir.subs == []
    ensures Visit(share, pos, dir) == Walk(PosAfter(share, pos, dir), false)
    ensures DirChanges(share, pos, dir) == FileChanges(share, pos, dir)
  {}

  lemma TwoSubs(share: seq<Rec>, pos: nat, dir: Dir)
    requires AtDir(share, pos) && |dir.subs| == 2
    ensures var v := Visit(share, pos, dir.subs[0]);
      && Visits(share, pos, dir, 2).pos == Visit(share, v.pos, dir.subs[1]).pos
      && SubChanges(share, pos, dir, 2) == DirChanges(share, pos, dir.subs[0]) + DirChanges(share, v.pos, dir.subs[1])
  {
    hide Visit, DirChanges;
    assert Visits(share, pos, dir, 0) == Walk(pos, false);
    assert Visits(share, pos, dir, 1).pos == Visit(share, pos, dir.subs[0]).pos;
    assert SubChanges(share, pos, dir, 1) == SubChanges(share, pos, dir, 0) + DirChanges(share, pos, dir.subs[0]);
  }

  lemma OneFile(x: File)
    ensures Added([x]) == [Change(Plus, FileId(x.md5, x.name))] && Dropped([RecOf(x)]) == [Change(Minus, FileId(x.md5, x.name))]
    ensures Added([]) == [] && Dropped([]) == []
  {
    assert [x][..0] == [] && [RecOf(x)][..0] == [];
  }
}
