/** The incremental share index (src/client/shared.c): one pass over the old index and the
    current directory tree writes the new index and the differences between the two. */
module ShareDiff {
  import opened Common

  /** A record of the share file: a directory, or a file of the directory before it. */
  datatype Rec = DirRec(mtime: u32, path: seq<byte>) | FileRec(mtime: u32, md5: Md5, name: Name)

  datatype File = File(name: Name, mtime: u32, md5: Md5)

  /** A directory as `scandir` lists it: its files and its subdirectories, each in order. */
  datatype Dir = Dir(path: seq<byte>, mtime: u32, files: seq<File>, subs: seq<Dir>)

  /** What the index says about a file, apart from its time. */
  datatype FileId = FileId(md5: Md5, name: Name)

  datatype Sign = Plus | Minus

  /** A record of the diff file. */
  datatype Change = Change(sign: Sign, id: FileId)

  // ---- the octets of a record decide how much a read returns

  /** `copy_dir`, `update_dir` and `remove_dir` read 21 octets ahead: a tag, a time and an md5. */
  const READ_AHEAD := 21

  function RecLen(r: Rec): (n: nat)
    ensures r.FileRec? ==> n > READ_AHEAD
    ensures n > 5
  {
    match r
    case DirRec(_, path) => 1 + 4 + |path| + 1
    case FileRec(_, _, name) => 1 + 4 + 16 + |name| + 1
  }

  function Len(recs: seq<Rec>): nat {
    if recs == [] then 0 else RecLen(recs[0]) + Len(recs[1..])
  }

  /** `strcmp`. */
  function StrCmp(a: seq<byte>, b: seq<byte>): (c: int)
    ensures c == 0 <==> a == b
  {
    if a == [] && b == [] then 0
    else if a == [] then -1
    else if b == [] then 1
    else if a[0] != b[0] then a[0] as int - b[0] as int
    else StrCmp(a[1..], b[1..])
  }

  /** The two agree before `k`, and there the first is lower. */
  ghost predicate LowerAt(a: seq<byte>, b: seq<byte>, k: nat) {
    k < |a| && k < |b| && a[..k] == b[..k] && a[k] < b[k]
  }

  lemma {:induction false} LowerBehind(x: byte, a: seq<byte>, b: seq<byte>, k: nat)
    ensures LowerAt([x] + a, [x] + b, k + 1) <==> LowerAt(a, b, k)
    ensures !LowerAt([x] + a, [x] + b, 0)
  {
    var c, d := [x] + a, [x] + b;
    if k < |a| && k < |b| {
      assert c[..k + 1] == [x] + a[..k] && d[..k + 1] == [x] + b[..k];
      assert c[..k + 1][1..] == a[..k] && d[..k + 1][1..] == b[..k];
    }
  }

  /** The first octet that differs decides; a proper beginning is below. */
  lemma {:induction false} StrCmpIs(a: seq<byte>, b: seq<byte>)
    ensures StrCmp(a, b) < 0 <==> a < b || exists k: nat :: LowerAt(a, b, k)
  {
    if a != [] && b != [] {
      if a[0] == b[0] {
        SameFirst(a, b);
        StrCmpIs(a[1..], b[1..]);
      } else {
        OtherFirst(a, b);
      }
    }
  }

  lemma {:induction false} SameFirst(a: seq<byte>, b: seq<byte>)
    requires a != [] && b != [] && a[0] == b[0]
    ensures (a < b || exists k: nat :: LowerAt(a, b, k)) <==> (a[1..] < b[1..] || exists k: nat :: LowerAt(a[1..], b[1..], k))
  {
    hide LowerAt;
    assert a == [a[0]] + a[1..] && b == [a[0]] + b[1..];
    if k: nat :| LowerAt(a[1..], b[1..], k) {
      LowerBehind(a[0], a[1..], b[1..], k);
      assert LowerAt(a, b, k + 1);
    }
    if k: nat :| LowerAt(a, b, k) {
      LowerBehind(a[0], a[1..], b[1..], if k > 0 then k - 1 else 0);
    }
  }

  lemma {:induction false} OtherFirst(a: seq<byte>, b: seq<byte>)
    requires a != [] && b != [] && a[0] != b[0]
    ensures !(a < b) && ((exists k: nat :: LowerAt(a, b, k)) <==> a[0] < b[0])
  {
    assert a[0] < b[0] ==> LowerAt(a, b, 0);
    if k: nat :| LowerAt(a, b, k) {
      LowerFirst(a, b, k);
    }
  }

  lemma {:induction false} LowerFirst(a: seq<byte>, b: seq<byte>, k: nat)
    requires LowerAt(a, b, k)
    ensures if k == 0 then a[0] < b[0] else a[0] == b[0]
  {
    if k > 0 {
      assert a[..k][0] == a[0] && b[..k][0] == b[0];
    }
  }

  // ---- what an index and a diff stand for

  ghost function Ids(recs: seq<Rec>): multiset<FileId> {
    if recs == [] then multiset{}
    else Ids(recs[..|recs| - 1]) + IdOf(recs[|recs| - 1])
  }

  /** No file occurs twice. */
  ghost predicate OnceEach(files: multiset<FileId>) {
    forall id :: files[id] <= 1
  }

  ghost function IdOf(r: Rec): multiset<FileId> {
    if r.FileRec? then multiset{FileId(r.md5, r.name)} else multiset{}
  }

  ghost function Signed(changes: seq<Change>, sign: Sign): multiset<FileId> {
    if changes == [] then multiset{}
    else
      var c := changes[|changes| - 1];
      Signed(changes[..|changes| - 1], sign) + if c.sign == sign then multiset{c.id} else multiset{}
  }

  /** Carries out a diff on a multiset of files, one record at a time. */
  ghost function Replayed(files: multiset<FileId>, changes: seq<Change>): multiset<FileId> {
    if changes == [] then files
    else
      var before := Replayed(files, changes[..|changes| - 1]);
      var c := changes[|changes| - 1];
      if c.sign == Plus then before + multiset{c.id} else before - multiset{c.id}
  }

  /** If the old files account for every removal, the order of the records does not matter. */
  lemma {:induction false} ReplayBalances(files: multiset<FileId>, changes: seq<Change>)
    requires Signed(changes, Minus) <= files
    ensures Replayed(files, changes) == files + Signed(changes, Plus) - Signed(changes, Minus)
  {
    if changes != [] {
      var rest, c := changes[..|changes| - 1], changes[|changes| - 1];
      ReplayBalances(files, rest);
      BalanceStep(files, Signed(rest, Plus), Signed(rest, Minus), multiset{c.id}, c.sign);
    }
  }

  lemma BalanceStep(files: multiset<FileId>, p: multiset<FileId>, m: multiset<FileId>, x: multiset<FileId>, sign: Sign)
    requires if sign == Plus then m <= files else m + x <= files
    ensures if sign == Plus then files + p - m + x == files + (p + x) - m else files + p - m - x == files + p - (m + x)
  {}

  /** The file is announced and later withdrawn again. */
  ghost predicate Withdraws(changes: seq<Change>, id: FileId) {
    exists i, j :: 0 <= i < j < |changes| && changes[i] == Change(Plus, id) && changes[j] == Change(Minus, id)
  }

  lemma WithdrawsJoin(a: seq<Change>, b: seq<Change>, id: FileId)
    ensures Withdraws(a + b, id) <==>
      Withdraws(a, id) || Withdraws(b, id) || (Change(Plus, id) in a && Change(Minus, id) in b)
  {
    var all := a + b;
    if Withdraws(a, id) {
      var i, j :| 0 <= i < j < |a| && a[i] == Change(Plus, id) && a[j] == Change(Minus, id);
      assert all[i] == Change(Plus, id) && all[j] == Change(Minus, id);
    }
    if Withdraws(b, id) {
      var i, j :| 0 <= i < j < |b| && b[i] == Change(Plus, id) && b[j] == Change(Minus, id);
      assert all[|a| + i] == Change(Plus, id) && all[|a| + j] == Change(Minus, id);
    }
    if Change(Plus, id) in a && Change(Minus, id) in b {
      var i, j :| 0 <= i < |a| && 0 <= j < |b| && a[i] == Change(Plus, id) && b[j] == Change(Minus, id);
      assert all[i] == Change(Plus, id) && all[|a| + j] == Change(Minus, id);
    }
  }

  // ---- the listing of a tree

  function RecOf(f: File): (r: Rec) {
    FileRec(f.mtime, f.md5, f.name)
  }

  function FileRecs(files: seq<File>): (r: seq<Rec>)
    ensures |r| == |files| && forall i :: 0 <= i < |r| ==> r[i] == RecOf(files[i])
  {
    seq(|files|, i requires 0 <= i < |files| => RecOf(files[i]))
  }

  lemma NoFiles(files: seq<File>, i: nat)
    requires i <= |files|
    ensures FileRecs(files[i..i]) == []
  {}

  lemma NextFile(files: seq<File>, start: nat, i: nat)
    requires start <= i < |files|
    ensures FileRecs(files[start..i + 1]) == FileRecs(files[start..i]) + [RecOf(files[i])]
  {
    assert files[start..i + 1] == files[start..i] + [files[i]];
  }

  lemma AllFiles(files: seq<File>, i: nat)
    requires i <= |files|
    ensures FileRecs(files[0..i]) + FileRecs(files[i..]) == FileRecs(files)
  {}

  /** The index of a tree: each directory, then its files, then its subdirectories. */
  ghost function Listing(dir: Dir): (r: seq<Rec>)
    ensures r != [] && r[0] == DirRec(dir.mtime, dir.path)
    decreases dir, |dir.subs| + 1
  {
    [DirRec(dir.mtime, dir.path)] + FileRecs(dir.files) + Listings(dir, |dir.subs|)
  }

  /** The listings of the first `n` subdirectories. */
  ghost function Listings(dir: Dir, n: nat): (r: seq<Rec>)
    requires n <= |dir.subs|
    ensures r == [] || r[0].DirRec?
    decreases dir, n
  {
    if n == 0 then [] else Listings(dir, n - 1) + Listing(dir.subs[n - 1])
  }

  /** The records of `dir` itself. */
  function Own(dir: Dir): (r: seq<Rec>)
    ensures |r| == 1 + |dir.files| && r[0].DirRec?
  {
    [DirRec(dir.mtime, dir.path)] + FileRecs(dir.files)
  }

  /** The directories of a tree in the order in which a visit comes to them. */
  function Flatten(dir: Dir): (ds: seq<Dir>)
    ensures ds != [] && ds[0] == dir
    decreases dir, |dir.subs| + 1
  {
    [dir] + FlattenSubs(dir, |dir.subs|)
  }

  function FlattenSubs(dir: Dir, n: nat): seq<Dir>
    requires n <= |dir.subs|
    decreases dir, n
  {
    if n == 0 then [] else FlattenSubs(dir, n - 1) + Flatten(dir.subs[n - 1])
  }

  /** The index of a list of directories, whatever lies below them. */
  function FlatListing(ds: seq<Dir>): (r: seq<Rec>)
    ensures r == [] <==> ds == []
    ensures r != [] ==> r[0] == DirRec(ds[0].mtime, ds[0].path)
  {
    if ds == [] then [] else Own(ds[0]) + FlatListing(ds[1..])
  }

  lemma {:induction false} FlatJoin(a: seq<Dir>, b: seq<Dir>)
    ensures FlatListing(a + b) == FlatListing(a) + FlatListing(b)
  {
    hide Own, FlatListing;
    if a == [] {
      assert a + b == b;
      FlatNone();
    } else {
      assert (a + b)[0] == a[0] && (a + b)[1..] == a[1..] + b;
      FlatFirst(a);
      FlatFirst(a + b);
      FlatJoin(a[1..], b);
      Regroup(Own(a[0]), FlatListing(a[1..]), FlatListing(b));
    }
  }

  lemma FlatNone()
    ensures FlatListing([]) == []
  {}

  lemma FlatFirst(ds: seq<Dir>)
    requires ds != []
    ensures FlatListing(ds) == Own(ds[0]) + FlatListing(ds[1..])
  {}

  lemma FlatOne(dir: Dir)
    ensures FlatListing([dir]) == Own(dir)
  {}

  /** The listing of a tree is that of its directories one after the other. */
  lemma {:induction false} ListingIsFlat(dir: Dir)
    ensures Listing(dir) == FlatListing(Flatten(dir))
    decreases dir, |dir.subs| + 1
  {
    hide Own;
    ListingParts(dir);
    ListingIsFlatBelow(dir, |dir.subs|);
    FlatJoin([dir], FlattenSubs(dir, |dir.subs|));
    FlatOne(dir);
  }

  lemma {:induction false} ListingIsFlatBelow(dir: Dir, n: nat)
    requires n <= |dir.subs|
    ensures Listings(dir, n) == FlatListing(FlattenSubs(dir, n))
    decreases dir, n
  {
    hide Own, Flatten, Listing;
    if n > 0 {
      ListingIsFlatBelow(dir, n - 1);
      ListingIsFlat(dir.subs[n - 1]);
      FlatJoin(FlattenSubs(dir, n - 1), Flatten(dir.subs[n - 1]));
    }
  }

  // ---- where the directories of an index are

  /** Where the files of the directory in whose middle `pos` is end. */
  function SectionEnd(share: seq<Rec>, pos: nat): (e: nat)
    requires pos <= |share|
    ensures pos <= e <= |share| && AtDir(share, e)
    ensures forall i :: pos <= i < e ==> share[i].FileRec?
    decreases |share| - pos
  {
    if AtDir(share, pos) then pos else SectionEnd(share, pos + 1)
  }

  predicate AtDir(share: seq<Rec>, pos: nat) {
    pos <= |share| && (pos < |share| ==> share[pos].DirRec?)
  }

  /** A read ahead reaches the end of the file inside a directory record. */
  predicate Short(recs: seq<Rec>) {
    recs != [] && Len(recs) < READ_AHEAD
  }

  /** No directory but the first lies within 21 octets of the end. */
  ghost predicate NoShortTail(share: seq<Rec>) {
    forall k :: 0 < k < |share| ==> !Short(share[k..])
  }

  /** What `diff` makes of the record it reads for `dir`: it skips a directory that compares
      below `dir` and starts again; it fails on an unchanged directory right before a short
      tail; or it goes on with the subdirectories. */
  datatype Step = Again | Stall | Go

  function StepAt(share: seq<Rec>, pos: nat, dir: Dir): (step: Step)
    requires AtDir(share, pos)
  {
    if pos == |share| || StrCmp(share[pos].path, dir.path) > 0 then Go
    else if StrCmp(share[pos].path, dir.path) < 0 then Again
    else if share[pos].mtime == dir.mtime && Short(share[SectionEnd(share, pos + 1)..]) then Stall
    else Go
  }

  function PosAfter(share: seq<Rec>, pos: nat, dir: Dir): (p: nat)
    requires AtDir(share, pos)
    ensures pos <= p && AtDir(share, p) && (StepAt(share, pos, dir) == Again ==> pos < p)
    ensures StepAt(share, pos, dir) == Stall ==> p == |share|
  {
    if pos == |share| || StrCmp(share[pos].path, dir.path) > 0 then pos
    else if StepAt(share, pos, dir) == Stall then |share|
    else SectionEnd(share, pos + 1)
  }

  /** How far a walk gets in the old index, and whether it misses directories on the way. */
  datatype Walk = Walk(pos: nat, cut: bool)

  function Visit(share: seq<Rec>, pos: nat, dir: Dir): (w: Walk)
    requires AtDir(share, pos)
    ensures pos <= w.pos && AtDir(share, w.pos)
    decreases dir, |share| - pos, |dir.subs| + 1
  {
    var p := PosAfter(share, pos, dir);
    match StepAt(share, pos, dir)
    case Again => Visit(share, p, dir)
    case Stall => Walk(p, dir.subs != [])
    case Go => Visits(share, p, dir, |dir.subs|)
  }

  function Visits(share: seq<Rec>, pos: nat, dir: Dir, n: nat): (w: Walk)
    requires AtDir(share, pos) && n <= |dir.subs|
    ensures pos <= w.pos && AtDir(share, w.pos)
    decreases dir, |share| - pos, n
  {
    if n == 0 then Walk(pos, false)
    else
      var w := Visits(share, pos, dir, n - 1);
      var v := Visit(share, w.pos, dir.subs[n - 1]);
      Walk(v.pos, w.cut || v.cut)
  }

  /** The directories a walk comes to: all but the ones below a directory whose visit fails. */
  function Seen(share: seq<Rec>, pos: nat, dir: Dir): (ds: seq<Dir>)
    requires AtDir(share, pos)
    ensures ds != [] && ds[0] == dir
    decreases dir, |share| - pos, |dir.subs| + 1
  {
    var p := PosAfter(share, pos, dir);
    match StepAt(share, pos, dir)
    case Again => Seen(share, p, dir)
    case Stall => [dir]
    case Go => [dir] + SeenSubs(share, p, dir, |dir.subs|)
  }

  function SeenSubs(share: seq<Rec>, pos: nat, dir: Dir, n: nat): seq<Dir>
    requires AtDir(share, pos) && n <= |dir.subs|
    decreases dir, |share| - pos, n
  {
    if n == 0 then []
    else SeenSubs(share, pos, dir, n - 1) + Seen(share, Visits(share, pos, dir, n - 1).pos, dir.subs[n - 1])
  }

  /** The visit of `dir` itself fails. */
  function Stalls(share: seq<Rec>, pos: nat, dir: Dir): (stalls: bool)
    requires AtDir(share, pos)
    decreases |share| - pos
  {
    match StepAt(share, pos, dir)
    case Again => Stalls(share, PosAfter(share, pos, dir), dir)
    case Stall => true
    case Go => false
  }

  /** Without a short tail no visit fails, so no directory is ever missed. */
  lemma {:induction false} NothingIsCut(share: seq<Rec>, pos: nat, dir: Dir)
    requires AtDir(share, pos) && NoShortTail(share)
    ensures !Visit(share, pos, dir).cut && !Stalls(share, pos, dir)
    decreases dir, |share| - pos, |dir.subs| + 1
  {
    var p := PosAfter(share, pos, dir);
    match StepAt(share, pos, dir)
    case Again => NothingIsCut(share, p, dir);
    case Stall => assert false;
    case Go => NothingIsCutIn(share, p, dir, |dir.subs|);
  }

  lemma {:induction false} NothingIsCutIn(share: seq<Rec>, pos: nat, dir: Dir, n: nat)
    requires AtDir(share, pos) && NoShortTail(share) && n <= |dir.subs|
    ensures !Visits(share, pos, dir, n).cut
    decreases dir, |share| - pos, n
  {
    if n > 0 {
      NothingIsCutIn(share, pos, dir, n - 1);
      NothingIsCut(share, Visits(share, pos, dir, n - 1).pos, dir.subs[n - 1]);
    }
  }

  // ---- what the times are trusted for

  /** A record of a directory with the time of `dir` has the files of `dir` after it. */
  ghost predicate TrustDirAt(share: seq<Rec>, k: nat, dir: Dir)
    requires k < |share|
  {
    share[k] == DirRec(dir.mtime, dir.path) ==> share[k + 1..SectionEnd(share, k + 1)] == FileRecs(dir.files)
  }

  /** A record with the name and the time of `f` has its md5. */
  ghost predicate TrustRec(r: Rec, f: File) {
    r.FileRec? && r.name == f.name && r.mtime == f.mtime ==> r.md5 == f.md5
  }

  ghost predicate TrustSection(share: seq<Rec>, start: nat, end: nat, files: seq<File>)
    requires end <= |share|
  {
    forall j, f :: start <= j < end && f in files ==> TrustRec(share[j], f)
  }

  lemma TrustOne(share: seq<Rec>, start: nat, end: nat, files: seq<File>, j: nat, i: nat)
    requires end <= |share| && TrustSection(share, start, end, files) && start <= j < end && i < |files|
    ensures TrustRec(share[j], files[i])
  {
    assert files[i] in files;
  }

  lemma AtEnd(share: seq<Rec>, pos: nat)
    requires AtDir(share, pos)
    ensures SectionEnd(share, pos) == pos
  {}

  ghost predicate TrustFilesAt(share: seq<Rec>, k: nat, dir: Dir)
    requires k < |share|
  {
    share[k].DirRec? && share[k].path == dir.path ==> TrustSection(share, k + 1, SectionEnd(share, k + 1), dir.files)
  }

  /** The same time means the same contents, for directories and for files. */
  ghost predicate Trust(share: seq<Rec>, dir: Dir)
    decreases dir
  {
    && (forall k :: 0 <= k < |share| ==> TrustDirAt(share, k, dir))
    && (forall k :: 0 <= k < |share| ==> TrustFilesAt(share, k, dir))
    && (forall n :: 0 <= n < |dir.subs| ==> Trust(share, dir.subs[n]))
  }

  // ---- the books: every old file is kept or removed, every new file is kept or added

  ghost predicate Balanced(share: seq<Rec>, pos: nat, renewed: seq<Rec>, changes: seq<Change>, kept: multiset<FileId>) {
    && pos <= |share|
    && Ids(share[..pos]) == Signed(changes, Minus) + kept
    && Ids(renewed) == Signed(changes, Plus) + kept
  }

  lemma {:induction false} NewRec(recs: seq<Rec>, r: Rec)
    ensures Ids(recs + [r]) == Ids(recs) + IdOf(r)
  {
    assert (recs + [r])[..|recs|] == recs;
  }

  lemma {:induction false} NextRec(recs: seq<Rec>, pos: nat)
    requires pos < |recs|
    ensures Ids(recs[..pos + 1]) == Ids(recs[..pos]) + IdOf(recs[pos])
  {
    assert recs[..pos + 1] == recs[..pos] + [recs[pos]];
    NewRec(recs[..pos], recs[pos]);
  }

  lemma {:induction false} NewChange(changes: seq<Change>, c: Change, sign: Sign)
    ensures Signed(changes + [c], sign) == Signed(changes, sign) + if c.sign == sign then multiset{c.id} else multiset{}
  {
    assert (changes + [c])[..|changes|] == changes;
  }

  lemma {:induction false} LenFrom(recs: seq<Rec>, k: nat)
    requires k < |recs|
    ensures Len(recs[k..]) == RecLen(recs[k]) + Len(recs[k + 1..])
  {
    assert recs[k..][1..] == recs[k + 1..];
  }

  /** A short tail holds no file. */
  lemma {:induction false} ShortTailHasNoFile(share: seq<Rec>, k: nat)
    requires k <= |share| && Len(share[k..]) < READ_AHEAD
    ensures Ids(share[..|share|]) == Ids(share[..k])
    decreases |share| - k
  {
    if k < |share| {
      LenFrom(share, k);
      NextRec(share, k);
      ShortTailHasNoFile(share, k + 1);
    }
  }

  lemma {:induction false} ShortTailIsDirs(share: seq<Rec>, k: nat)
    requires k <= |share| && Len(share[k..]) < READ_AHEAD
    ensures forall i :: k <= i < |share| ==> share[i].DirRec?
    decreases |share| - k
  {
    if k < |share| {
      LenFrom(share, k);
      ShortTailIsDirs(share, k + 1);
    }
  }

  lemma {:induction false} IdsSplit(recs: seq<Rec>, k: nat)
    requires k <= |recs|
    ensures Ids(recs) == Ids(recs[..k]) + Ids(recs[k..])
  {
    hide Ids;
    NoIds();
    if k == |recs| {
      assert recs[..k] == recs && recs[k..] == [];
    } else {
      var rest, last := recs[..|recs| - 1], recs[|recs| - 1];
      IdsSplit(rest, k);
      NewRec(rest, last);
      NewRec(rest[k..], last);
      assert recs == rest + [last] && rest[..k] == recs[..k] && recs[k..] == rest[k..] + [last];
    }
  }

  lemma IdsJoin(a: seq<Rec>, b: seq<Rec>)
    ensures Ids(a + b) == Ids(a) + Ids(b)
  {
    hide Ids;
    IdsSplit(a + b, |a|);
    assert (a + b)[..|a|] == a && (a + b)[|a|..] == b;
  }

  lemma NoIds()
    ensures Ids([]) == multiset{}
  {}

  /** Replaying a balanced diff on the old files gives the new ones and those never reached. */
  lemma {:induction false} BalancedReplay(share: seq<Rec>, pos: nat, renewed: seq<Rec>, changes: seq<Change>, kept: multiset<FileId>)
    requires Balanced(share, pos, renewed, changes, kept)
    ensures Signed(changes, Minus) <= Ids(share) && Signed(changes, Plus) <= Ids(renewed)
    ensures Replayed(Ids(share), changes) == Ids(renewed) + Ids(share[pos..])
  {
    IdsSplit(share, pos);
    ReplayBalances(Ids(share), changes);
  }

  // ---- what a walk comes to

  /** A walk that misses nothing comes to every directory, and any other to fewer of them. */
  lemma {:induction false} SeenUnlessCut(share: seq<Rec>, pos: nat, dir: Dir)
    requires AtDir(share, pos)
    ensures var w, seen := Visit(share, pos, dir), Seen(share, pos, dir);
      if w.cut then |seen| < |Flatten(dir)| else seen == Flatten(dir)
    decreases dir, |share| - pos, |dir.subs| + 1
  {
    hide FlattenSubs, SeenSubs, StepAt, PosAfter;
    var p := PosAfter(share, pos, dir);
    match StepAt(share, pos, dir)
    case Again => SeenUnlessCut(share, p, dir);
    case Stall => SomeBelow(dir);
    case Go => SeenUnlessCutIn(share, p, dir, |dir.subs|);
  }

  lemma {:induction false} SeenUnlessCutIn(share: seq<Rec>, pos: nat, dir: Dir, n: nat)
    requires AtDir(share, pos) && n <= |dir.subs|
    ensures var w, seen := Visits(share, pos, dir, n), SeenSubs(share, pos, dir, n);
      if w.cut then |seen| < |FlattenSubs(dir, n)| else seen == FlattenSubs(dir, n)
    decreases dir, |share| - pos, n
  {
    hide Flatten, Seen, Visit;
    if n > 0 {
      SeenUnlessCutIn(share, pos, dir, n - 1);
      SeenUnlessCut(share, Visits(share, pos, dir, n - 1).pos, dir.subs[n - 1]);
    }
  }

  /** The files of the directories a walk comes to are files of the tree. */
  lemma {:induction false} SeenIsPart(share: seq<Rec>, pos: nat, dir: Dir)
    requires AtDir(share, pos)
    ensures Ids(FlatListing(Seen(share, pos, dir))) <= Ids(Listing(dir))
    decreases dir, |share| - pos, |dir.subs| + 1
  {
    hide SeenSubs, StepAt, PosAfter, Ids, Own, Listing, Listings, FlatListing;
    var p := PosAfter(share, pos, dir);
    ListingParts(dir);
    IdsJoin(Own(dir), Listings(dir, |dir.subs|));
    FlatOne(dir);
    match StepAt(share, pos, dir)
    case Again => SeenIsPart(share, p, dir);
    case Stall =>
    case Go =>
      var below := SeenSubs(share, p, dir, |dir.subs|);
      SeenIsPartIn(share, p, dir, |dir.subs|);
      FlatJoin([dir], below);
      IdsJoin(Own(dir), FlatListing(below));
  }

  lemma {:induction false} SeenIsPartIn(share: seq<Rec>, pos: nat, dir: Dir, n: nat)
    requires AtDir(share, pos) && n <= |dir.subs|
    ensures Ids(FlatListing(SeenSubs(share, pos, dir, n))) <= Ids(Listings(dir, n))
    decreases dir, |share| - pos, n
  {
    hide Ids, Own, Listing, Seen, Visits;
    if n > 0 {
      var p := Visits(share, pos, dir, n - 1).pos;
      SeenIsPartIn(share, pos, dir, n - 1);
      SeenIsPart(share, p, dir.subs[n - 1]);
      var a, b := SeenSubs(share, pos, dir, n - 1), Seen(share, p, dir.subs[n - 1]);
      FlatJoin(a, b);
      IdsJoin(FlatListing(a), FlatListing(b));
      IdsJoin(Listings(dir, n - 1), Listing(dir.subs[n - 1]));
    }
  }

  lemma SomeBelow(dir: Dir)
    ensures FlattenSubs(dir, |dir.subs|) == [] <==> dir.subs == []
  {
    hide Flatten;
  }

  lemma {:induction false} FewerDirs(a: seq<Dir>, b: seq<Dir>)
    requires |a| < |b|
    ensures FlatListing(a) != FlatListing(b)
  {
    hide FlatListing;
    if FlatListing(a) == FlatListing(b) {
      DirsIn(a);
      DirsIn(b);
    }
  }

  /** How many directory records an index has. */
  function DirCount(recs: seq<Rec>): nat {
    if recs == [] then 0 else (if recs[0].DirRec? then 1 else 0) + DirCount(recs[1..])
  }

  lemma {:induction false} DirsIn(ds: seq<Dir>)
    ensures DirCount(FlatListing(ds)) == |ds|
  {
    if ds != [] {
      DirsIn(ds[1..]);
      var own, rest := Own(ds[0]), FlatListing(ds[1..]);
      assert (own + rest)[1..] == FileRecs(ds[0].files) + rest;
      DirsPast(FileRecs(ds[0].files), rest);
    }
  }

  lemma {:induction false} DirsPast(files: seq<Rec>, rest: seq<Rec>)
    requires forall i :: 0 <= i < |files| ==> files[i].FileRec?
    ensures DirCount(files + rest) == DirCount(rest)
  {
    if files == [] {
      assert files + rest == rest;
    } else {
      assert (files + rest)[1..] == files[1..] + rest;
      DirsPast(files[1..], rest);
    }
  }

  lemma {:induction false} TrustBelow(share: seq<Rec>, dir: Dir, n: nat)
    requires Trust(share, dir) && n < |dir.subs|
    ensures Trust(share, dir.subs[n])
  {}

  // ---- an index that already lists the tree

  /** The index lists exactly `listing` from `pos` on, and goes on with a directory, if at all. */
  ghost predicate At(share: seq<Rec>, pos: nat, listing: seq<Rec>) {
    pos + |listing| <= |share| && share[pos..pos + |listing|] == listing && AtDir(share, pos + |listing|)
  }

  lemma {:induction false} AtSplit(share: seq<Rec>, pos: nat, a: seq<Rec>, b: seq<Rec>)
    requires At(share, pos, a + b)
    requires b != [] ==> b[0].DirRec?
    ensures At(share, pos, a) && At(share, pos + |a|, b)
  {
    assert share[pos..pos + |a + b|] == share[pos..pos + |a|] + share[pos + |a|..pos + |a| + |b|];
    assert share[pos..pos + |a|] == (a + b)[..|a|];
    assert share[pos + |a|..pos + |a| + |b|] == (a + b)[|a|..];
    assert b != [] ==> share[pos + |a|] == b[0];
  }

  lemma {:induction false} SectionIs(share: seq<Rec>, pos: nat, files: seq<Rec>)
    requires At(share, pos, files) && forall i :: 0 <= i < |files| ==> files[i].FileRec?
    ensures SectionEnd(share, pos) == pos + |files|
    decreases |files|
  {
    if files != [] {
      assert share[pos] == share[pos..pos + |files|][0];
      assert share[pos + 1..pos + |files|] == share[pos..pos + |files|][1..];
      SectionIs(share, pos + 1, files[1..]);
    }
  }

  /** What an index that lists `dir` here has for its own record and its files. */
  lemma {:induction false} AtFiles(share: seq<Rec>, pos: nat, dir: Dir)
    requires At(share, pos, Listing(dir))
    ensures pos < |share| && share[pos] == DirRec(dir.mtime, dir.path)
    ensures SectionEnd(share, pos + 1) == pos + 1 + |dir.files|
    ensures share[pos + 1..pos + 1 + |dir.files|] == FileRecs(dir.files)
    ensures At(share, pos + 1 + |dir.files|, Listings(dir, |dir.subs|))
  {
    hide Listings;
    var own, files, subs := [DirRec(dir.mtime, dir.path)], FileRecs(dir.files), Listings(dir, |dir.subs|);
    assert Listing(dir) == (own + files) + subs;
    AtSplit(share, pos, own + files, subs);
    assert share[pos..pos + 1 + |files|][0] == own[0];
    assert share[pos + 1..pos + 1 + |files|] == share[pos..pos + 1 + |files|][1..];
    assert (own + files)[1..] == files;
    SectionIs(share, pos + 1, files);
  }

  lemma {:induction false} AtSub(share: seq<Rec>, pos: nat, dir: Dir, n: nat)
    requires n < |dir.subs| && At(share, pos, Listings(dir, |dir.subs|))
    ensures At(share, pos + |Listings(dir, n)|, Listing(dir.subs[n]))
  {
    AtFirst(share, pos, dir, n + 1);
    AtSplit(share, pos, Listings(dir, n), Listing(dir.subs[n]));
  }

  lemma {:induction false} AtFirst(share: seq<Rec>, pos: nat, dir: Dir, n: nat)
    requires n <= |dir.subs| && At(share, pos, Listings(dir, |dir.subs|))
    ensures At(share, pos, Listings(dir, n))
    decreases |dir.subs| - n
  {
    if n < |dir.subs| {
      AtFirst(share, pos, dir, n + 1);
      AtSplit(share, pos, Listings(dir, n), Listing(dir.subs[n]));
    }
  }

  lemma NoSubs(share: seq<Rec>, pos: nat, dir: Dir, recs: seq<Rec>, changes: seq<Change>)
    requires AtDir(share, pos)
    ensures recs == recs + FlatListing(SeenSubs(share, pos, dir, 0))
    ensures Listings(dir, 0) == [] && Visits(share, pos, dir, 0) == Walk(pos, false)
    ensures changes == changes + SubChanges(share, pos, dir, 0)
  {}

  /** The cursor is where the index lists the tree, or has run past a short tail of it. */
  ghost predicate OnTrack(share: seq<Rec>, q: nat, pos: nat)
    requires q <= |share|
  {
    pos == q || (pos == |share| && Len(share[q..]) < READ_AHEAD)
  }

  ghost predicate Tracks(share: seq<Rec>, q: nat, pos: nat, listing: seq<Rec>) {
    At(share, q, listing) && OnTrack(share, q, pos)
  }

  /** Past the end of the index the cursor stays on track. */
  lemma {:induction false} StaysOnTrack(share: seq<Rec>, q: nat, r: nat)
    requires q <= r <= |share| && OnTrack(share, q, |share|)
    ensures OnTrack(share, r, |share|)
    decreases r - q
  {
    if q < r {
      LenFrom(share, q);
      StaysOnTrack(share, q + 1, r);
    } else {
      assert share[r..] == [] || q == r;
    }
  }

  lemma ListingParts(dir: Dir)
    ensures Listing(dir) == Own(dir) + Listings(dir, |dir.subs|)
    ensures Listings(dir, |dir.subs|) == [] <==> dir.subs == []
  {}

  /** What the visit of `dir` writes: its own records, and those of the directories below. */
  lemma SeenWritten(before: seq<Rec>, share: seq<Rec>, pos: nat, dir: Dir)
    requires AtDir(share, pos)
    ensures match StepAt(share, pos, dir)
            case Again => Seen(share, pos, dir) == Seen(share, PosAfter(share, pos, dir), dir)
            case Stall => before + FlatListing(Seen(share, pos, dir)) == before + Own(dir)
            case Go =>
              before + FlatListing(Seen(share, pos, dir)) ==
              before + Own(dir) + FlatListing(SeenSubs(share, PosAfter(share, pos, dir), dir, |dir.subs|))
  {
    hide Own, SeenSubs, FlatListing, StepAt, PosAfter;
    FlatOne(dir);
    if StepAt(share, pos, dir) == Go {
      var below := SeenSubs(share, PosAfter(share, pos, dir), dir, |dir.subs|);
      FlatJoin([dir], below);
      Regroup(before, Own(dir), FlatListing(below));
    }
  }

  lemma NextWritten(before: seq<Rec>, share: seq<Rec>, pos: nat, dir: Dir, n: nat)
    requires AtDir(share, pos) && n < |dir.subs|
    ensures before + FlatListing(SeenSubs(share, pos, dir, n + 1)) ==
      before + FlatListing(SeenSubs(share, pos, dir, n)) + FlatListing(Seen(share, Visits(share, pos, dir, n).pos, dir.subs[n]))
  {
    hide FlatListing, Seen, Visits;
    var a, b := SeenSubs(share, pos, dir, n), Seen(share, Visits(share, pos, dir, n).pos, dir.subs[n]);
    FlatJoin(a, b);
    Regroup(before, FlatListing(a), FlatListing(b));
  }

  /** What is known of the records of `dir`: by trust, or because the index lists it already. */
  ghost predicate Known(share: seq<Rec>, q: nat, pos: nat, dir: Dir) {
    Trust(share, dir) || Tracks(share, q, pos, Listing(dir))
  }

  lemma KnownFiles(share: seq<Rec>, q: nat, pos: nat, dir: Dir)
    requires AtDir(share, pos) && Known(share, q, pos, dir) && pos < |share| && share[pos].path == dir.path
    ensures var e := SectionEnd(share, pos + 1);
      if share[pos].mtime == dir.mtime then share[pos + 1..e] == FileRecs(dir.files)
      else TrustSection(share, pos + 1, e, dir.files)
  {
    hide At, Listing, FileRecs, TrustSection;
    if Trust(share, dir) {
      assert TrustDirAt(share, pos, dir) && TrustFilesAt(share, pos, dir);
    } else {
      AtFiles(share, pos, dir);
    }
  }

  /** The records of `dir` itself leave the cursor on track, and past a short tail add no file. */
  lemma TrackFiles(share: seq<Rec>, q: nat, pos: nat, dir: Dir)
    requires AtDir(share, pos) && Tracks(share, q, pos, Listing(dir))
    ensures q + |Own(dir)| <= |share| && At(share, q + |Own(dir)|, Listings(dir, |dir.subs|))
    ensures StepAt(share, pos, dir) != Again && OnTrack(share, q + |Own(dir)|, PosAfter(share, pos, dir))
    ensures if pos == |share| then dir.files == [] else share[pos] == DirRec(dir.mtime, dir.path)
  {
    hide At, Listing, FileRecs, Listings;
    AtFiles(share, q, dir);
    AtEnds(share, q + |Own(dir)|, Listings(dir, |dir.subs|));
    if pos == |share| {
      LenFrom(share, q);
      StaysOnTrack(share, q, q + |Own(dir)|);
      ShortTailIsDirs(share, q);
      assert AtDir(share, q + 1);
    }
  }

  lemma AtEnds(share: seq<Rec>, q: nat, listing: seq<Rec>)
    requires At(share, q, listing)
    ensures q + |listing| <= |share|
  {}

  /** One more subdirectory. */
  lemma NextSub(share: seq<Rec>, pos: nat, dir: Dir, n: nat)
    requires AtDir(share, pos) && n < |dir.subs|
    ensures Listings(dir, n + 1) == Listings(dir, n) + Listing(dir.subs[n])
    ensures var w := Visits(share, pos, dir, n);
      var v := Visit(share, w.pos, dir.subs[n]);
      Visits(share, pos, dir, n + 1) == Walk(v.pos, w.cut || v.cut)
  {}

  lemma TrackSub(share: seq<Rec>, q: nat, pos: nat, dir: Dir, n: nat)
    requires n < |dir.subs| && At(share, q, Listings(dir, |dir.subs|))
    requires q + |Listings(dir, n)| <= |share| && OnTrack(share, q + |Listings(dir, n)|, pos)
    ensures Tracks(share, q + |Listings(dir, n)|, pos, Listing(dir.subs[n]))
    ensures q + |Listings(dir, n)| + |Listing(dir.subs[n])| <= |share|
  {
    hide At, OnTrack, Listings, Listing;
    AtSub(share, q, dir, n);
    AtEnds(share, q + |Listings(dir, n)|, Listing(dir.subs[n]));
  }

  lemma TrackEnds(share: seq<Rec>, pos: nat)
    requires OnTrack(share, |share|, pos)
    ensures pos == |share|
  {}

  lemma OwnAppended(recs: seq<Rec>, dir: Dir)
    ensures recs + [DirRec(dir.mtime, dir.path)] + FileRecs(dir.files) == recs + Own(dir)
  {}

  lemma TracksStart(share: seq<Rec>, q: nat, pos: nat, listing: seq<Rec>)
    requires Tracks(share, q, pos, listing)
    ensures At(share, q, listing) && q + |listing| <= |share| && OnTrack(share, q, pos)
  {}

  // ---- the diff, record by record

  ghost function Added(files: seq<File>): seq<Change> {
    if files == [] then []
    else
      var f := files[|files| - 1];
      Added(files[..|files| - 1]) + [Change(Plus, FileId(f.md5, f.name))]
  }

  /** Every file among the records is withdrawn. */
  ghost function Dropped(recs: seq<Rec>): seq<Change> {
    if recs == [] then []
    else
      var r := recs[|recs| - 1];
      Dropped(recs[..|recs| - 1]) + if r.FileRec? then [Change(Minus, FileId(r.md5, r.name))] else []
  }

  /** What comes of comparing a record with a file of the same directory. */
  ghost function Compared(r: Rec, f: File): seq<Change>
    requires r.FileRec?
  {
    var m := StrCmp(r.name, f.name);
    if m < 0 then [Change(Minus, FileId(r.md5, r.name))]
    else if m > 0 then [Change(Plus, FileId(f.md5, f.name))]
    else if r.mtime == f.mtime then []
    else [Change(Minus, FileId(r.md5, f.name)), Change(Plus, FileId(f.md5, f.name))]
  }

  /** The merge of the records up to `end` with the files of a changed directory. */
  ghost function Merged(share: seq<Rec>, pos: nat, end: nat, files: seq<File>): seq<Change>
    requires pos <= end <= |share| && forall i :: pos <= i < end ==> share[i].FileRec?
    decreases |files|, end - pos
  {
    if files == [] || pos == end then Added(files) + Dropped(share[pos..end])
    else
      var m := StrCmp(share[pos].name, files[0].name);
      Compared(share[pos], files[0]) +
      Merged(share, if m <= 0 then pos + 1 else pos, end, if m >= 0 then files[1..] else files)
  }

  ghost function FileChanges(share: seq<Rec>, pos: nat, dir: Dir): seq<Change>
    requires AtDir(share, pos)
  {
    if pos == |share| || StrCmp(share[pos].path, dir.path) > 0 then Added(dir.files)
    else if StrCmp(share[pos].path, dir.path) < 0 then Dropped(share[pos + 1..SectionEnd(share, pos + 1)])
    else if share[pos].mtime == dir.mtime then []
    else Merged(share, pos + 1, SectionEnd(share, pos + 1), dir.files)
  }

  ghost function DirChanges(share: seq<Rec>, pos: nat, dir: Dir): seq<Change>
    requires AtDir(share, pos)
    decreases dir, |share| - pos, |dir.subs| + 1
  {
    var p := PosAfter(share, pos, dir);
    FileChanges(share, pos, dir) +
    match StepAt(share, pos, dir)
    case Again => DirChanges(share, p, dir)
    case Stall => []
    case Go => SubChanges(share, p, dir, |dir.subs|)
  }

  ghost function SubChanges(share: seq<Rec>, pos: nat, dir: Dir, n: nat): seq<Change>
    requires AtDir(share, pos) && n <= |dir.subs|
    decreases dir, |share| - pos, n
  {
    if n == 0 then []
    else SubChanges(share, pos, dir, n - 1) + DirChanges(share, Visits(share, pos, dir, n - 1).pos, dir.subs[n - 1])
  }

  /** At the top, whatever the walk has not come to is withdrawn, unless it started again. */
  ghost function TopChanges(share: seq<Rec>, pos: nat, dir: Dir, top: bool): seq<Change>
    requires AtDir(share, pos)
  {
    if !top || Stalls(share, pos, dir) || StepAt(share, pos, dir) == Again then [] else Dropped(share[Visit(share, pos, dir).pos..])
  }

  /** Everything `create_diff` writes to the diff file. */
  ghost function AllChanges(share: seq<Rec>, root: Dir): seq<Change>
    requires AtDir(share, 0)
  {
    DirChanges(share, 0, root) + TopChanges(share, 0, root, true)
  }

  /** What is left of the old index when `create_diff` is done: nothing, unless the first
      record compares below the root, because `diff` then starts again without its flag. */
  function LeftOver(share: seq<Rec>, root: Dir): (rest: seq<Rec>)
    requires AtDir(share, 0)
  {
    if StepAt(share, 0, root) == Again then share[Visit(share, 0, root).pos..] else []
  }

  lemma NextChanges(share: seq<Rec>, pos: nat, dir: Dir, n: nat, before: seq<Change>)
    requires AtDir(share, pos) && n < |dir.subs|
    ensures SubChanges(share, pos, dir, 0) == []
    ensures before + SubChanges(share, pos, dir, n + 1) ==
      before + SubChanges(share, pos, dir, n) + DirChanges(share, Visits(share, pos, dir, n).pos, dir.subs[n])
  {
    hide DirChanges, Visits;
    var a, b := SubChanges(share, pos, dir, n), DirChanges(share, Visits(share, pos, dir, n).pos, dir.subs[n]);
    assert before + (a + b) == before + a + b;
  }

  lemma AddedNext(files: seq<File>, start: nat, i: nat)
    requires start <= i < |files|
    ensures Added(files[start..i + 1]) == Added(files[start..i]) + [Change(Plus, FileId(files[i].md5, files[i].name))]
    ensures Added(files[start..start]) == []
  {
    assert files[start..i + 1][..i - start] == files[start..i];
  }

  lemma DroppedNext(recs: seq<Rec>, start: nat, i: nat)
    requires start <= i < |recs|
    ensures Dropped(recs[start..i + 1]) ==
      Dropped(recs[start..i]) + if recs[i].FileRec? then [Change(Minus, FileId(recs[i].md5, recs[i].name))] else []
  {
    assert recs[start..i + 1][..i - start] == recs[start..i];
  }

  /** A merge in progress: what has been written and what is still to come make up the whole. */
  ghost predicate Merging(share: seq<Rec>, start: nat, before: seq<Change>, pos: nat, end: nat, files: seq<File>, i: nat, changes: seq<Change>) {
    && start <= pos <= end <= |share| && i <= |files| && (forall j :: start <= j < end ==> share[j].FileRec?)
    && changes + Merged(share, pos, end, files[i..]) == before + Merged(share, start, end, files)
  }

  lemma MergingStarts(share: seq<Rec>, start: nat, before: seq<Change>, files: seq<File>)
    requires start <= |share|
    ensures Merging(share, start, before, start, SectionEnd(share, start), files, 0, before)
  {
    hide Merged;
    assert files[0..] == files;
  }

  lemma MergingNext(share: seq<Rec>, start: nat, before: seq<Change>, pos: nat, end: nat, files: seq<File>, i: nat, changes: seq<Change>)
    requires Merging(share, start, before, pos, end, files, i, changes) && i < |files| && pos < end
    ensures share[pos].FileRec?
    ensures var m := StrCmp(share[pos].name, files[i].name);
      Merging(share, start, before, if m <= 0 then pos + 1 else pos, end, files, if m >= 0 then i + 1 else i, changes + Compared(share[pos], files[i]))
  {
    hide Compared, Added, Dropped, StrCmp;
    assert files[i..][1..] == files[i + 1..];
    var m := StrCmp(share[pos].name, files[i].name);
    var rest := Merged(share, if m <= 0 then pos + 1 else pos, end, files[if m >= 0 then i + 1 else i..]);
    assert changes + (Compared(share[pos], files[i]) + rest) == changes + Compared(share[pos], files[i]) + rest;
  }

  lemma MergingEnds(share: seq<Rec>, start: nat, before: seq<Change>, pos: nat, end: nat, files: seq<File>, i: nat, changes: seq<Change>)
    requires Merging(share, start, before, pos, end, files, i, changes) && (i == |files| || pos == end)
    ensures changes + Added(files[i..]) + Dropped(share[pos..end]) == before + Merged(share, start, end, files)
  {
    hide Added, Dropped;
    var rest := Merged(share, pos, end, files[i..]);
    assert rest == Added(files[i..]) + Dropped(share[pos..end]);
    assert changes + (Added(files[i..]) + Dropped(share[pos..end])) == changes + Added(files[i..]) + Dropped(share[pos..end]);
  }

  lemma NoChanges()
    ensures Added([]) == [] && Dropped([]) == []
  {}

  // ---- an unchanged tree

  lemma TrackedFileChanges(share: seq<Rec>, q: nat, pos: nat, dir: Dir)
    requires AtDir(share, pos) && Tracks(share, q, pos, Listing(dir))
    ensures FileChanges(share, pos, dir) == []
  {
    hide Listing, Listings, Dropped, Merged, At, OnTrack;
    TrackFiles(share, q, pos, dir);
    NoChanges();
  }

  /** Along an index that lists the tree already nothing changes, and the walk stays on track. */
  lemma {:induction false} TrackVisit(share: seq<Rec>, q: nat, pos: nat, dir: Dir)
    requires AtDir(share, pos) && Tracks(share, q, pos, Listing(dir))
    ensures q + |Listing(dir)| <= |share| && OnTrack(share, q + |Listing(dir)|, Visit(share, pos, dir).pos)
    ensures DirChanges(share, pos, dir) == []
    decreases dir, |share| - pos, |dir.subs| + 1
  {
    hide Listing, Listings, FileChanges, StepAt, PosAfter, At, OnTrack, Own;
    TracksStart(share, q, pos, Listing(dir));
    TrackFiles(share, q, pos, dir);
    TrackedFileChanges(share, q, pos, dir);
    ListingParts(dir);
    match StepAt(share, pos, dir)
    case Stall => StaysOnTrack(share, q + |Own(dir)|, q + |Listing(dir)|);
    case Go => TrackVisits(share, q + |Own(dir)|, PosAfter(share, pos, dir), dir, |dir.subs|);
  }

  lemma {:induction false} TrackVisits(share: seq<Rec>, q: nat, pos: nat, dir: Dir, n: nat)
    requires AtDir(share, pos) && n <= |dir.subs| && Tracks(share, q, pos, Listings(dir, |dir.subs|))
    ensures q + |Listings(dir, n)| <= |share| && OnTrack(share, q + |Listings(dir, n)|, Visits(share, pos, dir, n).pos)
    ensures SubChanges(share, pos, dir, n) == []
    decreases dir, |share| - pos, n
  {
    hide Listing, At, OnTrack, Visit, DirChanges;
    TracksStart(share, q, pos, Listings(dir, |dir.subs|));
    if n > 0 {
      TrackVisits(share, q, pos, dir, n - 1);
      var p := Visits(share, pos, dir, n - 1).pos;
      TrackSub(share, q, p, dir, n - 1);
      TrackVisit(share, q + |Listings(dir, n - 1)|, p, dir.subs[n - 1]);
    }
  }

  /** An unchanged tree has an empty diff. */
  lemma UnchangedTree(root: Dir)
    ensures AllChanges(Listing(root), root) == []
  {
    hide Listing, DirChanges, OnTrack, Visit, StepAt;
    var share := Listing(root);
    ListsItself(root);
    TrackVisit(share, 0, 0, root);
    TrackEnds(share, Visit(share, 0, root).pos);
    NoChanges();
    assert share[|share|..] == [];
  }

  lemma ListsItself(root: Dir)
    ensures Tracks(Listing(root), 0, 0, Listing(root))
  {
    var share := Listing(root);
    assert share[0..|share|] == share;
  }

  // ---- what a visit knows of the next one

  lemma KnownSub(share: seq<Rec>, q: nat, pos: nat, dir: Dir, n: nat)
    requires AtDir(share, pos) && n < |dir.subs|
    requires Trust(share, dir) || Tracks(share, q, pos, Listings(dir, |dir.subs|))
    ensures Known(share, q + |Listings(dir, n)|, Visits(share, pos, dir, n).pos, dir.subs[n])
  {
    hide Listing, Listings, At, OnTrack, Visits;
    if Trust(share, dir) {
      TrustBelow(share, dir, n);
    } else {
      TrackVisits(share, q, pos, dir, n);
      TrackSub(share, q, Visits(share, pos, dir, n).pos, dir, n);
    }
  }

  lemma KnownSubs(share: seq<Rec>, q: nat, pos: nat, dir: Dir)
    requires AtDir(share, pos) && Known(share, q, pos, dir)
    ensures Trust(share, dir) || Tracks(share, q + |Own(dir)|, PosAfter(share, pos, dir), Listings(dir, |dir.subs|))
  {
    hide Listing, Listings, At, OnTrack, PosAfter, Own;
    if !Trust(share, dir) {
      TrackFiles(share, q, pos, dir);
    }
  }

  lemma NeverAgain(share: seq<Rec>, q: nat, pos: nat, dir: Dir)
    requires AtDir(share, pos) && Known(share, q, pos, dir) && StepAt(share, pos, dir) == Again
    ensures Trust(share, dir)
  {
    hide Listing, Listings, At, OnTrack, PosAfter, Own, StepAt;
    if !Trust(share, dir) {
      TrackFiles(share, q, pos, dir);
    }
  }

  lemma Regroup<T>(a: seq<T>, b: seq<T>, c: seq<T>)
    ensures a + b + c == a + (b + c) && a + [] == a && a + b + [] == a + b && b + [] == b
  {}
}
