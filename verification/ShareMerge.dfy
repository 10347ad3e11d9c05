/** The incremental share index as a merge of two lists of directories, the ones of the old index
    and the ones of the tree (src/client/shared.c), and what it does to a file that changes its
    place. */
module ShareMerge {
  import opened Common
  import opened ShareDiff

  // ---- the order of `strcmp`

  predicate Below(a: seq<byte>, b: seq<byte>) {
    StrCmp(a, b) < 0
  }

  lemma {:induction false} CmpBack(a: seq<byte>, b: seq<byte>)
    ensures StrCmp(a, b) > 0 <==> Below(b, a)
  {
    if a != [] && b != [] && a[0] == b[0] {
      CmpBack(a[1..], b[1..]);
    }
  }

  lemma {:induction false} BelowBelow(a: seq<byte>, b: seq<byte>, c: seq<byte>)
    requires Below(a, b) && Below(b, c)
    ensures Below(a, c)
  {
    if a != [] && c != [] && a[0] == c[0] {
      BelowBelow(a[1..], b[1..], c[1..]);
    }
  }

  // ---- sorted lists of files and of directories

  ghost predicate SortedFiles(files: seq<File>) {
    forall i, j :: 0 <= i < j < |files| ==> Below(files[i].name, files[j].name)
  }

  /** The files of each directory are in the order of their names, as `scandir` sorts them. */
  ghost predicate FilesSorted(ds: seq<Dir>) {
    forall d :: d in ds ==> SortedFiles(d.files)
  }

  /** Directories in the order of their paths. */
  ghost predicate SortedDirs(ds: seq<Dir>) {
    forall i, j :: 0 <= i < j < |ds| ==> Below(ds[i].path, ds[j].path)
  }

  function FileIdOf(f: File): FileId {
    FileId(f.md5, f.name)
  }

  ghost function IdsIn(files: seq<File>): set<FileId> {
    set f | f in files :: FileIdOf(f)
  }

  /** No file is in two directories. */
  ghost predicate Apart(ds: seq<Dir>) {
    forall i, j :: 0 <= i < j < |ds| ==> IdsIn(ds[i].files) !! IdsIn(ds[j].files)
  }

  /** The same name and the same time mean the same contents. */
  ghost predicate FilesAgree(os: seq<File>, fs: seq<File>) {
    forall o, f :: o in os && f in fs && o.name == f.name && o.mtime == f.mtime ==> o.md5 == f.md5
  }

  /** The same for a directory: the same path and the same time mean the same files. */
  ghost predicate DirsAgree(o: Dir, d: Dir) {
    o.path == d.path ==> if o.mtime == d.mtime then o.files == d.files else FilesAgree(o.files, d.files)
  }

  ghost predicate Agree(olds: seq<Dir>, ds: seq<Dir>) {
    forall i, j :: 0 <= i < |olds| && 0 <= j < |ds| ==> DirsAgree(olds[i], ds[j])
  }

  // ---- the merge of two directories

  /** The changes of a directory from the files `os` to the files `fs`. */
  ghost function FileMerge(os: seq<File>, fs: seq<File>): seq<Change> {
    if os == [] || fs == [] then Added(fs) + Dropped(FileRecs(os))
    else
      var m := StrCmp(os[0].name, fs[0].name);
      Compared(RecOf(os[0]), fs[0]) + FileMerge(if m <= 0 then os[1..] else os, if m >= 0 then fs[1..] else fs)
  }

  /** It is what the diff makes of a section that has the records of `os`. */
  lemma {:induction false} SectionMerge(share: seq<Rec>, pos: nat, end: nat, os: seq<File>, fs: seq<File>)
    requires pos <= end <= |share| && share[pos..end] == FileRecs(os)
    ensures forall i :: pos <= i < end ==> share[i].FileRec?
    ensures Merged(share, pos, end, fs) == FileMerge(os, fs)
    decreases |fs|, end - pos
  {
    hide Added, Dropped, Compared, StrCmp;
    forall i | pos <= i < end
      ensures share[i] == RecOf(os[i - pos])
    {
      assert share[i] == share[pos..end][i - pos];
    }
    if fs != [] && pos < end {
      var m := StrCmp(share[pos].name, fs[0].name);
      SliceTail(share, pos, end, os);
      SectionMerge(share, if m <= 0 then pos + 1 else pos, end, if m <= 0 then os[1..] else os, if m >= 0 then fs[1..] else fs);
    }
  }

  lemma {:induction false} SliceTail(share: seq<Rec>, pos: nat, end: nat, os: seq<File>)
    requires pos < end <= |share| && share[pos..end] == FileRecs(os)
    ensures share[pos + 1..end] == FileRecs(os[1..])
  {
    assert share[pos + 1..end] == share[pos..end][1..];
  }

  lemma {:induction false} AddedHas(files: seq<File>, sign: Sign, id: FileId)
    ensures Change(sign, id) in Added(files) <==> sign == Plus && id in IdsIn(files)
  {
    if files != [] {
      var rest, f := files[..|files| - 1], files[|files| - 1];
      AddedHas(rest, sign, id);
      LastFile(files);
    }
  }

  lemma {:induction false} DroppedHas(files: seq<File>, sign: Sign, id: FileId)
    ensures Change(sign, id) in Dropped(FileRecs(files)) <==> sign == Minus && id in IdsIn(files)
  {
    if files != [] {
      var rest, f := files[..|files| - 1], files[|files| - 1];
      DroppedHas(rest, sign, id);
      LastFile(files);
      assert FileRecs(files)[..|files| - 1] == FileRecs(rest);
    }
  }

  lemma {:induction false} OneSign(changes: seq<Change>, id: FileId)
    requires Change(Plus, id) !in changes || Change(Minus, id) !in changes
    ensures !Withdraws(changes, id)
  {}

  lemma {:induction false} FirstFile(files: seq<File>)
    requires files != []
    ensures IdsIn(files) == {FileIdOf(files[0])} + IdsIn(files[1..])
  {
    assert files == [files[0]] + files[1..];
  }

  lemma {:induction false} LastFile(files: seq<File>)
    requires files != []
    ensures IdsIn(files) == IdsIn(files[..|files| - 1]) + {FileIdOf(files[|files| - 1])}
  {
    assert files == files[..|files| - 1] + [files[|files| - 1]];
  }

  /** A file whose name is below all others is none of them. */
  lemma {:induction false} NameBelow(files: seq<File>, f: File)
    requires SortedFiles(files) && (files != [] ==> Below(f.name, files[0].name))
    ensures forall g :: g in files ==> g.name != f.name
  {
    forall g | g in files
      ensures g.name != f.name
    {
      var i :| 0 <= i < |files| && files[i] == g;
      if i > 0 {
        BelowBelow(f.name, files[0].name, g.name);
      }
    }
  }

  lemma {:induction false} SortedRest(files: seq<File>)
    requires SortedFiles(files) && files != []
    ensures SortedFiles(files[1..])
    ensures forall g :: g in files[1..] ==> g.name != files[0].name
  {
    forall i, j | 0 <= i < j < |files[1..]|
      ensures Below(files[1..][i].name, files[1..][j].name)
    {
      assert files[1..][i] == files[1 + i] && files[1..][j] == files[1 + j];
    }
    NameBelow(files[1..], files[0]);
  }

  /** The signs the merge of a directory gives to a file; it withdraws none after announcing it. */
  ghost predicate Signs(changes: seq<Change>, was: bool, now: bool, id: FileId) {
    && (Change(Plus, id) in changes ==> now)
    && (Change(Minus, id) in changes ==> was)
    && (now && !was ==> Change(Plus, id) in changes)
    && (was && !now ==> Change(Minus, id) in changes)
    && !Withdraws(changes, id)
  }

  lemma {:induction false} FileMergeSigns(os: seq<File>, fs: seq<File>, id: FileId)
    requires SortedFiles(os) && SortedFiles(fs) && FilesAgree(os, fs)
    ensures Signs(FileMerge(os, fs), id in IdsIn(os), id in IdsIn(fs), id)
    decreases |os| + |fs|
  {
    hide SortedFiles, FileRecs, Added, Dropped, Compared, StrCmp;
    if os == [] || fs == [] {
      AddedHas(fs, Plus, id);
      AddedHas(fs, Minus, id);
      DroppedHas(os, Plus, id);
      DroppedHas(os, Minus, id);
      OneSign(FileMerge(os, fs), id);
    } else {
      var o, f := os[0], fs[0];
      var m := StrCmp(o.name, f.name);
      var os', fs' := if m <= 0 then os[1..] else os, if m >= 0 then fs[1..] else fs;
      SortedRest(os);
      SortedRest(fs);
      FirstFile(os);
      FirstFile(fs);
      CmpBack(o.name, f.name);
      if m < 0 {
        NameBelow(fs, o);
      } else if m > 0 {
        NameBelow(os, f);
      }
      FileMergeSigns(os', fs', id);
      ComparedSigns(o, f, os', fs', FileMerge(os', fs'), id);
    }
  }

  lemma {:induction false} ComparedSigns(o: File, f: File, os: seq<File>, fs: seq<File>, rest: seq<Change>, id: FileId)
    requires StrCmp(o.name, f.name) <= 0 ==> forall g :: g in os ==> g.name != o.name
    requires StrCmp(o.name, f.name) < 0 ==> forall g :: g in fs ==> g.name != o.name
    requires StrCmp(o.name, f.name) >= 0 ==> forall g :: g in fs ==> g.name != f.name
    requires StrCmp(o.name, f.name) > 0 ==> forall g :: g in os ==> g.name != f.name
    requires o.name == f.name && o.mtime == f.mtime ==> o.md5 == f.md5
    requires Signs(rest, id in IdsIn(os), id in IdsIn(fs), id)
    ensures var m := StrCmp(o.name, f.name);
      Signs(Compared(RecOf(o), f) + rest,
            id in IdsIn(os) || (m <= 0 && id == FileIdOf(o)), id in IdsIn(fs) || (m >= 0 && id == FileIdOf(f)), id)
  {
    hide StrCmp, Withdraws;
    var head := Compared(RecOf(o), f);
    WithdrawsJoin(head, rest, id);
    NotWithdrawn(o, f, id);
    NotThere(os, id);
    NotThere(fs, id);
  }

  lemma {:induction false} NotThere(files: seq<File>, id: FileId)
    ensures id in IdsIn(files) ==> exists g :: g in files && g.name == id.name
  {}

  lemma {:induction false} NotWithdrawn(o: File, f: File, id: FileId)
    ensures !Withdraws(Compared(RecOf(o), f), id)
  {}

  // ---- the merge of two lists of directories

  /** Which of two lists of directories the merge goes on with. */
  datatype Lead = New | Old | Both

  function LeadOf(olds: seq<Dir>, ds: seq<Dir>): Lead
    requires olds != [] || ds != []
  {
    if olds == [] || (ds != [] && Below(ds[0].path, olds[0].path)) then New
    else if ds == [] || Below(olds[0].path, ds[0].path) then Old
    else Both
  }

  /** The rest of an index after a directory that has been copied: the read ahead cuts a short
      tail off, see `ShareDiff.Stall`. */
  function Next(olds: seq<Dir>, d: Dir): seq<Dir>
    requires olds != []
  {
    if olds[0].mtime == d.mtime && Short(FlatListing(olds[1..])) then [] else olds[1..]
  }

  ghost function DirMerge(o: Dir, d: Dir): seq<Change> {
    if o.mtime == d.mtime then [] else FileMerge(o.files, d.files)
  }

  /** The changes from the directories `olds` to the directories `ds`. */
  ghost function Merge(olds: seq<Dir>, ds: seq<Dir>): seq<Change>
    decreases |olds| + |ds|
  {
    if olds == [] && ds == [] then []
    else match LeadOf(olds, ds)
      case New => Added(ds[0].files) + Merge(olds, ds[1..])
      case Old => Dropped(FileRecs(olds[0].files)) + Merge(olds[1..], ds)
      case Both => DirMerge(olds[0], ds[0]) + Merge(Next(olds, ds[0]), ds[1..])
  }

  /** The first directory that holds the file. */
  ghost function Place(ds: seq<Dir>, id: FileId): (place: Option<nat>)
    ensures place.Some? ==> place.value < |ds| && id in IdsIn(ds[place.value].files)
  {
    if ds == [] then None
    else if id in IdsIn(ds[0].files) then Some(0)
    else match Place(ds[1..], id) case None => None case Some(i) => Some(i + 1)
  }

  /** Everything the merge relies on. */
  ghost predicate Sound(olds: seq<Dir>, ds: seq<Dir>) {
    FilesSorted(olds) && FilesSorted(ds) && Apart(olds) && Apart(ds) && Agree(olds, ds)
  }

  lemma {:induction false} NoPlace(ds: seq<Dir>, id: FileId, i: nat)
    requires Place(ds, id) == None && i < |ds|
    ensures id !in IdsIn(ds[i].files)
  {
    if i > 0 {
      NoPlace(ds[1..], id, i - 1);
    }
  }

  lemma {:induction false} RestOf(ds: seq<Dir>, id: FileId)
    requires FilesSorted(ds) && Apart(ds) && ds != []
    ensures SortedFiles(ds[0].files) && FilesSorted(ds[1..]) && Apart(ds[1..])
    ensures id in IdsIn(ds[0].files) ==> Place(ds[1..], id) == None
  {
    assert forall i :: 0 <= i < |ds[1..]| ==> ds[1..][i] == ds[i + 1];
    if Place(ds[1..], id).Some? {
      assert ds[1..][Place(ds[1..], id).value] == ds[Place(ds[1..], id).value + 1];
    }
  }

  lemma {:induction false} AgreeRest(olds: seq<Dir>, ds: seq<Dir>)
    requires Agree(olds, ds)
    ensures olds != [] ==> Agree(olds[1..], ds)
    ensures ds != [] ==> Agree(olds, ds[1..])
    ensures olds != [] && ds != [] ==> Agree(olds[1..], ds[1..]) && DirsAgree(olds[0], ds[0])
  {}

  lemma {:induction false} ShortHasNoFiles(ds: seq<Dir>, id: FileId)
    requires Len(FlatListing(ds)) < READ_AHEAD
    ensures Place(ds, id) == None
  {
    if ds != [] {
      OwnLen(ds[0]);
      LenJoin(Own(ds[0]), FlatListing(ds[1..]));
      ShortHasNoFiles(ds[1..], id);
    }
  }

  /** A file takes more than a read ahead. */
  lemma {:induction false} OwnLen(dir: Dir)
    ensures dir.files != [] ==> Len(Own(dir)) > READ_AHEAD
  {
    assert Own(dir)[1..] == FileRecs(dir.files);
  }

  lemma {:induction false} LenJoin(a: seq<Rec>, b: seq<Rec>)
    ensures Len(a + b) == Len(a) + Len(b)
  {
    if a == [] {
      assert a + b == b;
    } else {
      assert (a + b)[1..] == a[1..] + b;
      LenJoin(a[1..], b);
    }
  }

  /** What cutting a short tail off keeps: such a tail holds no file. */
  lemma {:induction false} NextIs(olds: seq<Dir>, d: Dir, id: FileId)
    requires olds != []
    ensures Place(Next(olds, d), id) == Place(olds[1..], id)
    ensures Next(olds, d) == [] || Next(olds, d) == olds[1..]
  {
    if Short(FlatListing(olds[1..])) {
      ShortHasNoFiles(olds[1..], id);
    }
  }

  // ---- what comes first

  /** The merge comes to `ds[j]` before it comes to `olds[i]`. */
  predicate Overtakes(olds: seq<Dir>, ds: seq<Dir>, i: nat, j: nat)
    requires i < |olds| && j < |ds|
    decreases |olds| + |ds|
  {
    match LeadOf(olds, ds)
    case New => j == 0 || Overtakes(olds, ds[1..], i, j - 1)
    case Old => i > 0 && Overtakes(olds[1..], ds, i - 1, j)
    case Both => i > 0 && (j == 0 || Overtakes(olds[1..], ds[1..], i - 1, j - 1))
  }

  /** The merge comes to both of them at once. */
  predicate Meets(olds: seq<Dir>, ds: seq<Dir>, i: nat, j: nat)
    requires i < |olds| && j < |ds|
    decreases |olds| + |ds|
  {
    match LeadOf(olds, ds)
    case New => j > 0 && Meets(olds, ds[1..], i, j - 1)
    case Old => i > 0 && Meets(olds[1..], ds, i - 1, j)
    case Both => if i == 0 || j == 0 then i == j else Meets(olds[1..], ds[1..], i - 1, j - 1)
  }

  /** The signs of a merge, and when it withdraws a file it has announced: `meets` and `over` say
      whether the directory of the tree is come to with, or before, the one of the index. */
  ghost predicate Settles(changes: seq<Change>, was: bool, now: bool, meets: bool, over: bool, id: FileId) {
    && (Change(Plus, id) in changes ==> now)
    && (Change(Minus, id) in changes ==> was)
    && (now && !(was && meets) ==> Change(Plus, id) in changes)
    && (was && !(now && meets) ==> Change(Minus, id) in changes)
    && (Withdraws(changes, id) <==> was && now && over)
  }

  ghost predicate SettlesAt(changes: seq<Change>, olds: seq<Dir>, ds: seq<Dir>, id: FileId) {
    var was, now := Place(olds, id), Place(ds, id);
    var both := was.Some? && now.Some?;
    Settles(changes, was.Some?, now.Some?, both && Meets(olds, ds, was.value, now.value), both && Overtakes(olds, ds, was.value, now.value), id)
  }

  lemma {:induction false} MergeSettles(olds: seq<Dir>, ds: seq<Dir>, id: FileId)
    requires Sound(olds, ds)
    ensures SettlesAt(Merge(olds, ds), olds, ds, id)
    decreases |olds| + |ds|
  {
    hide FilesSorted, Apart, Agree, Below, Added, Dropped, FileRecs, DirsAgree, DirMerge, Next, IdsIn, Withdraws, FlatListing;
    AgreeRest(olds, ds);
    if olds == [] && ds == [] {
      OneSign([], id);
    } else {
      match LeadOf(olds, ds)
      case New =>
        RestOf(ds, id);
        MergeSettles(olds, ds[1..], id);
        AddedSettles(ds[0], Merge(olds, ds[1..]), olds, ds, id);
      case Old =>
        RestOf(olds, id);
        MergeSettles(olds[1..], ds, id);
        DroppedSettles(olds[0], Merge(olds[1..], ds), olds, ds, id);
      case Both =>
        RestOf(olds, id);
        RestOf(ds, id);
        NextIs(olds, ds[0], id);
        Nothing(ds[1..]);
        MergeSettles(Next(olds, ds[0]), ds[1..], id);
        SamePath(olds[0].path, ds[0].path);
        BothSettle(olds[0], ds[0], Next(olds, ds[0]), Merge(Next(olds, ds[0]), ds[1..]), olds, ds, id);
    }
  }

  lemma {:induction false} SamePath(a: seq<byte>, b: seq<byte>)
    requires !Below(a, b) && !Below(b, a)
    ensures a == b
  {
    CmpBack(a, b);
  }

  lemma {:induction false} Nothing(ds: seq<Dir>)
    ensures FilesSorted([]) && Apart([]) && Agree([], ds)
  {}

  lemma {:induction false} NotBoth(a: seq<byte>, b: seq<byte>)
    ensures !Below(a, a) && !(Below(a, b) && Below(b, a))
  {
    CmpBack(a, b);
  }

  lemma {:induction false} AddedSettles(d: Dir, rest: seq<Change>, olds: seq<Dir>, ds: seq<Dir>, id: FileId)
    requires ds != [] && d == ds[0] && LeadOf(olds, ds) == New
    requires SettlesAt(rest, olds, ds[1..], id)
    requires id in IdsIn(d.files) ==> Place(ds[1..], id) == None
    ensures SettlesAt(Added(d.files) + rest, olds, ds, id)
  {
    hide Added, Withdraws, IdsIn, Below;
    AddedHas(d.files, Plus, id);
    AddedHas(d.files, Minus, id);
    OneSign(Added(d.files), id);
    WithdrawsJoin(Added(d.files), rest, id);
  }

  lemma {:induction false} DroppedSettles(o: Dir, rest: seq<Change>, olds: seq<Dir>, ds: seq<Dir>, id: FileId)
    requires olds != [] && o == olds[0] && LeadOf(olds, ds) == Old
    requires SettlesAt(rest, olds[1..], ds, id)
    requires id in IdsIn(o.files) ==> Place(olds[1..], id) == None
    ensures SettlesAt(Dropped(FileRecs(o.files)) + rest, olds, ds, id)
  {
    hide Dropped, FileRecs, Withdraws, IdsIn, Below;
    var head := Dropped(FileRecs(o.files));
    DroppedHas(o.files, Plus, id);
    DroppedHas(o.files, Minus, id);
    OneSign(head, id);
    WithdrawsJoin(head, rest, id);
  }

  lemma {:induction false} BothSettle(o: Dir, d: Dir, next: seq<Dir>, rest: seq<Change>, olds: seq<Dir>, ds: seq<Dir>, id: FileId)
    requires olds != [] && ds != [] && o == olds[0] && d == ds[0] && LeadOf(olds, ds) == Both
    requires o.path == d.path && DirsAgree(o, d) && SortedFiles(o.files) && SortedFiles(d.files)
    requires SettlesAt(rest, next, ds[1..], id) && (next == [] || next == olds[1..])
    requires Place(next, id) == Place(olds[1..], id)
    requires id in IdsIn(o.files) ==> Place(olds[1..], id) == None
    requires id in IdsIn(d.files) ==> Place(ds[1..], id) == None
    ensures SettlesAt(DirMerge(o, d) + rest, olds, ds, id)
  {
    hide FileMerge, Withdraws, Below, IdsIn, SortedFiles, FilesAgree;
    var head := DirMerge(o, d);
    WithdrawsJoin(head, rest, id);
    if o.mtime == d.mtime {
      OneSign([], id);
    } else {
      FileMergeSigns(o.files, d.files, id);
    }
  }

  // ---- a file that is overtaken

  /** The merge comes to the new place of the file before it comes to the old one. */
  ghost predicate Overtaken(olds: seq<Dir>, ds: seq<Dir>, id: FileId) {
    exists i, j :: 0 <= i < |olds| && 0 <= j < |ds| && Overtakes(olds, ds, i, j)
      && id in IdsIn(olds[i].files) && id in IdsIn(ds[j].files)
  }

  /** The file leaves a directory for one whose path compares below. */
  ghost predicate MovedUp(olds: seq<Dir>, ds: seq<Dir>, id: FileId) {
    exists i, j :: 0 <= i < |olds| && 0 <= j < |ds| && Below(ds[j].path, olds[i].path)
      && id in IdsIn(olds[i].files) && id in IdsIn(ds[j].files)
  }

  lemma {:induction false} OneDir(ds: seq<Dir>, id: FileId, i: nat, k: nat)
    requires Apart(ds) && i < |ds| && k < |ds| && id in IdsIn(ds[i].files) && id in IdsIn(ds[k].files)
    ensures i == k
  {}

  lemma {:induction false} PlaceOf(ds: seq<Dir>, id: FileId, i: nat)
    requires Apart(ds) && i < |ds| && id in IdsIn(ds[i].files)
    ensures Place(ds, id) == Some(i)
  {
    hide IdsIn;
    if Place(ds, id) == None {
      NoPlace(ds, id, i);
    } else {
      OneDir(ds, id, i, Place(ds, id).value);
    }
  }

  /** The merge announces a file before it withdraws it if and only if its old place is overtaken. */
  lemma {:induction false} OvertakenIsWithdrawn(olds: seq<Dir>, ds: seq<Dir>, id: FileId)
    requires Sound(olds, ds)
    ensures Withdraws(Merge(olds, ds), id) <==> Overtaken(olds, ds, id)
  {
    hide Merge, Withdraws, IdsIn, FilesSorted, Agree, Apart, Overtakes, Meets;
    MergeSettles(olds, ds, id);
    if Overtaken(olds, ds, id) {
      var i, j :| 0 <= i < |olds| && 0 <= j < |ds| && Overtakes(olds, ds, i, j)
        && id in IdsIn(olds[i].files) && id in IdsIn(ds[j].files);
      PlaceOf(olds, id, i);
      PlaceOf(ds, id, j);
    }
  }

  lemma {:induction false} SortedTail(ds: seq<Dir>)
    requires SortedDirs(ds) && ds != []
    ensures SortedDirs(ds[1..]) && forall i :: 0 < i < |ds| ==> Below(ds[0].path, ds[i].path)
  {}

  /** Where both lists are in the order of their paths, the lower path comes first. */
  lemma {:induction false} LowerOvertakes(olds: seq<Dir>, ds: seq<Dir>, i: nat, j: nat)
    requires SortedDirs(olds) && SortedDirs(ds) && i < |olds| && j < |ds|
    ensures Overtakes(olds, ds, i, j) <==> Below(ds[j].path, olds[i].path)
    decreases |olds| + |ds|
  {
    hide Below, SortedDirs;
    var o, d := olds[0].path, ds[0].path;
    SortedTail(olds);
    SortedTail(ds);
    NotBoth(olds[i].path, ds[j].path);
    NotBoth(d, d);
    match LeadOf(olds, ds)
    case New =>
      if j > 0 {
        LowerOvertakes(olds, ds[1..], i, j - 1);
      } else if i > 0 {
        BelowBelow(d, o, olds[i].path);
      }
    case Old =>
      if i > 0 {
        LowerOvertakes(olds[1..], ds, i - 1, j);
      } else if j > 0 {
        BelowBelow(o, d, ds[j].path);
      }
    case Both =>
      SamePath(o, d);
      if i > 0 && j > 0 {
        LowerOvertakes(olds[1..], ds[1..], i - 1, j - 1);
      }
  }

  /** On sorted lists a file is overtaken if and only if it has moved up. */
  lemma {:induction false} OvertakenIsMovedUp(olds: seq<Dir>, ds: seq<Dir>, id: FileId)
    requires SortedDirs(olds) && SortedDirs(ds)
    ensures Overtaken(olds, ds, id) <==> MovedUp(olds, ds, id)
  {
    hide SortedDirs, Below, Overtakes, IdsIn;
    forall i, j | 0 <= i < |olds| && 0 <= j < |ds|
      ensures Overtakes(olds, ds, i, j) <==> Below(ds[j].path, olds[i].path)
    {
      LowerOvertakes(olds, ds, i, j);
    }
  }
}
