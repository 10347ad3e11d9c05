/** Resumable downloads (src/client/downloader.c): the output file, the part record beside it,
    and sessions that may break off anywhere. */
module Download {
  import opened Common
  import opened Bytes
  import opened Streams
  import opened Upload
  import opened PartFile

  // ---- what an output file holds of the source

  ghost predicate Holds(out: seq<byte>, src: seq<byte>, chunk: nat)
    requires |src| < 0x8000_0000
  {
    Start(chunk) <= End(|src|, chunk) <= |out| && out[Start(chunk)..End(|src|, chunk)] == src[Start(chunk)..End(|src|, chunk)]
  }

  ghost predicate HoldsAll(out: seq<byte>, src: seq<byte>, chunks: seq<u32>)
    requires |src| < 0x8000_0000
  {
    forall c :: c in chunks ==> Holds(out, src, c)
  }

  /** A file of the right size that holds every chunk is the source. */
  lemma {:induction false} EveryChunkHeld(out: seq<byte>, src: seq<byte>)
    requires |src| == |out| < 0x8000_0000
    requires forall c :: 0 <= c < ChunkNumber(|src|) ==> Holds(out, src, c)
    ensures out == src
  {
    forall o | 0 <= o < |src|
      ensures out[o] == src[o]
    {
      ChunksPartition(|src|, o);
      var c: nat :| c < ChunkNumber(|src|) && InChunk(|src|, c, o);
      var start, end := Start(c), End(|src|, c);
      assert Holds(out, src, c);
      assert out[start..end][o - start] == src[start..end][o - start];
    }
  }

  /** Writing into one chunk leaves the others as they are. */
  lemma OtherChunkKept(out: seq<byte>, src: seq<byte>, chunk: nat, data: seq<byte>, other: nat)
    requires |src| < 0x8000_0000 && Start(chunk) + |data| <= End(|src|, chunk)
    requires other != chunk && Holds(out, src, other)
    ensures Holds(WriteAt(out, Start(chunk), data), src, other)
  {
    hide WriteAt;
    if other < chunk {
      KeptBefore(out, Start(chunk), data, Start(other), End(|src|, other));
    } else {
      KeptAfter(out, Start(chunk), data, Start(other), End(|src|, other));
    }
  }

  lemma {:induction false} PrefixData(parts: seq<Part>, k: nat)
    requires k <= |parts|
    ensures DataOf(parts[..k]) <= DataOf(parts)
  {
    if k < |parts| {
      PrefixData(parts[..|parts| - 1], k);
      assert parts[..|parts| - 1][..k] == parts[..k];
    } else {
      assert parts[..k] == parts;
    }
  }

  lemma AllData(parts: seq<Part>)
    ensures DataOf(parts[..|parts|]) == DataOf(parts)
  {
    assert parts[..|parts|] == parts;
  }

  lemma NextData(parts: seq<Part>, j: nat)
    requires j < |parts|
    ensures DataOf(parts[..j + 1]) == DataOf(parts[..j]) + parts[j].data
  {
    assert parts[..j + 1] == parts[..j] + [parts[j]];
    DataNext(parts[..j], parts[j]);
  }

  /** `get_chunk`: writes the parts that arrive one behind the other, up to the last one. */
  method GetChunk(file: seq<byte>, chunk: nat, arrived: seq<Part>, ghost parts: seq<Part>, ghost bytes: seq<byte>) returns (ok: bool, out: seq<byte>)
    requires AreParts(parts, chunk, bytes) && arrived <= parts
    ensures ok <==> arrived == parts
    ensures out == WriteAt(file, Start(chunk), DataOf(arrived))
  {
    hide DataOf, WriteAt;
    out := file;
    var pos := chunk * CHUNK_SIZE;
    NothingArrived();
    assert arrived[..0] == [];
    NothingWrittenAt(file, pos);
    for j := 0 to |arrived|
      invariant pos == Start(chunk) + |DataOf(arrived[..j])|
      invariant out == WriteAt(file, Start(chunk), DataOf(arrived[..j]))
      invariant arrived <= parts && j < |parts|
    {
      var part := arrived[j];
      assert part == parts[j];
      if part.index != chunk {
        return false, out;
      }
      NextData(arrived, j);
      WrittenOn(file, Start(chunk), DataOf(arrived[..j]), part.data);
      out := WriteAt(out, pos, part.data);
      pos := pos + |part.data|;
      if !part.next {
        assert j == |parts| - 1;
        assert arrived[..j + 1] == arrived == parts;
        return true, out;
      }
    }
    assert arrived[..|arrived|] == arrived;
    ok := false;
  }

  lemma NothingWrittenAt(file: seq<byte>, offset: nat)
    ensures WriteAt(file, offset, []) == file
  {}

  lemma NothingArrived()
    ensures DataOf([]) == []
  {}

  // ---- one more chunk, or part of one

  /** Everything a session relies on: the record is right about what the output file holds. */
  ghost predicate Sound(out: seq<byte>, src: seq<byte>, chunks: seq<u32>, room: nat)
    requires |src| < 0x8000_0000
  {
    && Distinct(chunks) && (forall c :: c in chunks ==> c < ChunkNumber(|src|))
    && HoldsAll(out, src, chunks)
    && room <= |out| <= (if room < |src| then |src| else room)
  }

  /** However little of a chunk arrives, what is recorded stays right. */
  lemma PartialChunk(out: seq<byte>, src: seq<byte>, chunks: seq<u32>, room: nat, chunk: u32, parts: seq<Part>, k: nat)
    requires |src| < 0x8000_0000 && Sound(out, src, chunks, room)
    requires chunk < ChunkNumber(|src|) && chunk !in chunks && k <= |parts|
    requires Start(chunk) <= End(|src|, chunk) && AreParts(parts, chunk, src[Start(chunk)..End(|src|, chunk)])
    ensures Sound(WriteAt(out, Start(chunk), DataOf(parts[..k])), src, chunks, room)
  {
    hide WriteAt, DataOf, Holds, Start, End;
    var data := DataOf(parts[..k]);
    PrefixData(parts, k);
    ChunkBounds(|src|, chunk);
    forall c | c in chunks
      ensures Holds(WriteAt(out, Start(chunk), data), src, c)
    {
      OtherChunkKept(out, src, chunk, data, c);
    }
    if data == [] {
      NothingWrittenAt(out, Start(chunk));
    } else {
      WrittenAt(out, Start(chunk), data);
    }
  }

  /** A whole chunk may be recorded. */
  lemma WholeChunk(out: seq<byte>, src: seq<byte>, chunks: seq<u32>, room: nat, chunk: u32, parts: seq<Part>)
    requires |src| < 0x8000_0000 && Sound(out, src, chunks, room)
    requires chunk < ChunkNumber(|src|) && chunk !in chunks
    requires Start(chunk) <= End(|src|, chunk) && AreParts(parts, chunk, src[Start(chunk)..End(|src|, chunk)])
    ensures Sound(WriteAt(out, Start(chunk), DataOf(parts)), src, chunks + [chunk], room)
  {
    hide WriteAt, DataOf, Start, End;
    PartialChunk(out, src, chunks, room, chunk, parts, |parts|);
    AllData(parts);
    ChunkBounds(|src|, chunk);
    WrittenAt(out, Start(chunk), DataOf(parts));
    assert Holds(WriteAt(out, Start(chunk), DataOf(parts)), src, chunk);
  }

  /** With every chunk recorded, the size alone tells whether the output is the source. */
  lemma Complete(out: seq<byte>, src: seq<byte>, chunks: seq<u32>, room: nat)
    requires |src| < 0x8000_0000 && Sound(out, src, chunks, room)
    requires forall c: u32 :: c < ChunkNumber(|src|) ==> c in chunks
    ensures |out| == |src| <==> room <= |src|
    ensures |out| == |src| ==> out == src
  {
    if |out| == |src| {
      forall c | 0 <= c < ChunkNumber(|src|)
        ensures Holds(out, src, c)
      {
        var w: u32 := c;
        assert w in chunks;
      }
      EveryChunkHeld(out, src);
    }
    var n := ChunkNumber(|src|);
    if n > 0 {
      ChunkBounds(|src|, n - 1);
      var w: u32 := n - 1;
      assert w in chunks;
      assert Holds(out, src, n - 1);
    }
  }

  /** A file of two octets is in the way of a source of one: the only chunk is there, and the
      download never completes. */
  lemma OldFileIsTooLong(octet: byte)
    ensures Sound([octet, 0], [octet], [0], 2) && |[octet, 0]| != |[octet]|
  {
    var out, src: seq<byte> := [octet, 0], [octet];
    assert Start(0) == 0 && End(1, 0) == 1 && ChunkNumber(1) == 1;
    assert out[0..1] == src[0..1];
    assert Holds(out, src, 0);
  }

  // ---- what a session writes

  ghost function ChunkOf(src: seq<byte>, chunk: nat): seq<byte>
    requires |src| < 0x8000_0000
  {
    if chunk < ChunkNumber(|src|) then src[Start(chunk)..End(|src|, chunk)] else []
  }

  /** The output file once these chunks are written, each at its place. */
  ghost function Filled(out: seq<byte>, src: seq<byte>, chunks: seq<u32>): seq<byte>
    requires |src| < 0x8000_0000
  {
    if chunks == [] then out
    else
      var c := chunks[|chunks| - 1];
      WriteAt(Filled(out, src, chunks[..|chunks| - 1]), Start(c), ChunkOf(src, c))
  }

  /** And once the first `arrive` parts of 1024 octets of a further chunk are. */
  ghost function Begun(out: seq<byte>, src: seq<byte>, chunk: u32, arrive: nat): seq<byte>
    requires |src| < 0x8000_0000
  {
    var bytes := ChunkOf(src, chunk);
    WriteAt(out, Start(chunk), bytes[..if 1024 * arrive < |bytes| then 1024 * arrive else |bytes|])
  }

  /** What a session leaves that is broken off at the chunk number `cut` of those missing. */
  ghost function Leaves(out: seq<byte>, src: seq<byte>, missing: seq<u32>, cut: nat, arrive: nat): seq<byte>
    requires |src| < 0x8000_0000
  {
    if cut < |missing| then Begun(Filled(out, src, missing[..cut]), src, missing[cut], arrive) else Filled(out, src, missing)
  }

  lemma {:induction false} FilledNext(out: seq<byte>, src: seq<byte>, chunks: seq<u32>, i: nat)
    requires |src| < 0x8000_0000 && i < |chunks|
    ensures Filled(out, src, chunks[..i + 1]) == WriteAt(Filled(out, src, chunks[..i]), Start(chunks[i]), ChunkOf(src, chunks[i]))
  {
    assert chunks[..i + 1][..i] == chunks[..i];
  }

  lemma {:induction false} LeavesCut(out: seq<byte>, src: seq<byte>, missing: seq<u32>, cut: nat, arrive: nat)
    requires |src| < 0x8000_0000 && cut < |missing|
    ensures Leaves(out, src, missing, cut, arrive) == Begun(Filled(out, src, missing[..cut]), src, missing[cut], arrive)
  {}

  lemma {:induction false} LeavesAll(out: seq<byte>, src: seq<byte>, missing: seq<u32>, cut: nat, arrive: nat)
    requires |src| < 0x8000_0000
    ensures cut >= |missing| ==> Leaves(out, src, missing, cut, arrive) == Filled(out, src, missing)
  {}

  lemma {:induction false} FullData(parts: seq<Part>)
    requires forall j :: 0 <= j < |parts| ==> |parts[j].data| == 1024
    ensures |DataOf(parts)| == 1024 * |parts|
  {
    if parts != [] {
      FullData(parts[..|parts| - 1]);
    }
  }

  /** The first parts of a chunk hold so many of its octets. */
  lemma {:induction false} FirstParts(parts: seq<Part>, chunk: nat, bytes: seq<byte>, arrive: nat)
    requires AreParts(parts, chunk, bytes)
    ensures var k := if arrive < |parts| then arrive else |parts|;
      DataOf(parts[..k]) == bytes[..if 1024 * arrive < |bytes| then 1024 * arrive else |bytes|]
  {
    var n := |parts| - 1;
    PrefixData(parts, n);
    FullData(parts[..n]);
    assert parts[..n][..n] == parts[..n];
    NextData(parts, n);
    AllData(parts);
    if arrive < |parts| {
      PrefixData(parts, arrive);
      FullData(parts[..arrive]);
    }
  }

  lemma {:induction false} BegunIs(out: seq<byte>, src: seq<byte>, chunk: u32, parts: seq<Part>, arrive: nat)
    requires |src| < 0x8000_0000 && chunk < ChunkNumber(|src|)
    requires Start(chunk) <= End(|src|, chunk) && AreParts(parts, chunk, src[Start(chunk)..End(|src|, chunk)])
    ensures Begun(out, src, chunk, arrive) == WriteAt(out, Start(chunk), DataOf(parts[..if arrive < |parts| then arrive else |parts|]))
  {
    hide AreParts, DataOf, WriteAt;
    FirstParts(parts, chunk, src[Start(chunk)..End(|src|, chunk)], arrive);
  }

  lemma {:induction false} PartsAreChunk(parts: seq<Part>, chunk: nat, src: seq<byte>)
    requires |src| < 0x8000_0000 && chunk < ChunkNumber(|src|) && Start(chunk) <= End(|src|, chunk)
    requires AreParts(parts, chunk, src[Start(chunk)..End(|src|, chunk)])
    ensures DataOf(parts) == ChunkOf(src, chunk)
  {}

  lemma {:induction false} NothingFilled(out: seq<byte>, src: seq<byte>, chunks: seq<u32>)
    requires |src| < 0x8000_0000
    ensures Filled(out, src, chunks[..0]) == out
  {}

  // ---- sessions

  /** What one download keeps on disk: the output file and, while it lasts, the part record. */
  class Files {
    const md5: Md5
    var out: seq<byte>
    var part: Option<seq<byte>>
    /** The chunks recorded, and how long the output file was when the download began. */
    ghost var chunks: seq<u32>
    ghost var room: nat

    /** `src` is what everybody serves under this md5. */
    ghost predicate Valid(info: Info, src: seq<byte>)
      requires |src| < 0x8000_0000
      reads this
    {
      && info.size == |src| && info.md5 == md5 && FitsString(info.name)
      && Sound(out, src, chunks, room) && |chunks| < 0x1_0000_0000
      && (part == if part.None? then None else Some(PartRecord(info, |chunks|, chunks)))
      && (part.None? ==> chunks == [] && room == |out|)
    }

    constructor (md5: Md5, out: seq<byte>, ghost info: Info, ghost src: seq<byte>)
      requires info.size == |src| < 0x8000_0000 && info.md5 == md5 && FitsString(info.name)
      ensures Valid(info, src) && this.out == out && part == None
    {
      this.md5, this.out, part, chunks, room := md5, out, None, [], |out|;
    }

    /** `open_file_part`: a record about other contents fails the session. */
    method OpenFilePart(offer: Info, ghost info: Info, ghost src: seq<byte>) returns (ok: bool, name: Name, my: u32, miss: u32, pos: nat)
      requires |src| < 0x8000_0000 && Valid(info, src) && offer.md5 == md5
      requires part.None? ==> offer == info
      modifies `part
      ensures Valid(info, src) && (ok <==> offer.size == info.size)
      ensures ok ==> part.Some? && name == info.name && my == |chunks| && miss == Chunks(info) - my && pos == |info.name| + 29
      ensures !ok ==> part == old(part)
    {
      hide Words, Sound, ChunkNumber;
      FewChunks(out, src, chunks, room);
      if part.None? {
        var bytes;
        bytes, miss, my := CreateFilePart(offer);
        part := Some(bytes);
        ok, name, pos := true, offer.name, |offer.name| + 29;
      } else {
        var m;
        ok, name, m, my, pos := LoadFilePart(part.value, md5, offer.size, Chunks(offer), info, chunks);
        miss := if ok then m else 0;
      }
    }

    /** `downloader_func` and `download`: asks for the missing chunks in turn. When it gets to
        number `cut` of them, the connection or the process ends after `arrive` of its parts. */
    method Session(answer: seq<byte>, fd: seq<byte>, cut: nat, arrive: nat, ghost info: Info, ghost offer: Info) returns (completed: bool)
      requires |fd| < 0x8000_0000 && Valid(info, fd)
      requires answer == Prefix(offer) && FitsString(offer.name)
      requires part.None? ==> offer == info
      modifies this
      ensures Valid(info, fd)
      ensures if completed then out == fd && part == None else room == old(room)
      ensures !completed && (offer.md5 != md5 || offer.size != info.size) ==> out == old(out) && part == old(part) && chunks == old(chunks)
      ensures offer.md5 == md5 && offer.size == info.size ==>
        var missing := Missing(Chunks(info), Owned(old(chunks)));
        && (completed <==> cut >= |missing| && old(room) <= |fd|)
        && (!completed ==> chunks == old(chunks) + missing[..if cut < |missing| then cut else |missing|])
        && out == Leaves(old(out), fd, missing, cut, arrive)
    {
      hide Words, Sound, ChunkNumber, Missing, AreParts, WriteAt, DataOf, Holds, Start, End, PartRecord, Prefix, Filled, Begun, ChunkOf, Leaves;
      completed := false;
      var known, fileInfo, chunkNumber := FillFileInfo(answer, md5, offer);
      if !known {
        return;
      }
      ghost var chunks0, room0, out0 := chunks, room, out;
      FewChunks(out, fd, chunks, room);
      var ok, name, my, miss, pos := OpenFilePart(fileInfo, info, fd);
      if !ok {
        return;
      }
      var got, missing := GetMissingChunk(part.value, pos, chunkNumber, my, miss, info, chunks);
      MissingIsComplement(chunkNumber, Owned(chunks0));
      ghost var want := Missing(chunkNumber, Owned(chunks0));
      NothingFilled(out, fd, want);
      for i := 0 to miss
        invariant missing[..] == want && my == |chunks| && i <= cut
        invariant Valid(info, fd) && part.Some? && room == room0
        invariant chunks == chunks0 + want[..i]
        invariant out == Filled(out0, fd, want[..i])
      {
        var chunk := missing[i];
        NotYet(chunks0, want, i, chunkNumber);
        ChunkBounds(|fd|, chunk);
        var sent, parts := SendChunk(fd, chunk, |fd|, chunkNumber);
        if i == cut {
          var k := if arrive < |parts| then arrive else |parts|;
          var _, written := GetChunk(out, chunk, parts[..k], parts, fd[Start(chunk)..End(|fd|, chunk)]);
          PartialChunk(out, fd, chunks, room, chunk, parts, k);
          BegunIs(out, fd, chunk, parts, arrive);
          LeavesCut(out0, fd, want, cut, arrive);
          out := written;
          return;
        }
        var done, written := GetChunk(out, chunk, parts, parts, fd[Start(chunk)..End(|fd|, chunk)]);
        WholeChunk(out, fd, chunks, room, chunk, parts);
        FilledNext(out0, fd, want, i);
        PartsAreChunk(parts, chunk, fd);
        out := written;
        my := my + 1;
        var record := WriteFilePart(part.value, chunk, my, |name|, info, |chunks|, chunks);
        part := Some(record);
        chunks := chunks + [chunk];
        FewChunks(out, fd, chunks, room);
        assert want[..i + 1] == want[..i] + [chunk];
      }
      assert want[..|want|] == want;
      LeavesAll(out0, fd, want, cut, arrive);
      AllRecorded(chunks0, want, chunkNumber);
      Complete(out, fd, chunks, room);
      if |out| == fileInfo.size && my == chunkNumber {
        part, chunks, room := None, [], |out|;
        NothingRecorded(out, fd);
        completed := true;
      }
    }
  }

  /** Any number of sessions, each broken off wherever it may be. */
  method Resume(files: Files, answer: seq<byte>, fd: seq<byte>, breaks: seq<(nat, nat)>, ghost info: Info) returns (completed: bool)
    requires |fd| < 0x8000_0000 && files.Valid(info, fd) && answer == Prefix(info)
    modifies files
    ensures files.Valid(info, fd)
    ensures completed ==> files.out == fd && files.part == None
    ensures old(files.room) <= |fd| && (exists i :: 0 <= i < |breaks| && breaks[i].0 >= Chunks(info)) ==> completed
  {
    hide Leaves, Missing, Sound, PartRecord, Prefix, ChunkNumber, WriteAt, Words;
    completed := false;
    for i := 0 to |breaks|
      invariant files.Valid(info, fd) && files.room == old(files.room)
      invariant files.room <= |fd| ==> forall j :: 0 <= j < i ==> breaks[j].0 < Chunks(info)
    {
      ghost var mine := Owned(files.chunks);
      FewMissing(Chunks(info), mine);
      completed := files.Session(answer, fd, breaks[i].0, breaks[i].1, info, info);
      if completed {
        return;
      }
    }
  }

  lemma {:induction false} FewMissing(n: u32, mine: set<u32>)
    ensures |Missing(n, mine)| <= n
  {
    if n > 0 {
      FewMissing(n - 1, mine);
    }
  }

  lemma FewChunks(out: seq<byte>, src: seq<byte>, chunks: seq<u32>, room: nat)
    requires |src| < 0x8000_0000 && Sound(out, src, chunks, room)
    ensures |chunks| <= ChunkNumber(|src|) < 0x1_0000_0000
    ensures Distinct(chunks) && forall c :: c in chunks ==> c < ChunkNumber(|src|)
  {
    OwnedCount(chunks);
    MissingCount(ChunkNumber(|src|), Owned(chunks));
  }

  lemma NothingRecorded(out: seq<byte>, src: seq<byte>)
    requires |src| == |out| < 0x8000_0000
    ensures Sound(out, src, [], |out|)
  {}

  /** The next missing chunk has not been recorded in this session either. */
  lemma NotYet(chunks: seq<u32>, want: seq<u32>, i: nat, n: u32)
    requires i < |want| && want == Missing(n, Owned(chunks))
    ensures want[i] < n && want[i] !in chunks + want[..i]
  {
    hide Missing;
    MissingIsComplement(n, Owned(chunks));
    assert want[i] in want;
  }

  lemma AllRecorded(chunks: seq<u32>, want: seq<u32>, n: u32)
    requires want == Missing(n, Owned(chunks))
    ensures forall c: u32 :: c < n ==> c in chunks + want
  {
    hide Missing;
    MissingIsComplement(n, Owned(chunks));
  }
}
