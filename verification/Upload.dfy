/** Chunks and parts of a file on its way out (src/client/uploader.c). */
module Upload {
  import opened Common

  const CHUNK_SIZE := 512000

  /** `file_size` is an `int`. */
  type Size = n: int | 0 <= n < 0x8000_0000

  /** A `DATA` packet: `next` is PACKET_FLAG_NEXT_CHUNK. */
  datatype Part = Part(index: nat, next: bool, data: seq<byte>)

  function ChunkNumber(size: Size): (n: nat) {
    if size % CHUNK_SIZE != 0 then size / CHUNK_SIZE + 1 else size / CHUNK_SIZE
  }

  function Start(chunk: nat): (start: nat) {
    CHUNK_SIZE * chunk
  }

  function End(size: Size, chunk: nat): (end: nat) {
    if CHUNK_SIZE * chunk + CHUNK_SIZE < size then CHUNK_SIZE * chunk + CHUNK_SIZE else size
  }

  /** `get_file_info`: as many chunks as hold the file, and no more. */
  method GetFileInfo(fd: seq<byte>) returns (fileSize: Size, chunkNumber: nat)
    requires |fd| < 0x8000_0000
    ensures fileSize == |fd| && chunkNumber == ChunkNumber(|fd|)
    ensures fileSize <= 512000 * chunkNumber && (chunkNumber > 0 ==> 512000 * (chunkNumber - 1) < fileSize)
  {
    fileSize := |fd|;
    chunkNumber := fileSize / CHUNK_SIZE;
    if fileSize % CHUNK_SIZE != 0 {
      chunkNumber := chunkNumber + 1;
    }
  }

  predicate InChunk(size: Size, chunk: nat, o: nat) {
    Start(chunk) <= o < End(size, chunk)
  }

  /** Each octet of a file lies in exactly one chunk. */
  lemma ChunksPartition(size: Size, o: nat)
    requires o < size
    ensures exists chunk: nat :: chunk < ChunkNumber(size) && InChunk(size, chunk, o)
    ensures forall a: nat, b: nat :: InChunk(size, a, o) && InChunk(size, b, o) ==> a == b
  {
    var chunk := o / CHUNK_SIZE;
    assert chunk < ChunkNumber(size) && InChunk(size, chunk, o);
  }

  /** The chunks follow each other, none is empty, all but the last are full, and no offset
      overflows an `int`. */
  lemma ChunkBounds(size: Size, chunk: nat)
    requires chunk < ChunkNumber(size)
    ensures Start(chunk) == 512000 * chunk && End(size, chunk) <= 512000 * chunk + 512000
    ensures Start(chunk) < End(size, chunk) <= size < 0x8000_0000
    ensures if chunk + 1 < ChunkNumber(size) then End(size, chunk) == Start(chunk + 1) else End(size, chunk) == size
  {}

  /** How many parts of 1024 octets make `len` octets. */
  function PartsOf(len: nat): (n: nat)
    ensures 1024 * n >= len && (n > 0 ==> 1024 * (n - 1) < len)
  {
    if len % 1024 != 0 then len / 1024 + 1 else len / 1024
  }

  /** `get_part_number`. */
  function GetPartNumber(chunk: nat, size: Size, chunkNumber: nat): (n: nat)
    requires chunkNumber == ChunkNumber(size)
    ensures chunk < chunkNumber ==> n == PartsOf(End(size, chunk) - Start(chunk)) && n > 0
  {
    if chunk == chunkNumber - 1 then
      var n := (size - chunk * CHUNK_SIZE) / 1024;
      if (size - chunk * CHUNK_SIZE) % 1024 != 0 then n + 1 else n
    else CHUNK_SIZE / 1024
  }

  // ---- send_chunk

  ghost function DataOf(parts: seq<Part>): seq<byte> {
    if parts == [] then [] else DataOf(parts[..|parts| - 1]) + parts[|parts| - 1].data
  }

  /** The parts make up `bytes`: all but the last are full and say that another one follows. */
  ghost predicate AreParts(parts: seq<Part>, chunk: nat, bytes: seq<byte>) {
    && parts != [] && DataOf(parts) == bytes
    && (forall j :: 0 <= j < |parts| ==> parts[j].index == chunk && 0 < |parts[j].data| <= 1024)
    && (forall j :: 0 <= j < |parts| - 1 ==> parts[j].next && |parts[j].data| == 1024)
    && !parts[|parts| - 1].next
  }

  lemma {:induction false} DataNext(parts: seq<Part>, p: Part)
    ensures DataOf(parts + [p]) == DataOf(parts) + p.data
  {
    assert (parts + [p])[..|parts|] == parts;
  }

  /** The first parts of a chunk that takes `total` parts. */
  ghost predicate Sent(parts: seq<Part>, chunk: nat, total: nat, bytes: seq<byte>) {
    && |parts| <= total && DataOf(parts) == bytes
    && (forall j :: 0 <= j < |parts| ==> parts[j].index == chunk && 0 < |parts[j].data| <= 1024)
    && (forall j :: 0 <= j < |parts| ==> parts[j].next == (j < total - 1))
    && (forall j :: 0 <= j < |parts| && j < total - 1 ==> |parts[j].data| == 1024)
  }

  lemma SendNext(parts: seq<Part>, chunk: nat, total: nat, bytes: seq<byte>, data: seq<byte>)
    requires Sent(parts, chunk, total, bytes) && |parts| < total && 0 < |data| <= 1024
    requires |parts| < total - 1 ==> |data| == 1024
    ensures Sent(parts + [Part(chunk, |parts| < total - 1, data)], chunk, total, bytes + data)
  {
    hide DataOf;
    DataNext(parts, Part(chunk, |parts| < total - 1, data));
  }

  lemma AllPartsSent(parts: seq<Part>, chunk: nat, total: nat, bytes: seq<byte>)
    requires Sent(parts, chunk, total, bytes) && |parts| == total > 0
    ensures AreParts(parts, chunk, bytes)
  {}

  /** `send_chunk`: a chunk the file does not have fails before anything is sent. */
  method SendChunk(fd: seq<byte>, chunk: nat, size: Size, chunkNumber: nat) returns (ok: bool, parts: seq<Part>)
    requires size == |fd| && chunkNumber == ChunkNumber(size) && Start(chunk) < 0x8000_0000
    ensures ok == (chunk < chunkNumber)
    ensures ok ==>
      && Start(chunk) < End(size, chunk) <= |fd|
      && |parts| == GetPartNumber(chunk, size, chunkNumber)
      && AreParts(parts, chunk, fd[Start(chunk)..End(size, chunk)])
    ensures !ok ==> parts == []
  {
    hide AreParts, Sent, PartsOf, End, ChunkNumber, GetPartNumber;
    var start := chunk * CHUNK_SIZE;
    var partNumber := GetPartNumber(chunk, size, chunkNumber);
    parts := [];
    if chunk < chunkNumber {
      ChunkBounds(size, chunk);
      FullParts(size, chunk);
      NothingSent(chunk, partNumber);
      assert fd[start..start] == [];
    } else {
      NoSuchChunk(size, chunk);
    }
    ghost var end := End(size, chunk);
    var pos := start;
    for j := 0 to partNumber
      invariant |parts| == j
      invariant chunk < chunkNumber ==> start <= pos <= end && pos == if j < partNumber then start + 1024 * j else end
      invariant chunk < chunkNumber ==> Sent(parts, chunk, partNumber, fd[start..pos])
      invariant chunk >= chunkNumber ==> j == 0 && pos == start
    {
      var nread := if pos >= |fd| then 0 else if |fd| - pos < 1024 then |fd| - pos else 1024;
      if nread == 0 {
        return false, parts;
      }
      var next := j != partNumber - 1;
      if next && nread != 1024 {
        return false, parts;
      }
      SendNext(parts, chunk, partNumber, fd[start..pos], fd[pos..pos + nread]);
      assert fd[start..pos] + fd[pos..pos + nread] == fd[start..pos + nread];
      parts := parts + [Part(chunk, next, fd[pos..pos + nread])];
      pos := pos + nread;
    }
    AllPartsSent(parts, chunk, partNumber, fd[start..end]);
    ok := true;
  }

  lemma NoSuchChunk(size: Size, chunk: nat)
    requires chunk >= ChunkNumber(size)
    ensures Start(chunk) >= size && GetPartNumber(chunk, size, ChunkNumber(size)) == 500
  {}

  lemma NothingSent(chunk: nat, total: nat)
    ensures Sent([], chunk, total, [])
  {}

  /** The parts of a chunk fill it; a full chunk is a whole number of full parts. */
  lemma FullParts(size: Size, chunk: nat)
    requires chunk < ChunkNumber(size)
    ensures var n, len := GetPartNumber(chunk, size, ChunkNumber(size)), End(size, chunk) - Start(chunk);
      && 0 < n && 1024 * (n - 1) < len <= 1024 * n
      && (chunk + 1 < ChunkNumber(size) ==> len == 1024 * n)
  {}
}
