/** The record of a download in progress: `create_file_part`, `load_file_part`, `write_filepart`
    and `get_missing_chunk` (src/client/downloader.c). */
module PartFile {
  import opened Common
  import opened Bytes
  import opened Streams
  import opened Upload

  /** What the two sides agree on before the first chunk. */
  datatype Info = Info(name: Name, md5: Md5, size: Size)

  // ---- the octets

  function Words(chunks: seq<u32>): (b: seq<byte>)
    ensures |b| == 4 * |chunks|
  {
    if chunks == [] then [] else Words(chunks[..|chunks| - 1]) + Ltob(chunks[|chunks| - 1])
  }

  function Chunks(info: Info): (n: u32) {
    ChunkNumber(info.size)
  }

  /** Everything up to the count. */
  function Prefix(info: Info): (b: seq<byte>)
    ensures |b| == |info.name| + 25
  {
    info.name + [NUL] + (info.md5 + Ltob(info.size) + Ltob(Chunks(info)))
  }

  function PartRecord(info: Info, count: u32, chunks: seq<u32>): (b: seq<byte>)
    ensures |b| == |info.name| + 29 + 4 * |chunks|
  {
    Prefix(info) + Ltob(count) + Words(chunks)
  }

  lemma {:induction false} WordsNext(chunks: seq<u32>, c: u32)
    ensures Words(chunks + [c]) == Words(chunks) + Ltob(c)
  {
    assert (chunks + [c])[..|chunks|] == chunks;
  }

  lemma {:induction false} WordAt(chunks: seq<u32>, i: nat)
    requires i < |chunks|
    ensures Words(chunks)[4 * i..4 * i + 4] == Ltob(chunks[i])
  {
    hide Ltob;
    var rest := chunks[..|chunks| - 1];
    if i < |rest| {
      WordAt(rest, i);
      assert Words(chunks)[4 * i..4 * i + 4] == Words(rest)[4 * i..4 * i + 4];
    }
  }

  /** What the uploader answers first: `create_infofile_str`. No other offer has these octets. */
  method CreateInfoStr(info: Info) returns (data: seq<byte>)
    ensures data == Prefix(info)
    ensures forall other: Info :: NUL !in info.name && NUL !in other.name && Prefix(other) == data ==> other == info
  {
    forall other: Info | NUL !in info.name && NUL !in other.name && Prefix(other) == Prefix(info)
      ensures other == info
    {
      PrefixTells(info, other);
    }
    data := info.name;
    data := data + [NUL];
    data := data + info.md5;
    data := data + Ltob(info.size);
    data := data + Ltob(ChunkNumber(info.size));
    assert data == Prefix(info);
  }

  lemma NoNulBefore(data: seq<byte>, name: Name)
    requires name <= data && NUL !in name
    ensures forall i :: 0 <= i < |name| ==> data[i] != NUL
  {
    assert forall i :: 0 <= i < |name| ==> data[i] == name[i];
  }

  lemma PrefixTells(a: Info, b: Info)
    requires NUL !in a.name && NUL !in b.name && Prefix(a) == Prefix(b)
    ensures a == b
  {
    hide Ltob;
    var data := Prefix(a);
    assert data[|a.name|] == NUL && data[|b.name|] == NUL;
    assert data[..|a.name|] == a.name && data[..|b.name|] == b.name;
    NoNulBefore(data, a.name);
    NoNulBefore(data, b.name);
    var rest := data[|a.name| + 1..];
    assert rest[..16] == a.md5 && rest[..16] == b.md5;
    assert rest[16..20] == Ltob(a.size) && rest[16..20] == Ltob(b.size);
    LongRoundTrip(a.size);
    LongRoundTrip(b.size);
  }

  /** `fill_file_info`: reads it back, and refuses another md5. */
  method FillFileInfo(data: seq<byte>, md5: Md5, ghost offer: Info) returns (ok: bool, info: Info, chunkNumber: u32)
    requires data == Prefix(offer) && NUL !in offer.name
    ensures ok <==> offer.md5 == md5
    ensures ok ==> info == offer && chunkNumber == Chunks(offer)
  {
    hide Ltob, Btol;
    var offset := 0;
    while offset < |data| && data[offset] != NUL
      invariant offset <= |offer.name|
      invariant forall i :: 0 <= i < |offer.name| ==> data[i] == offer.name[i]
    {
      offset := offset + 1;
    }
    var name := data[..offset];
    assert name == offer.name;
    offset := offset + 1;
    assert data[offset..] == offer.md5 + Ltob(offer.size) + Ltob(Chunks(offer));
    assert data[offset..offset + 16] == offer.md5;
    if data[offset..offset + 16] != md5 {
      return false, Info(name, md5, 0), 0;
    }
    offset := offset + 16;
    assert data[offset..offset + 4] == Ltob(offer.size);
    LongRoundTrip(offer.size);
    var size := Btol(data[offset..offset + 4]);
    offset := offset + 4;
    assert data[offset..offset + 4] == Ltob(Chunks(offer));
    LongRoundTrip(Chunks(offer));
    return true, Info(name, md5, size), Btol(data[offset..offset + 4]);
  }

  /** `create_file_part`. */
  method CreateFilePart(info: Info) returns (part: seq<byte>, miss: u32, my: u32)
    ensures part == PartRecord(info, 0, []) && my == 0 && miss == Chunks(info)
  {
    miss, my := ChunkNumber(info.size), 0;
    var buf := info.name;
    buf := buf + [NUL];
    buf := buf + info.md5;
    buf := buf + Ltob(info.size);
    buf := buf + Ltob(ChunkNumber(info.size));
    assert buf == Prefix(info);
    buf := buf + Ltob(my);
    part := WriteAt([], 0, buf);
    assert part == buf;
  }

  /** `write_filepart`: puts the new count in its place and the chunk at the end. */
  method WriteFilePart(part: seq<byte>, chunk: u32, my: u32, nameLen: nat, ghost info: Info, ghost count: u32, ghost chunks: seq<u32>)
    returns (r: seq<byte>)
    requires part == PartRecord(info, count, chunks) && nameLen == |info.name|
    ensures r == PartRecord(info, my, chunks + [chunk])
  {
    hide Words, Ltob, Prefix;
    WordsNext(chunks, chunk);
    var offset := nameLen + 16 + 2 * 4 + 1;
    r := WriteAt(part, offset, Ltob(my));
    assert r == Prefix(info) + Ltob(my) + Words(chunks);
    r := WriteAt(r, |r|, Ltob(chunk));
  }

  /** `load_file_part`: what was recorded must be about the same contents. */
  method LoadFilePart(part: seq<byte>, md5: Md5, size: Size, chunkNumber: u32, ghost info: Info, ghost chunks: seq<u32>)
    returns (ok: bool, name: Name, miss: int, my: u32, pos: nat)
    requires FitsString(info.name) && |chunks| < 0x1_0000_0000 && part == PartRecord(info, |chunks|, chunks)
    ensures ok <==> info.md5 == md5 && info.size == size && Chunks(info) == chunkNumber
    ensures ok ==> name == info.name && my == |chunks| && miss == chunkNumber - |chunks| && pos == |info.name| + 29
  {
    hide LineLen, Words, Ltob, Btol;
    ghost var rest := info.md5 + Ltob(info.size) + Ltob(Chunks(info)) + Ltob(|chunks|) + Words(chunks);
    assert part[0..] == info.name + [NUL] + rest;
    LineOfName(info.name, rest, NUL, 254);
    var nread, line := ReadLine(part, 0, NUL, 255);
    name := line[..|line| - 1];
    pos := |line|;
    assert line == info.name + [NUL];
    assert part[pos..] == rest;
    var buf := part[pos..pos + 28];
    assert buf == rest[..28];
    pos := pos + 28;
    ok, miss, my := false, 0, 0;
    FourFields(buf, info.md5, Ltob(info.size), Ltob(Chunks(info)), Ltob(|chunks|), Words(chunks));
    LongRoundTrip(info.size);
    LongRoundTrip(Chunks(info));
    LongRoundTrip(|chunks|);
    if buf[..16] != md5 {
      return;
    }
    if size != Btol(buf[16..20]) {
      return;
    }
    if chunkNumber != Btol(buf[20..24]) {
      return;
    }
    my := Btol(buf[24..28]);
    miss := chunkNumber - my;
    ok := true;
  }

  lemma FourFields(buf: seq<byte>, a: seq<byte>, b: seq<byte>, c: seq<byte>, d: seq<byte>, rest: seq<byte>)
    requires |a| == 16 && |b| == |c| == |d| == 4 && buf == (a + b + c + d + rest)[..28]
    ensures buf[..16] == a && buf[16..20] == b && buf[20..24] == c && buf[24..28] == d
  {}

  // ---- which chunks are missing

  /** The chunks below `n` that are not in `mine`, in increasing order. */
  ghost function Missing(n: u32, mine: set<u32>): seq<u32> {
    if n == 0 then [] else Missing(n - 1, mine) + if n - 1 in mine then [] else [n - 1]
  }

  /** Exactly the complement, and increasing. */
  lemma {:induction false} MissingIsComplement(n: u32, mine: set<u32>)
    ensures forall c: u32 :: c in Missing(n, mine) <==> c < n && c !in mine
    ensures forall i, j :: 0 <= i < j < |Missing(n, mine)| ==> Missing(n, mine)[i] < Missing(n, mine)[j]
  {
    if n > 0 {
      MissingIsComplement(n - 1, mine);
      var rest := Missing(n - 1, mine);
      assert forall i :: 0 <= i < |rest| ==> rest[i] in rest;
    }
  }

  /** As many are missing as are not owned. */
  lemma {:induction false} MissingCount(n: u32, mine: set<u32>)
    requires forall c :: c in mine ==> c < n
    ensures |Missing(n, mine)| == n - |mine|
  {
    if n > 0 {
      var less := mine - {n - 1};
      MissingCount(n - 1, less);
      SameBelow(n - 1, mine, less);
      assert n - 1 in mine ==> mine == less + {n - 1};
      assert n - 1 !in mine ==> mine == less;
    } else {
      assert mine == {};
    }
  }

  lemma {:induction false} SameBelow(n: u32, a: set<u32>, b: set<u32>)
    requires forall c :: c < n ==> (c in a <==> c in b)
    ensures Missing(n, a) == Missing(n, b)
  {
    if n > 0 {
      SameBelow(n - 1, a, b);
    }
  }

  lemma {:induction false} MissingGrows(m: u32, n: u32, mine: set<u32>)
    requires m <= n
    ensures Missing(m, mine) <= Missing(n, mine)
    decreases n
  {
    if m < n {
      MissingGrows(m, n - 1, mine);
    }
  }

  ghost function Owned(chunks: seq<u32>): (mine: set<u32>) {
    set c | c in chunks
  }

  lemma {:induction false} OwnedCount(chunks: seq<u32>)
    requires Distinct(chunks)
    ensures |Owned(chunks)| == |chunks|
  {
    if chunks != [] {
      var rest, last := chunks[..|chunks| - 1], chunks[|chunks| - 1];
      OwnedCount(rest);
      assert chunks == rest + [last];
      assert Owned(chunks) == Owned(rest) + {last};
      assert last !in rest;
    } else {
      assert Owned(chunks) == {};
    }
  }

  /** `get_missing_chunk`: the array holds exactly as many slots as there are missing chunks. */
  method GetMissingChunk(part: seq<byte>, start: nat, chunkNumber: u32, my: u32, miss: u32, ghost info: Info, ghost chunks: seq<u32>)
    returns (ok: bool, missing: array<u32>)
    requires my == |chunks| && miss == chunkNumber - my
    requires part == PartRecord(info, my, chunks) && start == |info.name| + 29
    requires Distinct(chunks) && forall c :: c in chunks ==> c < chunkNumber
    ensures fresh(missing) && ok && missing.Length == miss && missing[..] == Missing(chunkNumber, Owned(chunks))
  {
    hide Ltob, Words, Prefix, Missing, Btol;
    var myChunk := new u32[my];
    missing := new u32[miss];
    var pos := start;
    assert part[start..] == Words(chunks);
    for i := 0 to my
      invariant pos == start + 4 * i
      invariant fresh(myChunk) && myChunk[..i] == chunks[..i]
    {
      WordAt(chunks, i);
      LongRoundTrip(chunks[i]);
      assert part[pos..pos + 4] == part[start..][4 * i..4 * i + 4];
      var nread := if |part| - pos < 4 then |part| - pos else 4;
      if nread != 4 {
        return false, missing;
      }
      myChunk[i] := Btol(part[pos..pos + 4]);
      pos := pos + 4;
    }
    assert myChunk[..] == chunks;
    OwnedCount(chunks);
    MissingCount(chunkNumber, Owned(chunks));
    NoneMissing(Owned(chunks));
    var k := 0;
    for i := 0 to chunkNumber
      invariant k <= miss && missing[..k] == Missing(i, Owned(chunks))
      invariant myChunk[..] == chunks
    {
      var j := 0;
      while j < my
        invariant j <= my && forall t :: 0 <= t < j ==> chunks[t] != i
      {
        if i == myChunk[j] {
          break;
        }
        j := j + 1;
      }
      NextMissing(i, Owned(chunks));
      MissingGrows(i + 1, chunkNumber, Owned(chunks));
      if j == my {
        missing[k] := i;
        k := k + 1;
      }
    }
    ok := true;
  }

  lemma NoneMissing(mine: set<u32>)
    ensures Missing(0, mine) == []
  {}

  lemma NextMissing(i: u32, mine: set<u32>)
    requires i < 0xFFFF_FFFF
    ensures Missing(i + 1, mine) == Missing(i, mine) + if i in mine then [] else [i]
  {}
}
