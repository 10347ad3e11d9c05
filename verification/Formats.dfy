/** The formats of packets, records and files, octet by octet: which field stands where, and how its
    octets make up its value. */
module Formats {
  import opened Common
  import opened Bytes
  import opened ShareDiff
  import opened ShareFile
  import opened Shipping
  import opened PartFile
  import Paging
  import Framing

  /** The number that two or four octets stand for, the lowest first. */
  function Value(b: seq<byte>): (n: int) {
    if b == [] then 0 else b[0] as int + 0x100 * Value(b[1..])
  }

  lemma {:induction false} LongIs(x: u32)
    ensures |Ltob(x)| == 4 && Value(Ltob(x)) == x
  {
    var b := Ltob(x);
    var y, z := x / 256, x / 256 / 256;
    assert b[1..][1..][1..] == [b[3]] && b[1..][1..] == [b[2], b[3]] && b[1..] == [b[1], b[2], b[3]];
    assert Value([b[3]]) == b[3] as int + 0x100 * Value([b[3]][1..]) && [b[3]][1..] == [];
    assert Value([b[2], b[3]]) == b[2] as int + 0x100 * Value([b[3]]) == z;
    assert Value(b[1..]) == b[1] as int + 0x100 * z == y;
  }

  lemma {:induction false} ShortIs(x: u16)
    ensures |Stob(x)| == 2 && Value(Stob(x)) == x
  {
    var b := Stob(x);
    assert b[1..] == [b[1]] && b[1..][1..] == [];
    assert Value(b[1..]) == b[1] as int + 0x100 * Value([]);
  }

  /** An address: four octets of the ip, two of the port. */
  lemma {:induction false} AddressIs(a: Addr)
    ensures |Addr2Str(a)| == 6 && Value(Addr2Str(a)[..4]) == a.ip && Value(Addr2Str(a)[4..]) == a.port
  {
    hide Ltob, Stob, Value;
    LongIs(a.ip);
    ShortIs(a.port);
    assert Addr2Str(a)[..4] == Ltob(a.ip) && Addr2Str(a)[4..] == Stob(a.port);
  }

  /** A packet: three octets of the command, the flag, then index, ttl and length in two octets each,
      and the data. A negative ttl stands as what it is modulo 2^16. */
  lemma {:induction false} PacketIs(p: Framing.Packet)
    requires Framing.GoodPacket(p)
    ensures var b := Framing.Octets(p);
      && |b| == 10 + |p.data|
      && b[..3] == p.cmd && b[3] == p.flag && Value(b[4..6]) == p.index
      && Value(b[6..8]) == (if p.ttl < 0 then p.ttl + 0x1_0000 else p.ttl)
      && Value(b[8..10]) == |p.data| && b[10..] == p.data
  {
    hide Stob, Value;
    var b := Framing.Octets(p);
    ShortIs(p.index);
    ShortIs(Framing.ToUnsigned(p.ttl));
    ShortIs(|p.data|);
    assert b[4..6] == Stob(p.index) && b[6..8] == Stob(Framing.ToUnsigned(p.ttl)) && b[8..10] == Stob(|p.data|);
  }

  /** A record of the diff: "+" or "-", the md5, the name, a newline. */
  lemma {:induction false} ChangeIs(c: Change)
    ensures var b := Packed(c);
      && |b| == 18 + |c.id.name| && b[0] == (if c.sign == Plus then 43 else 45)
      && b[1..17] == c.id.md5 && b[17..|b| - 1] == c.id.name && b[|b| - 1] == 10
  {}

  /** A record of the share index: "#", the time, the path, a newline; or "%", the time, the md5, the
      name, a newline. */
  lemma {:induction false} RecordIs(r: Rec)
    ensures var b := RecOctets(r);
      match r
      case DirRec(mtime, path) =>
        |b| == 6 + |path| && b[0] == 35 && Value(b[1..5]) == mtime && b[5..|b| - 1] == path && b[|b| - 1] == 10
      case FileRec(mtime, md5, name) =>
        |b| == 22 + |name| && b[0] == 37 && Value(b[1..5]) == mtime && b[5..21] == md5 && b[21..|b| - 1] == name && b[|b| - 1] == 10
  {
    hide Ltob, Value;
    var b := RecOctets(r);
    LongIs(r.mtime);
    assert b[1..5] == Ltob(r.mtime);
  }

  /** An entry of a reply: the address, then the md5 in a reply by name, or the name and a newline in
      one by md5. */
  lemma {:induction false} EntryIs(kind: Paging.Kind, r: Record)
    ensures var b := Paging.Entry(kind, r);
      && Value(b[..4]) == r.ip && Value(b[4..6]) == r.port
      && match kind
         case ByName => |b| == 22 && b[6..] == r.md5
         case ByMd5 => |b| == 7 + |r.name| && b[6..|b| - 1] == r.name && b[|b| - 1] == 10
  {
    hide Addr2Str, Value;
    var b, a := Paging.Entry(kind, r), Addr2Str(Addr(r.ip, r.port));
    AddressIs(Addr(r.ip, r.port));
    assert b[..4] == a[..4] && b[4..6] == a[4..];
  }

  /** The record of a download: the name, a 0, the md5, then the size, the number of chunks and how
      many of them are here in four octets each, and four octets for each of these. */
  lemma {:induction false} PartIs(info: Info, count: u32, chunks: seq<u32>)
    ensures var b, n := PartRecord(info, count, chunks), |info.name|;
      && |b| == n + 29 + 4 * |chunks|
      && b[..n] == info.name && b[n] == 0 && b[n + 1..n + 17] == info.md5
      && Value(b[n + 17..n + 21]) == info.size && Value(b[n + 21..n + 25]) == Chunks(info) && Value(b[n + 25..n + 29]) == count
      && b[n + 29..] == Words(chunks)
  {
    hide Ltob, Value, Words;
    var b, n := PartRecord(info, count, chunks), |info.name|;
    LongIs(info.size);
    LongIs(Chunks(info));
    LongIs(count);
    PartFields(b, info.name, info.md5, Ltob(info.size), Ltob(Chunks(info)), Ltob(count), Words(chunks));
  }

  lemma {:induction false} PartFields(b: seq<byte>, name: Name, md5: Md5, size: seq<byte>, number: seq<byte>, count: seq<byte>, words: seq<byte>)
    requires |size| == |number| == |count| == 4 && b == name + [NUL] + (md5 + size + number) + count + words
    ensures var n := |name|;
      && b[..n] == name && b[n] == 0 && b[n + 1..n + 17] == md5 && b[n + 17..n + 21] == size
      && b[n + 21..n + 25] == number && b[n + 25..n + 29] == count && b[n + 29..] == words
  {}

  lemma {:induction false} WordIs(chunks: seq<u32>, i: nat)
    requires i < |chunks|
    ensures |Words(chunks)| == 4 * |chunks| && Value(Words(chunks)[4 * i..4 * i + 4]) == chunks[i]
  {
    hide Ltob, Value;
    LongIs(chunks[i]);
    WordAt(chunks, i);
  }
}
