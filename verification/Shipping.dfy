/** How a peer packs its differences into packets: `send_share` (src/client/client.c) on top of
    `readline` (src/common/ioutil.c). */
module Shipping {
  import opened Common
  import opened ShareDiff
  import opened Streams

  /** What a packet has room for behind the two octets of the port. */
  const ROOM := 1022

  const PLUS: byte := 43
  const MINUS: byte := 45

  // ---- a record as octets

  predicate AllSendable(changes: seq<Change>) {
    forall c :: c in changes ==> FitsLine(c.id.name)
  }

  function Tag(sign: Sign): byte {
    if sign == Plus then PLUS else MINUS
  }

  /** `write_diff`. */
  function Packed(c: Change): (b: seq<byte>)
    ensures |b| == 18 + |c.id.name|
  {
    [Tag(c.sign)] + c.id.md5 + (c.id.name + [NEWLINE])
  }

  function PackedAll(changes: seq<Change>): seq<byte> {
    if changes == [] then [] else Packed(changes[0]) + PackedAll(changes[1..])
  }

  lemma {:induction false} PackedNext(changes: seq<Change>, i: nat, j: nat)
    requires i <= j < |changes|
    ensures PackedAll(changes[i..j + 1]) == PackedAll(changes[i..j]) + Packed(changes[j])
    decreases j - i
  {
    if i == j {
      assert changes[i..j + 1] == [changes[j]] && changes[i..j] == [];
      assert PackedAll([changes[j]]) == Packed(changes[j]) + PackedAll([]);
    } else {
      assert changes[i..j + 1][1..] == changes[i + 1..j + 1] && changes[i..j][1..] == changes[i + 1..j];
      PackedNext(changes, i + 1, j);
    }
  }

  /** What the octets after the first `k` records begin with. */
  lemma {:induction false} PackedRest(changes: seq<Change>, k: nat)
    requires k <= |changes|
    ensures PackedAll(changes) == PackedAll(changes[..k]) + PackedAll(changes[k..])
  {
    hide Packed, PackedAll;
    if k == 0 {
      assert changes[..0] == [] && changes[0..] == changes;
      NothingPacked();
    } else {
      PackedRest(changes[1..], k - 1);
      TailParts(changes, k);
      PackedFirst(changes);
      PackedFirst(changes[..k]);
      Regroup(Packed(changes[0]), PackedAll(changes[..k][1..]), PackedAll(changes[k..]));
    }
  }

  lemma TailParts(changes: seq<Change>, k: nat)
    requires 0 < k <= |changes|
    ensures changes[1..][..k - 1] == changes[..k][1..] && changes[1..][k - 1..] == changes[k..]
    ensures changes[..k][0] == changes[0]
  {}

  lemma PackedFirst(changes: seq<Change>)
    requires changes != []
    ensures PackedAll(changes) == Packed(changes[0]) + PackedAll(changes[1..])
  {}

  /** Where the record number `k` lies in the file. */
  lemma {:induction false} RecordAt(changes: seq<Change>, k: nat)
    requires k < |changes|
    ensures var p, c := |PackedAll(changes[..k])|, changes[k];
      && p + |Packed(c)| <= |PackedAll(changes)|
      && PackedAll(changes)[p..p + |Packed(c)|] == Packed(c)
      && |PackedAll(changes[..k + 1])| == p + |Packed(c)|
  {
    hide Packed;
    PackedRest(changes, k);
    PackedNext(changes, 0, k);
    assert changes[0..k] == changes[..k] && changes[0..k + 1] == changes[..k + 1];
    assert PackedAll(changes[k..]) == Packed(changes[k]) + PackedAll(changes[k..][1..]);
  }

  // ---- send_share

  /** The packets are the groups, in order: whole records, within what a packet has room for,
      and none that had room for the record after it. */
  ghost predicate Ships(packets: seq<seq<byte>>, groups: seq<seq<Change>>) {
    && |packets| == |groups|
    && (forall i :: 0 <= i < |packets| ==> packets[i] == PackedAll(groups[i]) && 0 < |packets[i]| < ROOM && groups[i] != [])
    && (forall i :: 0 < i < |packets| ==> |packets[i - 1]| + |Packed(groups[i][0])| >= ROOM)
  }

  /** The cursor of `send_share`: `sent` records are in packets, those up to `k` in `tmp`. */
  ghost predicate Packing(changes: seq<Change>, pos: nat, tmp: seq<byte>, packets: seq<seq<byte>>, groups: seq<seq<Change>>, sent: nat, k: nat) {
    && sent <= k <= |changes|
    && pos == |PackedAll(changes[..k])|
    && tmp == PackedAll(changes[sent..k]) && |tmp| < ROOM
    && Ships(packets, groups) && Flat(groups) == changes[..sent]
    && (packets != [] && sent < |changes| ==> |packets[|packets| - 1]| + |Packed(changes[sent])| >= ROOM)
  }

  lemma FlushStep(changes: seq<Change>, pos: nat, tmp: seq<byte>, packets: seq<seq<byte>>, groups: seq<seq<Change>>, sent: nat, k: nat)
    requires Packing(changes, pos, tmp, packets, groups, sent, k) && tmp != []
    requires k < |changes| ==> |tmp| + |Packed(changes[k])| >= ROOM
    ensures Packing(changes, pos, [], packets + [tmp], groups + [changes[sent..k]], k, k)
  {
    hide PackedAll, Packed, Ships, Flat;
    NothingPacked();
    FlatNext(groups, changes[sent..k]);
    assert changes[..k] == changes[..sent] + changes[sent..k];
    assert changes[k..k] == [];
    ShipsNext(packets, groups, tmp, changes[sent..k]);
  }

  lemma ShipsNext(packets: seq<seq<byte>>, groups: seq<seq<Change>>, packet: seq<byte>, group: seq<Change>)
    requires Ships(packets, groups) && packet == PackedAll(group) && 0 < |packet| < ROOM && group != []
    requires packets != [] ==> |packets[|packets| - 1]| + |Packed(group[0])| >= ROOM
    ensures Ships(packets + [packet], groups + [group])
  {
    hide PackedAll, Packed;
  }

  lemma NothingPacked()
    ensures PackedAll([]) == []
  {}

  lemma AppendStep(changes: seq<Change>, pos: nat, tmp: seq<byte>, packets: seq<seq<byte>>, groups: seq<seq<Change>>, sent: nat, k: nat)
    requires Packing(changes, pos, tmp, packets, groups, sent, k) && k < |changes| && |tmp| + |Packed(changes[k])| < ROOM
    ensures Packing(changes, pos + |Packed(changes[k])|, tmp + Packed(changes[k]), packets, groups, sent, k + 1)
  {
    hide PackedAll, Packed, Ships, Flat;
    PackedNext(changes, sent, k);
    PackedNext(changes, 0, k);
    assert changes[0..k] == changes[..k] && changes[0..k + 1] == changes[..k + 1];
  }

  /** What the two reads of a record return. */
  lemma RecordReads(changes: seq<Change>, k: nat)
    requires AllSendable(changes) && k < |changes|
    ensures var fd, p, c := PackedAll(changes), |PackedAll(changes[..k])|, changes[k];
      && p + 17 <= |fd| && |Packed(c)| <= 271
      && LineLen(fd[p + 17..], NEWLINE, 254) == |c.id.name| + 1
      && p + 17 + |c.id.name| + 1 <= |fd|
      && fd[p..p + 17] + fd[p + 17..p + 17 + |c.id.name| + 1] == Packed(c)
      && fd[p + 17..p + 17 + |c.id.name| + 1] == c.id.name + [NEWLINE]
  {
    hide PackedAll;
    RecordAt(changes, k);
    var fd, p, c := PackedAll(changes), |PackedAll(changes[..k])|, changes[k];
    assert c in changes;
    var b, n := Packed(c), |c.id.name| + 1;
    assert fd[p + 17..p + 17 + n] == b[17..] by {
      assert fd[p..p + 17 + n][17..] == fd[p + 17..p + 17 + n];
    }
    assert b[17..] == c.id.name + [NEWLINE];
    assert fd[p + 17..] == c.id.name + [NEWLINE] + fd[p + 17 + n..];
    LineOfName(c.id.name, fd[p + 17 + n..], NEWLINE, 254);
    assert fd[p..p + 17] + fd[p + 17..p + 17 + n] == fd[p..p + 17 + n];
  }

  /** `send_share`: reads a record, goes back over it if it does not fit, and sends what it has. */
  method SendShare(fd: seq<byte>, ghost changes: seq<Change>) returns (ok: bool, packets: seq<seq<byte>>, ghost groups: seq<seq<Change>>)
    requires AllSendable(changes) && fd == PackedAll(changes)
    ensures ok && Ships(packets, groups) && Flat(groups) == changes
    ensures forall i :: 0 <= i < |packets| ==> 0 < |packets[i]| && 2 + |packets[i]| <= MAX_PACKET_DATA_LEN
    ensures forall i :: 0 < i < |packets| ==> groups[i] != [] && 2 + |packets[i - 1]| + (1 + 16 + |groups[i][0].id.name| + 1) >= MAX_PACKET_DATA_LEN
  {
    hide PackedAll, Packed, Packing, Ships, Flat, LineLen;
    packets, groups := [], [];
    var pos: nat, tmp: seq<byte> := 0, [];
    ghost var sent, k := 0, 0;
    PackingStarts(changes);
    while true
      invariant pos <= |fd| && sent <= k <= |changes|
      invariant Packing(changes, pos, tmp, packets, groups, sent, k)
      decreases |changes| - k, |tmp|
    {
      PackingFacts(changes, pos, tmp, packets, groups, sent, k);
      var n := if |fd| - pos < 17 then |fd| - pos else 17;
      if k < |changes| {
        RecordReads(changes, k);
        RecordAt(changes, k);
      }
      var buf := fd[pos..pos + n];
      pos := pos + n;
      if n == 0 {
        if |tmp| > 0 {
          FlushStep(changes, pos, tmp, packets, groups, sent, k);
          packets, groups, sent, tmp := packets + [tmp], groups + [changes[sent..k]], k, [];
        }
        PackingEnds(changes, pos, tmp, packets, groups, sent, k);
        PacketsFit(packets, groups);
        return true, packets, groups;
      } else if n != 17 {
        return false, packets, groups;
      } else if |tmp| + n < MAXLINE - 2 {
        var line;
        n, line := ReadLine(fd, pos, NEWLINE, 255);
        pos := pos + |line|;
        assert line == changes[k].id.name + [NEWLINE];
        if n == 0 {
          return false, packets, groups;
        } else if |tmp| + n + 17 < MAXLINE - 2 {
          AppendStep(changes, pos - 17 - n, tmp, packets, groups, sent, k);
          tmp, k := tmp + (buf + line), k + 1;
        } else {
          pos := pos - (n + 17);
          FlushStep(changes, pos, tmp, packets, groups, sent, k);
          packets, groups, sent, tmp := packets + [tmp], groups + [changes[sent..k]], k, [];
        }
      } else {
        pos := pos - n;
        FlushStep(changes, pos, tmp, packets, groups, sent, k);
        packets, groups, sent, tmp := packets + [tmp], groups + [changes[sent..k]], k, [];
      }
    }
  }

  /** With the port in front a packet fits, and with the next record it would have been full. */
  lemma PacketsFit(packets: seq<seq<byte>>, groups: seq<seq<Change>>)
    requires Ships(packets, groups)
    ensures forall i :: 0 <= i < |packets| ==> 0 < |packets[i]| && 2 + |packets[i]| <= MAX_PACKET_DATA_LEN
    ensures forall i :: 0 < i < |packets| ==> groups[i] != [] && 2 + |packets[i - 1]| + (1 + 16 + |groups[i][0].id.name| + 1) >= MAX_PACKET_DATA_LEN
  {
    hide PackedAll;
  }

  lemma PackingStarts(changes: seq<Change>)
    ensures Packing(changes, 0, [], [], [], 0, 0)
  {
    assert changes[..0] == [] && changes[0..0] == [];
  }

  lemma PackingFacts(changes: seq<Change>, pos: nat, tmp: seq<byte>, packets: seq<seq<byte>>, groups: seq<seq<Change>>, sent: nat, k: nat)
    requires Packing(changes, pos, tmp, packets, groups, sent, k)
    ensures k <= |changes| && pos == |PackedAll(changes[..k])| && |tmp| < ROOM
    ensures k == |changes| ==> pos == |PackedAll(changes)|
    ensures tmp == [] ==> sent == k
  {
    hide Ships, Flat;
    if k == |changes| {
      assert changes[..k] == changes;
    }
  }

  lemma PackingEnds(changes: seq<Change>, pos: nat, tmp: seq<byte>, packets: seq<seq<byte>>, groups: seq<seq<Change>>, sent: nat, k: nat)
    requires Packing(changes, pos, tmp, packets, groups, sent, k) && sent == k == |changes|
    ensures Ships(packets, groups) && Flat(groups) == changes
  {
    hide PackedAll, Ships, Flat;
    assert changes[..k] == changes;
  }
}
