/** How a superpeer takes in what its peers ship: `update_file_list_handler`
    (src/client/client.c), `add_files` (src/client/superpeer.c); and what the exchange
    achieves from end to end. */
module Delivery {
  import opened Common
  import opened Bytes
  import opened FileIndex
  import opened ShareDiff
  import opened Shipping
  import opened Framing
  import NameTests

  function RecordOf(id: FileId, ip: u32, port: u16): Record {
    Record(id.name, id.md5, ip, port)
  }

  /** A difference as an operation of the index. */
  function OpOf(c: Change, ip: u32, port: u16): Op {
    if c.sign == Plus then Insert(RecordOf(c.id, ip, port)) else Remove(RecordOf(c.id, ip, port))
  }

  /** What a sequence of differences of one peer does to the set of all records. */
  ghost function Delivered(recs: set<Record>, changes: seq<Change>, ip: u32, port: u16): set<Record> {
    if changes == [] then recs
    else Applied(Delivered(recs, changes[..|changes| - 1], ip, port), OpOf(changes[|changes| - 1], ip, port))
  }

  lemma {:induction false} DeliveredNext(recs: set<Record>, changes: seq<Change>, k: nat, ip: u32, port: u16)
    requires k < |changes|
    ensures var before, c := Delivered(recs, changes[..k], ip, port), changes[k];
      Delivered(recs, changes[..k + 1], ip, port) == Applied(before, OpOf(c, ip, port))
  {
    assert changes[..k + 1][..k] == changes[..k];
  }

  // ---- add_files

  /** The cursor of `add_files` is at the first octet of record number `k`. */
  ghost predicate Parsing(data: seq<byte>, i: nat, changes: seq<Change>, k: nat) {
    k <= |changes| && i <= |data| && data[i..] == PackedAll(changes[k..])
  }

  /** The octets of the next record. */
  lemma ParsingNext(data: seq<byte>, i: nat, changes: seq<Change>, k: nat)
    requires AllSendable(changes) && Parsing(data, i, changes, k) && i < |data|
    ensures k < |changes|
    ensures var c := changes[k]; var e := i + 17 + |c.id.name|;
      && e < |data| && data[i] == Tag(c.sign) && data[i + 1..i + 17] == c.id.md5
      && data[i + 17..e] == c.id.name && data[e] == NEWLINE && NEWLINE !in c.id.name
      && Parsing(data, e + 1, changes, k + 1)
  {
    hide Packed, PackedAll;
    if k == |changes| {
      NothingPacked();
      assert false;
    } else {
      var c := changes[k];
      assert c in changes;
      PackedFirst(changes[k..]);
      assert changes[k..][1..] == changes[k + 1..];
      RecordOctets(data[i..], c, PackedAll(changes[k + 1..]));
      FromHere(data, i, 17 + |c.id.name|);
    }
  }

  /** Positions behind the cursor, for the fields of a record that takes `e + 1` octets. */
  lemma FromHere(data: seq<byte>, i: nat, e: nat)
    requires i + e < |data| && 17 <= e
    ensures data[i..][1..17] == data[i + 1..i + 17] && data[i..][17..e] == data[i + 17..i + e]
    ensures data[i..][e + 1..] == data[i + e + 1..] && data[i..][0] == data[i] && data[i..][e] == data[i + e]
  {}

  lemma RecordOctets(s: seq<byte>, c: Change, rest: seq<byte>)
    requires s == Packed(c) + rest
    ensures var e := 17 + |c.id.name|;
      && e < |s| && s[0] == Tag(c.sign) && s[1..17] == c.id.md5 && s[17..e] == c.id.name && s[e] == NEWLINE
      && s[e + 1..] == rest
  {
    var b := Packed(c);
    assert b[1..17] == c.id.md5 && b[17..17 + |c.id.name|] == c.id.name;
    assert s[..|b|] == b;
    assert s[1..17] == b[1..17] && s[17..17 + |c.id.name|] == b[17..17 + |c.id.name|];
  }

  /** How the superpeer compares names: whole, as `FileIndex` does, or as the code does, among
      records whose names its tests tell apart. */
  datatype Tests = WholeNames | AsCoded

  ghost predicate Tells(tests: Tests, filehash: seq<byte> -> int, recs: set<Record>, changes: seq<Change>, ip: u32, port: u16, all: set<Record>) {
    tests == AsCoded ==>
      && NameTests.ToldApart(filehash, all) && recs <= all
      && forall c :: c in changes ==> RecordOf(c.id, ip, port) in all
  }

  /** One record of the diff. */
  method ApplyChange(index: Index, op: Op, tests: Tests, ghost all: set<Record>)
    requires index.Valid() && !op.RemoveAll?
    requires tests == AsCoded ==> NameTests.ToldApart(index.filehash, all) && index.recs <= all && op.r in all
    modifies index
    ensures index.Valid() && index.recs == Applied(old(index.recs), op) && (tests == AsCoded ==> index.recs <= all)
  {
    hide Coherent, NameTests.ToldApart;
    if tests == AsCoded {
      NameTests.Apply(index, op, all);
    } else if op.Insert? {
      index.InsertFile(op.r.name, op.r.md5, op.r.ip, op.r.port);
    } else {
      index.RemoveFile(op.r.ip, op.r.port, op.r.name, op.r.md5);
    }
  }

  /** `add_files`: carries out the records of one packet, octet by octet. */
  method AddFiles(index: Index, ip: u32, port: u16, data: seq<byte>, tests: Tests, ghost changes: seq<Change>, ghost all: set<Record>) returns (ok: bool)
    requires index.Valid() && AllSendable(changes) && data == PackedAll(changes)
    requires Tells(tests, index.filehash, index.recs, changes, ip, port, all)
    modifies index
    ensures ok && index.Valid() && index.recs == Delivered(old(index.recs), changes, ip, port)
    ensures tests == AsCoded ==> index.recs <= all
  {
    hide Coherent, Delivered, PackedAll, Parsing, AllSendable, NameTests.ToldApart, Applied;
    ghost var recs := index.recs;
    ghost var k := 0;
    var i := 0;
    ParsingStarts(data, changes, recs, ip, port);
    while i < |data|
      invariant index.Valid() && i <= |data| && Parsing(data, i, changes, k) && k <= |changes|
      invariant index.recs == Delivered(recs, changes[..k], ip, port) && (tests == AsCoded ==> index.recs <= all)
      decreases |data| - i
    {
      ParsingNext(data, i, changes, k);
      DeliveredNext(recs, changes, k, ip, port);
      ghost var c := changes[k];
      assert c in changes;
      if data[i] != PLUS && data[i] != MINUS {
        return false;
      }
      var op := data[i];
      var md5 := data[i + 1..i + 17];
      ghost var start := i + 17;
      i := i + 17;
      var tmp := [];
      while i < |data|
        invariant start <= i <= start + |c.id.name| && tmp == data[start..i]
        invariant index.Valid() && index.recs == Delivered(recs, changes[..k], ip, port) && (tests == AsCoded ==> index.recs <= all)
        decreases |data| - i
      {
        if data[i] != NEWLINE {
          SliceHas(data, start, start + |c.id.name|, i, c.id.name);
          tmp := tmp + [data[i]];
        } else {
          SliceLacks(data, start, start + |c.id.name|, i, c.id.name);
          var r := Record(tmp, md5, ip, port);
          ApplyChange(index, if op == PLUS then Insert(r) else Remove(r), tests, all);
          break;
        }
        i := i + 1;
      }
      i := i + 1;
      k := k + 1;
    }
    ParsingEnds(data, i, changes, k);
    ok := true;
  }

  lemma ParsingStarts(data: seq<byte>, changes: seq<Change>, recs: set<Record>, ip: u32, port: u16)
    requires data == PackedAll(changes)
    ensures Parsing(data, 0, changes, 0) && Delivered(recs, changes[..0], ip, port) == recs
  {
    assert data[0..] == data && changes[0..] == changes;
  }

  lemma ParsingEnds(data: seq<byte>, i: nat, changes: seq<Change>, k: nat)
    requires Parsing(data, i, changes, k) && i == |data|
    ensures changes[..k] == changes
  {
    assert data[i..] == [];
    PackedEmpty(changes[k..]);
  }

  lemma PackedEmpty(changes: seq<Change>)
    requires PackedAll(changes) == []
    ensures changes == []
  {}

  /** Inside the name there is no newline, and at its end there is. */
  lemma SliceHas(data: seq<byte>, a: nat, b: nat, i: nat, name: seq<byte>)
    requires a <= i <= b < |data| && data[a..b] == name && data[b] == NEWLINE && data[i] != NEWLINE
    ensures i < b
  {}

  lemma SliceLacks(data: seq<byte>, a: nat, b: nat, i: nat, name: seq<byte>)
    requires a <= i <= b < |data| && data[a..b] == name && NEWLINE !in name && data[i] == NEWLINE
    ensures i == b
  {
    assert forall j :: a <= j < b ==> data[j] == name[j - a];
  }

  /** `update_file_list_handler`: the packet starts with the port the peer serves files on. */
  method UpdateFileList(index: Index, ip: u32, data: seq<byte>, tests: Tests, ghost port: u16, ghost changes: seq<Change>, ghost all: set<Record>)
    returns (ok: bool)
    requires index.Valid() && AllSendable(changes) && data == Stob(port) + PackedAll(changes)
    requires Tells(tests, index.filehash, index.recs, changes, ip, port, all)
    modifies index
    ensures ok && index.Valid() && index.recs == Delivered(old(index.recs), changes, ip, port)
    ensures tests == AsCoded ==> index.recs <= all
  {
    hide Coherent, Tells;
    ShortRoundTrip(port);
    assert data[..2] == Stob(port) && data[2..] == PackedAll(changes);
    ok := AddFiles(index, ip, Btos(data[..2]), data[2..], tests, changes, all);
  }

  // ---- membership: the last record about a file decides

  ghost function LastSign(changes: seq<Change>, id: FileId): Option<Sign> {
    if changes == [] then None
    else if changes[|changes| - 1].id == id then Some(changes[|changes| - 1].sign)
    else LastSign(changes[..|changes| - 1], id)
  }

  lemma {:induction false} DeliveredHas(recs: set<Record>, changes: seq<Change>, ip: u32, port: u16, r: Record)
    ensures r in Delivered(recs, changes, ip, port) <==>
      if r.ip != ip || r.port != port then r in recs
      else match LastSign(changes, FileId(r.md5, r.name))
           case None => r in recs
           case Some(sign) => sign == Plus
  {
    if changes != [] {
      DeliveredHas(recs, changes[..|changes| - 1], ip, port, r);
    }
  }

  lemma {:induction false} DeliveredParts(recs: set<Record>, a: seq<Change>, b: seq<Change>, ip: u32, port: u16)
    ensures Delivered(recs, a + b, ip, port) == Delivered(Delivered(recs, a, ip, port), b, ip, port)
  {
    if b == [] {
      assert a + b == a;
    } else {
      var n := |b| - 1;
      DeliveredParts(recs, a, b[..n], ip, port);
      assert (a + b)[..|a + b| - 1] == a + b[..n] && (a + b)[|a + b| - 1] == b[n];
    }
  }

  /** Taking in the same packet again right away changes nothing. */
  lemma {:induction false} DeliveredTwice(recs: set<Record>, changes: seq<Change>, ip: u32, port: u16)
    ensures Delivered(Delivered(recs, changes, ip, port), changes, ip, port) == Delivered(recs, changes, ip, port)
  {
    var once := Delivered(recs, changes, ip, port);
    forall r: Record
      ensures r in Delivered(once, changes, ip, port) <==> r in once
    {
      DeliveredHas(recs, changes, ip, port, r);
      DeliveredHas(once, changes, ip, port, r);
    }
  }

  /** "UFL" */
  const UPDATE_FILE_LIST: seq<byte> := [85, 70, 76]

  /** One packet on its way: its octets are made, and read again at the other end. */
  method Receive(index: u16, data: seq<byte>) returns (received: seq<byte>)
    requires |data| <= MAX_PACKET_DATA_LEN
    ensures received == data
  {
    var p := Packet(UPDATE_FILE_LIST, 0, index, 0, data);
    var octets := PckToB(p);
    var q := BToPck(octets, p);
    received := q.data;
  }

  /** `send_share` and its reception in order; packet number `i` comes in `1 + repeats(i)`
      times in a row, as retransmission makes it. */
  method ShipShare(index: Index, ip: u32, port: u16, fd: seq<byte>, indices: nat -> u16, repeats: nat -> nat, tests: Tests, ghost changes: seq<Change>, ghost all: set<Record>)
    requires index.Valid() && AllSendable(changes) && fd == PackedAll(changes)
    requires Tells(tests, index.filehash, index.recs, changes, ip, port, all)
    modifies index
    ensures index.Valid() && index.recs == Delivered(old(index.recs), changes, ip, port)
    ensures tests == AsCoded ==> index.recs <= all
  {
    hide Coherent, PackedAll, Delivered, Flat, NameTests.ToldApart;
    var ok, packets, groups := SendShare(fd, changes);
    ghost var recs := index.recs;
    NothingDelivered(recs, ip, port);
    for i := 0 to |packets|
      invariant index.Valid() && index.recs == Delivered(recs, Flat(groups[..i]), ip, port) && (tests == AsCoded ==> index.recs <= all)
    {
      ghost var before, g := index.recs, groups[i];
      GroupSendable(groups, changes, i);
      GroupIn(groups, changes, i);
      var data := Receive(indices(i), Stob(port) + packets[i]);
      var _ := UpdateFileList(index, ip, data, tests, port, g, all);
      for j := 0 to repeats(i)
        invariant index.Valid() && index.recs == Delivered(before, g, ip, port) && (tests == AsCoded ==> index.recs <= all)
      {
        DeliveredTwice(before, g, ip, port);
        var _ := UpdateFileList(index, ip, data, tests, port, g, all);
      }
      DeliveredParts(recs, Flat(groups[..i]), g, ip, port);
      FlatNext(groups[..i], g);
      assert groups[..i] + [g] == groups[..i + 1];
    }
    assert groups[..|packets|] == groups;
  }

  lemma NothingDelivered(recs: set<Record>, ip: u32, port: u16)
    ensures Delivered(recs, Flat([]), ip, port) == recs
  {}

  lemma {:induction false} GroupIn(groups: seq<seq<Change>>, changes: seq<Change>, i: nat)
    requires Flat(groups) == changes && i < |groups|
    ensures forall c :: c in groups[i] ==> c in changes
  {
    forall c | c in groups[i]
      ensures c in changes
    {
      FlatMembers(groups, c);
    }
  }

  lemma {:induction false} GroupSendable(groups: seq<seq<Change>>, changes: seq<Change>, i: nat)
    requires AllSendable(changes) && Flat(groups) == changes && i < |groups|
    ensures AllSendable(groups[i])
    decreases |groups|
  {
    var rest, g := groups[..|groups| - 1], groups[|groups| - 1];
    if i < |rest| {
      assert forall c :: c in Flat(rest) ==> c in changes;
      GroupSendable(rest, Flat(rest), i);
    } else {
      assert forall c :: c in g ==> c in changes;
    }
  }

  // ---- the superpeer's records against the peer's share

  /** The records of the peer are exactly its files. */
  ghost predicate Mirrors(recs: set<Record>, files: multiset<FileId>, ip: u32, port: u16) {
    forall id: FileId :: RecordOf(id, ip, port) in recs <==> id in files
  }

  lemma {:induction false} SignedHas(changes: seq<Change>, id: FileId, sign: Sign)
    ensures Signed(changes, sign)[id] > 0 <==> Change(sign, id) in changes
  {
    if changes != [] {
      var rest, c := changes[..|changes| - 1], changes[|changes| - 1];
      SignedHas(rest, id, sign);
      assert changes == rest + [c];
    }
  }

  /** With at most one record of each sign about a file, the last sign is known. */
  lemma {:induction false} LastSignOf(changes: seq<Change>, id: FileId)
    requires Signed(changes, Plus)[id] <= 1 && Signed(changes, Minus)[id] <= 1
    ensures LastSign(changes, id) ==
      if Signed(changes, Plus)[id] == 0 then if Signed(changes, Minus)[id] == 0 then None else Some(Minus)
      else if Withdraws(changes, id) then Some(Minus) else Some(Plus)
  {
    if changes != [] {
      var rest, c := changes[..|changes| - 1], changes[|changes| - 1];
      assert changes == rest + [c];
      LastSignOf(rest, id);
      WithdrawsJoin(rest, [c], id);
      SignedHas(rest, id, Plus);
    }
  }

  /** End to end, in order: the superpeer ends up with the new share if and only if the diff
      withdraws no file it has announced before. */
  lemma EndToEnd(recs: set<Record>, files: multiset<FileId>, changes: seq<Change>, ip: u32, port: u16)
    requires Mirrors(recs, files, ip, port) && Signed(changes, Minus) <= files
    requires OnceEach(files) && OnceEach(Replayed(files, changes))
    ensures Mirrors(Delivered(recs, changes, ip, port), Replayed(files, changes), ip, port)
      <==> forall id :: !Withdraws(changes, id)
  {
    hide Delivered, Signed, LastSign, Withdraws;
    ReplayBalances(files, changes);
    forall id: FileId
      ensures (RecordOf(id, ip, port) in Delivered(recs, changes, ip, port) <==> id in Replayed(files, changes))
        <==> !Withdraws(changes, id)
    {
      EndToEndAt(recs, files, changes, ip, port, id);
    }
  }

  /** The same where the diff leaves some files of the old share over: a file that is left over is
      still recorded, so it must be one of the new share as well. */
  lemma {:induction false} EndToEndWithRest(recs: set<Record>, files: multiset<FileId>, changes: seq<Change>, now: multiset<FileId>, left: multiset<FileId>, ip: u32, port: u16)
    requires Mirrors(recs, files, ip, port) && Signed(changes, Minus) <= files && Signed(changes, Plus) <= now
    requires OnceEach(files) && OnceEach(now) && Replayed(files, changes) == now + left
    ensures Mirrors(Delivered(recs, changes, ip, port), now, ip, port)
      <==> forall id :: if id in left then id in now else !Withdraws(changes, id)
  {
    hide Delivered, Signed, LastSign, Withdraws, Replayed;
    forall id: FileId
      ensures (RecordOf(id, ip, port) in Delivered(recs, changes, ip, port) <==> id in now)
        <==> if id in left then id in now else !Withdraws(changes, id)
    {
      WithRestAt(recs, files, changes, now, left, ip, port, id);
    }
  }

  lemma {:induction false} WithRestAt(recs: set<Record>, files: multiset<FileId>, changes: seq<Change>, now: multiset<FileId>, left: multiset<FileId>, ip: u32, port: u16, id: FileId)
    requires Mirrors(recs, files, ip, port) && Signed(changes, Minus) <= files && Signed(changes, Plus) <= now
    requires OnceEach(files) && OnceEach(now) && Replayed(files, changes) == now + left
    ensures (RecordOf(id, ip, port) in Delivered(recs, changes, ip, port) <==> id in now)
      <==> if id in left then id in now else !Withdraws(changes, id)
  {
    hide Delivered, Signed, LastSign, Withdraws, Replayed;
    ReplayBalances(files, changes);
    DeliveredHas(recs, changes, ip, port, RecordOf(id, ip, port));
    var p, m := Signed(changes, Plus), Signed(changes, Minus);
    assert files[id] <= 1 && now[id] <= 1 && m[id] <= files[id] && p[id] <= now[id];
    assert (now + left)[id] == files[id] + p[id] - m[id];
    LastSignOf(changes, id);
    WithdrawsBoth(changes, id);
  }

  lemma EndToEndAt(recs: set<Record>, files: multiset<FileId>, changes: seq<Change>, ip: u32, port: u16, id: FileId)
    requires Mirrors(recs, files, ip, port) && Signed(changes, Minus) <= files
    requires OnceEach(files) && OnceEach(Replayed(files, changes))
    ensures (RecordOf(id, ip, port) in Delivered(recs, changes, ip, port) <==> id in Replayed(files, changes))
      <==> !Withdraws(changes, id)
  {
    hide Delivered, Signed, LastSign;
    ReplayBalances(files, changes);
    DeliveredHas(recs, changes, ip, port, RecordOf(id, ip, port));
    LastSignOf(changes, id);
    WithdrawsBoth(changes, id);
  }

  lemma WithdrawsBoth(changes: seq<Change>, id: FileId)
    ensures Withdraws(changes, id) ==> Signed(changes, Plus)[id] > 0 && Signed(changes, Minus)[id] > 0
  {
    SignedHas(changes, id, Plus);
    SignedHas(changes, id, Minus);
  }

  /** No file is both announced and withdrawn. */
  ghost predicate SingleSigned(changes: seq<Change>) {
    forall c, d :: c in changes && d in changes && c.id == d.id ==> c.sign == d.sign
  }

  /** If no file carries both signs, neither order nor repetition matters. */
  lemma AnyOrder(recs: set<Record>, changes: seq<Change>, received: seq<Change>, ip: u32, port: u16)
    requires forall c :: c in received <==> c in changes
    requires SingleSigned(changes)
    ensures Delivered(recs, received, ip, port) == Delivered(recs, changes, ip, port)
  {
    forall r: Record
      ensures r in Delivered(recs, received, ip, port) <==> r in Delivered(recs, changes, ip, port)
    {
      var id := FileId(r.md5, r.name);
      DeliveredHas(recs, received, ip, port, r);
      DeliveredHas(recs, changes, ip, port, r);
      LastSignIn(changes, id);
      LastSignIn(received, id);
    }
  }

  lemma {:induction false} LastSignIn(changes: seq<Change>, id: FileId)
    ensures match LastSign(changes, id)
            case None => forall c :: c in changes ==> c.id != id
            case Some(sign) => Change(sign, id) in changes
  {
    if changes != [] {
      LastSignIn(changes[..|changes| - 1], id);
    }
  }

  // ---- packets out of order

  lemma {:induction false} FlatMembers<T>(groups: seq<seq<T>>, x: T)
    ensures x in Flat(groups) <==> exists i :: 0 <= i < |groups| && x in groups[i]
  {
    if groups != [] {
      var rest, g := groups[..|groups| - 1], groups[|groups| - 1];
      FlatMembers(rest, x);
      assert forall i :: 0 <= i < |rest| ==> rest[i] == groups[i];
    }
  }

  /** Which packets come in, one after the other: each at least once. */
  ghost predicate Arrivals(order: seq<nat>, n: nat) {
    (forall k :: 0 <= k < |order| ==> order[k] < n) && forall i: nat :: i < n ==> i in order
  }

  lemma ArrivedAll(groups: seq<seq<Change>>, order: seq<nat>, arrived: seq<seq<Change>>)
    requires Arrivals(order, |groups|) && |arrived| == |order|
    requires forall k :: 0 <= k < |order| ==> arrived[k] == groups[order[k]]
    ensures forall c :: c in Flat(arrived) <==> c in Flat(groups)
  {
    forall c
      ensures c in Flat(arrived) <==> c in Flat(groups)
    {
      FlatMembers(arrived, c);
      FlatMembers(groups, c);
      if c in Flat(groups) {
        var i: nat :| i < |groups| && c in groups[i];
        assert i in order;
        var k :| 0 <= k < |order| && order[k] == i;
        assert c in arrived[k];
      }
    }
  }

  /** The packets of `send_share` come in in any order and any number of times each: where no file
      carries both signs, the superpeer ends up with the new share. */
  method ShipInAnyOrder(index: Index, ip: u32, port: u16, fd: seq<byte>, indices: nat -> u16, order: nat -> seq<nat>, tests: Tests,
                        ghost changes: seq<Change>, ghost files: multiset<FileId>, ghost all: set<Record>)
    requires index.Valid() && AllSendable(changes) && fd == PackedAll(changes)
    requires Tells(tests, index.filehash, index.recs, changes, ip, port, all)
    requires SingleSigned(changes) && forall n :: Arrivals(order(n), n)
    requires Mirrors(index.recs, files, ip, port) && Signed(changes, Minus) <= files
    requires OnceEach(files) && OnceEach(Replayed(files, changes))
    modifies index
    ensures index.Valid() && index.recs == Delivered(old(index.recs), changes, ip, port)
    ensures Mirrors(index.recs, Replayed(files, changes), ip, port)
  {
    hide Coherent, PackedAll, Delivered, Flat, Signed, Replayed, Mirrors, OnceEach, SingleSigned, Withdraws, NameTests.ToldApart;
    var ok, packets, groups := SendShare(fd, changes);
    var arriving := order(|packets|);
    ghost var recs := index.recs;
    ghost var arrived: seq<seq<Change>> := [];
    NothingDelivered(recs, ip, port);
    for n := 0 to |arriving|
      invariant index.Valid() && index.recs == Delivered(recs, Flat(arrived), ip, port) && (tests == AsCoded ==> index.recs <= all)
      invariant |arrived| == n && forall k :: 0 <= k < n ==> arrived[k] == groups[arriving[k]]
    {
      var i := arriving[n];
      GroupSendable(groups, changes, i);
      DeliveredParts(recs, Flat(arrived), groups[i], ip, port);
      FlatNext(arrived, groups[i]);
      GroupIn(groups, changes, i);
      var data := Receive(indices(i), Stob(port) + packets[i]);
      var _ := UpdateFileList(index, ip, data, tests, port, groups[i], all);
      arrived := arrived + [groups[i]];
    }
    ArrivedAll(groups, arriving, arrived);
    AnyOrder(recs, changes, Flat(arrived), ip, port);
    NeverWithdraws(changes);
    EndToEnd(recs, files, changes, ip, port);
  }

  lemma NeverWithdraws(changes: seq<Change>)
    requires SingleSigned(changes)
    ensures forall id :: !Withdraws(changes, id)
  {
    forall id
      ensures !Withdraws(changes, id)
    {
      assert Change(Plus, id) in changes && Change(Minus, id) in changes ==> Change(Plus, id).sign == Change(Minus, id).sign;
    }
  }
}
