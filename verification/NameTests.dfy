/** How src/client/hashtable.c tells names apart: `strncmp` over the length of the name that is
    looked for, and in `get_by_name` over the size of a pointer. Each operation acts as the exact
    one of `FileIndex` on the first name that passes the test; here is which one that is, and
    exactly when it is the name that is looked for. */
module NameTests {
  import opened Common
  import opened Memory
  import opened ChainedTable
  import opened FileIndex

  /** `sizeof(file_name)` on the 32-bit target. */
  const POINTER_SIZE := 4

  /** `strncmp(a, b, n) == 0` */
  predicate SameStart(a: Name, b: Name, n: nat) {
    n == 0 || if a == [] || b == [] then a == b else a[0] == b[0] && SameStart(a[1..], b[1..], n - 1)
  }

  /** Compared over its own length, a name passes for every name that it begins. */
  lemma {:induction false} StartsWith(a: Name, b: Name)
    ensures SameStart(a, b, |b|) <==> b <= a
  {
    if a != [] && b != [] {
      StartsWith(a[1..], b[1..]);
      assert b == [b[0]] + b[1..] && a == [a[0]] + a[1..];
    }
  }

  /** In general it compares the first `n` octets of both, or as many as there are. */
  lemma {:induction false} SameStartIs(a: Name, b: Name, n: nat)
    ensures SameStart(a, b, n) <==> (if |a| < n then a else a[..n]) == (if |b| < n then b else b[..n])
  {
    if n > 0 && a != [] && b != [] {
      SameStartIs(a[1..], b[1..], n - 1);
      var x, y := if |a| < n then a else a[..n], if |b| < n then b else b[..n];
      assert x == [a[0]] + x[1..] && y == [b[0]] + y[1..];
      assert x[1..] == if |a[1..]| < n - 1 then a[1..] else a[1..][..n - 1];
      assert y[1..] == if |b[1..]| < n - 1 then b[1..] else b[1..][..n - 1];
    }
  }

  lemma {:induction false} SameAsItself(a: Name, n: nat)
    ensures SameStart(a, a, n)
  {
    if n > 0 && a != [] {
      SameAsItself(a[1..], n - 1);
    }
  }

  /** The first of `names` that passes, or the name itself. */
  function Resolved(names: seq<Name>, str: Name, n: nat): Name {
    if names == [] then str else if SameStart(names[0], str, n) then names[0] else Resolved(names[1..], str, n)
  }

  /** A name that passes comes before `str` itself. */
  ghost predicate Shadowed(names: seq<Name>, str: Name, n: nat) {
    exists i :: 0 <= i < |names| && SameStart(names[i], str, n) && str !in names[..i + 1]
  }

  lemma {:induction false} FirstPassing(names: seq<Name>, str: Name, n: nat, i: nat)
    requires i < |names| && SameStart(names[i], str, n) && forall j :: 0 <= j < i ==> !SameStart(names[j], str, n)
    ensures Resolved(names, str, n) == names[i]
  {
    if i > 0 {
      FirstPassing(names[1..], str, n, i - 1);
    }
  }

  lemma {:induction false} NonePassing(names: seq<Name>, str: Name, n: nat)
    requires forall j :: 0 <= j < |names| ==> !SameStart(names[j], str, n)
    ensures Resolved(names, str, n) == str
  {
    if names != [] {
      NonePassing(names[1..], str, n);
    }
  }

  /** The test finds the right name if and only if that is not shadowed. */
  lemma {:induction false} ResolvedIsExact(names: seq<Name>, str: Name, n: nat)
    ensures Resolved(names, str, n) == str <==> !Shadowed(names, str, n)
  {
    if i :| 0 <= i < |names| && SameStart(names[i], str, n) && forall j :: 0 <= j < i ==> !SameStart(names[j], str, n) {
      FirstPassing(names, str, n, i);
      SameAsItself(str, n);
      if names[i] != str {
        assert str !in names[..i + 1];
      } else {
        forall k | 0 <= k < |names| && SameStart(names[k], str, n)
          ensures str in names[..k + 1]
        {
          assert names[..k + 1][i] == str;
        }
      }
    } else {
      NoFirst(names, str, n, |names|);
      NonePassing(names, str, n);
    }
  }

  /** If no name is the first to pass, none passes. */
  lemma {:induction false} NoFirst(names: seq<Name>, str: Name, n: nat, k: nat)
    requires k <= |names|
    requires !exists i :: 0 <= i < |names| && SameStart(names[i], str, n) && forall j :: 0 <= j < i ==> !SameStart(names[j], str, n)
    ensures forall j :: 0 <= j < k ==> !SameStart(names[j], str, n)
  {
    if k > 0 {
      NoFirst(names, str, n, k - 1);
    }
  }

  /** Four octets do not tell "abcd1" from "abcd2"; and "ab" passes for "abc". */
  lemma {:induction false} TestsCanMislead()
    ensures var one, two := [97, 98, 99, 100, 49], [97, 98, 99, 100, 50];
      && Resolved([one, two], two, POINTER_SIZE) == one
      && Resolved([one, two], two, |two|) == two
    ensures var short, long := [97, 98], [97, 98, 99];
      Resolved([long, short], short, |short|) == long
  {
    var one: Name, two: Name := [97, 98, 99, 100, 49], [97, 98, 99, 100, 50];
    assert one[1..] == [98, 99, 100, 49] && two[1..] == [98, 99, 100, 50];
    assert one[1..][1..] == [99, 100, 49] && two[1..][1..] == [99, 100, 50];
    assert one[1..][1..][1..] == [100, 49] && two[1..][1..][1..] == [100, 50];
    assert one[1..][1..][1..][1..] == [49] && two[1..][1..][1..][1..] == [50];
    assert SameStart(one, two, 4);
    StartsWith(one, two);
    SameAsItself(two, 5);
    assert [one, two][1..] == [two];
    StartsWith([97, 98, 99], [97, 98]);
  }

  // ---- the names along a chain

  ghost function NamesAlong(keys: Pool<Entry<seq<byte>>>, chain: seq<Ptr>): (names: seq<Name>)
    requires forall p :: p in chain ==> p in keys
    ensures |names| == |chain| && forall i :: 0 <= i < |names| ==> names[i] == keys[chain[i]].data.key
  {
    seq(|chain|, i requires 0 <= i < |chain| => keys[chain[i]].data.key)
  }

  /** The names in the bucket of `str`, in chain order. */
  ghost function Bucket(filehash: seq<byte> -> int, t: Tables, l: Layout, recs: set<Record>, str: Name): seq<Name>
    requires Coherent(filehash, t, l, recs)
  {
    ChainHasKey(filehash, l.names.chains, l.names.nodes, t.names.keys, str);
    NamesAlong(t.names.keys, l.names.chains[filehash(str)])
  }

  lemma {:induction false} BucketFacts(filehash: seq<byte> -> int, t: Tables, l: Layout, recs: set<Record>, str: Name)
    requires Coherent(filehash, t, l, recs)
    ensures 0 <= filehash(str) < |l.names.chains| && |t.names.heads| == |l.names.chains|
    ensures var chain, names := l.names.chains[filehash(str)], Bucket(filehash, t, l, recs, str);
      && Chain(t.names.keys, chain) && t.names.heads[filehash(str)] == First(chain)
      && (forall p :: p in chain ==> p in t.names.keys)
      && names == NamesAlong(t.names.keys, chain)
      && (str in l.names.nodes <==> str in names)
      && (forall i :: 0 <= i < |names| ==> names[i] in l.names.nodes && l.names.nodes[names[i]] == chain[i] && filehash(names[i]) == filehash(str))
  {
    hide Covers, Partners, GoodLists, Owned;
    ChainHasKey(filehash, l.names.chains, l.names.nodes, t.names.keys, str);
    var chain, names := l.names.chains[filehash(str)], Bucket(filehash, t, l, recs, str);
    forall i | 0 <= i < |names|
      ensures names[i] in l.names.nodes && l.names.nodes[names[i]] == chain[i] && filehash(names[i]) == filehash(str)
    {
      assert chain[i] in chain;
    }
    if str in l.names.nodes {
      var i :| 0 <= i < |chain| && chain[i] == l.names.nodes[str];
      assert names[i] == str;
    }
  }

  /** The loop of `get_by_name`. */
  method WalkByStart(keys: Pool<Entry<seq<byte>>>, head: Ptr, str: Name, n: nat, ghost chain: seq<Ptr>) returns (entry: Ptr)
    requires Chain(keys, chain) && head == First(chain) && forall p :: p in chain ==> p in keys
    ensures var names := NamesAlong(keys, chain);
      && (entry != NULL ==> entry in chain && keys[entry].data.key == Resolved(names, str, n))
      && (entry == NULL ==> Resolved(names, str, n) == str && str !in names)
  {
    entry := head;
    ghost var i, names := 0, NamesAlong(keys, chain);
    EmptyChain(keys, chain);
    while entry != NULL
      invariant 0 <= i <= |chain| && entry == (if i == |chain| then NULL else chain[i])
      invariant entry == NULL <==> i == |chain|
      invariant forall j :: 0 <= j < i ==> !SameStart(names[j], str, n)
      decreases |chain| - i
    {
      Neighbours(keys, chain, i);
      if SameStart(keys[entry].data.key, str, n) {
        FirstPassing(names, str, n, i);
        return;
      }
      entry, i := keys[entry].next, i + 1;
    }
    NonePassing(names, str, n);
    SameAsItself(str, n);
  }

  /** The loop of `insert_file`: it stops at a name that passes or at the last node. */
  method SlotByStart(keys: Pool<Entry<seq<byte>>>, head: Ptr, str: Name, n: nat, ghost chain: seq<Ptr>) returns (entry: Ptr)
    requires Chain(keys, chain) && head == First(chain) && forall p :: p in chain ==> p in keys
    ensures entry == NULL ==> chain == []
    ensures entry != NULL ==> entry in chain
    ensures var names := NamesAlong(keys, chain);
      if entry != NULL && SameStart(keys[entry].data.key, str, n) then keys[entry].data.key == Resolved(names, str, n)
      else entry == Last(chain) && Resolved(names, str, n) == str && str !in names
  {
    entry := head;
    ghost var names := NamesAlong(keys, chain);
    EmptyChain(keys, chain);
    SameAsItself(str, n);
    if entry == NULL {
      return;
    }
    ghost var i := 0;
    Neighbours(keys, chain, i);
    while keys[entry].next != NULL
      invariant 0 <= i < |chain| && entry == chain[i] && entry in keys && entry != NULL
      invariant keys[entry].next == NULL <==> i == |chain| - 1
      invariant i < |chain| - 1 ==> keys[entry].next == chain[i + 1]
      invariant forall j :: 0 <= j < i ==> !SameStart(names[j], str, n)
      decreases |chain| - i
    {
      if SameStart(keys[entry].data.key, str, n) {
        break;
      }
      entry, i := keys[entry].next, i + 1;
      Neighbours(keys, chain, i);
    }
    if SameStart(keys[entry].data.key, str, n) {
      FirstPassing(names, str, n, i);
    } else {
      NonePassing(names, str, n);
    }
  }

  // ---- get_by_name

  /** `get_by_name` lists the records of the first name in the bucket that agrees in four octets;
      these are the records of `str` if and only if `str` is not shadowed. */
  method GetByName(index: Index, str: Name) returns (head: Ptr, ghost list: seq<Ptr>)
    requires index.Valid()
    ensures Chain(index.t.names.items, list) && head == First(list)
    ensures var names := Bucket(index.filehash, index.t, index.l, index.recs, str);
      && Enumerates(list, index.l.addr, set r | r in index.recs && r.name == Resolved(names, str, POINTER_SIZE))
      && (Enumerates(list, index.l.addr, set r | r in index.recs && r.name == str) <==> !Shadowed(names, str, POINTER_SIZE))
  {
    hide Good, Covers, Partners, SameStart, Shadowed, Enumerates;
    BucketFacts(index.filehash, index.t, index.l, index.recs, str);
    ghost var chain := index.l.names.chains[index.filehash(str)];
    ghost var names := NamesAlong(index.t.names.keys, chain);
    ResolvedIsExact(names, str, POINTER_SIZE);
    var entry := WalkByStart(index.t.names.keys, index.t.names.heads[index.filehash(str)], str, POINTER_SIZE, chain);
    if entry == NULL {
      head, list := NULL, [];
      NoNode(index.filehash, index.t, index.l, index.recs, str);
      EmptyChain(index.t.names.items, list);
      NothingListed(index.l.addr, set r | r in index.recs && r.name == str);
    } else {
      ghost var name := index.t.names.keys[entry].data.key;
      NameList(index.filehash, index.t, index.l, index.recs, name);
      ghost var i :| 0 <= i < |chain| && chain[i] == entry;
      assert names[i] == name;
      head, list := index.t.names.keys[entry].data.list, index.l.names.lists[name];
      ListedByName(index.filehash, index.t, index.l, index.recs, name);
      OneNameListed(index.filehash, index.t, index.l, index.recs, name, str);
    }
  }

  lemma {:induction false} NothingListed(b: Bijection, want: set<Record>)
    requires want == {}
    ensures Enumerates([], b, want)
  {}

  lemma {:induction false} ListedByName(filehash: seq<byte> -> int, t: Tables, l: Layout, recs: set<Record>, name: Name)
    requires Coherent(filehash, t, l, recs) && name in l.names.nodes
    ensures name in l.names.lists && Enumerates(l.names.lists[name], l.addr, set r | r in recs && r.name == name)
  {
    hide Good, Covers, Partners;
    NameList(filehash, t, l, recs, name);
  }

  /** The list of a name is not empty, so it enumerates the records of no other name. */
  lemma {:induction false} OneNameListed(filehash: seq<byte> -> int, t: Tables, l: Layout, recs: set<Record>, name: Name, str: Name)
    requires Coherent(filehash, t, l, recs) && name in l.names.nodes && name in l.names.lists
    ensures Enumerates(l.names.lists[name], l.addr, set r | r in recs && r.name == str) <==> name == str
  {
    hide Good, Covers, Partners;
    NameList(filehash, t, l, recs, name);
    ListedByName(filehash, t, l, recs, name);
    NodeFacts(filehash, t.names, l.names, name);
    var list := l.names.lists[name];
    assert list[0] in list;
  }

  // ---- insert_file

  /** `insert_file` adds a record of the first name in the bucket that `str` begins; that is the
      record it is given if and only if `str` is not shadowed, or both are there already. */
  method InsertFile(index: Index, str: Name, md5: Md5, ip: u32, port: u16)
    requires index.Valid()
    modifies index
    ensures index.Valid()
    ensures var names := old(Bucket(index.filehash, index.t, index.l, index.recs, str));
      var meant, added := Record(str, md5, ip, port), Record(Resolved(names, str, |str|), md5, ip, port);
      && index.recs == old(index.recs) + {added}
      && (index.recs == old(index.recs) + {meant} <==> !Shadowed(names, str, |str|) || {meant, added} <= old(index.recs))
  {
    hide Good, Covers, Partners, SameStart, Shadowed;
    BucketFacts(index.filehash, index.t, index.l, index.recs, str);
    ghost var chain := index.l.names.chains[index.filehash(str)];
    ghost var names := NamesAlong(index.t.names.keys, chain);
    ResolvedIsExact(names, str, |str|);
    var slot := SlotByStart(index.t.names.keys, index.t.names.heads[index.filehash(str)], str, |str|, chain);
    var r := Record(str, md5, ip, port);
    if slot != NULL {
      ghost var i :| 0 <= i < |chain| && chain[i] == slot;
      assert names[i] == index.t.names.keys[slot].data.key;
      if SameStart(index.t.names.keys[slot].data.key, str, |str|) {
        r := Record(index.t.names.keys[slot].data.key, md5, ip, port);
        var found := IsListed(index.filehash, index.t, slot, r, index.l, index.recs);
        if found {
          assert index.recs == index.recs + {r};
          return;
        }
      }
    }
    RecordHasName(index.filehash, index.t, index.l, index.recs, r);
    var t;
    ghost var l;
    t, l := AddRecord(index.filehash, index.t, slot, r, index.l, index.recs);
    index.t, index.l, index.recs := t, l, index.recs + {r};
  }

  // ---- remove_file

  /** The test of `remove_file` on one record of the ip's list. */
  predicate Matches(r: Record, meant: Record) {
    SameStart(r.name, meant.name, |meant.name|) && r.port == meant.port && r.md5 == meant.md5
  }

  function Picked(list: seq<Record>, meant: Record): Option<Record> {
    if list == [] then None else if Matches(list[0], meant) then Some(list[0]) else Picked(list[1..], meant)
  }

  /** A record that passes comes before the one that is meant. */
  ghost predicate Masked(list: seq<Record>, meant: Record) {
    exists i :: 0 <= i < |list| && Matches(list[i], meant) && meant !in list[..i + 1]
  }

  lemma {:induction false} PickedIs(list: seq<Record>, meant: Record, i: nat)
    requires i < |list| && Matches(list[i], meant) && forall j :: 0 <= j < i ==> !Matches(list[j], meant)
    ensures Picked(list, meant) == Some(list[i])
  {
    if i > 0 {
      PickedIs(list[1..], meant, i - 1);
    }
  }

  lemma {:induction false} NonePicked(list: seq<Record>, meant: Record)
    requires forall j :: 0 <= j < |list| ==> !Matches(list[j], meant)
    ensures Picked(list, meant) == None
  {
    if list != [] {
      NonePicked(list[1..], meant);
    }
  }

  lemma {:induction false} MatchesItself(meant: Record)
    ensures Matches(meant, meant)
  {
    SameAsItself(meant.name, |meant.name|);
  }

  /** Another record is picked if and only if one that passes comes first. */
  lemma {:induction false} PickedIsExact(list: seq<Record>, meant: Record)
    ensures (Picked(list, meant) == if meant in list then Some(meant) else None) <==> !Masked(list, meant)
  {
    hide Matches;
    MatchesItself(meant);
    if list != [] {
      var rest := list[1..];
      PickedIsExact(rest, meant);
      MaskedRest(list, meant);
    }
  }

  lemma {:induction false} MaskedRest(list: seq<Record>, meant: Record)
    requires list != []
    ensures Masked(list, meant) <==> list[0] != meant && (Matches(list[0], meant) || Masked(list[1..], meant))
  {
    hide Matches;
    var rest := list[1..];
    forall i | 1 <= i < |list|
      ensures list[i] == rest[i - 1] && list[..i + 1] == [list[0]] + rest[..i]
    {}
    if Masked(list, meant) {
      var i :| 0 <= i < |list| && Matches(list[i], meant) && meant !in list[..i + 1];
      assert list[..i + 1][0] == list[0];
      if i > 0 {
        assert Matches(rest[i - 1], meant) && meant !in rest[..i];
      }
    }
    if list[0] != meant && Matches(list[0], meant) {
      assert list[..0 + 1] == [list[0]];
    }
    if list[0] != meant && Masked(rest, meant) {
      var i :| 0 <= i < |rest| && Matches(rest[i], meant) && meant !in rest[..i + 1];
      assert Matches(list[i + 1], meant) && list[..i + 2] == [list[0]] + rest[..i + 1];
    }
  }

  /** The records along a list of items. */
  ghost function RecordsAlong(list: seq<Ptr>, rec: map<Ptr, Record>): (rs: seq<Record>)
    requires forall p :: p in list ==> p in rec
    ensures |rs| == |list| && forall i :: 0 <= i < |rs| ==> rs[i] == rec[list[i]]
  {
    seq(|list|, i requires 0 <= i < |list| => rec[list[i]])
  }

  /** The records of one ip in the order of its list. */
  ghost function IpRecords(filehash: seq<byte> -> int, t: Tables, l: Layout, recs: set<Record>, ip: u32): seq<Record>
    requires Coherent(filehash, t, l, recs)
  {
    IpList(filehash, t, l, recs, ip);
    RecordsAlong(ListOf(l.ips, ip), l.info.rec)
  }

  lemma {:induction false} IpRecordsAre(filehash: seq<byte> -> int, t: Tables, l: Layout, recs: set<Record>, ip: u32)
    requires Coherent(filehash, t, l, recs)
    ensures forall r :: r in IpRecords(filehash, t, l, recs, ip) <==> r in recs && r.ip == ip
  {
    hide Coherent;
    IpList(filehash, t, l, recs, ip);
    var list := ListOf(l.ips, ip);
    forall i | 0 <= i < |list|
      ensures l.info.rec[list[i]] in recs && l.info.rec[list[i]].ip == ip
    {
      assert list[i] in list;
    }
    forall r | r in recs && r.ip == ip
      ensures r in IpRecords(filehash, t, l, recs, ip)
    {
      var i :| 0 <= i < |list| && list[i] == l.info.item[r];
      assert IpRecords(filehash, t, l, recs, ip)[i] == r;
    }
  }

  /** The loop of `remove_file`. */
  method FindInfoByStart(filehash: seq<byte> -> int, t: Tables, head: Ptr, meant: Record, ghost l: Layout, ghost recs: set<Record>, ghost list: seq<Ptr>)
    returns (info: Ptr)
    requires Coherent(filehash, t, l, recs) && Chain(t.ips.items, list) && head == First(list)
    requires forall p :: p in list ==> p in l.info.rec && l.info.rec[p] in recs && l.info.rec[p].ip == meant.ip
                                       && l.info.rec[p] in l.info.item && l.info.item[l.info.rec[p]] == p
    ensures var rs := RecordsAlong(list, l.info.rec);
      if info == NULL then Picked(rs, meant) == None else info in list && Picked(rs, meant) == Some(l.info.rec[info])
  {
    hide Coherent, Chain, ReadInfo, SameStart;
    info := head;
    ghost var i, rs := 0, RecordsAlong(list, l.info.rec);
    EmptyChain(t.ips.items, list);
    while info != NULL
      invariant 0 <= i <= |list| && info == (if i == |list| then NULL else list[i])
      invariant info == NULL <==> i == |list|
      invariant forall j :: 0 <= j < i ==> !Matches(rs[j], meant)
      decreases |list| - i
    {
      Neighbours(t.ips.items, list, i);
      assert list[i] in list;
      ReadInfoIsRecord(filehash, t, l, recs, l.info.rec[info]);
      var (name, _, port, md5) := ReadInfo(t, info);
      if SameStart(name, meant.name, |meant.name|) && port == meant.port && md5 == meant.md5 {
        PickedIs(rs, meant, i);
        return;
      }
      info, i := t.ips.items[info].next, i + 1;
    }
    NonePicked(rs, meant);
  }

  /** `remove_file` removes the first record in the ip's list that has the port and the md5 and
      whose name `str` begins; it does what it is meant to if and only if none comes before the
      record it is given. */
  method RemoveFile(index: Index, ip: u32, port: u16, str: Name, md5: Md5)
    requires index.Valid()
    modifies index
    ensures index.Valid()
    ensures var list, meant := old(IpRecords(index.filehash, index.t, index.l, index.recs, ip)), Record(str, md5, ip, port);
      && index.recs == (match Picked(list, meant) case None => old(index.recs) case Some(r) => old(index.recs) - {r})
      && (index.recs == old(index.recs) - {meant} <==> !Masked(list, meant))
  {
    hide Good, Covers, Partners, SameStart, Masked, Coherent;
    IpRecordsAre(index.filehash, index.t, index.l, index.recs, ip);
    IpList(index.filehash, index.t, index.l, index.recs, ip);
    ghost var list := ListOf(index.l.ips, ip);
    var meant := Record(str, md5, ip, port);
    PickedIsExact(RecordsAlong(list, index.l.info.rec), meant);
    IpTableIsGood(index.filehash, index.t, index.l, index.recs);
    var entry := Find(IpHash, index.t.ips, ip, index.l.ips);
    if entry == NULL {
      return;
    }
    var info := FindInfoByStart(index.filehash, index.t, index.t.ips.keys[entry].data.list, meant, index.l, index.recs, list);
    if info == NULL {
      return;
    }
    ghost var r := index.l.info.rec[info];
    var t;
    ghost var l;
    t, l := RemoveRecord(index.filehash, index.t, info, entry, index.l, index.recs, r);
    index.t, index.l, index.recs := t, l, index.recs - {r};
  }

  lemma {:induction false} IpTableIsGood(filehash: seq<byte> -> int, t: Tables, l: Layout, recs: set<Record>)
    requires Coherent(filehash, t, l, recs)
    ensures Good(IpHash, t.ips, l.ips)
  {}

  // ---- runs

  /** A test of one of the two records may come across the other. */
  predicate Meet(filehash: seq<byte> -> int, a: Record, b: Record) {
    filehash(a.name) == filehash(b.name) || (a.ip == b.ip && a.port == b.port && a.md5 == b.md5)
  }

  /** No name begins another in its bucket, or one of the same port and md5 in the list of an ip. */
  ghost predicate ToldApart(filehash: seq<byte> -> int, all: set<Record>) {
    forall a, b :: a in all && b in all && b.name <= a.name && Meet(filehash, a, b) ==> a.name == b.name
  }

  ghost predicate Within(op: Op, all: set<Record>) {
    op.RemoveAll? || op.r in all
  }

  lemma {:induction false} NotShadowed(filehash: seq<byte> -> int, t: Tables, l: Layout, recs: set<Record>, all: set<Record>, meant: Record)
    requires Coherent(filehash, t, l, recs) && ToldApart(filehash, all) && recs <= all && meant in all
    ensures !Shadowed(Bucket(filehash, t, l, recs, meant.name), meant.name, |meant.name|)
  {
    hide Good, Covers, Partners;
    var str := meant.name;
    var names := Bucket(filehash, t, l, recs, str);
    BucketFacts(filehash, t, l, recs, str);
    forall i | 0 <= i < |names| && SameStart(names[i], str, |str|)
      ensures str in names[..i + 1]
    {
      StartsWith(names[i], str);
      NodeHasRecord(filehash, t, l, recs, names[i]);
      assert names[..i + 1][i] == names[i];
    }
  }

  lemma {:induction false} NodeHasRecord(filehash: seq<byte> -> int, t: Tables, l: Layout, recs: set<Record>, name: Name)
    requires Coherent(filehash, t, l, recs) && name in l.names.nodes
    ensures exists r :: r in recs && r.name == name
  {
    hide Good, Covers, Partners;
    NameList(filehash, t, l, recs, name);
    NodeFacts(filehash, t.names, l.names, name);
    assert l.names.lists[name][0] in l.names.lists[name];
  }

  lemma {:induction false} NotMasked(filehash: seq<byte> -> int, list: seq<Record>, recs: set<Record>, all: set<Record>, meant: Record)
    requires ToldApart(filehash, all) && meant in all && recs <= all
    requires forall r :: r in list ==> r in recs && r.ip == meant.ip
    ensures !Masked(list, meant)
  {
    forall i | 0 <= i < |list| && Matches(list[i], meant)
      ensures meant in list[..i + 1]
    {
      assert list[i] in list;
      StartsWith(list[i].name, meant.name);
      assert list[..i + 1][i] == meant;
    }
  }

  /** Where names are told apart, one operation acts as it is meant to. */
  method Apply(index: Index, op: Op, ghost all: set<Record>)
    requires index.Valid() && ToldApart(index.filehash, all) && index.recs <= all && Within(op, all)
    modifies index
    ensures index.Valid() && index.recs == Applied(old(index.recs), op) && index.recs <= all
  {
    hide Coherent, ToldApart, Shadowed, Masked, Picked, SameStart, Resolved;
    match op {
      case Insert(r) =>
        NotShadowed(index.filehash, index.t, index.l, index.recs, all, r);
        InsertFile(index, r.name, r.md5, r.ip, r.port);
      case Remove(r) =>
        IpRecordsAre(index.filehash, index.t, index.l, index.recs, r.ip);
        NotMasked(index.filehash, IpRecords(index.filehash, index.t, index.l, index.recs, r.ip), index.recs, all, r);
        RemoveFile(index, r.ip, r.port, r.name, r.md5);
      case RemoveAll(ip, port) =>
        index.RemoveAllFile(ip, port);
    }
  }

  /** And any run of the operations acts as the same run on a set. */
  method Run(index: Index, ops: seq<Op>, ghost all: set<Record>)
    requires index.Valid() && ToldApart(index.filehash, all) && index.recs <= all
    requires forall op :: op in ops ==> Within(op, all)
    modifies index
    ensures index.Valid() && index.recs == RecordsAfter(old(index.recs), ops)
  {
    hide Coherent, ToldApart, Applied;
    for n := 0 to |ops|
      invariant index.Valid() && index.recs == RecordsAfter(old(index.recs), ops[..n]) && index.recs <= all
    {
      assert ops[..n + 1][..n] == ops[..n];
      assert ops[n] in ops;
      Apply(index, ops[n], all);
    }
    assert ops[..|ops|] == ops;
  }
}
