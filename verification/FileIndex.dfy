/** The superpeer's index of shared files (src/client/hashtable.c): the same records threaded
    through a name table, an ip table and an md5 table, with pointers from each of a record's
    three items to the others. It behaves as one set of records. Names are compared whole here;
    `NameTests` has the comparisons of the code. */
module FileIndex {
  import opened Common
  import opened Memory
  import opened ChainedTable

  const HASH_PRIME_NUMBER_FILE := 30011

  const HASH_PRIME_NUMBER_PEER := 211

  /** `addr_node`: the md5 field points at the md5 node. */
  datatype AddrData = AddrData(ip: u32, port: u16, md5: Ptr)

  /** `file_info`: the file node, the `addr_node` and the `md5_info` of the same record. */
  datatype InfoData = InfoData(file: Ptr, addr: Ptr, md5Info: Ptr)

  /** `md5_info`: the `file_info` of the same record. */
  datatype Md5Data = Md5Data(info: Ptr)

  function IpHash(ip: u32): int {
    ip % HASH_PRIME_NUMBER_PEER
  }

  /** Which item stands for each record in one table, and back. */
  datatype Bijection = Bijection(item: map<Record, Ptr>, rec: map<Ptr, Record>)

  /** The live items of a table stand one for one for the records, each filed under its key. */
  ghost predicate Covers<K>(recs: set<Record>, key: Record -> K, b: Bijection, s: Shape<K>) {
    && b.item.Keys == recs && b.rec.Keys == s.owner.Keys
    && (forall r :: r in recs ==> b.item[r] in b.rec && b.rec[b.item[r]] == r)
    && (forall p :: p in b.rec ==> b.rec[p] in recs && b.item[b.rec[p]] == p && s.owner[p] == key(b.rec[p]))
  }

  ghost function With(b: Bijection, r: Record, p: Ptr): Bijection {
    Bijection(b.item[r := p], b.rec[p := r])
  }

  ghost function Minus(b: Bijection, r: Record): Bijection
    requires r in b.item
  {
    Bijection(b.item - {r}, b.rec - {b.item[r]})
  }

  lemma CoversAdd<K>(recs: set<Record>, key: Record -> K, b: Bijection, s: Shape<K>, r: Record, p: Ptr, s': Shape<K>)
    requires Covers(recs, key, b, s) && r !in recs && p !in s.owner
    requires s'.owner == s.owner[p := key(r)]
    ensures Covers(recs + {r}, key, With(b, r, p), s')
  {
  }

  lemma CoversRemove<K>(recs: set<Record>, key: Record -> K, b: Bijection, s: Shape<K>, r: Record, s': Shape<K>)
    requires Covers(recs, key, b, s) && r in recs
    requires s'.owner == s.owner - {b.item[r]}
    ensures Covers(recs - {r}, key, Minus(b, r), s')
  {
  }

  function NameOf(r: Record): seq<byte> {
    r.name
  }

  function Md5Of(r: Record): seq<byte> {
    r.md5
  }

  function IpOf(r: Record): u32 {
    r.ip
  }

  datatype Tables = Tables(names: Table<seq<byte>, AddrData>, ips: Table<u32, InfoData>, md5s: Table<seq<byte>, Md5Data>)

  /** The ghost side of an index: the shape of each table and the items of each record. */
  datatype Layout = Layout(names: Shape<seq<byte>>, ips: Shape<u32>, md5s: Shape<seq<byte>>,
                           addr: Bijection, info: Bijection, md5Info: Bijection)

  /** Every back pointer of the record `r` lands on its own partner. */
  ghost predicate Partners(t: Tables, l: Layout, r: Record) {
    && r in l.addr.item && r in l.info.item && r in l.md5Info.item && r.name in l.names.nodes && r.md5 in l.md5s.nodes
    && var a, i, m := l.addr.item[r], l.info.item[r], l.md5Info.item[r];
    && a in t.names.items && t.names.items[a].data == AddrData(r.ip, r.port, l.md5s.nodes[r.md5])
    && i in t.ips.items && t.ips.items[i].data == InfoData(l.names.nodes[r.name], a, m)
    && m in t.md5s.items && t.md5s.items[m].data == Md5Data(i)
  }

  ghost predicate AllGood(filehash: seq<byte> -> int, t: Tables, l: Layout) {
    Good(filehash, t.names, l.names) && Good(IpHash, t.ips, l.ips) && Good(filehash, t.md5s, l.md5s)
  }

  ghost predicate AllCovered(l: Layout, recs: set<Record>) {
    Covers(recs, NameOf, l.addr, l.names) && Covers(recs, IpOf, l.info, l.ips) && Covers(recs, Md5Of, l.md5Info, l.md5s)
  }

  /** The tables hold exactly the records `recs`. */
  ghost predicate Coherent(filehash: seq<byte> -> int, t: Tables, l: Layout, recs: set<Record>) {
    && AllGood(filehash, t, l)
    && AllCovered(l, recs)
    && forall r :: r in recs ==> Partners(t, l, r)
  }

  /** Writing the data of a live item leaves the links alone. */
  lemma SetDataIsGood<K(!new), D>(hash: K -> int, t: Table<K, D>, s: Shape<K>, p: Ptr, d: D)
    requires Good(hash, t, s) && p in t.items
    ensures Good(hash, t.(items := SetData(t.items, p, d)), s)
  {
    hide GoodKeys, GoodChains;
    forall k | k in s.lists
      ensures Chain(SetData(t.items, p, d), s.lists[k])
    {
      ChainKept(t.items, SetData(t.items, p, d), s.lists[k]);
    }
  }

  /** Records of one name, ip or md5 are exactly those whose item is in that key's list. */
  lemma ListedRecords<K(!new), D>(hash: K -> int, t: Table<K, D>, s: Shape<K>, recs: set<Record>, key: Record -> K, b: Bijection, k: K)
    requires Good(hash, t, s) && Covers(recs, key, b, s)
    ensures (k in s.nodes <==> k in s.lists) && b.item.Keys == recs
    ensures k in s.lists ==> forall p :: p in s.lists[k] ==> p in t.items && p in b.rec && b.rec[p] in recs && key(b.rec[p]) == k && b.item[b.rec[p]] == p
    ensures forall r :: r in recs && key(r) == k ==> k in s.lists && b.item[r] in s.lists[k] && b.item[r] in b.rec && b.rec[b.item[r]] == r
  {
    hide Good;
    SameKeySets(hash, t, s);
  }

  /** Every record has a live item under a live node, and no item is shared. */
  lemma CoveredKeys<K(!new), D>(hash: K -> int, t: Table<K, D>, s: Shape<K>, recs: set<Record>, key: Record -> K, b: Bijection)
    requires Good(hash, t, s) && Covers(recs, key, b, s)
    ensures b.item.Keys == recs
    ensures forall r :: r in recs ==> b.item[r] in t.items && b.item[r] in s.owner && s.owner[b.item[r]] == key(r) && key(r) in s.nodes
    ensures forall q, r :: q in recs && r in recs && b.item[q] == b.item[r] ==> q == r
  {
    hide Good;
    SameKeySets(hash, t, s);
    forall q, r | q in recs && r in recs && b.item[q] == b.item[r]
      ensures q == r
    {
      assert b.rec[b.item[q]] == q;
    }
  }

  /** Is there an item with this address and md5 in an `addr_node` list? */
  method HasAddr(addrs: Pool<AddrData>, md5Nodes: Pool<Entry<seq<byte>>>, head: Ptr, ip: u32, port: u16, md5: Md5, ghost list: seq<Ptr>)
    returns (found: bool)
    requires Chain(addrs, list) && head == First(list)
    requires forall p :: p in list ==> p in addrs && addrs[p].data.md5 in md5Nodes
    ensures found <==> exists p :: p in list && addrs[p].data.ip == ip && addrs[p].data.port == port
                                   && md5Nodes[addrs[p].data.md5].data.key == md5
  {
    var it := head;
    ghost var i := 0;
    EmptyChain(addrs, list);
    while it != NULL
      invariant 0 <= i <= |list| && it == (if i == |list| then NULL else list[i])
      invariant it == NULL <==> i == |list|
      invariant forall j :: 0 <= j < i ==> var p := list[j];
                  !(addrs[p].data.ip == ip && addrs[p].data.port == port && md5Nodes[addrs[p].data.md5].data.key == md5)
      decreases |list| - i
    {
      Neighbours(addrs, list, i);
      if addrs[it].data.ip == ip && addrs[it].data.port == port {
        if md5Nodes[addrs[it].data.md5].data.key == md5 {
          return true;
        }
      }
      it, i := addrs[it].next, i + 1;
    }
    return false;
  }

  /** Filing under a key adds its node if it had none and moves no other node. */
  lemma FiledNodes<K(!new), D>(hash: K -> int, t: Table<K, D>, s: Shape<K>, u: Table<K, D>, key: K, entry: Ptr, p: Ptr, d: D)
    requires Good(hash, t, s) && OneMore(hash, t, s, u, key, entry, p, d)
    ensures Filed(hash, s, key, entry, p).nodes == s.nodes[key := entry] && (key in s.nodes ==> s.nodes[key] == entry)
    ensures Filed(hash, s, key, entry, p).owner == s.owner[p := key]
    ensures p !in s.owner && p !in t.items && u.items.Keys == t.items.Keys + {p} && u.items[p].data == d && SameData(t.items, u.items)
    ensures Good(hash, u, Filed(hash, s, key, entry, p))
  {
    hide Good;
    SameKeySets(hash, t, s);
  }

  /** The pointers of all records, old and new, after the new record's items are filed. */
  lemma InsertPartners(t: Tables, l: Layout, recs: set<Record>, r: Record, v: Tables, k: Layout, file: Ptr, addr: Ptr, info: Ptr, md5Node: Ptr, md5Info: Ptr)
    requires forall q :: q in recs ==> Partners(t, l, q)
    requires r !in recs && addr !in t.names.items && info !in t.ips.items && md5Info !in t.md5s.items
    requires SameData(t.names.items, v.names.items) && v.names.items.Keys == t.names.items.Keys + {addr}
    requires SameData(t.ips.items, v.ips.items) && v.ips.items.Keys == t.ips.items.Keys + {info}
    requires SameData(t.md5s.items, v.md5s.items) && v.md5s.items.Keys == t.md5s.items.Keys + {md5Info}
    requires v.names.items[addr].data == AddrData(r.ip, r.port, md5Node)
    requires v.ips.items[info].data == InfoData(file, addr, md5Info)
    requires v.md5s.items[md5Info].data == Md5Data(info)
    requires k.names.nodes == l.names.nodes[r.name := file] && (r.name in l.names.nodes ==> l.names.nodes[r.name] == file)
    requires k.md5s.nodes == l.md5s.nodes[r.md5 := md5Node] && (r.md5 in l.md5s.nodes ==> l.md5s.nodes[r.md5] == md5Node)
    requires k.addr == With(l.addr, r, addr) && k.info == With(l.info, r, info) && k.md5Info == With(l.md5Info, r, md5Info)
    ensures forall q :: q in recs + {r} ==> Partners(v, k, q)
  {
    forall q | q in recs
      ensures Partners(v, k, q)
    {
      assert Partners(t, l, q);
    }
  }

  /** One table of an insertion: file the item, then fill in its data. */
  ghost predicate Inserted<K(!new), D>(hash: K -> int, t: Table<K, D>, s: Shape<K>, recs: set<Record>, key: Record -> K, b: Bijection, r: Record,
                                    v: Table<K, D>, s': Shape<K>, entry: Ptr, p: Ptr, d: D)
  {
    && Good(hash, v, s') && Covers(recs + {r}, key, With(b, r, p), s')
    && s'.nodes == s.nodes[key(r) := entry] && (key(r) in s.nodes ==> s.nodes[key(r)] == entry)
    && p !in t.items && v.items.Keys == t.items.Keys + {p} && v.items[p].data == d && SameData(t.items, v.items)
  }

  lemma TableGrows<K(!new), D>(hash: K -> int, t: Table<K, D>, s: Shape<K>, recs: set<Record>, key: Record -> K, b: Bijection, r: Record,
                               u: Table<K, D>, entry: Ptr, p: Ptr, d: D, d': D)
    requires Good(hash, t, s) && Covers(recs, key, b, s) && r !in recs
    requires OneMore(hash, t, s, u, key(r), entry, p, d)
    ensures Inserted(hash, t, s, recs, key, b, r, u, Filed(hash, s, key(r), entry, p), entry, p, d)
    ensures Inserted(hash, t, s, recs, key, b, r, u.(items := SetData(u.items, p, d')), Filed(hash, s, key(r), entry, p), entry, p, d')
  {
    hide Good, Covers;
    FiledNodes(hash, t, s, u, key(r), entry, p, d);
    SetDataIsGood(hash, u, Filed(hash, s, key(r), entry, p), p, d');
    CoversAdd(recs, key, b, s, r, p, Filed(hash, s, key(r), entry, p));
  }

  lemma InsertIsCoherent(filehash: seq<byte> -> int, t: Tables, l: Layout, recs: set<Record>, r: Record, v: Tables, k: Layout,
                         file: Ptr, addr: Ptr, ipNode: Ptr, info: Ptr, md5Node: Ptr, md5Info: Ptr)
    requires Coherent(filehash, t, l, recs) && r !in recs
    requires Inserted(filehash, t.names, l.names, recs, NameOf, l.addr, r, v.names, k.names, file, addr, AddrData(r.ip, r.port, md5Node))
    requires Inserted(IpHash, t.ips, l.ips, recs, IpOf, l.info, r, v.ips, k.ips, ipNode, info, InfoData(file, addr, md5Info))
    requires Inserted(filehash, t.md5s, l.md5s, recs, Md5Of, l.md5Info, r, v.md5s, k.md5s, md5Node, md5Info, Md5Data(info))
    requires k.addr == With(l.addr, r, addr) && k.info == With(l.info, r, info) && k.md5Info == With(l.md5Info, r, md5Info)
    ensures Coherent(filehash, v, k, recs + {r}) && exists s :: Coherent(filehash, v, s, recs + {r})
  {
    hide Good, Covers, Partners, With;
    InsertPartners(t, l, recs, r, v, k, file, addr, info, md5Node, md5Info);
  }

  // ---- removal

  /** One table of a removal. */
  ghost predicate Shrunk<K(!new), D>(hash: K -> int, t: Table<K, D>, recs: set<Record>, key: Record -> K, b: Bijection, r: Record,
                                     v: Table<K, D>, s': Shape<K>)
  {
    && r in b.item && Good(hash, v, s') && Covers(recs - {r}, key, Minus(b, r), s')
    && OneLess(t.items, v.items, b.item[r])
  }

  lemma TableShrinks<K(!new), D>(hash: K -> int, t: Table<K, D>, s: Shape<K>, recs: set<Record>, key: Record -> K, b: Bijection, r: Record,
                                 u: Table<K, D>)
    requires Good(hash, t, s) && Covers(recs, key, b, s) && r in recs && r in b.item
    requires var p := b.item[r]; p in s.owner && (OwnerFacts(hash, t, s, p); Good(hash, u, Unfiled(hash, s, p)))
    requires u.items.Keys == t.items.Keys - {b.item[r]} && SameData(t.items, u.items)
    ensures (OwnerFacts(hash, t, s, b.item[r]); Shrunk(hash, t, recs, key, b, r, u, Unfiled(hash, s, b.item[r])))
  {
    hide Good, Covers;
    OwnerFacts(hash, t, s, b.item[r]);
    CoversRemove(recs, key, b, s, r, Unfiled(hash, s, b.item[r]));
  }

  /** The item of `r` is no other record's, and the nodes of the other records stay. */
  ghost predicate Spared<K>(recs: set<Record>, r: Record, key: Record -> K, b: Bijection, s: Shape<K>, s': Shape<K>) {
    && r in recs && b.item.Keys == recs
    && forall q :: q in recs && q != r ==>
         && b.item[q] != b.item[r]
         && key(q) in s'.nodes && key(q) in s.nodes && s'.nodes[key(q)] == s.nodes[key(q)]
  }

  lemma ShrunkSpares<K(!new), D>(hash: K -> int, t: Table<K, D>, s: Shape<K>, recs: set<Record>, key: Record -> K, b: Bijection, r: Record,
                                 v: Table<K, D>, s': Shape<K>)
    requires Good(hash, t, s) && Covers(recs, key, b, s) && r in recs && Shrunk(hash, t, recs, key, b, r, v, s')
    requires forall n :: n in s'.nodes ==> n in s.nodes && s'.nodes[n] == s.nodes[n]
    ensures Spared(recs, r, key, b, s, s')
  {
    hide Good;
    CoveredKeys(hash, t, s, recs, key, b);
    CoveredKeys(hash, v, s', recs - {r}, key, Minus(b, r));
    forall q | q in recs && q != r
      ensures key(q) in s'.nodes
    {
      assert q in recs - {r};
    }
  }

  ghost predicate OneLess<D>(t: Pool<D>, v: Pool<D>, p: Ptr) {
    v.Keys == t.Keys - {p} && SameData(t, v)
  }

  /** The pointers of a remaining record. */
  lemma RemovePartner(t: Tables, l: Layout, r: Record, v: Tables, k: Layout, q: Record)
    requires Partners(t, l, q) && Partners(t, l, r) && q != r
    requires l.addr.item[q] != l.addr.item[r] && l.info.item[q] != l.info.item[r] && l.md5Info.item[q] != l.md5Info.item[r]
    requires q.name in k.names.nodes && k.names.nodes[q.name] == l.names.nodes[q.name]
    requires q.md5 in k.md5s.nodes && k.md5s.nodes[q.md5] == l.md5s.nodes[q.md5]
    requires OneLess(t.names.items, v.names.items, l.addr.item[r]) && OneLess(t.ips.items, v.ips.items, l.info.item[r])
    requires OneLess(t.md5s.items, v.md5s.items, l.md5Info.item[r])
    requires k.addr == Minus(l.addr, r) && k.info == Minus(l.info, r) && k.md5Info == Minus(l.md5Info, r)
    ensures Partners(v, k, q)
  {
  }

  /** The pointers of the remaining records. */
  lemma RemovePartners(t: Tables, l: Layout, recs: set<Record>, r: Record, v: Tables, k: Layout)
    requires forall q :: q in recs ==> Partners(t, l, q)
    requires Spared(recs, r, NameOf, l.addr, l.names, k.names) && Spared(recs, r, IpOf, l.info, l.ips, k.ips)
    requires Spared(recs, r, Md5Of, l.md5Info, l.md5s, k.md5s)
    requires OneLess(t.names.items, v.names.items, l.addr.item[r]) && OneLess(t.ips.items, v.ips.items, l.info.item[r])
    requires OneLess(t.md5s.items, v.md5s.items, l.md5Info.item[r])
    requires k.addr == Minus(l.addr, r) && k.info == Minus(l.info, r) && k.md5Info == Minus(l.md5Info, r)
    ensures forall q :: q in recs - {r} ==> Partners(v, k, q)
  {
    hide OneLess, Minus;
    forall q | q in recs && q != r
      ensures Partners(v, k, q)
    {
      assert Partners(t, l, q) && Partners(t, l, r);
      assert NameOf(q) == q.name && Md5Of(q) == q.md5;
      RemovePartner(t, l, r, v, k, q);
    }
  }

  lemma RemoveIsCoherent(filehash: seq<byte> -> int, t: Tables, l: Layout, recs: set<Record>, r: Record, v: Tables, k: Layout)
    requires Coherent(filehash, t, l, recs) && r in recs
    requires Shrunk(filehash, t.names, recs, NameOf, l.addr, r, v.names, k.names)
    requires Shrunk(IpHash, t.ips, recs, IpOf, l.info, r, v.ips, k.ips)
    requires Shrunk(filehash, t.md5s, recs, Md5Of, l.md5Info, r, v.md5s, k.md5s)
    requires forall n :: n in k.names.nodes ==> n in l.names.nodes && k.names.nodes[n] == l.names.nodes[n]
    requires forall n :: n in k.ips.nodes ==> n in l.ips.nodes && k.ips.nodes[n] == l.ips.nodes[n]
    requires forall n :: n in k.md5s.nodes ==> n in l.md5s.nodes && k.md5s.nodes[n] == l.md5s.nodes[n]
    requires k.addr == Minus(l.addr, r) && k.info == Minus(l.info, r) && k.md5Info == Minus(l.md5Info, r)
    ensures Coherent(filehash, v, k, recs - {r}) && exists s :: Coherent(filehash, v, s, recs - {r})
  {
    hide Good, Covers, Partners, Minus, OneLess, Spared;
    ShrunkSpares(filehash, t.names, l.names, recs, NameOf, l.addr, r, v.names, k.names);
    ShrunkSpares(IpHash, t.ips, l.ips, recs, IpOf, l.info, r, v.ips, k.ips);
    ShrunkSpares(filehash, t.md5s, l.md5s, recs, Md5Of, l.md5Info, r, v.md5s, k.md5s);
    RemovePartners(t, l, recs, r, v, k);
  }

  /** What a coherent index says about one record: its items are live and filed where they should be. */
  lemma RecordFacts(filehash: seq<byte> -> int, t: Tables, l: Layout, recs: set<Record>, r: Record)
    requires Coherent(filehash, t, l, recs) && r in recs
    ensures Partners(t, l, r)
    ensures l.addr.item[r] in l.names.owner && l.names.owner[l.addr.item[r]] == r.name
    ensures l.info.item[r] in l.ips.owner && l.ips.owner[l.info.item[r]] == r.ip && r.ip in l.ips.nodes
    ensures l.md5Info.item[r] in l.md5s.owner && l.md5s.owner[l.md5Info.item[r]] == r.md5
  {
    hide Good, Covers, Partners;
    CoveredKeys(filehash, t.names, l.names, recs, NameOf, l.addr);
    CoveredKeys(IpHash, t.ips, l.ips, recs, IpOf, l.info);
    CoveredKeys(filehash, t.md5s, l.md5s, recs, Md5Of, l.md5Info);
  }

  /** `remove_md5_info`, `remove_addr_node` and `remove_file_info` on the items of one record. */
  method RemoveRecord(filehash: seq<byte> -> int, t: Tables, info: Ptr, entry: Ptr, ghost l: Layout, ghost recs: set<Record>, ghost r: Record)
    returns (v: Tables, ghost k: Layout)
    requires Coherent(filehash, t, l, recs) && r in recs && r in l.info.item && l.info.item[r] == info
    requires r.ip in l.ips.nodes && entry == l.ips.nodes[r.ip]
    ensures Coherent(filehash, v, k, recs - {r}) && exists s :: Coherent(filehash, v, s, recs - {r})
    ensures k.info == Minus(l.info, r) && (OwnerFacts(IpHash, t.ips, l.ips, info); info in l.ips.owner && k.ips == Unfiled(IpHash, l.ips, info))
  {
    hide Good, Covers, Shrunk, Unfiled, Minus;
    RecordFacts(filehash, t, l, recs, r);
    var i := t.ips.items[info].data;
    var a := t.names.items[i.addr].data;
    OwnerFacts(filehash, t.md5s, l.md5s, i.md5Info);
    OwnerFacts(filehash, t.names, l.names, i.addr);
    OwnerFacts(IpHash, t.ips, l.ips, info);
    var md5s := RemoveItem(filehash, t.md5s, i.md5Info, a.md5, l.md5s);
    var names := RemoveItem(filehash, t.names, i.addr, i.file, l.names);
    var ips := RemoveItem(IpHash, t.ips, info, entry, l.ips);
    v := Tables(names, ips, md5s);
    k := Layout(Unfiled(filehash, l.names, i.addr), Unfiled(IpHash, l.ips, info), Unfiled(filehash, l.md5s, i.md5Info),
                Minus(l.addr, r), Minus(l.info, r), Minus(l.md5Info, r));
    TableShrinks(filehash, t.names, l.names, recs, NameOf, l.addr, r, names);
    TableShrinks(IpHash, t.ips, l.ips, recs, IpOf, l.info, r, ips);
    TableShrinks(filehash, t.md5s, l.md5s, recs, Md5Of, l.md5Info, r, md5s);
    UnfiledNodes(filehash, l.names, i.addr);
    UnfiledNodes(IpHash, l.ips, info);
    UnfiledNodes(filehash, l.md5s, i.md5Info);
    RemoveIsCoherent(filehash, t, l, recs, r, v, k);
  }

  lemma UnfiledNodes<K>(hash: K -> int, s: Shape<K>, item: Ptr)
    requires item in s.owner && s.owner[item] in s.lists && item in s.lists[s.owner[item]]
    requires s.owner[item] in s.nodes && 0 <= hash(s.owner[item]) < |s.chains|
    requires s.nodes[s.owner[item]] in s.chains[hash(s.owner[item])]
    ensures forall n :: n in Unfiled(hash, s, item).nodes ==> n in s.nodes && Unfiled(hash, s, item).nodes[n] == s.nodes[n]
  {
  }

  /** The facts about one name's list that the walks rely on. */
  lemma NameList(filehash: seq<byte> -> int, t: Tables, l: Layout, recs: set<Record>, name: seq<byte>)
    requires Coherent(filehash, t, l, recs) && name in l.names.nodes
    ensures name in l.names.lists && l.names.nodes[name] in t.names.keys && t.names.keys[l.names.nodes[name]].data.key == name
    ensures t.names.keys[l.names.nodes[name]].data.list == First(l.names.lists[name])
    ensures Chain(t.names.items, l.names.lists[name])
    ensures forall p :: p in l.names.lists[name] ==>
              && p in l.addr.rec && l.addr.rec[p] in recs && l.addr.rec[p].name == name
              && l.addr.item[l.addr.rec[p]] == p && Partners(t, l, l.addr.rec[p])
    ensures l.addr.item.Keys == recs
    ensures forall r :: r in recs && r.name == name ==>
              l.addr.item[r] in l.names.lists[name] && l.addr.item[r] in l.addr.rec && l.addr.rec[l.addr.item[r]] == r
  {
    hide Good, Covers, Partners;
    NodeFacts(filehash, t.names, l.names, name);
    ListedRecords(filehash, t.names, l.names, recs, NameOf, l.addr, name);
    forall r | r in recs && r.name == name
      ensures l.addr.item[r] in l.names.lists[name] && l.addr.item[r] in l.addr.rec && l.addr.rec[l.addr.item[r]] == r
    {
      assert NameOf(r) == name;
    }
  }

  /** The facts about one ip's list that the walks rely on. */
  lemma IpList(filehash: seq<byte> -> int, t: Tables, l: Layout, recs: set<Record>, ip: u32)
    requires Coherent(filehash, t, l, recs)
    ensures l.info.item.Keys == recs && (ip in l.ips.nodes <==> ip in l.ips.lists)
    ensures ip in l.ips.nodes ==>
              && l.ips.nodes[ip] in t.ips.keys && t.ips.keys[l.ips.nodes[ip]].data.list == First(l.ips.lists[ip])
              && Chain(t.ips.items, l.ips.lists[ip])
              && forall p :: p in l.ips.lists[ip] ==>
                   && p in l.info.rec && l.info.rec[p] in recs && l.info.rec[p].ip == ip
                   && l.info.item[l.info.rec[p]] == p && Partners(t, l, l.info.rec[p])
    ensures forall r :: r in recs && r.ip == ip ==>
              ip in l.ips.lists && l.info.item[r] in l.ips.lists[ip] && l.info.item[r] in l.info.rec && l.info.rec[l.info.item[r]] == r
  {
    hide Good, Covers, Partners;
    if ip in l.ips.nodes {
      NodeFacts(IpHash, t.ips, l.ips, ip);
    }
    ListedRecords(IpHash, t.ips, l.ips, recs, IpOf, l.info, ip);
    forall r | r in recs && r.ip == ip
      ensures ip in l.ips.lists && l.info.item[r] in l.ips.lists[ip] && l.info.item[r] in l.info.rec && l.info.rec[l.info.item[r]] == r
    {
      assert IpOf(r) == ip;
    }
  }

  /** The facts about one md5's list that the walks rely on. */
  lemma Md5List(filehash: seq<byte> -> int, t: Tables, l: Layout, recs: set<Record>, md5: seq<byte>)
    requires Coherent(filehash, t, l, recs) && md5 in l.md5s.nodes
    ensures md5 in l.md5s.lists && l.md5s.nodes[md5] in t.md5s.keys
    ensures t.md5s.keys[l.md5s.nodes[md5]].data.list == First(l.md5s.lists[md5])
    ensures Chain(t.md5s.items, l.md5s.lists[md5])
    ensures forall p :: p in l.md5s.lists[md5] ==>
              && p in l.md5Info.rec && l.md5Info.rec[p] in recs && l.md5Info.rec[p].md5 == md5
              && l.md5Info.item[l.md5Info.rec[p]] == p && Partners(t, l, l.md5Info.rec[p])
    ensures l.md5Info.item.Keys == recs
    ensures forall r :: r in recs && r.md5 == md5 ==>
              l.md5Info.item[r] in l.md5s.lists[md5] && l.md5Info.item[r] in l.md5Info.rec && l.md5Info.rec[l.md5Info.item[r]] == r
  {
    hide Good, Covers, Partners;
    NodeFacts(filehash, t.md5s, l.md5s, md5);
    ListedRecords(filehash, t.md5s, l.md5s, recs, Md5Of, l.md5Info, md5);
    forall r | r in recs && r.md5 == md5
      ensures l.md5Info.item[r] in l.md5s.lists[md5] && l.md5Info.item[r] in l.md5Info.rec && l.md5Info.rec[l.md5Info.item[r]] == r
    {
      assert Md5Of(r) == md5;
    }
  }

  /** A live md5 node holds the md5 of every record that points at it. */
  lemma Md5NodeKeys(filehash: seq<byte> -> int, t: Tables, l: Layout, recs: set<Record>)
    requires Coherent(filehash, t, l, recs)
    ensures forall m :: m in l.md5s.nodes ==> l.md5s.nodes[m] in t.md5s.keys && t.md5s.keys[l.md5s.nodes[m]].data.key == m
    ensures forall n :: n in l.names.nodes ==> l.names.nodes[n] in t.names.keys && t.names.keys[l.names.nodes[n]].data.key == n
  {
    hide GoodKeys, Covers, Partners, GoodLists, GoodChains, Owned;
    forall m | m in l.md5s.nodes
      ensures l.md5s.nodes[m] in t.md5s.keys && t.md5s.keys[l.md5s.nodes[m]].data.key == m
    {
      NodeFacts(filehash, t.md5s, l.md5s, m);
    }
    forall n | n in l.names.nodes
      ensures l.names.nodes[n] in t.names.keys && t.names.keys[l.names.nodes[n]].data.key == n
    {
      NodeFacts(filehash, t.names, l.names, n);
    }
  }

  /** Does the list of `slot`, the node of the record's name, already hold the record? */
  method IsListed(filehash: seq<byte> -> int, t: Tables, slot: Ptr, r: Record, ghost l: Layout, ghost recs: set<Record>) returns (found: bool)
    requires Coherent(filehash, t, l, recs) && r.name in l.names.nodes && slot == l.names.nodes[r.name]
    ensures found <==> r in recs
  {
    hide Coherent;
    NameList(filehash, t, l, recs, r.name);
    Md5NodeKeys(filehash, t, l, recs);
    ghost var list := l.names.lists[r.name];
    found := HasAddr(t.names.items, t.md5s.keys, t.names.keys[slot].data.list, r.ip, r.port, r.md5, list);
    if found {
      ghost var p :| p in list && t.names.items[p].data.ip == r.ip && t.names.items[p].data.port == r.port
                     && t.md5s.keys[t.names.items[p].data.md5].data.key == r.md5;
      assert l.addr.rec[p] == r;
    }
  }

  lemma RecordHasName(filehash: seq<byte> -> int, t: Tables, l: Layout, recs: set<Record>, r: Record)
    requires Coherent(filehash, t, l, recs)
    ensures r in recs ==> r.name in l.names.nodes
  {
    hide Good, Covers;
  }

  /** The insertions into the three tables, then the back pointers that were not known before. */
  method AddRecord(filehash: seq<byte> -> int, t: Tables, slot: Ptr, r: Record, ghost l: Layout, ghost recs: set<Record>)
    returns (v: Tables, ghost k: Layout)
    requires Coherent(filehash, t, l, recs) && r !in recs
    requires 0 <= filehash(r.name) < |l.names.chains| && IsSlot(filehash, l.names, slot, r.name)
    requires slot != NULL ==> slot in t.names.keys && (t.names.keys[slot].data.key == r.name <==> r.name in l.names.nodes)
    requires slot == NULL ==> r.name !in l.names.nodes
    ensures Coherent(filehash, v, k, recs + {r}) && exists s :: Coherent(filehash, v, s, recs + {r})
  {
    hide Good, Covers, Partners, Inserted, Filed, With;
    var names, file, addr := InsertAt(filehash, t.names, slot, r.name, AddrData(r.ip, r.port, NULL), l.names);
    var ipSlot := FindSlot(IpHash, t.ips, r.ip, l.ips);
    var ips, ipNode, info := InsertAt(IpHash, t.ips, ipSlot, r.ip, InfoData(file, addr, NULL), l.ips);
    var md5Slot := FindSlot(filehash, t.md5s, r.md5, l.md5s);
    var md5s, md5Node, md5Info := InsertAt(filehash, t.md5s, md5Slot, r.md5, Md5Data(info), l.md5s);
    hide OneMore;
    TableGrows(filehash, t.names, l.names, recs, NameOf, l.addr, r, names, file, addr, AddrData(r.ip, r.port, NULL), AddrData(r.ip, r.port, md5Node));
    TableGrows(IpHash, t.ips, l.ips, recs, IpOf, l.info, r, ips, ipNode, info, InfoData(file, addr, NULL), InfoData(file, addr, md5Info));
    TableGrows(filehash, t.md5s, l.md5s, recs, Md5Of, l.md5Info, r, md5s, md5Node, md5Info, Md5Data(info), Md5Data(info));
    v := Tables(names.(items := SetData(names.items, addr, names.items[addr].data.(md5 := md5Node))),
                ips.(items := SetData(ips.items, info, ips.items[info].data.(md5Info := md5Info))), md5s);
    k := Layout(Filed(filehash, l.names, r.name, file, addr), Filed(IpHash, l.ips, r.ip, ipNode, info), Filed(filehash, l.md5s, r.md5, md5Node, md5Info),
                With(l.addr, r, addr), With(l.info, r, info), With(l.md5Info, r, md5Info));
    InsertIsCoherent(filehash, t, l, recs, r, v, k, file, addr, ipNode, info, md5Node, md5Info);
  }

  /** What the three pointers of a `file_info` lead to. */
  function ReadInfo(t: Tables, info: Ptr): (seq<byte>, u32, u16, seq<byte>)
    requires info in t.ips.items && t.ips.items[info].data.file in t.names.keys && t.ips.items[info].data.addr in t.names.items
    requires t.names.items[t.ips.items[info].data.addr].data.md5 in t.md5s.keys
  {
    var i := t.ips.items[info].data;
    var a := t.names.items[i.addr].data;
    (t.names.keys[i.file].data.key, a.ip, a.port, t.md5s.keys[a.md5].data.key)
  }

  /** They lead to the record itself. */
  lemma ReadInfoIsRecord(filehash: seq<byte> -> int, t: Tables, l: Layout, recs: set<Record>, r: Record)
    requires Coherent(filehash, t, l, recs) && r in recs && r in l.info.item
    ensures var info := l.info.item[r];
      && info in t.ips.items && t.ips.items[info].data.file in t.names.keys && t.ips.items[info].data.addr in t.names.items
      && t.names.items[t.ips.items[info].data.addr].data.md5 in t.md5s.keys
      && ReadInfo(t, info) == (r.name, r.ip, r.port, r.md5)
  {
    hide Good, Covers;
    Md5NodeKeys(filehash, t, l, recs);
    assert Partners(t, l, r);
  }

  /** The first `file_info` of an ip's list with this name, port and md5, or null. */
  method FindInfo(filehash: seq<byte> -> int, t: Tables, head: Ptr, r: Record, ghost l: Layout, ghost recs: set<Record>, ghost list: seq<Ptr>)
    returns (info: Ptr)
    requires Coherent(filehash, t, l, recs) && Chain(t.ips.items, list) && head == First(list)
    requires forall p :: p in list ==> p in l.info.rec && l.info.rec[p] in recs && l.info.rec[p].ip == r.ip
                                       && l.info.rec[p] in l.info.item && l.info.item[l.info.rec[p]] == p
    ensures info != NULL ==> info in list && l.info.rec[info] == r
    ensures info == NULL ==> forall p :: p in list ==> l.info.rec[p] != r
  {
    hide Coherent, Chain, ReadInfo;
    info := head;
    ghost var i := 0;
    EmptyChain(t.ips.items, list);
    while info != NULL
      invariant 0 <= i <= |list| && info == (if i == |list| then NULL else list[i])
      invariant info == NULL <==> i == |list|
      invariant forall j :: 0 <= j < i ==> l.info.rec[list[j]] != r
      decreases |list| - i
    {
      Neighbours(t.ips.items, list, i);
      assert list[i] in list;
      ReadInfoIsRecord(filehash, t, l, recs, l.info.rec[info]);
      var (name, _, port, md5) := ReadInfo(t, info);
      if name == r.name && port == r.port && md5 == r.md5 {
        break;
      }
      info, i := t.ips.items[info].next, i + 1;
    }
  }

  /** The file list of an ip, empty when the ip has no node. */
  ghost function ListOf(s: Shape<u32>, ip: u32): seq<Ptr> {
    if ip in s.lists then s.lists[ip] else []
  }

  /** Unlinking the item in the middle of an ip's list. */
  lemma UnfiledList(s: Shape<u32>, ip: u32, kept: seq<Ptr>, p: Ptr, rest: seq<Ptr>)
    requires p in s.owner && s.owner[p] == ip && ip in s.lists && s.lists[ip] == kept + [p] + rest && Distinct(s.lists[ip])
    requires ip in s.nodes && 0 <= IpHash(ip) < |s.chains| && s.nodes[ip] in s.chains[IpHash(ip)]
    ensures p in s.lists[ip] && ListOf(Unfiled(IpHash, s, p), ip) == kept + rest
    ensures ip in Unfiled(IpHash, s, p).nodes ==> Unfiled(IpHash, s, p).nodes[ip] == s.nodes[ip]
  {
    assert s.lists[ip][|kept|] == p;
    assert Without(s.lists[ip], |kept|) == kept + rest;
  }

  /** The records of `recs` that are not of (`ip`, `port`) or whose item is not in `done`. */
  ghost function Spare(recs: set<Record>, item: map<Record, Ptr>, ip: u32, port: u16, done: seq<Ptr>): set<Record>
    requires recs <= item.Keys
  {
    set r | r in recs && !(r.ip == ip && r.port == port && item[r] in done)
  }

  /** One step of the walk in `remove_all_file`. */
  method RemoveIfPort(filehash: seq<byte> -> int, t: Tables, info: Ptr, entry: Ptr, ip: u32, port: u16,
                      ghost l: Layout, ghost recs: set<Record>, ghost kept: seq<Ptr>, ghost rest: seq<Ptr>)
    returns (v: Tables, ghost k: Layout, ghost kept': seq<Ptr>, ghost removed: set<Record>)
    requires Coherent(filehash, t, l, recs) && ListOf(l.ips, ip) == kept + [info] + rest
    requires ip in l.ips.nodes && l.ips.nodes[ip] == entry
    ensures info in l.info.rec && l.info.rec[info] in recs && l.info.rec[info].ip == ip
    ensures removed == if l.info.rec[info].port == port then {l.info.rec[info]} else {}
    ensures Coherent(filehash, v, k, recs - removed) && ListOf(k.ips, ip) == kept' + rest
    ensures ip in k.ips.nodes ==> k.ips.nodes[ip] == entry
    ensures removed == {} ==> k == l
    ensures removed != {} ==> k.info == Minus(l.info, l.info.rec[info])
  {
    hide Good, Covers, Partners, Unfiled, Minus;
    IpList(filehash, t, l, recs, ip);
    assert (kept + [info] + rest)[|kept|] == info;
    assert recs - {} == recs;
    ghost var r := l.info.rec[info];
    ReadInfoIsRecord(filehash, t, l, recs, r);
    v, k, kept', removed := t, l, kept + [info], {};
    if t.names.items[t.ips.items[info].data.addr].data.port == port {
      RecordFacts(filehash, t, l, recs, r);
      OwnerFacts(IpHash, t.ips, l.ips, info);
      UnfiledList(l.ips, ip, kept, info, rest);
      v, k := RemoveRecord(filehash, t, info, entry, l, recs, r);
      kept', removed := kept, {r};
    }
  }

  /** Both maps give every record of `recs` the same item. */
  ghost predicate SameItems(recs: set<Record>, f: map<Record, Ptr>, g: map<Record, Ptr>) {
    forall r :: r in recs ==> r in f && r in g && f[r] == g[r]
  }

  lemma SpareStep(recs: set<Record>, l: Bijection, k: Bijection, ip: u32, port: u16, done: seq<Ptr>, p: Ptr, left: set<Record>, r: Record)
    requires recs <= l.item.Keys && left == Spare(recs, l.item, ip, port, done) && SameItems(left, k.item, l.item)
    requires forall q :: q in recs ==> l.item[q] in l.rec && l.rec[l.item[q]] == q
    requires r in left && r.ip == ip && k.item[r] == p
    ensures left - (if r.port == port then {r} else {}) == Spare(recs, l.item, ip, port, done + [p])
    ensures SameItems(left - {r}, Minus(k, r).item, l.item)
  {
    forall q | q in recs && l.item[q] == p
      ensures q == r
    {
      assert l.rec[l.item[q]] == q && l.rec[l.item[r]] == r;
    }
  }

  lemma StartSpare(recs: set<Record>, item: map<Record, Ptr>, ip: u32, port: u16)
    requires recs == item.Keys
    ensures Spare(recs, item, ip, port, []) == recs && SameItems(recs, item, item)
  {
  }

  lemma EndSpare(recs: set<Record>, item: map<Record, Ptr>, ip: u32, port: u16, list: seq<Ptr>)
    requires recs == item.Keys && forall r :: r in recs && r.ip == ip ==> item[r] in list
    ensures Spare(recs, item, ip, port, list) == set r | r in recs && !(r.ip == ip && r.port == port)
  {
  }

  /** The successor of the first pointer of `rest`. */
  method NextInfo(filehash: seq<byte> -> int, v: Tables, info: Ptr, ghost k: Layout, ghost left: set<Record>, ghost ip: u32,
                  ghost kept: seq<Ptr>, ghost rest: seq<Ptr>) returns (next: Ptr)
    requires Coherent(filehash, v, k, left) && ListOf(k.ips, ip) == kept + rest && rest != [] && info == rest[0]
    ensures next == First(rest[1..]) && (next == NULL <==> rest[1..] == [])
    ensures ip in k.ips.nodes && kept + rest == kept + [info] + rest[1..]
    ensures info in k.info.rec && k.info.rec[info] in left && k.info.rec[info].ip == ip && left <= k.info.item.Keys
    ensures k.info.item[k.info.rec[info]] == info
  {
    hide Coherent, Partners;
    IpList(filehash, v, k, left, ip);
    assert (kept + rest)[|kept|] == info;
    Neighbours(v.ips.items, kept + rest, |kept|);
    next := v.ips.items[info].next;
  }

  lemma ItemsDistinct(filehash: seq<byte> -> int, t: Tables, l: Layout, recs: set<Record>)
    requires Coherent(filehash, t, l, recs)
    ensures l.info.item.Keys == recs && forall q :: q in recs ==> l.info.item[q] in l.info.rec && l.info.rec[l.info.item[q]] == q
  {
    hide Good, Partners;
  }

  /** The walk of `remove_all_file`, which saves the successor before it frees a node. */
  method RemoveAllOf(filehash: seq<byte> -> int, t: Tables, entry: Ptr, ip: u32, port: u16, ghost l: Layout, ghost recs: set<Record>)
    returns (v: Tables, ghost k: Layout)
    requires Coherent(filehash, t, l, recs) && ip in l.ips.nodes && l.ips.nodes[ip] == entry
    ensures Coherent(filehash, v, k, set r | r in recs && !(r.ip == ip && r.port == port))
  {
    hide Coherent, Minus, SameItems, Chain, LinkedAt, Partners, Spare;
    IpList(filehash, t, l, recs, ip);
    ItemsDistinct(filehash, t, l, recs);
    ghost var done, kept, rest, left := [], [], l.ips.lists[ip], recs;
    StartSpare(recs, l.info.item, ip, port);
    EmptyChain(t.ips.items, rest);
    v, k := t, l;
    var info := t.ips.keys[entry].data.list;
    while info != NULL
      invariant done + rest == l.ips.lists[ip] && info == First(rest) && (info == NULL <==> rest == [])
      invariant Coherent(filehash, v, k, left) && ListOf(k.ips, ip) == kept + rest
      invariant ip in k.ips.nodes ==> k.ips.nodes[ip] == entry
      invariant left == Spare(recs, l.info.item, ip, port, done) && SameItems(left, k.info.item, l.info.item)
      decreases |rest|
    {
      var next;
      ghost var removed;
      next := NextInfo(filehash, v, info, k, left, ip, kept, rest);
      ghost var b := k.info;
      v, k, kept, removed := RemoveIfPort(filehash, v, info, entry, ip, port, k, left, kept, rest[1..]);
      SpareStep(recs, l.info, b, ip, port, done, info, left, b.rec[info]);
      assert left - {} == left;
      left, done, rest := left - removed, done + [info], rest[1..];
      info := next;
    }
    EndSpare(recs, l.info.item, ip, port, done);
  }

  class Index {
    const filehash: seq<byte> -> int
    var t: Tables
    ghost var l: Layout
    ghost var recs: set<Record>

    ghost predicate Valid()
      reads this
    {
      (forall s :: 0 <= filehash(s) < HASH_PRIME_NUMBER_FILE) && Coherent(filehash, t, l, recs)
    }

    /** `init_hashtable`. */
    constructor (filehash: seq<byte> -> int)
      requires forall s :: 0 <= filehash(s) < HASH_PRIME_NUMBER_FILE
      ensures Valid() && recs == {} && this.filehash == filehash
    {
      this.filehash := filehash;
      t := Tables(Empty(HASH_PRIME_NUMBER_FILE), Empty(HASH_PRIME_NUMBER_PEER), Empty(HASH_PRIME_NUMBER_FILE));
      var none := Bijection(map[], map[]);
      l := Layout(EmptyShape(HASH_PRIME_NUMBER_FILE), EmptyShape(HASH_PRIME_NUMBER_PEER), EmptyShape(HASH_PRIME_NUMBER_FILE), none, none, none);
      recs := {};
      EmptyIsGood<seq<byte>, AddrData>(filehash, HASH_PRIME_NUMBER_FILE);
      EmptyIsGood<u32, InfoData>(IpHash, HASH_PRIME_NUMBER_PEER);
      EmptyIsGood<seq<byte>, Md5Data>(filehash, HASH_PRIME_NUMBER_FILE);
    }

    /** Adds the record unless it is there already. */
    method InsertFile(name: Name, md5: Md5, ip: u32, port: u16)
      requires Valid()
      modifies this
      ensures Valid()
      ensures recs == old(recs) + {Record(name, md5, ip, port)}
    {
      hide Good, Covers, Partners;
      var r := Record(name, md5, ip, port);
      var slot := FindSlot(filehash, t.names, name, l.names);
      if slot != NULL && t.names.keys[slot].data.key == name {
        var found := IsListed(filehash, t, slot, r, l, recs);
        if found {
          assert recs == recs + {r};
          return;
        }
      }
      RecordHasName(filehash, t, l, recs, r);
      t, l := AddRecord(filehash, t, slot, r, l, recs);
      recs := recs + {r};
    }

    /** Removes the record if it is there. */
    method RemoveFile(ip: u32, port: u16, name: Name, md5: Md5)
      requires Valid()
      modifies this
      ensures Valid()
      ensures recs == old(recs) - {Record(name, md5, ip, port)}
    {
      hide Good, Covers, Partners;
      var r := Record(name, md5, ip, port);
      IpList(filehash, t, l, recs, ip);
      var entry := Find(IpHash, t.ips, ip, l.ips);
      if entry == NULL {
        assert r !in recs;
        return;
      }
      var info := FindInfo(filehash, t, t.ips.keys[entry].data.list, r, l, recs, l.ips.lists[ip]);
      if info == NULL {
        assert r !in recs;
        return;
      }
      t, l := RemoveRecord(filehash, t, info, entry, l, recs, r);
      recs := recs - {r};
    }

    /** Removes every record of one peer. */
    method RemoveAllFile(ip: u32, port: u16)
      requires Valid()
      modifies this
      ensures Valid()
      ensures recs == set r | r in old(recs) && !(r.ip == ip && r.port == port)
    {
      hide Good, Covers, Partners;
      IpList(filehash, t, l, recs, ip);
      var entry := Find(IpHash, t.ips, ip, l.ips);
      if entry == NULL {
        return;
      }
      t, l := RemoveAllOf(filehash, t, entry, ip, port, l, recs);
      recs := set r | r in recs && !(r.ip == ip && r.port == port);
    }

    /** `get_by_name`: the head of a well-linked list that enumerates the records of that name. */
    method GetByName(name: Name) returns (head: Ptr, ghost list: seq<Ptr>)
      requires Valid()
      ensures Chain(t.names.items, list) && head == First(list)
      ensures Enumerates(list, l.addr, set r | r in recs && r.name == name)
      ensures head == NULL <==> forall r :: r in recs ==> r.name != name
    {
      hide Good, Covers, Partners;
      var entry := Find(filehash, t.names, name, l.names);
      if entry == NULL {
        NoNode(filehash, t, l, recs, name);
        return NULL, [];
      }
      NameList(filehash, t, l, recs, name);
      head, list := t.names.keys[entry].data.list, l.names.lists[name];
      EmptyChain(t.names.items, list);
      NobodyEnumerated(list, l.addr, set r | r in recs && r.name == name);
    }

    /** `get_by_md5`. */
    method GetByMd5(md5: Md5) returns (head: Ptr, ghost list: seq<Ptr>)
      requires Valid()
      ensures Chain(t.md5s.items, list) && head == First(list)
      ensures Enumerates(list, l.md5Info, set r | r in recs && r.md5 == md5)
      ensures head == NULL <==> forall r :: r in recs ==> r.md5 != md5
    {
      hide Good, Covers, Partners;
      var entry := Find(filehash, t.md5s, md5, l.md5s);
      if entry == NULL {
        NoNode(filehash, t, l, recs, md5);
        return NULL, [];
      }
      Md5List(filehash, t, l, recs, md5);
      head, list := t.md5s.keys[entry].data.list, l.md5s.lists[md5];
      EmptyChain(t.md5s.items, list);
      NobodyEnumerated(list, l.md5Info, set r | r in recs && r.md5 == md5);
    }

    /** The results of a search by name, read off the list as the reply handler does. */
    method ResultsByName(name: Name) returns (results: seq<Record>)
      requires Valid()
      ensures Distinct(results)
      ensures forall r :: r in results <==> r in recs && r.name == name
    {
      hide Coherent, Chain, Enumerates, Distinct;
      var head;
      ghost var list;
      head, list := GetByName(name);
      results := WalkName(filehash, t, head, name, l, recs, list);
    }

    /** The results of a search by md5. */
    method ResultsByMd5(md5: Md5) returns (results: seq<Record>)
      requires Valid()
      ensures Distinct(results)
      ensures forall r :: r in results <==> r in recs && r.md5 == md5
    {
      hide Coherent, Chain, Enumerates, Distinct;
      var head;
      ghost var list;
      head, list := GetByMd5(md5);
      results := WalkMd5(filehash, t, head, md5, l, recs, list);
    }
  }

  method WalkName(filehash: seq<byte> -> int, t: Tables, head: Ptr, name: Name, ghost l: Layout, ghost recs: set<Record>, ghost list: seq<Ptr>)
    returns (results: seq<Record>)
    requires Coherent(filehash, t, l, recs) && Chain(t.names.items, list) && head == First(list)
    requires Enumerates(list, l.addr, set r | r in recs && r.name == name)
    ensures Distinct(results)
    ensures forall r :: r in results <==> r in recs && r.name == name
  {
    hide Coherent, Chain, Enumerates, Distinct;
    EmptyChain(t.names.items, list);
    results := [];
    var it := head;
    while it != NULL
      invariant |results| <= |list| && it == First(list[|results|..]) && (it == NULL <==> |results| == |list|)
      invariant ReadOff(results, list, l.addr)
      decreases |list| - |results|
    {
      NameResult(filehash, t, l, recs, name, list, |results|);
      var a := t.names.items[it].data;
      results := results + [Record(name, t.md5s.keys[a.md5].data.key, a.ip, a.port)];
      it := t.names.items[it].next;
    }
    AllReadOff(t.names.items, results, list, l.addr, set r | r in recs && r.name == name);
  }

  method WalkMd5(filehash: seq<byte> -> int, t: Tables, head: Ptr, md5: Md5, ghost l: Layout, ghost recs: set<Record>, ghost list: seq<Ptr>)
    returns (results: seq<Record>)
    requires Coherent(filehash, t, l, recs) && Chain(t.md5s.items, list) && head == First(list)
    requires Enumerates(list, l.md5Info, set r | r in recs && r.md5 == md5)
    ensures Distinct(results)
    ensures forall r :: r in results <==> r in recs && r.md5 == md5
  {
    hide Coherent, Chain, Enumerates, Distinct;
    EmptyChain(t.md5s.items, list);
    results := [];
    var it := head;
    while it != NULL
      invariant |results| <= |list| && it == First(list[|results|..]) && (it == NULL <==> |results| == |list|)
      invariant ReadOff(results, list, l.md5Info)
      decreases |list| - |results|
    {
      Md5Result(filehash, t, l, recs, md5, list, |results|);
      var i := t.ips.items[t.md5s.items[it].data.info].data;
      var a := t.names.items[i.addr].data;
      results := results + [Record(t.names.keys[i.file].data.key, md5, a.ip, a.port)];
      it := t.md5s.items[it].next;
    }
    AllReadOff(t.md5s.items, results, list, l.md5Info, set r | r in recs && r.md5 == md5);
  }

  /** The items of `list` stand one for one for the records `want`. */
  ghost predicate Enumerates(list: seq<Ptr>, b: Bijection, want: set<Record>) {
    && (forall p :: p in list ==> p in b.rec && b.rec[p] in want && b.rec[p] in b.item && b.item[b.rec[p]] == p)
    && (forall r :: r in want ==> r in b.item && b.item[r] in list && b.item[r] in b.rec && b.rec[b.item[r]] == r)
  }

  /** `results` are the records of the first items of `list`. */
  lemma NobodyEnumerated(list: seq<Ptr>, b: Bijection, want: set<Record>)
    requires Enumerates(list, b, want)
    ensures list == [] <==> want == {}
  {
    if list != [] {
      assert list[0] in list;
    }
  }

  ghost predicate ReadOff(results: seq<Record>, list: seq<Ptr>, b: Bijection) {
    |results| <= |list| && forall i :: 0 <= i < |results| ==> list[i] in b.rec && results[i] == b.rec[list[i]]
  }

  lemma AllReadOff<D>(h: Pool<D>, results: seq<Record>, list: seq<Ptr>, b: Bijection, want: set<Record>)
    requires Chain(h, list) && Enumerates(list, b, want) && ReadOff(results, list, b) && |results| == |list|
    ensures Distinct(results)
    ensures forall r :: r in results <==> r in want
  {
    forall i, j | 0 <= i < j < |results|
      ensures results[i] != results[j]
    {
      assert list[i] in list && list[j] in list;
      assert b.item[b.rec[list[i]]] == list[i] && b.item[b.rec[list[j]]] == list[j];
    }
    forall r | r in want
      ensures r in results
    {
      var i :| 0 <= i < |list| && list[i] == b.item[r];
      assert results[i] == r;
    }
    forall r | r in results
      ensures r in want
    {
      var i :| 0 <= i < |results| && results[i] == r;
      assert list[i] in list;
    }
  }

  /** One step of the walk over the results for a name. */
  lemma NameResult(filehash: seq<byte> -> int, t: Tables, l: Layout, recs: set<Record>, name: seq<byte>, list: seq<Ptr>, i: nat)
    requires Coherent(filehash, t, l, recs) && i < |list| && Chain(t.names.items, list)
    requires Enumerates(list, l.addr, set r | r in recs && r.name == name)
    ensures list[i] in t.names.items && t.names.items[list[i]].data.md5 in t.md5s.keys
    ensures t.names.items[list[i]].next == First(list[i + 1..]) && (t.names.items[list[i]].next == NULL <==> i + 1 == |list|)
    ensures list[i] in l.addr.rec
    ensures var a := t.names.items[list[i]].data;
      l.addr.rec[list[i]].md5 == t.md5s.keys[a.md5].data.key && l.addr.rec[list[i]] == Record(name, l.addr.rec[list[i]].md5, a.ip, a.port)
  {
    hide Good, Covers;
    Neighbours(t.names.items, list, i);
    Md5NodeKeys(filehash, t, l, recs);
    assert list[i] in list;
    assert Partners(t, l, l.addr.rec[list[i]]);
  }

  /** One step of the walk over the results for an md5. */
  lemma Md5Result(filehash: seq<byte> -> int, t: Tables, l: Layout, recs: set<Record>, md5: Md5, list: seq<Ptr>, i: nat)
    requires Coherent(filehash, t, l, recs) && i < |list| && Chain(t.md5s.items, list)
    requires Enumerates(list, l.md5Info, set r | r in recs && r.md5 == md5)
    ensures list[i] in t.md5s.items && list[i] in l.md5Info.rec
    ensures t.md5s.items[list[i]].next == First(list[i + 1..]) && (t.md5s.items[list[i]].next == NULL <==> i + 1 == |list|)
    ensures var info := t.md5s.items[list[i]].data.info;
      && info in t.ips.items && t.ips.items[info].data.file in t.names.keys && t.ips.items[info].data.addr in t.names.items
      && var a := t.names.items[t.ips.items[info].data.addr].data;
         l.md5Info.rec[list[i]] == Record(t.names.keys[t.ips.items[info].data.file].data.key, md5, a.ip, a.port)
  {
    hide Good, Covers;
    Neighbours(t.md5s.items, list, i);
    Md5NodeKeys(filehash, t, l, recs);
    assert list[i] in list;
    assert Partners(t, l, l.md5Info.rec[list[i]]);
  }

  lemma NoNode(filehash: seq<byte> -> int, t: Tables, l: Layout, recs: set<Record>, key: seq<byte>)
    requires Coherent(filehash, t, l, recs)
    ensures key !in l.names.nodes ==> forall r :: r in recs ==> r.name != key
    ensures key !in l.md5s.nodes ==> forall r :: r in recs ==> r.md5 != key
  {
    hide Good, Covers;
  }

  // ---- runs

  datatype Op = Insert(r: Record) | Remove(r: Record) | RemoveAll(ip: u32, port: u16)

  /** What an operation does to the set of records. */
  ghost function Applied(recs: set<Record>, op: Op): set<Record> {
    match op
    case Insert(r) => recs + {r}
    case Remove(r) => recs - {r}
    case RemoveAll(ip, port) => set r | r in recs && !(r.ip == ip && r.port == port)
  }

  ghost function RecordsAfter(recs: set<Record>, ops: seq<Op>): set<Record> {
    if ops == [] then recs else Applied(RecordsAfter(recs, ops[..|ops| - 1]), ops[|ops| - 1])
  }

  /** Any run of operations acts as the same run on a set. */
  method Run(index: Index, ops: seq<Op>)
    requires index.Valid()
    modifies index
    ensures index.Valid() && index.recs == RecordsAfter(old(index.recs), ops)
  {
    hide Coherent;
    for n := 0 to |ops|
      invariant index.Valid() && index.recs == RecordsAfter(old(index.recs), ops[..n])
    {
      assert ops[..n + 1][..n] == ops[..n];
      match ops[n] {
        case Insert(r) => index.InsertFile(r.name, r.md5, r.ip, r.port);
        case Remove(r) => index.RemoveFile(r.ip, r.port, r.name, r.md5);
        case RemoveAll(ip, port) => index.RemoveAllFile(ip, port);
      }
    }
    assert ops[..|ops|] == ops;
  }

  /** Once every record is gone all buckets are null and every node has been freed. */
  lemma EmptiedIndex(filehash: seq<byte> -> int, t: Tables, l: Layout)
    requires Coherent(filehash, t, l, {})
    ensures t.names.items == map[] && t.ips.items == map[] && t.md5s.items == map[]
    ensures t.names.keys == map[] && t.ips.keys == map[] && t.md5s.keys == map[]
    ensures forall b :: 0 <= b < |t.names.heads| ==> t.names.heads[b] == NULL
    ensures forall b :: 0 <= b < |t.ips.heads| ==> t.ips.heads[b] == NULL
    ensures forall b :: 0 <= b < |t.md5s.heads| ==> t.md5s.heads[b] == NULL
  {
    hide Good, Partners;
    EmptiedTable(filehash, t.names, l.names);
    EmptiedTable(IpHash, t.ips, l.ips);
    EmptiedTable(filehash, t.md5s, l.md5s);
  }

  lemma EmptiedTable<K(!new), D>(hash: K -> int, t: Table<K, D>, s: Shape<K>)
    requires Good(hash, t, s) && s.owner.Keys == {}
    ensures t.items == map[] && t.keys == map[]
    ensures forall b :: 0 <= b < |t.heads| ==> t.heads[b] == NULL
  {
    hide Good;
    SameKeySets(hash, t, s);
    NodesHaveItems(hash, t, s);
    HeadsAreNodes(hash, t, s);
  }

  lemma NodesHaveItems<K(!new), D>(hash: K -> int, t: Table<K, D>, s: Shape<K>)
    requires Good(hash, t, s)
    ensures forall p :: p in t.keys ==> t.keys[p].data.list in s.owner
  {
    forall p | p in t.keys
      ensures t.keys[p].data.list in s.owner
    {
      var list := s.lists[t.keys[p].data.key];
      assert list[0] in list;
    }
  }

  lemma HeadsAreNodes<K(!new), D>(hash: K -> int, t: Table<K, D>, s: Shape<K>)
    requires Good(hash, t, s)
    ensures forall b :: 0 <= b < |t.heads| ==> t.heads[b] == NULL || t.heads[b] in t.keys
  {
    hide GoodLists, Owned;
    forall b | 0 <= b < |t.heads| && s.chains[b] != []
      ensures t.heads[b] in t.keys
    {
      assert s.chains[b][0] in s.chains[b];
    }
  }
}
