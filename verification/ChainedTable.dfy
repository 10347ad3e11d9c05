/** One of the three hash tables of src/client/hashtable.c: an array of buckets, a doubly
    linked chain of key nodes per bucket, and a doubly linked list of items per key node.
    The name, ip and md5 tables are three instances of it. */
module ChainedTable {
  import opened Common
  import opened Memory

  /** What `file_node`, `ip_node` and `md5_node` hold besides the chain links. */
  datatype Entry<K> = Entry(key: K, list: Ptr)

  /** Each chained node is live and in the bucket of its key; the live nodes are the table's
      nodes, one per key. */
  ghost predicate GoodKeys<K(!new)>(hash: K -> int, chains: seq<seq<Ptr>>, nodes: map<K, Ptr>, keys: Pool<Entry<K>>) {
    && (forall k :: 0 <= hash(k) < |chains|)
    && (forall b, p :: 0 <= b < |chains| && p in chains[b] ==> p in keys && hash(keys[p].data.key) == b)
    && (forall k :: k in nodes ==> nodes[k] in keys && keys[nodes[k]].data.key == k && nodes[k] in chains[hash(k)])
    && (forall p :: p in keys ==> keys[p].data.key in nodes && nodes[keys[p].data.key] == p)
  }

  /** Each bucket heads a well-linked chain. */
  ghost predicate GoodChains<K>(heads: seq<Ptr>, chains: seq<seq<Ptr>>, keys: Pool<Entry<K>>) {
    && |heads| == |chains|
    && (forall b :: 0 <= b < |chains| ==> heads[b] == First(chains[b]) && Chain(keys, chains[b]))
  }

  /** Each node heads a well-linked, non-empty list of items. */
  ghost predicate GoodLists<K, D>(nodes: map<K, Ptr>, lists: map<K, seq<Ptr>>, keys: Pool<Entry<K>>, items: Pool<D>) {
    && nodes.Keys == lists.Keys
    && (forall k :: k in lists ==> nodes[k] in keys && lists[k] != [] && keys[nodes[k]].data.list == lists[k][0] && Chain(items, lists[k]))
  }

  /** Every live item is in the list of one key, its owner. */
  ghost predicate Owned<K, D>(lists: map<K, seq<Ptr>>, owner: map<Ptr, K>, items: Pool<D>) {
    && owner.Keys == items.Keys
    && (forall k, p :: k in lists && p in lists[k] ==> p in owner && owner[p] == k)
    && (forall p :: p in owner ==> owner[p] in lists && p in lists[owner[p]])
  }

  /** A whole table: the bucket heads, the key nodes and the items. */
  datatype Table<K, D> = Table(heads: seq<Ptr>, keys: Pool<Entry<K>>, items: Pool<D>)

  /** The order hidden in the links: the nodes of each bucket's chain, the node of each key,
      the items filed under each key in list order, and the key of each item. */
  datatype Shape<K> = Shape(chains: seq<seq<Ptr>>, nodes: map<K, Ptr>, lists: map<K, seq<Ptr>>, owner: map<Ptr, K>)

  /** The table is well formed and `s` is its shape. */
  ghost predicate Good<K(!new), D>(hash: K -> int, t: Table<K, D>, s: Shape<K>) {
    && GoodKeys(hash, s.chains, s.nodes, t.keys)
    && GoodChains(t.heads, s.chains, t.keys)
    && GoodLists(s.nodes, s.lists, t.keys, t.items)
    && Owned(s.lists, s.owner, t.items)
  }

  lemma SameKeySets<K(!new), D>(hash: K -> int, t: Table<K, D>, s: Shape<K>)
    requires Good(hash, t, s)
    ensures s.nodes.Keys == s.lists.Keys && s.owner.Keys == t.items.Keys && Owned(s.lists, s.owner, t.items)
    ensures forall k :: 0 <= hash(k) < |s.chains|
  {
  }

  /** Both pools give every surviving node the same key. */
  ghost predicate SameKeys<K>(h: Pool<Entry<K>>, g: Pool<Entry<K>>) {
    forall p :: p in h && p in g ==> g[p].data.key == h[p].data.key
  }

  /** A key is in the table exactly when the chain of its bucket has a node for it. */
  lemma ChainHasKey<K(!new)>(hash: K -> int, chains: seq<seq<Ptr>>, nodes: map<K, Ptr>, keys: Pool<Entry<K>>, k: K)
    requires GoodKeys(hash, chains, nodes, keys)
    ensures 0 <= hash(k) < |chains|
    ensures forall i :: 0 <= i < |chains[hash(k)]| ==>
              var p := chains[hash(k)][i]; p in keys && (keys[p].data.key == k <==> k in nodes && nodes[k] == p)
    ensures k in nodes ==> nodes[k] in chains[hash(k)]
  {
  }

  /** The node of `key` in a chain, or null. */
  method Walk<K(==)>(keys: Pool<Entry<K>>, head: Ptr, key: K, ghost chain: seq<Ptr>) returns (entry: Ptr)
    requires Chain(keys, chain) && head == First(chain)
    ensures entry != NULL ==> entry in chain && entry in keys && keys[entry].data.key == key
    ensures entry == NULL ==> forall p :: p in chain ==> p in keys && keys[p].data.key != key
  {
    entry := head;
    ghost var i := 0;
    EmptyChain(keys, chain);
    while entry != NULL
      invariant 0 <= i <= |chain| && entry == (if i == |chain| then NULL else chain[i])
      invariant entry == NULL <==> i == |chain|
      invariant forall j :: 0 <= j < i ==> chain[j] in keys && keys[chain[j]].data.key != key
      decreases |chain| - i
    {
      Neighbours(keys, chain, i);
      if keys[entry].data.key == key {
        break;
      }
      entry, i := keys[entry].next, i + 1;
    }
  }

  /** The node of `key` in a chain, or the last node, or null when the chain is empty. */
  method WalkToSlot<K(==)>(keys: Pool<Entry<K>>, head: Ptr, key: K, ghost chain: seq<Ptr>) returns (entry: Ptr)
    requires Chain(keys, chain) && head == First(chain)
    ensures entry == NULL ==> chain == []
    ensures entry != NULL ==> entry in chain && entry in keys
    ensures entry != NULL && keys[entry].data.key != key ==>
              entry == Last(chain) && forall p :: p in chain ==> p in keys && keys[p].data.key != key
  {
    entry := head;
    EmptyChain(keys, chain);
    if entry == NULL {
      return;
    }
    ghost var i := 0;
    Neighbours(keys, chain, i);
    while keys[entry].next != NULL
      invariant 0 <= i < |chain| && entry == chain[i] && entry in keys && entry != NULL
      invariant keys[entry].next == NULL <==> i == |chain| - 1
      invariant i < |chain| - 1 ==> keys[entry].next == chain[i + 1]
      invariant forall j :: 0 <= j < i ==> chain[j] in keys && keys[chain[j]].data.key != key
      decreases |chain| - i
    {
      if keys[entry].data.key == key {
        break;
      }
      entry, i := keys[entry].next, i + 1;
      Neighbours(keys, chain, i);
    }
  }

  lemma GoodKeysKept<K(!new)>(hash: K -> int, chains: seq<seq<Ptr>>, nodes: map<K, Ptr>, keys: Pool<Entry<K>>, g: Pool<Entry<K>>)
    requires GoodKeys(hash, chains, nodes, keys) && keys.Keys == g.Keys && SameKeys(keys, g)
    ensures GoodKeys(hash, chains, nodes, g)
  {
  }

  lemma GoodChainsKept<K>(heads: seq<Ptr>, chains: seq<seq<Ptr>>, keys: Pool<Entry<K>>, g: Pool<Entry<K>>)
    requires GoodChains(heads, chains, keys)
    requires forall p :: p in keys ==> p in g && g[p].prev == keys[p].prev && g[p].next == keys[p].next
    ensures GoodChains(heads, chains, g)
  {
    forall b | 0 <= b < |chains|
      ensures Chain(g, chains[b])
    {
      ChainKept(keys, g, chains[b]);
    }
  }

  lemma GoodKeysAppend<K(!new)>(hash: K -> int, chains: seq<seq<Ptr>>, nodes: map<K, Ptr>, keys: Pool<Entry<K>>,
                                key: K, p: Ptr, g: Pool<Entry<K>>)
    requires GoodKeys(hash, chains, nodes, keys) && key !in nodes && p !in keys
    requires SameKeys(keys, g) && g.Keys == keys.Keys + {p} && g[p].data.key == key
    ensures var b := hash(key); GoodKeys(hash, chains[b := chains[b] + [p]], nodes[key := p], g)
  {
    var b := hash(key);
    var chains', nodes' := chains[b := chains[b] + [p]], nodes[key := p];
    forall k | k in nodes'
      ensures nodes'[k] in g && g[nodes'[k]].data.key == k && nodes'[k] in chains'[hash(k)]
    {
      if k == key {
        assert chains'[b][|chains[b]|] == p;
      }
    }
  }

  lemma GoodChainsAppend<K>(heads: seq<Ptr>, chains: seq<seq<Ptr>>, keys: Pool<Entry<K>>, b: nat, p: Ptr, d: Entry<K>)
    requires GoodChains(heads, chains, keys) && b < |chains| && p != NULL && p !in keys
    requires Last(chains[b]) == NULL || Last(chains[b]) in keys
    requires forall c, q :: 0 <= c < |chains| && c != b && q in chains[b] ==> q !in chains[c]
    ensures GoodChains(if chains[b] == [] then heads[b := p] else heads, chains[b := chains[b] + [p]],
                       Appended(keys, Last(chains[b]), p, d))
  {
    var g := Appended(keys, Last(chains[b]), p, d);
    AppendedIsChain(keys, chains[b], p, d);
    EmptyChain(keys, chains[b]);
    assert chains[b] == [] || Last(chains[b]) in chains[b];
    forall c | 0 <= c < |chains| && c != b
      ensures Chain(g, chains[c])
    {
      ChainKept(keys, g, chains[c]);
    }
  }

  /** The lists of all keys but one survive any change that leaves their nodes and items alone. */
  lemma GoodListsExcept<K, D>(nodes: map<K, Ptr>, lists: map<K, seq<Ptr>>, keys: Pool<Entry<K>>, items: Pool<D>,
                              nodes': map<K, Ptr>, lists': map<K, seq<Ptr>>, keys': Pool<Entry<K>>, items': Pool<D>, key: K)
    requires GoodLists(nodes, lists, keys, items)
    requires nodes'.Keys == lists'.Keys
    requires forall k :: k in lists' && k != key ==>
               k in lists && lists'[k] == lists[k] && nodes'[k] == nodes[k] && nodes[k] in keys'
               && keys'[nodes[k]].data.list == keys[nodes[k]].data.list && SameLinks(items, items', lists[k])
    requires key in lists' ==>
               nodes'[key] in keys' && lists'[key] != [] && keys'[nodes'[key]].data.list == lists'[key][0] && Chain(items', lists'[key])
    ensures GoodLists(nodes', lists', keys', items')
  {
    forall k | k in lists' && k != key
      ensures Chain(items', lists'[k])
    {
      ChainKept(items, items', lists[k]);
    }
  }

  lemma OwnedInsert<K, D>(lists: map<K, seq<Ptr>>, owner: map<Ptr, K>, items: Pool<D>, key: K, p: Ptr, items': Pool<D>)
    requires Owned(lists, owner, items) && p !in items && items'.Keys == items.Keys + {p}
    ensures Owned(lists[key := if key in lists then [p] + lists[key] else [p]], owner[p := key], items')
  {
  }

  /** Distinct keys have distinct nodes and share no item. */
  lemma KeysApart<K(!new), D>(hash: K -> int, chains: seq<seq<Ptr>>, nodes: map<K, Ptr>, lists: map<K, seq<Ptr>>, owner: map<Ptr, K>,
                              keys: Pool<Entry<K>>, items: Pool<D>, key: K)
    requires GoodKeys(hash, chains, nodes, keys) && Owned(lists, owner, items) && key in lists && key in nodes
    ensures 0 <= hash(key) < |chains| && nodes[key] in keys && keys[nodes[key]].data.key == key
    ensures forall k :: k in nodes && k != key ==> nodes[k] != nodes[key]
    ensures forall p :: p in lists[key] ==> p in items && p in owner && owner[p] == key
    ensures forall k, p :: k in lists && p in lists[key] && p in lists[k] ==> k == key
  {
    forall k, p | k in lists && p in lists[key] && p in lists[k]
      ensures k == key
    {
      assert owner[p] == k;
    }
  }

  lemma ChainsApart<K(!new)>(hash: K -> int, chains: seq<seq<Ptr>>, nodes: map<K, Ptr>, keys: Pool<Entry<K>>, b: nat)
    requires GoodKeys(hash, chains, nodes, keys) && b < |chains|
    ensures forall c, p :: 0 <= c < |chains| && c != b && p in chains[b] ==> p !in chains[c]
  {
    forall c, p | 0 <= c < |chains| && p in chains[b] && p in chains[c]
      ensures c == b
    {
      assert hash(keys[p].data.key) == b;
    }
  }

  lemma PrependedLists<K(!new), D>(nodes: map<K, Ptr>, lists: map<K, seq<Ptr>>,
                                   keys: Pool<Entry<K>>, items: Pool<D>, key: K, p: Ptr, data: D)
    requires GoodLists(nodes, lists, keys, items) && key in lists
    requires forall k :: k in nodes && k != key ==> nodes[k] != nodes[key]
    requires forall k :: k in lists && k != key ==> lists[key][0] !in lists[k]
    requires p != NULL && p !in items && lists[key][0] in items
    ensures GoodLists(nodes, lists[key := [p] + lists[key]], SetData(keys, nodes[key], Entry(key, p)),
                      Prepended(items, lists[key][0], p, data))
  {
    PrependedIsChain(items, lists[key], p, data);
    GoodListsExcept(nodes, lists, keys, items, nodes, lists[key := [p] + lists[key]],
                    SetData(keys, nodes[key], Entry(key, p)), Prepended(items, lists[key][0], p, data), key);
  }

  lemma AppendedLists<K(!new), D>(hash: K -> int, chains: seq<seq<Ptr>>, nodes: map<K, Ptr>, lists: map<K, seq<Ptr>>,
                                  keys: Pool<Entry<K>>, items: Pool<D>, key: K, n: Ptr, keys': Pool<Entry<K>>, p: Ptr, data: D)
    requires GoodKeys(hash, chains, nodes, keys) && GoodLists(nodes, lists, keys, items)
    requires key !in lists && p != NULL && p !in items && n !in keys
    requires n in keys' && keys'[n].data == Entry(key, p) && forall q :: q in keys ==> q in keys' && keys'[q].data == keys[q].data
    ensures GoodLists(nodes[key := n], lists[key := [p]], keys', items[p := Cell(data, NULL, NULL)])
  {
    var items' := items[p := Cell(data, NULL, NULL)];
    assert Chain(items', [p]) by {
      assert LinkedAt(items', [p], 0);
    }
    forall k | k in lists
      ensures SameLinks(items, items', lists[k])
    {
    }
    GoodListsExcept(nodes, lists, keys, items, nodes[key := n], lists[key := [p]], keys', items', key);
  }

  // ---- removal

  lemma GoodKeysRemove<K(!new)>(hash: K -> int, chains: seq<seq<Ptr>>, nodes: map<K, Ptr>, keys: Pool<Entry<K>>,
                                key: K, k: nat, g: Pool<Entry<K>>)
    requires GoodKeys(hash, chains, nodes, keys) && key in nodes
    requires k < |chains[hash(key)]| && chains[hash(key)][k] == nodes[key]
    requires forall i, j :: 0 <= i < j < |chains[hash(key)]| ==> chains[hash(key)][i] != chains[hash(key)][j]
    requires SameKeys(keys, g) && g.Keys == keys.Keys - {nodes[key]}
    ensures GoodKeys(hash, chains[hash(key) := Without(chains[hash(key)], k)], nodes - {key}, g)
  {
    hide Without;
    var b, n := hash(key), nodes - {key};
    WithoutMembers(chains[b], k);
    var chains' := chains[b := Without(chains[b], k)];
    forall c, p | 0 <= c < |chains'| && p in chains'[c]
      ensures p in g && hash(g[p].data.key) == c
    {
      assert p in chains[c];
    }
    forall x | x in n
      ensures n[x] in g && g[n[x]].data.key == x && n[x] in chains'[hash(x)]
    {
      assert nodes[x] in keys && keys[nodes[x]].data.key == x;
    }
    forall p | p in g
      ensures g[p].data.key in n && n[g[p].data.key] == p
    {
      assert p in keys && nodes[keys[p].data.key] == p;
    }
  }

  lemma GoodChainsRemove<K>(heads: seq<Ptr>, chains: seq<seq<Ptr>>, keys: Pool<Entry<K>>, b: nat, k: nat)
    requires GoodChains(heads, chains, keys) && b < |chains| && k < |chains[b]|
    requires forall c, p :: 0 <= c < |chains| && c != b && p in chains[b] ==> p !in chains[c]
    ensures var p := chains[b][k];
      && p in keys && (keys[p].prev == NULL || keys[p].prev in keys) && (keys[p].next == NULL || keys[p].next in keys)
      && GoodChains(if keys[p].prev == NULL then heads[b := keys[p].next] else heads,
                    chains[b := Without(chains[b], k)], Unlinked(keys, p))
  {
    Neighbours(keys, chains[b], k);
    UnlinkedIsChain(keys, chains[b], k);
    forall c | 0 <= c < |chains| && c != b
      ensures Chain(Unlinked(keys, chains[b][k]), chains[c])
    {
      ChainKept(keys, Unlinked(keys, chains[b][k]), chains[c]);
    }
  }

  lemma OwnedRemove<K, D>(lists: map<K, seq<Ptr>>, owner: map<Ptr, K>, items: Pool<D>, key: K, k: nat, items': Pool<D>)
    requires Owned(lists, owner, items) && key in lists && k < |lists[key]|
    requires forall i, j :: 0 <= i < j < |lists[key]| ==> lists[key][i] != lists[key][j]
    requires items'.Keys == items.Keys - {lists[key][k]}
    ensures Owned(lists[key := Without(lists[key], k)], owner - {lists[key][k]}, items')
    ensures |lists[key]| == 1 ==> Owned(lists - {key}, owner - {lists[key][k]}, items')
  {
    hide Owned, Without;
    WithoutMembers(lists[key], k);
    OwnedWith(lists, owner, items, key, lists[key][k], Without(lists[key], k), items');
    if |lists[key]| == 1 {
      OwnedAlone(lists, owner, items, key, lists[key][k], items');
    }
  }

  lemma OwnedWith<K, D>(lists: map<K, seq<Ptr>>, owner: map<Ptr, K>, items: Pool<D>, key: K, p: Ptr, rest: seq<Ptr>, items': Pool<D>)
    requires Owned(lists, owner, items) && key in lists && p in lists[key] && items'.Keys == items.Keys - {p}
    requires forall q :: q in rest <==> q in lists[key] && q != p
    ensures Owned(lists[key := rest], owner - {p}, items')
  {
    forall j | j in lists && p in lists[j]
      ensures j == key
    {
      assert owner[p] == j;
    }
  }

  lemma OwnedAlone<K, D>(lists: map<K, seq<Ptr>>, owner: map<Ptr, K>, items: Pool<D>, key: K, p: Ptr, items': Pool<D>)
    requires Owned(lists, owner, items) && key in lists && |lists[key]| == 1 && p == lists[key][0] && items'.Keys == items.Keys - {p}
    ensures Owned(lists - {key}, owner - {p}, items')
  {
    forall j | j in lists && p in lists[j]
      ensures j == key
    {
      assert owner[p] == j;
    }
  }

  lemma UnlinkedLists<K(!new), D>(nodes: map<K, Ptr>, lists: map<K, seq<Ptr>>, keys: Pool<Entry<K>>, items: Pool<D>, key: K, k: nat)
    requires GoodLists(nodes, lists, keys, items) && key in lists && k < |lists[key]|
    requires forall j :: j in nodes && j != key ==> nodes[j] != nodes[key]
    requires forall j, p :: j in lists && p in lists[key] && p in lists[j] ==> j == key
    ensures var p := lists[key][k];
      && p in items && (items[p].prev == NULL || items[p].prev in items) && (items[p].next == NULL || items[p].next in items)
      && (|lists[key]| > 1 ==>
            GoodLists(nodes, lists[key := Without(lists[key], k)],
                      if items[p].prev == NULL then SetData(keys, nodes[key], Entry(keys[nodes[key]].data.key, items[p].next)) else keys,
                      Unlinked(items, p)))
  {
    var p := lists[key][k];
    var keys' := if k == 0 && 1 < |lists[key]| then SetData(keys, nodes[key], Entry(keys[nodes[key]].data.key, lists[key][1])) else keys;
    Neighbours(items, lists[key], k);
    UnlinkedIsChain(items, lists[key], k);
    if |lists[key]| > 1 {
      forall j | j in lists && j != key
        ensures SameLinks(items, Unlinked(items, p), lists[j])
      {
      }
      GoodListsExcept(nodes, lists, keys, items, nodes, lists[key := Without(lists[key], k)], keys', Unlinked(items, p), key);
    }
  }

  lemma FreedLists<K(!new), D>(nodes: map<K, Ptr>, lists: map<K, seq<Ptr>>, keys: Pool<Entry<K>>, items: Pool<D>, key: K,
                               keys': Pool<Entry<K>>)
    requires GoodLists(nodes, lists, keys, items) && key in lists && |lists[key]| == 1 && lists[key][0] in items
    requires forall j :: j in nodes && j != key ==> nodes[j] != nodes[key]
    requires forall j, p :: j in lists && p in lists[key] && p in lists[j] ==> j == key
    requires forall p :: p in keys && p != nodes[key] ==> p in keys' && keys'[p].data == keys[p].data
    ensures GoodLists(nodes - {key}, lists - {key}, keys', Free(items, lists[key][0]))
  {
    forall j | j in lists && j != key
      ensures SameLinks(items, Free(items, lists[key][0]), lists[j])
    {
      assert lists[key][0] in lists[key];
    }
    GoodListsExcept(nodes, lists, keys, items, nodes - {key}, lists - {key}, keys', Free(items, lists[key][0]), key);
  }

  // ---- the operations

  /** An empty table (`calloc` of `size` null heads). */
  function Empty<K, D>(size: nat): Table<K, D> {
    Table(seq(size, _ => NULL), map[], map[])
  }

  ghost function EmptyShape<K>(size: nat): Shape<K> {
    Shape(seq(size, _ => []), map[], map[], map[])
  }

  lemma EmptyIsGood<K(!new), D>(hash: K -> int, size: nat)
    requires forall k :: 0 <= hash(k) < size
    ensures Good<K, D>(hash, Empty(size), EmptyShape(size))
  {
  }

  ghost predicate IsSlot<K>(hash: K -> int, s: Shape<K>, slot: Ptr, key: K)
    requires 0 <= hash(key) < |s.chains|
  {
    slot == if key in s.nodes then s.nodes[key] else Last(s.chains[hash(key)])
  }

  /** The node of `key` if there is one, otherwise the last node of its chain, or null. */
  method FindSlot<K(==,!new), D>(hash: K -> int, t: Table<K, D>, key: K, ghost s: Shape<K>) returns (slot: Ptr)
    requires Good(hash, t, s)
    ensures 0 <= hash(key) < |s.chains| && IsSlot(hash, s, slot, key)
    ensures slot != NULL ==> slot in t.keys && (t.keys[slot].data.key == key <==> key in s.nodes)
    ensures slot == NULL ==> key !in s.nodes
  {
    ChainHasKey(hash, s.chains, s.nodes, t.keys, key);
    slot := WalkToSlot(t.keys, t.heads[hash(key)], key, s.chains[hash(key)]);
  }

  /** The node of `key`, or null. */
  method Find<K(==,!new), D>(hash: K -> int, t: Table<K, D>, key: K, ghost s: Shape<K>) returns (entry: Ptr)
    requires Good(hash, t, s)
    ensures entry == if key in s.nodes then s.nodes[key] else NULL
    ensures entry != NULL <==> key in s.nodes
    ensures entry != NULL ==> entry in t.keys
  {
    ChainHasKey(hash, s.chains, s.nodes, t.keys, key);
    entry := Walk(t.keys, t.heads[hash(key)], key, s.chains[hash(key)]);
  }

  /** The shape after `item` is filed under `key`, whose node is `entry`. */
  ghost function Filed<K>(hash: K -> int, s: Shape<K>, key: K, entry: Ptr, item: Ptr): Shape<K>
    requires 0 <= hash(key) < |s.chains|
  {
    if key in s.lists then
      s.(lists := s.lists[key := [item] + s.lists[key]], owner := s.owner[item := key])
    else
      Shape(s.chains[hash(key) := s.chains[hash(key)] + [entry]], s.nodes[key := entry], s.lists[key := [item]], s.owner[item := key])
  }

  /** Every item that `t` and `u` share holds the same data in both. */
  ghost predicate SameData<D>(t: Pool<D>, u: Pool<D>) {
    forall p :: p in t && p in u ==> u[p].data == t[p].data
  }

  /** `u` is `t` with one more item, `p`, filed under `key`. */
  ghost predicate OneMore<K(!new), D>(hash: K -> int, t: Table<K, D>, s: Shape<K>, u: Table<K, D>, key: K, entry: Ptr, p: Ptr, d: D) {
    && 0 <= hash(key) < |s.chains|
    && Good(hash, u, Filed(hash, s, key, entry, p)) && (key in s.nodes ==> entry == s.nodes[key])
    && p !in t.items && u.items.Keys == t.items.Keys + {p}
    && u.items[p].data == d && SameData(t.items, u.items)
  }

  /** Puts a new item at the head of the list of `key`, adding a key node at the end of the
      chain when the key is new. `slot` is what `FindSlot` returned. */
  method InsertAt<K(==,!new), D>(hash: K -> int, t: Table<K, D>, slot: Ptr, key: K, data: D, ghost s: Shape<K>)
    returns (u: Table<K, D>, entry: Ptr, item: Ptr)
    requires Good(hash, t, s) && 0 <= hash(key) < |s.chains| && IsSlot(hash, s, slot, key)
    requires slot != NULL ==> slot in t.keys && (t.keys[slot].data.key == key <==> key in s.nodes)
    requires slot == NULL ==> key !in s.nodes
    ensures OneMore(hash, t, s, u, key, entry, item, data)
  {
    item := Malloc(t.items);
    if slot != NULL && t.keys[slot].data.key == key {
      entry := slot;
      u := PrependItem(hash, t, slot, key, item, data, s);
    } else {
      u, entry := AppendNode(hash, t, slot, key, item, data, s);
    }
  }

  method PrependItem<K(==,!new), D>(hash: K -> int, t: Table<K, D>, entry: Ptr, key: K, item: Ptr, data: D, ghost s: Shape<K>)
    returns (u: Table<K, D>)
    requires Good(hash, t, s) && key in s.nodes && s.nodes[key] == entry && item != NULL && item !in t.items
    ensures 0 <= hash(key) < |s.chains| && Good(hash, u, Filed(hash, s, key, entry, item))
    ensures u.items.Keys == t.items.Keys + {item} && u.items[item].data == data && SameData(t.items, u.items)
  {
    hide Good;
    PrependIsGood(hash, t, s, key, item, data);
    var list := t.keys[entry].data.list;
    var items := t.items[item := Cell(data, NULL, list)];
    items := SetPrev(items, list, item);
    u := Table(t.heads, SetData(t.keys, entry, Entry(key, item)), items);
  }

  lemma PrependIsGood<K(!new), D>(hash: K -> int, t: Table<K, D>, s: Shape<K>, key: K, item: Ptr, data: D)
    requires Good(hash, t, s) && key in s.nodes && item != NULL && item !in t.items
    ensures 0 <= hash(key) < |s.chains|
    ensures s.nodes[key] in t.keys && key in s.lists && s.lists[key] != []
    ensures t.keys[s.nodes[key]].data.list == s.lists[key][0] != NULL && s.lists[key][0] in t.items
    ensures var u := Table(t.heads, SetData(t.keys, s.nodes[key], Entry(key, item)), Prepended(t.items, s.lists[key][0], item, data));
      Good(hash, u, Filed(hash, s, key, s.nodes[key], item))
  {
    hide GoodKeys, GoodChains, GoodLists, Owned;
    NodeFacts(hash, t, s, key);
    var keys, items := SetData(t.keys, s.nodes[key], Entry(key, item)), Prepended(t.items, s.lists[key][0], item, data);
    PrependedLists(s.nodes, s.lists, t.keys, t.items, key, item, data);
    GoodKeysKept(hash, s.chains, s.nodes, t.keys, keys);
    GoodChainsKept(t.heads, s.chains, t.keys, keys);
    OwnedInsert(s.lists, s.owner, t.items, key, item, items);
  }

  /** What a well-formed table says about one of its keys. */
  lemma NodeFacts<K(!new), D>(hash: K -> int, t: Table<K, D>, s: Shape<K>, key: K)
    requires Good(hash, t, s) && key in s.nodes
    ensures 0 <= hash(key) < |s.chains| && s.nodes[key] in t.keys && t.keys[s.nodes[key]].data.key == key
    ensures key in s.lists && s.lists[key] != [] && s.lists[key][0] != NULL
    ensures t.keys[s.nodes[key]].data.list == s.lists[key][0]
    ensures Chain(t.items, s.lists[key])
    ensures forall p :: p in s.lists[key] ==> p in t.items && p in s.owner && s.owner[p] == key
    ensures forall k :: k in s.nodes && k != key ==> s.nodes[k] != s.nodes[key]
    ensures forall k, p :: k in s.lists && p in s.lists[key] && p in s.lists[k] ==> k == key
  {
    hide GoodKeys, GoodChains, GoodLists, Owned;
    ListFacts(s.nodes, s.lists, t.keys, t.items, key);
    KeysApart(hash, s.chains, s.nodes, s.lists, s.owner, t.keys, t.items, key);
  }

  lemma ListFacts<K, D>(nodes: map<K, Ptr>, lists: map<K, seq<Ptr>>, keys: Pool<Entry<K>>, items: Pool<D>, key: K)
    requires GoodLists(nodes, lists, keys, items) && key in nodes
    ensures key in lists && lists[key] != [] && lists[key][0] != NULL
    ensures nodes[key] in keys && keys[nodes[key]].data.list == lists[key][0]
    ensures Chain(items, lists[key])
  {
    Neighbours(items, lists[key], 0);
  }

  method AppendNode<K(==,!new), D>(hash: K -> int, t: Table<K, D>, slot: Ptr, key: K, item: Ptr, data: D, ghost s: Shape<K>)
    returns (u: Table<K, D>, entry: Ptr)
    requires Good(hash, t, s) && 0 <= hash(key) < |s.chains| && IsSlot(hash, s, slot, key)
    requires key !in s.nodes && (slot == NULL || slot in t.keys)
    requires item != NULL && item !in t.items
    ensures Good(hash, u, Filed(hash, s, key, entry, item))
    ensures u.items.Keys == t.items.Keys + {item} && u.items[item].data == data && SameData(t.items, u.items)
  {
    hide Good;
    var items := t.items[item := Cell(data, NULL, NULL)];
    entry := Malloc(t.keys);
    AppendIsGood(hash, t, s, slot, key, entry, item, data);
    var heads, keys := t.heads, t.keys[entry := Cell(Entry(key, item), NULL, NULL)];
    if slot == NULL {
      heads := heads[hash(key) := entry];
    } else {
      keys := SetPrev(keys, entry, slot);
      keys := SetNext(keys, slot, entry);
    }
    u := Table(heads, keys, items);
    assert keys == Appended(t.keys, slot, entry, Entry(key, item));
  }

  lemma AppendIsGood<K(!new), D>(hash: K -> int, t: Table<K, D>, s: Shape<K>, slot: Ptr, key: K, entry: Ptr, item: Ptr, data: D)
    requires Good(hash, t, s) && 0 <= hash(key) < |s.chains| && slot == Last(s.chains[hash(key)])
    requires key !in s.nodes && (slot == NULL || slot in t.keys)
    requires item != NULL && item !in t.items && entry != NULL && entry !in t.keys
    ensures |t.heads| == |s.chains|
    ensures var u := Table(if slot == NULL then t.heads[hash(key) := entry] else t.heads,
                           Appended(t.keys, slot, entry, Entry(key, item)), t.items[item := Cell(data, NULL, NULL)]);
      Good(hash, u, Filed(hash, s, key, entry, item))
  {
    hide GoodKeys, GoodChains, GoodLists, Owned;
    BucketFacts(hash, t, s, hash(key));
    var b, keys := hash(key), Appended(t.keys, slot, entry, Entry(key, item));
    GoodKeysAppend(hash, s.chains, s.nodes, t.keys, key, entry, keys);
    GoodChainsAppend(t.heads, s.chains, t.keys, b, entry, Entry(key, item));
    AppendedLists(hash, s.chains, s.nodes, s.lists, t.keys, t.items, key, entry, keys, item, data);
    OwnedInsert(s.lists, s.owner, t.items, key, item, t.items[item := Cell(data, NULL, NULL)]);
  }

  /** What a well-formed table says about one of its buckets. */
  lemma BucketFacts<K(!new), D>(hash: K -> int, t: Table<K, D>, s: Shape<K>, b: nat)
    requires Good(hash, t, s) && b < |s.chains|
    ensures |t.heads| == |s.chains| && s.nodes.Keys == s.lists.Keys
    ensures t.heads[b] == First(s.chains[b]) && Chain(t.keys, s.chains[b])
    ensures t.heads[b] == NULL <==> s.chains[b] == []
    ensures Last(s.chains[b]) == NULL <==> s.chains[b] == []
    ensures forall c, p :: 0 <= c < |s.chains| && c != b && p in s.chains[b] ==> p !in s.chains[c]
  {
    ChainsApart(hash, s.chains, s.nodes, t.keys, b);
    EmptyChain(t.keys, s.chains[b]);
  }

  ghost function IndexOf<T>(s: seq<T>, x: T): (i: nat)
    requires x in s
    ensures i < |s| && s[i] == x
  {
    var i :| 0 <= i < |s| && s[i] == x;
    i
  }

  /** The shape after `item` is unlinked; a key that loses its last item loses its node. */
  ghost function Unfiled<K>(hash: K -> int, s: Shape<K>, item: Ptr): Shape<K>
    requires item in s.owner && s.owner[item] in s.lists && item in s.lists[s.owner[item]]
    requires s.owner[item] in s.nodes && 0 <= hash(s.owner[item]) < |s.chains|
    requires s.nodes[s.owner[item]] in s.chains[hash(s.owner[item])]
  {
    var key := s.owner[item];
    var b := hash(key);
    if |s.lists[key]| == 1 then
      Shape(s.chains[b := Without(s.chains[b], IndexOf(s.chains[b], s.nodes[key]))], s.nodes - {key}, s.lists - {key}, s.owner - {item})
    else
      s.(lists := s.lists[key := Without(s.lists[key], IndexOf(s.lists[key], item))], owner := s.owner - {item})
  }

  /** `Unfiled` is defined on every item of a well-formed table. */
  lemma OwnerFacts<K(!new), D>(hash: K -> int, t: Table<K, D>, s: Shape<K>, item: Ptr)
    requires Good(hash, t, s) && item in s.owner
    ensures item in t.items && s.owner[item] in s.lists && item in s.lists[s.owner[item]] && s.owner[item] in s.nodes
    ensures 0 <= hash(s.owner[item]) < |s.chains| && s.nodes[s.owner[item]] in s.chains[hash(s.owner[item])]
  {
  }

  /** Unlinks and frees `item` of the node `entry`, and the node too when the item was its only one. */
  method RemoveItem<K(==,!new), D>(hash: K -> int, t: Table<K, D>, item: Ptr, entry: Ptr, ghost s: Shape<K>)
    returns (u: Table<K, D>)
    requires Good(hash, t, s) && item in s.owner && s.owner[item] in s.nodes && entry == s.nodes[s.owner[item]]
    ensures (OwnerFacts(hash, t, s, item); Good(hash, u, Unfiled(hash, s, item)))
    ensures u.items.Keys == t.items.Keys - {item} && SameData(t.items, u.items)
  {
    hide Good;
    OwnerFacts(hash, t, s, item);
    ghost var key := s.owner[item];
    UnlinkIsGood(hash, t, s, key, IndexOf(s.lists[key], item));
    var cell := t.items[item];
    if cell.prev == NULL {
      if cell.next == NULL {
        u := RemoveKeyNode(hash, Table(t.heads, t.keys, Free(t.items, item)), entry, key, t, s);
      } else {
        var items := SetPrev(t.items, cell.next, NULL);
        u := Table(t.heads, SetData(t.keys, entry, t.keys[entry].data.(list := cell.next)), Free(items, item));
      }
    } else if cell.next == NULL {
      u := Table(t.heads, t.keys, Free(SetNext(t.items, cell.prev, NULL), item));
    } else {
      var items := SetNext(t.items, cell.prev, cell.next);
      u := Table(t.heads, t.keys, Free(SetPrev(items, cell.next, cell.prev), item));
    }
  }

  /** Unlinking an item that is not the only one of its key. */
  lemma UnlinkIsGood<K(!new), D>(hash: K -> int, t: Table<K, D>, s: Shape<K>, key: K, k: nat)
    requires Good(hash, t, s) && key in s.nodes && key in s.lists && k < |s.lists[key]|
    ensures s.nodes[key] in t.keys && 0 <= hash(key) < |s.chains|
    ensures var p := s.lists[key][k];
      && p in t.items && (t.items[p].prev == NULL || t.items[p].prev in t.items) && (t.items[p].next == NULL || t.items[p].next in t.items)
      && (t.items[p].prev == NULL && t.items[p].next == NULL <==> |s.lists[key]| == 1)
      && (|s.lists[key]| > 1 ==>
            var keys := if t.items[p].prev == NULL then SetData(t.keys, s.nodes[key], t.keys[s.nodes[key]].data.(list := t.items[p].next)) else t.keys;
            Good(hash, Table(t.heads, keys, Unlinked(t.items, p)),
                 s.(lists := s.lists[key := Without(s.lists[key], k)], owner := s.owner - {p})))
  {
    hide GoodKeys, GoodChains, GoodLists, Owned;
    NodeFacts(hash, t, s, key);
    var p := s.lists[key][k];
    Neighbours(t.items, s.lists[key], k);
    UnlinkedLists(s.nodes, s.lists, t.keys, t.items, key, k);
    OwnedRemove(s.lists, s.owner, t.items, key, k, Unlinked(t.items, p));
    if |s.lists[key]| > 1 {
      var keys := if t.items[p].prev == NULL then SetData(t.keys, s.nodes[key], t.keys[s.nodes[key]].data.(list := t.items[p].next)) else t.keys;
      GoodKeysKept(hash, s.chains, s.nodes, t.keys, keys);
      GoodChainsKept(t.heads, s.chains, t.keys, keys);
    }
  }

  /** Unlinks and frees the node of a key whose only item was just freed. */
  method RemoveKeyNode<K(==,!new), D>(hash: K -> int, t: Table<K, D>, entry: Ptr, ghost key: K, ghost before: Table<K, D>, ghost s: Shape<K>)
    returns (u: Table<K, D>)
    requires Good(hash, before, s) && key in s.nodes && entry == s.nodes[key] && key in s.lists && |s.lists[key]| == 1
    requires s.lists[key][0] in before.items && t == Table(before.heads, before.keys, Free(before.items, s.lists[key][0]))
    ensures 0 <= hash(key) < |s.chains| && entry in s.chains[hash(key)]
    ensures Good(hash, u, Shape(s.chains[hash(key) := Without(s.chains[hash(key)], IndexOf(s.chains[hash(key)], entry))],
                                s.nodes - {key}, s.lists - {key}, s.owner - {s.lists[key][0]}))
    ensures u.items == t.items
  {
    hide Good;
    FreeNodeIsGood(hash, before, s, key);
    var b := hash(t.keys[entry].data.key);
    var cell := t.keys[entry];
    if cell.prev == NULL {
      if cell.next == NULL {
        u := Table(t.heads[b := NULL], Free(t.keys, entry), t.items);
      } else {
        var keys := SetPrev(t.keys, cell.next, NULL);
        u := Table(t.heads[b := cell.next], Free(keys, entry), t.items);
      }
    } else if cell.next == NULL {
      u := Table(t.heads, Free(SetNext(t.keys, cell.prev, NULL), entry), t.items);
    } else {
      var keys := SetNext(t.keys, cell.prev, cell.next);
      u := Table(t.heads, Free(SetPrev(keys, cell.next, cell.prev), entry), t.items);
    }
  }

  lemma FreeNodeIsGood<K(!new), D>(hash: K -> int, t: Table<K, D>, s: Shape<K>, key: K)
    requires Good(hash, t, s) && key in s.nodes && key in s.lists && |s.lists[key]| == 1 && s.lists[key][0] in t.items
    ensures 0 <= hash(key) < |s.chains| == |t.heads| && s.nodes[key] in s.chains[hash(key)]
    ensures var b, p := hash(key), s.nodes[key];
      && p in t.keys && t.keys[p].data.key == key
      && (t.keys[p].prev == NULL || t.keys[p].prev in t.keys) && (t.keys[p].next == NULL || t.keys[p].next in t.keys)
      && Good(hash, Table(if t.keys[p].prev == NULL then t.heads[b := t.keys[p].next] else t.heads,
                          Unlinked(t.keys, p), Free(t.items, s.lists[key][0])),
              Shape(s.chains[b := Without(s.chains[b], IndexOf(s.chains[b], p))], s.nodes - {key}, s.lists - {key}, s.owner - {s.lists[key][0]}))
  {
    hide GoodKeys, GoodChains, GoodLists, Owned;
    NodeFacts(hash, t, s, key);
    BucketFacts(hash, t, s, hash(key));
    ChainHasKey(hash, s.chains, s.nodes, t.keys, key);
    var b, p := hash(key), s.nodes[key];
    var i := IndexOf(s.chains[b], p);
    GoodChainsRemove(t.heads, s.chains, t.keys, b, i);
    GoodKeysRemove(hash, s.chains, s.nodes, t.keys, key, i, Unlinked(t.keys, p));
    FreedLists(s.nodes, s.lists, t.keys, t.items, key, Unlinked(t.keys, p));
    OwnedRemove(s.lists, s.owner, t.items, key, 0, Free(t.items, s.lists[key][0]));
  }
}
