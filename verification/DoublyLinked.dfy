/** The doubly linked list under the other lists (src/common/list.c), on its pool of nodes. */
module DoublyLinked {
  import opened Common
  import opened Memory

  /** The pool holds exactly the nodes `s` of one list, in order, with the data `ds`. */
  ghost predicate IsList<D>(h: Pool<D>, head: Ptr, s: seq<Ptr>, ds: seq<D>) {
    && Chain(h, s) && head == First(s) && |ds| == |s|
    && (forall p :: p in h <==> p in s)
    && (forall i :: 0 <= i < |s| ==> s[i] in h && h[s[i]].data == ds[i])
  }

  lemma EmptyList<D>()
    ensures IsList<D>(map[], NULL, [], [])
  {}

  /** What the list says about the node number `i`. */
  lemma NodeFacts<D>(h: Pool<D>, head: Ptr, s: seq<Ptr>, ds: seq<D>, i: nat)
    requires IsList(h, head, s, ds) && i < |s|
    ensures |ds| == |s| && s[i] != NULL && s[i] in h && h[s[i]].data == ds[i]
    ensures h[s[i]].next == First(s[i + 1..]) && (h[s[i]].next == NULL <==> i + 1 == |s|)
    ensures h[s[i]].prev == (if i == 0 then NULL else s[i - 1]) && (h[s[i]].prev == NULL <==> i == 0)
  {
    Neighbours(h, s, i);
  }

  lemma ListFacts<D>(h: Pool<D>, head: Ptr, s: seq<Ptr>, ds: seq<D>)
    requires IsList(h, head, s, ds)
    ensures |ds| == |s| && head == First(s) && (head == NULL <==> s == [])
    ensures forall i, j :: 0 <= i < j < |s| ==> s[i] != s[j]
    ensures forall p :: p in h <==> p in s
  {
    EmptyChain(h, s);
  }

  /** `insert_node`. */
  method InsertNode<D>(h: Pool<D>, list: Ptr, data: D, ghost s: seq<Ptr>, ghost ds: seq<D>) returns (g: Pool<D>, head: Ptr)
    requires IsList(h, list, s, ds)
    ensures head !in h && IsList(g, head, [head] + s, [data] + ds)
  {
    EmptyChain(h, s);
    var node := Malloc(h);
    assert list != NULL ==> list in s;
    g := h[node := Cell(data, NULL, list)];
    if list != NULL {
      g := SetPrev(g, list, node);
    }
    PrependedIsChain(h, s, node, data);
    head := node;
  }

  /** The pool after a node was linked in behind `p`. */
  function Inserted<D>(h: Pool<D>, p: Ptr, node: Ptr, data: D): Pool<D>
    requires p in h && (h[p].next == NULL || h[p].next in h)
  {
    var g := h[node := Cell(data, p, h[p].next)];
    var f := if h[p].next == NULL then g else SetPrev(g, h[p].next, node);
    SetNext(f, p, node)
  }

  ghost function Spliced<T>(s: seq<T>, k: nat, x: T): seq<T>
    requires k <= |s|
  {
    s[..k] + [x] + s[k..]
  }

  lemma InsertedIsChain<D>(h: Pool<D>, s: seq<Ptr>, k: nat, node: Ptr, data: D)
    requires Chain(h, s) && k < |s| && node != NULL && node !in h && (forall p :: p in s ==> p in h)
    requires s[k] in h && (h[s[k]].next == NULL || h[s[k]].next in h)
    ensures Chain(Inserted(h, s[k], node, data), Spliced(s, k + 1, node))
  {
    var g, t := Inserted(h, s[k], node, data), Spliced(s, k + 1, node);
    Neighbours(h, s, k);
    forall i | 0 <= i < |t|
      ensures LinkedAt(g, t, i)
    {
      if i != k + 1 {
        var j := if i <= k then i else i - 1;
        Neighbours(h, s, j);
        assert t[i] == s[j];
      }
    }
    forall i, j | 0 <= i < j < |t|
      ensures t[i] != t[j]
    {
      var a, b := if i <= k then i else i - 1, if j <= k then j else j - 1;
      assert i != k + 1 ==> t[i] == s[a];
      assert j != k + 1 ==> t[j] == s[b];
    }
  }

  /** `sorted_insert_node`: behind the node number `k`, or in front if there is none. */
  method SortedInsertNode<D>(h: Pool<D>, list: Ptr, prevNode: Ptr, data: D, ghost s: seq<Ptr>, ghost ds: seq<D>, ghost k: int)
    returns (g: Pool<D>, head: Ptr, node: Ptr)
    requires IsList(h, list, s, ds) && -1 <= k < |s|
    requires prevNode == if k == -1 then NULL else s[k]
    ensures node !in h && IsList(g, head, Spliced(s, k + 1, node), Spliced(ds, k + 1, data))
  {
    hide Inserted, IsList, Chain;
    ListFacts(h, list, s, ds);
    if k >= 0 {
      NodeFacts(h, list, s, ds, k);
      NextIsLive(h, list, s, ds, k);
    }
    if list == NULL || prevNode == NULL {
      g, head := InsertNode(h, list, data, s, ds);
      node := head;
      assert [node] + s == Spliced(s, 0, node) && [data] + ds == Spliced(ds, 0, data);
      return;
    }
    node := Malloc(h);
    var next := h[prevNode].next;
    g := h[node := Cell(data, prevNode, next)];
    if next != NULL {
      g := SetPrev(g, next, node);
    }
    g := SetNext(g, prevNode, node);
    head := list;
    InsertedIs(h, prevNode, node, data, g);
    InsertedIsList(h, list, s, ds, k, node, data, g);
  }

  lemma NextIsLive<D>(h: Pool<D>, list: Ptr, s: seq<Ptr>, ds: seq<D>, k: nat)
    requires IsList(h, list, s, ds) && k < |s|
    ensures s[k] in h && (h[s[k]].next == NULL || h[s[k]].next in h)
  {
    Neighbours(h, s, k);
  }

  lemma InsertedIs<D>(h: Pool<D>, p: Ptr, node: Ptr, data: D, g: Pool<D>)
    requires p in h && (h[p].next == NULL || h[p].next in h) && node !in h
    requires g == SetNext(if h[p].next == NULL then h[node := Cell(data, p, h[p].next)]
                          else SetPrev(h[node := Cell(data, p, h[p].next)], h[p].next, node), p, node)
    ensures g == Inserted(h, p, node, data)
  {}

  lemma InsertedIsList<D>(h: Pool<D>, list: Ptr, s: seq<Ptr>, ds: seq<D>, k: nat, node: Ptr, data: D, g: Pool<D>)
    requires IsList(h, list, s, ds) && k < |s| && node != NULL && node !in h
    requires s[k] in h && (h[s[k]].next == NULL || h[s[k]].next in h)
    requires g == Inserted(h, s[k], node, data)
    ensures IsList(g, list, Spliced(s, k + 1, node), Spliced(ds, k + 1, data))
  {
    hide Chain, Inserted, Spliced;
    InsertedIsChain(h, s, k, node, data);
    InsertedData(h, s[k], node, data);
    SplicedMembers(s, k + 1, node);
    SplicedMembers(ds, k + 1, data);
    var t, es := Spliced(s, k + 1, node), Spliced(ds, k + 1, data);
    forall i | 0 <= i < |t|
      ensures t[i] in g && g[t[i]].data == es[i]
    {
      SplicedAt(s, k + 1, node, i);
      SplicedAt(ds, k + 1, data, i);
      NodeFacts(h, list, s, ds, if i <= k then i else if i == k + 1 then 0 else i - 1);
    }
  }

  lemma SplicedMembers<T>(s: seq<T>, k: nat, x: T)
    requires k <= |s|
    ensures var t := Spliced(s, k, x);
      |t| == |s| + 1 && t[0] == (if k == 0 then x else s[0]) && forall y :: y in t <==> y in s || y == x
  {
    var t := Spliced(s, k, x);
    assert t[k] == x;
    forall y | y in s
      ensures y in t
    {
      var i :| 0 <= i < |s| && s[i] == y;
      assert t[if i < k then i else i + 1] == y;
    }
  }

  lemma SplicedAt<T>(s: seq<T>, k: nat, x: T, i: nat)
    requires k <= |s| && i <= |s|
    ensures i < |Spliced(s, k, x)| && Spliced(s, k, x)[i] == if i < k then s[i] else if i == k then x else s[i - 1]
  {}

  lemma InsertedData<D>(h: Pool<D>, p: Ptr, node: Ptr, data: D)
    requires p in h && (h[p].next == NULL || h[p].next in h) && node !in h
    ensures var g := Inserted(h, p, node, data);
      && g.Keys == h.Keys + {node} && g[node].data == data
      && forall q :: q in h ==> g[q].data == h[q].data
  {}

  /** `remove_node`: unlinks and frees the node number `k`. */
  method RemoveNode<D>(h: Pool<D>, list: Ptr, p: Ptr, ghost s: seq<Ptr>, ghost ds: seq<D>, ghost k: nat) returns (g: Pool<D>, head: Ptr)
    requires IsList(h, list, s, ds) && k < |s| && p == s[k]
    ensures IsList(g, head, Without(s, k), Without(ds, k))
  {
    hide Unlinked;
    Neighbours(h, s, k);
    var cell := h[p];
    head := list;
    if cell.prev == NULL {
      if cell.next == NULL {
        head := NULL;
        g := h;
      } else {
        g := SetPrev(h, cell.next, NULL);
        head := cell.next;
      }
    } else if cell.next == NULL {
      g := SetNext(h, cell.prev, NULL);
    } else {
      g := SetNext(h, cell.prev, cell.next);
      g := SetPrev(g, cell.next, cell.prev);
    }
    g := Free(g, p);
    assert g == Unlinked(h, p) by {
      UnlinkedIs(h, p, g);
    }
    UnlinkedIsList(h, list, s, ds, k);
  }

  lemma UnlinkedIs<D>(h: Pool<D>, p: Ptr, g: Pool<D>)
    requires p in h && (h[p].prev == NULL || h[p].prev in h) && (h[p].next == NULL || h[p].next in h)
    requires g == Free(if h[p].prev == NULL then if h[p].next == NULL then h else SetPrev(h, h[p].next, NULL)
                       else if h[p].next == NULL then SetNext(h, h[p].prev, NULL)
                       else SetPrev(SetNext(h, h[p].prev, h[p].next), h[p].next, h[p].prev), p)
    ensures g == Unlinked(h, p)
  {}

  lemma UnlinkedIsList<D>(h: Pool<D>, list: Ptr, s: seq<Ptr>, ds: seq<D>, k: nat)
    requires IsList(h, list, s, ds) && k < |s|
    requires s[k] in h && (h[s[k]].prev == NULL || h[s[k]].prev in h) && (h[s[k]].next == NULL || h[s[k]].next in h)
    ensures IsList(Unlinked(h, s[k]), First(Without(s, k)), Without(s, k), Without(ds, k))
  {
    hide Chain, Unlinked, Without;
    UnlinkedIsChain(h, s, k);
    UnlinkedData(h, s[k]);
    ListFacts(h, list, s, ds);
    WithoutMembers(s, k);
    var g, t, es := Unlinked(h, s[k]), Without(s, k), Without(ds, k);
    forall i | 0 <= i < |t|
      ensures t[i] in g && g[t[i]].data == es[i]
    {
      var j := if i < k then i else i + 1;
      WithoutAt(s, k, i);
      WithoutAt(ds, k, i);
      NodeFacts(h, list, s, ds, j);
      assert t[i] in t;
    }
  }

  lemma WithoutAt<T>(s: seq<T>, k: nat, i: nat)
    requires k < |s| && i < |s| - 1
    ensures Without(s, k)[i] == s[if i < k then i else i + 1]
  {}

  lemma UnlinkedData<D>(h: Pool<D>, p: Ptr)
    requires p in h && (h[p].prev == NULL || h[p].prev in h) && (h[p].next == NULL || h[p].next in h)
    ensures var g := Unlinked(h, p);
      && g.Keys == h.Keys - {p} && forall q :: q in g ==> g[q].data == h[q].data
  {}

  /** `free_list`. */
  method FreeList<D>(h: Pool<D>, list: Ptr, ghost s: seq<Ptr>, ghost ds: seq<D>) returns (g: Pool<D>)
    requires IsList(h, list, s, ds)
    ensures g == map[]
  {
    hide IsList, Chain, First;
    ListFacts(h, list, s, ds);
    g := h;
    assert s[0..] == s;
    var it := list;
    ghost var i := 0;
    while it != NULL
      invariant i <= |s| && it == First(s[i..]) && (it == NULL <==> i == |s|)
      invariant g.Keys == h.Keys - (set j | 0 <= j < i :: s[j])
      invariant forall p :: p in g ==> g[p] == h[p]
      decreases |s| - i
    {
      NodeFacts(h, list, s, ds, i);
      HeadOfTail(s, i);
      var next := g[it].next;
      g := Free(g, it);
      it, i := next, i + 1;
    }
  }

  lemma HeadOfTail(s: seq<Ptr>, i: nat)
    requires i < |s| && forall j, k :: 0 <= j < k < |s| ==> s[j] != s[k]
    ensures First(s[i..]) == s[i] && s[i] in s[i..] && forall p :: p in s[i + 1..] <==> p in s[i..] && p != s[i]
  {
    assert s[i..] == [s[i]] + s[i + 1..];
  }

  /** `get_list_count`. */
  method GetListCount<D>(h: Pool<D>, head: Ptr, ghost s: seq<Ptr>, ghost ds: seq<D>) returns (dim: nat)
    requires IsList(h, head, s, ds)
    ensures dim == |s|
  {
    ListFacts(h, head, s, ds);
    var node := head;
    dim := 0;
    while node != NULL
      invariant dim <= |s| && node == First(s[dim..]) && (node == NULL <==> dim == |s|)
      decreases |s| - dim
    {
      NodeFacts(h, head, s, ds, dim);
      node := h[node].next;
      dim := dim + 1;
    }
  }

  /** Writing the data of one node. */
  lemma DataWritten<D>(h: Pool<D>, head: Ptr, s: seq<Ptr>, ds: seq<D>, k: nat, d: D)
    requires IsList(h, head, s, ds) && k < |s| && s[k] in h
    ensures IsList(SetData(h, s[k], d), head, s, ds[k := d])
  {
    var g := SetData(h, s[k], d);
    ChainKept(h, g, s);
  }
}
