/** The C heap, one pool per node type. A pointer is a key of its pool: `malloc` returns any
    non-null pointer that is not live, `free` removes the key, and reading or writing a
    pointer that is not live is an error that verification excludes. */
module Memory {
  import opened Common

  type Ptr = nat

  const NULL: Ptr := 0

  /** A node of a doubly linked list. */
  datatype Cell<D> = Cell(data: D, prev: Ptr, next: Ptr)

  type Pool<D> = map<Ptr, Cell<D>>

  lemma SomePointerIsFree(live: set<Ptr>) returns (p: Ptr)
    ensures p != NULL && forall q :: q in live ==> q < p
  {
    if live == {} {
      p := 1;
    } else {
      var q :| q in live;
      var r := SomePointerIsFree(live - {q});
      p := if q < r then r else q + 1;
      assert forall x :: x in live ==> x == q || x in live - {q};
    }
  }

  method Malloc<D>(h: Pool<D>) returns (p: Ptr)
    ensures p != NULL && p !in h
  {
    ghost var free := SomePointerIsFree(h.Keys);
    assert free != NULL && free !in h;
    p :| p != NULL && p !in h;
  }

  ghost function First(s: seq<Ptr>): Ptr {
    if s == [] then NULL else s[0]
  }

  /** The cell of `s[i]` points at its two neighbours in `s`. */
  ghost predicate LinkedAt<D>(h: Pool<D>, s: seq<Ptr>, i: nat)
    requires i < |s|
  {
    && s[i] != NULL && s[i] in h
    && h[s[i]].prev == (if i == 0 then NULL else s[i - 1])
    && h[s[i]].next == (if i == |s| - 1 then NULL else s[i + 1])
  }

  /** `s` lists, in order, the nodes of a list whose `prev` and `next` are mutually inverse. */
  ghost predicate Chain<D>(h: Pool<D>, s: seq<Ptr>) {
    && (forall i, j :: 0 <= i < j < |s| ==> s[i] != s[j])
    && (forall i :: 0 <= i < |s| ==> LinkedAt(h, s, i))
  }

  function SetPrev<D>(h: Pool<D>, p: Ptr, v: Ptr): (g: Pool<D>)
    requires p in h
    ensures g == h[p := Cell(h[p].data, v, h[p].next)]
  {
    h[p := h[p].(prev := v)]
  }

  function SetNext<D>(h: Pool<D>, p: Ptr, v: Ptr): (g: Pool<D>)
    requires p in h
    ensures g == h[p := Cell(h[p].data, h[p].prev, v)]
  {
    h[p := h[p].(next := v)]
  }

  function SetData<D>(h: Pool<D>, p: Ptr, d: D): (g: Pool<D>)
    requires p in h
    ensures g == h[p := Cell(d, h[p].prev, h[p].next)]
  {
    h[p := h[p].(data := d)]
  }

  function Free<D>(h: Pool<D>, p: Ptr): (g: Pool<D>)
    requires p in h
    ensures p !in g && forall q :: q != p ==> (q in g <==> q in h) && (q in g ==> g[q] == h[q])
  {
    h - {p}
  }

  /** Both pools link the nodes of `s` alike. */
  ghost predicate SameLinks<D>(h: Pool<D>, g: Pool<D>, s: seq<Ptr>) {
    forall p :: p in s && p in h ==> p in g && g[p].prev == h[p].prev && g[p].next == h[p].next
  }

  lemma ChainKept<D>(h: Pool<D>, g: Pool<D>, s: seq<Ptr>)
    requires Chain(h, s) && SameLinks(h, g, s)
    ensures Chain(g, s)
  {
    forall i | 0 <= i < |s|
      ensures LinkedAt(g, s, i)
    {
      assert LinkedAt(h, s, i);
    }
  }

  /** The pool after `malloc` returned `p` and `p` was linked in before the list `list`. */
  function Prepended<D>(h: Pool<D>, list: Ptr, p: Ptr, d: D): Pool<D>
    requires list == NULL || list in h
  {
    var g := h[p := Cell(d, NULL, list)];
    if list == NULL then g else SetPrev(g, list, p)
  }

  lemma PrependedIsChain<D>(h: Pool<D>, s: seq<Ptr>, p: Ptr, d: D)
    requires Chain(h, s) && p != NULL && p !in h
    requires First(s) == NULL || First(s) in h
    ensures Chain(Prepended(h, First(s), p, d), [p] + s)
  {
    var g, t := Prepended(h, First(s), p, d), [p] + s;
    forall i | 0 <= i < |t|
      ensures LinkedAt(g, t, i)
    {
      if i > 0 {
        assert LinkedAt(h, s, i - 1);
      }
      if s != [] {
        assert LinkedAt(h, s, 0);
      }
    }
    forall i, j | 0 <= i < j < |t|
      ensures t[i] != t[j]
    {
      assert LinkedAt(h, s, j - 1);
    }
  }

  /** The pool after `p` was linked in after `last`, the end of a list. */
  function Appended<D>(h: Pool<D>, last: Ptr, p: Ptr, d: D): Pool<D>
    requires last == NULL || last in h
  {
    var g := h[p := Cell(d, last, NULL)];
    if last == NULL then g else SetNext(g, last, p)
  }

  ghost function Last(s: seq<Ptr>): Ptr {
    if s == [] then NULL else s[|s| - 1]
  }

  lemma AppendedIsChain<D>(h: Pool<D>, s: seq<Ptr>, p: Ptr, d: D)
    requires Chain(h, s) && p != NULL && p !in h
    requires Last(s) == NULL || Last(s) in h
    ensures Chain(Appended(h, Last(s), p, d), s + [p])
  {
    var g, t := Appended(h, Last(s), p, d), s + [p];
    forall i | 0 <= i < |t|
      ensures LinkedAt(g, t, i)
    {
      if i < |s| {
        assert LinkedAt(h, s, i);
      }
      if s != [] {
        assert LinkedAt(h, s, |s| - 1);
      }
    }
    forall i, j | 0 <= i < j < |t|
      ensures t[i] != t[j]
    {
      assert LinkedAt(h, s, i);
    }
  }

  /** The pool after the neighbours of `p` were linked to each other and `p` was freed. */
  function Unlinked<D>(h: Pool<D>, p: Ptr): Pool<D>
    requires p in h
    requires h[p].prev == NULL || h[p].prev in h
    requires h[p].next == NULL || h[p].next in h
  {
    var g := if h[p].prev == NULL then h else SetNext(h, h[p].prev, h[p].next);
    var f := if h[p].next == NULL then g else SetPrev(g, h[p].next, h[p].prev);
    Free(f, p)
  }

  lemma EmptyChain<D>(h: Pool<D>, s: seq<Ptr>)
    requires Chain(h, s)
    ensures First(s) == NULL <==> s == []
    ensures Last(s) == NULL <==> s == []
  {
    if s != [] {
      assert LinkedAt(h, s, 0);
      assert LinkedAt(h, s, |s| - 1);
    }
  }

  lemma Neighbours<D>(h: Pool<D>, s: seq<Ptr>, k: nat)
    requires Chain(h, s) && k < |s|
    ensures s[k] != NULL && s[k] in h
    ensures h[s[k]].prev == NULL <==> k == 0
    ensures k > 0 ==> h[s[k]].prev == s[k - 1] && s[k - 1] in h
    ensures h[s[k]].next == NULL <==> k == |s| - 1
    ensures k < |s| - 1 ==> h[s[k]].next == s[k + 1] && s[k + 1] in h
  {
    assert LinkedAt(h, s, k);
    if k > 0 {
      assert LinkedAt(h, s, k - 1);
    }
    if k < |s| - 1 {
      assert LinkedAt(h, s, k + 1);
    }
  }

  lemma UnlinkedIsChain<D>(h: Pool<D>, s: seq<Ptr>, k: nat)
    requires Chain(h, s) && k < |s|
    requires s[k] in h && (h[s[k]].prev == NULL || h[s[k]].prev in h) && (h[s[k]].next == NULL || h[s[k]].next in h)
    ensures Chain(Unlinked(h, s[k]), Without(s, k))
    ensures forall q :: q in h && q !in s ==> q in Unlinked(h, s[k]) && Unlinked(h, s[k])[q] == h[q]
  {
    var g, t := Unlinked(h, s[k]), Without(s, k);
    Neighbours(h, s, k);
    forall i | 0 <= i < |t|
      ensures LinkedAt(g, t, i)
    {
      var j := if i < k then i else i + 1;
      Neighbours(h, s, j);
      assert t[i] == s[j];
    }
  }
}
