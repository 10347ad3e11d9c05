/** The bootstrap server: its list of superpeers with the iterator that hands them out in
    turn (src/bootstrap/sp_list.c, src/bootstrap/bootstrap.c, src/bootstrap/sp_list_checker.c). */
module Bootstrap {
  import opened Common
  import opened Memory
  import opened Bytes
  import opened DoublyLinked

  /** ADDR_TOSEND. */
  const ADDR_TOSEND := 2

  datatype Sp = Sp(addr: Addr, freeSpots: byte, flag: bool)

  /** No address is listed twice. */
  ghost predicate OneEach(sps: seq<Sp>) {
    forall i, j :: 0 <= i < j < |sps| ==> sps[i].addr != sps[j].addr
  }

  // ---- whose turn it is

  /** Position `x` around a list of `n`. */
  function Wrap(n: nat, x: nat): (w: nat)
    requires n > 0
    ensures w < n
  {
    if x < n then x else Wrap(n, x - n)
  }

  /** `k` turns from `q` on, around a list of `n`. */
  function Turns(n: nat, q: nat, k: nat): (t: seq<nat>)
    requires n > 0
    ensures |t| == k && forall i :: 0 <= i < k ==> t[i] < n
  {
    if k == 0 then [] else Turns(n, q, k - 1) + [Wrap(n, q + k - 1)]
  }

  lemma {:induction false} Turn(n: nat, q: nat, k: nat, i: nat)
    requires n > 0 && i < k
    ensures Turns(n, q, k)[i] == Wrap(n, q + i)
  {
    if i < k - 1 {
      Turn(n, q, k - 1, i);
    }
  }

  function Count<T(==)>(t: seq<T>, a: T): nat {
    multiset(t)[a]
  }

  /** How often `a` is handed out in `m` replies of `k` turns, each starting one further on. */
  ghost function Times(n: nat, q: nat, k: nat, m: nat, a: nat): nat
    requires n > 0
  {
    if m == 0 then 0 else Times(n, q, k, m - 1, a) + Count(Turns(n, q + m - 1, k), a)
  }

  lemma CountNext<T>(t: seq<T>, x: T, a: T)
    ensures Count(t + [x], a) == Count(t, a) + if x == a then 1 else 0
  {}

  lemma TurnsNext(n: nat, q: nat, k: nat)
    requires n > 0
    ensures Turns(n, q, k + 1) == Turns(n, q, k) + [Wrap(n, q + k)] && Turns(n, q, 0) == []
  {}

  /** A longer reply hands out one more every time: a round of its own. */
  lemma {:induction false} OneMoreTurn(n: nat, q: nat, k: nat, m: nat, a: nat)
    requires n > 0
    ensures Times(n, q, k + 1, m, a) == Times(n, q, k, m, a) + Count(Turns(n, q + k, m), a)
  {
    hide Turns, Wrap, Count;
    if m == 0 {
      TurnsNext(n, q + k, 0);
      CountNone(a);
    } else {
      OneMoreTurn(n, q, k, m - 1, a);
      TurnsNext(n, q + m - 1, k);
      TurnsNext(n, q + k, m - 1);
      CountNext(Turns(n, q + m - 1, k), Wrap(n, q + m - 1 + k), a);
      CountNext(Turns(n, q + k, m - 1), Wrap(n, q + k + m - 1), a);
    }
  }

  lemma CountNone(a: nat)
    ensures Count([], a) == 0
  {}

  lemma {:induction false} TurnAt(n: nat, q: nat, i: nat)
    requires i < n
    ensures Wrap(n, q + i) == if Wrap(n, q) + i < n then Wrap(n, q) + i else Wrap(n, q) + i - n
  {
    if q >= n {
      TurnAt(n, q - n, i);
    }
  }

  /** A full round hands out everybody once. */
  lemma FullRound(n: nat, q: nat, a: nat)
    requires a < n
    ensures Count(Turns(n, q, n), a) == 1
  {
    var t, r := Turns(n, q, n), Wrap(n, q);
    var i := if a >= r then a - r else a - r + n;
    TurnAt(n, q, i);
    Turn(n, q, n, i);
    assert t[i] == a;
    forall j | 0 <= j < n && j != i
      ensures t[j] != a
    {
      TurnAt(n, q, j);
      Turn(n, q, n, j);
    }
    OnceIn(t, i, a);
  }

  lemma OnceIn<T>(t: seq<T>, i: nat, a: T)
    requires i < |t| && t[i] == a && forall j :: 0 <= j < |t| && j != i ==> t[j] != a
    ensures Count(t, a) == 1
  {
    assert t == t[..i] + [a] + t[i + 1..];
    assert a !in t[..i] && a !in t[i + 1..];
  }

  /** Over as many replies as there are superpeers, each is handed out once per turn. */
  lemma {:induction false} FairRotation(n: nat, q: nat, k: nat, a: nat)
    requires a < n
    ensures Times(n, q, k, n, a) == k
  {
    hide Times, Turns, Count, Wrap;
    if k == 0 {
      NoTurns(n, q, n, a);
    } else {
      FairRotation(n, q, k - 1, a);
      OneMoreTurn(n, q, k - 1, n, a);
      FullRound(n, q + k - 1, a);
    }
  }

  lemma {:induction false} NoTurns(n: nat, q: nat, m: nat, a: nat)
    requires n > 0
    ensures Times(n, q, 0, m, a) == 0
  {
    if m > 0 {
      NoTurns(n, q, m - 1, a);
    }
  }

  /** One reply never repeats anybody. */
  lemma TurnsDiffer(n: nat, q: nat, k: nat)
    requires 0 < n && k <= n
    ensures Distinct(Turns(n, q, k))
  {
    forall i, j | 0 <= i < j < k
      ensures Turns(n, q, k)[i] != Turns(n, q, k)[j]
    {
      TurnAt(n, q, i);
      TurnAt(n, q, j);
      Turn(n, q, k, i);
      Turn(n, q, k, j);
    }
  }

  // ---- the list and its iterator

  /** The iterator is at a live node unless the list is empty. */
  ghost predicate Iterates(s: seq<Ptr>, it: Ptr, pos: nat) {
    if s == [] then it == NULL else pos < |s| && it == s[pos]
  }

  lemma IteratesBefore(s: seq<Ptr>, it: Ptr, pos: nat, p: Ptr)
    requires Iterates(s, it, pos) && NULL !in s && p != NULL
    ensures Iterates([p] + s, if it == NULL then p else it, if it == NULL then 0 else pos + 1)
    ensures s != [] ==> it != NULL
  {}

  lemma IteratesWithout(s: seq<Ptr>, it: Ptr, pos: nat, k: nat)
    requires Iterates(s, it, pos) && k < |s| && forall i, j :: 0 <= i < j < |s| ==> s[i] != s[j]
    ensures it == s[k] <==> pos == k
    ensures pos != k ==> Iterates(Without(s, k), it, if pos > k then pos - 1 else pos)
    ensures pos == k && k + 1 < |s| ==> Iterates(Without(s, k), s[k + 1], k)
    ensures pos == k && 0 < k && k + 1 == |s| ==> Iterates(Without(s, k), s[k - 1], k - 1)
    ensures |s| == 1 ==> Iterates(Without(s, k), NULL, pos)
  {}

  /** The one entry of an address. */
  lemma OnlyEntry(sps: seq<Sp>, k: nat)
    requires OneEach(sps) && k < |sps|
    ensures forall i :: 0 <= i < |sps| && sps[i].addr == sps[k].addr ==> i == k
  {}

  lemma OneEachKept(sps: seq<Sp>, k: nat, sp: Sp)
    requires OneEach(sps) && k < |sps| && sp.addr == sps[k].addr
    ensures OneEach(sps[k := sp])
  {}

  lemma OneEachBefore(sps: seq<Sp>, sp: Sp)
    requires OneEach(sps) && forall i :: 0 <= i < |sps| ==> sps[i].addr != sp.addr
    ensures OneEach([sp] + sps)
  {}

  class SpList {
    var nodes: Pool<Sp>
    var head: Ptr
    var it: Ptr
    var spCount: int
    ghost var s: seq<Ptr>
    ghost var sps: seq<Sp>
    ghost var pos: nat

    /** The list is linked up and counted, and the iterator is at a live node unless the list is
        empty. */
    ghost predicate Valid()
      reads this
    {
      && IsList(nodes, head, s, sps) && |s| == |sps|
      && OneEach(sps)
      && spCount == |sps|
      && Iterates(s, it, pos)
    }

    constructor ()
      ensures Valid() && sps == []
    {
      nodes, head, it, spCount := map[], NULL, NULL, 0;
      s, sps, pos := [], [], 0;
      EmptyList<Sp>();
    }

    /** `get_node_sp`. */
    method GetNodeSp(addr: Addr) returns (node: Ptr, ghost k: nat)
      requires Valid()
      ensures if node == NULL then forall i :: 0 <= i < |sps| ==> sps[i].addr != addr
              else k < |s| && node == s[k] && sps[k].addr == addr
      ensures node == NULL <==> forall i :: 0 <= i < |sps| ==> sps[i].addr != addr
      ensures node != NULL ==> node in nodes && nodes[node].data.addr == addr
    {
      hide IsList;
      ListFacts(nodes, head, s, sps);
      node, k := head, 0;
      while node != NULL
        invariant k <= |s| && node == First(s[k..]) && (node == NULL <==> k == |s|)
        invariant forall i :: 0 <= i < k ==> sps[i].addr != addr
        decreases |s| - k
      {
        NodeFacts(nodes, head, s, sps, k);
        if nodes[node].data.addr == addr {
          return;
        }
        node, k := nodes[node].next, k + 1;
      }
    }

    method AddSp(sp: Sp)
      requires Valid() && forall i :: 0 <= i < |sps| ==> sps[i].addr != sp.addr
      modifies this
      ensures Valid() && sps == [sp] + old(sps)
      ensures old(sps) != [] ==> it == old(it)
    {
      hide IsList, OneEach, Iterates;
      NoNullNode(nodes, head, s, sps);
      OneEachBefore(sps, sp);
      var h, p := InsertNode(nodes, head, sp, s, sps);
      ListFacts(h, p, [p] + s, [sp] + sps);
      IteratesBefore(s, it, pos, p);
      nodes, head := h, p;
      pos := if it == NULL then 0 else pos + 1;
      if it == NULL {
        it := head;
      }
      s, sps := [head] + s, [sp] + sps;
      spCount := spCount + 1;
    }

    /** `insert_sp`: a new superpeer goes in front; a known one is marked alive. */
    method InsertSp(addr: Addr, freeSpots: byte)
      requires Valid()
      modifies this
      ensures Valid()
      ensures forall k :: 0 <= k < |old(sps)| && old(sps)[k].addr == addr ==> sps == old(sps)[k := old(sps)[k].(flag := true)]
      ensures (forall k :: 0 <= k < |old(sps)| ==> old(sps)[k].addr != addr) ==> sps == [Sp(addr, freeSpots, true)] + old(sps)
      ensures old(sps) != [] ==> it == old(it)
    {
      hide IsList, OneEach, Iterates;
      ListFacts(nodes, head, s, sps);
      if head == NULL {
        spCount := 0;
      }
      var node, k := GetNodeSp(addr);
      if node == NULL {
        AddSp(Sp(addr, freeSpots, true));
      } else {
        OnlyEntry(sps, k);
        NodeFacts(nodes, head, s, sps, k);
        OneEachKept(sps, k, sps[k].(flag := true));
        DataWritten(nodes, head, s, sps, k, sps[k].(flag := true));
        nodes := SetData(nodes, node, nodes[node].data.(flag := true));
        sps := sps[k := sps[k].(flag := true)];
      }
    }

    /** `remove_sp`: the iterator moves off the node first. */
    method RemoveSp(addr: Addr) returns (ghost k: nat)
      requires Valid()
      modifies this
      ensures Valid()
      ensures (forall i :: 0 <= i < |old(sps)| ==> old(sps)[i].addr != addr) ==> sps == old(sps) && s == old(s) && it == old(it)
      ensures (exists i :: 0 <= i < |old(sps)| && old(sps)[i].addr == addr) ==>
        && k < |old(sps)| == |old(s)| && old(sps)[k].addr == addr
        && sps == Without(old(sps), k) && s == Without(old(s), k)
        && it == if old(it) != old(s)[k] then old(it) else if k + 1 < |old(s)| then old(s)[k + 1] else if k > 0 then old(s)[k - 1] else NULL
    {
      hide IsList, OneEach, Iterates;
      var node;
      node, k := GetNodeSp(addr);
      if node != NULL {
        ListFacts(nodes, head, s, sps);
        NodeFacts(nodes, head, s, sps, k);
        IteratesWithout(s, it, pos, k);
        pos := if pos > k then pos - 1 else if pos == k && 0 < k == |s| - 1 then k - 1 else pos;
        if it == node {
          if nodes[node].next != NULL {
            it := nodes[node].next;
          } else if nodes[node].prev != NULL {
            it := nodes[node].prev;
          } else {
            it := NULL;
          }
        }
        var h, p := RemoveNode(nodes, head, node, s, sps, k);
        nodes, head := h, p;
        OneEachWithout(sps, k);
        s, sps := Without(s, k), Without(sps, k);
        spCount := spCount - 1;
      }
    }

    /** `update_sp_flag`: a superpeer pinged. */
    method UpdateSpFlag(addr: Addr, freeSpots: byte) returns (ok: bool)
      requires Valid()
      modifies `nodes, `sps
      ensures Valid() && s == old(s) && (ok <==> exists k :: 0 <= k < |sps| && sps[k].addr == addr)
      ensures forall k :: 0 <= k < |old(sps)| && old(sps)[k].addr == addr ==> sps == old(sps)[k := Sp(addr, freeSpots, true)]
      ensures !ok ==> sps == old(sps)
    {
      hide IsList;
      var node, k := GetNodeSp(addr);
      ok := node != NULL;
      if ok {
        NodeFacts(nodes, head, s, sps, k);
        DataWritten(nodes, head, s, sps, k, Sp(addr, freeSpots, true));
        nodes := SetData(nodes, node, nodes[node].data.(flag := true, freeSpots := freeSpots));
        sps := sps[k := Sp(addr, freeSpots, true)];
        assert sps[k].addr == addr;
      }
    }

    /** The sweep at one node. */
    method SweepNode(node: Ptr, ghost i: nat) returns (next: Ptr)
      requires Valid() && i < |s| && node == s[i]
      modifies this
      ensures Valid() && next == First(old(s)[i + 1..])
      ensures if old(sps)[i].flag then sps == old(sps)[i := old(sps)[i].(flag := false)] && s == old(s)
              else sps == Without(old(sps), i) && s == Without(old(s), i)
      ensures old(sps)[i].flag || old(it) != node ==> it == old(it)
    {
      hide IsList, OneEach, Iterates, First, Without, SetData;
      NodeFacts(nodes, head, s, sps, i);
      var sp := nodes[node].data;
      next := nodes[node].next;
      OnlyEntry(sps, i);
      if !sp.flag {
        ghost var k := RemoveSp(sp.addr);
        assert k == i;
      } else {
        OneEachKept(sps, i, sp.(flag := false));
        DataWritten(nodes, head, s, sps, i, sp.(flag := false));
        nodes := SetData(nodes, node, sp.(flag := false));
        sps := sps[i := sp.(flag := false)];
      }
    }

    /** One pass of `sp_list_checker_func`: who has not been heard of since the last one goes; the
        iterator stays where it is unless its own superpeer goes. */
    method Sweep()
      requires Valid()
      modifies this
      ensures Valid() && sps == AfterSweep(old(sps))
      ensures old(pos) < |old(sps)| && old(sps)[old(pos)].flag ==> it == old(it)
    {
      hide IsList, AfterSweep, OneEach, Iterates, Sweeping, First, Without;
      ghost var all, was, j := sps, s, 0;
      SweepStarts(all, s);
      ListFacts(nodes, head, s, sps);
      var node := head;
      while node != NULL
        invariant j <= |all| && Valid() && Sweeping(all, was, j, sps, s, node)
        invariant old(pos) < |all| && all[old(pos)].flag ==> it == old(it)
        decreases |all| - j
      {
        ghost var i := |AfterSweep(all[..j])|;
        SweepFacts(all, was, j, sps, s, node, old(it), old(pos));
        if all[j].flag {
          SweepKeeps(all, was, j, sps, s, node);
        } else {
          SweepDrops(all, was, j, sps, s, node);
        }
        node := SweepNode(node, i);
        j := j + 1;
      }
      NullEnds(nodes, head, s, sps);
      SweepEnds(all, was, j, sps, s);
    }

    // ---- handing out addresses

    /** `get_addr`: the address at the iterator, which moves on and around. */
    method GetAddr() returns (addr: Addr)
      requires Valid() && sps != []
      modifies `it, `pos
      ensures Valid() && addr == sps[old(pos)].addr && old(pos) < |sps| && pos == Wrap(|sps|, old(pos) + 1)
    {
      hide IsList;
      ListFacts(nodes, head, s, sps);
      NodeFacts(nodes, head, s, sps, pos);
      addr := nodes[it].data.addr;
      if nodes[it].next != NULL {
        it := nodes[it].next;
        pos := pos + 1;
      } else {
        it := head;
        pos := 0;
      }
    }

    /** `set_str_addrlist` for a peer: the next addresses in turn; the iterator moves on by one. */
    method SetStrAddrlist() returns (ret: nat, str: seq<byte>)
      requires Valid() && sps != []
      modifies `it, `pos
      ensures Valid() && old(pos) < |sps| && pos == Wrap(|sps|, old(pos) + 1)
      ensures ret == if |sps| < ADDR_TOSEND then |sps| else ADDR_TOSEND
      ensures |str| <= 6 * ADDR_TOSEND && Decoded(str) == Picked(sps, Turns(|sps|, old(pos), ret))
    {
      hide IsList, Picked, Turns, Decoded, Addr2Str, Wrap;
      ghost var n, q := |sps|, pos;
      InRange(nodes, head, s, sps, it, pos);
      WrapOnce(n, q);
      ret := ADDR_TOSEND;
      if spCount < ADDR_TOSEND {
        ret := spCount;
      }
      var saddr := GetAddr();
      var itTmp := it;
      ghost var posTmp := pos;
      str := [];
      NothingPicked(sps, q);
      for i := 0 to ret
        invariant Valid() && |str| == 6 * i && Decoded(str) == Picked(sps, Turns(n, q, i))
        invariant saddr == sps[Wrap(n, q + i)].addr && pos == Wrap(n, q + i + 1)
      {
        PickedNext(sps, q, i);
        DecodedOne(saddr);
        DecodedAppend(str, Addr2Str(saddr), i);
        WrapNext(n, q + i + 1);
        str := str + Addr2Str(saddr);
        saddr := GetAddr();
      }
      it, pos := itTmp, posTmp;
      WrapOnce(n, q + 1);
    }

    /** `get_addr_sp`: up to ADDR_TOSEND superpeers with room, the one found last in front. */
    method GetAddrSp() returns (h: Pool<Sp>, ret: Ptr, dim: nat, ghost t: seq<Ptr>, ghost ds: seq<Sp>)
      requires Valid()
      ensures IsList(h, ret, t, ds) && dim == |ds| <= ADDR_TOSEND
      ensures dim == |FirstOf(WithRoom(sps), ADDR_TOSEND)| && (ret == NULL <==> dim == 0)
      ensures ds == Backwards(FirstOf(WithRoom(sps), ADDR_TOSEND))
    {
      hide IsList, WithRoom, Backwards;
      ListFacts(nodes, head, s, sps);
      h, ret, dim, t, ds := map[], NULL, 0, [], [];
      EmptyList<Sp>();
      NobodyYet(sps);
      var node := head;
      ghost var j := 0;
      while node != NULL
        invariant j <= |sps| && node == First(s[j..]) && (node == NULL <==> j == |s|)
        invariant IsList(h, ret, t, ds) && dim == |ds| == |WithRoom(sps[..j])| < ADDR_TOSEND
        invariant ds == Backwards(WithRoom(sps[..j]))
        decreases |s| - j
      {
        NodeFacts(nodes, head, s, sps, j);
        WithRoomNext(sps, j);
        var sp := nodes[node].data;
        if sp.freeSpots > 0 {
          var g, p := InsertNode(h, ret, sp, t, ds);
          h, ret, t, ds := g, p, [p] + t, [sp] + ds;
          dim := dim + 1;
          BackwardsNext(WithRoom(sps[..j]), sp);
          if dim >= ADDR_TOSEND {
            RoomPrefix(sps, j + 1);
            ListFacts(h, ret, t, ds);
            return;
          }
        }
        node, j := nodes[node].next, j + 1;
      }
      assert sps[..j] == sps;
      ListFacts(h, ret, t, ds);
    }

    /** `set_str_addrlist` for a superpeer; there may be nobody with room. */
    method SetStrAddrlistSp() returns (ok: bool, ret: nat, str: seq<byte>)
      requires Valid()
      ensures ok <==> exists i :: 0 <= i < |sps| && sps[i].freeSpots > 0
      ensures ok ==> |str| == 6 * ret && ret <= ADDR_TOSEND && Decoded(str) == AddrsOf(Backwards(FirstOf(WithRoom(sps), ADDR_TOSEND)))
    {
      hide IsList, WithRoom, Backwards, Decoded, Addr2Str, AddrsOf;
      var h, list, dim, t, ds := GetAddrSp();
      ret, str := dim, [];
      ListFacts(h, list, t, ds);
      SomebodyHasRoom(sps);
      ok := list != NULL;
      if !ok {
        return;
      }
      NoAddrs(ds);
      var node := list;
      ghost var i := 0;
      while node != NULL
        invariant i <= |t| && node == First(t[i..]) && (node == NULL <==> i == |t|)
        invariant |str| == 6 * i && Decoded(str) == AddrsOf(ds[..i])
        decreases |t| - i
      {
        NodeFacts(h, list, t, ds, i);
        NextAddr(ds, i);
        DecodedOne(ds[i].addr);
        DecodedAppend(str, Addr2Str(ds[i].addr), i);
        str := str + Addr2Str(h[node].data.addr);
        node, i := h[node].next, i + 1;
      }
      assert ds[..i] == ds;
      var _ := FreeList(h, list, t, ds);
    }
  }

  // ---- joins

  /** What a joining client is told. */
  datatype Reply = Promote(addr: Addr) | List(str: seq<byte>) | NoReply

  /** `sp_join`: the first client to join becomes a superpeer, and so does the only superpeer if
      it joins again; everybody else gets a list of addresses. */
  method SpJoin(l: SpList, addr: Addr, superpeer: bool) returns (reply: Reply)
    requires l.Valid()
    modifies l
    ensures l.Valid()
    ensures reply == Promote(addr) <==> old(l.sps) == [] || (|old(l.sps)| == 1 && old(l.sps)[0].addr == addr)
    ensures l.sps == if old(l.sps) == [] then [Sp(addr, 4, true)] else old(l.sps)
    ensures reply.Promote? <==> old(l.sps) == [] || (|old(l.sps)| == 1 && old(l.sps)[0].addr == addr)
    ensures reply.Promote? ==> reply.addr == addr
    ensures !reply.Promote? ==> (reply.List? <==> !superpeer || exists i :: 0 <= i < |l.sps| && l.sps[i].freeSpots > 0)
    ensures reply.List? && !superpeer ==>
      && Decoded(reply.str) == Picked(l.sps, Turns(|l.sps|, old(l.pos), Least(|l.sps|)))
      && l.pos == Wrap(|l.sps|, old(l.pos) + 1)
    ensures reply.List? && superpeer ==> Decoded(reply.str) == AddrsOf(Backwards(FirstOf(WithRoom(l.sps), ADDR_TOSEND)))
    ensures reply.List? && superpeer ==> FirstWithRoom(l.sps, Decoded(reply.str))
  {
    hide IsList, Picked, Turns, Decoded, WithRoom, Backwards, AddrsOf, OneEach, Iterates;
    ListFacts(l.nodes, l.head, l.s, l.sps);
    if l.head == NULL {
      l.InsertSp(addr, ADDR_TOSEND * 2);
      return Promote(addr);
    }
    if l.spCount == 1 {
      NodeFacts(l.nodes, l.head, l.s, l.sps, 0);
      if l.nodes[l.head].data.addr == addr {
        return Promote(addr);
      }
    }
    if superpeer {
      var ok, _, str := l.SetStrAddrlistSp();
      if ok {
        RoomReply(l.sps);
      }
      return if ok then List(str) else NoReply;
    }
    var _, str := l.SetStrAddrlist();
    return List(str);
  }

  function Least(n: nat): nat {
    if n < ADDR_TOSEND then n else ADDR_TOSEND
  }

  /** The list has one or two of the entries with room, two if there are two; and of two the one that
      comes first in the list stands last. */
  ghost predicate FirstWithRoom(sps: seq<Sp>, list: seq<Addr>) {
    && 1 <= |list| <= 2
    && exists i :: 0 <= i < |sps| && sps[i].addr == list[|list| - 1] && sps[i].freeSpots > 0
         && (forall h :: 0 <= h < i ==> sps[h].freeSpots == 0)
         && if |list| == 1 then forall h :: i < h < |sps| ==> sps[h].freeSpots == 0
            else exists j :: i < j < |sps| && sps[j].addr == list[0] && sps[j].freeSpots > 0
                   && forall h :: i < h < j ==> sps[h].freeSpots == 0
  }

  lemma {:induction false} RoomJoin(a: seq<Sp>, b: seq<Sp>)
    ensures WithRoom(a + b) == WithRoom(a) + WithRoom(b)
  {
    if b == [] {
      assert a + b == a;
    } else {
      assert (a + b)[..|a| + |b| - 1] == a + b[..|b| - 1];
      RoomJoin(a, b[..|b| - 1]);
    }
  }

  /** The first entry with room, and what comes behind it. */
  lemma {:induction false} SplitAtRoom(sps: seq<Sp>) returns (i: nat)
    requires WithRoom(sps) != []
    ensures i < |sps| && sps[i].freeSpots > 0 && forall h :: 0 <= h < i ==> sps[h].freeSpots == 0
    ensures WithRoom(sps) == [sps[i]] + WithRoom(sps[i + 1..])
  {
    RoomJoin([sps[0]], sps[1..]);
    assert [sps[0]][..0] == [] && [sps[0]] + sps[1..] == sps;
    if sps[0].freeSpots > 0 {
      i := 0;
    } else {
      var k := SplitAtRoom(sps[1..]);
      i := k + 1;
      assert sps[1..][k + 1..] == sps[i + 1..];
      forall h | 0 <= h < i
        ensures sps[h].freeSpots == 0
      {
        assert h > 0 ==> sps[h] == sps[1..][h - 1];
      }
    }
  }

  lemma {:induction false} NoRoom(sps: seq<Sp>)
    ensures WithRoom(sps) == [] <==> forall h :: 0 <= h < |sps| ==> sps[h].freeSpots == 0
  {
    if sps != [] {
      NoRoom(sps[..|sps| - 1]);
      assert forall h :: 0 <= h < |sps| - 1 ==> sps[..|sps| - 1][h] == sps[h];
    }
  }

  lemma {:induction false} RoomReply(sps: seq<Sp>)
    requires exists i :: 0 <= i < |sps| && sps[i].freeSpots > 0
    ensures FirstWithRoom(sps, AddrsOf(Backwards(FirstOf(WithRoom(sps), ADDR_TOSEND))))
  {
    hide WithRoom;
    NoRoom(sps);
    var i := SplitAtRoom(sps);
    var rest := sps[i + 1..];
    NoRoom(rest);
    assert forall h :: i < h < |sps| ==> sps[h] == rest[h - i - 1];
    if WithRoom(rest) == [] {
      var one := [sps[i]];
      assert WithRoom(sps) == one && one[..0] == [];
      assert Backwards(one) == [sps[i]] + Backwards([]);
      assert AddrsOf(Backwards(one)) == [sps[i].addr];
      forall h | i < h < |sps|
        ensures sps[h].freeSpots == 0
      {
        assert sps[h] == rest[h - i - 1];
      }
    } else {
      var k := SplitAtRoom(rest);
      var j := i + 1 + k;
      assert sps[j] == rest[k];
      var two := [sps[i], sps[j]];
      assert FirstOf(WithRoom(sps), 2) == two;
      assert two[..1] == [sps[i]] && [sps[i]][..0] == [];
      assert Backwards(two) == [sps[j], sps[i]];
      assert AddrsOf(Backwards(two)) == [sps[j].addr, sps[i].addr];
      forall h | i < h < j
        ensures sps[h].freeSpots == 0
      {
        assert sps[h] == rest[h - i - 1];
      }
    }
  }

  /** As many peers join, one after the other, as there are superpeers, and each is told a list. Only
      the one superpeer there is would be told something else. */
  method Round(l: SpList, joining: seq<Addr>) returns (replies: seq<seq<byte>>)
    requires l.Valid() && l.sps != [] && |joining| == |l.sps|
    requires |l.sps| == 1 ==> joining[0] != l.sps[0].addr
    modifies l
    ensures l.Valid() && l.sps == old(l.sps) && |replies| == |l.sps|
    ensures forall i :: 0 <= i < |l.sps| ==> Handed(replies, l.sps[i].addr) == if |l.sps| == 1 then 1 else 2
    ensures forall m :: 0 <= m < |replies| ==> Distinct(Decoded(replies[m]))
  {
    hide IsList, Picked, Turns, Decoded, OneEach, Iterates, Wrap, Handed, Times, FirstWithRoom, WithRoom, Backwards, AddrsOf;
    ghost var n, q, k := |l.sps|, l.pos, Least(|l.sps|);
    InRange(l.nodes, l.head, l.s, l.sps, l.it, l.pos);
    WrapOnce(n, q);
    replies := [];
    NobodyHanded(n, q, k);
    var m := 0;
    while m < |joining|
      invariant m <= n && l.Valid() && l.sps == old(l.sps) && l.pos == Wrap(n, q + m) && |replies| == m
      invariant forall i :: 0 <= i < n ==> Handed(replies, l.sps[i].addr) == Times(n, q, k, m, i)
      invariant forall j :: 0 <= j < m ==> Distinct(Decoded(replies[j]))
    {
      ghost var p := l.pos;
      var reply := SpJoin(l, joining[m], false);
      var str := reply.str;
      WrapNext(n, q + m);
      SameTurns(n, p, q + m, k);
      TurnsDiffer(n, q + m, k);
      PickedDistinct(l.sps, Turns(n, q + m, k));
      forall i | 0 <= i < n
        ensures Handed(replies + [str], l.sps[i].addr) == Times(n, q, k, m + 1, i)
      {
        HandedNext(replies, str, l.sps[i].addr);
        CountPicked(l.sps, Turns(n, q + m, k), i);
        TimesNext(n, q, k, m, i);
      }
      replies, m := replies + [str], m + 1;
    }
    forall i | 0 <= i < n
      ensures Times(n, q, k, n, i) == k
    {
      FairRotation(n, q, k, i);
    }
  }

  /** How often an address occurs in a number of replies. */
  ghost function Handed(replies: seq<seq<byte>>, addr: Addr): nat {
    if replies == [] then 0
    else Handed(replies[..|replies| - 1], addr) + Count(Decoded(replies[|replies| - 1]), addr)
  }

  lemma HandedNext(replies: seq<seq<byte>>, str: seq<byte>, addr: Addr)
    ensures Handed(replies + [str], addr) == Handed(replies, addr) + Count(Decoded(str), addr)
  {
    hide Decoded, Count;
    assert (replies + [str])[..|replies|] == replies;
  }

  lemma TimesNext(n: nat, q: nat, k: nat, m: nat, a: nat)
    requires n > 0
    ensures Times(n, q, k, m + 1, a) == Times(n, q, k, m, a) + Count(Turns(n, q + m, k), a)
  {}

  lemma NobodyHanded(n: nat, q: nat, k: nat)
    requires n > 0
    ensures forall addr :: Handed([], addr) == 0
    ensures forall a :: Times(n, q, k, 0, a) == 0
  {}

  /** Only the position matters. */
  lemma {:induction false} SameTurns(n: nat, p: nat, q: nat, k: nat)
    requires n > 0 && p == Wrap(n, q)
    ensures Turns(n, p, k) == Turns(n, q, k)
  {
    if k > 0 {
      SameTurns(n, p, q, k - 1);
      SameWrap(n, p, q, k - 1);
    }
  }

  lemma {:induction false} SameWrap(n: nat, p: nat, q: nat, i: nat)
    requires n > 0 && p == Wrap(n, q)
    ensures Wrap(n, p + i) == Wrap(n, q + i)
  {
    if q >= n {
      SameWrap(n, p, q - n, i);
    }
  }

  /** Distinct entries have distinct addresses. */
  lemma {:induction false} CountPicked(sps: seq<Sp>, t: seq<nat>, a: nat)
    requires OneEach(sps) && a < |sps| && forall i :: 0 <= i < |t| ==> t[i] < |sps|
    ensures Count(Picked(sps, t), sps[a].addr) == Count(t, a)
  {
    if t == [] {
    } else {
      hide Count, Picked;
      var rest, last := t[..|t| - 1], t[|t| - 1];
      CountPicked(sps, rest, a);
      PickedEnd(sps, t);
      CountNext(rest, last, a);
      CountNext(Picked(sps, rest), sps[last].addr, sps[a].addr);
      assert t == rest + [last];
    }
  }

  lemma PickedEnd(sps: seq<Sp>, t: seq<nat>)
    requires t != [] && forall i :: 0 <= i < |t| ==> t[i] < |sps|
    ensures Picked(sps, t) == Picked(sps, t[..|t| - 1]) + [sps[t[|t| - 1]].addr]
  {}

  lemma {:induction false} PickedAt(sps: seq<Sp>, t: seq<nat>, i: nat)
    requires i < |t| && forall j :: 0 <= j < |t| ==> t[j] < |sps|
    ensures Picked(sps, t)[i] == sps[t[i]].addr
  {
    if i < |t| - 1 {
      PickedAt(sps, t[..|t| - 1], i);
    }
  }

  lemma PickedDistinct(sps: seq<Sp>, t: seq<nat>)
    requires OneEach(sps) && Distinct(t) && forall j :: 0 <= j < |t| ==> t[j] < |sps|
    ensures Distinct(Picked(sps, t))
  {
    hide Picked;
    forall i, j | 0 <= i < j < |t|
      ensures Picked(sps, t)[i] != Picked(sps, t)[j]
    {
      PickedAt(sps, t, i);
      PickedAt(sps, t, j);
    }
  }

  ghost function WithRoom(sps: seq<Sp>): seq<Sp> {
    if sps == [] then []
    else
      var last := sps[|sps| - 1];
      WithRoom(sps[..|sps| - 1]) + if last.freeSpots > 0 then [last] else []
  }

  ghost function FirstOf<T>(s: seq<T>, n: nat): seq<T> {
    if |s| <= n then s else s[..n]
  }

  ghost function Backwards<T>(s: seq<T>): (r: seq<T>)
    ensures |r| == |s|
  {
    if s == [] then [] else [s[|s| - 1]] + Backwards(s[..|s| - 1])
  }

  ghost function AddrsOf(sps: seq<Sp>): (l: seq<Addr>)
    ensures |l| == |sps| && forall i :: 0 <= i < |l| ==> l[i] == sps[i].addr
  {
    seq(|sps|, i requires 0 <= i < |sps| => sps[i].addr)
  }

  lemma NobodyYet(sps: seq<Sp>)
    ensures WithRoom(sps[..0]) == [] && Backwards<Sp>([]) == []
  {}

  lemma WithRoomNext(sps: seq<Sp>, j: nat)
    requires j < |sps|
    ensures WithRoom(sps[..j + 1]) == if sps[j].freeSpots > 0 then WithRoom(sps[..j]) + [sps[j]] else WithRoom(sps[..j])
  {
    assert sps[..j + 1][..j] == sps[..j];
  }

  lemma BackwardsNext<T>(s: seq<T>, x: T)
    ensures Backwards(s + [x]) == [x] + Backwards(s)
  {
    assert (s + [x])[..|s|] == s;
  }

  lemma {:induction false} RoomGrows(sps: seq<Sp>, j: nat)
    requires j <= |sps|
    ensures WithRoom(sps[..j]) <= WithRoom(sps)
    decreases |sps| - j
  {
    if j < |sps| {
      WithRoomNext(sps, j);
      RoomGrows(sps, j + 1);
    } else {
      assert sps[..j] == sps;
    }
  }

  lemma RoomPrefix(sps: seq<Sp>, j: nat)
    requires j <= |sps|
    ensures FirstOf(WithRoom(sps), |WithRoom(sps[..j])|) == WithRoom(sps[..j])
  {
    hide WithRoom;
    RoomGrows(sps, j);
  }

  lemma {:induction false} SomebodyHasRoom(sps: seq<Sp>)
    ensures WithRoom(sps) != [] <==> exists i :: 0 <= i < |sps| && sps[i].freeSpots > 0
  {
    if sps != [] {
      SomebodyHasRoom(sps[..|sps| - 1]);
    }
  }

  lemma NoAddrs(sps: seq<Sp>)
    ensures AddrsOf(sps[..0]) == [] && Decoded([]) == []
  {}

  lemma NextAddr(sps: seq<Sp>, i: nat)
    requires i < |sps|
    ensures AddrsOf(sps[..i + 1]) == AddrsOf(sps[..i]) + [sps[i].addr]
  {}

  lemma InRange(h: Pool<Sp>, head: Ptr, s: seq<Ptr>, sps: seq<Sp>, it: Ptr, pos: nat)
    requires IsList(h, head, s, sps) && Iterates(s, it, pos) && sps != []
    ensures pos < |sps|
  {}

  lemma WrapOnce(n: nat, q: nat)
    requires n > 0
    ensures q < n ==> Wrap(n, q) == q
  {}

  lemma {:induction false} WrapNext(n: nat, x: nat)
    requires n > 0
    ensures Wrap(n, Wrap(n, x) + 1) == Wrap(n, x + 1)
  {
    if x >= n {
      WrapNext(n, x - n);
    }
  }

  /** The addresses of the entries named. */
  ghost function Picked(sps: seq<Sp>, t: seq<nat>): (l: seq<Addr>)
    requires forall i :: 0 <= i < |t| ==> t[i] < |sps|
    ensures |l| == |t|
  {
    if t == [] then [] else Picked(sps, t[..|t| - 1]) + [sps[t[|t| - 1]].addr]
  }

  lemma NothingPicked(sps: seq<Sp>, q: nat)
    requires sps != []
    ensures Turns(|sps|, q, 0) == [] && Picked(sps, []) == [] && Decoded([]) == []
  {}

  lemma PickedNext(sps: seq<Sp>, q: nat, i: nat)
    requires sps != []
    ensures Picked(sps, Turns(|sps|, q, i + 1)) == Picked(sps, Turns(|sps|, q, i)) + [sps[Wrap(|sps|, q + i)].addr]
  {
    var t := Turns(|sps|, q, i + 1);
    assert t[..|t| - 1] == Turns(|sps|, q, i);
  }

  lemma NoNullNode(h: Pool<Sp>, head: Ptr, s: seq<Ptr>, sps: seq<Sp>)
    requires IsList(h, head, s, sps)
    ensures NULL !in s
  {
    forall i | 0 <= i < |s|
      ensures s[i] != NULL
    {
      NodeFacts(h, head, s, sps, i);
    }
  }

  lemma NullEnds(h: Pool<Sp>, head: Ptr, s: seq<Ptr>, sps: seq<Sp>)
    requires IsList(h, head, s, sps)
    ensures NULL !in s && |s| == |sps|
  {
    NoNullNode(h, head, s, sps);
  }

  // ---- a sweep in progress

  /** The first `j` entries have been looked at; `node` is the next one of the old nodes. */
  ghost predicate Sweeping(all: seq<Sp>, was: seq<Ptr>, j: nat, sps: seq<Sp>, s: seq<Ptr>, node: Ptr) {
    && j <= |all| == |was| && sps == AfterSweep(all[..j]) + all[j..] && |s| == |sps|
    && s[|AfterSweep(all[..j])|..] == was[j..] && node == First(was[j..])
  }

  lemma SweepStarts(all: seq<Sp>, s: seq<Ptr>)
    requires |s| == |all|
    ensures Sweeping(all, s, 0, all, s, First(s))
  {
    assert all[..0] == [] && all[0..] == all && s[0..] == s;
  }

  /** The next node, which is the iterator's only if it has come to its position. */
  lemma SweepFacts(all: seq<Sp>, was: seq<Ptr>, j: nat, sps: seq<Sp>, s: seq<Ptr>, node: Ptr, it: Ptr, pos: nat)
    requires Sweeping(all, was, j, sps, s, node) && node != NULL && Iterates(was, it, pos)
    requires forall a, b :: 0 <= a < b < |was| ==> was[a] != was[b]
    ensures var i := |AfterSweep(all[..j])|;
      && j < |all| && i < |s| && s[i] == node && sps[i] == all[j]
      && First(s[i + 1..]) == First(was[j + 1..])
      && (pos != j ==> it != s[i])
  {
    hide AfterSweep;
    var i := |AfterSweep(all[..j])|;
    assert s[i..][0] == was[j..][0];
    assert s[i..][1..] == was[j..][1..];
    assert s[i + 1..] == was[j + 1..];
  }

  lemma SweepDrops(all: seq<Sp>, was: seq<Ptr>, j: nat, sps: seq<Sp>, s: seq<Ptr>, node: Ptr)
    requires Sweeping(all, was, j, sps, s, node) && j < |all| && !all[j].flag && |AfterSweep(all[..j])| < |s|
    ensures var i := |AfterSweep(all[..j])|; Sweeping(all, was, j + 1, Without(sps, i), Without(s, i), First(was[j + 1..]))
  {
    hide AfterSweep;
    AfterSweepNext(all, j);
    var i := |AfterSweep(all[..j])|;
    assert s[i..][1..] == was[j..][1..];
    assert Without(s, i)[i..] == s[i + 1..] == was[j + 1..];
  }

  lemma SweepKeeps(all: seq<Sp>, was: seq<Ptr>, j: nat, sps: seq<Sp>, s: seq<Ptr>, node: Ptr)
    requires Sweeping(all, was, j, sps, s, node) && j < |all| && all[j].flag && |AfterSweep(all[..j])| < |s|
    ensures var i := |AfterSweep(all[..j])|; Sweeping(all, was, j + 1, sps[i := all[j].(flag := false)], s, First(was[j + 1..]))
  {
    hide AfterSweep;
    AfterSweepNext(all, j);
    var i := |AfterSweep(all[..j])|;
    assert s[i..][1..] == was[j..][1..];
    assert s[i + 1..] == was[j + 1..];
  }

  lemma SweepEnds(all: seq<Sp>, was: seq<Ptr>, j: nat, sps: seq<Sp>, s: seq<Ptr>)
    requires Sweeping(all, was, j, sps, s, NULL) && NULL !in s
    ensures sps == AfterSweep(all)
  {
    hide AfterSweep;
    var i := |AfterSweep(all[..j])|;
    assert First(s[i..]) == NULL && forall p :: p in s[i..] ==> p in s;
    assert all[..j] == all;
  }

  ghost function AfterSweep(sps: seq<Sp>): seq<Sp> {
    if sps == [] then []
    else
      var last := sps[|sps| - 1];
      AfterSweep(sps[..|sps| - 1]) + if last.flag then [last.(flag := false)] else []
  }

  lemma AfterSweepNext(sps: seq<Sp>, j: nat)
    requires j < |sps|
    ensures AfterSweep(sps[..j + 1]) == AfterSweep(sps[..j]) + if sps[j].flag then [sps[j].(flag := false)] else []
    ensures sps[j..] == [sps[j]] + sps[j + 1..]
  {
    assert sps[..j + 1][..j] == sps[..j];
  }

  lemma OneEachWithout(sps: seq<Sp>, k: nat)
    requires OneEach(sps) && k < |sps|
    ensures OneEach(Without(sps, k))
  {}

  /** What a sweep leaves: an entry stays if and only if it has given a sign of life, which it must
      give again. */
  lemma {:induction false} AfterSweepHas(sps: seq<Sp>, sp: Sp)
    ensures sp in AfterSweep(sps) <==> !sp.flag && Sp(sp.addr, sp.freeSpots, true) in sps
  {
    if sps != [] {
      AfterSweepHas(sps[..|sps| - 1], sp);
      assert sps == sps[..|sps| - 1] + [sps[|sps| - 1]];
    }
  }
}
