/** The peers of a superpeer, ordered by rate (src/client/peer_list.c). */
module PeerList {
  import opened Common
  import opened Memory
  import opened DoublyLinked

  datatype Peer = Peer(addr: Addr, rate: u32, dwPort: u16, flag: bool)

  ghost predicate OneEach(peers: seq<Peer>) {
    forall i, j :: 0 <= i < j < |peers| ==> peers[i].addr != peers[j].addr
  }

  ghost predicate Sorted(peers: seq<Peer>) {
    forall i, j :: 0 <= i < j < |peers| ==> peers[i].rate >= peers[j].rate
  }

  ghost predicate Listed(peers: seq<Peer>, addr: Addr) {
    exists i :: 0 <= i < |peers| && peers[i].addr == addr
  }

  /** Where a rate belongs: before the first smaller one. */
  ghost function Place(peers: seq<Peer>, rate: u32): (k: nat)
    ensures k <= |peers| && (k < |peers| ==> peers[k].rate < rate)
    ensures forall i :: 0 <= i < k ==> peers[i].rate >= rate
  {
    if peers == [] || peers[0].rate < rate then 0
    else
      var k := Place(peers[1..], rate);
      assert forall i :: 0 < i < k + 1 ==> peers[i] == peers[1..][i - 1];
      k + 1
  }

  /** The search for the place comes across the address. */
  ghost predicate Met(peers: seq<Peer>, addr: Addr, rate: u32) {
    exists i :: 0 <= i < |peers| && i <= Place(peers, rate) && peers[i].addr == addr
  }

  ghost function Joined(peers: seq<Peer>, p: Peer): seq<Peer> {
    if Met(peers, p.addr, p.rate) then peers else Spliced(peers, Place(peers, p.rate), p)
  }

  /** A list ordered by rate stays so. */
  lemma JoinedSorted(peers: seq<Peer>, p: Peer)
    requires Sorted(peers)
    ensures Sorted(Joined(peers, p))
  {
    hide Place;
    var k, t := Place(peers, p.rate), Spliced(peers, Place(peers, p.rate), p);
    forall i, j | 0 <= i < j < |t|
      ensures t[i].rate >= t[j].rate
    {
      SplicedAt(peers, k, p, i);
      SplicedAt(peers, k, p, j);
    }
  }

  /** The search stops at the place: an address behind it is listed a second time. */
  lemma JoinedOneEach(peers: seq<Peer>, p: Peer)
    requires OneEach(peers)
    ensures OneEach(Joined(peers, p)) <==> (Listed(peers, p.addr) ==> Met(peers, p.addr, p.rate))
  {
    hide Place;
    var k, t := Place(peers, p.rate), Spliced(peers, Place(peers, p.rate), p);
    SplicedMembers(peers, k, p);
    if !Met(peers, p.addr, p.rate) {
      SplicedAt(peers, k, p, k);
      if Listed(peers, p.addr) {
        var i :| 0 <= i < |peers| && peers[i].addr == p.addr;
        assert i > k;
        SplicedAt(peers, k, p, i + 1);
      } else {
        forall i, j | 0 <= i < j < |t|
          ensures t[i].addr != t[j].addr
        {
          SplicedAt(peers, k, p, i);
          SplicedAt(peers, k, p, j);
        }
      }
    }
  }

  /** The second of two peers would be listed twice, were it inserted again at a higher rate. */
  lemma AddressOccursTwice(first: Addr, addr: Addr, dwPort: u16)
    requires first != addr
    ensures var two := [Peer(first, 1, dwPort, true), Peer(addr, 1, dwPort, true)];
      OneEach(two) && !OneEach(Joined(two, Peer(addr, 2, dwPort, true)))
  {
    var two, again := [Peer(first, 1, dwPort, true), Peer(addr, 1, dwPort, true)], Peer(addr, 2, dwPort, true);
    assert Place(two, again.rate) == 0 && two[1].addr == addr;
    JoinedOneEach(two, again);
  }

  // ---- the list

  class Peers {
    var nodes: Pool<Peer>
    var head: Ptr
    var currPCount: int
    ghost var s: seq<Ptr>
    ghost var peers: seq<Peer>

    /** The list is linked up and counted. */
    ghost predicate Valid()
      reads this
    {
      IsList(nodes, head, s, peers) && |s| == |peers| == currPCount
    }

    constructor ()
      ensures Valid() && peers == []
    {
      nodes, head, currPCount := map[], NULL, 0;
      s, peers := [], [];
      EmptyList<Peer>();
    }

    /** `get_node_peer`. */
    method GetNodePeer(addr: Addr) returns (node: Ptr, ghost k: nat)
      requires Valid()
      ensures if node == NULL then !Listed(peers, addr) else k < |s| && node == s[k] && peers[k].addr == addr
      ensures node == NULL <==> !Listed(peers, addr)
      ensures node != NULL ==> node in nodes && nodes[node].data.addr == addr
    {
      hide IsList;
      ListFacts(nodes, head, s, peers);
      node, k := head, 0;
      while node != NULL
        invariant k <= |s| && node == First(s[k..]) && (node == NULL <==> k == |s|)
        invariant forall i :: 0 <= i < k ==> peers[i].addr != addr
        decreases |s| - k
      {
        NodeFacts(nodes, head, s, peers, k);
        if nodes[node].data.addr == addr {
          return;
        }
        node, k := nodes[node].next, k + 1;
      }
    }

    /** The walk of `sorted_insert_peer`: comes across the address, or ends at the node before
        the place of the rate, null if the place is in front. */
    method FindPlace(addr: Addr, rate: u32) returns (met: bool, node: Ptr)
      requires Valid()
      ensures met <==> Met(peers, addr, rate)
      ensures !met ==> node == if Place(peers, rate) == 0 then NULL else s[Place(peers, rate) - 1]
    {
      hide IsList, Place, Met;
      ListFacts(nodes, head, s, peers);
      met, node := false, head;
      ghost var k := 0;
      while node != NULL
        invariant k <= |s| && node == (if k < |s| then s[k] else NULL) && (s == [] || k < |s|)
        invariant node == NULL ==> s == []
        invariant forall i :: 0 <= i < k ==> peers[i].addr != addr && peers[i].rate >= rate
        decreases |s| - k
      {
        NodeFacts(nodes, head, s, peers, k);
        if addr == nodes[node].data.addr {
          MetAt(peers, addr, rate, k);
          return true, node;
        }
        if rate > nodes[node].data.rate {
          PlaceAt(peers, addr, rate, k);
          node := nodes[node].prev;
          return;
        }
        if nodes[node].next == NULL {
          PlaceAt(peers, addr, rate, k + 1);
          return;
        }
        node, k := nodes[node].next, k + 1;
      }
      PlaceAt(peers, addr, rate, 0);
    }

    /** `sorted_insert_peer`. */
    method SortedInsertPeer(addr: Addr, rate: u32, dwPort: u16)
      requires Valid()
      modifies this
      ensures Valid() && peers == Joined(old(peers), Peer(addr, rate, dwPort, true))
    {
      hide IsList, Place, Spliced, Met;
      ListFacts(nodes, head, s, peers);
      if head == NULL {
        currPCount := 0;
      }
      var met, node := FindPlace(addr, rate);
      if met {
        return;
      }
      ghost var k: int, p := Place(peers, rate), Peer(addr, rate, dwPort, true);
      ghost var added;
      nodes, head, added := SortedInsertNode(nodes, head, node, Peer(addr, rate, dwPort, true), s, peers, k - 1);
      s, peers := Spliced(s, k, added), Spliced(peers, k, p);
      ListFacts(nodes, head, s, peers);
      SplicedMembers(old(peers), k, p);
      currPCount := currPCount + 1;
    }

    /** `remove_peer_node`. */
    method RemovePeerNode(node: Ptr, ghost k: nat)
      requires Valid() && k < |s| && node == s[k]
      modifies this
      ensures Valid() && peers == Without(old(peers), k) && s == Without(old(s), k)
    {
      hide IsList;
      ListFacts(nodes, head, s, peers);
      nodes, head := RemoveNode(nodes, head, node, s, peers, k);
      s, peers := Without(s, k), Without(peers, k);
      currPCount := currPCount - 1;
    }

    method Head() returns (node: Ptr)
      requires Valid()
      ensures node == First(s)
    {
      hide IsList;
      ListFacts(nodes, head, s, peers);
      node := head;
    }

    /** The peer of a node, and the node behind it. */
    method Look(node: Ptr, ghost k: nat) returns (p: Peer, next: Ptr)
      requires Valid() && k < |s| && node == s[k]
      ensures p == peers[k] && next == First(s[k + 1..])
    {
      hide IsList;
      NodeFacts(nodes, head, s, peers, k);
      p, next := nodes[node].data, nodes[node].next;
    }

    lemma NoNull()
      requires Valid()
      ensures NULL !in s
    {
      forall i | 0 <= i < |s|
        ensures s[i] != NULL
      {
        NodeFacts(nodes, head, s, peers, i);
      }
    }

    /** What the sweep does to a peer that has given a sign of life. */
    method ClearFlag(node: Ptr, ghost k: nat)
      requires Valid() && k < |s| && node == s[k]
      modifies `nodes, `peers
      ensures Valid() && peers == old(peers)[k := old(peers)[k].(flag := false)]
    {
      hide IsList;
      NodeFacts(nodes, head, s, peers, k);
      DataWritten(nodes, head, s, peers, k, peers[k].(flag := false));
      nodes := SetData(nodes, node, nodes[node].data.(flag := false));
      peers := peers[k := peers[k].(flag := false)];
    }

    /** `get_addr_head`. */
    method GetAddrHead() returns (addr: Option<Addr>)
      requires Valid()
      ensures addr == if peers == [] then None else Some(peers[0].addr)
    {
      hide IsList;
      ListFacts(nodes, head, s, peers);
      if head == NULL {
        return None;
      }
      NodeFacts(nodes, head, s, peers, 0);
      return Some(nodes[head].data.addr);
    }

    /** `update_peer_flag`: a ping marks the peer alive and brings its rate, in place. */
    method UpdatePeerFlag(addr: Addr, rate: u32)
      requires Valid()
      modifies `nodes, `peers
      ensures Valid() && (!Listed(old(peers), addr) ==> peers == old(peers))
      ensures Listed(old(peers), addr) ==> exists k :: 0 <= k < |old(peers)| && old(peers)[k].addr == addr && peers == Refreshed(old(peers), k, rate)
    {
      hide IsList;
      var node, k := GetNodePeer(addr);
      if node != NULL {
        NodeFacts(nodes, head, s, peers, k);
        DataWritten(nodes, head, s, peers, k, peers[k].(flag := true, rate := rate));
        nodes := SetData(nodes, node, nodes[node].data.(flag := true, rate := rate));
        peers := Refreshed(peers, k, rate);
      }
    }
  }

  function Refreshed(peers: seq<Peer>, k: nat, rate: u32): seq<Peer>
    requires k < |peers|
  {
    peers[k := peers[k].(flag := true, rate := rate)]
  }

  /** A refresh does not move the peer: the order survives exactly if the new rate still fits
      between those of the neighbours. */
  lemma RefreshSorted(peers: seq<Peer>, k: nat, rate: u32)
    requires Sorted(peers) && k < |peers|
    ensures Sorted(Refreshed(peers, k, rate)) <==>
      (k > 0 ==> peers[k - 1].rate >= rate) && (k + 1 < |peers| ==> rate >= peers[k + 1].rate)
  {
    var t := Refreshed(peers, k, rate);
    if Sorted(t) {
      assert t[k].rate == rate;
      assert k > 0 ==> t[k - 1].rate >= t[k].rate && t[k - 1] == peers[k - 1];
      assert k + 1 < |t| ==> t[k].rate >= t[k + 1].rate && t[k + 1] == peers[k + 1];
    }
    if (k > 0 ==> peers[k - 1].rate >= rate) && (k + 1 < |peers| ==> rate >= peers[k + 1].rate) {
      forall i, j | 0 <= i < j < |t|
        ensures t[i].rate >= t[j].rate
      {
        assert j == k ==> i == k - 1 || peers[i].rate >= peers[k - 1].rate;
        assert i == k ==> j == k + 1 || peers[k + 1].rate >= peers[j].rate;
      }
    }
  }

  lemma RefreshOneEach(peers: seq<Peer>, k: nat, rate: u32)
    requires OneEach(peers) && k < |peers|
    ensures OneEach(Refreshed(peers, k, rate))
  {}

  lemma MetAt(peers: seq<Peer>, addr: Addr, rate: u32, k: nat)
    requires k < |peers| && peers[k].addr == addr && forall i :: 0 <= i < k ==> peers[i].rate >= rate
    ensures Met(peers, addr, rate)
  {
    assert k <= Place(peers, rate);
  }

  lemma PlaceAt(peers: seq<Peer>, addr: Addr, rate: u32, k: nat)
    requires k <= |peers| && forall i :: 0 <= i < k ==> peers[i].rate >= rate && peers[i].addr != addr
    requires k < |peers| ==> peers[k].rate < rate && peers[k].addr != addr
    ensures Place(peers, rate) == k && !Met(peers, addr, rate)
  {}
}
