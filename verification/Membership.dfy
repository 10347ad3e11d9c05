/** Who belongs to a superpeer: the join, leave, register, abort, ack, pong and error handlers
    (src/client/client.c), `join_peer` and `promote_peer` (src/client/superpeer.c), and the
    peer sweep with its promotion timeout (src/client/peer_list_checker.c). */
module Membership {
  import opened Common
  import opened Memory
  import opened DoublyLinked
  import opened FileIndex
  import opened PeerList

  const MAX_P_COUNT := 100

  datatype State = JoinBsSent | JoinSpSent | PromoteSent | PromoteRecv | RegisterSent | Active | LeaveSent | OpenMoreConn

  datatype Reply = Ack | Err | Promoted(best: Addr) | Redirected(child: Addr) | Ignored

  /** The records that are left when the peers without a sign of life are gone. */
  ghost function Remaining(recs: set<Record>, peers: seq<Peer>): set<Record> {
    if peers == [] then recs
    else
      var before, p := Remaining(recs, peers[..|peers| - 1]), peers[|peers| - 1];
      if p.flag then before else set r | r in before && !(r.ip == p.addr.ip && r.port == p.dwPort)
  }

  lemma {:induction false} RemainingHas(recs: set<Record>, peers: seq<Peer>, r: Record)
    ensures r in Remaining(recs, peers) <==>
      r in recs && forall i :: 0 <= i < |peers| && !peers[i].flag ==> peers[i].addr.ip != r.ip || peers[i].dwPort != r.port
  {
    if peers != [] {
      RemainingHas(recs, peers[..|peers| - 1], r);
    }
  }

  /** The peers that stay, each waiting for a new sign of life. */
  ghost function Kept(peers: seq<Peer>): (k: seq<Peer>)
    ensures |k| <= |peers|
  {
    if peers == [] then []
    else
      var last := peers[|peers| - 1];
      Kept(peers[..|peers| - 1]) + if last.flag then [last.(flag := false)] else []
  }

  /** Where each kept peer was before. */
  lemma {:induction false} KeptFrom(peers: seq<Peer>, i: nat) returns (j: nat)
    requires i < |Kept(peers)|
    ensures i <= j < |peers| && peers[j].flag && Kept(peers)[i] == peers[j].(flag := false)
    ensures j == Origin(peers, i)
  {
    var rest := peers[..|peers| - 1];
    if i < |Kept(rest)| {
      j := KeptFrom(rest, i);
    } else {
      j := |peers| - 1;
    }
  }

  ghost function Origin(peers: seq<Peer>, i: nat): nat
    requires i < |Kept(peers)|
  {
    var rest := peers[..|peers| - 1];
    if i < |Kept(rest)| then Origin(rest, i) else |peers| - 1
  }

  lemma {:induction false} OriginGrows(peers: seq<Peer>, i: nat, j: nat)
    requires i < j < |Kept(peers)|
    ensures Origin(peers, i) < Origin(peers, j)
  {
    var rest := peers[..|peers| - 1];
    if j < |Kept(rest)| {
      OriginGrows(rest, i, j);
    } else {
      var o := KeptFrom(rest, i);
    }
  }

  /** A sweep keeps addresses distinct and the order by rate. */
  lemma KeptWell(peers: seq<Peer>)
    ensures OneEach(peers) ==> OneEach(Kept(peers))
    ensures Sorted(peers) ==> Sorted(Kept(peers))
  {
    forall i, j | 0 <= i < j < |Kept(peers)|
      ensures OneEach(peers) ==> Kept(peers)[i].addr != Kept(peers)[j].addr
      ensures Sorted(peers) ==> Kept(peers)[i].rate >= Kept(peers)[j].rate
    {
      var a := KeptFrom(peers, i);
      var b := KeptFrom(peers, j);
      OriginGrows(peers, i, j);
    }
  }

  lemma KeptNext(peers: seq<Peer>, j: nat)
    requires j < |peers|
    ensures Kept(peers[..j + 1]) == if peers[j].flag then Kept(peers[..j]) + [peers[j].(flag := false)] else Kept(peers[..j])
  {
    assert peers[..j + 1][..j] == peers[..j];
  }

  lemma RemainingNext(recs: set<Record>, peers: seq<Peer>, j: nat)
    requires j < |peers|
    ensures Remaining(recs, peers[..j + 1]) ==
      var before, p := Remaining(recs, peers[..j]), peers[j];
      if p.flag then before else set r | r in before && !(r.ip == p.addr.ip && r.port == p.dwPort)
  {
    assert peers[..j + 1][..j] == peers[..j];
  }

  // ---- a sweep in progress

  ghost predicate Sweeping(all: seq<Peer>, j: nat, peers: seq<Peer>, s: seq<Ptr>, node: Ptr) {
    && j <= |all| && peers == Kept(all[..j]) + all[j..] && |s| == |peers|
    && node == First(s[|Kept(all[..j])|..])
  }

  lemma SweepStarts(all: seq<Peer>, s: seq<Ptr>)
    requires |s| == |all|
    ensures Sweeping(all, 0, all, s, First(s)) && forall recs :: Remaining(recs, all[..0]) == recs
  {
    assert all[..0] == [] && all[0..] == all && s[0..] == s;
  }

  lemma SweepFacts(all: seq<Peer>, j: nat, peers: seq<Peer>, s: seq<Ptr>, node: Ptr)
    requires Sweeping(all, j, peers, s, node) && node != NULL
    ensures j < |all| && |Kept(all[..j])| < |s| && s[|Kept(all[..j])|] == node && peers[|Kept(all[..j])|] == all[j]
  {
    hide Kept;
  }

  lemma SweepDrops(all: seq<Peer>, j: nat, peers: seq<Peer>, s: seq<Ptr>, node: Ptr)
    requires Sweeping(all, j, peers, s, node) && node != NULL && j < |all| && !all[j].flag
    requires |Kept(all[..j])| < |s|
    ensures var i := |Kept(all[..j])|; Sweeping(all, j + 1, Without(peers, i), Without(s, i), First(s[i + 1..]))
  {
    hide Kept;
    KeptNext(all, j);
    var i := |Kept(all[..j])|;
    assert Without(s, i)[i..] == s[i + 1..];
  }

  lemma SweepKeeps(all: seq<Peer>, j: nat, peers: seq<Peer>, s: seq<Ptr>, node: Ptr)
    requires Sweeping(all, j, peers, s, node) && node != NULL && j < |all| && all[j].flag
    requires |Kept(all[..j])| < |s|
    ensures var i := |Kept(all[..j])|; Sweeping(all, j + 1, peers[i := all[j].(flag := false)], s, First(s[i + 1..]))
  {
    hide Kept;
    KeptNext(all, j);
  }

  lemma SweepEnds(all: seq<Peer>, j: nat, peers: seq<Peer>, s: seq<Ptr>)
    requires Sweeping(all, j, peers, s, NULL) && NULL !in s
    ensures j == |all| && peers == Kept(all) && all[..j] == all
  {
    hide Kept;
    assert |Kept(all[..j])| == |s|;
    assert all[..j] == all;
  }

  // ---- the superpeer

  /** The timeout of a promotion, seen by each sweep. */
  function Timeout(state: State, ttl: nat): (r: (State, nat)) {
    if state == PromoteSent then if ttl == 0 then (Active, 5) else (state, ttl - 1) else (state, 5)
  }

  class Members {
    const list: Peers
    const index: Index
    var isSp: bool
    var state: State
    var haveChild: bool
    var childMissPong: nat
    var currChildPCount: nat
    var childAddr: Addr
    var promoteTtl: nat

    ghost predicate Valid()
      reads this, list, index
    {
      && list.Valid() && index.Valid()
      && OneEach(list.peers) && |list.peers| <= MAX_P_COUNT && promoteTtl <= 5 && childMissPong <= 3
    }

    /** `init_superpeer`. */
    constructor (filehash: seq<byte> -> int, myaddr: Addr)
      requires forall s :: 0 <= filehash(s) < HASH_PRIME_NUMBER_FILE
      ensures Valid() && fresh(list) && fresh(index) && list.peers == [] && index.recs == {}
    {
      list := new Peers();
      index := new Index(filehash);
      isSp, state, haveChild, childMissPong, currChildPCount, promoteTtl := true, Active, false, 0, 0, 5;
      childAddr := myaddr;
    }

    /** `promote_peer`: the head of the list; with the list in order, a peer of the highest rate. */
    method PromotePeer() returns (best: Addr)
      requires Valid() && list.peers != []
      ensures best == list.peers[0].addr
      ensures Sorted(list.peers) ==> forall i :: 0 <= i < |list.peers| ==> list.peers[i].rate <= list.peers[0].rate
    {
      hide Coherent, IsList, OneEach;
      var addr := list.GetAddrHead();
      best := addr.value;
    }

    /** `join_handler`. */
    method Join(addr: Addr, rate: u32, dwPort: u16) returns (reply: Reply)
      requires Valid()
      modifies list, `state, `haveChild
      ensures Valid()
      ensures var known, full, child := Listed(old(list.peers), addr), |old(list.peers)| == MAX_P_COUNT, old(haveChild);
        && reply == (if !isSp then Err
                     else if known || !full then Ack
                     else if old(state) == PromoteSent then Ignored
                     else if child && childMissPong < 3 then Redirected(childAddr)
                     else Promoted(old(list.peers)[0].addr))
        && list.peers == (if isSp && !known && !full then Joined(old(list.peers), Peer(addr, rate, dwPort, true)) else old(list.peers))
        && state == (if reply.Promoted? then PromoteSent else old(state))
        && haveChild == (child && !(reply.Redirected? && currChildPCount == MAX_P_COUNT - 1))
      ensures isSp && !Listed(old(list.peers), addr) && |old(list.peers)| < MAX_P_COUNT ==> |list.peers| == |old(list.peers)| + 1 && Listed(list.peers, addr)
    {
      hide Coherent, IsList, OneEach, Joined, Sorted;
      if !isSp {
        return Err;
      }
      var node, _ := list.GetNodePeer(addr);
      if node != NULL {
        return Ack;
      }
      if list.currPCount < MAX_P_COUNT {
        ghost var p := Peer(addr, rate, dwPort, true);
        JoinedOneEach(list.peers, p);
        JoinedNew(list.peers, p);
        list.SortedInsertPeer(addr, rate, dwPort);
        return Ack;
      }
      if state == PromoteSent {
        return Ignored;
      }
      if !haveChild {
        var best := PromotePeer();
        state := PromoteSent;
        return Promoted(best);
      }
      if childMissPong < 3 {
        if currChildPCount == MAX_P_COUNT - 1 {
          haveChild := false;
        }
        return Redirected(childAddr);
      }
      var best := PromotePeer();
      state := PromoteSent;
      return Promoted(best);
    }

    /** The peer of that address goes, and every record of its files with it. */
    method Drop(addr: Addr)
      requires Valid()
      modifies list, index
      ensures Valid()
      ensures !Listed(old(list.peers), addr) ==> list.peers == old(list.peers) && index.recs == old(index.recs)
      ensures forall k :: 0 <= k < |old(list.peers)| && old(list.peers)[k].addr == addr ==>
        && list.peers == Without(old(list.peers), k)
        && index.recs == set r | r in old(index.recs) && !(r.ip == addr.ip && r.port == old(list.peers)[k].dwPort)
      ensures !Listed(list.peers, addr)
    {
      hide Coherent, IsList, OneEach;
      var node, k := list.GetNodePeer(addr);
      if node != NULL {
        DropFacts(list.peers, k);
        var p, _ := list.Look(node, k);
        index.RemoveAllFile(addr.ip, p.dwPort);
        list.RemovePeerNode(node, k);
      }
    }

    /** `leave_handler` of a superpeer. */
    method Leave(addr: Addr) returns (reply: Reply)
      requires Valid() && isSp
      modifies list, index
      ensures Valid() && reply == Ack && !Listed(list.peers, addr)
      ensures !Listed(old(list.peers), addr) ==> list.peers == old(list.peers) && index.recs == old(index.recs)
      ensures forall k :: 0 <= k < |old(list.peers)| && old(list.peers)[k].addr == addr ==>
        && list.peers == Without(old(list.peers), k)
        && index.recs == set r | r in old(index.recs) && !(r.ip == addr.ip && r.port == old(list.peers)[k].dwPort)
    {
      Drop(addr);
      reply := Ack;
    }

    /** `register_handler`: the promoted peer is a superpeer now. */
    method Register(addr: Addr) returns (reply: Reply)
      requires Valid()
      modifies list, index, `state, `haveChild
      ensures Valid() && reply == if isSp && addr == childAddr then Ack else Err
      ensures reply == Ack ==> state == Active && haveChild && !Listed(list.peers, addr)
      ensures reply == Err || !Listed(old(list.peers), addr) ==> list.peers == old(list.peers) && index.recs == old(index.recs)
      ensures reply == Err ==> state == old(state) && haveChild == old(haveChild)
      ensures forall k :: reply == Ack && 0 <= k < |old(list.peers)| && old(list.peers)[k].addr == addr ==>
        && list.peers == Without(old(list.peers), k)
        && index.recs == set r | r in old(index.recs) && !(r.ip == addr.ip && r.port == old(list.peers)[k].dwPort)
    {
      if isSp && addr == childAddr {
        Drop(addr);
        state, haveChild := Active, true;
        return Ack;
      }
      reply := Err;
    }

    /** `ping_handler`: see `update_peer_flag`. */
    method Ping(addr: Addr, rate: u32)
      requires Valid() && isSp
      modifies list
      ensures Valid() && (!Listed(old(list.peers), addr) ==> list.peers == old(list.peers))
      ensures Listed(old(list.peers), addr) ==>
        exists k :: 0 <= k < |old(list.peers)| && old(list.peers)[k].addr == addr && list.peers == Refreshed(old(list.peers), k, rate)
      ensures |list.peers| == |old(list.peers)| && forall i :: 0 <= i < |list.peers| ==>
        list.peers[i] == if old(list.peers)[i].addr == addr then Peer(addr, rate, old(list.peers)[i].dwPort, true) else old(list.peers)[i]
    {
      hide Coherent, IsList, OneEach;
      ghost var was := list.peers;
      list.UpdatePeerFlag(addr, rate);
      forall k | 0 <= k < |was|
        ensures OneEach(Refreshed(was, k, rate))
      {
        RefreshOneEach(was, k, rate);
      }
      if Listed(was, addr) {
        ghost var k :| 0 <= k < |was| && was[k].addr == addr && list.peers == Refreshed(was, k, rate);
        RefreshedAt(was, k, rate);
      }
    }

    /** `abort_handler`, and `ack_handler` and `pong_handler` as far as they are about the child. */
    method Abort(addr: Addr) returns (reply: Reply)
      requires Valid()
      modifies `state
      ensures Valid() && reply == (if isSp then Ack else Err)
      ensures state == if isSp && addr == childAddr then Active else old(state)
    {
      if isSp {
        if childAddr == addr {
          state := Active;
        }
        return Ack;
      }
      return Err;
    }

    method Acked(addr: Addr)
      requires Valid()
      modifies `childAddr
      ensures Valid() && childAddr == if state == PromoteSent then addr else old(childAddr)
    {
      if state == PromoteSent {
        childAddr := addr;
      }
    }

    method Pong(addr: Addr, count: nat)
      requires Valid() && isSp
      modifies `currChildPCount, `childMissPong
      ensures Valid()
      ensures if addr == childAddr then currChildPCount == count && childMissPong == 0
              else currChildPCount == old(currChildPCount) && childMissPong == old(childMissPong)
    {
      if addr == childAddr {
        currChildPCount, childMissPong := count, 0;
      }
    }

    /** The pinger's part: three pongs of the child may be missing. */
    method PingChild()
      requires Valid()
      modifies `haveChild, `childMissPong
      ensures Valid()
      ensures if !old(haveChild) then !haveChild && childMissPong == old(childMissPong)
              else if old(childMissPong) < 3 then haveChild && childMissPong == old(childMissPong) + 1
              else !haveChild && childMissPong == 0
    {
      if haveChild {
        if childMissPong < 3 {
          childMissPong := childMissPong + 1;
        } else {
          haveChild, childMissPong := false, 0;
        }
      }
    }

    /** The promotion was not acknowledged: it is tried again while the list is full. */
    method PromoteFailed() returns (reply: Reply)
      requires Valid()
      modifies `state
      ensures Valid()
      ensures if |list.peers| == MAX_P_COUNT then reply == Promoted(list.peers[0].addr) && state == PromoteSent
              else reply == Ignored && state == Active
    {
      hide Coherent, IsList, OneEach;
      if list.currPCount >= MAX_P_COUNT {
        var best := PromotePeer();
        state := PromoteSent;
        return Promoted(best);
      }
      state := Active;
      return Ignored;
    }

    /** One pass of `peer_list_checker_func` over the peers, and its promotion timeout. */
    method Sweep()
      requires Valid()
      modifies list, index, `state, `promoteTtl
      ensures Valid() && list.peers == Kept(old(list.peers))
      ensures index.recs == Remaining(old(index.recs), old(list.peers))
      ensures (state, promoteTtl) == Timeout(old(state), old(promoteTtl))
    {
      hide Coherent, IsList, OneEach, Sweeping, Kept, Remaining, First, Without, Sorted;
      ghost var all, recs := list.peers, index.recs;
      SweepStarts(all, list.s);
      KeptWell(all);
      ghost var j := 0;
      var node := list.Head();
      while node != NULL
        invariant j <= |all| && list.Valid() && index.Valid() && Sweeping(all, j, list.peers, list.s, node)
        invariant index.recs == Remaining(recs, all[..j])
        invariant state == old(state) && promoteTtl == old(promoteTtl)
        decreases |all| - j
      {
        ghost var i := |Kept(all[..j])|;
        SweepFacts(all, j, list.peers, list.s, node);
        RemainingNext(recs, all, j);
        var p, next := list.Look(node, i);
        if !p.flag {
          SweepDrops(all, j, list.peers, list.s, node);
          index.RemoveAllFile(p.addr.ip, p.dwPort);
          list.RemovePeerNode(node, i);
        } else {
          SweepKeeps(all, j, list.peers, list.s, node);
          list.ClearFlag(node, i);
        }
        node, j := next, j + 1;
      }
      list.NoNull();
      SweepEnds(all, j, list.peers, list.s);
      if state == PromoteSent {
        if promoteTtl == 0 {
          state, promoteTtl := Active, 5;
        } else {
          promoteTtl := promoteTtl - 1;
        }
      } else {
        promoteTtl := 5;
      }
    }
  }

  lemma RefreshedAt(peers: seq<Peer>, k: nat, rate: u32)
    requires OneEach(peers) && k < |peers|
    ensures forall i :: 0 <= i < |peers| ==>
      Refreshed(peers, k, rate)[i] == if peers[i].addr == peers[k].addr then Peer(peers[k].addr, rate, peers[i].dwPort, true) else peers[i]
  {}

  lemma JoinedNew(peers: seq<Peer>, p: Peer)
    requires !Listed(peers, p.addr)
    ensures |Joined(peers, p)| == |peers| + 1 && Listed(Joined(peers, p), p.addr)
  {
    hide Place;
    SplicedMembers(peers, Place(peers, p.rate), p);
    SplicedAt(peers, Place(peers, p.rate), p, Place(peers, p.rate));
  }

  lemma DropFacts(peers: seq<Peer>, k: nat)
    requires OneEach(peers) && k < |peers|
    ensures OneEach(Without(peers, k)) && !Listed(Without(peers, k), peers[k].addr)
    ensures forall i :: 0 <= i < |peers| && peers[i].addr == peers[k].addr ==> i == k
  {}

  /** A promotion holds the superpeer up for six sweeps at most. */
  method WaitOut(m: Members) returns (sweeps: nat)
    requires m.Valid()
    modifies m, m.list, m.index
    ensures m.Valid() && m.state != PromoteSent
    ensures sweeps == (if old(m.state) == PromoteSent then old(m.promoteTtl) + 1 else 0) <= 6
  {
    sweeps := 0;
    while m.state == PromoteSent
      invariant m.Valid() && if m.state == PromoteSent then old(m.state) == PromoteSent && sweeps + m.promoteTtl == old(m.promoteTtl)
                else sweeps == if old(m.state) == PromoteSent then old(m.promoteTtl) + 1 else 0
      decreases m.state == PromoteSent, m.promoteTtl
    {
      m.Sweep();
      sweeps := sweeps + 1;
    }
  }

  // ---- the child

  /** Did a pong of the child come in between the ping number `i` and the third before it? */
  predicate Answered(pongs: seq<bool>, i: nat)
    requires 3 <= i <= |pongs|
  {
    pongs[i - 1] || pongs[i - 2] || pongs[i - 3]
  }

  ghost predicate AllAnswered(pongs: seq<bool>, n: nat)
    requires n <= |pongs|
  {
    forall i :: 3 <= i < n ==> Answered(pongs, i)
  }

  /** The last `miss` of the first `n` pings are the ones without an answer since. */
  ghost predicate Unanswered(pongs: seq<bool>, n: nat, miss: nat) {
    && miss <= n <= |pongs| && miss <= 3
    && (forall i :: n - miss <= i < n ==> !pongs[i])
    && (miss < n ==> pongs[n - miss - 1])
  }

  lemma NextPing(pongs: seq<bool>, n: nat, miss: nat)
    requires n < |pongs| && Unanswered(pongs, n, miss)
    ensures AllAnswered(pongs, n + 1) <==> AllAnswered(pongs, n) && miss < 3
    ensures miss < 3 ==> Unanswered(pongs, n + 1, if pongs[n] then 0 else miss + 1)
  {
    if n >= 3 {
      assert Answered(pongs, n) <==> miss < 3;
    }
  }

  /** Pings that a child before this one has left unanswered. */
  function Missed(n: nat): (pongs: seq<bool>)
    ensures |pongs| == n && forall i :: 0 <= i < n ==> !pongs[i]
  {
    seq(n, i => false)
  }

  /** The child is pinged again and again and answers or not. It is kept if and only if no ping
      finds the three before it unanswered; the count it starts with is one of those. */
  method KeepChild(m: Members, pongs: seq<bool>, count: nat)
    requires m.Valid() && m.isSp && m.haveChild
    modifies m
    ensures m.Valid() && m.state == old(m.state) && m.childAddr == old(m.childAddr)
    ensures var all := Missed(old(m.childMissPong)) + pongs;
      m.haveChild <==> forall i :: 3 <= i < |all| ==> Answered(all, i)
  {
    hide Coherent, IsList, OneEach, AllAnswered, Unanswered;
    ghost var start := m.childMissPong;
    ghost var all := Missed(start) + pongs;
    FirstPing(all, start);
    for n := 0 to |pongs|
      invariant m.Valid() && m.isSp && m.state == old(m.state) && m.childAddr == old(m.childAddr)
      invariant m.haveChild == AllAnswered(all, start + n)
      invariant m.haveChild ==> Unanswered(all, start + n, m.childMissPong)
    {
      assert all[start + n] == pongs[n];
      if m.haveChild {
        NextPing(all, start + n, m.childMissPong);
      } else {
        StaysLost(all, start + n);
      }
      m.PingChild();
      if pongs[n] {
        m.Pong(m.childAddr, count);
      }
    }
    EveryPing(all);
  }

  /** A new child may start with three missed pongs; it is given up at the first ping. */
  lemma {:induction false} GivenUpAtOnce(pongs: seq<bool>)
    requires pongs != []
    ensures !Answered(Missed(3) + pongs, 3)
  {}

  lemma FirstPing(all: seq<bool>, start: nat)
    requires start <= 3 && start <= |all| && forall i :: 0 <= i < start ==> !all[i]
    ensures Unanswered(all, start, start) && AllAnswered(all, start)
  {}

  lemma StaysLost(pongs: seq<bool>, n: nat)
    requires n < |pongs| && !AllAnswered(pongs, n)
    ensures !AllAnswered(pongs, n + 1)
  {}

  lemma EveryPing(pongs: seq<bool>)
    ensures AllAnswered(pongs, |pongs|) <==> forall i :: 3 <= i < |pongs| ==> Answered(pongs, i)
  {}

  // ---- runs

  datatype Event =
    | Joins(addr: Addr, rate: u32, dwPort: u16)
    | Leaves(addr: Addr)
    | Registers(addr: Addr)
    | Pings(addr: Addr, rate: u32)
    | Aborts(addr: Addr)
    | Acknowledges(addr: Addr)
    | Pongs(addr: Addr, count: nat)
    | PromoteFails
    | ChildPinged
    | PeersSwept

  /** After a peer went the list is as before or one shorter. */
  lemma DroppedSorted(peers: seq<Peer>, after: seq<Peer>, addr: Addr)
    requires Sorted(peers) && (!Listed(peers, addr) ==> after == peers)
    requires forall k :: 0 <= k < |peers| && peers[k].addr == addr ==> after == Without(peers, k)
    ensures Sorted(after)
  {}

  /** In every run the count is right, at most 100 peers belong, no address belongs twice; and
      as long as no ping brings a new rate the list stays in order. */
  method Run(m: Members, events: seq<Event>)
    requires m.Valid() && m.isSp
    modifies m, m.list, m.index
    ensures m.Valid() && m.list.currPCount == |m.list.peers| <= 100 && OneEach(m.list.peers)
    ensures old(Sorted(m.list.peers)) && (forall e :: e in events ==> !e.Pings?) ==> Sorted(m.list.peers)
  {
    hide Coherent, IsList, OneEach, Joined, Sorted, Kept, Remaining;
    for n := 0 to |events|
      invariant m.Valid() && m.isSp
      invariant old(Sorted(m.list.peers)) && (forall e :: e in events ==> !e.Pings?) ==> Sorted(m.list.peers)
    {
      ghost var was := m.list.peers;
      match events[n] {
        case Joins(addr, rate, dwPort) =>
          var _ := m.Join(addr, rate, dwPort);
          if Sorted(was) {
            JoinedSorted(was, Peer(addr, rate, dwPort, true));
          }
        case Leaves(addr) =>
          var _ := m.Leave(addr);
          if Sorted(was) {
            DroppedSorted(was, m.list.peers, addr);
          }
        case Registers(addr) =>
          var reply := m.Register(addr);
          if Sorted(was) && reply == Ack {
            DroppedSorted(was, m.list.peers, addr);
          }
        case Pings(addr, rate) =>
          assert events[n] in events;
          m.Ping(addr, rate);
        case Aborts(addr) => var _ := m.Abort(addr);
        case Acknowledges(addr) => m.Acked(addr);
        case Pongs(addr, count) => m.Pong(addr, count);
        case PromoteFails => var _ := m.PromoteFailed();
        case ChildPinged => m.PingChild();
        case PeersSwept =>
          KeptWell(was);
          m.Sweep();
      }
    }
  }
}
