/** Which peers a superpeer keeps (src/client/peer_list_checker.c): from one sweep to the next a peer
    must give a sign of life, or it goes with all records of its files. */
module SignsOfLife {
  import opened Common
  import opened DoublyLinked
  import opened PeerList
  import opened Membership
  import opened Promotions

  /** What the list says about an address. */
  ghost function Entry(peers: seq<Peer>, a: Addr): Option<Peer> {
    if Listed(peers, a) then Some(peers[IndexIn(peers, a)]) else None
  }

  lemma {:induction false} EntryIs(peers: seq<Peer>, a: Addr, p: Peer)
    requires OneEach(peers)
    ensures Entry(peers, a) == Some(p) <==> p in peers && p.addr == a
  {
    if p in peers && p.addr == a {
      var k :| 0 <= k < |peers| && peers[k] == p;
      OnlyIndex(peers, a);
    }
  }

  lemma {:induction false} NoEntry(peers: seq<Peer>, a: Addr)
    ensures Entry(peers, a) == None <==> !Listed(peers, a)
    ensures Listed(peers, a) <==> exists p :: p in peers && p.addr == a
  {
    if Listed(peers, a) {
      assert peers[IndexIn(peers, a)] in peers;
    }
    if p :| p in peers && p.addr == a {
      var k :| 0 <= k < |peers| && peers[k] == p;
      assert peers[k].addr == a;
    }
  }

  /** Two lists that have the same peers of an address say the same about it. */
  lemma {:induction false} SameEntry(peers: seq<Peer>, after: seq<Peer>, a: Addr)
    requires OneEach(peers) && OneEach(after)
    requires forall p: Peer :: p.addr == a ==> (p in after <==> p in peers)
    ensures Entry(after, a) == Entry(peers, a)
  {
    hide OneEach, Entry;
    NoEntry(peers, a);
    NoEntry(after, a);
    if Entry(after, a).Some? {
      EntryIs(after, a, Entry(after, a).value);
      EntryIs(peers, a, Entry(after, a).value);
    }
  }

  lemma {:induction false} WithoutHas(peers: seq<Peer>, k: nat, p: Peer)
    requires OneEach(peers) && k < |peers|
    ensures OneEach(Without(peers, k)) && (p in Without(peers, k) <==> p in peers && p.addr != peers[k].addr)
  {
    DropFacts(peers, k);
    forall i, j | 0 <= i < j < |peers|
      ensures peers[i] != peers[j]
    {
      assert peers[i].addr != peers[j].addr;
    }
    WithoutMembers(peers, k);
    if p in peers && p.addr == peers[k].addr {
      var i :| 0 <= i < |peers| && peers[i] == p;
    }
  }

  lemma {:induction false} JoinedHas(peers: seq<Peer>, n: Peer, p: Peer)
    requires OneEach(peers) && !Listed(peers, n.addr)
    ensures OneEach(Joined(peers, n)) && (p in Joined(peers, n) <==> p in peers || p == n)
  {
    hide Place;
    JoinedOneEach(peers, n);
    SplicedMembers(peers, Place(peers, n.rate), n);
  }

  lemma {:induction false} RefreshedHas(peers: seq<Peer>, k: nat, rate: u32, p: Peer)
    requires OneEach(peers) && k < |peers|
    ensures OneEach(Refreshed(peers, k, rate))
    ensures p in Refreshed(peers, k, rate) <==>
      if p.addr == peers[k].addr then p == Peer(p.addr, rate, peers[k].dwPort, true) else p in peers
  {
    var t := Refreshed(peers, k, rate);
    RefreshOneEach(peers, k, rate);
    assert t[k] == Peer(peers[k].addr, rate, peers[k].dwPort, true);
    if p in peers && p.addr != peers[k].addr {
      var i :| 0 <= i < |peers| && peers[i] == p;
      assert t[i] == p;
    }
    if p in t && p.addr == peers[k].addr {
      var i :| 0 <= i < |t| && t[i] == p;
      AtIndex(peers, t, k, i);
    }
  }

  lemma {:induction false} AtIndex(peers: seq<Peer>, t: seq<Peer>, k: nat, i: nat)
    requires OneEach(peers) && k < |peers| == |t| && i < |t| && t[i].addr == peers[k].addr
    requires forall j :: 0 <= j < |t| && j != k ==> t[j] == peers[j]
    ensures i == k
  {}

  lemma {:induction false} KeptHas(peers: seq<Peer>, p: Peer)
    ensures p in Kept(peers) <==> !p.flag && p.(flag := true) in peers
  {
    if peers != [] {
      KeptHas(peers[..|peers| - 1], p);
      var last := peers[|peers| - 1];
      assert peers == peers[..|peers| - 1] + [last];
    }
  }

  lemma {:induction false} KeptEntry(peers: seq<Peer>, a: Addr)
    requires OneEach(peers)
    ensures OneEach(Kept(peers))
    ensures Entry(Kept(peers), a) == match Entry(peers, a)
                                     case None => None
                                     case Some(p) => if p.flag then Some(p.(flag := false)) else None
  {
    hide OneEach, Entry, Kept;
    KeptWell(peers);
    var was, now := Entry(peers, a), Entry(Kept(peers), a);
    NoEntry(peers, a);
    NoEntry(Kept(peers), a);
    if now.Some? {
      EntryIs(Kept(peers), a, now.value);
      KeptHas(peers, now.value);
      EntryIs(peers, a, now.value.(flag := true));
    }
    if was.Some? {
      EntryIs(peers, a, was.value);
      if was.value.flag {
        KeptHas(peers, was.value.(flag := false));
        assert was.value.(flag := false).(flag := true) == was.value;
        EntryIs(Kept(peers), a, was.value.(flag := false));
      }
    }
  }

  // ---- what one event means for one address

  /** The peer has left, or is a superpeer now. */
  ghost predicate Departs(v: View, e: Event, a: Addr) {
    e == Leaves(a) || (e == Registers(a) && a == v.childAddr)
  }

  lemma {:induction false} StepEntry(v: View, e: Event, a: Addr)
    requires OneEach(v.peers)
    ensures OneEach(Step(v, e).peers)
    ensures var was, now := Entry(v.peers, a), Entry(Step(v, e).peers, a);
      if Departs(v, e, a) then now == None
      else if e == PeersSwept then now == if was.Some? && was.value.flag then Some(was.value.(flag := false)) else None
      else if e.Pings? && e.addr == a && was.Some? then now == Some(Peer(a, e.rate, was.value.dwPort, true))
      else if e.Joins? && e.addr == a && was == None && |v.peers| < MAX_P_COUNT then now == Some(Peer(a, e.rate, e.dwPort, true))
      else now == was
  {
    hide OneEach, Entry, Joined, Kept, Refreshed, Without, Remaining;
    NoEntry(v.peers, a);
    match e {
      case Joins(addr, rate, dwPort) =>
        if !Listed(v.peers, addr) && |v.peers| < MAX_P_COUNT {
          JoinedEntry(v.peers, Peer(addr, rate, dwPort, true), a);
        }
      case Leaves(addr) => PartedEntry(v, addr, a);
      case Registers(addr) => PartedEntry(v, addr, a);
      case Pings(addr, rate) =>
        if Listed(v.peers, addr) {
          RefreshedEntry(v.peers, addr, rate, a);
        }
      case PeersSwept => KeptEntry(v.peers, a);
      case _ =>
    }
  }

  lemma {:induction false} JoinedEntry(peers: seq<Peer>, n: Peer, a: Addr)
    requires OneEach(peers) && !Listed(peers, n.addr)
    ensures OneEach(Joined(peers, n)) && Entry(Joined(peers, n), a) == if a == n.addr then Some(n) else Entry(peers, a)
  {
    hide OneEach, Entry, Joined;
    forall p: Peer
      ensures OneEach(Joined(peers, n)) && (p in Joined(peers, n) <==> p in peers || p == n)
    {
      JoinedHas(peers, n, p);
    }
    JoinedHas(peers, n, n);
    if a == n.addr {
      EntryIs(Joined(peers, n), a, n);
    } else {
      SameEntry(peers, Joined(peers, n), a);
    }
  }

  lemma {:induction false} PartedEntry(v: View, addr: Addr, a: Addr)
    requires OneEach(v.peers)
    ensures OneEach(Parted(v, addr).peers) && Entry(Parted(v, addr).peers, a) == if a == addr then None else Entry(v.peers, a)
  {
    hide OneEach, Entry, Without;
    NoEntry(v.peers, a);
    if Listed(v.peers, addr) {
      var k := IndexIn(v.peers, addr);
      var after := Without(v.peers, k);
      forall p: Peer
        ensures OneEach(after) && (p in after <==> p in v.peers && p.addr != addr)
      {
        WithoutHas(v.peers, k, p);
      }
      WithoutHas(v.peers, k, v.peers[k]);
      NoEntry(after, a);
      if a != addr {
        SameEntry(v.peers, after, a);
      }
    }
  }

  lemma {:induction false} RefreshedEntry(peers: seq<Peer>, addr: Addr, rate: u32, a: Addr)
    requires OneEach(peers) && Listed(peers, addr)
    ensures var after := Refreshed(peers, IndexIn(peers, addr), rate);
      && OneEach(after)
      && Entry(after, a) == if a == addr then Some(Peer(a, rate, Entry(peers, a).value.dwPort, true)) else Entry(peers, a)
  {
    hide OneEach, Refreshed;
    var k := IndexIn(peers, addr);
    var after := Refreshed(peers, k, rate);
    forall p: Peer
      ensures OneEach(after)
      ensures p in after <==> if p.addr == addr then p == Peer(p.addr, rate, peers[k].dwPort, true) else p in peers
    {
      RefreshedHas(peers, k, rate, p);
    }
    RefreshedHas(peers, k, rate, peers[k]);
    if a == addr {
      EntryIs(after, a, Peer(a, rate, peers[k].dwPort, true));
    } else {
      SameEntry(peers, after, a);
    }
  }

  // ---- from one sweep to the next

  ghost predicate NoSweep(events: seq<Event>) {
    PeersSwept !in events
  }

  /** The peer neither leaves nor registers. */
  ghost predicate Stays(events: seq<Event>, a: Addr) {
    Leaves(a) !in events && Registers(a) !in events
  }

  ghost predicate PingsIn(events: seq<Event>, a: Addr) {
    exists e :: e in events && e.Pings? && e.addr == a
  }

  /** While nobody sweeps, a listed peer that stays keeps its port, and is marked if and only if it
      was before or has pinged. */
  lemma {:induction false} MarkedIfPinged(v: View, events: seq<Event>, a: Addr)
    requires OneEach(v.peers) && Listed(v.peers, a) && NoSweep(events) && Stays(events, a)
    ensures var u := ViewAfter(v, events);
      && OneEach(u.peers) && Listed(u.peers, a)
      && Entry(u.peers, a).value.dwPort == Entry(v.peers, a).value.dwPort
      && (Entry(u.peers, a).value.flag <==> Entry(v.peers, a).value.flag || PingsIn(events, a))
  {
    hide OneEach, Entry, Step, Listed;
    NoEntry(v.peers, a);
    if events != [] {
      var rest, e := events[..|events| - 1], events[|events| - 1];
      assert events == rest + [e];
      MarkedIfPinged(v, rest, a);
      var u := ViewAfter(v, rest);
      StepEntry(u, e, a);
      NoEntry(u.peers, a);
      NoEntry(Step(u, e).peers, a);
      assert PingsIn(events, a) <==> PingsIn(rest, a) || (e.Pings? && e.addr == a) by {
        PingsOn(rest, e, a);
      }
    }
  }

  lemma {:induction false} PingsOn(rest: seq<Event>, e: Event, a: Addr)
    ensures PingsIn(rest + [e], a) <==> PingsIn(rest, a) || (e.Pings? && e.addr == a)
  {
    if e.Pings? && e.addr == a {
      assert e in rest + [e];
    }
  }

  /** No other listed peer has the ip and the port. */
  ghost predicate Sole(peers: seq<Peer>, a: Addr, port: u16) {
    forall p :: p in peers && p.addr != a ==> p.addr.ip != a.ip || p.dwPort != port
  }

  /** Between two sweeps a listed peer that neither leaves nor registers is kept by the second if and
      only if it has pinged. Without a ping every record of its ip and port is gone. With one, if it
      alone has that ip and port, all of them are still there. */
  lemma {:induction false} PingKeepsAlive(v: View, events: seq<Event>, a: Addr)
    requires OneEach(v.peers) && Listed(Step(v, PeersSwept).peers, a) && NoSweep(events) && Stays(events, a)
    ensures var u := ViewAfter(Step(v, PeersSwept), events);
      var w := Step(u, PeersSwept);
      && Listed(u.peers, a)
      && (Listed(w.peers, a) <==> PingsIn(events, a))
      && var port := Entry(u.peers, a).value.dwPort;
         && (!PingsIn(events, a) ==> forall r :: r in w.recs ==> r.ip != a.ip || r.port != port)
         && (PingsIn(events, a) && Sole(u.peers, a, port) ==>
               forall r: Record :: r.ip == a.ip && r.port == port ==> (r in w.recs <==> r in u.recs))
  {
    hide OneEach, Kept, Entry, Listed, Remaining;
    var x := Step(v, PeersSwept);
    KeptEntry(v.peers, a);
    NoEntry(x.peers, a);
    MarkedIfPinged(x, events, a);
    var u := ViewAfter(x, events);
    var w := Step(u, PeersSwept);
    KeptEntry(u.peers, a);
    NoEntry(u.peers, a);
    NoEntry(w.peers, a);
    var p := Entry(u.peers, a).value;
    EntryIs(u.peers, a, p);
    var k :| 0 <= k < |u.peers| && u.peers[k] == p;
    forall r: Record | r.ip == a.ip && r.port == p.dwPort
      ensures !p.flag ==> r !in w.recs
      ensures p.flag && Sole(u.peers, a, p.dwPort) ==> (r in w.recs <==> r in u.recs)
    {
      RemainingHas(u.recs, u.peers, r);
      if p.flag && Sole(u.peers, a, p.dwPort) {
        forall i | 0 <= i < |u.peers| && !u.peers[i].flag
          ensures u.peers[i].addr.ip != r.ip || u.peers[i].dwPort != r.port
        {
          UnmarkedIsOther(u.peers, k, i);
          assert u.peers[i] in u.peers;
        }
      }
    }
  }

  lemma {:induction false} UnmarkedIsOther(peers: seq<Peer>, k: nat, i: nat)
    requires OneEach(peers) && k < |peers| && i < |peers| && peers[k].flag && !peers[i].flag
    ensures peers[i].addr != peers[k].addr
  {}

  /** A peer that has just joined is kept by the next sweep without a ping. */
  lemma {:induction false} NewPeerIsKept(v: View, a: Addr, rate: u32, dwPort: u16, events: seq<Event>)
    requires OneEach(v.peers) && !Listed(v.peers, a) && |v.peers| < MAX_P_COUNT && NoSweep(events) && Stays(events, a)
    ensures Listed(Step(ViewAfter(Step(v, Joins(a, rate, dwPort)), events), PeersSwept).peers, a)
  {
    hide OneEach, Kept, Entry, Listed, Joined, Remaining;
    var x := Step(v, Joins(a, rate, dwPort));
    NoEntry(v.peers, a);
    StepEntry(v, Joins(a, rate, dwPort), a);
    NoEntry(x.peers, a);
    MarkedIfPinged(x, events, a);
    var u := ViewAfter(x, events);
    KeptEntry(u.peers, a);
    NoEntry(u.peers, a);
    NoEntry(Step(u, PeersSwept).peers, a);
  }

  // ---- the records in between

  /** No other peer joins with the ip and the port. */
  ghost predicate StaysSole(events: seq<Event>, a: Addr, port: u16) {
    forall e :: e in events && e.Joins? ==> e.addr == a || e.addr.ip != a.ip || e.dwPort != port
  }

  /** Between two sweeps nobody else touches the records of a peer that stays, if it alone has its ip
      and port. */
  lemma {:induction false} RecordsStay(v: View, events: seq<Event>, a: Addr, port: u16)
    requires OneEach(v.peers) && NoSweep(events) && Stays(events, a) && Sole(v.peers, a, port) && StaysSole(events, a, port)
    ensures var u := ViewAfter(v, events);
      && OneEach(u.peers) && Sole(u.peers, a, port)
      && forall r: Record :: r.ip == a.ip && r.port == port ==> (r in u.recs <==> r in v.recs)
  {
    hide OneEach, Sole, Step;
    if events != [] {
      var rest, e := events[..|events| - 1], events[|events| - 1];
      assert events == rest + [e];
      RecordsStay(v, rest, a, port);
      StepEntry(ViewAfter(v, rest), e, a);
      StepRecords(ViewAfter(v, rest), e, a, port);
    }
  }

  lemma {:induction false} StepRecords(v: View, e: Event, a: Addr, port: u16)
    requires OneEach(v.peers) && Sole(v.peers, a, port) && e != PeersSwept && e != Leaves(a) && e != Registers(a)
    requires e.Joins? ==> e.addr == a || e.addr.ip != a.ip || e.dwPort != port
    ensures Sole(Step(v, e).peers, a, port)
    ensures forall r: Record :: r.ip == a.ip && r.port == port ==> (r in Step(v, e).recs <==> r in v.recs)
  {
    hide OneEach, Joined, Kept, Refreshed, Without;
    match e {
      case Joins(addr, rate, dwPort) =>
        if !Listed(v.peers, addr) && |v.peers| < MAX_P_COUNT {
          forall p: Peer
            ensures p in Joined(v.peers, Peer(addr, rate, dwPort, true)) <==> p in v.peers || p == Peer(addr, rate, dwPort, true)
          {
            JoinedHas(v.peers, Peer(addr, rate, dwPort, true), p);
          }
        }
      case Leaves(addr) => PartedRecords(v, addr, a, port);
      case Registers(addr) => PartedRecords(v, addr, a, port);
      case Pings(addr, rate) =>
        if Listed(v.peers, addr) {
          var k := IndexIn(v.peers, addr);
          assert v.peers[k] in v.peers;
          forall p: Peer
            ensures p in Refreshed(v.peers, k, rate) <==>
              if p.addr == addr then p == Peer(p.addr, rate, v.peers[k].dwPort, true) else p in v.peers
          {
            RefreshedHas(v.peers, k, rate, p);
          }
        }
      case _ =>
    }
  }

  lemma {:induction false} PartedRecords(v: View, addr: Addr, a: Addr, port: u16)
    requires OneEach(v.peers) && Sole(v.peers, a, port) && addr != a
    ensures Sole(Parted(v, addr).peers, a, port)
    ensures forall r: Record :: r.ip == a.ip && r.port == port ==> (r in Parted(v, addr).recs <==> r in v.recs)
  {
    hide OneEach, Without;
    if Listed(v.peers, addr) {
      var k := IndexIn(v.peers, addr);
      assert v.peers[k] in v.peers;
      forall p: Peer
        ensures p in Without(v.peers, k) ==> p in v.peers
      {
        WithoutHas(v.peers, k, p);
      }
    }
  }

  // ---- the timeout of a promotion

  /** Until the next sweep the timeout stays as a sweep has left it; outside a promotion that is 5. */
  lemma {:induction false} SweepResetsTimeout(v: View, events: seq<Event>)
    requires v.state != PromoteSent && NoSweep(events)
    ensures ViewAfter(Step(v, PeersSwept), events).ttl == 5
  {
    hide Step;
    if events == [] {
      SweepSetsTimeout(v);
    } else {
      var rest, e := events[..|events| - 1], events[|events| - 1];
      assert events == rest + [e];
      SweepResetsTimeout(v, rest);
      OnlySweepsCount(ViewAfter(Step(v, PeersSwept), rest), e);
    }
  }

  lemma {:induction false} SweepSetsTimeout(v: View)
    requires v.state != PromoteSent
    ensures Step(v, PeersSwept).ttl == 5
  {}

  lemma {:induction false} OnlySweepsCount(v: View, e: Event)
    requires e != PeersSwept
    ensures Step(v, e).ttl == v.ttl
  {
    hide Joined, Kept, Refreshed, Without, Remaining;
  }

  /** A promotion that is opened before the next sweep is open through five sweeps, whatever else
      happens, unless something closes it, and closed by the sixth. */
  lemma {:induction false} SixthSweepCloses(v: View, events: seq<Event>, e: Event, more: seq<Event>)
    requires v.state != PromoteSent && NoSweep(events)
    requires var u := ViewAfter(Step(v, PeersSwept), events); ReplyTo(u, e).Promoted?
    requires var w := Step(ViewAfter(Step(v, PeersSwept), events), e); NonePromotes(w, more) && NoneCloses(w, more)
    ensures var w := Step(ViewAfter(Step(v, PeersSwept), events), e);
      ViewAfter(w, more).state == if SweepsIn(more) <= 5 then PromoteSent else Active
  {
    hide NonePromotes, NoneCloses, Joined, ViewAfter;
    SweepResetsTimeout(v, events);
    SettlePromotion(Step(ViewAfter(Step(v, PeersSwept), events), e), more);
  }
}
