/** A superpeer whose list of peers is full promotes one of them (src/client/client.c,
    src/client/superpeer.c). Everything that can happen to the superpeer meanwhile is a function of
    what it knows; from that it follows who becomes its child, and when. */
module Promotions {
  import opened Common
  import opened Memory
  import opened DoublyLinked
  import opened FileIndex
  import opened PeerList
  import opened Membership

  /** What the superpeer knows. */
  datatype View = View(peers: seq<Peer>, recs: set<Record>, state: State, haveChild: bool, missPong: nat, childCount: nat, childAddr: Addr, ttl: nat)

  ghost function ViewOf(m: Members): View
    reads m, m.list, m.index
  {
    View(m.list.peers, m.index.recs, m.state, m.haveChild, m.childMissPong, m.currChildPCount, m.childAddr, m.promoteTtl)
  }

  ghost function IndexIn(peers: seq<Peer>, addr: Addr): (k: nat)
    requires Listed(peers, addr)
    ensures k < |peers| && peers[k].addr == addr
  {
    var k :| 0 <= k < |peers| && peers[k].addr == addr;
    k
  }

  /** The peer of that address is gone, and its records. */
  ghost function Parted(v: View, addr: Addr): View {
    if !Listed(v.peers, addr) then v
    else
      var k := IndexIn(v.peers, addr);
      v.(peers := Without(v.peers, k), recs := set r | r in v.recs && !(r.ip == addr.ip && r.port == v.peers[k].dwPort))
  }

  /** What the superpeer answers. */
  ghost function ReplyTo(v: View, e: Event): Reply {
    match e
    case Joins(addr, _, _) =>
      if Listed(v.peers, addr) || |v.peers| < MAX_P_COUNT then Ack
      else if v.state == PromoteSent then Ignored
      else if v.haveChild && v.missPong < 3 then Redirected(v.childAddr)
      else Promoted(v.peers[0].addr)
    case Leaves(_) => Ack
    case Registers(addr) => if addr == v.childAddr then Ack else Err
    case Aborts(_) => Ack
    case PromoteFails => if |v.peers| < MAX_P_COUNT then Ignored else Promoted(v.peers[0].addr)
    case _ => Ignored
  }

  /** What it knows then. */
  ghost function Step(v: View, e: Event): View {
    match e
    case Joins(addr, rate, dwPort) =>
      if Listed(v.peers, addr) then v
      else if |v.peers| < MAX_P_COUNT then v.(peers := Joined(v.peers, Peer(addr, rate, dwPort, true)))
      else if ReplyTo(v, e).Promoted? then v.(state := PromoteSent)
      else if ReplyTo(v, e).Redirected? && v.childCount == MAX_P_COUNT - 1 then v.(haveChild := false)
      else v
    case Leaves(addr) => Parted(v, addr)
    case Registers(addr) => if addr == v.childAddr then Parted(v, addr).(state := Active, haveChild := true) else v
    case Pings(addr, rate) => if Listed(v.peers, addr) then v.(peers := Refreshed(v.peers, IndexIn(v.peers, addr), rate)) else v
    case Aborts(addr) => if addr == v.childAddr then v.(state := Active) else v
    case Acknowledges(addr) => if v.state == PromoteSent then v.(childAddr := addr) else v
    case Pongs(addr, count) => if addr == v.childAddr then v.(childCount := count, missPong := 0) else v
    case PromoteFails => v.(state := if |v.peers| < MAX_P_COUNT then Active else PromoteSent)
    case ChildPinged =>
      if !v.haveChild then v
      else if v.missPong < 3 then v.(missPong := v.missPong + 1)
      else v.(haveChild := false, missPong := 0)
    case PeersSwept =>
      var (state, ttl) := Timeout(v.state, v.ttl);
      v.(peers := Kept(v.peers), recs := Remaining(v.recs, v.peers), state := state, ttl := ttl)
  }

  ghost function ViewAfter(v: View, events: seq<Event>): View {
    if events == [] then v else Step(ViewAfter(v, events[..|events| - 1]), events[|events| - 1])
  }

  ghost function Replies(v: View, events: seq<Event>): seq<Reply> {
    if events == [] then []
    else
      var n := |events| - 1;
      Replies(v, events[..n]) + [ReplyTo(ViewAfter(v, events[..n]), events[n])]
  }

  // ---- the superpeer keeps to it

  lemma {:induction false} OnlyIndex(peers: seq<Peer>, addr: Addr)
    requires OneEach(peers) && Listed(peers, addr)
    ensures forall k :: 0 <= k < |peers| && peers[k].addr == addr ==> k == IndexIn(peers, addr)
  {}

  /** One event that is about a peer of the list. */
  method HandlePeer(m: Members, e: Event) returns (reply: Reply)
    requires m.Valid() && m.isSp && (e.Joins? || e.Leaves? || e.Registers? || e.Pings?)
    modifies m, m.list, m.index
    ensures m.Valid() && m.isSp
    ensures ViewOf(m) == Step(old(ViewOf(m)), e) && reply == ReplyTo(old(ViewOf(m)), e)
  {
    hide Coherent, IsList, OneEach, Joined, Sorted, Without, Refreshed;
    ghost var was := m.list.peers;
    reply := Ignored;
    if Listed(was, e.addr) {
      OnlyIndex(was, e.addr);
    }
    match e {
      case Joins(addr, rate, dwPort) => reply := m.Join(addr, rate, dwPort);
      case Leaves(addr) => reply := m.Leave(addr);
      case Registers(addr) => reply := m.Register(addr);
      case Pings(addr, rate) => m.Ping(addr, rate);
    }
  }

  /** One event. */
  method Handle(m: Members, e: Event) returns (reply: Reply)
    requires m.Valid() && m.isSp
    modifies m, m.list, m.index
    ensures m.Valid() && m.isSp
    ensures ViewOf(m) == Step(old(ViewOf(m)), e) && reply == ReplyTo(old(ViewOf(m)), e)
  {
    hide Coherent, IsList, OneEach, Kept, Remaining;
    reply := Ignored;
    match e {
      case Aborts(addr) => reply := m.Abort(addr);
      case Acknowledges(addr) => m.Acked(addr);
      case Pongs(addr, count) => m.Pong(addr, count);
      case PromoteFails => reply := m.PromoteFailed();
      case ChildPinged => m.PingChild();
      case PeersSwept => m.Sweep();
      case _ => reply := HandlePeer(m, e);
    }
  }

  /** Any run of events. */
  method Follow(m: Members, events: seq<Event>) returns (replies: seq<Reply>)
    requires m.Valid() && m.isSp
    modifies m, m.list, m.index
    ensures m.Valid() && m.isSp
    ensures ViewOf(m) == ViewAfter(old(ViewOf(m)), events) && replies == Replies(old(ViewOf(m)), events)
  {
    hide Coherent, IsList, OneEach, Step, ReplyTo;
    replies := [];
    for n := 0 to |events|
      invariant m.Valid() && m.isSp
      invariant ViewOf(m) == ViewAfter(old(ViewOf(m)), events[..n]) && replies == Replies(old(ViewOf(m)), events[..n])
    {
      assert events[..n + 1][..n] == events[..n];
      var reply := Handle(m, events[n]);
      replies := replies + [reply];
    }
    assert events[..|events|] == events;
  }

  // ---- whose promotion it is

  /** Event number `i` is an acknowledgement that comes in while a promotion is open. */
  ghost predicate Counts(v: View, events: seq<Event>, i: nat)
    requires i < |events|
  {
    events[i].Acknowledges? && ViewAfter(v, events[..i]).state == PromoteSent
  }

  ghost predicate NoneCounts(v: View, events: seq<Event>) {
    forall i :: 0 <= i < |events| ==> !Counts(v, events, i)
  }

  /** The last acknowledgement that comes in while a promotion is open is one of `addr`. */
  ghost predicate LastCounts(v: View, events: seq<Event>, addr: Addr) {
    exists i :: 0 <= i < |events| && Counts(v, events, i) && events[i] == Acknowledges(addr)
      && forall j :: i < j < |events| ==> !Counts(v, events, j)
  }

  lemma {:induction false} CountsBefore(v: View, events: seq<Event>, n: nat, i: nat)
    requires i < n <= |events|
    ensures Counts(v, events[..n], i) <==> Counts(v, events, i)
  {
    assert events[..n][..i] == events[..i];
  }

  lemma {:induction false} LastCountsNext(v: View, events: seq<Event>, addr: Addr)
    requires events != []
    ensures var n := |events| - 1;
      && (NoneCounts(v, events) <==> NoneCounts(v, events[..n]) && !Counts(v, events, n))
      && (LastCounts(v, events, addr) <==> if Counts(v, events, n) then events[n] == Acknowledges(addr) else LastCounts(v, events[..n], addr))
  {
    hide Counts;
    var n := |events| - 1;
    var rest := events[..n];
    forall i | 0 <= i < n
      ensures Counts(v, rest, i) <==> Counts(v, events, i)
    {
      CountsBefore(v, events, n, i);
    }
    if Counts(v, events, n) && events[n] == Acknowledges(addr) {
      assert LastCounts(v, events, addr);
    }
    if LastCounts(v, rest, addr) && !Counts(v, events, n) {
      var i :| 0 <= i < |rest| && Counts(v, rest, i) && rest[i] == Acknowledges(addr) && forall j :: i < j < |rest| ==> !Counts(v, rest, j);
      assert Counts(v, events, i) && events[i] == Acknowledges(addr);
      forall j | i < j < |events|
        ensures !Counts(v, events, j)
      {
        assert j < n ==> !Counts(v, rest, j);
      }
    }
    if LastCounts(v, events, addr) && !Counts(v, events, n) {
      var i :| 0 <= i < |events| && Counts(v, events, i) && events[i] == Acknowledges(addr) && forall j :: i < j < |events| ==> !Counts(v, events, j);
      assert Counts(v, rest, i) && rest[i] == Acknowledges(addr);
    }
  }

  /** The child is whoever sent the last acknowledgement while a promotion was open, whatever it
      acknowledged; nothing else changes it. */
  lemma {:induction false} ChildIsLastToAcknowledge(v: View, events: seq<Event>, addr: Addr)
    ensures ViewAfter(v, events).childAddr == addr <==> LastCounts(v, events, addr) || (NoneCounts(v, events) && v.childAddr == addr)
  {
    hide LastCounts, NoneCounts;
    if events == [] {
      NothingCounts(v, addr);
    } else {
      var n := |events| - 1;
      ChildIsLastToAcknowledge(v, events[..n], addr);
      LastCountsNext(v, events, addr);
      OnlyAcksChange(ViewAfter(v, events[..n]), events[n]);
    }
  }

  lemma {:induction false} NothingCounts(v: View, addr: Addr)
    ensures NoneCounts(v, []) && !LastCounts(v, [], addr)
  {}

  lemma {:induction false} OnlyAcksChange(v: View, e: Event)
    ensures Step(v, e).childAddr == if e.Acknowledges? && v.state == PromoteSent then e.addr else v.childAddr
  {
    hide Joined, Kept, Remaining, Refreshed;
  }

  /** A peer that was promoted is accepted as a superpeer if and only if the last acknowledgement
      that came in while the promotion was open is its own, or none came and it was the child before. */
  lemma {:induction false} PromotedRegisters(v: View, e: Event, best: Addr, events: seq<Event>)
    requires ReplyTo(v, e) == Promoted(best)
    ensures var w := Step(v, e);
      && w.state == PromoteSent && w.childAddr == v.childAddr
      && (ReplyTo(ViewAfter(w, events), Registers(best)) == Ack <==>
          LastCounts(w, events, best) || (NoneCounts(w, events) && v.childAddr == best))
  {
    hide LastCounts, NoneCounts, Joined, ViewAfter;
    OnlyAcksChange(v, e);
    ChildIsLastToAcknowledge(Step(v, e), events, best);
  }

  /** Its registration takes it from the list and makes it the child; anyone else's changes nothing. */
  lemma {:induction false} RegistrationIs(v: View, addr: Addr)
    requires OneEach(v.peers)
    ensures var w := Step(v, Registers(addr));
      if ReplyTo(v, Registers(addr)) == Ack then w.state == Active && w.haveChild && !Listed(w.peers, addr) && w.missPong == v.missPong
      else w == v
  {
    if Listed(v.peers, addr) {
      DropFacts(v.peers, IndexIn(v.peers, addr));
    }
  }

  /** The promoted peer acknowledges, then another one acknowledges a packet of its own: the
      promoted peer is turned away, and the other one would be accepted. */
  lemma {:induction false} StrayAcknowledgement(v: View, best: Addr, other: Addr)
    requires v.state == PromoteSent && best != other
    ensures var w := ViewAfter(v, [Acknowledges(best), Acknowledges(other)]);
      ReplyTo(w, Registers(best)) == Err && ReplyTo(w, Registers(other)) == Ack
  {
    var events := [Acknowledges(best), Acknowledges(other)];
    assert events[..1] == [Acknowledges(best)] && events[..1][..0] == [];
    assert ViewAfter(v, events[..1]) == v.(childAddr := best);
  }

  // ---- how long it is open

  ghost function SweepsIn(events: seq<Event>): nat {
    if events == [] then 0
    else SweepsIn(events[..|events| - 1]) + if events[|events| - 1] == PeersSwept then 1 else 0
  }

  /** The child registers or aborts, or the promotion was not delivered. */
  ghost predicate Closes(v: View, e: Event) {
    e == Registers(v.childAddr) || e == Aborts(v.childAddr) || e == PromoteFails
  }

  ghost predicate NoneCloses(v: View, events: seq<Event>) {
    forall i :: 0 <= i < |events| ==> !Closes(ViewAfter(v, events[..i]), events[i])
  }

  ghost predicate NonePromotes(v: View, events: seq<Event>) {
    forall i :: 0 <= i < |events| ==> !ReplyTo(ViewAfter(v, events[..i]), events[i]).Promoted?
  }

  lemma {:induction false} NextCloses(v: View, events: seq<Event>)
    requires events != []
    ensures var n := |events| - 1;
      && (NoneCloses(v, events) <==> NoneCloses(v, events[..n]) && !Closes(ViewAfter(v, events[..n]), events[n]))
      && (NonePromotes(v, events) <==> NonePromotes(v, events[..n]) && !ReplyTo(ViewAfter(v, events[..n]), events[n]).Promoted?)
  {
    hide Closes, ReplyTo, ViewAfter;
    var n := |events| - 1;
    forall i | 0 <= i < n
      ensures events[..n][..i] == events[..i] && events[..n][i] == events[i]
    {}
    assert events[..n] == events[..|events| - 1];
  }

  /** A promotion is open, and no other follows: it stays open if and only if there are no more
      sweeps than its timeout and nothing closes it, and once closed it leaves the superpeer active. */
  lemma {:induction false} SettlePromotion(v: View, events: seq<Event>)
    requires v.state == PromoteSent && NonePromotes(v, events)
    ensures var w := ViewAfter(v, events);
      && (w.state == PromoteSent || w.state == Active)
      && (w.state == PromoteSent <==> SweepsIn(events) <= v.ttl && NoneCloses(v, events))
      && (w.state == PromoteSent ==> w.ttl == v.ttl - SweepsIn(events))
  {
    hide NoneCloses, NonePromotes, Joined, Kept, Remaining, Refreshed, Parted;
    if events == [] {
      NoEvents(v);
    } else {
      var n := |events| - 1;
      NextCloses(v, events);
      SettlePromotion(v, events[..n]);
      StateNext(ViewAfter(v, events[..n]), events[n]);
    }
  }

  lemma {:induction false} NoEvents(v: View)
    ensures NoneCloses(v, []) && NonePromotes(v, [])
  {}

  lemma {:induction false} StateNext(v: View, e: Event)
    requires !ReplyTo(v, e).Promoted?
    ensures Step(v, e).state ==
      if v.state == PromoteSent && !Closes(v, e) && !(e == PeersSwept && v.ttl == 0) then PromoteSent
      else if v.state == PromoteSent || Closes(v, e) then Active else v.state
    ensures Step(v, e).state == v.state == PromoteSent ==> Step(v, e).ttl == if e == PeersSwept then v.ttl - 1 else v.ttl
  {
    hide Joined, Kept, Remaining, Refreshed;
  }
}
