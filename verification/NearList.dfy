/** The overlay neighbours of a superpeer (src/client/near_list.c) and the operations of
    src/client/superpeer.c that keep `nsock` and the advertised string `near_str` in step
    with them. */
module NearList {
  import opened Common
  import opened Bytes

  /** `near_node`: the connection, the neighbour's address, and the neighbours it advertised. */
  datatype Near = Near(sock: int, addr: Addr, data: seq<byte>, number: nat)

  const MAX_TCP_SOCKET := 6

  ghost function Addrs(near: seq<Near>): (l: seq<Addr>)
    ensures |l| == |near| && forall i :: 0 <= i < |near| ==> l[i] == near[i].addr
  {
    seq(|near|, i requires 0 <= i < |near| => near[i].addr)
  }

  /** The operating system hands out distinct descriptors for open connections. */
  ghost predicate SocksDistinct(near: seq<Near>) {
    forall i, j :: 0 <= i < j < |near| ==> near[i].sock != near[j].sock
  }

  /** Every advertisement is a whole number of addresses. */
  ghost predicate WellAdvertised(near: seq<Near>) {
    forall n :: n in near ==> |n.data| == 6 * n.number
  }

  predicate HasSock(near: seq<Near>, sock: int) {
    exists i :: 0 <= i < |near| && near[i].sock == sock
  }

  predicate HasAddr(near: seq<Near>, addr: Addr) {
    exists i :: 0 <= i < |near| && near[i].addr == addr
  }

  /** A new neighbour becomes the second of the list, or the first of an empty one. */
  ghost function Inserted(near: seq<Near>, n: Near): (r: seq<Near>)
    ensures |r| == |near| + 1
  {
    if near == [] then [n] else [near[0], n] + near[1..]
  }

  /** A later neighbour goes in front of an earlier one, but behind the first. */
  lemma {:induction false} TwoInserted(a: Near, b: Near, c: Near)
    ensures Inserted(Inserted(Inserted([], a), b), c) == [a, c, b]
  {}

  lemma InsertedAddrs(near: seq<Near>, n: Near)
    ensures multiset(Addrs(Inserted(near, n))) == multiset(Addrs(near)) + multiset{n.addr}
  {
    if near == [] {
      assert Addrs(Inserted(near, n)) == [n.addr] && Addrs(near) == [];
    } else {
      var rest := Addrs(near)[1..];
      assert Addrs(Inserted(near, n)) == [near[0].addr] + [n.addr] + rest;
      assert Addrs(near) == [near[0].addr] + rest;
    }
  }

  lemma InsertedSocks(near: seq<Near>, n: Near)
    requires SocksDistinct(near) && !HasSock(near, n.sock)
    ensures SocksDistinct(Inserted(near, n))
    ensures forall s :: HasSock(Inserted(near, n), s) ==> HasSock(near, s) || s == n.sock
    ensures WellAdvertised(near) && |n.data| == 6 * n.number ==> WellAdvertised(Inserted(near, n))
  {
    var t := Inserted(near, n);
    forall i | 0 <= i < |t|
      ensures t[i] == n || t[i] in near
    {
      assert t[i] == n || t[i] == near[if i == 0 then 0 else i - 1];
    }
  }

  lemma WithoutAddrs(near: seq<Near>, k: nat)
    requires k < |near|
    ensures multiset(Addrs(Without(near, k))) == multiset(Addrs(near)) - multiset{near[k].addr}
  {
    var l := Addrs(near);
    assert l == l[..k] + [l[k]] + l[k + 1..];
    assert Addrs(Without(near, k)) == l[..k] + l[k + 1..];
  }

  lemma WithoutSocks(near: seq<Near>, k: nat)
    requires k < |near| && SocksDistinct(near)
    ensures SocksDistinct(Without(near, k)) && !HasSock(Without(near, k), near[k].sock)
    ensures WellAdvertised(near) ==> WellAdvertised(Without(near, k))
  {
    var t := Without(near, k);
    forall i | 0 <= i < |t|
      ensures t[i] == near[if i < k then i else i + 1]
    {
    }
  }

  /** `buf` after `memcpy` of `b` to offset `at`. */
  function Patched(buf: seq<byte>, at: nat, b: seq<byte>): (r: seq<byte>)
    requires at + |b| <= |buf|
    ensures |r| == |buf|
  {
    buf[..at] + b + buf[at + |b|..]
  }

  lemma {:induction false} EncodedAppend(a: seq<Addr>, b: seq<Addr>)
    ensures Encoded(a + b) == Encoded(a) + Encoded(b)
  {
    hide Addr2Str;
    if a == [] {
      assert a + b == b;
    } else {
      EncodedAppend(a[1..], b);
      assert (a + b)[1..] == a[1..] + b && (a + b)[0] == a[0];
    }
  }

  /** What becomes of one address of the list handed to `join_overlay`: an acknowledged
      connection, or any of the ways in which it fails. */
  datatype Reply = Ack(sock: int) | Refused | Closed | Rejected

  /** The neighbours after the addresses of `list` were tried in order. */
  ghost function Acknowledged(near: seq<Near>, list: seq<Addr>, replies: seq<Reply>): seq<Near>
    requires |replies| == |list|
  {
    if list == [] then near
    else
      var rest := Acknowledged(near, list[..|list| - 1], replies[..|list| - 1]);
      if !HasAddr(rest, list[|list| - 1]) && replies[|list| - 1].Ack? then
        Inserted(rest, Near(replies[|list| - 1].sock, list[|list| - 1], [], 0))
      else
        rest
  }

  lemma {:induction false} AcknowledgedGrows(near: seq<Near>, list: seq<Addr>, replies: seq<Reply>, k: nat)
    requires |replies| == |list| && k <= |list|
    ensures |Acknowledged(near, list[..k], replies[..k])| <= |Acknowledged(near, list, replies)|
  {
    if k < |list| {
      var n := |list| - 1;
      AcknowledgedGrows(near, list[..n], replies[..n], k);
      assert list[..n][..k] == list[..k] && replies[..n][..k] == replies[..k];
    } else {
      assert list[..k] == list && replies[..k] == replies;
    }
  }

  /** Whom `join_overlay` ends up with: the neighbours it had and the addresses that acknowledged, none
      twice. */
  lemma {:induction false} AcknowledgedHas(near: seq<Near>, list: seq<Addr>, replies: seq<Reply>, a: Addr)
    requires |replies| == |list|
    ensures HasAddr(Acknowledged(near, list, replies), a) <==>
      HasAddr(near, a) || exists i :: 0 <= i < |list| && list[i] == a && replies[i].Ack?
    ensures Distinct(Addrs(near)) ==> Distinct(Addrs(Acknowledged(near, list, replies)))
  {
    hide Inserted, HasAddr, Addrs, Distinct;
    if list != [] {
      var n := |list| - 1;
      AcknowledgedHas(near, list[..n], replies[..n], a);
      assert forall i :: 0 <= i < n ==> list[..n][i] == list[i] && replies[..n][i] == replies[i];
      var rest := Acknowledged(near, list[..n], replies[..n]);
      if !HasAddr(rest, list[n]) && replies[n].Ack? {
        InsertedHas(rest, Near(replies[n].sock, list[n], [], 0), a);
      } else if replies[n].Ack? && list[n] == a {
        assert HasAddr(rest, a);
      }
    }
  }

  lemma {:induction false} InsertedHas(near: seq<Near>, n: Near, a: Addr)
    ensures HasAddr(Inserted(near, n), a) <==> HasAddr(near, a) || a == n.addr
    ensures Distinct(Addrs(near)) && !HasAddr(near, n.addr) ==> Distinct(Addrs(Inserted(near, n)))
  {
    hide Inserted, Distinct, Addrs;
    InsertedAddrs(near, n);
    HasAddrIs(near, a);
    HasAddrIs(near, n.addr);
    HasAddrIs(Inserted(near, n), a);
    DistinctCounts(Addrs(near));
    DistinctCounts(Addrs(Inserted(near, n)));
  }

  lemma {:induction false} HasAddrIs(near: seq<Near>, a: Addr)
    ensures HasAddr(near, a) <==> multiset(Addrs(near))[a] > 0
  {
    if HasAddr(near, a) {
      var i :| 0 <= i < |near| && near[i].addr == a;
      assert Addrs(near)[i] == a;
    }
    if a in Addrs(near) {
      var i :| 0 <= i < |near| && Addrs(near)[i] == a;
    }
  }

  lemma {:induction false} DistinctCounts(l: seq<Addr>)
    ensures Distinct(l) <==> forall x :: multiset(l)[x] <= 1
  {
    if l != [] {
      var rest, last := l[..|l| - 1], l[|l| - 1];
      assert l == rest + [last];
      DistinctCounts(rest);
      assert multiset(l) == multiset(rest) + multiset{last};
      if Distinct(rest) && multiset(rest)[last] == 0 {
        assert last !in rest;
      }
      if Distinct(l) {
        forall x
          ensures multiset(l)[x] <= 1
        {
          assert x == last ==> last !in rest;
        }
      }
      if forall x :: multiset(l)[x] <= 1 {
        assert multiset(l)[last] <= 1;
        forall x
          ensures multiset(rest)[x] <= 1
        {
          assert multiset(l)[x] <= 1;
        }
      }
    }
  }

  /** The acknowledged connections are distinct and new. */
  ghost predicate NewSocks(near: seq<Near>, replies: seq<Reply>) {
    && (forall i :: 0 <= i < |replies| && replies[i].Ack? ==> !HasSock(near, replies[i].sock))
    && (forall i, j :: 0 <= i < j < |replies| && replies[i].Ack? && replies[j].Ack? ==> replies[i].sock != replies[j].sock)
  }

  lemma FirstIsNew(near: seq<Near>, replies: seq<Reply>)
    requires replies != [] && NewSocks(near, replies)
    ensures replies[0].Ack? ==> !HasSock(near, replies[0].sock)
  {
  }

  lemma NewSocksStep(near: seq<Near>, replies: seq<Reply>, near': seq<Near>)
    requires replies != [] && NewSocks(near, replies)
    requires forall s :: HasSock(near', s) ==> HasSock(near, s) || (replies[0].Ack? && s == replies[0].sock)
    ensures NewSocks(near', replies[1..])
  {
  }

  lemma NoneAcknowledged(near: seq<Near>)
    ensures Acknowledged(near, [], []) == near
  {
  }

  lemma AcknowledgedStep(near: seq<Near>, list: seq<Addr>, replies: seq<Reply>, i: nat)
    requires |replies| == |list| && i < |list|
    ensures var j := Acknowledged(near, list[..i], replies[..i]);
      && Acknowledged(near, list[..i + 1], replies[..i + 1]) ==
           (if !HasAddr(j, list[i]) && replies[i].Ack? then Inserted(j, Near(replies[i].sock, list[i], [], 0)) else j)
      && (!HasAddr(j, list[i]) && replies[i].Ack? ==> |j| < |Acknowledged(near, list, replies)|)
  {
    hide HasAddr;
    assert list[..i + 1][..i] == list[..i] && replies[..i + 1][..i] == replies[..i];
    AcknowledgedGrows(near, list, replies, i + 1);
  }

  /** `max_tcp_sock` after `join_overlay` has made room for the list. */
  function RoomAfter(maxTcpSock: nat, listLen: nat): nat {
    if listLen > maxTcpSock / 2 then listLen * 2 else maxTcpSock
  }

  /** The neighbours a query from connection `sock` is forwarded to: all but the one behind
      `sock` itself and those whose address it advertised. */
  ghost function Targets(near: seq<Near>, sock: int): seq<Near>
    requires WellAdvertised(near)
  {
    TargetsAmong(near, near, sock)
  }

  ghost predicate IsTarget(n: Near, near: seq<Near>, sock: int)
    requires WellAdvertised(near)
  {
    n.sock != sock && n.addr !in Advertised(near, sock)
  }

  ghost function TargetsAmong(some: seq<Near>, near: seq<Near>, sock: int): (r: seq<Near>)
    requires WellAdvertised(near)
    ensures |r| <= |some|
  {
    if some == [] then []
    else
      var n := some[|some| - 1];
      TargetsAmong(some[..|some| - 1], near, sock) + (if IsTarget(n, near, sock) then [n] else [])
  }

  /** The targets are exactly the neighbours that pass the test. */
  lemma {:induction false} TargetsMembers(some: seq<Near>, near: seq<Near>, sock: int)
    requires WellAdvertised(near)
    ensures forall n :: n in TargetsAmong(some, near, sock) <==> n in some && IsTarget(n, near, sock)
  {
    if some != [] {
      TargetsMembers(some[..|some| - 1], near, sock);
      assert some == some[..|some| - 1] + [some[|some| - 1]];
    }
  }

  /** The addresses advertised by the neighbour behind `sock`, if there is one. */
  ghost function Advertised(near: seq<Near>, sock: int): seq<Addr>
    requires WellAdvertised(near)
  {
    if near == [] then []
    else if near[0].sock == sock then
      assert near[0] in near;
      Decoded(near[0].data)
    else
      Advertised(near[1..], sock)
  }

  /** One neighbour comes before the other in the list. */
  ghost predicate Before(all: seq<Near>, x: Near, y: Near) {
    exists i, j :: 0 <= i < j < |all| && all[i] == x && all[j] == y
  }

  lemma {:induction false} AdvertisedIs(near: seq<Near>, sock: int, addr: Addr)
    requires WellAdvertised(near) && SocksDistinct(near)
    ensures addr in Advertised(near, sock) <==> exists k :: 0 <= k < |near| && near[k].sock == sock && addr in Decoded(near[k].data)
  {
    hide Decoded;
    if near != [] {
      var rest := near[1..];
      assert forall i :: 0 <= i < |rest| ==> rest[i] == near[i + 1];
      AdvertisedIs(rest, sock, addr);
      if near[0].sock != sock && addr in Advertised(rest, sock) {
        var k :| 0 <= k < |rest| && rest[k].sock == sock && addr in Decoded(rest[k].data);
        assert near[k + 1].sock == sock && addr in Decoded(near[k + 1].data);
      }
    }
  }

  /** The targets in terms of the connections and of what is advertised on them. */
  lemma {:induction false} TargetsAre(near: seq<Near>, sock: int)
    requires WellAdvertised(near) && SocksDistinct(near)
    ensures forall i :: 0 <= i < |near| ==>
      (near[i] in Targets(near, sock) <==>
        near[i].sock != sock && forall k :: 0 <= k < |near| && near[k].sock == sock ==> near[i].addr !in Decoded(near[k].data))
  {
    hide Advertised, Decoded;
    TargetsMembers(near, near, sock);
    forall i | 0 <= i < |near|
      ensures near[i].addr in Advertised(near, sock) <==> exists k :: 0 <= k < |near| && near[k].sock == sock && near[i].addr in Decoded(near[k].data)
    {
      AdvertisedIs(near, sock, near[i].addr);
    }
  }

  lemma {:induction false} TargetsInOrder(some: seq<Near>, near: seq<Near>, sock: int, a: nat, b: nat)
    requires WellAdvertised(near) && a < b < |TargetsAmong(some, near, sock)|
    ensures Before(some, TargetsAmong(some, near, sock)[a], TargetsAmong(some, near, sock)[b])
  {
    hide IsTarget, Before;
    var rest, n := some[..|some| - 1], some[|some| - 1];
    var r := TargetsAmong(rest, near, sock);
    assert some == rest + [n] && r[a] in r;
    TargetsMembers(rest, near, sock);
    if b < |r| {
      TargetsInOrder(rest, near, sock, a, b);
      BeforeLonger(rest, n, r[a], r[b]);
    } else {
      BeforeLonger(rest, n, r[a], n);
    }
  }

  lemma {:induction false} AllInOrder(near: seq<Near>, sock: int)
    requires WellAdvertised(near)
    ensures var sent := Targets(near, sock); forall a, b :: 0 <= a < b < |sent| ==> Before(near, sent[a], sent[b])
  {
    hide Before, TargetsAmong;
    forall a, b | 0 <= a < b < |Targets(near, sock)|
      ensures Before(near, Targets(near, sock)[a], Targets(near, sock)[b])
    {
      TargetsInOrder(near, near, sock, a, b);
    }
  }

  lemma {:induction false} TargetsNext(near: seq<Near>, sock: int, i: nat)
    requires WellAdvertised(near) && i < |near|
    ensures TargetsAmong(near[..0], near, sock) == []
    ensures TargetsAmong(near[..i + 1], near, sock) == TargetsAmong(near[..i], near, sock) + if IsTarget(near[i], near, sock) then [near[i]] else []
  {
    assert near[..i + 1][..i] == near[..i];
  }

  lemma {:induction false} BeforeLonger(rest: seq<Near>, n: Near, x: Near, y: Near)
    ensures Before(rest, x, y) ==> Before(rest + [n], x, y)
    ensures x in rest ==> Before(rest + [n], x, n)
  {
    var all := rest + [n];
    if Before(rest, x, y) {
      var i, j :| 0 <= i < j < |rest| && rest[i] == x && rest[j] == y;
      assert all[i] == x && all[j] == y;
    }
    if x in rest {
      var i :| 0 <= i < |rest| && rest[i] == x;
      assert all[i] == x && all[|rest|] == n;
    }
  }

  class Overlay {
    var near: seq<Near>
    var nearStr: seq<byte>
    var nsock: nat
    var maxTcpSock: nat

    ghost predicate Valid()
      reads this
    {
      && nsock == |near| <= maxTcpSock
      && |nearStr| == 6 * maxTcpSock
      && SocksDistinct(near) && WellAdvertised(near)
      && multiset(Decoded(nearStr[..6 * nsock])) == multiset(Addrs(near))
    }

    /** `init_superpeer`, before it joins. */
    constructor ()
      ensures Valid() && near == [] && maxTcpSock == 6 && nearStr == seq(36, _ => 0)
    {
      near, nsock, maxTcpSock := [], 0, MAX_TCP_SOCKET;
      nearStr := seq(MAX_TCP_SOCKET * 6, _ => 0);
    }

    method GetNearNode(sock: int) returns (k: nat)
      ensures k <= |near| && (k == |near| <==> !HasSock(near, sock))
      ensures k < |near| ==> near[k].sock == sock && forall j :: 0 <= j < k ==> near[j].sock != sock
    {
      k := 0;
      while k < |near|
        invariant k <= |near| && forall j :: 0 <= j < k ==> near[j].sock != sock
      {
        if near[k].sock == sock {
          break;
        }
        k := k + 1;
      }
    }

    method GetNearByAddr(addr: Addr) returns (found: bool)
      ensures found <==> HasAddr(near, addr)
    {
      var k := 0;
      while k < |near|
        invariant k <= |near| && forall j :: 0 <= j < k ==> near[j].addr != addr
      {
        if near[k].addr == addr {
          return true;
        }
        k := k + 1;
      }
      return false;
    }

    /** `insert_near`; false when the connection is listed under another address. */
    method InsertNear(sock: int, addr: Addr) returns (ok: bool)
      modifies this`near
      ensures !HasSock(old(near), sock) ==> ok && near == Inserted(old(near), Near(sock, addr, [], 0))
      ensures !HasSock(old(near), sock) ==>
        && |near| == |old(near)| + 1
        && near[if old(near) == [] then 0 else 1] == Near(sock, addr, [], 0)
        && (old(near) != [] ==> near[0] == old(near)[0])
        && forall i :: 1 <= i < |old(near)| ==> near[i + 1] == old(near)[i]
      ensures HasSock(old(near), sock) ==> near == old(near)
      ensures HasSock(old(near), sock) && ok ==> exists i :: 0 <= i < |near| && near[i].sock == sock && near[i].addr == addr
    {
      var n := Near(sock, addr, [], 0);
      if near == [] {
        near := [n];
        return true;
      }
      var k := GetNearNode(sock);
      if k < |near| {
        return near[k].addr == addr;
      }
      near := [near[0], n] + near[1..];
      return true;
    }

    /** `update_near`: the neighbour behind `sock` advertises its own neighbours. */
    method UpdateNear(sock: int, data: seq<byte>) returns (ok: bool)
      requires Valid() && |data| % 6 == 0
      modifies this`near
      ensures Valid() && ok == HasSock(old(near), sock) && |near| == |old(near)|
      ensures forall i :: 0 <= i < |near| ==>
                near[i] == if old(near)[i].sock == sock then old(near)[i].(data := data, number := |data| / 6) else old(near)[i]
    {
      var k := GetNearNode(sock);
      if k == |near| {
        return false;
      }
      near := near[k := near[k].(data := data, number := |data| / 6)];
      assert Addrs(near) == Addrs(old(near));
      return true;
    }

    /** `set_near`: writes the neighbours' addresses in list order. */
    method SetNear()
      requires |near| <= maxTcpSock
      modifies this`nearStr
      ensures |nearStr| == 6 * maxTcpSock
      ensures nearStr[..6 * |near|] == Encoded(Addrs(near))
      ensures forall i :: 6 * |near| <= i < |nearStr| ==> nearStr[i] == 0
    {
      nearStr := seq(maxTcpSock * 6, _ => 0);
      for n := 0 to |near|
        invariant |nearStr| == 6 * maxTcpSock
        invariant nearStr[..6 * n] == Encoded(Addrs(near)[..n])
        invariant forall i :: 6 * n <= i < |nearStr| ==> nearStr[i] == 0
      {
        AppendEntry(nearStr, Addrs(near)[..n], near[n].addr);
        assert Addrs(near)[..n + 1] == Addrs(near)[..n] + [near[n].addr];
        nearStr := Patched(nearStr, n * 6, Addr2Str(near[n].addr));
      }
      assert Addrs(near)[..|near|] == Addrs(near);
    }

    /** `accept_conn` on a connection from `addr`; false when the superpeer is full. */
    method AcceptConn(sock: int, addr: Addr) returns (accepted: bool)
      requires Valid() && !HasSock(near, sock)
      modifies this
      ensures Valid() && maxTcpSock == old(maxTcpSock)
      ensures accepted == (old(nsock) < maxTcpSock)
      ensures near == if accepted then Inserted(old(near), Near(sock, addr, [], 0)) else old(near)
    {
      if nsock >= maxTcpSock {
        return false;
      }
      var _ := InsertNear(sock, addr);
      InsertedAddrs(old(near), Near(sock, addr, [], 0));
      InsertedSocks(old(near), Near(sock, addr, [], 0));
      SetNear();
      DecodedEncoded(Addrs(near));
      nsock := nsock + 1;
      return true;
    }

    /** `close_conn`; false when the connection is not a neighbour's. */
    method CloseConn(sock: int) returns (ok: bool)
      requires Valid()
      modifies this
      ensures Valid() && maxTcpSock == old(maxTcpSock)
      ensures ok == HasSock(old(near), sock) && !HasSock(near, sock)
      ensures !ok ==> near == old(near)
      ensures ok ==> exists k :: 0 <= k < |old(near)| && old(near)[k].sock == sock && near == Without(old(near), k)
    {
      var k := GetNearNode(sock);
      if k == |near| {
        return false;
      }
      near := near[..k] + near[k + 1..];
      WithoutAddrs(old(near), k);
      WithoutSocks(old(near), k);
      SetNear();
      DecodedEncoded(Addrs(near));
      nsock := nsock - 1;
      return true;
    }

    /** `join_overlay`; `replies` says how each address answers. The string has room for the
        acknowledged connections only if they are at most `maxTcpSock`, which is required. */
    method JoinOverlay(list: seq<Addr>, replies: seq<Reply>) returns (all: bool)
      requires Valid() && |replies| == |list|
      requires NewSocks(near, replies)
      requires |Acknowledged(near, list, replies)| <= RoomAfter(maxTcpSock, |list|)
      modifies this
      ensures Valid() && maxTcpSock == RoomAfter(old(maxTcpSock), |list|)
      ensures maxTcpSock == (if 2 * |list| > old(maxTcpSock) - old(maxTcpSock) % 2 then 2 * |list| else old(maxTcpSock))
      ensures near == Acknowledged(old(near), list, replies)
      ensures all <==> |near| == |list|
    {
      hide Inserted, WellAdvertised, SocksDistinct, Decoded, Addrs, Acknowledged, HasAddr, HasSock, NewSocks;
      assert list[..0] == [] && replies[..0] == [] && replies[0..] == replies;
      MakeRoom(|list|);
      NoneAcknowledged(near);
      for i := 0 to |list|
        invariant Valid() && maxTcpSock == RoomAfter(old(maxTcpSock), |list|)
        invariant near == Acknowledged(old(near), list[..i], replies[..i])
        invariant NewSocks(near, replies[i..])
      {
        AcknowledgedStep(old(near), list, replies, i);
        ghost var before, rest := near, replies[i..];
        assert rest[0] == replies[i] && rest[1..] == replies[i + 1..];
        FirstIsNew(before, rest);
        TryAddr(list[i], replies[i]);
        NewSocksStep(before, rest, near);
      }
      assert list[..|list|] == list && replies[..|list|] == replies;
      return nsock == |list|;
    }

    /** One address of the list. */
    method TryAddr(addr: Addr, reply: Reply)
      requires Valid() && (reply.Ack? ==> !HasSock(near, reply.sock))
      requires !HasAddr(near, addr) && reply.Ack? ==> |near| < maxTcpSock
      modifies this
      ensures Valid() && maxTcpSock == old(maxTcpSock)
      ensures near == if !HasAddr(old(near), addr) && reply.Ack? then Inserted(old(near), Near(reply.sock, addr, [], 0)) else old(near)
      ensures forall s :: HasSock(near, s) ==> HasSock(old(near), s) || (reply.Ack? && s == reply.sock)
    {
      hide Inserted, WellAdvertised, SocksDistinct, Decoded, Addrs, HasSock, HasAddr;
      var known := GetNearByAddr(addr);
      if !known && reply.Ack? {
        AddAcked(reply.sock, addr);
      }
    }

    /** `join_overlay` first makes the string long enough for twice the list. */
    method MakeRoom(listLen: nat)
      requires Valid()
      modifies this`nearStr, this`maxTcpSock
      ensures Valid() && maxTcpSock == RoomAfter(old(maxTcpSock), listLen)
    {
      if listLen > maxTcpSock / 2 {
        nearStr := nearStr + seq((listLen * 2 - maxTcpSock) * 6, _ => 0);
        maxTcpSock := listLen * 2;
      }
      assert nearStr[..6 * nsock] == old(nearStr[..6 * nsock]);
    }

    /** The steps of `join_overlay` after an acknowledgement. */
    method AddAcked(sock: int, addr: Addr)
      requires Valid() && !HasSock(near, sock) && nsock < maxTcpSock
      modifies this
      ensures Valid() && maxTcpSock == old(maxTcpSock)
      ensures near == Inserted(old(near), Near(sock, addr, [], 0))
      ensures forall s :: HasSock(near, s) ==> HasSock(old(near), s) || s == sock
    {
      var _ := InsertNear(sock, addr);
      InsertedAddrs(old(near), Near(sock, addr, [], 0));
      InsertedSocks(old(near), Near(sock, addr, [], 0));
      ghost var head := nearStr[..6 * nsock];
      nearStr := Patched(nearStr, nsock * 6, Addr2Str(addr));
      assert nearStr[..6 * (nsock + 1)] == head + Addr2Str(addr);
      DecodedAppend(head, Addr2Str(addr), nsock);
      DecodedOne(addr);
      nsock := nsock + 1;
    }

    /** `flood_overlay`: the neighbours the packet is sent to, in list order. */
    method FloodOverlay(sock: int) returns (sent: seq<Near>)
      requires Valid()
      ensures sent == Targets(near, sock)
      ensures forall i :: 0 <= i < |near| ==>
        (near[i] in sent <==>
          near[i].sock != sock && forall k :: 0 <= k < |near| && near[k].sock == sock ==> near[i].addr !in Decoded(near[k].data))
      ensures forall a, b :: 0 <= a < b < |sent| ==> Before(near, sent[a], sent[b])
    {
      hide Decoded, Advertised, Before, TargetsAmong, Encoded, Addrs;
      sent := [];
      var info := GetNearNode(sock);
      if near != [] {
        TargetsNext(near, sock, 0);
      }
      AdvertisedAt(near, sock, info);
      for i := 0 to |near|
        invariant sent == TargetsAmong(near[..i], near, sock)
      {
        TargetsNext(near, sock, i);
        if near[i].sock == sock {
          continue;
        }
        if info < |near| {
          var skip := ContainsAddr(near[info].data, near[info].number * 6, near[i].addr);
          assert near[info].data[..near[info].number * 6] == near[info].data;
          if skip {
            continue;
          }
        }
        sent := sent + [near[i]];
      }
      assert near[..|near|] == near;
      TargetsAre(near, sock);
      AllInOrder(near, sock);
    }
  }

  lemma AppendEntry(buf: seq<byte>, l: seq<Addr>, a: Addr)
    requires 6 * (|l| + 1) <= |buf| && buf[..6 * |l|] == Encoded(l)
    ensures Patched(buf, |l| * 6, Addr2Str(a))[..6 * (|l| + 1)] == Encoded(l + [a])
  {
    hide Addr2Str, Encoded;
    EncodedAppend(l, [a]);
    OneEncoded(a);
  }

  lemma OneEncoded(a: Addr)
    ensures Encoded([a]) == Addr2Str(a)
  {
    hide Addr2Str;
    assert Encoded([a][1..]) == [];
  }

  lemma {:induction false} AdvertisedAt(near: seq<Near>, sock: int, k: nat)
    requires WellAdvertised(near) && k <= |near| && forall j :: 0 <= j < k ==> near[j].sock != sock
    requires k < |near| ==> near[k].sock == sock
    ensures k < |near| ==> near[k] in near && Advertised(near, sock) == Decoded(near[k].data)
    ensures k == |near| ==> Advertised(near, sock) == []
  {
    if k > 0 {
      AdvertisedAt(near[1..], sock, k - 1);
    }
  }
}
