/** Coverage of the flood: on a static, symmetric overlay with truthful advertisements, a query
    with enough ttl reaches exactly the connected component of its origin, although superpeers
    forward neither to their sender nor to its neighbours. */
module FloodCoverage {
  import opened Common
  import opened NearList
  import opened Requests
  import opened Flood

  ghost predicate Neighbour(near: map<Addr, seq<Near>>, v: Addr, u: Addr) {
    v in near && HasAddr(near[v], u)
  }

  /** Connections go both ways, and a neighbour advertises only addresses it is connected to. */
  ghost predicate Sound(near: map<Addr, seq<Near>>) {
    && (forall v, u :: Neighbour(near, v, u) ==> Neighbour(near, u, v))
    && (forall v, n, x :: v in near && n in near[v] && WellAdvertised(near[v]) && x in Advertised(near[v], n.sock) ==> Neighbour(near, n.addr, x))
  }

  ghost predicate IsPath(near: map<Addr, seq<Near>>, p: seq<Addr>, a: Addr, b: Addr) {
    && |p| > 0 && p[0] == a && p[|p| - 1] == b
    && forall i :: 0 <= i < |p| - 1 ==> Neighbour(near, p[i], p[i + 1])
  }

  ghost predicate Connected(near: map<Addr, seq<Near>>, a: Addr, b: Addr) {
    exists p :: IsPath(near, p, a, b)
  }

  ghost predicate Visited(w: World, key: Key, v: Addr) {
    v in w.requests && Known(w.requests[v], key)
  }

  ghost predicate AllVisited(w: World, key: Key) {
    forall v :: v in w.near ==> Visited(w, key, v)
  }

  ghost predicate Coming(w: World, key: Key, u: Addr) {
    exists i :: 0 <= i < |w.flight| && w.flight[i].key == key && w.flight[i].dst == u
  }

  /** A query in flight came along a simple path of visited superpeers from the origin. */
  ghost predicate OnItsWay(w: World, key: Key, origin: Addr, ttl: int, m: Msg) {
    && IsPath(w.near, m.path, origin, m.src) && Distinct(m.path)
    && (forall v :: v in m.path ==> Visited(w, key, v))
    && Neighbour(w.near, m.src, m.dst)
    && |m.path| - 1 + m.ttl == ttl
  }

  /** What holds of the query in every state of the run. */
  ghost predicate Inv(w: World, key: Key, origin: Addr, ttl: int) {
    && (forall i :: 0 <= i < |w.flight| && w.flight[i].key == key ==> OnItsWay(w, key, origin, ttl, w.flight[i]))
    && (forall v :: Visited(w, key, v) ==> Visited(w, key, origin) && Connected(w.near, origin, v))
    && (forall v, u :: Visited(w, key, v) && Neighbour(w.near, v, u) ==> Reached(w, key, u))
  }

  /** Superpeer `u` is taken care of. */
  ghost predicate Reached(w: World, key: Key, u: Addr) {
    Visited(w, key, u) || Coming(w, key, u) || AllVisited(w, key)
  }

  /** The network stands still, the query starts only at its origin, and no sweep forgets it. */
  ghost predicate Allowed(w: World, s: Step, degree: nat, key: Key, origin: Addr, ttl: int)
    requires Good(w, degree) && Enabled(w, s, degree)
  {
    && !s.Reconfigure?
    && (s.Inject? && s.key == key ==> s.at == origin && s.ttl == ttl)
    && (forall v :: Visited(w, key, v) ==> Visited(After(w, s, degree), key, v))
  }

  /** A simple path with as many nodes as the network passes through all of them. */
  lemma Pigeonhole(p: seq<Addr>, nodes: set<Addr>)
    requires Distinct(p) && (forall v :: v in p ==> v in nodes) && |p| >= |nodes|
    ensures forall v :: v in nodes ==> v in p
  {
    var seen := set v | v in p;
    DistinctSize(p);
    assert seen <= nodes;
    SubsetOfSameSize(seen, nodes);
  }

  lemma {:induction false} DistinctSize(p: seq<Addr>)
    requires Distinct(p)
    ensures |set v | v in p| == |p|
  {
    if p != [] {
      var n := |p| - 1;
      DistinctSize(p[..n]);
      assert p == p[..n] + [p[n]];
      assert (set v | v in p) == (set v | v in p[..n]) + {p[n]};
      assert p[n] !in p[..n];
    }
  }

  lemma SubsetOfSameSize(a: set<Addr>, b: set<Addr>)
    requires a <= b && |a| >= |b|
    ensures a == b
  {
    assert |b| == |a| + |b - a| by {
      assert b == a + (b - a);
    }
  }

  lemma PathAppend(near: map<Addr, seq<Near>>, p: seq<Addr>, a: Addr, b: Addr, c: Addr)
    requires IsPath(near, p, a, b) && Neighbour(near, b, c)
    ensures IsPath(near, p + [c], a, c) && Connected(near, a, c)
  {
    assert IsPath(near, p + [c], a, c);
  }

  /** The sender's own neighbours need no copy: they are visited or have one coming. */
  lemma SkippedAreReached(w: World, degree: nat, key: Key, origin: Addr, ttl: int, v: Addr, src: Addr, sock: int, n: Near)
    requires Good(w, degree) && Sound(w.near) && Inv(w, key, origin, ttl)
    requires Visited(w, key, src) && v in w.near && n in w.near[v]
    requires exists k :: 0 <= k < |w.near[v]| && w.near[v][k].addr == src && w.near[v][k].sock == sock
    requires !IsTarget(n, w.near[v], sock)
    ensures n.addr == src || (Neighbour(w.near, src, n.addr) && Reached(w, key, n.addr))
  {
    var k :| 0 <= k < |w.near[v]| && w.near[v][k].addr == src && w.near[v][k].sock == sock;
    if n.sock == sock {
      var j :| 0 <= j < |w.near[v]| && w.near[v][j] == n;
      assert j == k;
    } else {
      assert w.near[v][k] in w.near[v];
      assert Neighbour(w.near, src, n.addr);
    }
  }

  /** A step that neither visits a superpeer nor creates a copy of the query. */
  lemma InvKept(w: World, w': World, key: Key, origin: Addr, ttl: int)
    requires Inv(w, key, origin, ttl) && w'.near == w.near
    requires forall v :: Visited(w', key, v) <==> Visited(w, key, v)
    requires forall i :: 0 <= i < |w'.flight| && w'.flight[i].key == key ==> w'.flight[i] in w.flight
    requires forall u :: Coming(w, key, u) ==> Coming(w', key, u) || Visited(w, key, u)
    ensures Inv(w', key, origin, ttl)
  {
    forall i | 0 <= i < |w'.flight| && w'.flight[i].key == key
      ensures OnItsWay(w', key, origin, ttl, w'.flight[i])
    {
      assert OnItsWay(w, key, origin, ttl, w'.flight[i]);
    }
    forall v, u | Visited(w', key, v) && Neighbour(w'.near, v, u)
      ensures Reached(w', key, u)
    {
      assert Reached(w, key, u);
    }
  }

  /** The step that visits `v` for the first time and forwards copies from it. */
  lemma FirstVisit(w: World, w': World, key: Key, origin: Addr, ttl: int, v: Addr, path: seq<Addr>, sentTtl: int)
    requires Inv(w, key, origin, ttl) && w'.near == w.near
    requires forall x :: Visited(w', key, x) <==> Visited(w, key, x) || x == v
    requires Visited(w', key, origin)
    requires IsPath(w.near, path, origin, v) && Distinct(path) && |path| - 1 + sentTtl == ttl
    requires forall x :: x in path ==> Visited(w', key, x)
    requires forall i :: 0 <= i < |w'.flight| && w'.flight[i].key == key ==>
               w'.flight[i] in w.flight || (w'.flight[i] == Msg(key, v, w'.flight[i].dst, sentTtl, path) && Neighbour(w.near, v, w'.flight[i].dst))
    requires forall u :: Coming(w, key, u) ==> Coming(w', key, u) || u == v
    requires forall x :: Neighbour(w.near, v, x) ==> Reached(w', key, x)
    ensures Inv(w', key, origin, ttl)
  {
    forall i | 0 <= i < |w'.flight| && w'.flight[i].key == key
      ensures OnItsWay(w', key, origin, ttl, w'.flight[i])
    {
      if w'.flight[i] in w.flight {
        assert OnItsWay(w, key, origin, ttl, w'.flight[i]);
      }
    }
    forall x, u | Visited(w', key, x) && Neighbour(w'.near, x, u)
      ensures Reached(w', key, u)
    {
      if x != v {
        assert Reached(w, key, u);
      }
    }
  }

  lemma DropMembers(flight: seq<Msg>, i: nat)
    requires i < |flight|
    ensures forall m :: m in flight ==> m == flight[i] || m in Drop(flight, i)
    ensures forall m :: m in Drop(flight, i) ==> m in flight
  {
    forall m | m in flight && m != flight[i]
      ensures m in Drop(flight, i)
    {
      var j :| 0 <= j < |flight| && flight[j] == m;
      assert Drop(flight, i)[if j < i then j else j - 1] == m;
    }
  }

  /** `Coming` in terms of membership. */
  lemma ComingIs(w: World, key: Key, u: Addr)
    ensures Coming(w, key, u) <==> exists m :: m in w.flight && m.key == key && m.dst == u
  {
    if m :| m in w.flight && m.key == key && m.dst == u {
      var i :| 0 <= i < |w.flight| && w.flight[i] == m;
      assert w.flight[i].key == key && w.flight[i].dst == u;
    }
  }

  /** Every neighbour of the superpeer visited now is taken care of. */
  lemma ForwardedReach(w: World, w': World, degree: nat, key: Key, origin: Addr, ttl: int, v: Addr, src: Addr, sock: int, sentTtl: int, path: seq<Addr>, x: Addr)
    requires Good(w, degree) && Sound(w.near) && Inv(w, key, origin, ttl) && w'.near == w.near
    requires v in w.near && Neighbour(w.near, v, x) && Visited(w, key, src)
    requires forall y :: Visited(w', key, y) <==> Visited(w, key, y) || y == v
    requires exists k :: 0 <= k < |w.near[v]| && w.near[v][k].addr == src && w.near[v][k].sock == sock
    requires forall u :: Coming(w, key, u) ==> Coming(w', key, u) || u == v
    requires forall n :: n in Targets(w.near[v], sock) ==> Coming(w', key, n.addr)
    ensures Reached(w', key, x)
  {
    var k :| 0 <= k < |w.near[v]| && w.near[v][k].addr == x;
    var n := w.near[v][k];
    assert n in w.near[v];
    TargetsMembers(w.near[v], w.near[v], sock);
    if !IsTarget(n, w.near[v], sock) {
      SkippedAreReached(w, degree, key, origin, ttl, v, src, sock, n);
    }
  }

  /** Running the handler visits one superpeer and adds only the copies it forwards. */
  lemma HandleEffect(w: World, degree: nat, v: Addr, sock: int, k: Key, ttl: int, path: seq<Addr>, key: Key)
    requires Good(w, degree) && v in w.near
    ensures var w' := Handle(w, v, sock, k, ttl, path);
      && w'.near == w.near
      && (forall x :: Visited(w', key, x) <==> Visited(w, key, x) || (x == v && k == key))
      && (forall m :: m in w.flight ==> m in w'.flight)
      && (forall m :: m in w'.flight ==> m in w.flight || (m == Msg(k, v, m.dst, ttl, path + [v]) && Neighbour(w.near, v, m.dst)))
      && (!Known(w.requests[v], k) && ttl > 0 ==> forall n :: n in Targets(w.near[v], sock) ==> Msg(k, v, n.addr, ttl, path + [v]) in w'.flight)
      && (Known(w.requests[v], k) ==> w'.flight == w.flight)
  {
    RecordedIsValid(w.requests[v], k);
    var sent := Forwards(w.near[v], w.requests[v], sock, k, ttl);
    var out := Outgoing(sent, k, v, ttl, path + [v]);
    TargetsMembers(w.near[v], w.near[v], sock);
    forall m | m in out
      ensures m == Msg(k, v, m.dst, ttl, path + [v]) && Neighbour(w.near, v, m.dst)
    {
      var i :| 0 <= i < |out| && out[i] == m;
      assert sent[i] in sent;
    }
    forall n | n in sent
      ensures Msg(k, v, n.addr, ttl, path + [v]) in out
    {
      var i :| 0 <= i < |sent| && sent[i] == n;
      assert out[i] == Msg(k, v, n.addr, ttl, path + [v]);
    }
  }

  /** A query whose ttl is used up has visited everyone. */
  lemma ExhaustedHasVisitedAll(w: World, w': World, key: Key, path: seq<Addr>, ttl: int, sentTtl: int)
    requires w'.near == w.near && Distinct(path) && |path| - 1 + sentTtl == ttl && sentTtl <= 0 && ttl >= |w.near| - 1
    requires forall x :: x in path ==> Visited(w', key, x) && x in w.near
    ensures AllVisited(w', key)
  {
    Pigeonhole(path, w.near.Keys);
  }

  lemma AtDelivery(w: World, i: nat, key: Key, origin: Addr, ttl: int)
    requires Inv(w, key, origin, ttl) && Sound(w.near) && i < |w.flight| && w.flight[i].key == key
    ensures OnItsWay(w, key, origin, ttl, w.flight[i])
    ensures Neighbour(w.near, w.flight[i].dst, w.flight[i].src)
    ensures IsPath(w.near, w.flight[i].path + [w.flight[i].dst], origin, w.flight[i].dst)
  {
    var m := w.flight[i];
    assert OnItsWay(w, key, origin, ttl, m);
    PathAppend(w.near, m.path, origin, m.src, m.dst);
  }

  lemma DeliverNew(w: World, i: nat, degree: nat, key: Key, origin: Addr, ttl: int)
    requires Good(w, degree) && Sound(w.near) && Inv(w, key, origin, ttl) && ttl >= |w.near| - 1
    requires i < |w.flight| && w.flight[i].key == key && !Visited(w, key, w.flight[i].dst)
    ensures Inv(After(w, Deliver(i), degree), key, origin, ttl)
  {
    hide Inv, Coming, Handle, Outgoing, OnItsWay, Forwards, Reached;
    var m := w.flight[i];
    AtDelivery(w, i, key, origin, ttl);
    var u := w.(flight := Drop(w.flight, i));
    var sock := SockTo(w.near[m.dst], m.src).value;
    var w' := Handle(u, m.dst, sock, key, m.ttl - 1, m.path);
    var path := m.path + [m.dst];
    DropMembers(w.flight, i);
    assert Good(u, degree);
    HandleEffect(u, degree, m.dst, sock, key, m.ttl - 1, m.path, key);
    assert forall x :: Visited(u, key, x) <==> Visited(w, key, x);
    DeliverNewSteps(w, w', m, sock, degree, key, origin, ttl);
  }

  lemma DeliverNewSteps(w: World, w': World, m: Msg, sock: int, degree: nat, key: Key, origin: Addr, ttl: int)
    requires Good(w, degree) && Sound(w.near) && Inv(w, key, origin, ttl) && ttl >= |w.near| - 1
    requires OnItsWay(w, key, origin, ttl, m) && !Visited(w, key, m.dst) && Neighbour(w.near, m.dst, m.src)
    requires exists k :: 0 <= k < |w.near[m.dst]| && w.near[m.dst][k].addr == m.src && w.near[m.dst][k].sock == sock
    requires w'.near == w.near && IsPath(w.near, m.path + [m.dst], origin, m.dst)
    requires forall x :: Visited(w', key, x) <==> Visited(w, key, x) || x == m.dst
    requires forall n :: n in w.flight ==> n == m || n in w'.flight
    requires forall n :: n in w'.flight ==> n in w.flight || (n == Msg(key, m.dst, n.dst, m.ttl - 1, m.path + [m.dst]) && Neighbour(w.near, m.dst, n.dst))
    requires m.ttl - 1 > 0 ==> forall n :: n in Targets(w.near[m.dst], sock) ==> Msg(key, m.dst, n.addr, m.ttl - 1, m.path + [m.dst]) in w'.flight
    ensures Inv(w', key, origin, ttl)
  {
    hide Reached, Inv, Sound, IsTarget;
    var path := m.path + [m.dst];
    assert m.dst !in m.path;
    forall u | Coming(w, key, u)
      ensures Coming(w', key, u) || u == m.dst
    {
      ComingIs(w, key, u);
      ComingIs(w', key, u);
    }
    assert Visited(w, key, m.src) by {
      assert m.path[|m.path| - 1] in m.path;
    }
    forall x | Neighbour(w.near, m.dst, x)
      ensures Reached(w', key, x)
    {
      DeliveryReaches(w, w', m, sock, degree, key, origin, ttl, path, x);
    }
    FirstVisit(w, w', key, origin, ttl, m.dst, path, m.ttl - 1);
  }

  lemma DeliveryReaches(w: World, w': World, m: Msg, sock: int, degree: nat, key: Key, origin: Addr, ttl: int, path: seq<Addr>, x: Addr)
    requires Good(w, degree) && Sound(w.near) && Inv(w, key, origin, ttl) && ttl >= |w.near| - 1 && w'.near == w.near
    requires m.dst in w.near && Neighbour(w.near, m.dst, x) && Visited(w, key, m.src)
    requires exists k :: 0 <= k < |w.near[m.dst]| && w.near[m.dst][k].addr == m.src && w.near[m.dst][k].sock == sock
    requires forall y :: Visited(w', key, y) <==> Visited(w, key, y) || y == m.dst
    requires forall u :: Coming(w, key, u) ==> Coming(w', key, u) || u == m.dst
    requires Distinct(path) && |path| - 1 + m.ttl - 1 == ttl && forall y :: y in path ==> Visited(w', key, y) && y in w.near
    requires m.ttl - 1 > 0 ==> forall n :: n in Targets(w.near[m.dst], sock) ==> Msg(key, m.dst, n.addr, m.ttl - 1, path) in w'.flight
    ensures Reached(w', key, x)
  {
    hide Sound, Inv, Coming, Targets;
    if m.ttl - 1 > 0 {
      forall n | n in Targets(w.near[m.dst], sock)
        ensures Coming(w', key, n.addr)
      {
        ComingIs(w', key, n.addr);
        assert Msg(key, m.dst, n.addr, m.ttl - 1, path) in w'.flight;
      }
      ForwardedReach(w, w', degree, key, origin, ttl, m.dst, m.src, sock, m.ttl - 1, path, x);
    } else {
      ExhaustedHasVisitedAll(w, w', key, path, ttl, m.ttl - 1);
    }
  }

  lemma InjectNew(w: World, degree: nat, key: Key, origin: Addr, ttl: int)
    requires Good(w, degree) && Inv(w, key, origin, ttl) && ttl >= |w.near| - 1
    requires origin in w.near && !Visited(w, key, origin)
    ensures Inv(After(w, Inject(origin, key, ttl), degree), key, origin, ttl)
  {
    var w' := Handle(w, origin, UDP, key, ttl, []);
    var path := [] + [origin];
    HandleEffect(w, degree, origin, UDP, key, ttl, [], key);
    assert IsPath(w.near, path, origin, origin) && path == [origin];
    assert Connected(w.near, origin, origin);
    forall u | Coming(w, key, u)
      ensures Coming(w', key, u)
    {
      ComingIs(w, key, u);
      ComingIs(w', key, u);
    }
    NoConnectionIsUdp(w.near[origin]);
    forall x | Neighbour(w.near, origin, x)
      ensures Reached(w', key, x)
    {
      var k :| 0 <= k < |w.near[origin]| && w.near[origin][k].addr == x;
      var n := w.near[origin][k];
      assert n in w.near[origin];
      TargetsMembers(w.near[origin], w.near[origin], UDP);
      if ttl > 0 {
        assert Msg(key, origin, x, ttl, path) in w'.flight;
        ComingIs(w', key, x);
      } else {
        ExhaustedHasVisitedAll(w, w', key, path, ttl, ttl);
      }
    }
    FirstVisit(w, w', key, origin, ttl, origin, path, ttl);
  }

  /** A query from a peer has no sender among the neighbours. */
  lemma {:induction false} NoConnectionIsUdp(near: seq<Near>)
    requires WellAdvertised(near) && forall n :: n in near ==> n.sock >= 0
    ensures Advertised(near, UDP) == []
  {
    if near != [] {
      assert near[0] in near;
      NoConnectionIsUdp(near[1..]);
    }
  }

  /** Every allowed step keeps the invariant. */
  lemma StepKeepsInv(w: World, s: Step, degree: nat, key: Key, origin: Addr, ttl: int)
    requires Good(w, degree) && Enabled(w, s, degree) && Sound(w.near) && Inv(w, key, origin, ttl) && ttl >= |w.near| - 1
    requires Allowed(w, s, degree, key, origin, ttl)
    ensures After(w, s, degree).near == w.near && Inv(After(w, s, degree), key, origin, ttl)
  {
    var w' := After(w, s, degree);
    match s
    case Sweep(v) =>
      forall x | Visited(w', key, x)
        ensures Visited(w, key, x)
      {
        SweptKeys(w.requests[v], key);
      }
      InvKept(w, w', key, origin, ttl);
    case Inject(v, k, t) =>
      HandleEffect(w, degree, v, UDP, k, t, [], key);
      if k == key && !Visited(w, key, origin) {
        InjectNew(w, degree, key, origin, ttl);
      } else {
        forall u | Coming(w, key, u)
          ensures Coming(w', key, u)
        {
          ComingIs(w, key, u);
          ComingIs(w', key, u);
        }
        InvKept(w, w', key, origin, ttl);
      }
    case Deliver(i) =>
      DeliverKeepsInv(w, i, degree, key, origin, ttl);
  }

  lemma DeliverKeepsInv(w: World, i: nat, degree: nat, key: Key, origin: Addr, ttl: int)
    requires Good(w, degree) && Sound(w.near) && Inv(w, key, origin, ttl) && ttl >= |w.near| - 1 && i < |w.flight|
    ensures After(w, Deliver(i), degree).near == w.near && Inv(After(w, Deliver(i), degree), key, origin, ttl)
  {
    var m := w.flight[i];
    var w' := After(w, Deliver(i), degree);
    if m.key == key && !Visited(w, key, m.dst) {
      DeliverNew(w, i, degree, key, origin, ttl);
      return;
    }
    var u := w.(flight := Drop(w.flight, i));
    DropMembers(w.flight, i);
    assert Good(u, degree);
    assert forall x :: Visited(u, key, x) <==> Visited(w, key, x);
    if Arrives(w, m) {
      HandleEffect(u, degree, m.dst, SockTo(w.near[m.dst], m.src).value, m.key, m.ttl - 1, m.path, key);
    }
    forall x | Coming(w, key, x)
      ensures Coming(w', key, x) || Visited(w, key, x)
    {
      ComingIs(w, key, x);
      ComingIs(w', key, x);
    }
    InvKept(w, w', key, origin, ttl);
  }

  // ---- the theorem

  /** A run in which the query is started at its origin and nowhere else. */
  ghost predicate QueryRun(ws: seq<World>, steps: seq<Step>, degree: nat, key: Key, origin: Addr, ttl: int) {
    && IsRun(ws, steps, degree)
    && Sound(ws[0].near) && ttl >= |ws[0].near| - 1
    && (forall v :: !Visited(ws[0], key, v) && !Coming(ws[0], key, v))
    && (forall i :: 0 <= i < |steps| ==> Allowed(ws[i], steps[i], degree, key, origin, ttl))
  }

  lemma QuietIsInv(w: World, key: Key, origin: Addr, ttl: int)
    requires forall v :: !Visited(w, key, v) && !Coming(w, key, v)
    ensures Inv(w, key, origin, ttl)
  {
    forall i | 0 <= i < |w.flight|
      ensures w.flight[i].key != key
    {
      assert !Coming(w, key, w.flight[i].dst);
    }
  }

  /** The injection visits the origin. */
  lemma InjectVisits(w: World, degree: nat, key: Key, origin: Addr, ttl: int)
    requires Good(w, degree) && Enabled(w, Inject(origin, key, ttl), degree)
    ensures Visited(After(w, Inject(origin, key, ttl), degree), key, origin)
  {
    HandleEffect(w, degree, origin, UDP, key, ttl, [], key);
  }

  lemma {:induction false} RunKeepsInv(ws: seq<World>, steps: seq<Step>, degree: nat, key: Key, origin: Addr, ttl: int)
    requires QueryRun(ws, steps, degree, key, origin, ttl)
    ensures ws[|steps|].near == ws[0].near && Inv(ws[|steps|], key, origin, ttl)
    ensures (exists i :: 0 <= i < |steps| && steps[i] == Inject(origin, key, ttl)) ==> Visited(ws[|steps|], key, origin)
  {
    hide After, Good, Sound, Inv, Enabled, Coming, Handle;
    if steps == [] {
      QuietIsInv(ws[0], key, origin, ttl);
    } else {
      var n := |steps| - 1;
      RunKeepsInv(ws[..n + 1], steps[..n], degree, key, origin, ttl);
      assert ws[..n + 1][n] == ws[n];
      StepKeepsInv(ws[n], steps[n], degree, key, origin, ttl);
      if steps[n] == Inject(origin, key, ttl) {
        InjectVisits(ws[n], degree, key, origin, ttl);
      } else if i :| 0 <= i < |steps| && steps[i] == Inject(origin, key, ttl) {
        assert steps[..n][i] == Inject(origin, key, ttl);
      }
    }
  }

  /** Whoever a path from a visited superpeer reaches is visited, once nothing is in flight. */
  lemma {:induction false} PathsAreVisited(w: World, key: Key, origin: Addr, ttl: int, p: seq<Addr>, v: Addr)
    requires Inv(w, key, origin, ttl) && Visited(w, key, origin) && IsPath(w.near, p, origin, v) && (forall u :: !Coming(w, key, u))
    requires Sound(w.near)
    ensures Visited(w, key, v)
  {
    var n := |p| - 1;
    if n > 0 {
      PathsAreVisited(w, key, origin, ttl, p[..n], p[n - 1]);
      assert Neighbour(w.near, p[n - 1], p[n]) && Neighbour(w.near, p[n], p[n - 1]);
      assert Reached(w, key, v);
    }
  }

  /** When the flood is over, the superpeers that have seen the query are exactly those connected
      to its origin, although every one of them skipped its sender's neighbours. */
  lemma FloodCovers(ws: seq<World>, steps: seq<Step>, degree: nat, key: Key, origin: Addr, ttl: int)
    requires QueryRun(ws, steps, degree, key, origin, ttl)
    requires exists i :: 0 <= i < |steps| && steps[i] == Inject(origin, key, ttl)
    requires forall u :: !Coming(ws[|steps|], key, u)
    ensures forall v :: Visited(ws[|steps|], key, v) <==> Connected(ws[0].near, origin, v)
  {
    RunKeepsInv(ws, steps, degree, key, origin, ttl);
    var w := ws[|steps|];
    forall v | Connected(w.near, origin, v)
      ensures Visited(w, key, v)
    {
      var p :| IsPath(w.near, p, origin, v);
      PathsAreVisited(w, key, origin, ttl, p, v);
    }
  }
}
