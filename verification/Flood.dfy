/** The WHOHAS flood (src/client/client.c:804-864 and src/client/superpeer.c:380-415): the
    handler of one superpeer, and a state machine of superpeers exchanging queries. */
module Flood {
  import opened Common
  import opened Bytes
  import opened NearList
  import opened Requests

  const DEFAULT_TTL := 6

  /** The descriptor handed to the handler when a query comes from a peer over UDP. */
  const UDP := -1

  /** The neighbours the handler forwards a query to. */
  ghost function Forwards(near: seq<Near>, reqs: seq<Request>, sock: int, key: Key, ttl: int): seq<Near>
    requires WellAdvertised(near)
  {
    if Known(reqs, key) || ttl <= 0 then [] else Targets(near, sock)
  }

  ghost function Recorded(reqs: seq<Request>, key: Key): seq<Request> {
    if Known(reqs, key) then reqs else [Request(key, REQUEST_TTL)] + reqs
  }

  class SuperPeer {
    const myaddr: Addr
    const overlay: Overlay
    const requests: RequestList

    constructor (myaddr: Addr)
      ensures overlay.Valid() && fresh(overlay) && fresh(requests)
      ensures this.myaddr == myaddr && requests.reqs == []
    {
      this.myaddr := myaddr;
      overlay := new Overlay();
      requests := new RequestList();
    }

    /** `whohas_request_handler`: records the query, forwards it, and answers it unless it is
        the superpeer's own. A query from the overlay loses one from its ttl first. */
    method WhohasRequest(sock: int, key: Key, ttl: int, fromOverlay: bool) returns (sent: seq<Near>, sentTtl: int, answered: bool)
      requires overlay.Valid()
      modifies requests
      ensures sentTtl == if fromOverlay then ttl - 1 else ttl
      ensures requests.reqs == Recorded(old(requests.reqs), key)
      ensures sent == Forwards(overlay.near, old(requests.reqs), sock, key, sentTtl)
      ensures answered == (!Known(old(requests.reqs), key) && Addr(key.ip, key.port) != myaddr)
    {
      sent, sentTtl := [], if fromOverlay then ttl - 1 else ttl;
      var added := requests.InsertRequest(key);
      if !added {
        return sent, sentTtl, false;
      }
      if sentTtl > 0 {
        sent := overlay.FloodOverlay(sock);
      }
      return sent, sentTtl, myaddr != Addr(key.ip, key.port);
    }
  }

  // ---- the protocol

  /** A query in flight. `path` lists the superpeers that forwarded it, the origin first. */
  datatype Msg = Msg(key: Key, src: Addr, dst: Addr, ttl: int, path: seq<Addr>)

  datatype World = World(near: map<Addr, seq<Near>>, requests: map<Addr, seq<Request>>, flight: seq<Msg>)

  datatype Step =
    | Inject(at: Addr, key: Key, ttl: int)
    | Deliver(index: nat)
    | Sweep(at: Addr)
    | Reconfigure(near: map<Addr, seq<Near>>)

  /** Every superpeer has at most `degree` neighbours, on distinct connections. */
  ghost predicate GoodNear(near: map<Addr, seq<Near>>, degree: nat) {
    forall v :: v in near ==>
      && |near[v]| <= degree && WellAdvertised(near[v]) && SocksDistinct(near[v])
      && forall n :: n in near[v] ==> n.sock >= 0
  }

  ghost predicate Good(w: World, degree: nat) {
    && w.near.Keys == w.requests.Keys
    && GoodNear(w.near, degree)
    && (forall v :: v in w.requests ==> ValidRequests(w.requests[v]))
    && (forall i :: 0 <= i < |w.flight| ==> w.flight[i].ttl >= 1)
  }

  ghost predicate Enabled(w: World, s: Step, degree: nat) {
    match s
    case Inject(v, _, _) => v in w.near
    case Deliver(i) => i < |w.flight|
    case Sweep(v) => v in w.near
    case Reconfigure(near) => near.Keys == w.near.Keys && GoodNear(near, degree)
  }

  /** The connection of a superpeer to `addr`, if it has one. */
  ghost function SockTo(near: seq<Near>, addr: Addr): (s: Option<int>)
    ensures s.Some? <==> HasAddr(near, addr)
    ensures s.Some? ==> exists i :: 0 <= i < |near| && near[i].addr == addr && near[i].sock == s.value
  {
    if HasAddr(near, addr) then
      var i :| 0 <= i < |near| && near[i].addr == addr;
      Some(near[i].sock)
    else
      None
  }

  ghost function Outgoing(sent: seq<Near>, key: Key, src: Addr, ttl: int, path: seq<Addr>): (r: seq<Msg>)
    ensures |r| == |sent| && forall i :: 0 <= i < |r| ==> r[i] == Msg(key, src, sent[i].addr, ttl, path)
  {
    seq(|sent|, i requires 0 <= i < |sent| => Msg(key, src, sent[i].addr, ttl, path))
  }

  /** Superpeer `v` runs the handler. */
  ghost function Handle(w: World, v: Addr, sock: int, key: Key, ttl: int, path: seq<Addr>): World
    requires v in w.near && v in w.requests && WellAdvertised(w.near[v])
  {
    var sent := Forwards(w.near[v], w.requests[v], sock, key, ttl);
    w.(requests := w.requests[v := Recorded(w.requests[v], key)],
       flight := w.flight + Outgoing(sent, key, v, ttl, path + [v]))
  }

  ghost function Drop(flight: seq<Msg>, i: nat): seq<Msg>
    requires i < |flight|
  {
    flight[..i] + flight[i + 1..]
  }

  /** Does the message reach a superpeer that has a connection to its sender? */
  ghost predicate Arrives(w: World, m: Msg) {
    m.dst in w.near && HasAddr(w.near[m.dst], m.src)
  }

  ghost function After(w: World, s: Step, degree: nat): World
    requires Good(w, degree) && Enabled(w, s, degree)
  {
    match s
    case Inject(v, key, ttl) => Handle(w, v, UDP, key, ttl, [])
    case Deliver(i) =>
      var m := w.flight[i];
      var u := w.(flight := Drop(w.flight, i));
      if Arrives(w, m) then Handle(u, m.dst, SockTo(w.near[m.dst], m.src).value, m.key, m.ttl - 1, m.path) else u
    case Sweep(v) => w.(requests := w.requests[v := Swept(w.requests[v])])
    case Reconfigure(near) => w.(near := near)
  }

  lemma RecordedIsValid(reqs: seq<Request>, key: Key)
    requires ValidRequests(reqs)
    ensures ValidRequests(Recorded(reqs, key))
    ensures forall k :: Known(Recorded(reqs, key), k) <==> Known(reqs, k) || k == key
  {
    if !Known(reqs, key) {
      NewIsValid(reqs, key);
    }
  }

  lemma HandleIsGood(w: World, degree: nat, v: Addr, sock: int, key: Key, ttl: int, path: seq<Addr>)
    requires Good(w, degree) && v in w.near
    ensures Good(Handle(w, v, sock, key, ttl, path), degree)
  {
    RecordedIsValid(w.requests[v], key);
  }

  lemma AfterIsGood(w: World, s: Step, degree: nat)
    requires Good(w, degree) && Enabled(w, s, degree)
    ensures Good(After(w, s, degree), degree)
  {
    match s
    case Inject(v, key, ttl) => HandleIsGood(w, degree, v, UDP, key, ttl, []);
    case Deliver(i) =>
      var m := w.flight[i];
      var u := w.(flight := Drop(w.flight, i));
      assert Good(u, degree);
      if Arrives(w, m) {
        HandleIsGood(u, degree, m.dst, SockTo(w.near[m.dst], m.src).value, m.key, m.ttl - 1, m.path);
      }
    case Sweep(v) => SweptIsValid(w.requests[v]);
    case Reconfigure(near) =>
  }

  /** A run: every state follows from the one before. */
  ghost predicate IsRun(ws: seq<World>, steps: seq<Step>, degree: nat) {
    && |ws| == |steps| + 1
    && (forall i :: 0 <= i < |ws| ==> Good(ws[i], degree))
    && (forall i :: 0 <= i < |steps| ==> Enabled(ws[i], steps[i], degree) && ws[i + 1] == After(ws[i], steps[i], degree))
  }

  // ---- who gets a copy

  /** The superpeer has been told on that connection that its other end has the neighbour `addr`. */
  ghost predicate Told(near: seq<Near>, sock: int, addr: Addr) {
    exists k :: 0 <= k < |near| && near[k].sock == sock && addr in Decoded(near[k].data)
  }

  /** What the handler puts in flight: with ttl left and a query that is not recorded, a copy for
      every neighbour but the sender and those the sender has advertised; and nothing else. */
  lemma {:induction false} CopiesOf(w: World, degree: nat, v: Addr, sock: int, key: Key, ttl: int, path: seq<Addr>)
    requires Good(w, degree) && v in w.near
    ensures var w' := Handle(w, v, sock, key, ttl, path);
      && w.flight <= w'.flight
      && (forall a: Addr :: (exists i :: |w.flight| <= i < |w'.flight| && w'.flight[i] == Msg(key, v, a, ttl, path + [v])) <==>
            !Known(w.requests[v], key) && ttl > 0
            && exists i :: 0 <= i < |w.near[v]| && w.near[v][i].addr == a && w.near[v][i].sock != sock && !Told(w.near[v], sock, a))
      && (forall i :: |w.flight| <= i < |w'.flight| ==> w'.flight[i] == Msg(key, v, w'.flight[i].dst, ttl, path + [v]))
  {
    hide Decoded, Told, Good, Known;
    var near := w.near[v];
    NearIsGood(w, degree);
    var sent := Forwards(near, w.requests[v], sock, key, ttl);
    var out := Outgoing(sent, key, v, ttl, path + [v]);
    var w' := Handle(w, v, sock, key, ttl, path);
    forall a: Addr
      ensures (exists i :: |w.flight| <= i < |w'.flight| && w'.flight[i] == Msg(key, v, a, ttl, path + [v])) <==>
        !Known(w.requests[v], key) && ttl > 0 && exists i :: 0 <= i < |near| && near[i].addr == a && near[i].sock != sock && !Told(near, sock, a)
    {
      SentTo(near, sock, a);
      if i :| |w.flight| <= i < |w'.flight| && w'.flight[i] == Msg(key, v, a, ttl, path + [v]) {
        assert sent[i - |w.flight|] in sent && sent[i - |w.flight|].addr == a;
      }
      if !Known(w.requests[v], key) && ttl > 0 && exists n :: n in Targets(near, sock) && n.addr == a {
        var n :| n in Targets(near, sock) && n.addr == a;
        var i :| 0 <= i < |sent| && sent[i] == n;
        assert w'.flight[|w.flight| + i] == out[i];
      }
    }
  }

  lemma {:induction false} NearIsGood(w: World, degree: nat)
    requires Good(w, degree)
    ensures GoodNear(w.near, degree) && w.near.Keys == w.requests.Keys
  {}

  lemma {:induction false} SentTo(near: seq<Near>, sock: int, a: Addr)
    requires WellAdvertised(near) && SocksDistinct(near)
    ensures (exists n :: n in Targets(near, sock) && n.addr == a) <==>
      exists i :: 0 <= i < |near| && near[i].addr == a && near[i].sock != sock && !Told(near, sock, a)
  {
    hide Decoded;
    TargetsAre(near, sock);
    TargetsMembers(near, near, sock);
    if n :| n in Targets(near, sock) && n.addr == a {
      var i :| 0 <= i < |near| && near[i] == n;
    }
  }

  /** A delivery puts no copy in flight to an address that the sender's entry advertises. */
  lemma {:induction false} DeliverySkipsAdvertised(w: World, degree: nat, i: nat, j: nat, k: nat)
    requires Good(w, degree) && i < |w.flight| && Arrives(w, w.flight[i])
    requires var m := w.flight[i];
      k < |w.near[m.dst]| && w.near[m.dst][k].sock == SockTo(w.near[m.dst], m.src).value
    requires |w.flight| - 1 <= j < |After(w, Deliver(i), degree).flight|
    ensures var m := w.flight[i];
      After(w, Deliver(i), degree).flight[j].dst !in Decoded(w.near[m.dst][k].data)
  {
    hide Decoded;
    var m := w.flight[i];
    var sock := SockTo(w.near[m.dst], m.src).value;
    var u := w.(flight := Drop(w.flight, i));
    assert Good(u, degree);
    CopiesOf(u, degree, m.dst, sock, m.key, m.ttl - 1, m.path);
    var w' := After(w, Deliver(i), degree);
    assert w'.flight[j] == Msg(m.key, m.dst, w'.flight[j].dst, m.ttl - 1, m.path + [m.dst]);
    assert !Told(w.near[m.dst], sock, w'.flight[j].dst);
  }

  // ---- termination

  ghost function Pow(b: nat, e: int): (p: nat)
    requires b >= 1
    ensures p >= 1
    decreases if e < 0 then 0 else e
  {
    if e <= 0 then 1 else b * Pow(b, e - 1)
  }

  /** The work a flight can still cause: a message of ttl `t` weighs (`degree` + 1) to the `t`. */
  ghost function Weight(flight: seq<Msg>, degree: nat): nat {
    if flight == [] then 0 else Weight(flight[..|flight| - 1], degree) + Pow(degree + 1, flight[|flight| - 1].ttl)
  }

  lemma {:induction false} WeightAppend(a: seq<Msg>, b: seq<Msg>, degree: nat)
    ensures Weight(a + b, degree) == Weight(a, degree) + Weight(b, degree)
  {
    if b == [] {
      assert a + b == a;
    } else {
      WeightAppend(a, b[..|b| - 1], degree);
      assert (a + b)[..|a + b| - 1] == a + b[..|b| - 1];
    }
  }

  lemma WeightDrop(flight: seq<Msg>, i: nat, degree: nat)
    requires i < |flight|
    ensures Weight(flight, degree) == Weight(Drop(flight, i), degree) + Pow(degree + 1, flight[i].ttl)
  {
    var a, m, b := flight[..i], [flight[i]], flight[i + 1..];
    assert flight == a + m + b && Drop(flight, i) == a + b;
    WeightAppend(a + m, b, degree);
    WeightAppend(a, m, degree);
    WeightAppend(a, b, degree);
    assert m[..0] == [];
  }

  lemma {:induction false} WeightOutgoing(out: seq<Msg>, ttl: int, degree: nat)
    requires forall i :: 0 <= i < |out| ==> out[i].ttl == ttl
    ensures Weight(out, degree) == |out| * Pow(degree + 1, ttl)
  {
    if out != [] {
      WeightOutgoing(out[..|out| - 1], ttl, degree);
    }
  }

  /** What an injection can add to the weight. */
  ghost function Injected(s: Step, degree: nat): nat {
    if s.Inject? && s.ttl > 0 then degree * Pow(degree + 1, s.ttl) else 0
  }

  lemma HandleWeight(w: World, degree: nat, v: Addr, sock: int, key: Key, ttl: int, path: seq<Addr>)
    requires Good(w, degree) && v in w.near
    ensures Weight(Handle(w, v, sock, key, ttl, path).flight, degree) <= Weight(w.flight, degree) + (if ttl > 0 then degree * Pow(degree + 1, ttl) else 0)
  {
    var out := Outgoing(Forwards(w.near[v], w.requests[v], sock, key, ttl), key, v, ttl, path + [v]);
    WeightAppend(w.flight, out, degree);
    WeightOutgoing(out, ttl, degree);
    if ttl > 0 {
      assert |out| <= degree;
      MulMonotone(|out|, degree, Pow(degree + 1, ttl));
    }
  }

  lemma MulMonotone(a: nat, b: nat, c: nat)
    requires a <= b
    ensures a * c <= b * c
  {
  }

  /** A delivery takes weight away, whatever it forwards. */
  lemma StepWeight(w: World, s: Step, degree: nat)
    requires Good(w, degree) && Enabled(w, s, degree)
    ensures Weight(After(w, s, degree).flight, degree) + (if s.Deliver? then 1 else 0) <= Weight(w.flight, degree) + Injected(s, degree)
  {
    match s
    case Inject(v, key, ttl) => HandleWeight(w, degree, v, UDP, key, ttl, []);
    case Deliver(i) =>
      var m := w.flight[i];
      var u := w.(flight := Drop(w.flight, i));
      WeightDrop(w.flight, i, degree);
      assert Good(u, degree);
      if Arrives(w, m) {
        HandleWeight(u, degree, m.dst, SockTo(w.near[m.dst], m.src).value, m.key, m.ttl - 1, m.path);
        assert Pow(degree + 1, m.ttl) == (degree + 1) * Pow(degree + 1, m.ttl - 1);
        Distribute(degree, Pow(degree + 1, m.ttl - 1));
      }
    case Sweep(v) =>
    case Reconfigure(near) =>
  }

  lemma Distribute(a: nat, c: nat)
    ensures (a + 1) * c == a * c + c
  {
  }

  ghost function Deliveries(steps: seq<Step>): nat {
    if steps == [] then 0 else Deliveries(steps[..|steps| - 1]) + if steps[|steps| - 1].Deliver? then 1 else 0
  }

  ghost function AllInjected(steps: seq<Step>, degree: nat): nat {
    if steps == [] then 0 else AllInjected(steps[..|steps| - 1], degree) + Injected(steps[|steps| - 1], degree)
  }

  /** Flooding terminates: however the network changes and whatever the sweeps forget, a run
      has no more deliveries than the initial weight and its injections pay for. */
  lemma {:induction false} FloodTerminates(ws: seq<World>, steps: seq<Step>, degree: nat)
    requires IsRun(ws, steps, degree)
    ensures Deliveries(steps) + Weight(ws[|steps|].flight, degree) <= Weight(ws[0].flight, degree) + AllInjected(steps, degree)
  {
    if steps != [] {
      var n := |steps| - 1;
      FloodTerminates(ws[..n + 1], steps[..n], degree);
      StepWeight(ws[n], steps[n], degree);
    }
  }

  // ---- each query is handled once while it stays recorded

  /** Step `s` makes superpeer `v` forward and answer the query `key`. */
  ghost predicate Handles(w: World, s: Step, v: Addr, key: Key) {
    && v in w.requests && !Known(w.requests[v], key)
    && match s
       case Inject(at, k, _) => at == v && k == key
       case Deliver(i) => i < |w.flight| && Arrives(w, w.flight[i]) && w.flight[i].dst == v && w.flight[i].key == key
       case _ => false
  }

  ghost function Sweeps(steps: seq<Step>, v: Addr): nat {
    if steps == [] then 0 else Sweeps(steps[..|steps| - 1], v) + if steps[|steps| - 1] == Sweep(v) then 1 else 0
  }

  /** Only a sweep changes the record of a query. */
  lemma StepKeepsRecord(w: World, s: Step, degree: nat, v: Addr, key: Key, t: nat)
    requires Good(w, degree) && Enabled(w, s, degree) && v in w.requests && Request(key, t) in w.requests[v]
    ensures v in After(w, s, degree).requests
    ensures s != Sweep(v) ==> Request(key, t) in After(w, s, degree).requests[v]
    ensures s == Sweep(v) && t > 0 ==> Request(key, t - 1) in After(w, s, degree).requests[v]
    ensures s == Sweep(v) && t == 0 ==> !Known(After(w, s, degree).requests[v], key)
  {
    if s == Sweep(v) {
      var reqs := w.requests[v];
      if t > 0 {
        SweptHolds(reqs, key, t - 1);
      } else {
        SweptForgets(reqs, key);
      }
    }
  }

  /** The step that handles a query records it. */
  lemma HandlingRecords(w: World, s: Step, degree: nat, v: Addr, key: Key)
    requires Good(w, degree) && Enabled(w, s, degree) && Handles(w, s, v, key)
    ensures v in After(w, s, degree).requests && Request(key, REQUEST_TTL) in After(w, s, degree).requests[v]
  {
    assert ([Request(key, REQUEST_TTL)] + w.requests[v])[0] == Request(key, REQUEST_TTL);
  }

  /** A handled query stays recorded through three sweeps, ageing by one at each. */
  lemma {:induction false} StaysRecorded(ws: seq<World>, steps: seq<Step>, degree: nat, i: nat, j: nat, v: Addr, key: Key)
    requires IsRun(ws, steps, degree) && i < j <= |steps| && Handles(ws[i], steps[i], v, key)
    requires Sweeps(steps[i + 1..j], v) <= 3
    ensures v in ws[j].requests && Request(key, 3 - Sweeps(steps[i + 1..j], v)) in ws[j].requests[v]
    ensures Known(ws[j].requests[v], key)
  {
    hide After, Handles, Good, Known, Enabled;
    if j == i + 1 {
      HandlingRecords(ws[i], steps[i], degree, v, key);
    } else {
      var part := steps[i + 1..j];
      assert part[..|part| - 1] == steps[i + 1..j - 1] && part[|part| - 1] == steps[j - 1];
      StaysRecorded(ws, steps, degree, i, j - 1, v, key);
      StepKeepsRecord(ws[j - 1], steps[j - 1], degree, v, key, REQUEST_TTL - Sweeps(steps[i + 1..j - 1], v));
    }
    RequestKnown(ws[j].requests[v], key, REQUEST_TTL - Sweeps(steps[i + 1..j], v));
  }

  /** The fourth sweep forgets it. */
  lemma FourthSweepForgets(ws: seq<World>, steps: seq<Step>, degree: nat, i: nat, j: nat, v: Addr, key: Key)
    requires IsRun(ws, steps, degree) && i < j < |steps| && Handles(ws[i], steps[i], v, key)
    requires Sweeps(steps[i + 1..j], v) == 3 && steps[j] == Sweep(v)
    ensures v in ws[j + 1].requests && !Known(ws[j + 1].requests[v], key)
  {
    StaysRecorded(ws, steps, degree, i, j, v, key);
    StepKeepsRecord(ws[j], steps[j], degree, v, key, 0);
  }

  lemma {:induction false} SweepsMonotone(steps: seq<Step>, v: Addr, n: nat)
    requires n <= |steps|
    ensures Sweeps(steps[..n], v) <= Sweeps(steps, v)
  {
    if n < |steps| {
      SweepsMonotone(steps[..|steps| - 1], v, n);
      assert steps[..|steps| - 1][..n] == steps[..n];
    } else {
      assert steps[..n] == steps;
    }
  }

  /** Between two handlings of one query by one superpeer there are at least four sweeps. */
  lemma HandledOnce(ws: seq<World>, steps: seq<Step>, degree: nat, i: nat, j: nat, v: Addr, key: Key)
    requires IsRun(ws, steps, degree) && i < j < |steps|
    requires Handles(ws[i], steps[i], v, key) && Handles(ws[j], steps[j], v, key)
    ensures Sweeps(steps[i + 1..j], v) >= 4
  {
    if Sweeps(steps[i + 1..j], v) <= REQUEST_TTL {
      StaysRecorded(ws, steps, degree, i, j, v, key);
    }
  }

  lemma RequestKnown(reqs: seq<Request>, key: Key, t: nat)
    requires Request(key, t) in reqs
    ensures Known(reqs, key)
  {
    var i :| 0 <= i < |reqs| && reqs[i] == Request(key, t);
    assert reqs[i].key == key;
  }

  // ---- hops

  /** Every query in flight has a ttl left for each link it may still cross. */
  ghost predicate HopsBounded(w: World, limit: nat) {
    forall i :: 0 <= i < |w.flight| ==> 1 <= |w.flight[i].path| && |w.flight[i].path| + w.flight[i].ttl <= limit + 1
  }

  lemma StepBoundsHops(w: World, s: Step, degree: nat, limit: nat)
    requires Good(w, degree) && Enabled(w, s, degree) && HopsBounded(w, limit)
    requires s.Inject? ==> s.ttl <= limit
    ensures HopsBounded(After(w, s, degree), limit)
  {
  }

  /** A query injected with the default ttl crosses at most six links: whatever it is when it is
      delivered, it was forwarded by at most six superpeers. */
  lemma {:induction false} NoQueryOutlivesItsTtl(ws: seq<World>, steps: seq<Step>, degree: nat)
    requires IsRun(ws, steps, degree) && ws[0].flight == []
    requires forall i :: 0 <= i < |steps| && steps[i].Inject? ==> steps[i].ttl == DEFAULT_TTL
    ensures HopsBounded(ws[|steps|], 6)
    ensures forall i :: 0 <= i < |ws[|steps|].flight| ==> |ws[|steps|].flight[i].path| <= 6
  {
    if steps != [] {
      var n := |steps| - 1;
      NoQueryOutlivesItsTtl(ws[..n + 1], steps[..n], degree);
      StepBoundsHops(ws[n], steps[n], degree, DEFAULT_TTL);
    }
  }
}
