/** Everything that can happen to the packets a node watches: they are sent, time passes, and
    acknowledgements come in (src/client/retx.c, src/client/packet_list.c). An acknowledgement
    carries an index, and several watched packets may have it: the pages of a reply to a search
    all go out under the index of the query. */
module RetxRuns {
  import opened Common
  import opened Memory
  import opened DoublyLinked
  import opened Retx

  datatype Event = Sends(index: u16, cmd: seq<byte>, ok: bool) | Ticks(sendable: nat -> bool) | Acks(index: u16)

  /** A watched packet with its history: the event that sent it, and for each tick since whether
      sending would have succeeded. */
  datatype Life = Life(id: nat, index: u16, cmd: seq<byte>, oks: seq<bool>)

  function NodeOf(x: Life): Node {
    After(Fresh(x.index, x.cmd), x.oks)
  }

  function Nodes(xs: seq<Life>): (ps: seq<Node>)
    ensures |ps| == |xs| && forall i :: 0 <= i < |ps| ==> ps[i] == NodeOf(xs[i])
  {
    seq(|xs|, i requires 0 <= i < |xs| => NodeOf(xs[i]))
  }

  /** The list without the first packet of that index. */
  function Stopped(xs: seq<Life>, index: u16): seq<Life> {
    if xs == [] then [] else if xs[0].index == index then xs[1..] else [xs[0]] + Stopped(xs[1..], index)
  }

  function Aged(xs: seq<Life>, ok: nat -> bool): (ys: seq<Life>)
    ensures |ys| == |xs| && forall i :: 0 <= i < |ys| ==> ys[i] == xs[i].(oks := xs[i].oks + [ok(i)])
  {
    seq(|xs|, i requires 0 <= i < |xs| => xs[i].(oks := xs[i].oks + [ok(i)]))
  }

  /** The packets watched after a run, the latest first. */
  function Watched(events: seq<Event>): seq<Life> {
    if events == [] then []
    else
      var n := |events| - 1;
      var xs := Watched(events[..n]);
      match events[n]
      case Sends(index, cmd, ok) => if ok then [Life(n, index, cmd, [])] + xs else xs
      case Ticks(ok) => Aged(xs, ok)
      case Acks(index) => Stopped(xs, index)
  }

  /** The packets of `xs` that get `action` in a tick. */
  function ChosenLives(xs: seq<Life>, ok: nat -> bool, action: Action): seq<Life> {
    if xs == [] then []
    else
      var i := |xs| - 1;
      ChosenLives(xs[..i], ok, action) + if ActionOf(NodeOf(xs[i]), ok(i)) == action then [xs[i]] else []
  }

  /** Everything that got `action` in a run, as it was just before. */
  function Done(events: seq<Event>, action: Action): seq<Life> {
    if events == [] then []
    else
      var n := |events| - 1;
      Done(events[..n], action) + if events[n].Ticks? then ChosenLives(Watched(events[..n]), events[n].sendable, action) else []
  }

  /** At which of its ticks the packet is among `done`. */
  function TimesOf(done: seq<Life>, id: nat): seq<nat> {
    if done == [] then []
    else
      var x := done[|done| - 1];
      TimesOf(done[..|done| - 1], id) + if x.id == id then [|x.oks| + 1] else []
  }

  function TicksIn(events: seq<Event>): nat {
    if events == [] then 0 else TicksIn(events[..|events| - 1]) + if events[|events| - 1].Ticks? then 1 else 0
  }

  // ---- the list does what the history says

  lemma {:induction false} AfterKeeps(n: Node, oks: seq<bool>)
    ensures After(n, oks).index == n.index && After(n, oks).cmd == n.cmd
  {
    if oks != [] {
      AfterKeeps(n, oks[..|oks| - 1]);
    }
  }

  lemma {:induction false} AgedNodes(xs: seq<Life>, ok: nat -> bool)
    ensures Nodes(Aged(xs, ok)) == TickedAll(Nodes(xs), ok)
  {
    hide Ticked;
    forall i | 0 <= i < |xs|
      ensures NodeOf(Aged(xs, ok)[i]) == Ticked(NodeOf(xs[i]), ok(i))
    {
      var x := xs[i];
      assert (x.oks + [ok(i)])[..|x.oks|] == x.oks;
    }
  }

  lemma {:induction false} ChosenNodes(xs: seq<Life>, ok: nat -> bool, action: Action)
    ensures Nodes(ChosenLives(xs, ok, action)) == Chosen(Nodes(xs), ok, action)
  {
    hide ActionOf, NodeOf;
    if xs != [] {
      var i := |xs| - 1;
      ChosenNodes(xs[..i], ok, action);
      assert Nodes(xs)[..i] == Nodes(xs[..i]);
    }
  }

  lemma {:induction false} StoppedNodes(xs: seq<Life>, index: u16, k: nat)
    requires IsFirst(Nodes(xs), index, k)
    ensures Nodes(Stopped(xs, index)) == Without(Nodes(xs), k)
  {
    hide NodeOf, Without, Nodes;
    IndexOf(xs[0]);
    var rest := xs[1..];
    RestNodes(xs);
    WithoutFront(NodeOf(xs[0]), Nodes(rest));
    if k > 0 {
      WithoutBehind(NodeOf(xs[0]), Nodes(rest), k);
      FirstBehind(NodeOf(xs[0]), Nodes(rest), index, k);
      StoppedNodes(rest, index, k - 1);
      NodesJoin([xs[0]], Stopped(rest, index));
    }
  }

  lemma {:induction false} WithoutFront<T>(x: T, s: seq<T>)
    ensures Without([x] + s, 0) == s
  {}

  lemma {:induction false} WithoutBehind<T>(x: T, s: seq<T>, k: nat)
    requires 0 < k <= |s|
    ensures Without([x] + s, k) == [x] + Without(s, k - 1)
  {
    var all := [x] + s;
    assert all[..k] == [x] + s[..k - 1];
    assert all[k + 1..] == s[k..];
  }

  lemma {:induction false} FirstBehind(n: Node, ps: seq<Node>, index: u16, k: nat)
    requires 0 < k && IsFirst([n] + ps, index, k)
    ensures n.index != index && IsFirst(ps, index, k - 1)
  {
    assert ([n] + ps)[0] == n && ([n] + ps)[k] == ps[k - 1];
    forall i | 0 <= i < k - 1
      ensures ps[i].index != index
    {
      assert ([n] + ps)[i + 1] == ps[i];
    }
  }

  lemma {:induction false} RestNodes(xs: seq<Life>)
    requires xs != []
    ensures Nodes(xs) == [NodeOf(xs[0])] + Nodes(xs[1..]) && Nodes([xs[0]]) == [NodeOf(xs[0])]
  {
    hide NodeOf;
  }

  lemma {:induction false} IndexOf(x: Life)
    ensures NodeOf(x).index == x.index && NodeOf(x).cmd == x.cmd
  {
    AfterKeeps(Fresh(x.index, x.cmd), x.oks);
  }

  lemma {:induction false} NoneStopped(xs: seq<Life>, index: u16)
    requires forall i :: 0 <= i < |xs| ==> Nodes(xs)[i].index != index
    ensures Stopped(xs, index) == xs
  {
    hide NodeOf;
    if xs != [] {
      IndexOf(xs[0]);
      assert Nodes(xs)[0].index != index;
      assert forall i :: 0 <= i < |xs[1..]| ==> Nodes(xs[1..])[i] == Nodes(xs)[i + 1];
      NoneStopped(xs[1..], index);
    }
  }

  lemma {:induction false} NextEvent(events: seq<Event>, n: nat)
    requires n < |events|
    ensures events[..n + 1][..n] == events[..n] && events[..n + 1][n] == events[n]
  {}

  lemma {:induction false} NodesJoin(a: seq<Life>, b: seq<Life>)
    ensures Nodes(a + b) == Nodes(a) + Nodes(b) && Cmds(Nodes(a + b)) == Cmds(Nodes(a)) + Cmds(Nodes(b))
  {
    hide NodeOf;
  }

  /** Whatever happens, each packet of the list is where its own history has led it, and what the
      node sends again and reports is what these histories say. */
  method Run(l: PacketList, events: seq<Event>) returns (sent: seq<Node>, reports: seq<seq<byte>>)
    requires l.Valid() && l.packets == []
    modifies l
    ensures l.Valid() && l.packets == Nodes(Watched(events))
    ensures sent == Nodes(Done(events, Send)) && reports == Cmds(Nodes(Done(events, Report)))
  {
    hide IsList, NodeOf, Chosen, ChosenLives, TickedAll, Nodes, Cmds, Stopped, Aged;
    sent, reports := [], [];
    NothingYet();
    for n := 0 to |events|
      invariant l.Valid() && l.packets == Nodes(Watched(events[..n]))
      invariant sent == Nodes(Done(events[..n], Send)) && reports == Cmds(Nodes(Done(events[..n], Report)))
    {
      NextEvent(events, n);
      ghost var xs := Watched(events[..n]);
      match events[n] {
        case Sends(index, cmd, ok) =>
          NodesJoin([Life(n, index, cmd, [])], xs);
          OneNode(n, index, cmd);
          l.RetxSend(index, cmd, ok);
        case Ticks(ok) =>
          AgedNodes(xs, ok);
          ChosenNodes(xs, ok, Send);
          ChosenNodes(xs, ok, Report);
          NodesJoin(Done(events[..n], Send), ChosenLives(xs, ok, Send));
          NodesJoin(Done(events[..n], Report), ChosenLives(xs, ok, Report));
          var nodes, cmds := l.Tick(ok);
          sent, reports := sent + nodes, reports + cmds;
        case Acks(index) =>
          ghost var was := l.packets;
          var cmd := l.RetxStop(index);
          if cmd == None {
            NoneStopped(xs, index);
          } else {
            ghost var k: nat :| IsFirst(was, index, k) && l.packets == Without(was, k);
            StoppedNodes(xs, index, k);
          }
      }
    }
    assert events[..|events|] == events;
  }

  lemma {:induction false} NothingYet()
    ensures Nodes([]) == [] && Cmds([]) == []
  {}

  lemma {:induction false} OneNode(id: nat, index: u16, cmd: seq<byte>)
    ensures Nodes([Life(id, index, cmd, [])]) == [Fresh(index, cmd)]
  {}

  // ---- one packet among the others

  /** The latest first. */
  ghost predicate Latest(xs: seq<Life>, n: nat) {
    && (forall i :: 0 <= i < |xs| ==> xs[i].id < n)
    && (forall i, j :: 0 <= i < j < |xs| ==> xs[i].id > xs[j].id)
  }

  /** A packet of the index that was sent later is watched. */
  ghost predicate HasLater(xs: seq<Life>, index: u16, id: nat) {
    exists y :: y in xs && y.index == index && y.id > id
  }

  lemma {:induction false} StoppedMembers(xs: seq<Life>, index: u16, n: nat)
    requires Latest(xs, n)
    ensures Latest(Stopped(xs, index), n)
    ensures forall x :: x in Stopped(xs, index) <==> x in xs && (x.index == index ==> HasLater(xs, index, x.id))
  {
    hide Stopped, Latest, HasLater;
    StoppedIsLatest(xs, index, n);
    forall x
      ensures x in Stopped(xs, index) <==> x in xs && (x.index == index ==> HasLater(xs, index, x.id))
    {
      StoppedHas(xs, index, n, x);
    }
  }

  lemma {:induction false} LatestRest(xs: seq<Life>, n: nat)
    requires Latest(xs, n) && xs != []
    ensures xs[0].id < n && Latest(xs[1..], xs[0].id) && Latest(xs[1..], n)
    ensures forall x :: x in xs <==> x == xs[0] || x in xs[1..]
    ensures forall x :: x in xs[1..] ==> x.id < xs[0].id
  {}

  lemma {:induction false} StoppedIsLatest(xs: seq<Life>, index: u16, n: nat)
    requires Latest(xs, n)
    ensures Latest(Stopped(xs, index), n)
  {
    hide Latest;
    if xs != [] {
      LatestRest(xs, n);
      if xs[0].index != index {
        StoppedIsLatest(xs[1..], index, xs[0].id);
        LatestBefore(xs[0], Stopped(xs[1..], index), n);
      }
    }
  }

  lemma {:induction false} StoppedHas(xs: seq<Life>, index: u16, n: nat, x: Life)
    requires Latest(xs, n)
    ensures x in Stopped(xs, index) <==> x in xs && (x.index == index ==> HasLater(xs, index, x.id))
  {
    hide Latest, HasLater;
    if xs != [] {
      LatestRest(xs, n);
      StoppedHas(xs[1..], index, xs[0].id, x);
      LaterInRest(xs, index, x);
    }
  }

  lemma {:induction false} LaterInRest(xs: seq<Life>, index: u16, x: Life)
    requires xs != [] && forall y :: y in xs[1..] ==> y.id < xs[0].id
    requires forall y :: y in xs <==> y == xs[0] || y in xs[1..]
    ensures x in xs[1..] ==> (HasLater(xs, index, x.id) <==> xs[0].index == index || HasLater(xs[1..], index, x.id))
    ensures x == xs[0] ==> !HasLater(xs, index, x.id)
  {}

  lemma {:induction false} LatestBefore(first: Life, rest: seq<Life>, n: nat)
    requires first.id < n && Latest(rest, first.id)
    ensures Latest([first] + rest, n)
  {}

  lemma {:induction false} WatchedAreLatest(events: seq<Event>)
    ensures Latest(Watched(events), |events|)
  {
    hide Stopped, Latest;
    if events == [] {
      NoneWatched();
    } else {
      var n := |events| - 1;
      var xs := Watched(events[..n]);
      WatchedAreLatest(events[..n]);
      LatestLater(xs, n, n + 1);
      match events[n]
      case Sends(index, cmd, ok) => LatestBefore(Life(n, index, cmd, []), xs, n + 1);
      case Ticks(ok) => AgedLatest(xs, ok, n + 1);
      case Acks(index) => StoppedMembers(xs, index, n + 1);
    }
  }

  lemma {:induction false} NoneWatched()
    ensures Latest([], 0)
  {}

  lemma {:induction false} LatestLater(xs: seq<Life>, m: nat, n: nat)
    requires Latest(xs, m) && m <= n
    ensures Latest(xs, n)
  {}

  lemma {:induction false} AgedLatest(xs: seq<Life>, ok: nat -> bool, n: nat)
    requires Latest(xs, n)
    ensures Latest(Aged(xs, ok), n)
  {}

  ghost predicate IsWatched(xs: seq<Life>, id: nat) {
    exists i :: 0 <= i < |xs| && xs[i].id == id
  }

  lemma {:induction false} TimesJoin(a: seq<Life>, b: seq<Life>, id: nat)
    ensures TimesOf(a + b, id) == TimesOf(a, id) + TimesOf(b, id)
  {
    if b == [] {
      assert a + b == a;
    } else {
      var m := |b| - 1;
      assert (a + b)[..|a| + m] == a + b[..m];
      TimesJoin(a, b[..m], id);
    }
  }

  lemma {:induction false} ChosenIn(xs: seq<Life>, ok: nat -> bool, action: Action)
    ensures forall x :: x in ChosenLives(xs, ok, action) ==> x in xs
  {
    if xs != [] {
      ChosenIn(xs[..|xs| - 1], ok, action);
    }
  }

  lemma {:induction false} TimesNone(done: seq<Life>, id: nat)
    requires forall x :: x in done ==> x.id != id
    ensures TimesOf(done, id) == []
  {
    if done != [] {
      TimesNone(done[..|done| - 1], id);
    }
  }

  /** In one tick a packet gets one action. */
  lemma {:induction false} TimesOfChosen(xs: seq<Life>, n: nat, ok: nat -> bool, action: Action, id: nat)
    requires Latest(xs, n)
    ensures !IsWatched(xs, id) ==> TimesOf(ChosenLives(xs, ok, action), id) == []
    ensures forall i :: 0 <= i < |xs| && xs[i].id == id ==>
      TimesOf(ChosenLives(xs, ok, action), id) == if ActionOf(NodeOf(xs[i]), ok(i)) == action then [|xs[i].oks| + 1] else []
  {
    hide ActionOf, NodeOf, ChosenLives, TimesOf;
    if !IsWatched(xs, id) {
      TimesUnlisted(xs, ok, action, id);
    }
    forall i | 0 <= i < |xs| && xs[i].id == id
      ensures TimesOf(ChosenLives(xs, ok, action), id) == if ActionOf(NodeOf(xs[i]), ok(i)) == action then [|xs[i].oks| + 1] else []
    {
      TimesListed(xs, n, ok, action, i);
    }
  }

  lemma {:induction false} TimesUnlisted(xs: seq<Life>, ok: nat -> bool, action: Action, id: nat)
    requires !IsWatched(xs, id)
    ensures TimesOf(ChosenLives(xs, ok, action), id) == []
  {
    hide ChosenLives, TimesOf;
    ChosenIn(xs, ok, action);
    TimesNone(ChosenLives(xs, ok, action), id);
  }

  lemma {:induction false} TimesListed(xs: seq<Life>, n: nat, ok: nat -> bool, action: Action, i: nat)
    requires Latest(xs, n) && i < |xs|
    ensures TimesOf(ChosenLives(xs, ok, action), xs[i].id) == if ActionOf(NodeOf(xs[i]), ok(i)) == action then [|xs[i].oks| + 1] else []
    decreases |xs|
  {
    hide ActionOf, NodeOf, TimesOf;
    var k := |xs| - 1;
    var rest, id := xs[..k], xs[i].id;
    var last := if ActionOf(NodeOf(xs[k]), ok(k)) == action then [xs[k]] else [];
    TimesJoin(ChosenLives(rest, ok, action), last, id);
    TimesOfOne(xs[k], id);
    if i < k {
      TimesListed(rest, n, ok, action, i);
    } else {
      TimesUnlisted(rest, ok, action, id);
    }
  }

  lemma {:induction false} TimesOfOne(x: Life, id: nat)
    ensures TimesOf([x], id) == (if x.id == id then [|x.oks| + 1] else []) && TimesOf([], id) == []
  {
    assert [x][..0] == [];
  }

  /** Nothing is done about a packet before it is sent. */
  lemma {:induction false} DoneIds(events: seq<Event>, action: Action, id: nat)
    requires |events| <= id
    ensures TimesOf(Done(events, action), id) == []
  {
    hide ChosenLives, Watched, Latest;
    if events != [] {
      var n := |events| - 1;
      DoneIds(events[..n], action, id);
      WatchedAreLatest(events[..n]);
      NotLatest(Watched(events[..n]), n, id);
      if events[n].Ticks? {
        TimesOfChosen(Watched(events[..n]), n, events[n].sendable, action, id);
        TimesJoin(Done(events[..n], action), ChosenLives(Watched(events[..n]), events[n].sendable, action), id);
      } else {
        assert Done(events[..n], action) + [] == Done(events[..n], action);
      }
    }
  }

  lemma {:induction false} NotLatest(xs: seq<Life>, n: nat, id: nat)
    requires Latest(xs, n) && n <= id
    ensures !IsWatched(xs, id)
  {}

  /** What is known of a watched packet: its own history is the one of the run since it was sent. */
  ghost predicate Told(events: seq<Event>, x: Life) {
    && x.id < |events| && events[x.id] == Sends(x.index, x.cmd, true)
    && |x.oks| == TicksIn(events[x.id + 1..])
    && forall action :: TimesOf(Done(events, action), x.id) == When(Fresh(x.index, x.cmd), x.oks, action)
  }

  lemma {:induction false} WatchedAreTold(events: seq<Event>, i: nat)
    requires i < |Watched(events)|
    ensures Told(events, Watched(events)[i])
  {
    hide Stopped, Done, TimesOf, Told, When, TicksIn;
    var n := |events| - 1;
    var before, xs := events[..n], Watched(events[..n]);
    match events[n]
    case Sends(index, cmd, ok) =>
      if ok && i == 0 {
        NewIsTold(events, index, cmd);
      } else {
        var j := if ok then i - 1 else i;
        WatchedAreTold(before, j);
        ToldStill(events, xs[j]);
      }
    case Ticks(ok) =>
      WatchedAreTold(before, i);
      ToldOn(events, xs, ok, i);
    case Acks(index) =>
      WatchedAreLatest(before);
      StoppedMembers(xs, index, n);
      var x := Watched(events)[i];
      assert x in Stopped(xs, index);
      var j :| 0 <= j < |xs| && xs[j] == x;
      WatchedAreTold(before, j);
      ToldStill(events, x);
  }

  lemma {:induction false} NewIsTold(events: seq<Event>, index: u16, cmd: seq<byte>)
    requires events != [] && events[|events| - 1] == Sends(index, cmd, true)
    ensures Told(events, Life(|events| - 1, index, cmd, []))
  {
    hide TimesOf;
    var n := |events| - 1;
    forall action
      ensures TimesOf(Done(events, action), n) == []
    {
      DoneIds(events[..n], action, n);
      assert Done(events[..n], action) + [] == Done(events[..n], action);
    }
    assert events[n + 1..] == [];
  }

  lemma {:induction false} Later(events: seq<Event>, k: nat)
    requires k < |events|
    ensures TicksIn(events[k..]) == TicksIn(events[..|events| - 1][k..]) + if events[|events| - 1].Ticks? then 1 else 0
  {
    assert events[k..][..|events[k..]| - 1] == events[..|events| - 1][k..];
  }

  lemma {:induction false} ToldStill(events: seq<Event>, x: Life)
    requires events != [] && !events[|events| - 1].Ticks? && Told(events[..|events| - 1], x)
    ensures Told(events, x)
  {
    hide TimesOf, When;
    Later(events, x.id + 1);
    forall action
      ensures TimesOf(Done(events, action), x.id) == When(Fresh(x.index, x.cmd), x.oks, action)
    {
      assert Done(events[..|events| - 1], action) + [] == Done(events[..|events| - 1], action);
    }
  }

  lemma {:induction false} ToldOn(events: seq<Event>, xs: seq<Life>, ok: nat -> bool, i: nat)
    requires events != [] && events[|events| - 1] == Ticks(ok) && xs == Watched(events[..|events| - 1])
    requires i < |xs| && Told(events[..|events| - 1], xs[i])
    ensures Told(events, Aged(xs, ok)[i])
  {
    hide TimesOf, ActionOf, ChosenLives, Watched;
    var n, x := |events| - 1, xs[i];
    Later(events, x.id + 1);
    assert (x.oks + [ok(i)])[..|x.oks|] == x.oks;
    forall action
      ensures TimesOf(Done(events, action), x.id) == When(Fresh(x.index, x.cmd), x.oks + [ok(i)], action)
    {
      WatchedAreLatest(events[..n]);
      TimesOfChosen(xs, n, ok, action, x.id);
      TimesJoin(Done(events[..n], action), ChosenLives(xs, ok, action), x.id);
    }
  }

  /** A packet that stays unacknowledged is reported exactly once: not before its 14th tick, by its
      57th in any case, and at the 27th exactly if no send of it has failed; until then it is sent
      again at most five times. Ticks are counted from the event that sent it. */
  lemma {:induction false} ReportedOnce(events: seq<Event>, x: Life)
    requires x in Watched(events)
    ensures x.id < |events|
    ensures var t, reports := TicksIn(events[x.id + 1..]), TimesOf(Done(events, Report), x.id);
      && events[x.id] == Sends(x.index, x.cmd, true)
      && |reports| == (if NodeOf(x).countdown == -1 then 1 else 0)
      && (t >= 57 ==> |reports| == 1) && (t < 14 ==> |reports| == 0)
      && (forall r :: r in reports ==> 14 <= r <= 57)
      && (NodeOf(x).errors == 0 ==> reports == if t < 27 then [] else [27])
      && |TimesOf(Done(events, Send), x.id)| <= 5
  {
    hide Watched, Done, TimesOf, When, After, TicksIn;
    var i :| 0 <= i < |Watched(events)| && Watched(events)[i] == x;
    WatchedAreTold(events, i);
    GivenUpOnce(x.index, x.cmd, x.oks);
  }

  // ---- acknowledgements

  lemma {:induction false} OneMore(events: seq<Event>, e: Event)
    ensures (events + [e])[..|events|] == events && (events + [e])[|events|] == e
  {}

  /** An acknowledgement of `x` stops `x` if and only if no packet that was sent later is still
      watched under the same index; otherwise it stops that one. */
  lemma {:induction false} AckStopsTheLatest(events: seq<Event>, x: Life)
    requires x in Watched(events)
    ensures x in Watched(events + [Acks(x.index)]) <==> exists y :: y in Watched(events) && y.index == x.index && y.id > x.id
  {
    OneMore(events, Acks(x.index));
    WatchedAreLatest(events);
    StoppedMembers(Watched(events), x.index, |events|);
  }

  /** No two watched packets have the index. */
  ghost predicate OwnIndex(xs: seq<Life>, index: u16) {
    forall x, y :: x in xs && y in xs && x.index == index && y.index == index ==> x == y
  }

  ghost predicate Unwatched(xs: seq<Life>, index: u16) {
    forall x :: x in xs ==> x.index != index
  }

  /** After an acknowledgement nothing is watched under its index if and only if at most one packet
      was before. */
  lemma {:induction false} AckClearsIndex(events: seq<Event>, index: u16)
    ensures Unwatched(Watched(events + [Acks(index)]), index) <==> OwnIndex(Watched(events), index)
  {
    OneMore(events, Acks(index));
    WatchedAreLatest(events);
    StopClearsIndex(Watched(events), index, |events|);
  }

  lemma {:induction false} StopClearsIndex(xs: seq<Life>, index: u16, n: nat)
    requires Latest(xs, n)
    ensures Unwatched(Stopped(xs, index), index) <==> OwnIndex(xs, index)
  {
    hide Stopped;
    StoppedMembers(xs, index, n);
    if !OwnIndex(xs, index) {
      var x, y :| x in xs && y in xs && x.index == index && y.index == index && x != y;
      DifferentIds(xs, n, x, y);
      assert x.id < y.id ==> x in Stopped(xs, index);
      assert y.id < x.id ==> y in Stopped(xs, index);
    }
  }

  lemma {:induction false} DifferentIds(xs: seq<Life>, n: nat, x: Life, y: Life)
    requires Latest(xs, n) && x in xs && y in xs && x != y
    ensures x.id < y.id || y.id < x.id
  {}

  /** A packet that is watched no more is never sent again and never reported. */
  lemma {:induction false} GoneForGood(events: seq<Event>, more: seq<Event>, action: Action, id: nat)
    requires id < |events| && !IsWatched(Watched(events), id)
    ensures !IsWatched(Watched(events + more), id)
    ensures TimesOf(Done(events + more, action), id) == TimesOf(Done(events, action), id)
  {
    hide Stopped, TimesOf, ChosenLives, Latest;
    if more == [] {
      assert events + more == events;
    } else {
      var m := |more| - 1;
      var before := events + more[..m];
      GoneForGood(events, more[..m], action, id);
      assert events + more == before + [more[m]];
      OneMore(before, more[m]);
      WatchedAreLatest(before);
      NotWatchedNext(Watched(before), |before|, more[m], id);
      if more[m].Ticks? {
        TimesOfChosen(Watched(before), |before|, more[m].sendable, action, id);
        TimesJoin(Done(before, action), ChosenLives(Watched(before), more[m].sendable, action), id);
      } else {
        assert Done(before, action) + [] == Done(before, action);
      }
    }
  }

  lemma {:induction false} NotWatchedNext(xs: seq<Life>, n: nat, e: Event, id: nat)
    requires Latest(xs, n) && !IsWatched(xs, id) && id != n
    ensures match e
            case Sends(index, cmd, ok) => !IsWatched([Life(n, index, cmd, [])] + xs, id)
            case Ticks(ok) => !IsWatched(Aged(xs, ok), id)
            case Acks(index) => !IsWatched(Stopped(xs, index), id)
  {
    hide Latest;
    if e.Acks? {
      StoppedMembers(xs, e.index, n);
      forall i | 0 <= i < |Stopped(xs, e.index)|
        ensures Stopped(xs, e.index)[i].id != id
      {
        assert Stopped(xs, e.index)[i] in xs;
      }
    }
  }

  ghost predicate NoneOf(events: seq<Event>, index: u16) {
    forall e :: e in events ==> !(e.Sends? && e.index == index)
  }

  ghost predicate NoAcksOf(events: seq<Event>, index: u16) {
    forall e :: e in events ==> !(e.Acks? && e.index == index)
  }

  /** A packet whose index is not acknowledged stays watched. */
  lemma {:induction false} StaysWatched(events: seq<Event>, more: seq<Event>, x: Life) returns (y: Life)
    requires x in Watched(events) && NoAcksOf(more, x.index)
    ensures y in Watched(events + more) && y.id == x.id && y.index == x.index
  {
    hide Stopped;
    if more == [] {
      assert events + more == events;
      y := x;
    } else {
      var m := |more| - 1;
      var before := events + more[..m];
      assert events + more == before + [more[m]];
      OneMore(before, more[m]);
      var z := StaysWatched(events, more[..m], x);
      var i :| 0 <= i < |Watched(before)| && Watched(before)[i] == z;
      match more[m]
      case Sends(index, cmd, ok) => y := z;
      case Ticks(ok) => y := Aged(Watched(before), ok)[i];
      case Acks(index) =>
        y := z;
        assert more[m] in more;
        WatchedAreLatest(before);
        StoppedMembers(Watched(before), index, |before|);
    }
  }

  /** Every watched packet of the index has been given up. */
  ghost predicate AllGivenUp(xs: seq<Life>, index: u16) {
    forall i :: 0 <= i < |xs| && xs[i].index == index ==> NodeOf(xs[i]).countdown == -1
  }

  ghost predicate Silent(done: seq<Life>, index: u16) {
    forall x :: x in done ==> x.index != index
  }

  lemma {:induction false} GivenUpStays(x: Life, ok: bool)
    requires NodeOf(x).countdown == -1
    ensures ActionOf(NodeOf(x), ok) == Wait && NodeOf(x.(oks := x.oks + [ok])).countdown == -1
  {
    assert (x.oks + [ok])[..|x.oks|] == x.oks;
  }

  lemma {:induction false} GivenUpTick(xs: seq<Life>, ok: nat -> bool, action: Action, index: u16)
    requires AllGivenUp(xs, index) && action != Wait
    ensures AllGivenUp(Aged(xs, ok), index) && Silent(ChosenLives(xs, ok, action), index)
  {
    hide NodeOf, ActionOf;
    forall i | 0 <= i < |xs| && xs[i].index == index
      ensures NodeOf(Aged(xs, ok)[i]).countdown == -1
    {
      GivenUpStays(xs[i], ok(i));
    }
    if xs != [] {
      var i := |xs| - 1;
      GivenUpTick(xs[..i], ok, action, index);
      if xs[i].index == index {
        GivenUpStays(xs[i], ok(i));
      }
    }
  }

  lemma {:induction false} GivenUpStop(xs: seq<Life>, n: nat, stop: u16, index: u16)
    requires AllGivenUp(xs, index) && Latest(xs, n)
    ensures AllGivenUp(Stopped(xs, stop), index)
  {
    hide NodeOf;
    StoppedMembers(xs, stop, n);
    forall i | 0 <= i < |Stopped(xs, stop)| && Stopped(xs, stop)[i].index == index
      ensures NodeOf(Stopped(xs, stop)[i]).countdown == -1
    {
      assert Stopped(xs, stop)[i] in xs;
    }
  }

  /** What is done in the events behind the first `k`. */
  ghost function DoneSince(events: seq<Event>, k: nat, action: Action): seq<Life>
    requires k <= |events|
  {
    if |events| == k then []
    else
      var n := |events| - 1;
      DoneSince(events[..n], k, action) + if events[n].Ticks? then ChosenLives(Watched(events[..n]), events[n].sendable, action) else []
  }

  lemma {:induction false} DoneSplits(events: seq<Event>, k: nat, action: Action)
    requires k <= |events|
    ensures Done(events, action) == Done(events[..k], action) + DoneSince(events, k, action)
  {
    hide ChosenLives, Watched;
    if k == |events| {
      assert events[..k] == events;
    } else {
      var n := |events| - 1;
      DoneSplits(events[..n], k, action);
      assert events[..n][..k] == events[..k];
    }
  }

  lemma {:induction false} SilentFrom(events: seq<Event>, more: seq<Event>, index: u16, action: Action)
    requires AllGivenUp(Watched(events), index) && NoneOf(more, index) && action != Wait
    ensures AllGivenUp(Watched(events + more), index) && Silent(DoneSince(events + more, |events|, action), index)
  {
    hide Stopped, ChosenLives, NodeOf, AllGivenUp, Aged;
    if more == [] {
      assert events + more == events;
    } else {
      var m := |more| - 1;
      var before := events + more[..m];
      assert events + more == before + [more[m]];
      OneMore(before, more[m]);
      SilentFrom(events, more[..m], index, action);
      match more[m]
      case Sends(i, cmd, ok) =>
        assert more[m] in more;
        OneOther(Life(|before|, i, cmd, []), Watched(before), index);
      case Ticks(ok) => GivenUpTick(Watched(before), ok, action, index);
      case Acks(stop) =>
        WatchedAreLatest(before);
        GivenUpStop(Watched(before), |before|, stop, index);
    }
  }

  lemma {:induction false} OneOther(x: Life, xs: seq<Life>, index: u16)
    requires AllGivenUp(xs, index) && x.index != index
    ensures AllGivenUp([x] + xs, index)
  {}

  /** After an acknowledgement, once 57 ticks have passed without another one of that index and
      without a new packet of it: nothing of the index has been sent again or reported since if and
      only if each packet that is still watched under it had been given up before. */
  lemma {:induction false} SilentOnceAcked(events: seq<Event>, index: u16, more: seq<Event>)
    requires NoneOf(more, index) && NoAcksOf(more, index) && TicksIn(more) >= 57
    ensures var acked := events + [Acks(index)];
      Silent(DoneSince(acked + more, |acked|, Send), index) && Silent(DoneSince(acked + more, |acked|, Report), index)
      <==> AllGivenUp(Watched(acked), index)
  {
    hide Watched, DoneSince, NodeOf, Silent, NoneOf, NoAcksOf, TicksIn;
    var acked := events + [Acks(index)];
    if AllGivenUp(Watched(acked), index) {
      SilentFrom(acked, more, index, Send);
      SilentFrom(acked, more, index, Report);
    } else {
      var i :| 0 <= i < |Watched(acked)| && Watched(acked)[i].index == index && NodeOf(Watched(acked)[i]).countdown != -1;
      ReportedSince(acked, more, Watched(acked)[i]);
    }
  }

  lemma {:induction false} ReportedSince(events: seq<Event>, more: seq<Event>, x: Life)
    requires x in Watched(events) && NodeOf(x).countdown != -1 && NoAcksOf(more, x.index) && TicksIn(more) >= 57
    ensures !Silent(DoneSince(events + more, |events|, Report), x.index)
  {
    hide Watched, NodeOf, Done, DoneSince, TimesOf, Silent;
    var all := events + more;
    var y := StaysWatched(events, more, x);
    ReportedOnce(events, x);
    ReportedOnce(all, y);
    MoreTicks(events, more, x.id + 1);
    DoneSplits(all, |events|, Report);
    assert all[..|events|] == events;
    TimesJoin(Done(events, Report), DoneSince(all, |events|, Report), x.id);
    DoneHasIndex(all, |events|, Report, x);
  }

  lemma {:induction false} MoreTicks(events: seq<Event>, more: seq<Event>, k: nat)
    requires k <= |events|
    ensures TicksIn((events + more)[k..]) >= TicksIn(more)
  {
    assert (events + more)[k..] == events[k..] + more;
    TicksJoin(events[k..], more);
  }

  lemma {:induction false} TicksJoin(a: seq<Event>, b: seq<Event>)
    ensures TicksIn(a + b) == TicksIn(a) + TicksIn(b)
  {
    if b == [] {
      assert a + b == a;
    } else {
      assert (a + b)[..|a| + |b| - 1] == a + b[..|b| - 1];
      TicksJoin(a, b[..|b| - 1]);
    }
  }

  lemma {:induction false} TimesMean(done: seq<Life>, id: nat) returns (x: Life)
    requires TimesOf(done, id) != []
    ensures x in done && x.id == id
  {
    var last := done[|done| - 1];
    if last.id == id {
      x := last;
    } else {
      x := TimesMean(done[..|done| - 1], id);
    }
  }

  lemma {:induction false} DoneHasIndex(events: seq<Event>, k: nat, action: Action, x: Life)
    requires k <= |events| && x.id < |events| && events[x.id] == Sends(x.index, x.cmd, true)
    requires TimesOf(DoneSince(events, k, action), x.id) != []
    ensures !Silent(DoneSince(events, k, action), x.index)
  {
    hide Watched, TimesOf;
    var z := TimesMean(DoneSince(events, k, action), x.id);
    DoneWereSent(events, k, action, z);
  }

  lemma {:induction false} DoneWereSent(events: seq<Event>, k: nat, action: Action, z: Life)
    requires k <= |events| && z in DoneSince(events, k, action)
    ensures z.id < |events| && events[z.id] == Sends(z.index, z.cmd, true)
  {
    hide Watched, ChosenLives;
    var n := |events| - 1;
    if z in DoneSince(events[..n], k, action) {
      DoneWereSent(events[..n], k, action, z);
    } else {
      var xs := Watched(events[..n]);
      ChosenIn(xs, events[n].sendable, action);
      var i :| 0 <= i < |xs| && xs[i] == z;
      WatchedAreTold(events[..n], i);
    }
  }

  // ---- a reply of two pages

  const ALWAYS: nat -> bool := (i: nat) => true

  /** Two pages go out under the index of the query and the first is acknowledged: the second is
      forgotten, and the first is sent again at its second tick. */
  lemma {:induction false} TwoPages(index: u16, one: seq<byte>, two: seq<byte>)
    ensures var events := [Sends(index, one, true), Sends(index, two, true), Acks(index)];
      && Watched(events) == [Life(0, index, one, [])]
      && Done(events + [Ticks(ALWAYS), Ticks(ALWAYS)], Send) == [Life(0, index, one, [true])]
  {
    var a, b := Life(0, index, one, []), Life(1, index, two, []);
    var events := [Sends(index, one, true), Sends(index, two, true), Acks(index)];
    assert events[..2][..1] == events[..1] && events[..1][..0] == [];
    assert Watched(events[..1]) == [a];
    assert Watched(events[..2]) == [b, a];
    assert Watched(events) == [b, a][1..];
    assert Done([], Send) == [];
    assert Done(events[..1], Send) == [];
    assert Done(events[..2], Send) == [];
    assert Done(events, Send) == [];
    var tick := Ticks(ALWAYS);
    OneMore(events, tick);
    OneMore(events + [tick], tick);
    assert events + [tick] + [tick] == events + [tick, tick];
    FirstTick(a);
    assert Watched(events + [tick]) == Aged([a], ALWAYS);
    assert Done(events + [tick], Send) == Done(events, Send) + ChosenLives([a], ALWAYS, Send);
  }

  /** Its first tick counts a new packet down, and its second sends it again. */
  lemma {:induction false} FirstTick(a: Life)
    requires a.oks == []
    ensures Aged([a], ALWAYS) == [a.(oks := [true])]
    ensures ChosenLives([a], ALWAYS, Send) == [] && ChosenLives([a.(oks := [true])], ALWAYS, Send) == [a.(oks := [true])]
  {
    hide ActionOf, Ticked;
    var b := a.(oks := [true]);
    assert Aged([a], ALWAYS)[0] == b;
    OneChosen(a, ALWAYS, Send);
    OneChosen(b, ALWAYS, Send);
    TwoTicks(a);
  }

  lemma {:induction false} OneChosen(x: Life, ok: nat -> bool, action: Action)
    ensures ChosenLives([x], ok, action) == if ActionOf(NodeOf(x), ok(0)) == action then [x] else []
  {
    assert [x][..0] == [] && ChosenLives([], ok, action) == [];
  }

  lemma {:induction false} TwoTicks(a: Life)
    requires a.oks == []
    ensures ActionOf(NodeOf(a), true) == Wait && ActionOf(NodeOf(a.(oks := [true])), true) == Send
  {
    var f := Fresh(a.index, a.cmd);
    assert [true][..0] == [];
    assert After(f, []) == f;
    assert After(f, [true]) == Ticked(f, true);
  }
}
