/** Retransmission of unacknowledged packets (src/client/retx.c, src/client/packet_list.c). */
module Retx {
  import opened Common
  import opened Memory
  import opened DoublyLinked

  const MAX_RETX := 6

  /** A packet waiting for its acknowledgement; `countdown` is -1 once it is given up. */
  datatype Node = Node(index: u16, cmd: seq<byte>, nretx: nat, countdown: int, errors: nat)

  /** What a tick does with a packet. */
  datatype Action = Wait | Send | SendError | Report

  function Fresh(index: u16, cmd: seq<byte>): Node {
    Node(index, cmd, 1, 1, 0)
  }

  function ActionOf(n: Node, ok: bool): Action {
    if n.countdown != 0 then Wait
    else if n.nretx == MAX_RETX || n.errors == MAX_RETX then Report
    else if ok then Send
    else SendError
  }

  function Ticked(n: Node, ok: bool): Node {
    match ActionOf(n, ok)
    case Wait => if n.countdown > 0 then n.(countdown := n.countdown - 1) else n
    case Report => n.(countdown := -1)
    case SendError => n.(countdown := n.nretx, errors := n.errors + 1)
    case Send => n.(nretx := n.nretx + 1, countdown := n.nretx + 1)
  }

  /** The body of the loop of `retx_func`; `ok` is whether `send_packet` succeeds. */
  method TickNode(n: Node, ok: bool) returns (action: Action, r: Node)
    ensures action == ActionOf(n, ok) && r == Ticked(n, ok) && r.cmd == n.cmd
  {
    action, r := Wait, n;
    if n.countdown > 0 {
      r := r.(countdown := r.countdown - 1);
    } else if n.countdown == 0 {
      if n.nretx == MAX_RETX || n.errors == MAX_RETX {
        return Report, r.(countdown := -1);
      }
      if !ok {
        return SendError, r.(countdown := r.nretx, errors := r.errors + 1);
      }
      r := r.(nretx := r.nretx + 1);
      r := r.(countdown := r.nretx);
      action := Send;
    }
  }

  // ---- the life of one packet

  /** The packet after one tick per element of `oks`: whether sending would succeed. */
  function After(n: Node, oks: seq<bool>): Node {
    if oks == [] then n else Ticked(After(n, oks[..|oks| - 1]), oks[|oks| - 1])
  }

  /** The ticks, counted from 1, at which the packet gets `action`. */
  function When(n: Node, oks: seq<bool>, action: Action): (t: seq<nat>)
  {
    if oks == [] then []
    else
      var rest := oks[..|oks| - 1];
      When(n, rest, action) + if ActionOf(After(n, rest), oks[|oks| - 1]) == action then [|oks|] else []
  }

  /** The tick of the next attempt if no send has failed. */
  function Due(nretx: nat): nat {
    match nretx
    case 1 => 2
    case 2 => 5
    case 3 => 9
    case 4 => 14
    case 5 => 20
    case _ => 27
  }

  /** What a failed send costs at most, up to that attempt. */
  function Delay(nretx: nat): nat {
    if nretx >= 5 then 6 else nretx + 1
  }

  /** Where a packet can be after `t` ticks: every failure so far has cost 2 to `Delay` ticks. */
  ghost predicate OnTime(n: Node, t: nat) {
    && 1 <= n.nretx <= 6 && n.errors <= 6 && n.countdown >= -1 && (n.errors == 6 ==> n.nretx <= 5)
    && (n.countdown >= 0 ==> Due(n.nretx) + 2 * n.errors <= t + n.countdown + 1 <= Due(n.nretx) + Delay(n.nretx) * n.errors)
    && (n.countdown == -1 ==> n.nretx == 6 || n.errors == 6)
  }

  lemma TickOnTime(n: Node, t: nat, ok: bool)
    requires OnTime(n, t)
    ensures OnTime(Ticked(n, ok), t + 1)
    ensures ActionOf(n, ok) == Report ==> 14 <= t + 1 <= 57 && (n.errors == 0 ==> t + 1 == 27)
  {
    if n.nretx == 1 {
    } else if n.nretx == 2 {
    } else if n.nretx == 3 {
    } else if n.nretx == 4 {
    } else if n.nretx == 5 {
    } else {
    }
  }

  lemma {:induction false} StaysOnTime(index: u16, cmd: seq<byte>, oks: seq<bool>)
    ensures OnTime(After(Fresh(index, cmd), oks), |oks|)
  {
    if oks != [] {
      hide OnTime;
      var rest := oks[..|oks| - 1];
      StaysOnTime(index, cmd, rest);
      TickOnTime(After(Fresh(index, cmd), rest), |rest|, oks[|oks| - 1]);
    }
  }

  /** An unacknowledged packet is reported once: at tick 27 exactly if no send fails, and
      between ticks 14 and 57 in any case; it is sent again at most five times. */
  lemma {:induction false} GivenUpOnce(index: u16, cmd: seq<byte>, oks: seq<bool>)
    ensures var n := After(Fresh(index, cmd), oks);
      var reports := When(Fresh(index, cmd), oks, Report);
      && OnTime(n, |oks|)
      && |reports| == (if n.countdown == -1 then 1 else 0)
      && (forall t :: t in reports ==> 14 <= t <= 57)
      && |When(Fresh(index, cmd), oks, Send)| == n.nretx - 1 <= 5
      && |When(Fresh(index, cmd), oks, SendError)| == n.errors <= 6
      && (|oks| >= 57 ==> |reports| == 1)
      && (|oks| < 14 ==> |reports| == 0)
      && (n.errors == 0 ==> reports == if |oks| < 27 then [] else [27])
  {
    hide OnTime;
    FreshOnTime(index, cmd);
    if oks != [] {
      var rest, ok := oks[..|oks| - 1], oks[|oks| - 1];
      GivenUpOnce(index, cmd, rest);
      TickOnTime(After(Fresh(index, cmd), rest), |rest|, ok);
    }
    OnTimeFacts(After(Fresh(index, cmd), oks), |oks|);
  }

  lemma FreshOnTime(index: u16, cmd: seq<byte>)
    ensures OnTime(Fresh(index, cmd), 0)
  {}

  /** When a packet must have been given up, and when it cannot have been. */
  lemma OnTimeFacts(n: Node, t: nat)
    requires OnTime(n, t)
    ensures 1 <= n.nretx <= 6 && n.errors <= 6 && n.countdown >= -1
    ensures t >= 57 ==> n.countdown == -1
    ensures n.errors == 0 && n.countdown >= 0 ==> t < 27
  {}

  /** A send fails only when it is tried and fails. */
  lemma {:induction false} NoErrors(n: Node, oks: seq<bool>)
    requires forall i :: 0 <= i < |oks| ==> oks[i]
    ensures After(n, oks).errors == n.errors
  {
    if oks != [] {
      NoErrors(n, oks[..|oks| - 1]);
    }
  }

  /** The schedule without failures, and after it: five sends, then the report, then silence. */
  lemma {:induction false} Schedule(index: u16, cmd: seq<byte>, oks: seq<bool>)
    requires |oks| >= 27 && forall i :: 0 <= i < |oks| ==> oks[i]
    ensures When(Fresh(index, cmd), oks, Send) == [2, 5, 9, 14, 20]
    ensures When(Fresh(index, cmd), oks, Report) == [27]
  {
    NoErrors(Fresh(index, cmd), oks);
    GivenUpOnce(index, cmd, oks);
    SendsOnTime(index, cmd, oks);
  }

  lemma {:induction false} SendsOnTime(index: u16, cmd: seq<byte>, oks: seq<bool>)
    requires forall i :: 0 <= i < |oks| ==> oks[i]
    ensures (StaysOnTime(index, cmd, oks); When(Fresh(index, cmd), oks, Send) == [2, 5, 9, 14, 20][..After(Fresh(index, cmd), oks).nretx - 1])
    ensures |oks| >= 27 ==> After(Fresh(index, cmd), oks).nretx == 6
  {
    hide OnTime, ActionOf, Ticked, Due;
    var f := Fresh(index, cmd);
    NoErrors(f, oks);
    StaysOnTime(index, cmd, oks);
    OnTimeFacts(After(f, oks), |oks|);
    if oks != [] {
      var rest := oks[..|oks| - 1];
      NoErrors(f, rest);
      StaysOnTime(index, cmd, rest);
      SendsOnTime(index, cmd, rest);
      SendWhenDue(After(f, rest), |rest|);
    }
    if |oks| >= 27 {
      AllTicksSend(After(f, oks), |oks|);
    }
  }

  /** Without failures a send comes exactly when it is due. */
  lemma SendWhenDue(n: Node, t: nat)
    requires OnTime(n, t) && n.errors == 0
    ensures if ActionOf(n, true) == Send
            then Ticked(n, true).nretx == n.nretx + 1 <= 6 && [2, 5, 9, 14, 20][..n.nretx] == [2, 5, 9, 14, 20][..n.nretx - 1] + [t + 1]
            else Ticked(n, true).nretx == n.nretx
  {}

  lemma AllTicksSend(n: Node, t: nat)
    requires OnTime(n, t) && n.errors == 0 && t >= 27
    ensures n.nretx == 6
  {}

  // ---- the exact ticks

  /** What happens to a new packet at tick `t`, counted from 1. */
  function ActionAt(index: u16, cmd: seq<byte>, oks: seq<bool>, t: nat): Action
    requires 1 <= t <= |oks|
  {
    ActionOf(After(Fresh(index, cmd), oks[..t - 1]), oks[t - 1])
  }

  /** How often the packet has been sent before tick `t`: once at first, and then again. */
  function SentBefore(index: u16, cmd: seq<byte>, oks: seq<bool>, t: nat): nat
    requires 1 <= t <= |oks|
  {
    1 + |When(Fresh(index, cmd), oks[..t - 1], Send)|
  }

  lemma {:induction false} SentIsNretx(index: u16, cmd: seq<byte>, oks: seq<bool>)
    ensures After(Fresh(index, cmd), oks).nretx == 1 + |When(Fresh(index, cmd), oks, Send)|
  {
    if oks != [] {
      SentIsNretx(index, cmd, oks[..|oks| - 1]);
    }
  }

  /** A packet that counts down is left alone for as many ticks as it says. */
  lemma {:induction false} CountsDown(n: Node, more: seq<bool>)
    requires n.countdown >= |more|
    ensures After(n, more) == n.(countdown := n.countdown - |more|)
  {
    if more != [] {
      CountsDown(n, more[..|more| - 1]);
    }
  }

  lemma {:induction false} AfterParts(n: Node, a: seq<bool>, b: seq<bool>)
    ensures After(n, a + b) == After(After(n, a), b)
  {
    if b == [] {
      assert a + b == a;
    } else {
      assert (a + b)[..|a| + |b| - 1] == a + b[..|b| - 1];
      AfterParts(n, a, b[..|b| - 1]);
    }
  }

  lemma {:induction false} NextTry(index: u16, cmd: seq<byte>, oks: seq<bool>, t: nat, i: nat)
    requires t < i <= |oks|
    ensures var n := After(Fresh(index, cmd), oks[..t]);
      && (i <= t + n.countdown ==> ActionAt(index, cmd, oks, i) == Wait)
      && (i == t + n.countdown + 1 ==> ActionAt(index, cmd, oks, i) != Wait)
  {
    var f := Fresh(index, cmd);
    var n := After(f, oks[..t]);
    if i <= t + n.countdown + 1 {
      assert oks[..i - 1] == oks[..t] + oks[t..i - 1];
      AfterParts(f, oks[..t], oks[t..i - 1]);
      CountsDown(n, oks[t..i - 1]);
    }
  }

  /** The first attempt to send a packet again is at tick 2. If the attempt at tick `t` fails, after
      the packet has been sent `n` times, the next attempt is at `t + n + 1`; if it succeeds, at
      `t + n + 2`. In between nothing happens. */
  lemma {:induction false} AttemptsAre(index: u16, cmd: seq<byte>, oks: seq<bool>, t: nat, i: nat)
    requires t < i <= |oks|
    ensures t == 0 ==> (i < 2 ==> ActionAt(index, cmd, oks, i) == Wait) && (i == 2 ==> ActionAt(index, cmd, oks, i) != Wait)
    ensures t > 0 && ActionAt(index, cmd, oks, t) == SendError ==>
      var n := SentBefore(index, cmd, oks, t);
      && (i < t + n + 1 ==> ActionAt(index, cmd, oks, i) == Wait)
      && (i == t + n + 1 ==> ActionAt(index, cmd, oks, i) != Wait)
    ensures t > 0 && ActionAt(index, cmd, oks, t) == Send ==>
      var n := SentBefore(index, cmd, oks, t);
      && (i < t + n + 2 ==> ActionAt(index, cmd, oks, i) == Wait)
      && (i == t + n + 2 ==> ActionAt(index, cmd, oks, i) != Wait)
    ensures t > 0 && ActionAt(index, cmd, oks, t) == Report ==> ActionAt(index, cmd, oks, i) == Wait
  {
    NextTry(index, cmd, oks, t, i);
    if t == 0 {
      assert oks[..0] == [];
    } else {
      assert oks[..t][..t - 1] == oks[..t - 1];
      SentIsNretx(index, cmd, oks[..t - 1]);
      if ActionAt(index, cmd, oks, t) == Report {
        assert oks[..i - 1] == oks[..t] + oks[t..i - 1];
        AfterParts(Fresh(index, cmd), oks[..t], oks[t..i - 1]);
        StaysGivenUp(After(Fresh(index, cmd), oks[..t]), oks[t..i - 1]);
      }
    }
  }

  lemma {:induction false} StaysGivenUp(n: Node, more: seq<bool>)
    requires n.countdown == -1
    ensures After(n, more).countdown == -1
  {
    if more != [] {
      StaysGivenUp(n, more[..|more| - 1]);
    }
  }

  /** What the failures have cost: one tick more than the packet had been sent, each. */
  function Cost(index: u16, cmd: seq<byte>, oks: seq<bool>): nat {
    if oks == [] then 0
    else
      Cost(index, cmd, oks[..|oks| - 1]) +
      if ActionAt(index, cmd, oks, |oks|) == SendError then SentBefore(index, cmd, oks, |oks|) + 1 else 0
  }

  lemma {:induction false} DueExactly(index: u16, cmd: seq<byte>, oks: seq<bool>)
    ensures var n := After(Fresh(index, cmd), oks);
      && OnTime(n, |oks|)
      && (n.countdown >= 0 ==> |oks| + n.countdown + 1 == Due(n.nretx) + Cost(index, cmd, oks))
    ensures forall r :: r in When(Fresh(index, cmd), oks, Report) ==>
      r == Due(After(Fresh(index, cmd), oks).nretx) + Cost(index, cmd, oks)
  {
    StaysOnTime(index, cmd, oks);
    if oks != [] {
      hide Due, OnTime;
      var rest := oks[..|oks| - 1];
      DueExactly(index, cmd, rest);
      GivenUpOnce(index, cmd, rest);
      SentIsNretx(index, cmd, rest);
      var n := After(Fresh(index, cmd), rest);
      DueNext(n.nretx);
      OnTimeFacts(n, |rest|);
    } else {
      assert Due(1) == 2;
    }
  }

  lemma {:induction false} DueNext(nretx: nat)
    ensures 1 <= nretx < 6 ==> Due(nretx + 1) == Due(nretx) + nretx + 2
  {}

  /** The exact tick of the report: 27 and what the failures have cost, if the packet was sent six
      times; if six sends failed before that, the tick at which it was due for the next one. */
  lemma {:induction false} ReportedAt(index: u16, cmd: seq<byte>, oks: seq<bool>, r: nat)
    requires r in When(Fresh(index, cmd), oks, Report)
    ensures var sent := 1 + |When(Fresh(index, cmd), oks, Send)|;
      && 1 <= sent <= 6 && (sent == 6 || |When(Fresh(index, cmd), oks, SendError)| == 6)
      && r == [2, 5, 9, 14, 20, 27][sent - 1] + Cost(index, cmd, oks)
  {
    DueExactly(index, cmd, oks);
    SentIsNretx(index, cmd, oks);
    GivenUpOnce(index, cmd, oks);
    StaysOnTime(index, cmd, oks);
    assert When(Fresh(index, cmd), oks, Report) != [];
  }

  // ---- all packets

  /** Each packet ticks for itself; `ok(i)` is whether sending number `i` would succeed. */
  ghost function TickedAll(ps: seq<Node>, ok: nat -> bool): (r: seq<Node>)
    ensures |r| == |ps| && forall i :: 0 <= i < |r| ==> r[i] == Ticked(ps[i], ok(i))
  {
    seq(|ps|, i requires 0 <= i < |ps| => Ticked(ps[i], ok(i)))
  }

  /** The first `i` packets have ticked. */
  ghost predicate Ticking(all: seq<Node>, ps: seq<Node>, ok: nat -> bool, i: nat) {
    |all| == |ps| && forall j :: 0 <= j < |ps| ==> ps[j] == if j < i then Ticked(all[j], ok(j)) else all[j]
  }

  lemma TickingStarts(all: seq<Node>, ok: nat -> bool)
    ensures Ticking(all, all, ok, 0)
  {}

  lemma TickedNext(all: seq<Node>, ps: seq<Node>, ok: nat -> bool, i: nat)
    requires Ticking(all, ps, ok, i) && i < |ps|
    ensures ps[i] == all[i] && Ticking(all, ps[i := Ticked(all[i], ok(i))], ok, i + 1)
  {}

  lemma TickingEnds(all: seq<Node>, ps: seq<Node>, ok: nat -> bool, i: nat)
    requires Ticking(all, ps, ok, i) && i == |ps|
    ensures ps == TickedAll(all, ok)
  {}

  /** The packets that get `action`, in list order. */
  ghost function Chosen(ps: seq<Node>, ok: nat -> bool, action: Action): seq<Node> {
    if ps == [] then []
    else
      var i := |ps| - 1;
      Chosen(ps[..i], ok, action) + if ActionOf(ps[i], ok(i)) == action then [ps[i]] else []
  }

  lemma ChosenNext(ps: seq<Node>, ok: nat -> bool, action: Action, i: nat)
    requires i < |ps|
    ensures Chosen(ps[..i + 1], ok, action) == if ActionOf(ps[i], ok(i)) == action then Chosen(ps[..i], ok, action) + [ps[i]] else Chosen(ps[..i], ok, action)
    ensures Chosen(ps[..0], ok, action) == []
  {
    assert ps[..i + 1][..i] == ps[..i];
  }

  lemma {:induction false} ChosenAreListed(ps: seq<Node>, ok: nat -> bool, action: Action)
    ensures forall n :: n in Chosen(ps, ok, action) ==> n in ps
  {
    if ps != [] {
      ChosenAreListed(ps[..|ps| - 1], ok, action);
    }
  }

  ghost function Cmds(ps: seq<Node>): (r: seq<seq<byte>>)
    ensures |r| == |ps| && forall i :: 0 <= i < |r| ==> r[i] == ps[i].cmd
  {
    seq(|ps|, i requires 0 <= i < |ps| => ps[i].cmd)
  }

  lemma NoCmds(ps: seq<Node>, ok: nat -> bool)
    ensures Chosen(ps[..0], ok, Send) == [] && Cmds(Chosen(ps[..0], ok, Report)) == []
  {}

  lemma NextCmd(ps: seq<Node>, n: Node)
    ensures Cmds(ps + [n]) == Cmds(ps) + [n.cmd]
  {}

  /** Number `k` is the first packet with that index. */
  ghost predicate IsFirst(ps: seq<Node>, index: u16, k: nat) {
    k < |ps| && ps[k].index == index && forall i :: 0 <= i < k ==> ps[i].index != index
  }

  class PacketList {
    var nodes: Pool<Node>
    var head: Ptr
    var packetCount: int
    ghost var s: seq<Ptr>
    ghost var packets: seq<Node>

    ghost predicate Valid()
      reads this
    {
      IsList(nodes, head, s, packets) && |s| == |packets| == packetCount
    }

    constructor ()
      ensures Valid() && packets == []
    {
      nodes, head, packetCount := map[], NULL, 0;
      s, packets := [], [];
      EmptyList<Node>();
    }

    /** `retx_send`: only a packet that has been sent is watched. */
    method RetxSend(index: u16, cmd: seq<byte>, ok: bool)
      requires Valid()
      modifies this
      ensures Valid() && packets == if ok then [Fresh(index, cmd)] + old(packets) else old(packets)
    {
      hide IsList;
      if !ok {
        return;
      }
      ListFacts(nodes, head, s, packets);
      if head == NULL {
        packetCount := 0;
      }
      nodes, head := InsertNode(nodes, head, Fresh(index, cmd), s, packets);
      s, packets := [head] + s, [Fresh(index, cmd)] + packets;
      packetCount := packetCount + 1;
    }

    /** One pass of `retx_func`. */
    method Tick(ok: nat -> bool) returns (sent: seq<Node>, reports: seq<seq<byte>>)
      requires Valid()
      modifies `nodes, `packets
      ensures Valid() && packets == TickedAll(old(packets), ok)
      ensures sent == Chosen(old(packets), ok, Send)
      ensures reports == Cmds(Chosen(old(packets), ok, Report))
    {
      hide IsList, Chosen, Cmds, TickedAll, Ticked, ActionOf, Ticking;
      ghost var all := packets;
      ListFacts(nodes, head, s, packets);
      sent, reports := [], [];
      NoCmds(all, ok);
      TickingStarts(all, ok);
      var it := head;
      var i: nat := 0;
      while it != NULL
        invariant i <= |s| && it == First(s[i..]) && (it == NULL <==> i == |s|)
        invariant Valid() && |packets| == |all|
        invariant Ticking(all, packets, ok, i)
        invariant sent == Chosen(all[..i], ok, Send) && reports == Cmds(Chosen(all[..i], ok, Report))
        decreases |s| - i
      {
        NodeFacts(nodes, head, s, packets, i);
        ChosenNext(all, ok, Send, i);
        ChosenNext(all, ok, Report, i);
        NextCmd(Chosen(all[..i], ok, Report), all[i]);
        TickedNext(all, packets, ok, i);
        var next := nodes[it].next;
        var action, n := TickNode(nodes[it].data, ok(i));
        if action == Report {
          reports := reports + [n.cmd];
        } else if action == Send {
          sent := sent + [nodes[it].data];
        }
        DataWritten(nodes, head, s, packets, i, n);
        nodes := SetData(nodes, it, n);
        packets := packets[i := n];
        it, i := next, i + 1;
      }
      assert all[..i] == all;
      TickingEnds(all, packets, ok, i);
    }

    /** `get_packet_node`: the first packet with that index. */
    method GetPacketNode(index: u16) returns (node: Ptr, ghost k: nat)
      requires Valid()
      ensures if node == NULL then forall i :: 0 <= i < |packets| ==> packets[i].index != index
              else k < |s| && node == s[k] && IsFirst(packets, index, k)
      ensures node == NULL <==> forall i :: 0 <= i < |packets| ==> packets[i].index != index
      ensures node != NULL ==> node in nodes && nodes[node].data.index == index
    {
      hide IsList;
      ListFacts(nodes, head, s, packets);
      node, k := head, 0;
      while node != NULL
        invariant k <= |s| && node == First(s[k..]) && (node == NULL <==> k == |s|)
        invariant forall i :: 0 <= i < k ==> packets[i].index != index
        decreases |s| - k
      {
        NodeFacts(nodes, head, s, packets, k);
        if nodes[node].data.index == index {
          return;
        }
        node, k := nodes[node].next, k + 1;
      }
    }

    /** `retx_stop`: an acknowledgement came in. */
    method RetxStop(index: u16) returns (cmd: Option<seq<byte>>)
      requires Valid()
      modifies this
      ensures Valid()
      ensures cmd == None ==> packets == old(packets) && forall i :: 0 <= i < |packets| ==> packets[i].index != index
      ensures cmd != None ==>
        exists k: nat :: IsFirst(old(packets), index, k) && packets == Without(old(packets), k) && cmd.value == old(packets)[k].cmd
    {
      hide IsList;
      var node, k := GetPacketNode(index);
      if node == NULL {
        return None;
      }
      ListFacts(nodes, head, s, packets);
      NodeFacts(nodes, head, s, packets, k);
      cmd := Some(nodes[node].data.cmd);
      nodes, head := RemoveNode(nodes, head, node, s, packets, k);
      s, packets := Without(s, k), Without(packets, k);
      packetCount := packetCount - 1;
    }
  }

  // ---- after an acknowledgement

  ghost predicate AtMostOne(ps: seq<Node>, index: u16) {
    forall i, j :: 0 <= i < j < |ps| ==> ps[i].index != index || ps[j].index != index
  }

  ghost predicate Unlisted(ps: seq<Node>, index: u16) {
    forall i :: 0 <= i < |ps| ==> ps[i].index != index
  }

  lemma {:induction false} FirstWasOnly(ps: seq<Node>, index: u16, k: nat)
    requires IsFirst(ps, index, k)
    ensures Unlisted(Without(ps, k), index) <==> AtMostOne(ps, index)
  {
    var rest := Without(ps, k);
    forall j | k < j < |ps|
      ensures rest[j - 1] == ps[j]
    {}
    if AtMostOne(ps, index) {
      forall i | 0 <= i < |rest|
        ensures rest[i].index != index
      {
        assert rest[i] == if i < k then ps[i] else ps[i + 1];
      }
    }
  }

  lemma {:induction false} TickKeepsIndices(ps: seq<Node>, ok: nat -> bool, index: u16)
    ensures Unlisted(TickedAll(ps, ok), index) <==> Unlisted(ps, index)
  {
    var qs := TickedAll(ps, ok);
    assert forall i :: 0 <= i < |ps| ==> qs[i].index == ps[i].index;
  }

  lemma {:induction false} UnlistedIsNotSent(ps: seq<Node>, ok: nat -> bool, index: u16)
    requires Unlisted(ps, index)
    ensures forall n :: n in Chosen(ps, ok, Send) || n in Chosen(ps, ok, Report) ==> n.index != index
  {
    ChosenAreListed(ps, ok, Send);
    ChosenAreListed(ps, ok, Report);
  }

  /** After an acknowledgement nothing is watched under its index if and only if at most one packet
      was; and then none is ever sent again, whatever happens to the others. */
  method SilentOnceStopped(l: PacketList, index: u16, ticks: seq<nat -> bool>) returns (sent: seq<Node>)
    requires l.Valid()
    modifies l
    ensures l.Valid() && (Unlisted(l.packets, index) <==> AtMostOne(old(l.packets), index))
    ensures AtMostOne(old(l.packets), index) ==> forall n :: n in sent ==> n.index != index
  {
    hide IsList, Unlisted, AtMostOne, Without, Chosen, TickedAll, Cmds;
    ghost var was := l.packets;
    var cmd := l.RetxStop(index);
    if cmd == None {
      StillNone(was, index);
    } else {
      ghost var k: nat :| IsFirst(was, index, k) && l.packets == Without(was, k);
      FirstWasOnly(was, index, k);
    }
    sent := [];
    for t := 0 to |ticks|
      invariant l.Valid() && (Unlisted(l.packets, index) <==> AtMostOne(was, index))
      invariant AtMostOne(was, index) ==> forall n :: n in sent ==> n.index != index
    {
      TickKeepsIndices(l.packets, ticks[t], index);
      if AtMostOne(was, index) {
        UnlistedIsNotSent(l.packets, ticks[t], index);
      }
      var now, _ := l.Tick(ticks[t]);
      sent := sent + now;
    }
  }

  lemma {:induction false} StillNone(ps: seq<Node>, index: u16)
    requires forall i :: 0 <= i < |ps| ==> ps[i].index != index
    ensures Unlisted(ps, index) && AtMostOne(ps, index)
  {}
}
