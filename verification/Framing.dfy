/** Packets on a TCP stream (src/common/packet_util.c) over `readn` and `writen`
    (src/common/ioutil.c), whatever the single reads and writes return. */
module Framing {
  import opened Common
  import opened Bytes

  const HEADER_SIZE := 10

  /** `short`. */
  type i16 = x: int | -0x8000 <= x < 0x8000

  datatype Packet = Packet(cmd: seq<byte>, flag: byte, index: u16, ttl: i16, data: seq<byte>)

  /** `cmd` is CMD_STR_LEN octets; the data fits its array. */
  predicate GoodPacket(p: Packet) {
    |p.cmd| == 3 && |p.data| <= MAX_PACKET_DATA_LEN
  }

  function ToUnsigned(x: i16): (u: u16) {
    if x < 0 then x + 0x1_0000 else x
  }

  function ToSigned(u: u16): (x: i16)
    ensures ToUnsigned(x) == u
  {
    if u < 0x8000 then u else u - 0x1_0000
  }

  // ---- one packet

  function Header(p: Packet): (b: seq<byte>)
    requires GoodPacket(p)
    ensures |b| == HEADER_SIZE
  {
    p.cmd + [p.flag] + Stob(p.index) + Stob(ToUnsigned(p.ttl)) + Stob(|p.data|)
  }

  function Octets(p: Packet): (b: seq<byte>)
    requires GoodPacket(p)
    ensures |b| == HEADER_SIZE + |p.data|
  {
    Header(p) + p.data
  }

  /** `pck_to_b`, field by field at a moving offset. */
  method PckToB(p: Packet) returns (str: seq<byte>)
    requires GoodPacket(p)
    ensures str == Octets(p)
    ensures forall q :: GoodPacket(q) && Octets(q) <= str ==> q == p
  {
    forall q | GoodPacket(q) && Octets(q) <= Octets(p)
      ensures q == p
    {
      OctetsTell(p, q);
    }
    str := p.cmd;
    str := str + [p.flag];
    str := str + Stob(p.index);
    str := str + Stob(ToUnsigned(p.ttl));
    str := str + Stob(|p.data|);
    str := str + p.data;
  }

  /** `b_to_header`. */
  method BToHeader(buf: seq<byte>) returns (cmd: seq<byte>, flag: byte, index: u16, ttl: i16, dataLen: u16)
    requires |buf| >= HEADER_SIZE
    ensures forall p :: GoodPacket(p) && buf[..HEADER_SIZE] == Header(p) ==>
      cmd == p.cmd && flag == p.flag && index == p.index && ttl == p.ttl && dataLen == |p.data|
  {
    hide Stob, Btos;
    var offset := 3;
    cmd := buf[..offset];
    flag := buf[offset];
    offset := offset + 1;
    index := Btos(buf[offset..offset + 2]);
    offset := offset + 2;
    ttl := ToSigned(Btos(buf[offset..offset + 2]));
    offset := offset + 2;
    dataLen := Btos(buf[offset..offset + 2]);
    forall p | GoodPacket(p) && buf[..HEADER_SIZE] == Header(p)
      ensures cmd == p.cmd && flag == p.flag && index == p.index && ttl == p.ttl && dataLen == |p.data|
    {
      HeaderFields(buf, p);
    }
  }

  lemma HeaderFields(buf: seq<byte>, p: Packet)
    requires GoodPacket(p) && |buf| >= 10 && buf[..10] == Header(p)
    ensures buf[..3] == p.cmd && buf[3] == p.flag
    ensures Btos(buf[4..6]) == p.index && ToSigned(Btos(buf[6..8])) == p.ttl && Btos(buf[8..10]) == |p.data|
  {
    hide Stob, Btos;
    var h := buf[..10];
    ShortRoundTrip(p.index);
    ShortRoundTrip(ToUnsigned(p.ttl));
    ShortRoundTrip(|p.data|);
    assert h[..3] == p.cmd && h[3] == p.flag && h[4..6] == Stob(p.index) && h[6..8] == Stob(ToUnsigned(p.ttl)) && h[8..10] == Stob(|p.data|);
    assert buf[..3] == h[..3] && buf[4..6] == h[4..6] && buf[6..8] == h[6..8] && buf[8..10] == h[8..10];
  }

  /** The octets of a packet begin with those of no other packet. */
  lemma OctetsTell(p: Packet, q: Packet)
    requires GoodPacket(p) && GoodPacket(q) && Octets(q) <= Octets(p)
    ensures q == p
  {
    hide Header;
    var buf := Octets(p);
    assert buf[..10] == Header(p) && Octets(q)[..10] == Header(q);
    assert buf[..|Octets(q)|] == Octets(q);
    assert buf[..10] == Octets(q)[..10];
    HeaderFields(buf, p);
    HeaderFields(buf, q);
    assert buf[10..] == p.data && Octets(q)[10..] == q.data;
  }

  /** `b_to_pck`. */
  method BToPck(buf: seq<byte>, ghost p: Packet) returns (q: Packet)
    requires GoodPacket(p) && Octets(p) <= buf
    ensures q == p
  {
    assert buf[..HEADER_SIZE] == Header(p);
    var cmd, flag, index, ttl, dataLen := BToHeader(buf);
    q := Packet(cmd, flag, index, ttl, buf[HEADER_SIZE..HEADER_SIZE + dataLen]);
  }

  // ---- reads and writes that return less than asked for

  /** What the kernel answers: it moves up to so many octets, is interrupted, or fails. */
  datatype Io = Moves(n: nat) | Interrupted | Fails

  /** The answer to call number `i`; once the list is used up everything moves at once. */
  function Answer(answers: seq<Io>, i: nat, all: nat): Io {
    if i < |answers| then answers[i] else Moves(all)
  }

  predicate NeverFails(answers: seq<Io>) {
    Fails !in answers && Moves(0) !in answers
  }

  /** `writen`. */
  method WriteN(stream: seq<byte>, buf: seq<byte>, answers: seq<Io>) returns (ok: bool, out: seq<byte>)
    ensures stream <= out <= stream + buf && (ok <==> out == stream + buf)
    ensures NeverFails(answers) ==> ok
  {
    out := stream;
    var nleft, i := |buf|, 0;
    assert stream + buf[..0] == stream;
    while nleft > 0
      invariant 0 <= nleft <= |buf| && out == stream + buf[..|buf| - nleft]
      decreases nleft, if i < |answers| then |answers| - i else 0
    {
      var sofar := |buf| - nleft;
      match Answer(answers, i, nleft) {
        case Interrupted =>
        case Fails => return false, out;
        case Moves(n) =>
          var nwritten := if n < nleft then n else nleft;
          if nwritten == 0 {
            assert i < |answers| && answers[i] == Moves(0);
            return false, out;
          }
          assert buf[..sofar] + buf[sofar..sofar + nwritten] == buf[..sofar + nwritten];
          out := out + buf[sofar..sofar + nwritten];
          nleft := nleft - nwritten;
      }
      i := i + 1;
    }
    assert buf[..|buf|] == buf;
    ok := true;
  }

  /** `readn` on what is left of a stream; reading at its end returns 0. */
  method ReadN(stream: seq<byte>, pos: nat, n: nat, answers: seq<Io>) returns (ok: bool, nleft: nat, buf: seq<byte>)
    requires pos <= |stream|
    ensures ok ==> nleft == (if |stream| - pos < n then n - (|stream| - pos) else 0) && buf == stream[pos..pos + n - nleft]
    ensures Fails !in answers ==> ok
  {
    buf := [];
    nleft := n;
    var i := 0;
    while nleft > 0
      invariant nleft <= n && |buf| == n - nleft && pos + |buf| <= |stream| && buf == stream[pos..pos + |buf|]
      decreases nleft, if i < |answers| then |answers| - i else 0
    {
      var here := pos + |buf|;
      match Answer(answers, i, nleft) {
        case Interrupted =>
        case Fails => return false, nleft, buf;
        case Moves(m) =>
          var some := if m == 0 then 1 else m;
          var most := if |stream| - here < nleft then |stream| - here else nleft;
          var nread := if some < most then some else most;
          if nread == 0 {
            break;
          }
          buf := buf + stream[here..here + nread];
          nleft := nleft - nread;
      }
      i := i + 1;
    }
    ok := true;
  }

  // ---- packets on a stream

  /** `send_packet_tcp`. */
  method SendPacketTcp(stream: seq<byte>, p: Packet, answers: seq<Io>) returns (ok: bool, out: seq<byte>)
    requires GoodPacket(p)
    ensures stream <= out <= stream + Octets(p) && (ok <==> out == stream + Octets(p))
    ensures NeverFails(answers) ==> ok
  {
    var buf := PckToB(p);
    ok, out := WriteN(stream, buf, answers);
  }

  datatype Received = Got(p: Packet, pos: nat) | Closed | Error

  /** `recv_packet_tcp`: `p` is what the stream goes on with, if it holds a whole packet. */
  method RecvPacketTcp(stream: seq<byte>, pos: nat, first: seq<Io>, second: seq<Io>) returns (r: Received)
    requires pos <= |stream|
    ensures forall p :: GoodPacket(p) && Octets(p) <= stream[pos..] && r != Error ==> r == Got(p, pos + |Octets(p)|)
    ensures (exists p :: GoodPacket(p) && stream[pos..] < Octets(p)) && r != Error ==> r == Closed
    ensures Fails !in first && Fails !in second ==> r != Error
  {
    hide Header;
    var ok, nleft, buf := ReadN(stream, pos, HEADER_SIZE, first);
    if !ok {
      return Error;
    }
    if nleft > 0 {
      return Closed;
    }
    var cmd, flag, index, ttl, dataLen := BToHeader(buf);
    forall p | GoodPacket(p) && Octets(p) <= stream[pos..]
      ensures buf == Header(p)
    {
      assert stream[pos..][..10] == Octets(p)[..10] == Header(p);
    }
    forall p | GoodPacket(p) && stream[pos..] < Octets(p)
      ensures buf == Header(p)
    {
      assert stream[pos..][..10] == Octets(p)[..10] == Header(p);
    }
    var data := [];
    if dataLen > 0 {
      ok, nleft, data := ReadN(stream, pos + 10, dataLen, second);
      if !ok {
        return Error;
      }
      if nleft > 0 {
        return Closed;
      }
    }
    r := Got(Packet(cmd, flag, index, ttl, data), pos + 10 + dataLen);
    forall p | GoodPacket(p) && Octets(p) <= stream[pos..]
      ensures r == Got(p, pos + |Octets(p)|)
    {
      assert Octets(p)[10..] == p.data;
      assert stream[pos..][10..10 + dataLen] == p.data;
    }
  }

  predicate AllGood(ps: seq<Packet>) {
    forall p :: p in ps ==> GoodPacket(p)
  }

  /** What a sequence of packets looks like on the wire. */
  function Wire(ps: seq<Packet>): seq<byte>
    requires AllGood(ps)
  {
    if ps == [] then [] else Octets(ps[0]) + Wire(ps[1..])
  }

  lemma {:induction false} WireNext(ps: seq<Packet>, p: Packet)
    requires AllGood(ps) && GoodPacket(p)
    ensures AllGood(ps + [p]) && Wire(ps + [p]) == Wire(ps) + Octets(p)
  {
    hide Octets;
    if ps == [] {
      assert [p][1..] == [];
      assert Wire([p]) == Octets(p) + Wire([]);
      assert ps + [p] == [p];
    } else {
      WireNext(ps[1..], p);
      assert (ps + [p])[1..] == ps[1..] + [p];
      assert Octets(ps[0]) + (Wire(ps[1..]) + Octets(p)) == (Octets(ps[0]) + Wire(ps[1..])) + Octets(p);
    }
  }

  /** Sends packets one after the other, the kernel answering as `answers(i)` for number `i`. */
  method SendAll(ps: seq<Packet>, answers: nat -> seq<Io>) returns (ok: bool, stream: seq<byte>)
    requires AllGood(ps)
    ensures ok ==> stream == Wire(ps)
    ensures (forall i :: 0 <= i < |ps| ==> NeverFails(answers(i))) ==> ok
  {
    hide Octets, Wire;
    stream := [];
    NoPackets(ps);
    for i := 0 to |ps|
      invariant AllGood(ps[..i]) && stream == Wire(ps[..i])
    {
      assert ps[i] in ps && ps[..i + 1] == ps[..i] + [ps[i]];
      WireNext(ps[..i], ps[i]);
      ok, stream := SendPacketTcp(stream, ps[i], answers(i));
      if !ok {
        return;
      }
    }
    assert ps[..|ps|] == ps;
    ok := true;
  }

  lemma NoPackets(ps: seq<Packet>)
    ensures AllGood(ps[..0]) && Wire(ps[..0]) == []
  {}

  /** Receives until the stream ends: exactly the packets that were sent, in order, however
      the octets came in pieces on either side. */
  method ReceiveAll(stream: seq<byte>, first: nat -> seq<Io>, second: nat -> seq<Io>, ghost ps: seq<Packet>) returns (got: seq<Packet>)
    requires AllGood(ps) && stream == Wire(ps)
    requires forall i :: Fails !in first(i) && Fails !in second(i)
    ensures got == ps
  {
    hide Octets, Wire;
    got := [];
    var pos, i := 0, 0;
    assert stream[0..] == stream && ps[0..] == ps;
    while true
      invariant pos <= |stream| && i == |got| <= |ps| && got == ps[..i]
      invariant AllGood(ps[i..]) && stream[pos..] == Wire(ps[i..])
      decreases |ps| - i
    {
      WireHead(ps, i);
      var r := RecvPacketTcp(stream, pos, first(i), second(i));
      if i == |ps| {
        StopsAtEnd(stream, pos);
      } else {
        assert r == Got(ps[i], pos + |Octets(ps[i])|);
        assert stream[pos..][|Octets(ps[i])|..] == stream[pos + |Octets(ps[i])|..];
      }
      match r {
        case Closed => return;
        case Error => return;
        case Got(p, next) =>
          got, pos, i := got + [p], next, i + 1;
      }
    }
  }

  lemma WireHead(ps: seq<Packet>, i: nat)
    requires i <= |ps| && AllGood(ps[i..])
    ensures i == |ps| ==> Wire(ps[i..]) == []
    ensures i < |ps| ==> GoodPacket(ps[i]) && AllGood(ps[i + 1..]) && Wire(ps[i..]) == Octets(ps[i]) + Wire(ps[i + 1..])
  {
    hide Octets;
    if i < |ps| {
      assert ps[i..][1..] == ps[i + 1..] && ps[i] in ps[i..];
      assert forall p :: p in ps[i + 1..] ==> p in ps[i..];
    }
  }

  lemma StopsAtEnd(stream: seq<byte>, pos: nat)
    requires pos <= |stream| && stream[pos..] == []
    ensures exists p :: GoodPacket(p) && stream[pos..] < Octets(p)
  {
    var p := Packet([0, 0, 0], 0, 0, 0, []);
    assert GoodPacket(p) && stream[pos..] < Octets(p);
  }
}
