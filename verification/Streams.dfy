/** Reading octets (src/common/ioutil.c). */
module Streams {
  import opened Common

  /** How many octets of `s` a string takes: up to its last octet or to the room of the buffer. */
  function LineLen(s: seq<byte>, last: byte, room: nat): (n: nat)
    ensures n <= |s| && n <= room
  {
    if s == [] || room == 0 then 0
    else if s[0] == last then 1
    else 1 + LineLen(s[1..], last, room - 1)
  }

  lemma {:induction false} LineOfName(name: seq<byte>, rest: seq<byte>, last: byte, room: nat)
    requires last !in name && |name| < room
    ensures LineLen(name + [last] + rest, last, room) == |name| + 1
  {
    var s := name + [last] + rest;
    if name != [] {
      assert s[1..] == name[1..] + [last] + rest;
      LineOfName(name[1..], rest, last, room - 1);
    }
  }

  /** `readline` (last octet newline) and `readstr` (last octet 0), one octet at a time. The count
      is one too high when the last octet is not met. */
  method ReadLine(fd: seq<byte>, pos: nat, last: byte, maxlen: nat) returns (n: nat, line: seq<byte>)
    requires pos <= |fd| && 1 < maxlen
    ensures line == fd[pos..pos + LineLen(fd[pos..], last, maxlen - 1)]
    ensures n == if line == [] then 0 else if line[|line| - 1] == last then |line| else |line| + 1
  {
    n := 1;
    line := [];
    while n < maxlen
      invariant 1 <= n <= maxlen && |line| == n - 1 && pos + |line| <= |fd|
      invariant line == fd[pos..pos + |line|] && last !in line
      invariant LineLen(fd[pos..], last, maxlen - 1) == |line| + LineLen(fd[pos + |line|..], last, maxlen - 1 - |line|)
    {
      var at := pos + |line|;
      if at == |fd| {
        if n == 1 {
          return 0, [];
        }
        return;
      }
      assert fd[at..][1..] == fd[at + 1..];
      line := line + [fd[at]];
      if fd[at] == last {
        return;
      }
      n := n + 1;
    }
  }

  // ---- writing at an offset

  function Zeros(n: nat): (z: seq<byte>)
    ensures |z| == n
  {
    seq(n, i => 0)
  }

  /** `lseek` and `write`: a gap before the offset is filled with zeros. */
  function WriteAt(file: seq<byte>, offset: nat, data: seq<byte>): (f: seq<byte>)
  {
    if data == [] then file
    else
      var padded := if |file| < offset then file + Zeros(offset - |file|) else file;
      padded[..offset] + data + if offset + |data| < |padded| then padded[offset + |data|..] else []
  }

  lemma WrittenAt(file: seq<byte>, offset: nat, data: seq<byte>)
    requires data != []
    ensures var f := WriteAt(file, offset, data);
      && |f| == (if |file| < offset + |data| then offset + |data| else |file|)
      && f[offset..offset + |data|] == data
  {}

  lemma KeptBefore(file: seq<byte>, offset: nat, data: seq<byte>, a: nat, b: nat)
    requires a <= b <= |file| && b <= offset
    ensures var f := WriteAt(file, offset, data); b <= |f| && f[a..b] == file[a..b]
  {}

  lemma KeptAfter(file: seq<byte>, offset: nat, data: seq<byte>, a: nat, b: nat)
    requires offset + |data| <= a <= b <= |file|
    ensures var f := WriteAt(file, offset, data); b <= |f| && f[a..b] == file[a..b]
  {}

  lemma OctetAt(file: seq<byte>, offset: nat, data: seq<byte>, i: nat)
    requires data != []
    ensures var f := WriteAt(file, offset, data);
      && |f| == (if |file| < offset + |data| then offset + |data| else |file|)
      && (i < |f| ==> f[i] == if offset <= i < offset + |data| then data[i - offset] else if i < |file| then file[i] else 0)
  {}

  /** Two writes one after the other are one. */
  lemma WrittenOn(file: seq<byte>, offset: nat, a: seq<byte>, b: seq<byte>)
    ensures WriteAt(WriteAt(file, offset, a), offset + |a|, b) == WriteAt(file, offset, a + b)
  {
    if a == [] {
      assert a + b == b;
    } else if b == [] {
      assert a + b == a;
    } else {
      hide WriteAt;
      var f, g := WriteAt(WriteAt(file, offset, a), offset + |a|, b), WriteAt(file, offset, a + b);
      forall i: nat
        ensures |f| == |g| && (i < |f| ==> f[i] == g[i])
      {
        OctetAt(file, offset, a, i);
        OctetAt(WriteAt(file, offset, a), offset + |a|, b, i);
        OctetAt(file, offset, a + b, i);
      }
    }
  }
}
