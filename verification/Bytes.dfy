/** Integers and addresses as octets (src/common/ioutil.c, src/common/inetutil.c), on the
    little-endian 32-bit target: `long` is 4 octets, `short` is 2. */
module Bytes {
  import opened Common

  /** The octets of an address; written as 6 in arithmetic. */
  const ADDR_STR_LEN := 6

  function Ltob(x: u32): (b: seq<byte>)
    ensures |b| == 4
  {
    [x % 256, x / 256 % 256, x / 256 / 256 % 256, x / 256 / 256 / 256]
  }

  function Stob(x: u16): (b: seq<byte>)
    ensures |b| == 2
  {
    [x % 256, x / 256]
  }

  function Btol(b: seq<byte>): u32
    requires |b| >= 4
  {
    var hi: int := b[3];
    b[0] as int + 256 * (b[1] as int + 256 * (b[2] as int + 256 * hi))
  }

  function Btos(b: seq<byte>): u16
    requires |b| >= 2
  {
    b[0] as int + 256 * b[1] as int
  }

  lemma LongRoundTrip(x: u32)
    ensures Btol(Ltob(x)) == x
  {
  }

  lemma ShortRoundTrip(x: u16)
    ensures Btos(Stob(x)) == x
  {
  }

  lemma BytesOfLong(b: seq<byte>)
    requires |b| == 4
    ensures Ltob(Btol(b)) == b
  {
    var x := Btol(b);
    var y: int := b[1] as int + 256 * (b[2] as int + 256 * b[3] as int);
    var z: int := b[2] as int + 256 * b[3] as int;
    assert x == b[0] as int + 256 * y && y == b[1] as int + 256 * z;
    assert x / 256 == y && y / 256 == z && z / 256 == b[3] as int;
  }

  lemma BytesOfShort(b: seq<byte>)
    requires |b| == 2
    ensures Stob(Btos(b)) == b
  {
  }

  /** `addr2str`. */
  function Addr2Str(a: Addr): (b: seq<byte>)
    ensures |b| == ADDR_STR_LEN
  {
    Ltob(a.ip) + Stob(a.port)
  }

  /** `str2addr`. */
  function Str2Addr(b: seq<byte>): Addr
    requires |b| >= 6
  {
    Addr(Btol(b[..4]), Btos(b[4..6]))
  }

  lemma AddrRoundTrip(a: Addr)
    ensures Str2Addr(Addr2Str(a)) == a
  {
    LongRoundTrip(a.ip);
    assert Addr2Str(a)[..4] == Ltob(a.ip) && Addr2Str(a)[4..6] == Stob(a.port);
  }

  /** The octets of a list of addresses, and back. */
  ghost function Encoded(l: seq<Addr>): (b: seq<byte>)
    ensures |b| == 6 * |l|
  {
    if l == [] then [] else Addr2Str(l[0]) + Encoded(l[1..])
  }

  ghost function Decoded(b: seq<byte>): (l: seq<Addr>)
    ensures 6 * |l| <= |b| < 6 * |l| + 6
  {
    if |b| < 6 then [] else [Str2Addr(b[..6])] + Decoded(b[6..])
  }

  lemma {:induction false} DecodedEncoded(l: seq<Addr>)
    ensures Decoded(Encoded(l)) == l
  {
    hide Str2Addr, Addr2Str;
    if l != [] {
      AddrRoundTrip(l[0]);
      DecodedEncoded(l[1..]);
      var b := Encoded(l);
      assert b[..6] == Addr2Str(l[0]) && b[6..] == Encoded(l[1..]);
    }
  }

  lemma {:induction false} DecodedAt(b: seq<byte>, i: nat)
    requires 6 * i + 6 <= |b|
    ensures Decoded(b)[i] == Str2Addr(b[6 * i..6 * i + 6])
  {
    hide Str2Addr;
    if i > 0 {
      DecodedAt(b[6..], i - 1);
      SliceOfSuffix(b, 6, 6 * i - 6, 6 * i);
      DecodedTail(b, i);
    } else {
      assert 6 * i == 0;
    }
  }

  lemma DecodedTail(b: seq<byte>, i: nat)
    requires 6 <= |b| && 0 < i < |Decoded(b)|
    ensures i - 1 < |Decoded(b[6..])| && Decoded(b)[i] == Decoded(b[6..])[i - 1]
  {
    hide Str2Addr;
  }

  lemma SliceOfSuffix(s: seq<byte>, n: nat, a: nat, b: nat)
    requires a <= b && n + b <= |s|
    ensures s[n..][a..b] == s[n + a..n + b]
  {
  }

  lemma AppendSlices(a: seq<byte>, b: seq<byte>, k: nat)
    requires k <= |a|
    ensures (a + b)[..k] == a[..k] && (a + b)[k..] == a[k..] + b
  {
  }

  lemma {:induction false} DecodedAppend(a: seq<byte>, b: seq<byte>, n: nat)
    requires |a| == 6 * n
    ensures Decoded(a + b) == Decoded(a) + Decoded(b)
  {
    hide Str2Addr;
    if n == 0 {
      assert a + b == b;
    } else {
      DecodedAppend(a[6..], b, n - 1);
      AppendSlices(a, b, 6);
    }
  }

  lemma DecodedOne(a: Addr)
    ensures Decoded(Addr2Str(a)) == [a]
  {
    hide Str2Addr, Addr2Str;
    AddrRoundTrip(a);
    assert Addr2Str(a)[..6] == Addr2Str(a);
  }

  /** `str_to_addr`. */
  method StrToAddr(str: seq<byte>, dim: nat) returns (addrs: seq<Addr>)
    requires 6 * dim <= |str|
    ensures addrs == Decoded(str[..6 * dim])
  {
    hide Str2Addr;
    addrs := [];
    for i := 0 to dim
      invariant addrs == Decoded(str[..6 * i])
    {
      var entry := str[i * 6..i * 6 + 6];
      assert str[..6 * (i + 1)] == str[..6 * i] + entry;
      DecodedAppend(str[..6 * i], entry, i);
      assert entry[..6] == entry;
      addrs := addrs + [Str2Addr(entry)];
    }
  }

  lemma SliceOfPrefix(s: seq<byte>, n: nat, a: nat, b: nat)
    requires a <= b <= n <= |s|
    ensures s[..n][a..b] == s[a..b]
  {
  }

  /** `contains_addr`: compares the ip octets, then the port octets, of each entry in turn. */
  method ContainsAddr(str: seq<byte>, strLen: nat, addr: Addr) returns (found: bool)
    requires strLen <= |str| && strLen % 6 == 0
    ensures found <==> addr in Decoded(str[..strLen])
  {
    hide Decoded, Str2Addr, Ltob, Stob;
    ghost var l, n := Decoded(str[..strLen]), strLen / 6;
    ghost var i := 0;
    var offset := 0;
    while offset < strLen
      invariant offset == 6 * i && strLen == 6 * n && |l| == n && i <= n
      invariant forall j :: 0 <= j < i ==> l[j] != addr
    {
      EntryMatches(str[..strLen], i, addr);
      SliceOfPrefix(str, strLen, offset, offset + 4);
      SliceOfPrefix(str, strLen, offset + 4, offset + 6);
      if str[offset..offset + 4] == Ltob(addr.ip) {
        offset := offset + 4;
        if str[offset..offset + 2] == Stob(addr.port) {
          return true;
        }
        offset := offset + 2;
      } else {
        offset := offset + 4 + 2;
      }
      i := i + 1;
    }
    return false;
  }

  lemma StrMatches(e: seq<byte>, addr: Addr)
    requires |e| == 6
    ensures Str2Addr(e) == addr <==> e[..4] == Ltob(addr.ip) && e[4..6] == Stob(addr.port)
  {
    BytesOfLong(e[..4]);
    BytesOfShort(e[4..6]);
    LongRoundTrip(addr.ip);
  }

  lemma EntryMatches(b: seq<byte>, i: nat, addr: Addr)
    requires 6 * i + 6 <= |b|
    ensures Decoded(b)[i] == addr <==> b[6 * i..6 * i + 4] == Ltob(addr.ip) && b[6 * i + 4..6 * i + 6] == Stob(addr.port)
  {
    hide Decoded, Str2Addr, Ltob, Stob;
    var lo := 6 * i;
    DecodedAt(b, i);
    StrMatches(b[lo..lo + 6], addr);
    assert b[lo..lo + 6][..4] == b[lo..lo + 4];
    assert b[lo..lo + 6][4..6] == b[lo + 4..lo + 6];
  }
}
