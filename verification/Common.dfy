/** Vocabulary shared by every module: the machine widths of the 32-bit target, network
    addresses, and the records a superpeer indexes. */
module Common {

  /** One octet. */
  type byte = x: int | 0 <= x < 256

  /** `unsigned short` and `unsigned long` of the 32-bit target. */
  type u16 = x: int | 0 <= x < 0x1_0000
  type u32 = x: int | 0 <= x < 0x1_0000_0000

  datatype Option<+T> = None | Some(value: T)

  /** The part of `struct sockaddr_in` that `addrcmp` compares. */
  datatype Addr = Addr(ip: u32, port: u16)

  const NEWLINE: byte := 10
  const NUL: byte := 0

  /** The size of line and packet buffers. */
  const MAXLINE := 1024
  const MAX_PACKET_DATA_LEN := 1024

  /** MD5_DIGEST_LENGTH octets. */
  type Md5 = s: seq<byte> | |s| == 16 witness [0, 0, 0, 0, 0, 0, 0, 0, 0, 0, 0, 0, 0, 0, 0, 0]

  type Name = seq<byte>

  /** Names that fit the buffers, as lines and as strings. */
  predicate FitsLine(name: Name) {
    |name| <= 253 && NEWLINE !in name
  }

  predicate FitsString(name: Name) {
    |name| <= 253 && NUL !in name
  }

  /** One indexed file: who shares which bytes under which name. */
  datatype Record = Record(name: Name, md5: Md5, ip: u32, port: u16)

  /** No element occurs twice. */
  ghost predicate Distinct<T>(s: seq<T>) {
    forall i, j :: 0 <= i < j < |s| ==> s[i] != s[j]
  }

  /** The groups one after the other. */
  ghost function Flat<T>(groups: seq<seq<T>>): seq<T> {
    if groups == [] then [] else Flat(groups[..|groups| - 1]) + groups[|groups| - 1]
  }

  lemma {:induction false} FlatNext<T>(groups: seq<seq<T>>, g: seq<T>)
    ensures Flat(groups + [g]) == Flat(groups) + g
  {
    assert (groups + [g])[..|groups|] == groups;
  }

  /** A list without the element at position `k`. */
  ghost function Without<T>(s: seq<T>, k: nat): (r: seq<T>)
    requires k < |s|
    ensures |r| == |s| - 1
  {
    s[..k] + s[k + 1..]
  }

  /** Where elements are distinct, dropping a position drops exactly that element. */
  lemma WithoutMembers<T>(s: seq<T>, k: nat)
    requires k < |s| && forall i, j :: 0 <= i < j < |s| ==> s[i] != s[j]
    ensures s[k] !in Without(s, k)
    ensures forall x :: x in Without(s, k) <==> x in s && x != s[k]
  {
    var w := Without(s, k);
    forall x | x in s && x != s[k]
      ensures x in w
    {
      var i :| 0 <= i < |s| && s[i] == x;
      assert w[if i < k then i else i - 1] == x;
    }
  }
}
