/** The share index as octets: `write_dir` and `write_file` (src/client/shared.c), and how
    `copy_dir` reads them back. */
module ShareFile {
  import opened Common
  import opened Bytes
  import opened Streams
  import opened ShareDiff

  const HASH: byte := 35
  const PERCENT: byte := 37

  /** A record as it is written: a tag, the time, the md5 of a file, the name or path, a newline. */
  function RecOctets(r: Rec): (b: seq<byte>)
    ensures b != []
  {
    match r
    case DirRec(mtime, path) => [HASH] + Ltob(mtime) + (path + [NEWLINE])
    case FileRec(mtime, md5, name) => [PERCENT] + Ltob(mtime) + md5 + (name + [NEWLINE])
  }

  function IndexOctets(recs: seq<Rec>): seq<byte> {
    if recs == [] then [] else RecOctets(recs[0]) + IndexOctets(recs[1..])
  }

  /** `write_dir`: what is behind the octets written so far. */
  method WriteDir(fd: seq<byte>, mtime: u32, path: seq<byte>) returns (out: seq<byte>)
    ensures out == fd + RecOctets(DirRec(mtime, path)) && |out| == |fd| + 4 + |path| + 2
  {
    var tmp := [HASH];
    tmp := tmp + Ltob(mtime);
    tmp := tmp + (path + [NEWLINE]);
    out := fd + tmp;
  }

  /** `write_file`. */
  method WriteFile(fd: seq<byte>, mtime: u32, md5: Md5, name: Name) returns (out: seq<byte>)
    ensures out == fd + RecOctets(FileRec(mtime, md5, name)) && |out| == |fd| + 16 + 4 + |name| + 2
  {
    var tmp := [PERCENT];
    tmp := tmp + Ltob(mtime);
    tmp := tmp + md5;
    tmp := tmp + (name + [NEWLINE]);
    out := fd + tmp;
  }

  /** The length of an index is that of its octets. */
  lemma {:induction false} LenIsOctets(recs: seq<Rec>)
    ensures Len(recs) == |IndexOctets(recs)|
  {
    hide Ltob;
    if recs != [] {
      LenIsOctets(recs[1..]);
    }
  }

  /** A read ahead of 21 octets falls short if and only if there are some, but fewer. */
  lemma {:induction false} ShortIsOctets(recs: seq<Rec>)
    ensures Short(recs) <==> 0 < |IndexOctets(recs)| < 21
  {
    LenIsOctets(recs);
  }

  lemma {:induction false} OctetsNext(recs: seq<Rec>, k: nat)
    requires k < |recs|
    ensures IndexOctets(recs[k..]) == RecOctets(recs[k]) + IndexOctets(recs[k + 1..])
  {
    hide RecOctets;
    assert recs[k..][1..] == recs[k + 1..];
  }

  /** The names of the files fit a line. */
  ghost predicate Fits(recs: seq<Rec>) {
    forall i :: 0 <= i < |recs| && recs[i].FileRec? ==> FitsLine(recs[i].name)
  }

  /** The cursor is at the first octet of record number `k`. */
  ghost predicate AtOctet(fd: seq<byte>, pos: nat, recs: seq<Rec>, k: nat) {
    pos <= |fd| && k <= |recs| && fd[pos..] == IndexOctets(recs[k..])
  }

  /** What the read ahead and `readline` return for the record at the cursor. */
  lemma {:induction false} FileReads(fd: seq<byte>, pos: nat, recs: seq<Rec>, k: nat)
    requires AtOctet(fd, pos, recs, k) && Fits(recs) && k < |recs| && recs[k].FileRec?
    ensures var b := RecOctets(recs[k]);
      && pos + 21 < pos + |b| <= |fd| && fd[pos] == PERCENT
      && fd[pos..pos + 21] + fd[pos + 21..pos + |b|] == b
      && LineLen(fd[pos + 21..], NEWLINE, MAXLINE - 1) == |b| - 21 && fd[pos + |b| - 1] == NEWLINE
      && AtOctet(fd, pos + |b|, recs, k + 1)
  {
    hide Ltob;
    OctetsNext(recs, k);
    var r, rest := recs[k], IndexOctets(recs[k + 1..]);
    Fields([PERCENT] + Ltob(r.mtime) + r.md5, r.name, rest, fd, pos);
    LineOfName(r.name, rest, NEWLINE, MAXLINE - 1);
  }

  lemma {:induction false} Fields(head: seq<byte>, name: Name, rest: seq<byte>, fd: seq<byte>, pos: nat)
    requires pos <= |fd| && fd[pos..] == head + (name + [NEWLINE]) + rest && |head| == 21
    ensures var e := pos + 21 + |name| + 1;
      && e <= |fd| && fd[pos] == head[0] && fd[pos + 21..] == name + [NEWLINE] + rest
      && fd[pos..pos + 21] == head && fd[pos + 21..e] == name + [NEWLINE] && fd[e - 1] == NEWLINE && fd[e..] == rest
  {
    var all := fd[pos..];
    assert fd[pos] == all[0] && fd[pos..pos + 21] == all[..21] && fd[pos + 21..] == all[21..];
    assert fd[pos + 21..pos + 21 + |name| + 1] == all[21..21 + |name| + 1];
    assert fd[pos + 21 + |name|] == all[21 + |name|];
    assert fd[pos + 21 + |name| + 1..] == all[21 + |name| + 1..];
  }

  lemma {:induction false} DirTag(fd: seq<byte>, pos: nat, recs: seq<Rec>, k: nat)
    requires AtOctet(fd, pos, recs, k)
    ensures k < |recs| ==> pos < |fd| && (fd[pos] == HASH <==> recs[k].DirRec?)
    ensures pos == |fd| <==> k == |recs|
  {
    hide Ltob;
    if k < |recs| {
      OctetsNext(recs, k);
      assert fd[pos] == fd[pos..][0];
    }
  }

  ghost predicate FitsPath(r: Rec) {
    r.DirRec? ==> |r.path| <= MAXLINE - 2 && NEWLINE !in r.path
  }

  /** How `diff` reads the record at the cursor: it must be one of a directory. */
  method ReadDir(fd: seq<byte>, pos: nat, ghost recs: seq<Rec>, ghost k: nat) returns (ok: bool, mtime: u32, path: seq<byte>, pos': nat)
    requires AtOctet(fd, pos, recs, k) && k < |recs| && FitsPath(recs[k])
    ensures ok <==> recs[k].DirRec?
    ensures ok ==> recs[k] == DirRec(mtime, path) && AtOctet(fd, pos', recs, k + 1)
  {
    hide Ltob, Btol, LineLen, IndexOctets;
    DirTag(fd, pos, recs, k);
    ok, mtime, path, pos' := false, 0, [], pos;
    var nread := if |fd| - pos < 5 then |fd| - pos else 5;
    if nread != 5 || fd[pos] != HASH {
      LongEnough(fd, pos, recs, k);
      return;
    }
    OctetsNext(recs, k);
    ghost var r, rest := recs[k], IndexOctets(recs[k + 1..]);
    DirFields([HASH] + Ltob(r.mtime), r.path, rest, fd, pos);
    LineOfName(r.path, rest, NEWLINE, MAXLINE - 1);
    LongRoundTrip(r.mtime);
    assert fd[pos + 1..pos + 5] == fd[pos..pos + 5][1..];
    var n, line := ReadLine(fd, pos + 5, NEWLINE, MAXLINE);
    assert line == r.path + [NEWLINE];
    return true, Btol(fd[pos + 1..pos + 5]), line[..n - 1], pos + 5 + |line|;
  }

  lemma {:induction false} LongEnough(fd: seq<byte>, pos: nat, recs: seq<Rec>, k: nat)
    requires AtOctet(fd, pos, recs, k) && k < |recs|
    ensures |fd| - pos > 5
  {
    hide Ltob;
    OctetsNext(recs, k);
  }

  lemma {:induction false} DirFields(head: seq<byte>, path: seq<byte>, rest: seq<byte>, fd: seq<byte>, pos: nat)
    requires pos <= |fd| && fd[pos..] == head + (path + [NEWLINE]) + rest && |head| == 5
    ensures var e := pos + 5 + |path| + 1;
      && e <= |fd| && fd[pos + 5..] == path + [NEWLINE] + rest
      && fd[pos..pos + 5] == head && fd[pos + 5..e] == path + [NEWLINE] && fd[e..] == rest
  {
    var all := fd[pos..];
    assert fd[pos..pos + 5] == all[..5] && fd[pos + 5..] == all[5..];
    assert fd[pos + 5..pos + 5 + |path| + 1] == all[5..5 + |path| + 1];
    assert fd[pos + 5 + |path| + 1..] == all[5 + |path| + 1..];
  }

  /** `copy_dir` on octets: reads ahead 21 of them before it looks at the tag. `k` is the record at
      the cursor. It copies the files of the section and succeeds if and only if the index ends there
      or goes on for at least 21 octets. */
  method CopyDir(fd: seq<byte>, pos: nat, out: seq<byte>, ghost recs: seq<Rec>, ghost k: nat) returns (ok: bool, pos': nat, out': seq<byte>)
    requires AtOctet(fd, pos, recs, k) && Fits(recs)
    ensures var e := SectionEnd(recs, k);
      && out' == out + IndexOctets(recs[k..e])
      && (ok <==> |IndexOctets(recs[e..])| == 0 || |IndexOctets(recs[e..])| >= 21)
      && (ok ==> AtOctet(fd, pos', recs, e)) && (!ok ==> pos' == |fd|)
  {
    hide Ltob, RecOctets, IndexOctets, AtOctet, Fits, SectionEnd, LineLen;
    AtFacts(fd, pos, recs, k);
    pos', out' := pos, out;
    ghost var j := k;
    NoOctets(recs, k);
    while true
      invariant pos' <= |fd| && k <= j <= |recs| && AtOctet(fd, pos', recs, j) && SectionEnd(recs, j) == SectionEnd(recs, k)
      invariant out' == out + IndexOctets(recs[k..j])
      decreases |recs| - j
    {
      AtFacts(fd, pos', recs, j);
      DirTag(fd, pos', recs, j);
      var nread := if |fd| - pos' < 21 then |fd| - pos' else 21;
      if nread == 0 {
        SectionHere(recs, j);
        return true, pos', out';
      }
      var buf := fd[pos'..pos' + nread];
      if nread != 21 {
        TailHasNoFile(recs, j);
        SectionHere(recs, j);
        return false, |fd|, out';
      }
      if buf[0] == HASH {
        SectionHere(recs, j);
        return true, pos', out';
      }
      FileReads(fd, pos', recs, j);
      var n, line := ReadLine(fd, pos' + 21, NEWLINE, MAXLINE);
      SectionGoesOn(recs, j);
      OctetsOn(recs, k, j);
      out' := out' + (buf + line);
      pos', j := pos' + 21 + |line|, j + 1;
    }
  }

  lemma {:induction false} AtFacts(fd: seq<byte>, pos: nat, recs: seq<Rec>, k: nat)
    requires AtOctet(fd, pos, recs, k)
    ensures pos <= |fd| && k <= |recs| && |IndexOctets(recs[k..])| == |fd| - pos
  {}

  lemma {:induction false} NoOctets(recs: seq<Rec>, k: nat)
    requires k <= |recs|
    ensures recs[k..k] == [] && IndexOctets([]) == [] && IndexOctets(recs[|recs|..]) == []
  {}

  lemma {:induction false} SectionHere(recs: seq<Rec>, k: nat)
    requires k <= |recs| && (k < |recs| ==> recs[k].DirRec?)
    ensures SectionEnd(recs, k) == k
  {}

  lemma {:induction false} SectionGoesOn(recs: seq<Rec>, k: nat)
    requires k < |recs| && recs[k].FileRec?
    ensures SectionEnd(recs, k) == SectionEnd(recs, k + 1)
  {}

  /** A file takes more than the read ahead. */
  lemma {:induction false} TailHasNoFile(recs: seq<Rec>, k: nat)
    requires k < |recs| && |IndexOctets(recs[k..])| < 21
    ensures recs[k].DirRec?
  {
    hide Ltob;
    OctetsNext(recs, k);
  }

  lemma {:induction false} OctetsOn(recs: seq<Rec>, k: nat, j: nat)
    requires k <= j < |recs|
    ensures IndexOctets(recs[k..j + 1]) == IndexOctets(recs[k..j]) + RecOctets(recs[j])
    decreases j - k
  {
    hide RecOctets;
    if k == j {
      assert recs[k..j + 1] == [recs[j]] && recs[k..j] == [] && [recs[j]][1..] == [];
    } else {
      OctetsOn(recs, k + 1, j);
      assert recs[k..j + 1][1..] == recs[k + 1..j + 1] && recs[k..j][1..] == recs[k + 1..j];
    }
  }
}
