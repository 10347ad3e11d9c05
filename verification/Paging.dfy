/** Replies to searches, in pages of at most one packet: `whohas_request_handler_name`,
    `whohas_request_handler_md5` and the two parsers at the other end (src/client/client.c). */
module Paging {
  import opened Common
  import opened Bytes
  import opened Streams

  /** A search by name starts each page with the name, one by md5 with the md5. */
  datatype Kind = ByName | ByMd5

  predicate GoodName(name: Name) {
    name != [] && FitsLine(name) && FitsString(name)
  }

  /** What a search of that kind finds: records that share what was searched for. */
  ghost predicate Found(kind: Kind, key: seq<byte>, results: seq<Record>) {
    && (kind == ByName ==> GoodName(key)) && (kind == ByMd5 ==> |key| == 16)
    && forall r :: r in results ==> GoodName(r.name) && key == if kind == ByName then r.name else r.md5
  }

  function Entry(kind: Kind, r: Record): (b: seq<byte>)
    ensures |b| == 6 + if kind == ByName then 16 else |r.name| + 1
  {
    Addr2Str(Addr(r.ip, r.port)) + if kind == ByName then r.md5 else r.name + [NEWLINE]
  }

  function Entries(kind: Kind, rs: seq<Record>): seq<byte> {
    if rs == [] then [] else Entry(kind, rs[0]) + Entries(kind, rs[1..])
  }

  lemma {:induction false} EntriesNext(kind: Kind, rs: seq<Record>, r: Record)
    ensures Entries(kind, rs + [r]) == Entries(kind, rs) + Entry(kind, r)
  {
    hide Entry;
    if rs == [] {
      assert [r][1..] == [];
      assert Entries(kind, [r]) == Entry(kind, r) + Entries(kind, []);
      assert rs + [r] == [r];
    } else {
      EntriesNext(kind, rs[1..], r);
      assert (rs + [r])[1..] == rs[1..] + [r];
      assert Entry(kind, rs[0]) + (Entries(kind, rs[1..]) + Entry(kind, r)) == (Entry(kind, rs[0]) + Entries(kind, rs[1..])) + Entry(kind, r);
    }
  }

  function Header(kind: Kind, key: seq<byte>): seq<byte> {
    if kind == ByName then key + [NEWLINE] else key
  }

  /** The test before an entry is written at `offset`. */
  predicate HasRoom(kind: Kind, offset: nat, r: Record) {
    if kind == ByName then offset + 6 + 16 < MAX_PACKET_DATA_LEN else offset + 6 + |r.name| < MAX_PACKET_DATA_LEN
  }

  // ---- the pages

  /** A page: a header and whole entries. Pages after the first may have octets in between that
      are left over from the page before. */
  ghost predicate IsPage(kind: Kind, key: seq<byte>, gap: nat, page: seq<byte>, group: seq<Record>) {
    var h := |Header(kind, key)| + gap;
    && h <= |page| <= MAX_PACKET_DATA_LEN && group != [] && (kind == ByName ==> |page| < MAX_PACKET_DATA_LEN)
    && page[..|Header(kind, key)|] == Header(kind, key) && page[h..] == Entries(kind, group)
  }

  ghost predicate ArePages(kind: Kind, key: seq<byte>, gap: nat, pages: seq<seq<byte>>, groups: seq<seq<Record>>) {
    && |pages| == |groups|
    && (forall i :: 0 <= i < |pages| ==> IsPage(kind, key, if i == 0 then 0 else gap, pages[i], groups[i]))
    && (forall i :: 0 < i < |pages| ==> !HasRoom(kind, |pages[i - 1]|, groups[i][0]))
  }

  /** The results up to `k` are on pages, those after `sent` on the one being filled. */
  ghost predicate Filling(kind: Kind, key: seq<byte>, gap: nat, results: seq<Record>, buf: seq<byte>, offset: nat,
                          pages: seq<seq<byte>>, groups: seq<seq<Record>>, sent: nat, k: nat) {
    var h := |Header(kind, key)| + if pages == [] then 0 else gap;
    && sent <= k <= |results| && h <= offset <= |buf| == MAX_PACKET_DATA_LEN && (kind == ByName && sent < k ==> offset < MAX_PACKET_DATA_LEN)
    && buf[..|Header(kind, key)|] == Header(kind, key) && buf[h..offset] == Entries(kind, results[sent..k])
    && ArePages(kind, key, gap, pages, groups) && Flat(groups) == results[..sent]
    && (pages != [] && sent < |results| ==> !HasRoom(kind, |pages[|pages| - 1]|, results[sent]))
  }

  lemma PageStarts(kind: Kind, key: seq<byte>, gap: nat, results: seq<Record>, buf: seq<byte>)
    requires |buf| == MAX_PACKET_DATA_LEN && |Header(kind, key)| <= |buf|
    ensures Filling(kind, key, gap, results, WriteAt(buf, 0, Header(kind, key)), |Header(kind, key)|, [], [], 0, 0)
  {
    var h := Header(kind, key);
    assert results[0..0] == [] && results[..0] == [];
    assert WriteAt(buf, 0, h)[..|h|] == h;
  }

  lemma SliceJoin<T>(f: seq<T>, a: nat, b: nat, c: nat)
    requires a <= b <= c <= |f|
    ensures f[a..c] == f[a..b] + f[b..c]
  {}

  lemma EntryStep(kind: Kind, key: seq<byte>, gap: nat, results: seq<Record>, buf: seq<byte>, offset: nat,
                  pages: seq<seq<byte>>, groups: seq<seq<Record>>, sent: nat, k: nat)
    requires Filling(kind, key, gap, results, buf, offset, pages, groups, sent, k) && k < |results|
    requires HasRoom(kind, offset, results[k])
    ensures var e := Entry(kind, results[k]);
      Filling(kind, key, gap, results, WriteAt(buf, offset, e), offset + |e|, pages, groups, sent, k + 1)
  {
    hide Entries, Entry, ArePages, Flat, Header, WriteAt;
    var e, h := Entry(kind, results[k]), |Header(kind, key)| + if pages == [] then 0 else gap;
    var f := WriteAt(buf, offset, e);
    WrittenAt(buf, offset, e);
    KeptBefore(buf, offset, e, 0, |Header(kind, key)|);
    KeptBefore(buf, offset, e, h, offset);
    SliceJoin(f, h, offset, offset + |e|);
    EntriesNext(kind, results[sent..k], results[k]);
    assert results[sent..k + 1] == results[sent..k] + [results[k]];
    assert f[0..|Header(kind, key)|] == f[..|Header(kind, key)|];
    assert buf[0..|Header(kind, key)|] == buf[..|Header(kind, key)|];
  }

  lemma SendStep(kind: Kind, key: seq<byte>, gap: nat, results: seq<Record>, buf: seq<byte>, offset: nat,
                 pages: seq<seq<byte>>, groups: seq<seq<Record>>, sent: nat, k: nat)
    requires Filling(kind, key, gap, results, buf, offset, pages, groups, sent, k) && sent < k
    requires k < |results| ==> !HasRoom(kind, offset, results[k])
    requires |Header(kind, key)| + gap <= MAX_PACKET_DATA_LEN
    ensures Filling(kind, key, gap, results, buf, |Header(kind, key)| + gap, pages + [buf[..offset]], groups + [results[sent..k]], k, k)
  {
    hide Entry, Entries, ArePages, IsPage, Flat, Header, HasRoom;
    NoEntries(kind);
    FlatNext(groups, results[sent..k]);
    assert results[..k] == results[..sent] + results[sent..k];
    assert results[k..k] == [];
    var h := |Header(kind, key)| + gap;
    assert buf[h..h] == [];
    FilledPage(kind, key, gap, results, buf, offset, pages, groups, sent, k);
    NextPage(kind, key, gap, pages, groups, buf[..offset], results[sent..k]);
  }

  lemma FilledPage(kind: Kind, key: seq<byte>, gap: nat, results: seq<Record>, buf: seq<byte>, offset: nat,
                   pages: seq<seq<byte>>, groups: seq<seq<Record>>, sent: nat, k: nat)
    requires Filling(kind, key, gap, results, buf, offset, pages, groups, sent, k) && sent < k
    ensures IsPage(kind, key, if pages == [] then 0 else gap, buf[..offset], results[sent..k])
  {
    hide Entry, Entries, ArePages, Flat, Header, HasRoom;
    var h := |Header(kind, key)| + if pages == [] then 0 else gap;
    assert buf[..offset][h..] == buf[h..offset];
    assert buf[..offset][..|Header(kind, key)|] == buf[..|Header(kind, key)|];
  }

  lemma NextPage(kind: Kind, key: seq<byte>, gap: nat, pages: seq<seq<byte>>, groups: seq<seq<Record>>, page: seq<byte>, group: seq<Record>)
    requires ArePages(kind, key, gap, pages, groups) && IsPage(kind, key, if pages == [] then 0 else gap, page, group)
    requires group != [] && (pages != [] ==> !HasRoom(kind, |pages[|pages| - 1]|, group[0]))
    ensures ArePages(kind, key, gap, pages + [page], groups + [group])
  {
    hide IsPage, HasRoom;
  }

  lemma NoEntries(kind: Kind)
    ensures Entries(kind, []) == []
  {}

  /** The loop of both handlers: `restart` is where a page after the first begins. */
  method Reply(kind: Kind, key: seq<byte>, restart: nat, results: seq<Record>) returns (pages: seq<seq<byte>>, ghost groups: seq<seq<Record>>)
    requires Found(kind, key, results)
    requires |Header(kind, key)| <= restart <= |Header(kind, key)| + 1
    ensures ArePages(kind, key, restart - |Header(kind, key)|, pages, groups) && Flat(groups) == results
    ensures restart == |Header(kind, key)| ==> ReadAll(kind, pages) == Some(results)
    ensures PagesAreFull(kind, pages, groups)
  {
    hide Entries, Entry, ArePages, Flat, Filling, WriteAt, HasRoom, Header, Found, ReadAll;
    HeaderFits(kind, key, results);
    pages, groups := [], [];
    if results == [] {
      NothingToSend(kind, key, restart - |Header(kind, key)|);
      ReadAllNothing(kind);
      FullPages(kind, key, restart - |Header(kind, key)|, pages, groups);
      return;
    }
    var buf := WriteAt(Zeros(MAX_PACKET_DATA_LEN), 0, Header(kind, key));
    var offset: nat := |Header(kind, key)|;
    var k: nat := 0;
    ghost var gap, sent := restart - |Header(kind, key)|, 0;
    PageStarts(kind, key, gap, results, Zeros(MAX_PACKET_DATA_LEN));
    FillingFits(kind, key, gap, results, buf, offset, pages, groups, sent, k);
    while true
      invariant sent <= k < |results| && offset <= |buf| == MAX_PACKET_DATA_LEN
      invariant Filling(kind, key, gap, results, buf, offset, pages, groups, sent, k)
      invariant sent == k ==> offset <= |Header(kind, key)| + gap
      decreases |results| - k, k - sent
    {
      var r := results[k];
      FitsAlone(kind, key, restart - |Header(kind, key)|, results, k, offset);
      if HasRoom(kind, offset, r) {
        EntryStep(kind, key, gap, results, buf, offset, pages, groups, sent, k);
        buf := WriteAt(buf, offset, Entry(kind, r));
        offset := offset + |Entry(kind, r)|;
        k := k + 1;
        FillingFits(kind, key, gap, results, buf, offset, pages, groups, sent, k);
        if k == |results| {
          SendStep(kind, key, gap, results, buf, offset, pages, groups, sent, k);
          LastPage(kind, key, gap, results, buf, restart, pages + [buf[..offset]], groups + [results[sent..k]]);
          pages, groups := pages + [buf[..offset]], groups + [results[sent..k]];
          FullPages(kind, key, gap, pages, groups);
          if gap == 0 {
            PagesReadBack(kind, key, pages, groups);
          }
          return;
        }
      } else {
        SendStep(kind, key, gap, results, buf, offset, pages, groups, sent, k);
        pages, groups, sent := pages + [buf[..offset]], groups + [results[sent..k]], k;
        offset := restart;
      }
    }
  }

  lemma FillingFits(kind: Kind, key: seq<byte>, gap: nat, results: seq<Record>, buf: seq<byte>, offset: nat,
                    pages: seq<seq<byte>>, groups: seq<seq<Record>>, sent: nat, k: nat)
    requires Filling(kind, key, gap, results, buf, offset, pages, groups, sent, k)
    ensures offset <= |buf| == MAX_PACKET_DATA_LEN
  {
    hide Entries, ArePages, Flat;
  }

  lemma HeaderFits(kind: Kind, key: seq<byte>, results: seq<Record>)
    requires Found(kind, key, results)
    ensures |Header(kind, key)| <= 254
  {}

  /** A page that holds nothing yet has room for any result. */
  lemma FitsAlone(kind: Kind, key: seq<byte>, gap: nat, results: seq<Record>, k: nat, offset: nat)
    requires Found(kind, key, results) && k < |results| && gap <= 1
    ensures offset <= |Header(kind, key)| + gap ==> HasRoom(kind, offset, results[k])
  {
    assert results[k] in results;
  }

  lemma ReadAllNothing(kind: Kind)
    ensures ReadAll(kind, []) == Some([])
  {}

  lemma NothingToSend(kind: Kind, key: seq<byte>, gap: nat)
    ensures ArePages(kind, key, gap, [], []) && Flat<Record>([]) == []
  {}

  /** There is no room for another entry: one by name takes 22 octets, one by md5 takes 6, the name
      and a newline; and an entry must end, but for the newline, before octet 1024. */
  predicate Closed(kind: Kind, page: seq<byte>, next: Record) {
    match kind
    case ByName => |page| + 22 >= 1024
    case ByMd5 => |page| + 6 + |next.name| >= 1024
  }

  /** No page exceeds a packet, and one is closed only when there is no room for the next entry. */
  ghost predicate PagesAreFull(kind: Kind, pages: seq<seq<byte>>, groups: seq<seq<Record>>) {
    && |pages| == |groups|
    && (forall i :: 0 <= i < |pages| ==> |pages[i]| <= (if kind == ByName then 1023 else 1024) && groups[i] != [])
    && (forall i :: 0 < i < |pages| ==> Closed(kind, pages[i - 1], groups[i][0]))
  }

  lemma {:induction false} FullPages(kind: Kind, key: seq<byte>, gap: nat, pages: seq<seq<byte>>, groups: seq<seq<Record>>)
    requires ArePages(kind, key, gap, pages, groups)
    ensures PagesAreFull(kind, pages, groups)
  {
    hide Entries, Header;
    forall i | 0 <= i < |pages|
      ensures |pages[i]| <= (if kind == ByName then 1023 else 1024) && groups[i] != []
    {
      assert IsPage(kind, key, if i == 0 then 0 else gap, pages[i], groups[i]);
    }
    forall i | 0 < i < |pages|
      ensures Closed(kind, pages[i - 1], groups[i][0])
    {
      assert !HasRoom(kind, |pages[i - 1]|, groups[i][0]);
    }
  }

  lemma LastPage(kind: Kind, key: seq<byte>, gap: nat, results: seq<Record>, buf: seq<byte>, offset: nat,
                pages: seq<seq<byte>>, groups: seq<seq<Record>>)
    requires Filling(kind, key, gap, results, buf, offset, pages, groups, |results|, |results|)
    ensures ArePages(kind, key, gap, pages, groups) && Flat(groups) == results
  {
    hide Entries, ArePages, Flat;
    assert results[..|results|] == results;
  }

  // ---- reading the pages

  /** `strstr(s, newline)`: how many octets come before the first newline; a 0 octet, as after
      the data, ends the search. */
  function ToNewline(s: seq<byte>): (n: Option<nat>)
    ensures n.Some? ==> n.value < |s| && s[n.value] == NEWLINE
  {
    if s == [] || s[0] == NUL then None
    else if s[0] == NEWLINE then Some(0)
    else match ToNewline(s[1..])
         case None => None
         case Some(n) => Some(n + 1)
  }

  lemma {:induction false} ToNewlineOf(name: seq<byte>, rest: seq<byte>)
    requires NUL !in name && NEWLINE !in name
    ensures ToNewline(name + [NEWLINE] + rest) == Some(|name|)
  {
    var s := name + [NEWLINE] + rest;
    if name != [] {
      assert s[1..] == name[1..] + [NEWLINE] + rest;
      ToNewlineOf(name[1..], rest);
    }
  }

  /** What the entries in `s` say; nothing if they are cut short or lack a newline. */
  ghost function Read(kind: Kind, key: seq<byte>, s: seq<byte>): (rs: Option<seq<Record>>)
    requires kind == ByMd5 ==> |key| == 16
    decreases |s|
  {
    if s == [] then Some([])
    else if |s| < 6 || (kind == ByName && |s| < 22) then None
    else
      var a := Str2Addr(s[..6]);
      match if kind == ByName then Some(0) else ToNewline(s[6..])
      case None => None
      case Some(len) =>
        var r := if kind == ByName then Record(key, s[6..22], a.ip, a.port) else Record(s[6..6 + len], key, a.ip, a.port);
        Then([r], Read(kind, key, s[if kind == ByName then 22 else 6 + len + 1..]))
  }

  lemma ThreeParts<T>(s: seq<T>, a: seq<T>, b: seq<T>, c: seq<T>)
    requires s == (a + b) + c || s == a + (b + c)
    ensures s[..|a|] == a && s[|a|..|a| + |b|] == b && s[|a| + |b|..] == c
  {}

  lemma ReadByName(key: seq<byte>, r: Record, rest: seq<byte>)
    requires key == r.name
    ensures Read(ByName, key, Entry(ByName, r) + rest) == Then([r], Read(ByName, key, rest))
  {
    hide Str2Addr, Addr2Str, Then;
    var a, s := Addr2Str(Addr(r.ip, r.port)), Entry(ByName, r) + rest;
    AddrRoundTrip(Addr(r.ip, r.port));
    ThreeParts(s, a, r.md5, rest);
  }

  lemma ReadByMd5(key: seq<byte>, r: Record, rest: seq<byte>)
    requires |key| == 16 && key == r.md5 && GoodName(r.name)
    ensures Read(ByMd5, key, Entry(ByMd5, r) + rest) == Then([r], Read(ByMd5, key, rest))
  {
    hide Str2Addr, Addr2Str, ToNewline, Then;
    var a, s := Addr2Str(Addr(r.ip, r.port)), Entry(ByMd5, r) + rest;
    AddrRoundTrip(Addr(r.ip, r.port));
    ThreeParts(s, a, r.name + [NEWLINE], rest);
    ThreeParts(s, a, r.name, [NEWLINE] + rest);
    assert s[6..] == r.name + [NEWLINE] + rest;
    ToNewlineOf(r.name, rest);
  }

  lemma {:induction false} ReadEntries(kind: Kind, key: seq<byte>, rs: seq<Record>)
    requires Found(kind, key, rs)
    ensures Read(kind, key, Entries(kind, rs)) == Some(rs)
  {
    hide Entry, Read;
    ReadNothing(kind, key);
    if rs != [] {
      var r, rest := rs[0], Entries(kind, rs[1..]);
      assert r in rs;
      if kind == ByName {
        ReadByName(key, r, rest);
      } else {
        ReadByMd5(key, r, rest);
      }
      ReadEntries(kind, key, rs[1..]);
      assert rs == [r] + rs[1..];
    }
  }

  lemma ReadNothing(kind: Kind, key: seq<byte>)
    requires kind == ByMd5 ==> |key| == 16
    ensures Read(kind, key, []) == Some([])
  {}

  /** `whohas_response_handler_name` and `whohas_response_handler_md5` on one page: the name
      ends at the first newline, the md5 after 16 octets. */
  method ReadPage(kind: Kind, page: seq<byte>) returns (ok: bool, found: seq<Record>)
    requires kind == ByMd5 ==> |page| >= 16
    ensures ReadOne(kind, page) == if ok then Some(found) else None
  {
    hide ToNewline, Str2Addr, Then;
    found := [];
    var start := PageStart(kind, page);
    if start.None? {
      return false, [];
    }
    var key := PageKey(kind, page);
    var offset := start.value;
    ghost var all := Read(kind, key, page[offset..]);
    ThenNothing(all, []);
    while offset < |page|
      invariant offset <= |page|
      invariant all == Then(found, Read(kind, key, page[offset..]))
      decreases |page| - offset
    {
      var s := page[offset..];
      if |s| < 6 || (kind == ByName && |s| < 22) {
        ThenNothing(all, found);
        return false, found;
      }
      var a := Str2Addr(s[..6]);
      offset := offset + 6;
      if kind == ByName {
        var r := Record(key, s[6..22], a.ip, a.port);
        offset := offset + 16;
        assert page[offset..] == s[22..];
        ThenOne(found, r, Read(kind, key, s[22..]));
        found := found + [r];
      } else {
        var len := ToNewline(s[6..]);
        if len.None? {
          ThenNothing(all, found);
          return false, found;
        }
        var r := Record(s[6..6 + len.value], key, a.ip, a.port);
        offset := offset + len.value + 1;
        assert page[offset..] == s[6 + len.value + 1..];
        ThenOne(found, r, Read(kind, key, s[6 + len.value + 1..]));
        found := found + [r];
      }
    }
    assert page[offset..] == [];
    ThenNothing(all, found);
    ok := true;
  }

  ghost function Then(found: seq<Record>, rest: Option<seq<Record>>): Option<seq<Record>> {
    if rest.None? then None else Some(found + rest.value)
  }

  lemma ThenNothing(rest: Option<seq<Record>>, found: seq<Record>)
    ensures Then([], rest) == rest && Then(found, Some([])) == Some(found) && Then(found, None) == None
  {
    assert found + [] == found;
    if rest.Some? {
      assert [] + rest.value == rest.value;
    }
  }

  lemma ThenOne(found: seq<Record>, r: Record, rest: Option<seq<Record>>)
    ensures Then(found, Then([r], rest)) == Then(found + [r], rest)
  {
    if rest.Some? {
      assert found + ([r] + rest.value) == (found + [r]) + rest.value;
    }
  }

  function PageStart(kind: Kind, page: seq<byte>): (start: Option<nat>)
    requires kind == ByMd5 ==> |page| >= 16
    ensures start.Some? ==> start.value <= |page|
  {
    if kind == ByMd5 then Some(16)
    else match ToNewline(page)
         case None => None
         case Some(n) => Some(n + 1)
  }

  function PageKey(kind: Kind, page: seq<byte>): (key: seq<byte>)
    requires kind == ByMd5 ==> |page| >= 16
    requires PageStart(kind, page).Some?
    ensures kind == ByMd5 ==> |key| == 16
  {
    if kind == ByMd5 then page[..16] else page[..PageStart(kind, page).value - 1]
  }

  ghost function ReadOne(kind: Kind, page: seq<byte>): Option<seq<Record>> {
    if (kind == ByMd5 && |page| < 16) || PageStart(kind, page).None? then None
    else Read(kind, PageKey(kind, page), page[PageStart(kind, page).value..])
  }

  /** Pages one after the other; nothing if one of them cannot be read. */
  ghost function ReadAll(kind: Kind, pages: seq<seq<byte>>): Option<seq<Record>> {
    if pages == [] then Some([])
    else
      var before := ReadAll(kind, pages[..|pages| - 1]);
      if before.None? then None else Then(before.value, ReadOne(kind, pages[|pages| - 1]))
  }

  /** A page is read where its header ends. */
  lemma PageHeader(kind: Kind, key: seq<byte>, gap: nat, page: seq<byte>, group: seq<Record>)
    requires IsPage(kind, key, gap, page, group) && Found(kind, key, group)
    ensures |page| >= |Header(kind, key)| && PageStart(kind, page) == Some(|Header(kind, key)|) && PageKey(kind, page) == key
  {
    hide Entries, ToNewline;
    if kind == ByName {
      assert page == key + [NEWLINE] + page[|key| + 1..];
      ToNewlineOf(key, page[|key| + 1..]);
    }
  }

  lemma {:induction false} SubFound(kind: Kind, key: seq<byte>, groups: seq<seq<Record>>, i: nat)
    requires Found(kind, key, Flat(groups)) && i < |groups|
    ensures Found(kind, key, groups[i]) && Found(kind, key, Flat(groups[..|groups| - 1]))
  {
    var rest, g := groups[..|groups| - 1], groups[|groups| - 1];
    assert forall r :: r in Flat(rest) ==> r in Flat(groups);
    assert forall r :: r in g ==> r in Flat(groups);
    if i < |rest| {
      SubFound(kind, key, rest, i);
    }
  }

  /** A page without a gap is read back. */
  lemma PageReadBack(kind: Kind, key: seq<byte>, page: seq<byte>, group: seq<Record>)
    requires IsPage(kind, key, 0, page, group) && Found(kind, key, group)
    ensures ReadOne(kind, page) == Some(group)
  {
    hide Entries, Read, PageStart, PageKey;
    PageHeader(kind, key, 0, page, group);
    ReadEntries(kind, key, group);
  }

  /** Pages without a gap are read back as the results, in order. */
  lemma {:induction false} PagesReadBack(kind: Kind, key: seq<byte>, pages: seq<seq<byte>>, groups: seq<seq<Record>>)
    requires ArePages(kind, key, 0, pages, groups) && Found(kind, key, Flat(groups))
    ensures ReadAll(kind, pages) == Some(Flat(groups))
  {
    hide IsPage, ReadOne, Found;
    if pages != [] {
      var n := |pages| - 1;
      SubFound(kind, key, groups, n);
      PagesReadBack(kind, key, pages[..n], groups[..n]);
      PageReadBack(kind, key, pages[n], groups[n]);
    }
  }

  // ---- the gap in replies to searches by md5

  /** The handler for searches by md5 restarts at 17 instead of 16: an octet left over from the
      page before slips in, and the first entry of the page gets another name, if any. */
  lemma Misread(key: seq<byte>, b: byte, group: seq<Record>)
    requires Found(ByMd5, key, group) && group != []
    ensures var x := Read(ByMd5, key, [b] + Entries(ByMd5, group));
      x.None? || (x.value != [] && x.value[0].name != group[0].name)
  {
    hide Str2Addr, Addr2Str, Entries;
    var r, rest := group[0], Entries(ByMd5, group[1..]);
    assert r in group;
    var a, s := Addr2Str(Addr(r.ip, r.port)), [b] + Entries(ByMd5, group);
    FirstEntry(ByMd5, group);
    assert s[6..] == [a[5]] + (r.name + [NEWLINE] + rest);
    if a[5] != NUL && a[5] != NEWLINE {
      assert s[6..] == ([a[5]] + r.name) + [NEWLINE] + rest;
      ToNewlineOf([a[5]] + r.name, rest);
      assert s[6..6 + |r.name| + 1] == [a[5]] + r.name;
    }
  }

  lemma FirstEntry(kind: Kind, rs: seq<Record>)
    requires rs != []
    ensures Entries(kind, rs) == Entry(kind, rs[0]) + Entries(kind, rs[1..])
  {}

  lemma {:induction false} EntriesOf(kind: Kind, a: seq<Record>, b: seq<Record>)
    ensures Entries(kind, a + b) == Entries(kind, a) + Entries(kind, b)
  {
    hide Entry;
    if b == [] {
      assert a + b == a;
      NoEntries(kind);
    } else {
      var n := |b| - 1;
      EntriesOf(kind, a, b[..n]);
      EntriesNext(kind, a + b[..n], b[n]);
      EntriesNext(kind, b[..n], b[n]);
      assert a + b[..n] + [b[n]] == a + b && b[..n] + [b[n]] == b;
    }
  }

  lemma {:induction false} FlatBegins<T>(groups: seq<seq<T>>, n: nat)
    requires n <= |groups|
    ensures Flat(groups[..n]) <= Flat(groups)
    decreases |groups|
  {
    if n < |groups| {
      var rest := groups[..|groups| - 1];
      FlatBegins(rest, n);
      assert rest[..n] == groups[..n];
    } else {
      assert groups[..n] == groups;
    }
  }

  lemma {:induction false} ReadAllBegins(kind: Kind, pages: seq<seq<byte>>, n: nat)
    requires n <= |pages|
    ensures ReadAll(kind, pages).Some? ==> ReadAll(kind, pages[..n]).Some? && ReadAll(kind, pages[..n]).value <= ReadAll(kind, pages).value
    decreases |pages|
  {
    hide ReadOne;
    if n < |pages| {
      var rest := pages[..|pages| - 1];
      ReadAllBegins(kind, rest, n);
      assert rest[..n] == pages[..n];
    } else {
      assert pages[..n] == pages;
    }
  }

  lemma FlatOfOne<T>(groups: seq<seq<T>>)
    requires |groups| >= 1
    ensures Flat(groups[..1]) == groups[0]
  {
    assert groups[..1][..0] == [];
    assert Flat(groups[..1]) == Flat<T>([]) + groups[0];
  }

  lemma FlatOfTwo<T>(groups: seq<seq<T>>)
    requires |groups| >= 2
    ensures Flat(groups[..2]) == groups[0] + groups[1]
  {
    FlatOfOne(groups);
    assert groups[..2][..1] == groups[..1];
  }

  lemma ReadFirst(kind: Kind, pages: seq<seq<byte>>)
    requires |pages| >= 1
    ensures ReadAll(kind, pages[..1]) == ReadOne(kind, pages[0])
  {
    hide ReadOne, Then;
    assert pages[..1][..0] == [];
    ThenNothing(ReadOne(kind, pages[0]), []);
  }

  lemma ReadFirstTwo(kind: Kind, pages: seq<seq<byte>>)
    requires |pages| >= 2
    ensures ReadAll(kind, pages[..2]) ==
      if ReadOne(kind, pages[0]).None? then None else Then(ReadOne(kind, pages[0]).value, ReadOne(kind, pages[1]))
  {
    hide ReadOne, Then;
    ReadFirst(kind, pages);
    assert pages[..2][..1] == pages[..1];
  }

  /** A page with a gap is not read as it was meant. */
  lemma GapMisread(key: seq<byte>, page: seq<byte>, group: seq<Record>)
    requires IsPage(ByMd5, key, 1, page, group) && Found(ByMd5, key, group)
    ensures var x := ReadOne(ByMd5, page);
      x.None? || (x.value != [] && x.value[0].name != group[0].name)
  {
    hide Entries, Read;
    assert page[16..] == [page[16]] + page[17..];
    Misread(key, page[16], group);
  }

  lemma PrefixesDiffer<T>(a: seq<T>, x: seq<T>, y: seq<T>, all: seq<T>, other: seq<T>)
    requires a + x <= all && a + y <= other && x != [] && y != [] && x[0] != y[0]
    ensures all != other
  {
    assert (a + x)[|a|] == x[0] && (a + y)[|a|] == y[0];
  }

  /** The second page is not read as it was meant when it has a gap, so neither is the whole. */
  lemma SecondPageMisread(key: seq<byte>, pages: seq<seq<byte>>, groups: seq<seq<Record>>)
    requires ArePages(ByMd5, key, 1, pages, groups) && Found(ByMd5, key, Flat(groups)) && |pages| >= 2
    ensures ReadAll(ByMd5, pages) != Some(Flat(groups))
  {
    hide IsPage, Found, ReadOne, ReadAll, Flat;
    SubFound(ByMd5, key, groups, 0);
    SubFound(ByMd5, key, groups, 1);
    PageReadBack(ByMd5, key, pages[0], groups[0]);
    GapMisread(key, pages[1], groups[1]);
    GroupNotEmpty(key, 1, pages[1], groups[1]);
    ReadFirstTwo(ByMd5, pages);
    ReadAllBegins(ByMd5, pages, 2);
    FlatOfTwo(groups);
    FlatBegins(groups, 2);
    var x := ReadOne(ByMd5, pages[1]);
    if ReadAll(ByMd5, pages).Some? && x.Some? {
      PrefixesDiffer(groups[0], x.value, groups[1], ReadAll(ByMd5, pages).value, Flat(groups));
    }
  }

  lemma GroupNotEmpty(key: seq<byte>, gap: nat, page: seq<byte>, group: seq<Record>)
    requires IsPage(ByMd5, key, gap, page, group)
    ensures group != [] && |key| + gap <= |page| && |page| == |key| + gap + |Entries(ByMd5, group)| <= MAX_PACKET_DATA_LEN
  {
    hide Entries;
  }

  /** One page is enough if and only if everything fits on it. */
  lemma OnePage(key: seq<byte>, gap: nat, pages: seq<seq<byte>>, groups: seq<seq<Record>>)
    requires ArePages(ByMd5, key, gap, pages, groups) && |key| == 16
    ensures |pages| <= 1 <==> 16 + |Entries(ByMd5, Flat(groups))| <= MAX_PACKET_DATA_LEN
  {
    hide IsPage, Entries, Flat;
    NoEntries(ByMd5);
    if |pages| == 0 {
      NoResults(groups);
    } else {
      GroupNotEmpty(key, 0, pages[0], groups[0]);
      if |pages| == 1 {
        FlatOfOne(groups);
        assert groups[..1] == groups;
      } else {
        GroupNotEmpty(key, gap, pages[1], groups[1]);
        FlatOfTwo(groups);
        FlatBegins(groups, 2);
        var all, g := Flat(groups), groups[1];
        assert all == groups[0] + [g[0]] + all[|groups[0]| + 1..];
        EntriesOf(ByMd5, groups[0], [g[0]]);
        EntriesOf(ByMd5, groups[0] + [g[0]], all[|groups[0]| + 1..]);
        OneEntry(g[0]);
      }
    }
  }

  lemma NoResults(groups: seq<seq<Record>>)
    requires groups == []
    ensures Flat(groups) == []
  {}

  lemma OneEntry(r: Record)
    ensures |Entries(ByMd5, [r])| == 6 + |r.name| + 1
  {
    NoEntries(ByMd5);
    assert [r][1..] == [];
  }

  /** Replies to a search by md5 come through if and only if pages restart right behind the md5
      or everything fits on one page. */
  lemma Md5ReplyReadBack(key: seq<byte>, restart: nat, pages: seq<seq<byte>>, groups: seq<seq<Record>>)
    requires 16 <= restart <= 17 && ArePages(ByMd5, key, restart - 16, pages, groups) && Found(ByMd5, key, Flat(groups))
    ensures ReadAll(ByMd5, pages) == Some(Flat(groups)) <==> restart == 16 || 16 + |Entries(ByMd5, Flat(groups))| <= MAX_PACKET_DATA_LEN
  {
    hide IsPage, ReadOne, Found, Entries, ArePages, ReadAll, Flat;
    KeyLen(key, groups);
    OnePage(key, restart - 16, pages, groups);
    if restart == 16 {
      PagesReadBack(ByMd5, key, pages, groups);
    } else if |pages| >= 2 {
      SecondPageMisread(key, pages, groups);
    } else {
      GapDoesNotMatter(key, pages, groups);
      PagesReadBack(ByMd5, key, pages, groups);
    }
  }

  lemma KeyLen(key: seq<byte>, groups: seq<seq<Record>>)
    requires Found(ByMd5, key, Flat(groups))
    ensures |key| == 16
  {}

  lemma GapDoesNotMatter(key: seq<byte>, pages: seq<seq<byte>>, groups: seq<seq<Record>>)
    requires ArePages(ByMd5, key, 1, pages, groups) && |pages| <= 1
    ensures ArePages(ByMd5, key, 0, pages, groups)
  {
    hide IsPage, HasRoom;
  }

  /** Four results whose names are as long as a name can be: 16 + 4 * 260 octets. */
  function LongName(): (name: Name)
    ensures |name| == 253 && GoodName(name)
  {
    seq(253, i => 97)
  }

  function FourResults(md5: Md5, port: u16): seq<Record> {
    [Record(LongName(), md5, 1, port), Record(LongName(), md5, 2, port), Record(LongName(), md5, 3, port), Record(LongName(), md5, 4, port)]
  }

  /** Their reply, whose second page begins one octet too late, is not read back. */
  method FourResultsAreMisread(md5: Md5, port: u16) returns (pages: seq<seq<byte>>)
    ensures ReadAll(ByMd5, pages) != Some(FourResults(md5, port))
  {
    hide Entries, ArePages, ReadAll, Flat, LongName, GoodName;
    var results := FourResults(md5, port);
    ghost var groups;
    FourEntries(md5, port);
    pages, groups := Reply(ByMd5, md5, 17, results);
    Md5ReplyReadBack(md5, 17, pages, groups);
  }

  lemma FourEntries(md5: Md5, port: u16)
    ensures Found(ByMd5, md5, FourResults(md5, port)) && |Entries(ByMd5, FourResults(md5, port))| == 1040
  {
    hide LongName, GoodName;
    var rs := FourResults(md5, port);
    NoEntries(ByMd5);
    assert rs[3..][1..] == [];
    assert |Entries(ByMd5, rs[3..])| == 260;
    assert rs[2..][1..] == rs[3..];
    assert |Entries(ByMd5, rs[2..])| == 520;
    assert rs[1..][1..] == rs[2..];
    assert |Entries(ByMd5, rs[1..])| == 780;
  }
}
