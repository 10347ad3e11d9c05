/** Searches answered from the file index, end to end: `whohas_request_handler_name` and
    `whohas_request_handler_md5` on top of `get_by_name` and `get_by_md5`. */
module Answers {
  import opened Common
  import opened FileIndex
  import opened Paging

  /** What the searcher should be told. */
  ghost function Wanted(recs: set<Record>, kind: Kind, key: seq<byte>): set<Record> {
    set r | r in recs && (if kind == ByName then r.name else r.md5) == key
  }

  /** Exactly the matching records, none twice. */
  ghost predicate Lists(results: seq<Record>, want: set<Record>) {
    Distinct(results) && forall r :: r in results <==> r in want
  }

  /** The pages of an answer; read in order they list exactly the matching records. The pages
      of a search by md5 restart where they should only if `restart` is 16; the code has 17. */
  method Answer(index: Index, kind: Kind, key: seq<byte>, restart: nat) returns (pages: seq<seq<byte>>, ghost results: seq<Record>)
    requires index.Valid() && forall r :: r in index.recs ==> GoodName(r.name)
    requires if kind == ByName then GoodName(key) && restart == |key| + 1 else |key| == 16 && 16 <= restart <= 17
    ensures Lists(results, Wanted(index.recs, kind, key))
    ensures Distinct(results) && forall r :: r in results <==> r in index.recs && match kind case ByName => r.name == key case ByMd5 => r.md5 == key
    ensures forall i :: 0 <= i < |pages| ==> |pages[i]| <= MAX_PACKET_DATA_LEN
    ensures ReadAll(kind, pages) == Some(results) <==>
      kind == ByName || restart == 16 || 16 + |Entries(ByMd5, results)| <= MAX_PACKET_DATA_LEN
  {
    hide Coherent, ReadAll, Entries, ArePages, Flat;
    var found;
    if kind == ByName {
      found := index.ResultsByName(key);
    } else {
      found := index.ResultsByMd5(key);
    }
    ghost var groups;
    pages, groups := Reply(kind, key, restart, found);
    PagesAreShort(kind, key, restart - |Header(kind, key)|, pages, groups);
    results := found;
    if kind == ByName {
      PagesReadBack(kind, key, pages, groups);
    } else {
      Md5ReplyReadBack(key, restart, pages, groups);
    }
  }

  /** Both handlers take the key from behind the address in the payload, and restart their pages one
      octet behind it: right for a name, which a newline follows, and one too far for an md5. */
  method AnswerQuery(index: Index, kind: Kind, data: seq<byte>) returns (pages: seq<seq<byte>>, ghost results: seq<Record>)
    requires index.Valid() && forall r :: r in index.recs ==> GoodName(r.name)
    requires |data| >= 6 && if kind == ByName then GoodName(data[6..]) else |data[6..]| == 16
    ensures Lists(results, Wanted(index.recs, kind, data[6..]))
    ensures ReadAll(kind, pages) == Some(results) <==> kind == ByName || 16 + |Entries(ByMd5, results)| <= 1024
  {
    hide Coherent, ReadAll, Entries;
    pages, results := Answer(index, kind, data[6..], |data| - 6 + 1);
  }

  lemma PagesAreShort(kind: Kind, key: seq<byte>, gap: nat, pages: seq<seq<byte>>, groups: seq<seq<Record>>)
    requires ArePages(kind, key, gap, pages, groups)
    ensures forall i :: 0 <= i < |pages| ==> |pages[i]| <= MAX_PACKET_DATA_LEN
  {
    hide Entries;
    forall i | 0 <= i < |pages|
      ensures |pages[i]| <= MAX_PACKET_DATA_LEN
    {
      assert IsPage(kind, key, if i == 0 then 0 else gap, pages[i], groups[i]);
    }
  }
}
