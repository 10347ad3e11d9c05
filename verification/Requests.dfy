/** The recorded queries of a superpeer (src/client/fifo_request.c) and their ageing by the
    periodic sweep (src/client/peer_list_checker.c:87-98). */
module Requests {
  import opened Common

  const REQUEST_TTL := 3

  /** What identifies a query: its packet index and the peer that asked. */
  datatype Key = Key(id: u16, ip: u32, port: u16)

  datatype Request = Request(key: Key, ttl: nat)

  predicate Known(reqs: seq<Request>, key: Key) {
    exists i :: 0 <= i < |reqs| && reqs[i].key == key
  }

  /** No query is recorded twice, and none lives longer than it should. */
  ghost predicate ValidRequests(reqs: seq<Request>) {
    && (forall i, j :: 0 <= i < j < |reqs| ==> reqs[i].key != reqs[j].key)
    && (forall i :: 0 <= i < |reqs| ==> reqs[i].ttl <= REQUEST_TTL)
  }

  /** One sweep drops the expired queries and ages the others. */
  ghost function Swept(reqs: seq<Request>): (r: seq<Request>)
    ensures |r| <= |reqs|
  {
    if reqs == [] then []
    else
      var n := |reqs| - 1;
      Swept(reqs[..n]) + (if reqs[n].ttl == 0 then [] else [Request(reqs[n].key, reqs[n].ttl - 1)])
  }

  /** A recorded query is aged by one, and dropped when it cannot age. */
  lemma {:induction false} SweptHolds(reqs: seq<Request>, key: Key, t: nat)
    ensures Request(key, t) in Swept(reqs) <==> Request(key, t + 1) in reqs
  {
    if reqs != [] {
      var n := |reqs| - 1;
      SweptHolds(reqs[..n], key, t);
      assert reqs == reqs[..n] + [reqs[n]];
    }
  }

  lemma {:induction false} SweptKeys(reqs: seq<Request>, key: Key)
    ensures Known(Swept(reqs), key) ==> Known(reqs, key) && exists t: nat :: t > 0 && Request(key, t) in reqs
  {
    if Known(Swept(reqs), key) {
      var i :| 0 <= i < |Swept(reqs)| && Swept(reqs)[i].key == key;
      var t := Swept(reqs)[i].ttl;
      assert Swept(reqs)[i] == Request(key, t) && Request(key, t) in Swept(reqs);
      SweptHolds(reqs, key, t);
      var j :| 0 <= j < |reqs| && reqs[j] == Request(key, t + 1);
      assert reqs[j].key == key;
    }
  }

  lemma {:induction false} SweptIsValid(reqs: seq<Request>)
    requires ValidRequests(reqs)
    ensures ValidRequests(Swept(reqs))
  {
    if reqs != [] {
      var n := |reqs| - 1;
      SweptIsValid(reqs[..n]);
      SweptKeys(reqs[..n], reqs[n].key);
      assert !Known(reqs[..n], reqs[n].key);
    }
  }

  lemma RecordedTtl(reqs: seq<Request>, key: Key, t: nat)
    ensures Request(key, t) in reqs ==> Known(reqs, key)
    ensures Known(reqs, key) && ValidRequests(reqs) ==> exists u: nat :: Request(key, u) in reqs && u <= REQUEST_TTL
    ensures ValidRequests(reqs) && Request(key, t) in reqs ==> forall u: nat :: Request(key, u) in reqs ==> u == t
  {
    if Request(key, t) in reqs {
      var i :| 0 <= i < |reqs| && reqs[i] == Request(key, t);
      assert reqs[i].key == key;
    }
    if Known(reqs, key) {
      var i :| 0 <= i < |reqs| && reqs[i].key == key;
      assert reqs[i] == Request(key, reqs[i].ttl) && Request(key, reqs[i].ttl) in reqs;
    }
  }

  /** A query that has no sweep left is forgotten by the next one. */
  lemma SweptForgets(reqs: seq<Request>, key: Key)
    requires ValidRequests(reqs) && Request(key, 0) in reqs
    ensures !Known(Swept(reqs), key)
  {
    SweptKeys(reqs, key);
    RecordedTtl(reqs, key, 0);
  }

  lemma NewIsValid(reqs: seq<Request>, key: Key)
    requires ValidRequests(reqs) && !Known(reqs, key)
    ensures ValidRequests([Request(key, REQUEST_TTL)] + reqs)
    ensures forall k :: Known([Request(key, REQUEST_TTL)] + reqs, k) <==> Known(reqs, k) || k == key
  {
    var r := [Request(key, REQUEST_TTL)] + reqs;
    assert r[0].key == key;
    forall k | Known(reqs, k)
      ensures Known(r, k)
    {
      var i :| 0 <= i < |reqs| && reqs[i].key == k;
      assert r[i + 1].key == k;
    }
  }

  class RequestList {
    var reqs: seq<Request>

    constructor ()
      ensures reqs == []
    {
      reqs := [];
    }

    method GetRequestNode(key: Key) returns (found: bool)
      ensures found <==> Known(reqs, key)
    {
      var i := 0;
      while i < |reqs|
        invariant i <= |reqs| && forall j :: 0 <= j < i ==> reqs[j].key != key
      {
        if reqs[i].key == key {
          return true;
        }
        i := i + 1;
      }
      return false;
    }

    /** `insert_request`; false when the query is recorded already. */
    method InsertRequest(key: Key) returns (added: bool)
      modifies this
      ensures added == !Known(old(reqs), key)
      ensures reqs == if added then [Request(key, 3)] + old(reqs) else old(reqs)
    {
      var known := GetRequestNode(key);
      if !known {
        reqs := [Request(key, REQUEST_TTL)] + reqs;
      }
      return !known;
    }

    method Sweep()
      modifies this
      ensures reqs == Swept(old(reqs))
    {
      var i, kept := 0, [];
      while i < |reqs|
        invariant i <= |reqs| && kept == Swept(reqs[..i])
      {
        assert reqs[..i + 1][..i] == reqs[..i];
        if reqs[i].ttl != 0 {
          kept := kept + [Request(reqs[i].key, reqs[i].ttl - 1)];
        }
        i := i + 1;
      }
      assert reqs[..i] == reqs;
      reqs := kept;
    }
  }
}
