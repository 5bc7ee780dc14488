/** The sender's resend cache: a bounded window over everything sent, answering 6-octet requests. */
module NackManagers {
  import opened Bytes
  import opened Options

  datatype Sent = Sent(groupId: u32, fragmentSeq: u16, raw: bytes)

  /** The last `capacity` entries of a history. */
  function Window(history: seq<Sent>, capacity: nat): seq<Sent> {
    if |history| <= capacity then history else history[|history| - capacity..]
  }

  predicate Has(s: Sent, groupId: u32, fragmentSeq: u16) {
    s.groupId == groupId && s.fragmentSeq == fragmentSeq
  }

  /** The newest entry with this key. */
  function FindLast(items: seq<Sent>, groupId: u32, fragmentSeq: u16): Option<bytes> {
    if items == [] then None
    else
      var s := items[|items| - 1];
      if Has(s, groupId, fragmentSeq) then Some(s.raw)
      else FindLast(items[..|items| - 1], groupId, fragmentSeq)
  }

  // ---- requests ----

  const RECORD := 6

  datatype Request = Request(groupId: u32, fragmentSeq: u16)

  function EncodeRequest(r: Request): (s: bytes)
    ensures |s| == RECORD
  {
    [Octet3(r.groupId), Octet2(r.groupId), Octet1(r.groupId), Low(r.groupId),
     Octet1(r.fragmentSeq), Low(r.fragmentSeq)]
  }

  function DecodeRequest(s: bytes, at: nat): Request
    requires at + RECORD <= |s|
  {
    Request(Number32(s[at], s[at + 1], s[at + 2], s[at + 3]), Number16(s[at + 4], s[at + 5]))
  }

  function EncodeRequests(rs: seq<Request>): (s: bytes)
    ensures |s| == RECORD * |rs|
  {
    if rs == [] then [] else EncodeRequests(rs[..|rs| - 1]) + EncodeRequest(rs[|rs| - 1])
  }

  /** The whole records of a payload; a trailing partial one is ignored. */
  function Requests(payload: bytes): (rs: seq<Request>)
    ensures |rs| == |payload| / RECORD
  {
    seq(|payload| / RECORD, i requires 0 <= i < |payload| / RECORD => DecodeRequest(payload, RECORD * i))
  }

  lemma GroupReadBack(r: Request, before: bytes, after: bytes)
    ensures DecodeRequest(before + EncodeRequest(r) + after, |before|).groupId == r.groupId
  {
    hide Octet1, Octet2, Octet3, Low, Number16, Number32;
    Number32Octets(r.groupId);
  }

  lemma FragmentReadBack(r: Request, before: bytes, after: bytes)
    ensures DecodeRequest(before + EncodeRequest(r) + after, |before|).fragmentSeq == r.fragmentSeq
  {
    hide Octet1, Octet2, Octet3, Low, Number16, Number32;
    Number16Octets(r.fragmentSeq);
  }

  lemma {:induction false} RequestsRoundTrip(rs: seq<Request>)
    ensures Requests(EncodeRequests(rs)) == rs
  {
    if rs != [] {
      hide DecodeRequest, EncodeRequest;
      var n := |rs| - 1;
      var front, last := EncodeRequests(rs[..n]), EncodeRequest(rs[n]);
      RequestsRoundTrip(rs[..n]);
      GroupReadBack(rs[n], front, []);
      FragmentReadBack(rs[n], front, []);
      assert front + last + [] == front + last;
      forall i | 0 <= i < n
        ensures DecodeRequest(front + last, RECORD * i) == rs[i]
      {
        assert Requests(front)[i] == rs[..n][i];
        DecodeIgnoresTail(front, last, RECORD * i);
      }
    }
  }

  lemma DecodeIgnoresTail(s: bytes, tail: bytes, at: nat)
    requires at + RECORD <= |s|
    ensures DecodeRequest(s + tail, at) == DecodeRequest(s, at)
  {
  }

  /** What a list of requests makes the sender send again, in request order. */
  function Resends(items: seq<Sent>, rs: seq<Request>): seq<bytes> {
    if rs == [] then []
    else
      var r := rs[|rs| - 1];
      var hit := FindLast(items, r.groupId, r.fragmentSeq);
      Resends(items, rs[..|rs| - 1]) + if hit.Some? then [hit.value] else []
  }

  // ---- what find means ----

  ghost predicate LatestAt(items: seq<Sent>, i: nat, groupId: u32, fragmentSeq: u16) {
    && i < |items| && Has(items[i], groupId, fragmentSeq)
    && forall j :: i < j < |items| ==> !Has(items[j], groupId, fragmentSeq)
  }

  /** find answers with the latest entry of the key, and fails exactly when there is none. */
  lemma {:induction false} FindLastMeaning(items: seq<Sent>, groupId: u32, fragmentSeq: u16) returns (i: nat)
    ensures FindLast(items, groupId, fragmentSeq).None? <==>
              forall j :: 0 <= j < |items| ==> !Has(items[j], groupId, fragmentSeq)
    ensures FindLast(items, groupId, fragmentSeq).Some? ==>
              LatestAt(items, i, groupId, fragmentSeq) && FindLast(items, groupId, fragmentSeq).value == items[i].raw
  {
    i := 0;
    if items != [] {
      var n := |items| - 1;
      if Has(items[n], groupId, fragmentSeq) {
        i := n;
      } else {
        i := FindLastMeaning(items[..n], groupId, fragmentSeq);
        assert forall j :: 0 <= j < n ==> items[..n][j] == items[j];
      }
    }
  }

  // ---- consecutive numbers ----

  /** Every packet remembered under the next 16-bit number, in group 0. */
  ghost predicate Numbered(history: seq<Sent>) {
    forall i :: 0 <= i < |history| ==> history[i].groupId == 0 && history[i].fragmentSeq == i % 0x1_0000
  }

  lemma NumberedFurther(past: seq<Sent>, more: seq<Sent>)
    requires Numbered(past) && forall i :: 0 <= i < |more| ==> Has(more[i], 0, (|past| + i) % 0x1_0000)
    ensures Numbered(past + more)
  {
    forall i | |past| <= i < |past + more|
      ensures Has((past + more)[i], 0, i % 0x1_0000)
    {
      assert Has(more[i - |past|], 0, (|past| + (i - |past|)) % 0x1_0000);
    }
  }

  /** In a window of at most 65536 entries numbered like this no two share a number. */
  lemma NumbersDistinct(history: seq<Sent>, capacity: nat, a: nat, b: nat)
    requires Numbered(history) && capacity <= 0x1_0000 && a < b < |Window(history, capacity)|
    ensures var w := Window(history, capacity); w[a].fragmentSeq != w[b].fragmentSeq
  {
    var off := if |history| <= capacity then 0 else |history| - capacity;
    NearNumbersDiffer(off + a, off + b);
  }

  lemma NearNumbersDiffer(x: nat, y: nat)
    requires x < y < x + 0x1_0000
    ensures x % 0x1_0000 != y % 0x1_0000
  {
  }

  // ---- the code ----

  class NackManager {
    var items: seq<Sent>
    const cache: nat
    ghost var history: seq<Sent>

    /** The cache is always exactly the last `cache` entries of everything remembered. */
    ghost predicate Valid()
      reads this
    {
      items == Window(history, cache)
    }

    constructor (cachePackets: nat)
      ensures Valid() && history == [] && cache == cachePackets
    {
      cache := cachePackets;
      items, history := [], [];
    }

    method Remember(groupId: u32, fragmentSeq: u16, raw: bytes)
      requires Valid()
      modifies this
      ensures Valid() && history == old(history) + [Sent(groupId, fragmentSeq, raw)]
    {
      ghost var x, past := Sent(groupId, fragmentSeq, raw), history;
      history := history + [x];
      if cache == 0 {
        assert Window(history, 0) == [] && items == [];
        return;
      }
      assert past[0..] == past;
      while |items| >= cache
        invariant history == past + [x]
        invariant |items| <= |past| && items == past[|past| - |items|..]
        invariant |items| == |past| || |items| >= cache - 1
        decreases |items|
      {
        items := items[1..];
      }
      assert items + [x] == history[|past| - |items|..];
      items := items + [Sent(groupId, fragmentSeq, raw)];
    }

    /** Newest entry first. */
    method Find(groupId: u32, fragmentSeq: u16) returns (found: Option<bytes>)
      ensures found == FindLast(items, groupId, fragmentSeq)
    {
      var i := |items|;
      assert items[..i] == items;
      while i > 0
        invariant 0 <= i <= |items|
        invariant FindLast(items, groupId, fragmentSeq) == FindLast(items[..i], groupId, fragmentSeq)
      {
        i := i - 1;
        assert items[..i + 1][..i] == items[..i];
        if items[i].groupId == groupId && items[i].fragmentSeq == fragmentSeq {
          return Some(items[i].raw);
        }
      }
      return None;
    }

    /** Answers a request payload; the returned packets go back through the sender. */
    method OnNack(payload: bytes) returns (resent: seq<bytes>)
      ensures resent == Resends(items, Requests(payload))
    {
      var n := |payload| / RECORD;
      ghost var rs := Requests(payload);
      resent := [];
      for i := 0 to n
        invariant resent == Resends(items, rs[..i])
      {
        var r := DecodeRequest(payload, RECORD * i);
        var hit := Find(r.groupId, r.fragmentSeq);
        assert rs[..i + 1][..i] == rs[..i];
        if hit.Some? {
          resent := resent + [hit.value];
        }
      }
      assert rs[..n] == rs;
    }
  }
}
