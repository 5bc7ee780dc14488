/**
 * Cutting an Annex-B byte stream into NAL units: the scan for 3- and 4-octet start codes, and
 * exactly which streams it cuts back into the units they were joined from.
 */
module NalUnits {
  import opened Bytes
  import opened Options

  /** Length of the start code at the head of s, 0 if there is none. */
  function CodeLen(s: bytes): (n: nat)
    ensures n <= |s|
  {
    if |s| >= 3 && s[0] == 0 && s[1] == 0 && s[2] == 1 then 3
    else if |s| >= 4 && s[0] == 0 && s[1] == 0 && s[2] == 0 && s[3] == 1 then 4
    else 0
  }

  /** Where the first start code begins; the whole length if there is none. */
  function FirstCode(s: bytes): (n: nat)
    ensures n <= |s|
  {
    if s == [] || CodeLen(s) > 0 then 0 else 1 + FirstCode(s[1..])
  }

  lemma {:induction false} FirstCodeFacts(s: bytes, i: nat)
    ensures i < FirstCode(s) ==> CodeLen(s[i..]) == 0
    ensures FirstCode(s) < |s| ==> CodeLen(s[FirstCode(s)..]) > 0
  {
    if s != [] && CodeLen(s) == 0 {
      FirstCodeFacts(s[1..], if i > 0 then i - 1 else 0);
      assert 0 < i <= |s| ==> s[1..][i - 1..] == s[i..];
      assert s[1..][FirstCode(s[1..])..] == s[FirstCode(s)..];
    }
  }

  /** Conversely, the first position with a start code is what the scan finds. */
  lemma {:induction false} FirstCodeIs(s: bytes, n: nat)
    requires n <= |s| && (n < |s| ==> CodeLen(s[n..]) > 0)
    requires forall i :: 0 <= i < n ==> CodeLen(s[i..]) == 0
    ensures FirstCode(s) == n
  {
    if n > 0 {
      assert s[0..] == s;
      assert s[1..][n - 1..] == s[n..];
      forall i | 0 <= i < n - 1
        ensures CodeLen(s[1..][i..]) == 0
      {
        assert s[1..][i..] == s[i + 1..];
      }
      FirstCodeIs(s[1..], n - 1);
    } else {
      assert s[0..] == s;
    }
  }

  /** The NAL units of a stream, as the sender cuts them: it stops at the first empty one. */
  function Nalus(s: bytes): seq<bytes>
    decreases |s|
  {
    var at := FirstCode(s);
    if at == |s| then []
    else
      FirstCodeFacts(s, at);
      var rest := s[at + CodeLen(s[at..])..];
      var len := FirstCode(rest);
      if len == 0 then [] else [rest[..len]] + Nalus(rest[len..])
  }

  // ---- joined streams ----

  datatype Nal = Nal(code4: bool, body: bytes)

  function StartCode(code4: bool): bytes {
    if code4 then [0, 0, 0, 1] else [0, 0, 1]
  }

  function Joined(ns: seq<Nal>): bytes {
    if ns == [] then [] else StartCode(ns[0].code4) + (ns[0].body + Joined(ns[1..]))
  }

  function Bodies(ns: seq<Nal>): seq<bytes> {
    if ns == [] then [] else [ns[0].body] + Bodies(ns[1..])
  }

  ghost predicate NoCodeInside(body: bytes) {
    forall i :: 0 <= i && i + 2 < |body| ==> !(body[i] == 0 && body[i + 1] == 0 && body[i + 2] == 1)
  }

  /** Non-empty, no start code inside, and not ending in zero in front of a 3-octet start code. */
  ghost predicate Fits(body: bytes, tail: seq<Nal>) {
    && body != [] && NoCodeInside(body)
    && (tail != [] && !tail[0].code4 ==> body[|body| - 1] != 0)
  }

  ghost predicate Separable(ns: seq<Nal>) {
    ns != [] ==> Fits(ns[0].body, ns[1..]) && Separable(ns[1..])
  }

  lemma JoinedHead(ns: seq<Nal>)
    ensures ns != [] ==> CodeLen(Joined(ns)) == |StartCode(ns[0].code4)| && |Joined(ns)| >= 3
    ensures ns != [] ==> Joined(ns)[..3] == [0, 0, if ns[0].code4 then 0 else 1]
    ensures ns == [] ==> Joined(ns) == []
  {
  }

  /** Scanning a joined stream finds the first body's end exactly when that body fits. */
  lemma BodyEndFound(body: bytes, tail: seq<Nal>)
    requires body != []
    ensures FirstCode(body + Joined(tail)) == |body| <==> Fits(body, tail)
  {
    var t := Joined(tail);
    var s := body + t;
    JoinedHead(tail);
    assert s[|body|..] == t;
    if Fits(body, tail) {
      forall i | 0 <= i < |body|
        ensures CodeLen(s[i..]) == 0
      {
        NoCodeAcross(body, tail, i);
      }
      FirstCodeIs(s, |body|);
    } else {
      var i := MisfitHasCode(body, tail);
      FirstCodeFacts(s, i);
    }
  }

  lemma NoCodeAcross(body: bytes, tail: seq<Nal>, i: nat)
    requires Fits(body, tail) && i < |body|
    ensures CodeLen((body + Joined(tail))[i..]) == 0
  {
    hide Joined;
    JoinedHead(tail);
    var t := Joined(tail);
    var s := (body + t)[i..];
    var left := |body| - i;
    assert forall k :: 0 <= k < |s| ==> s[k] == if k < left then body[i + k] else t[k - left];
    if left >= 3 {
      assert !(s[0] == 0 && s[1] == 0 && s[2] == 1);
      if left >= 4 {
        assert !(body[i + 1] == 0 && body[i + 1 + 1] == 0 && body[i + 1 + 2] == 1);
      }
    }
    if t != [] {
      assert t[0] == t[..3][0] && t[1] == t[..3][1] && t[2] == t[..3][2];
    }
  }

  lemma MisfitHasCode(body: bytes, tail: seq<Nal>) returns (i: nat)
    requires body != [] && !Fits(body, tail)
    ensures i < |body| && CodeLen((body + Joined(tail))[i..]) > 0
  {
    hide Joined;
    var t := Joined(tail);
    if !NoCodeInside(body) {
      i :| 0 <= i && i + 2 < |body| && body[i] == 0 && body[i + 1] == 0 && body[i + 2] == 1;
      var h := (body + t)[i..];
      assert h[0] == 0 && h[1] == 0 && h[2] == 1;
    } else {
      i := |body| - 1;
      JoinedHead(tail);
      assert (body + t)[i..] == [0] + t;
      assert t == t[..3] + t[3..];
      assert [0] + t == [0, 0, 0, 1] + t[3..];
    }
  }

  /** One step of the cutter on a joined stream. */
  lemma CutHead(ns: seq<Nal>)
    requires ns != []
    ensures var rest := ns[0].body + Joined(ns[1..]);
            var len := FirstCode(rest);
            Nalus(Joined(ns)) == if len == 0 then [] else [rest[..len]] + Nalus(rest[len..])
  {
    hide Nalus, FirstCode, CodeLen;
    JoinedAfterCode(ns);
    hide Joined, StartCode;
    JoinedHead(ns);
    CutAtHead(Joined(ns));
  }

  lemma JoinedAfterCode(ns: seq<Nal>)
    requires ns != []
    ensures |Joined(ns)| >= |StartCode(ns[0].code4)| > 0
    ensures Joined(ns)[|StartCode(ns[0].code4)|..] == ns[0].body + Joined(ns[1..])
  {
    DropPrefix(StartCode(ns[0].code4), ns[0].body + Joined(ns[1..]));
  }

  lemma DropPrefix(a: bytes, b: bytes)
    ensures (a + b)[|a|..] == b
  {
  }

  lemma CutAtHead(s: bytes)
    requires CodeLen(s) > 0
    ensures var rest := s[CodeLen(s)..];
            var len := FirstCode(rest);
            Nalus(s) == if len == 0 then [] else [rest[..len]] + Nalus(rest[len..])
  {
    hide CodeLen;
    assert FirstCode(s) == 0 && s[0..] == s;
  }

  /**
   * The cutter gives back exactly the units a stream was joined from, for any mix of 3- and
   * 4-octet start codes, if and only if every unit is non-empty, has no start code inside, and does
   * not end in a zero octet in front of a 3-octet start code.
   */
  lemma {:induction false} CutInvertsJoin(ns: seq<Nal>)
    ensures Nalus(Joined(ns)) == Bodies(ns) <==> Separable(ns)
  {
    if ns != [] {
      var body, tail := ns[0].body, ns[1..];
      CutHead(ns);
      CutInvertsJoin(tail);
      hide FirstCode, Fits, Nalus, Joined, CodeLen;
      if body == [] {
        EmptyBodyStops(ns);
      } else {
        BodyEndFound(body, tail);
        CutOff(body, Joined(tail), FirstCode(body + Joined(tail)), Bodies(tail));
      }
    } else {
      NothingToCut();
    }
  }

  lemma NothingToCut()
    ensures Nalus([]) == []
  {
  }

  /** Cutting off the first n octets gives the first body and the rest exactly when n is its length. */
  lemma CutOff(body: bytes, rest: bytes, n: nat, more: seq<bytes>)
    requires body != [] && n <= |body + rest|
    ensures var s := body + rest;
            (if n == 0 then [] else [s[..n]] + Nalus(s[n..])) == [body] + more <==> n == |body| && Nalus(rest) == more
  {
    hide Nalus;
    var s := body + rest;
    if n == |body| {
      assert s[..n] == body && s[n..] == rest;
      assert ([body] + Nalus(rest))[1..] == Nalus(rest) && ([body] + more)[1..] == more;
    } else if n != 0 {
      assert |s[..n]| == n;
      assert ([s[..n]] + Nalus(s[n..]))[0] == s[..n] && ([body] + more)[0] == body;
    }
  }

  lemma EmptyBodyStops(ns: seq<Nal>)
    requires ns != [] && ns[0].body == []
    ensures Nalus(Joined(ns)) != Bodies(ns) && !Fits(ns[0].body, ns[1..])
  {
    CutHead(ns);
    JoinedHead(ns[1..]);
    assert [] + Joined(ns[1..]) == Joined(ns[1..]);
  }

  // ---- the code ----

  /** The first loop of next_nalu: the next start code at or after pos, |d| if there is none. */
  method FindCode(d: bytes, pos: nat) returns (at: nat, len: nat)
    requires pos <= |d|
    ensures at == pos + FirstCode(d[pos..])
    ensures at < |d| ==> len == CodeLen(d[at..]) > 0
  {
    hide FirstCode;
    var i := pos;
    while i + 2 < |d| + 1 && i < |d|
      invariant pos <= i <= |d|
      invariant FirstCode(d[pos..]) == i - pos + FirstCode(d[i..])
    {
      assert d[i..][1..] == d[i + 1..];
      FirstCodeStep(d[i..]);
      if d[i] == 0 && d[i + 1] == 0 {
        if i + 2 < |d| && d[i + 2] == 1 {
          return i, 3;
        }
        if i + 3 < |d| && d[i + 2] == 0 && d[i + 3] == 1 {
          return i, 4;
        }
      }
      i := i + 1;
    }
    ShortHasNoCode(d[i..]);
    return |d|, 0;
  }

  /** The second loop: where the unit starting at nalStart ends. */
  method FindEnd(d: bytes, nalStart: nat) returns (end: nat)
    requires nalStart <= |d|
    ensures end == nalStart + FirstCode(d[nalStart..])
  {
    hide FirstCode;
    end := |d|;
    var j := nalStart;
    while j + 2 < |d|
      invariant nalStart <= j <= |d| && end == |d|
      invariant FirstCode(d[nalStart..]) == j - nalStart + FirstCode(d[j..])
    {
      assert d[j..][1..] == d[j + 1..];
      FirstCodeStep(d[j..]);
      if d[j] == 0 && d[j + 1] == 0 && (d[j + 2] == 1 || (j + 3 < |d| && d[j + 2] == 0 && d[j + 3] == 1)) {
        return j;
      }
      j := j + 1;
    }
    ShortHasNoCode(d[j..]);
  }

  lemma FirstCodeStep(s: bytes)
    requires s != []
    ensures FirstCode(s) == if CodeLen(s) > 0 then 0 else 1 + FirstCode(s[1..])
  {
  }

  lemma NalusStep(s: bytes)
    ensures var at := FirstCode(s);
            if at == |s| then Nalus(s) == []
            else
              at + CodeLen(s[at..]) <= |s| &&
              var rest := s[at + CodeLen(s[at..])..];
              var n := FirstCode(rest);
              Nalus(s) == if n == 0 then [] else [rest[..n]] + Nalus(rest[n..])
  {
    hide CodeLen, FirstCode;
    FirstCodeFacts(s, FirstCode(s));
  }

  /** next_nalu: the next unit at or after pos; None ends the frame. */
  method NextNalu(d: bytes, pos: nat) returns (r: Option<(nat, nat)>)
    requires pos <= |d|
    ensures match r
            case None => Nalus(d[pos..]) == []
            case Some((start, len)) =>
              pos < start && len > 0 && start + len <= |d|
              && Nalus(d[pos..]) == [d[start..start + len]] + Nalus(d[start + len..])
  {
    hide Nalus, FirstCode, CodeLen;
    var scStart, scLen := FindCode(d, pos);
    NalusStep(d[pos..]);
    ghost var s, at := d[pos..], scStart - pos;
    if scStart == |d| {
      return None;
    }
    var nalStart := scStart + scLen;
    assert s[at..] == d[scStart..];
    assert s[at + scLen..] == d[nalStart..];
    var end := FindEnd(d, nalStart);
    ghost var rest, n := d[nalStart..], end - nalStart;
    if nalStart >= end {
      return None;
    }
    assert rest[..n] == d[nalStart..end] && rest[n..] == d[end..];
    return Some((nalStart, end - nalStart));
  }

  lemma {:induction false} ShortHasNoCode(s: bytes)
    requires |s| <= 2
    ensures FirstCode(s) == |s|
  {
    if s != [] {
      ShortHasNoCode(s[1..]);
    }
  }
}
