/**
 * The UDP receiver: datagrams are collected into groups (one per frame), a single missing fragment
 * is rebuilt from the parity, several are asked for again, and complete frames go to the
 * resequencing buffer.
 */
module UdpReceivers {
  import opened Octets
  import opened Bytes
  import opened Options
  import opened MediaTypes
  import opened Fec
  import opened NackManagers
  import opened JitterBuffers
  import Timestamps

  datatype Assembled = Assembled(frameId: u32, captureUs: int, keyframe: bool, annexb: bytes)

  datatype Group = Group(
    fragmentCnt: u16,
    frameId: u32,
    captureUs: int,
    keyframe: bool,
    firstRecvUs: int,
    lastNackUs: int,
    fecSeen: bool,
    frags: seq<bytes>,   // an empty slot is a missing fragment
    parity: bytes)

  const NEW_GROUP := Group(0, 0, 0, false, 0, 0, false, [], [])
  const NACK_INTERVAL_US := 10_000
  const GIVE_UP_US := 250_000

  // ---- what one datagram does ----

  /** The group a datagram belongs to, set up from the header when it holds no slots yet. */
  function Admitted(g: Group, h: UdpHeader, captureUs: int, now: int): Group {
    if g.frags != [] then g
    else
      var cnt := if h.fragmentCnt > 0 then h.fragmentCnt - 1 else 0;
      g.(firstRecvUs := now, frameId := h.groupId, captureUs := captureUs, keyframe := h.Keyframe(),
         fragmentCnt := cnt, frags := seq(cnt, _ => []))
  }

  /** Storing the payload; None when the fragment number is out of range. */
  function Stored(g: Group, h: UdpHeader, payload: bytes): Option<Group> {
    if h.fragmentSeq == FEC_SEQ then Some(g.(fecSeen := true, parity := payload))
    else if h.fragmentSeq < |g.frags| then
      Some(if g.frags[h.fragmentSeq] == [] then g.(frags := g.frags[h.fragmentSeq := payload]) else g)
    else None
  }

  predicate Complete(g: Group) {
    Missing(g.frags) == 0
  }

  /** Exactly one block of the group, parity included, is missing, and it is a fragment. */
  predicate Repairable(g: Group) {
    !Complete(g) && g.fecSeen && Missing(g.frags + [g.parity]) == 1
  }

  function ExpectLen(g: Group): nat {
    var m := MaxLen(g.frags);
    if m > |g.parity| then m else |g.parity|
  }

  /** The fragments after the repair: the empty slot takes the XOR of everything known. */
  function RepairedFrags(g: Group): (fs: seq<bytes>)
    ensures |fs| == |g.frags|
  {
    seq(|g.frags|, i requires 0 <= i < |g.frags| =>
      if g.frags[i] == [] then Columns(g.frags + [g.parity], ExpectLen(g)) else g.frags[i])
  }

  function AssembledFrom(g: Group, frags: seq<bytes>): Assembled {
    Assembled(g.frameId, g.captureUs, g.keyframe, Concat(frags))
  }

  /** The empty slots, lowest first, as resend requests. */
  function MissingRequests(frameId: u32, frags: seq<bytes>): seq<Request>
    requires |frags| < 0x1_0000
  {
    if frags == [] then []
    else
      var n := |frags| - 1;
      MissingRequests(frameId, frags[..n]) + if frags[n] == [] then [Request(frameId, n)] else []
  }

  function NackPacket(rs: seq<Request>): bytes {
    Encode(BLANK.(payloadType := NACK, payloadLen := RECORD * |rs| % 0x1_0000)) + EncodeRequests(rs)
  }

  datatype Verdict =
    | Finished(out: Assembled)
    | Waiting(g: Group, asked: seq<bytes>)
    | GivenUp(lost: nat, asked: seq<bytes>)

  function Judged(g: Group, now: int): Verdict
    requires |g.frags| < 0x1_0000
  {
    if Complete(g) then Finished(AssembledFrom(g, g.frags))
    else if Repairable(g) then Finished(AssembledFrom(g, RepairedFrags(g)))
    else
      var ask := now - g.lastNackUs >= NACK_INTERVAL_US;
      var asked := if ask then [NackPacket(MissingRequests(g.frameId, g.frags))] else [];
      if now - g.firstRecvUs > GIVE_UP_US then GivenUp(Missing(g.frags), asked)
      else Waiting(if ask then g.(lastNackUs := now) else g, asked)
  }

  datatype Media = Media(
    groups: map<u32, Group>,
    done: Option<Assembled>,   // the frame handed to the resequencing buffer
    asked: seq<bytes>,         // request packets sent to the server
    lost: nat)

  ghost predicate WellSized(groups: map<u32, Group>) {
    forall k :: k in groups ==>
      groups[k].fragmentCnt == |groups[k].frags| && (groups[k].frags != [] ==> groups[k].frameId == k)
  }

  function OnMediaSpec(groups: map<u32, Group>, h: UdpHeader, payload: bytes, captureUs: int, now: int): Media
    requires WellSized(groups)
  {
    var g0 := if h.groupId in groups then groups[h.groupId] else NEW_GROUP;
    var g1 := Admitted(g0, h, captureUs, now);
    match Stored(g1, h, payload)
    case None => Media(groups[h.groupId := g1], None, [], 0)
    case Some(g2) =>
      match Judged(g2, now)
      case Finished(out) => Media(groups - {h.groupId}, Some(out), [], 0)
      case Waiting(g3, asked) => Media(groups[h.groupId := g3], None, asked, 0)
      case GivenUp(lost, asked) => Media(groups - {h.groupId}, None, asked, lost)
  }

  lemma OnMediaWellSized(groups: map<u32, Group>, h: UdpHeader, payload: bytes, captureUs: int, now: int)
    requires WellSized(groups)
    ensures WellSized(OnMediaSpec(groups, h, payload, captureUs, now).groups)
  {
    hide Missing, Repairable, Complete, RepairedFrags, NackPacket, MissingRequests;
  }

  /** Which datagrams reach on_media, and with what. */
  predicate IsMedia(d: bytes) {
    |d| >= HEADER_SIZE && MagicOk(d) && Decode(d).payloadType != STATS_JSON && Decode(d).payloadType != STATS_PONG
  }

  /** A ping reply that carries the eight octets of its sending time. */
  predicate IsPong(d: bytes) {
    |d| >= HEADER_SIZE + 8 && MagicOk(d) && Decode(d).payloadType == STATS_PONG
  }

  /** The moving average of the round-trip time. */
  function Smoothed(rttMs: real, sampleMs: real): real {
    if rttMs == 0.0 then sampleMs else rttMs * 0.875 + sampleMs * 0.125
  }

  /** Only the last write to a key shows, and a removal hides them all. */
  lemma SlotSettles(m: map<u32, Group>, k: u32, x: Group, y: Group, z: Group)
    ensures m[k := x][k := y][k := z] == m[k := z]
    ensures m[k := x][k := y] - {k} == m - {k}
  {
  }

  // ---- the code ----

  class UdpReceiver {
    var groups: map<u32, Group>
    var lastCaptureUs: int
    const jb: JitterBuffer<Assembled>
    var netLost: nat
    var curRttMs: real
    var toServer: seq<bytes>   // request packets sent

    constructor ()
      ensures groups == map[] && lastCaptureUs == 0 && netLost == 0 && curRttMs == 0.0 && toServer == []
      ensures fresh(jb) && jb.St() == Initial(256, 10_000)
    {
      groups, lastCaptureUs, netLost, curRttMs, toServer := map[], 0, 0, 0.0, [];
      jb := new JitterBuffer<Assembled>(256, 10_000);
    }

    method IsComplete(g: Group) returns (yes: bool)
      ensures yes == Complete(g)
    {
      MissingZero(g.frags);
      for i := 0 to |g.frags|
        invariant forall j :: 0 <= j < i ==> g.frags[j] != []
      {
        if g.frags[i] == [] {
          return false;
        }
      }
      return true;
    }

    method MissingCount(g: Group) returns (m: nat)
      ensures m == Missing(g.frags)
    {
      m := 0;
      for i := 0 to |g.frags|
        invariant m == Missing(g.frags[..i])
      {
        assert g.frags[..i + 1][..i] == g.frags[..i];
        if g.frags[i] == [] {
          m := m + 1;
        }
      }
      assert g.frags[..|g.frags|] == g.frags;
    }

    /** send_nack: one record per empty slot; nothing is sent when no slot is empty. */
    method SendNack(g: Group)
      requires g.fragmentCnt == |g.frags|
      modifies this`toServer
      ensures toServer == old(toServer) + if Complete(g) then [] else [NackPacket(MissingRequests(g.frameId, g.frags))]
    {
      hide EncodeRequest, Encode;
      var recs: bytes := [];
      ghost var rs: seq<Request> := [];
      for i := 0 to g.fragmentCnt
        invariant rs == MissingRequests(g.frameId, g.frags[..i]) && recs == EncodeRequests(rs)
        invariant |rs| == Missing(g.frags[..i])
        invariant toServer == old(toServer)
      {
        assert g.frags[..i + 1][..i] == g.frags[..i];
        if g.frags[i] == [] {
          var r := Request(g.frameId, i);
          assert (rs + [r])[..|rs|] == rs;
          recs := recs + EncodeRequest(r);
          rs := rs + [r];
        }
      }
      assert g.frags[..g.fragmentCnt] == g.frags;
      if recs == [] {
        return;
      }
      var pkt := RequestDatagram(recs);
      toServer := toServer + [pkt];
    }

    /** The header of a request in front of its records. */
    static method RequestDatagram(recs: bytes) returns (pkt: bytes)
      ensures pkt == Encode(BLANK.(payloadType := NACK, payloadLen := |recs| % 0x1_0000)) + recs
    {
      hide Encode;
      var buf := new byte[HEADER_SIZE + |recs|](_ => 0);
      var h := BLANK.(payloadType := NACK, payloadLen := |recs| % 0x1_0000);
      WriteHeader(h, buf);
      forall i | 0 <= i < |recs| {
        buf[HEADER_SIZE + i] := recs[i];
      }
      assert buf[..HEADER_SIZE] == Encode(h) && buf[HEADER_SIZE..] == recs;
      assert buf[..] == buf[..HEADER_SIZE] + buf[HEADER_SIZE..];
      pkt := buf[..];
    }

    /** finish: join the fragments, drop the group, hand the frame on. */
    method Finish(g: Group, now: int)
      modifies this`groups, jb
      ensures groups == old(groups) - {g.frameId}
      ensures var a := AssembledFrom(g, g.frags);
              jb.St() == PushSpec(old(jb.St()), a.frameId, a.captureUs, a, now).st
    {
      var annexb: bytes := [];
      for i := 0 to |g.frags|
        invariant annexb == Concat(g.frags[..i])
        invariant groups == old(groups) && jb.St() == old(jb.St())
      {
        assert g.frags[..i + 1] == g.frags[..i] + [g.frags[i]];
        ConcatSnoc(g.frags[..i], g.frags[i]);
        annexb := annexb + g.frags[i];
      }
      assert g.frags[..|g.frags|] == g.frags;
      var a := Assembled(g.frameId, g.captureUs, g.keyframe, annexb);
      groups := groups - {g.frameId};
      var ok, missing := jb.Push(g.frameId, g.captureUs, a, now);
    }

    /** The repair attempt of try_finalize, on a copy of the slots with the parity behind them. */
    method Repair(g: Group) returns (ok: bool, fixed: Group)
      requires !Complete(g) && g.fecSeen
      ensures ok == Repairable(g)
      ensures ok ==> fixed == g.(frags := RepairedFrags(g))
    {
      fixed := g;
      var expectLen := LongestOf(g.frags);
      expectLen := if expectLen > |g.parity| then expectLen else |g.parity|;
      var n := |g.frags|;
      ghost var before := g.frags + [g.parity];
      var known := new bytes[n + 1](i requires 0 <= i <= n => if i < n then g.frags[i] else g.parity);
      assert known[..] == before;
      ok := FecRecover(known, expectLen);
      if ok {
        fixed := g.(frags := known[..n]);
        assert known[..n] == RepairedFrags(g);
      }
    }

    method TryFinalize(gid: u32, now: int)
      requires gid in groups && groups[gid].frameId == gid && groups[gid].fragmentCnt == |groups[gid].frags|
      modifies `groups, `netLost, `toServer, jb
      ensures match Judged(old(groups[gid]), now)
              case Finished(out) =>
                && groups == old(groups) - {gid} && toServer == old(toServer) && netLost == old(netLost)
                && jb.St() == PushSpec(old(jb.St()), out.frameId, out.captureUs, out, now).st
              case Waiting(g, asked) =>
                && groups == old(groups)[gid := g] && toServer == old(toServer) + asked && netLost == old(netLost)
                && jb.St() == old(jb.St())
              case GivenUp(lost, asked) =>
                && groups == old(groups) - {gid} && toServer == old(toServer) + asked && netLost == old(netLost) + lost
                && jb.St() == old(jb.St())
    {
      hide RepairedFrags, NackPacket, MissingRequests, PushSpec, Concat, Missing;
      var g := groups[gid];
      var complete := IsComplete(g);
      if complete {
        Finish(g, now);
        return;
      }
      if g.fecSeen {
        var ok, fixed := Repair(g);
        if ok {
          Finish(fixed, now);
          return;
        }
      }
      assert toServer + [] == toServer;
      if now - g.lastNackUs >= NACK_INTERVAL_US {
        groups := groups[gid := g.(lastNackUs := now)];
        SendNack(g);
      }
      if now - g.firstRecvUs > GIVE_UP_US {
        var m := MissingCount(g);
        netLost := netLost + m;
        groups := groups - {gid};
      }
    }

    method OnMedia(h: UdpHeader, payload: bytes, now: int)
      requires WellSized(groups)
      modifies `groups, `lastCaptureUs, `netLost, `toServer, jb
      ensures WellSized(groups)
      ensures lastCaptureUs == Timestamps.Extend(old(lastCaptureUs), h.captureLo, now)
      ensures var m := OnMediaSpec(old(groups), h, payload, lastCaptureUs, now);
              && groups == m.groups && toServer == old(toServer) + m.asked && netLost == old(netLost) + m.lost
              && jb.St() == match m.done
                            case None => old(jb.St())
                            case Some(a) => PushSpec(old(jb.St()), a.frameId, a.captureUs, a, now).st
    {
      hide Judged, PushSpec, Missing, Admitted, Stored;
      var capture := Timestamps.ExtendFrom(lastCaptureUs, h.captureLo, now);
      lastCaptureUs := capture;
      OnMediaWellSized(groups, h, payload, capture, now);
      ghost var before := groups;
      var g, inRange := Store(h, payload, capture, now);
      if !inRange {
        assert toServer + [] == toServer;
        return;
      }
      ghost var g1 := groups[h.groupId];
      groups := groups[h.groupId := g];
      ghost var verdict := Judged(g, now);
      SlotSettles(before, h.groupId, g1, g, if verdict.Waiting? then verdict.g else g);
      TryFinalize(h.groupId, now);
      assert toServer + [] == toServer;
    }

    /** The first half of on_media: find or set up the group and store the payload in its slot. */
    method Store(h: UdpHeader, payload: bytes, captureUs: int, now: int) returns (g: Group, inRange: bool)
      requires WellSized(groups)
      modifies this`groups
      ensures var g1 := Admitted(if h.groupId in old(groups) then old(groups)[h.groupId] else NEW_GROUP, h,
              captureUs, now);
              && groups == old(groups)[h.groupId := g1]
              && match Stored(g1, h, payload)
                 case None => !inRange
                 case Some(g2) => inRange && g == g2 && g.frameId == h.groupId && g.fragmentCnt == |g.frags|
    {
      g := if h.groupId in groups then groups[h.groupId] else NEW_GROUP;
      if g.frags == [] {
        var cnt := if h.fragmentCnt > 0 then h.fragmentCnt - 1 else 0;
        g := g.(firstRecvUs := now, frameId := h.groupId, captureUs := captureUs, keyframe := h.Keyframe(),
                fragmentCnt := cnt, frags := seq(cnt, _ => []));
      }
      groups := groups[h.groupId := g];
      if h.fragmentSeq == FEC_SEQ {
        g := g.(fecSeen := true, parity := payload);
      } else if h.fragmentSeq < g.fragmentCnt {
        if g.frags[h.fragmentSeq] == [] {
          g := g.(frags := g.frags[h.fragmentSeq := payload]);
        }
      } else {
        return g, false;
      }
      inRange := true;
    }

    method UpdateRtt(ms: real)
      modifies this`curRttMs, jb
      ensures curRttMs == Smoothed(old(curRttMs), ms) && jb.St() == SetRttSpec(old(jb.St()), curRttMs)
    {
      curRttMs := if curRttMs == 0.0 then ms else curRttMs * 0.875 + ms * 0.125;
      jb.SetRttMs(curRttMs);
    }

    /**
     * The receive loop's dispatch of one datagram. `sentUs` is what the eight octets of a ping reply
     * say in the host's byte order.
     */
    method OnDatagram(d: bytes, sentUs: int, now: int)
      requires WellSized(groups)
      modifies this, jb
      ensures WellSized(groups)
      ensures !IsMedia(d) ==> groups == old(groups) && lastCaptureUs == old(lastCaptureUs) && toServer == old(toServer)
                              && netLost == old(netLost)
      ensures IsPong(d) ==>
                && curRttMs == Smoothed(old(curRttMs), (now - sentUs) as real / 1000.0)
                && jb.St() == SetRttSpec(old(jb.St()), curRttMs)
      ensures !IsPong(d) ==> curRttMs == old(curRttMs)
      ensures !IsMedia(d) && !IsPong(d) ==> jb.St() == old(jb.St())
      ensures IsMedia(d) ==>
                && lastCaptureUs == Timestamps.Extend(old(lastCaptureUs), Decode(d).captureLo, now)
                && var m := OnMediaSpec(old(groups), Decode(d), d[HEADER_SIZE..], lastCaptureUs, now);
                   && groups == m.groups && toServer == old(toServer) + m.asked && netLost == old(netLost) + m.lost
                   && jb.St() == match m.done
                                 case None => old(jb.St())
                                 case Some(a) => PushSpec(old(jb.St()), a.frameId, a.captureUs, a, now).st
    {
      hide OnMediaSpec, PushSpec, Smoothed, SetRttSpec;
      if |d| < HEADER_SIZE {
        return;
      }
      if MagicOk(d) {
        var h := ReadHeader(d);
        if h.payloadType == STATS_JSON {
          return;
        }
        if h.payloadType == STATS_PONG {
          if |d| - HEADER_SIZE >= 8 {
            UpdateRtt((now - sentUs) as real / 1000.0);
          }
          return;
        }
        OnMedia(h, d[HEADER_SIZE..], now);
      }
    }
  }
}
