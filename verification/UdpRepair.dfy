/** One group of fragments: what it can hold, and what it is worth when it finishes. */
module UdpRepair {
  import opened Octets
  import opened Bytes
  import opened Options
  import opened MediaTypes
  import opened Fec
  import opened UdpServers
  import opened UdpReceivers

  /** Frames the wire format can carry: at most 65534 fragments, and something to send. */
  ghost predicate Sendable(f: Frame, size: nat) {
    size > 0 && f.data != [] && |Fragments(f, size)| <= 65534
  }

  /** The payload of datagram i. */
  function Block(f: Frame, size: nat, i: nat): bytes
    requires size > 0 && i <= |Fragments(f, size)|
  {
    if i < |Fragments(f, size)| then Fragments(f, size)[i] else Parity(Fragments(f, size))
  }

  function BlockHeader(f: Frame, size: nat, i: nat): UdpHeader
    requires size > 0 && i <= |Fragments(f, size)|
  {
    var k := |Fragments(f, size)|;
    FrameHeader(f, if i < k then DATA else FEC, if i < k then i % 0x1_0000 else FEC_SEQ, k, |Block(f, size, i)|)
  }

  /** Every datagram of a frame reaches on_media. */
  lemma DatagramIsMedia(f: Frame, size: nat, i: nat)
    requires size > 0 && i <= |Fragments(f, size)|
    ensures IsMedia(Datagram(f, size, i))
  {
    hide Fragments, Parity, FrameHeader, Decode;
    DatagramArrives(f, size, i);
    HeaderType(f, size, i);
    PayloadFollows(BlockHeader(f, size, i), Block(f, size, i));
  }

  /** It does so with the header it was written with and its block as payload. */
  lemma DatagramArrives(f: Frame, size: nat, i: nat)
    requires size > 0 && i <= |Fragments(f, size)|
    ensures var d := Datagram(f, size, i);
            |d| >= HEADER_SIZE && Decode(d) == BlockHeader(f, size, i) && d[HEADER_SIZE..] == Block(f, size, i)
  {
    hide Fragments, Parity, Decode, FrameHeader;
    assert Datagram(f, size, i) == Encode(BlockHeader(f, size, i)) + Block(f, size, i);
    DecodeEncode(BlockHeader(f, size, i), Block(f, size, i));
    PayloadFollows(BlockHeader(f, size, i), Block(f, size, i));
  }

  lemma HeaderType(f: Frame, size: nat, i: nat)
    requires size > 0 && i <= |Fragments(f, size)|
    ensures BlockHeader(f, size, i).payloadType == if i < |Fragments(f, size)| then DATA else FEC
  {
  }

  /** What the receiver reads off datagram i of a frame that fits the header fields. */
  lemma HeaderFields(f: Frame, size: nat, i: nat)
    requires Sendable(f, size) && i <= |Fragments(f, size)|
    ensures var h, k := BlockHeader(f, size, i), |Fragments(f, size)|;
            && h.groupId == f.frameId % TWO32 && h.captureLo == f.captureUs % TWO32
            && h.fragmentCnt == k + 1 && h.Keyframe() == f.keyframe
            && h.fragmentSeq == (if i < k then i else FEC_SEQ)
  {
    hide Fragments;
  }

  // ---- the group invariant ----

  /**
   * Slot i is empty or holds fragment i of the frame; the parity is the frame's, once it came.
   * Rebuilt fragments never stay in a group: a repair finishes it.
   */
  ghost predicate Faithful(g: Group, f: Frame, size: nat)
    requires size > 0
  {
    var fs := Fragments(f, size);
    && g.frameId == f.frameId % TWO32 && g.keyframe == f.keyframe
    && g.fragmentCnt == |g.frags| == |fs|
    && (forall i :: 0 <= i < |fs| ==> g.frags[i] == [] || g.frags[i] == fs[i])
    && g.parity == if g.fecSeen then Parity(fs) else []
  }

  /** The group after datagram i has been stored. */
  function StoredBlock(g: Group, f: Frame, size: nat, i: nat): Group
    requires Sendable(f, size) && Faithful(g, f, size) && i <= |Fragments(f, size)|
  {
    if i == |Fragments(f, size)| then g.(fecSeen := true, parity := Parity(Fragments(f, size)))
    else g.(frags := g.frags[i := Fragments(f, size)[i]])
  }

  lemma AdmittedFaithful(f: Frame, size: nat, i: nat, captureUs: int, now: int)
    requires Sendable(f, size) && i <= |Fragments(f, size)|
    ensures var g := Admitted(NEW_GROUP, BlockHeader(f, size, i), captureUs, now);
            Faithful(g, f, size) && g.frags != [] && g.captureUs == captureUs && g.firstRecvUs == now
            && Missing(g.frags) == |g.frags| && !g.fecSeen
  {
    hide Fragments, BlockHeader, Parity;
    HeaderFields(f, size, i);
    FragmentsNonEmpty(f, size);
    AllMissing(Admitted(NEW_GROUP, BlockHeader(f, size, i), captureUs, now).frags);
  }

  lemma {:induction false} AllMissing(ds: seq<bytes>)
    requires forall i :: 0 <= i < |ds| ==> ds[i] == []
    ensures Missing(ds) == |ds|
  {
    if ds != [] {
      AllMissing(ds[..|ds| - 1]);
    }
  }

  lemma StoredFaithful(g: Group, f: Frame, size: nat, i: nat)
    requires Sendable(f, size) && Faithful(g, f, size) && i <= |Fragments(f, size)|
    ensures Stored(g, BlockHeader(f, size, i), Block(f, size, i)) == Some(StoredBlock(g, f, size, i))
    ensures Faithful(StoredBlock(g, f, size, i), f, size)
  {
    hide Fragments, BlockHeader, Parity;
    HeaderFields(f, size, i);
    if i < |Fragments(f, size)| && g.frags[i] != [] {
      assert g.frags[i := Fragments(f, size)[i]] == g.frags;
    }
  }

  // ---- what a finishing group is worth ----

  function Last(fs: seq<bytes>): bytes
    requires |fs| > 0
  {
    fs[|fs| - 1]
  }

  /** The zeros a rebuilt last fragment gains. */
  function LastPad(f: Frame, size: nat): nat
    requires size > 0
  {
    var fs := Fragments(f, size);
    if MaxLen(fs) > |Last(fs)| then MaxLen(fs) - |Last(fs)| else 0
  }

  lemma LastPadSmall(f: Frame, size: nat)
    requires Sendable(f, size)
    ensures LastPad(f, size) < size
  {
    ChopMaxLen(f.data, size);
    ChopSizes(f.data, size, |Fragments(f, size)| - 1);
  }

  /**
   * The frame comes back exactly, even from a rebuilt last fragment, just when that fragment is as long as
   * the rest.
   */
  lemma LastPadZero(f: Frame, size: nat)
    requires Sendable(f, size)
    ensures LastPad(f, size) == 0 <==> |f.data| <= size || |f.data| % size == 0
  {
    ChopMaxLen(f.data, size);
    LastLen(f.data, size);
    ChopSizes(f.data, size, |Fragments(f, size)| - 1);
  }

  lemma {:induction false} LastLen(data: bytes, size: nat)
    requires size > 0 && data != []
    ensures |Last(Chop(data, size))| == size <==> |data| % size == 0
    decreases |data|
  {
    if |data| > size {
      LastLen(data[size..], size);
      ModStep(|data|, size);
      assert Last(Chop(data, size)) == Last(Chop(data[size..], size));
    } else if |data| == size {
      DivUnique(size, size, 1, 0);
    } else {
      DivUnique(|data|, size, 0, |data|);
    }
  }

  lemma ModStep(x: nat, d: nat)
    requires 0 < d <= x
    ensures x % d == (x - d) % d
  {
    DivStep(x, d);
    assert x == x / d * d + x % d;
    assert x - d == (x - d) / d * d + (x - d) % d;
    assert (x / d) * d == ((x - d) / d) * d + d;
  }

  /** The frame as it is handed on: the bytes sent, and zeros only behind a rebuilt last fragment. */
  ghost predicate Restored(out: Assembled, lastArrived: bool, f: Frame, size: nat)
    requires size > 0
  {
    && out.frameId == f.frameId % TWO32 && out.keyframe == f.keyframe
    && out.annexb == f.data + Zeros(if lastArrived then 0 else LastPad(f, size))
  }

  lemma RestoredExactly(out: Assembled, lastArrived: bool, f: Frame, size: nat)
    requires Sendable(f, size) && Restored(out, lastArrived, f, size)
    ensures out.annexb == f.data <==> lastArrived || |f.data| <= size || |f.data| % size == 0
    ensures f.data <= out.annexb && |out.annexb| - |f.data| < size
    ensures forall i :: |f.data| <= i < |out.annexb| ==> out.annexb[i] == 0
  {
    hide LastPad;
    LastPadZero(f, size);
    LastPadSmall(f, size);
    var z := if lastArrived then 0 else LastPad(f, size);
    assert Zeros(0) == [];
    assert f.data + [] == f.data;
    assert |out.annexb| == |f.data| + z;
  }

  lemma FragmentsNonEmpty(f: Frame, size: nat)
    requires Sendable(f, size)
    ensures forall i :: 0 <= i < |Fragments(f, size)| ==> Fragments(f, size)[i] != []
    ensures Parity(Fragments(f, size)) != []
    ensures |Fragments(f, size)| > 0
  {
    forall i | 0 <= i < |Fragments(f, size)|
      ensures Fragments(f, size)[i] != []
    {
      ChopSizes(f.data, size, i);
    }
    ChopMaxLen(f.data, size);
  }

  lemma CompleteIsWhole(g: Group, f: Frame, size: nat)
    requires Sendable(f, size) && Faithful(g, f, size) && Complete(g)
    ensures g.frags == Fragments(f, size)
    ensures Restored(AssembledFrom(g, g.frags), true, f, size)
  {
    hide Parity, Fragments;
    MissingZero(g.frags);
    FragmentsNonEmpty(f, size);
    assert g.frags == Fragments(f, size);
    ChopJoins(f.data, size);
    FragmentsAre(f, size);
    assert f.data + Zeros(0) == f.data;
  }

  lemma FragmentsAre(f: Frame, size: nat)
    requires size > 0
    ensures Fragments(f, size) == Chop(f.data, size)
  {
  }

  /** A repairable group is the whole frame with exactly one slot emptied. */
  lemma RepairableShape(g: Group, f: Frame, size: nat) returns (m: nat)
    requires Sendable(f, size) && Faithful(g, f, size) && Repairable(g)
    ensures m < |Fragments(f, size)| && g.frags[m] == []
    ensures g.frags == Fragments(f, size)[m := []] && g.parity == Parity(Fragments(f, size))
  {
    hide Parity, Fragments;
    var fs := Fragments(f, size);
    FragmentsNonEmpty(f, size);
    MissingZero(g.frags);
    m :| 0 <= m < |g.frags| && g.frags[m] == [];
    MissingAppend(g.frags, g.parity);
    forall i | 0 <= i < |fs|
      ensures g.frags[i] == fs[m := []][i]
    {
      if i != m && g.frags[i] == [] {
        MissingUnique(g.frags, i, m);
      }
    }
  }

  lemma {:induction false} MaxLenDrop(ds: seq<bytes>, m: nat)
    requires m < |ds|
    ensures MaxLen(ds[m := []]) <= MaxLen(ds)
  {
    forall d | d in ds[m := []]
      ensures |d| <= MaxLen(ds)
    {
      if d != [] {
        assert d in ds;
      }
    }
  }

  lemma RepairedSlots(g: Group, f: Frame, size: nat, m: nat)
    requires Sendable(f, size) && Faithful(g, f, size) && Repairable(g)
    requires m < |Fragments(f, size)|
    requires g.frags == Fragments(f, size)[m := []] && g.parity == Parity(Fragments(f, size))
    ensures var fs := Fragments(f, size); RepairedFrags(g) == fs[m := PadTo(fs[m], MaxLen(fs))]
  {
    hide Fragments, XorAt, Xor, Missing, PadTo;
    var fs := Fragments(f, size);
    var n := MaxLen(fs);
    FragmentsNonEmpty(f, size);
    MaxLenDrop(fs, m);
    assert ExpectLen(g) == n;
    assert fs[m] in fs;
    ErasureLaw(fs, m, n);
  }

  lemma PaddedSlotJoins(fs: seq<bytes>, m: nat, n: nat)
    requires m < |fs| && |fs[m]| <= n && (m < |fs| - 1 ==> |fs[m]| == n)
    ensures Concat(fs[m := PadTo(fs[m], n)]) == Concat(fs) + Zeros(if m == |fs| - 1 then n - |fs[m]| else 0)
  {
    if m < |fs| - 1 {
      assert Zeros(0) == [];
      assert PadTo(fs[m], n) == fs[m];
      assert fs[m := fs[m]] == fs;
      assert Concat(fs) + [] == Concat(fs);
    } else {
      var z := Zeros(n - |fs[m]|);
      assert fs == fs[..m] + [fs[m]];
      assert fs[m := PadTo(fs[m], n)] == fs[..m] + [fs[m] + z];
      ConcatSnoc(fs[..m], fs[m]);
      ConcatSnoc(fs[..m], fs[m] + z);
      assert Concat(fs[..m]) + (fs[m] + z) == (Concat(fs[..m]) + fs[m]) + z;
    }
  }

  lemma RepairIsWhole(g: Group, f: Frame, size: nat)
    requires Sendable(f, size) && Faithful(g, f, size) && Repairable(g)
    ensures Restored(AssembledFrom(g, RepairedFrags(g)), Last(g.frags) != [], f, size)
  {
    hide Parity, RepairedFrags, Concat, Missing, Repairable, PadTo, Faithful, MaxLen, Chop, Zeros;
    FaithfulSize(g, f, size);
    var fs := Fragments(f, size);
    var m := RepairableShape(g, f, size);
    RepairedSlots(g, f, size, m);
    FragmentsNonEmpty(f, size);
    assert Last(g.frags) != [] <==> m != |fs| - 1;
    FragmentFits(f, size, m);
    PaddedSlotJoins(fs, m, MaxLen(fs));
    ChopJoins(f.data, size);
  }

  lemma FragmentFits(f: Frame, size: nat, m: nat)
    requires size > 0 && m < |Fragments(f, size)|
    ensures var fs := Fragments(f, size);
            |fs[m]| <= MaxLen(fs) && (m < |fs| - 1 ==> |fs[m]| == MaxLen(fs))
  {
    ChopMaxLen(f.data, size);
    ChopSizes(f.data, size, m);
  }

  /** Whenever a faithful group finishes, what it hands on is the frame. */
  lemma FinishedIsWhole(g: Group, f: Frame, size: nat, now: int)
    requires Sendable(f, size) && Faithful(g, f, size) && Judged(g, now).Finished?
    ensures |g.frags| > 0 && Restored(Judged(g, now).out, Last(g.frags) != [], f, size)
    ensures Judged(g, now).out.captureUs == g.captureUs
  {
    hide Restored, Faithful, Concat, Fragments, Repairable, RepairedFrags, Missing;
    assert |g.frags| > 0 by { FragmentsNonEmpty(f, size); FaithfulSize(g, f, size); }
    if Complete(g) {
      CompleteIsWhole(g, f, size);
      MissingZero(g.frags);
    } else {
      RepairIsWhole(g, f, size);
    }
  }

  lemma FaithfulSize(g: Group, f: Frame, size: nat)
    requires size > 0 && Faithful(g, f, size)
    ensures |g.frags| == |Fragments(f, size)| && g.frameId == f.frameId % TWO32 && g.keyframe == f.keyframe
  {
  }

  /** What on_media makes of a stored datagram is what try_finalize makes of the group. */
  lemma MediaIsJudged(groups: map<u32, Group>, h: UdpHeader, payload: bytes, captureUs: int, now: int, g2: Group)
    requires WellSized(groups)
    requires |g2.frags| < 0x1_0000
    requires var g0 := if h.groupId in groups then groups[h.groupId] else NEW_GROUP;
             Stored(Admitted(g0, h, captureUs, now), h, payload) == Some(g2)
    ensures var m := OnMediaSpec(groups, h, payload, captureUs, now);
            match Judged(g2, now)
            case Finished(out) => m.done == Some(out) && m.groups == groups - {h.groupId}
            case Waiting(g3, _) => m.done == None && m.groups == groups[h.groupId := g3]
            case GivenUp(_, _) => m.done == None && m.groups == groups - {h.groupId}
  {
    hide Admitted, Stored, Judged;
  }

  /** Why empty frames are left out of Sendable: a group for one never finishes, whatever arrives. */
  lemma EmptyFrameNeverFinishes(g: Group, f: Frame, size: nat, now: int)
    requires size > 0 && f.data == [] && Faithful(g, f, size)
    ensures !Judged(g, now).Finished?
  {
    EmptyFragments(f, size);
    EmptyParity(Fragments(f, size));
    EmptyGroup(g, f, size);
    hide Fragments, Parity, XorAt, Missing, Faithful, RepairedFrags, AssembledFrom, NackPacket, MissingRequests;
    NothingHeld();
  }

  lemma EmptyFragments(f: Frame, size: nat)
    requires size > 0 && f.data == []
    ensures Fragments(f, size) == [[]]
  {
  }

  lemma EmptyGroup(g: Group, f: Frame, size: nat)
    requires size > 0 && Fragments(f, size) == [[]] && Parity([[]]) == [] && Faithful(g, f, size)
    ensures g.frags == [[]] && g.parity == []
  {
    hide Fragments, Parity;
    assert g.frags[0] == [];
  }

  /** One empty slot and an empty parity: neither complete nor repairable. */
  lemma NothingHeld()
    ensures Missing([[]]) == 1 && Missing([[]] + [[]]) == 2
  {
    var none: seq<bytes>, nothing: bytes := [], [];
    MissingAppend(none, nothing);
    assert none + [nothing] == [nothing];
    MissingAppend([nothing], nothing);
  }

  lemma EmptyParity(fs: seq<bytes>)
    requires forall d :: d in fs ==> d == []
    ensures Parity(fs) == []
  {
  }
}
