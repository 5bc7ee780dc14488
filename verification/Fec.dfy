/** The XOR erasure code: one parity block repairs any single missing block of its group. */
module Fec {
  import opened Octets
  import opened Bytes

  /** Octet i of a block, zero past its end. */
  function At(d: bytes, i: nat): byte {
    if i < |d| then d[i] else 0
  }

  /** Column i of the group: the XOR of octet i of every block. */
  function XorAt(ds: seq<bytes>, i: nat): byte {
    if ds == [] then 0 else Xor(XorAt(ds[..|ds| - 1], i), At(ds[|ds| - 1], i))
  }

  function MaxLen(ds: seq<bytes>): (m: nat)
    ensures forall d :: d in ds ==> |d| <= m
    ensures m > 0 ==> exists d :: d in ds && |d| == m
  {
    if ds == [] then 0
    else
      var m, last := MaxLen(ds[..|ds| - 1]), ds[|ds| - 1];
      if |last| > m then assert last in ds; |last| else m
  }

  /** The columns 0 .. n-1 as one block. */
  function Columns(ds: seq<bytes>, n: nat): (p: bytes)
    ensures |p| == n
  {
    seq(n, i requires 0 <= i => XorAt(ds, i))
  }

  function Parity(ds: seq<bytes>): bytes {
    Columns(ds, MaxLen(ds))
  }

  /** How many slots are missing (empty). */
  function Missing(ds: seq<bytes>): (m: nat)
    ensures m <= |ds|
  {
    if ds == [] then 0
    else Missing(ds[..|ds| - 1]) + if ds[|ds| - 1] == [] then 1 else 0
  }

  // ---- laws ----

  lemma XorSwap(a: byte, b: byte, c: byte)
    ensures Xor(Xor(a, b), c) == Xor(Xor(a, c), b)
  {
    hide Xor;
    XorAssociates(a, b, c); XorAssociates(a, c, b); XorCommutes(b, c);
  }

  /** Emptying a slot takes its octet out of the column. */
  lemma {:induction false} XorAtDrop(ds: seq<bytes>, m: nat, i: nat)
    requires m < |ds|
    ensures XorAt(ds, i) == Xor(XorAt(ds[m := []], i), At(ds[m], i))
  {
    hide Xor;
    var n := |ds| - 1;
    if m == n {
      assert ds[m := []][..n] == ds[..n];
      XorZero(XorAt(ds[..n], i));
    } else {
      XorAtDrop(ds[..n], m, i);
      assert ds[m := []][..n] == ds[..n][m := []];
      XorSwap(XorAt(ds[..n][m := []], i), At(ds[m], i), At(ds[n], i));
    }
  }

  lemma {:induction false} XorAtBeyond(ds: seq<bytes>, i: nat)
    requires MaxLen(ds) <= i
    ensures XorAt(ds, i) == 0
  {
    hide Xor;
    if ds != [] {
      XorAtBeyond(ds[..|ds| - 1], i);
      assert ds[|ds| - 1] in ds;
      XorZero(0);
    }
  }

  lemma XorAtParity(ds: seq<bytes>, i: nat)
    ensures At(Parity(ds), i) == XorAt(ds, i)
  {
    if i >= MaxLen(ds) {
      XorAtBeyond(ds, i);
    }
  }

  lemma ErasureColumn(ds: seq<bytes>, m: nat, i: nat)
    requires m < |ds|
    ensures XorAt(ds[m := []] + [Parity(ds)], i) == At(ds[m], i)
  {
    hide Xor;
    var rest := ds[m := []];
    var known := rest + [Parity(ds)];
    assert known[..|known| - 1] == rest;
    XorAtParity(ds, i);
    XorAtDrop(ds, m, i);
    // rest ^ (rest ^ lost) == lost
    var r, x := XorAt(rest, i), At(ds[m], i);
    XorCommutes(r, Xor(r, x)); XorCommutes(r, x); XorSwap(r, x, r); XorSelf(r);
    XorCommutes(0, x); XorZero(x);
  }

  /**
   * The erasure law: drop block m, keep the parity, and XOR-ing what is left over at least the
   * parity's length gives block m back, zero-padded to that length.
   */
  lemma ErasureLaw(ds: seq<bytes>, m: nat, n: nat)
    requires m < |ds| && n >= |ds[m]|
    ensures Columns(ds[m := []] + [Parity(ds)], n) == PadTo(ds[m], n)
  {
    hide Xor, XorAt, Parity;
    var known := ds[m := []] + [Parity(ds)];
    forall i: nat | i < n
      ensures Columns(known, n)[i] == PadTo(ds[m], n)[i]
    {
      ErasureColumn(ds, m, i);
    }
  }

  lemma {:induction false} MissingAppend(ds: seq<bytes>, d: bytes)
    ensures Missing(ds + [d]) == Missing(ds) + if d == [] then 1 else 0
  {
    assert (ds + [d])[..|ds|] == ds;
  }

  lemma {:induction false} MissingZero(ds: seq<bytes>)
    ensures Missing(ds) == 0 <==> forall i :: 0 <= i < |ds| ==> ds[i] != []
  {
    if ds != [] {
      var s := ds[..|ds| - 1];
      MissingZero(s);
      assert forall i :: 0 <= i < |s| ==> s[i] == ds[i];
    }
  }

  /** Filling an empty slot removes exactly one from the count. */
  lemma {:induction false} MissingFill(ds: seq<bytes>, m: nat, d: bytes)
    requires m < |ds| && ds[m] == [] && d != []
    ensures Missing(ds[m := d]) == Missing(ds) - 1
  {
    var n := |ds| - 1;
    if m == n {
      assert ds[m := d][..n] == ds[..n];
    } else {
      MissingFill(ds[..n], m, d);
      assert ds[m := d][..n] == ds[..n][m := d];
    }
  }

  /** When exactly one slot is missing, two empty slots are the same slot. */
  lemma {:induction false} MissingUnique(ds: seq<bytes>, a: nat, b: nat)
    requires Missing(ds) == 1 && a < |ds| && b < |ds| && ds[a] == [] && ds[b] == []
    ensures a == b
  {
    if a != b {
      var filled := ds[a := [0]];
      assert filled[b] == [];
      MissingZero(filled);
      MissingFill(ds, a, [0]);
    }
  }

  /** The repaired group: every slot as it was, except the one empty slot, which gets the columns. */
  ghost predicate Repaired(before: seq<bytes>, n: nat, after: seq<bytes>) {
    && |after| == |before|
    && forall i :: 0 <= i < |before| ==> after[i] == if before[i] == [] then Columns(before, n) else before[i]
  }

  // ---- the in-place forms ----

  method XorInto(acc: array<byte>, d: bytes)
    modifies acc
    ensures forall i :: 0 <= i < acc.Length ==> acc[i] == Xor(old(acc[i]), At(d, i))
  {
    hide Xor;
    var i := 0;
    while i < |d| && i < acc.Length
      invariant 0 <= i <= |d| && i <= acc.Length
      invariant forall j :: 0 <= j < i ==> acc[j] == Xor(old(acc[j]), At(d, j))
      invariant forall j :: i <= j < acc.Length ==> acc[j] == old(acc[j])
    {
      acc[i] := Xor(acc[i], d[i]);
      i := i + 1;
    }
    forall j | i <= j < acc.Length
      ensures acc[j] == Xor(old(acc[j]), At(d, j))
    {
      XorZero(acc[j]);
    }
  }

  method LongestOf(data: seq<bytes>) returns (maxLen: nat)
    ensures maxLen == MaxLen(data)
  {
    maxLen := 0;
    for k := 0 to |data|
      invariant maxLen == MaxLen(data[..k])
    {
      assert data[..k + 1][..k] == data[..k];
      maxLen := if maxLen > |data[k]| then maxLen else |data[k]|;
    }
    assert data[..|data|] == data;
  }

  lemma NothingXored()
    ensures forall i: nat :: XorAt([], i) == 0
  {
  }

  lemma XorSoFar(data: seq<bytes>, k: nat)
    requires k < |data|
    ensures forall i: nat :: XorAt(data[..k + 1], i) == Xor(XorAt(data[..k], i), At(data[k], i))
  {
    hide Xor;
    assert data[..k + 1][..k] == data[..k];
  }

  method FecGenerate(data: seq<bytes>) returns (parity: bytes)
    ensures parity == Parity(data)
  {
    hide Xor, At, XorAt, MaxLen;
    var maxLen := LongestOf(data);
    NothingXored();
    var acc := new byte[maxLen](_ => 0);
    for k := 0 to |data|
      invariant forall i :: 0 <= i < maxLen ==> acc[i] == XorAt(data[..k], i)
    {
      XorSoFar(data, k);
      XorInto(acc, data[k]);
    }
    assert data[..|data|] == data;
    assert acc[..] == Columns(data, maxLen);
    parity := acc[..];
  }

  /** Repairs `known` in place when exactly one of its slots is empty, and otherwise leaves it alone. */
  method FecRecover(known: array<bytes>, expectLen: nat) returns (ok: bool)
    modifies known
    ensures ok <==> Missing(old(known[..])) == 1
    ensures if ok then Repaired(old(known[..]), expectLen, known[..]) else known[..] == old(known[..])
  {
    hide Xor;
    ghost var before := known[..];
    var missing, missIdx := 0, 0;
    for i := 0 to known.Length
      invariant missing == Missing(before[..i])
      invariant missing > 0 ==> 0 <= missIdx < i && before[missIdx] == []
    {
      assert before[..i + 1][..i] == before[..i];
      if known[i] == [] {
        missing, missIdx := missing + 1, i;
      }
    }
    assert before[..known.Length] == before;
    if missing != 1 {
      return false;
    }
    var rec := new byte[expectLen](_ => 0);
    for k := 0 to known.Length
      invariant known[..] == before
      invariant forall i :: 0 <= i < expectLen ==> rec[i] == XorAt(before[..k], i)
    {
      assert before[..k + 1][..k] == before[..k];
      if known[k] != [] {
        XorInto(rec, known[k]);
      } else {
        forall i | 0 <= i < expectLen
          ensures rec[i] == XorAt(before[..k + 1], i)
        {
          XorZero(rec[i]);
        }
      }
    }
    known[missIdx] := rec[..];
    assert rec[..] == Columns(before, expectLen);
    forall i | 0 <= i < |before|
      ensures known[i] == if before[i] == [] then Columns(before, expectLen) else before[i]
    {
      if before[i] == [] {
        MissingUnique(before, i, missIdx);
      }
    }
    return true;
  }
}
