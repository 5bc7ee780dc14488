/** Octets, big-endian integers and zero padding: what every wire format below is made of. */
module Bytes {
  import opened Octets

  type bytes = seq<byte>

  // The fixed-width unsigned integers of the packet headers.
  type u16 = n: nat | n < 0x1_0000
  type u32 = n: nat | n < 0x1_0000_0000

  const TWO32 := 0x1_0000_0000
  const HALF := 0x8000_0000

  function Pow256(k: nat): (p: nat)
    ensures p > 0
  {
    if k == 0 then 1 else 256 * Pow256(k - 1)
  }

  function Low(n: nat): byte {
    n % 256
  }

  /** The k low-order octets of v, most significant first. */
  function Store(v: nat, k: nat): (s: bytes)
    ensures |s| == k
  {
    if k == 0 then [] else Store(v / 256, k - 1) + [Low(v)]
  }

  function Load(s: bytes): nat {
    if s == [] then 0 else Load(s[..|s| - 1]) * 256 + s[|s| - 1]
  }

  // Network byte order, octet by octet (htonl, htons and back).
  function Octet1(v: nat): byte { Low(v / 256) }
  function Octet2(v: nat): byte { Low(v / 256 / 256) }
  function Octet3(v: nat): byte { Low(v / 256 / 256 / 256) }

  function Number16(b1: byte, b0: byte): u16 {
    b1 * 0x100 + b0
  }

  function Number32(b3: byte, b2: byte, b1: byte, b0: byte): u32 {
    b3 * 0x100_0000 + b2 * 0x1_0000 + b1 * 0x100 + b0
  }

  lemma Number16Octets(v: u16)
    ensures Number16(Octet1(v), Low(v)) == v
  {
  }

  lemma Number32Octets(v: u32)
    ensures Number32(Octet3(v), Octet2(v), Octet1(v), Low(v)) == v
  {
  }

  lemma {:induction false} LoadBound(s: bytes)
    ensures Load(s) < Pow256(|s|)
  {
    if s != [] {
      LoadBound(s[..|s| - 1]);
    }
  }

  lemma {:induction false} LoadStore(v: nat, k: nat)
    requires v < Pow256(k)
    ensures Load(Store(v, k)) == v
  {
    if k > 0 {
      LoadStore(v / 256, k - 1);
      assert Store(v, k)[..k - 1] == Store(v / 256, k - 1);
    }
  }

  lemma {:induction false} StoreLoad(s: bytes)
    ensures Store(Load(s), |s|) == s
  {
    if s != [] {
      var t := s[..|s| - 1];
      StoreLoad(t);
      assert Load(s) / 256 == Load(t);
      assert Low(Load(s)) == s[|s| - 1];
      assert s == t + [s[|s| - 1]];
    }
  }

  lemma Pow256Values()
    ensures Pow256(2) == 0x1_0000
    ensures Pow256(4) == 0x1_0000_0000
    ensures Pow256(8) == 0x1_0000_0000_0000_0000
  {
    assert Pow256(1) == 256;
    assert Pow256(2) == 256 * Pow256(1);
    assert Pow256(3) == 256 * Pow256(2);
    assert Pow256(4) == 256 * Pow256(3);
    assert Pow256(5) == 256 * Pow256(4);
    assert Pow256(6) == 256 * Pow256(5);
    assert Pow256(7) == 256 * Pow256(6);
  }

  function Zeros(n: nat): (z: bytes)
    ensures |z| == n
  {
    seq(n, _ => 0)
  }

  /** s followed by enough zeros to reach length n (s itself when it is long enough). */
  function PadTo(s: bytes, n: nat): bytes {
    s + Zeros(if n > |s| then n - |s| else 0)
  }

  function Concat(parts: seq<bytes>): bytes {
    if parts == [] then [] else parts[0] + Concat(parts[1..])
  }

  lemma {:induction false} ConcatAppend(a: seq<bytes>, b: seq<bytes>)
    ensures Concat(a + b) == Concat(a) + Concat(b)
  {
    if a == [] {
      assert a + b == b;
    } else {
      var rest := a[1..];
      ConcatAppend(rest, b);
      assert a + b == [a[0]] + (rest + b);
      assert a[0] + (Concat(rest) + Concat(b)) == (a[0] + Concat(rest)) + Concat(b);
    }
  }

  lemma ConcatSnoc(a: seq<bytes>, x: bytes)
    ensures Concat(a + [x]) == Concat(a) + x
  {
    ConcatAppend(a, [x]);
    assert Concat([x]) == x;
  }
}
