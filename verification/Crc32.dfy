/**
 * CRC-32 (section 3.2.9 of IEEE 802.3): the table-driven form against division one message bit at a
 * time, and the error bursts it detects. A 32-bit unsigned integer is the list of its bits, the least
 * significant first.
 */
module Crc32 {
  import opened Octets
  import opened Bytes

  type bits = seq<bool>

  type word = w: bits | |w| == 32 witness POLYNOMIAL

  /** The divisor, bit-reflected. */
  const POLYNOMIAL: bits := ToBits(0xEDB8_8320, 32)

  function FromBits(s: bits): nat {
    if s == [] then 0 else 2 * FromBits(s[1..]) + if s[0] then 1 else 0
  }

  function ToBits(n: nat, k: nat): (s: bits)
    ensures |s| == k
  {
    if k == 0 then [] else [n % 2 == 1] + ToBits(n / 2, k - 1)
  }

  lemma {:induction false} TopBit(n: nat, k: nat)
    requires k > 0 && Power2(k - 1) <= n < Power2(k)
    ensures ToBits(n, k)[k - 1]
  {
    if k > 1 {
      TopBit(n / 2, k - 1);
    }
  }

  /** The divisor's lowest coefficient, reflected to the top, is 1. */
  lemma PolynomialTop()
    ensures POLYNOMIAL[31]
  {
    assert Power2(8) == 0x100;
    assert Power2(16) == 0x1_0000;
    assert Power2(24) == 0x100_0000;
    assert Power2(31) == 0x8000_0000;
    hide ToBits;
    TopBit(0xEDB8_8320, 32);
  }

  lemma {:induction false} FromToBits(n: nat, k: nat)
    requires n < Power2(k)
    ensures FromBits(ToBits(n, k)) == n
  {
    if k > 0 {
      FromToBits(n / 2, k - 1);
      assert ToBits(n, k)[1..] == ToBits(n / 2, k - 1);
    }
  }

  lemma {:induction false} ToFromBits(s: bits)
    ensures FromBits(s) < Power2(|s|) && ToBits(FromBits(s), |s|) == s
  {
    if s != [] {
      ToFromBits(s[1..]);
      assert FromBits(s) / 2 == FromBits(s[1..]);
    }
  }

  function XorBits(a: bits, b: bits): (c: bits)
    requires |a| == |b|
    ensures |c| == |a|
  {
    seq(|a|, i requires 0 <= i < |a| => a[i] != b[i])
  }

  function Clear(n: nat): (z: bits)
    ensures |z| == n
  {
    seq(n, _ => false)
  }

  // ---- the reference: one message bit at a time ----

  /** c >> 1. */
  function Down(c: word): word {
    c[1..] + [false]
  }

  /** Shift one message bit through the register; subtract the divisor when a 1 falls out. */
  function Shift(c: word, bit: bool): word {
    if c[0] != bit then XorBits(POLYNOMIAL, Down(c)) else Down(c)
  }

  function Divide(c: word, message: bits): word
    decreases |message|
  {
    if message == [] then c else Divide(Shift(c, message[0]), message[1..])
  }

  /** The bits of a message in transmission order: octet after octet, each least significant bit first. */
  function BitsOf(data: bytes): (s: bits)
    ensures |s| == 8 * |data|
  {
    if data == [] then [] else ToBits(data[0], 8) + BitsOf(data[1..])
  }

  // ---- division is linear ----

  lemma ShiftLinear(a: word, b: word, x: bool, y: bool)
    ensures Shift(XorBits(a, b), x != y) == XorBits(Shift(a, x), Shift(b, y))
  {
    var s, t := Shift(XorBits(a, b), x != y), XorBits(Shift(a, x), Shift(b, y));
    assert forall i :: 0 <= i < 32 ==> s[i] == t[i];
  }

  /** Dividing a sum is summing the remainders. */
  lemma {:induction false} DivideLinear(a: word, b: word, u: bits, v: bits)
    requires |u| == |v|
    ensures Divide(XorBits(a, b), XorBits(u, v)) == XorBits(Divide(a, u), Divide(b, v))
    decreases |u|
  {
    hide Shift;
    if u != [] {
      ShiftLinear(a, b, u[0], v[0]);
      DivideLinear(Shift(a, u[0]), Shift(b, v[0]), u[1..], v[1..]);
      assert XorBits(u, v)[1..] == XorBits(u[1..], v[1..]);
    }
  }

  lemma {:induction false} DivideAppend(c: word, u: bits, v: bits)
    ensures Divide(c, u + v) == Divide(Divide(c, u), v)
    decreases |u|
  {
    hide Shift;
    if u == [] {
      assert u + v == v;
    } else {
      DivideAppend(Shift(c, u[0]), u[1..], v);
      assert (u + v)[1..] == u[1..] + v;
    }
  }

  /** A message that the register already holds only shifts it out. */
  lemma {:induction false} DivideHeld(u: bits, high: bits)
    requires |u| + |high| == 32
    ensures Divide(u + high, u) == high + Clear(|u|)
    decreases |u|
  {
    hide XorBits;
    if u == [] {
      assert high + Clear(0) == high && u + high == high;
    } else {
      assert Down(u + high) == u[1..] + (high + [false]);
      DivideHeld(u[1..], high + [false]);
      assert high + [false] + Clear(|u| - 1) == high + Clear(|u|);
    }
  }

  /** Up to 32 message bits may be added to the register beforehand. */
  lemma DivideEarly(c: word, u: bits)
    requires |u| <= 32
    ensures Divide(c, u) == Divide(XorBits(c, u + Clear(32 - |u|)), Clear(|u|))
  {
    hide Divide;
    var w := u + Clear(32 - |u|);
    DivideLinear(c, w, u, u);
    DivideHeld(u, Clear(32 - |u|));
    assert XorBits(u, u) == Clear(|u|);
    var d := Divide(c, u);
    assert XorBits(d, Clear(32 - |u|) + Clear(|u|)) == d;
  }

  // ---- the table ----

  ghost function Entry(i: nat): word {
    Divide(ToBits(i, 32), Clear(8))
  }

  /** The table step is eight bit steps: look up the low octet, shift the rest down. */
  lemma EightAtOnce(c: word)
    ensures XorBits(Entry(FromBits(c[..8])), c[8..] + Clear(8)) == Divide(c, Clear(8))
    ensures FromBits(c[..8]) < 256
  {
    hide Divide;
    var low, high := c[..8] + Clear(24), Clear(8) + c[8..];
    assert XorBits(low, high) == c;
    assert XorBits(Clear(8), Clear(8)) == Clear(8);
    DivideLinear(low, high, Clear(8), Clear(8));
    DivideHeld(Clear(8), c[8..]);
    LowWord(c[..8]);
  }

  lemma LowWord(s: bits)
    requires |s| == 8
    ensures FromBits(s) < 256 && ToBits(FromBits(s), 32) == s + Clear(24)
  {
    ToFromBits(s);
    assert Power2(8) == 256;
    ToBitsLonger(FromBits(s), 8, 24);
  }

  lemma {:induction false} ToBitsLonger(n: nat, k: nat, more: nat)
    requires n < Power2(k)
    ensures ToBits(n, k + more) == ToBits(n, k) + Clear(more)
    decreases k + more
  {
    if k > 0 {
      ToBitsLonger(n / 2, k - 1, more);
    } else if more > 0 {
      ToBitsLonger(0, 0, more - 1);
    }
  }

  // ---- the code ----

  /** The register after a message, from the given seed. */
  ghost function Register(data: bytes, seed: word): word {
    Divide(seed, BitsOf(data))
  }

  function Inverted(c: word): word {
    seq(32, i requires 0 <= i < 32 => !c[i])
  }

  lemma OneClear(c: word, n: nat)
    requires n > 0
    ensures Divide(c, Clear(n)) == Divide(if c[0] then XorBits(POLYNOMIAL, Down(c)) else Down(c), Clear(n - 1))
  {
    assert Clear(n)[1..] == Clear(n - 1);
  }

  lemma NoneClear(c: word)
    ensures Divide(c, Clear(0)) == c
  {
  }

  /** The table-filling loops. */
  method FillTable(table: array<word>)
    requires table.Length == 256
    modifies table
    ensures forall i :: 0 <= i < 256 ==> table[i] == Entry(i)
  {
    hide Divide, Entry, POLYNOMIAL, ToBits, Clear;
    for i := 0 to 256
      invariant forall j :: 0 <= j < i ==> table[j] == Entry(j)
    {
      table[i] := OneEntry(i);
    }
  }

  method OneEntry(i: nat) returns (c: word)
    ensures c == Entry(i)
  {
    hide Divide, XorBits, Down;
    c := ToBits(i, 32);
    for k := 0 to 8
      invariant Divide(c, Clear(8 - k)) == Entry(i)
    {
      OneClear(c, 8 - k);
      c := if c[0] then XorBits(POLYNOMIAL, Down(c)) else Down(c);
    }
    NoneClear(c);
  }

  /** crc32: one table look-up per octet. */
  method Crc(data: bytes, seed: word, table: array<word>) returns (r: word)
    requires table.Length == 256 && forall i :: 0 <= i < 256 ==> table[i] == Entry(i)
    ensures r == Inverted(Register(data, seed))
  {
    hide Entry, Divide, XorBits, FromBits, ToBits, Clear, Inverted;
    var c := seed;
    assert data[0..] == data;
    for i := 0 to |data|
      invariant Divide(c, BitsOf(data[i..])) == Divide(seed, BitsOf(data))
    {
      OctetStep(c, data[i..]);
      var x := XorBits(c, ToBits(data[i], 8) + Clear(24));
      c := XorBits(table[FromBits(x[..8])], c[8..] + Clear(8));
      assert data[i..][1..] == data[i + 1..];
    }
    NothingLeft(c);
    r := Inverted(c);
  }

  lemma NothingLeft(c: word)
    ensures Divide(c, BitsOf([])) == c
  {
  }

  /** One octet by the table is its eight bits by division. */
  lemma OctetStep(c: word, data: bytes)
    requires data != []
    ensures var x := XorBits(c, ToBits(data[0], 8) + Clear(24));
            && FromBits(x[..8]) < 256
            && Divide(c, BitsOf(data)) ==
               Divide(XorBits(Entry(FromBits(x[..8])), c[8..] + Clear(8)), BitsOf(data[1..]))
  {
    hide Divide, Entry, FromBits, ToBits;
    var u := ToBits(data[0], 8);
    var x: word := XorBits(c, u + Clear(24));
    DivideAppend(c, u, BitsOf(data[1..]));
    DivideEarly(c, u);
    EightAtOnce(x);
    assert x[8..] == c[8..];
  }

  /**
   * Chaining: the CRC of a concatenation is the CRC of the second part seeded with the first part's
   * CRC, its final inversion undone.
   */
  lemma Chaining(a: bytes, b: bytes, seed: word)
    ensures Register(a + b, seed) == Register(b, Inverted(Inverted(Register(a, seed))))
  {
    hide Divide;
    BitsOfAppend(a, b);
    DivideAppend(seed, BitsOf(a), BitsOf(b));
    var c := Register(a, seed);
    assert Inverted(Inverted(c)) == c;
  }

  lemma {:induction false} BitsOfAppend(a: bytes, b: bytes)
    ensures BitsOf(a + b) == BitsOf(a) + BitsOf(b)
  {
    hide ToBits;
    if a == [] {
      assert a + b == b;
    } else {
      BitsOfAppend(a[1..], b);
      assert (a + b)[1..] == a[1..] + b;
    }
  }

  // ---- what it detects ----

  lemma ShiftInjective(c: word)
    requires c != Clear(32)
    ensures Shift(c, false) != Clear(32)
  {
    PolynomialTop();
    hide ToBits, POLYNOMIAL;
    if c[0] {
      assert Shift(c, false)[31];
    } else {
      var j :| 1 <= j < 32 && c[j];
      assert Shift(c, false)[j - 1];
    }
  }

  lemma {:induction false} DivideInjective(c: word, n: nat)
    requires c != Clear(32)
    ensures Divide(c, Clear(n)) != Clear(32)
    decreases n
  {
    hide Shift;
    if n > 0 {
      assert Clear(n)[1..] == Clear(n - 1);
      ShiftInjective(c);
      DivideInjective(Shift(c, false), n - 1);
    }
  }

  lemma {:induction false} ClearStaysClear(n: nat)
    ensures Divide(Clear(32), Clear(n)) == Clear(32)
  {
    if n > 0 {
      assert Clear(n)[1..] == Clear(n - 1);
      assert Shift(Clear(32), false) == Clear(32);
      ClearStaysClear(n - 1);
    }
  }

  /** An error pattern inside 32 consecutive bits leaves a remainder. */
  lemma BurstRemains(before: nat, burst: bits, after: nat)
    requires |burst| <= 32 && burst != Clear(|burst|)
    ensures Divide(Clear(32), Clear(before) + burst + Clear(after)) != Clear(32)
  {
    hide Divide, Shift;
    var z: word := Clear(32);
    DivideAppend(z, Clear(before) + burst, Clear(after));
    DivideAppend(z, Clear(before), burst);
    ClearStaysClear(before);
    DivideEarly(z, burst);
    var w: word := burst + Clear(32 - |burst|);
    assert XorBits(z, w) == w;
    assert w[..|burst|] == burst && Clear(32)[..|burst|] == Clear(|burst|);
    DivideInjective(w, |burst|);
    DivideInjective(Divide(z, burst), after);
  }

  /**
   * Two different messages of one length whose differing bits all lie within 32 consecutive ones never
   * have the same CRC.
   */
  lemma BurstDetected(a: bytes, b: bytes, seed: word, at: nat)
    requires |a| == |b| && a != b
    requires forall k :: 0 <= k < 8 * |a| && BitsOf(a)[k] != BitsOf(b)[k] ==> at <= k < at + 32
    ensures Inverted(Register(a, seed)) != Inverted(Register(b, seed))
  {
    hide Divide, BitsOf, XorBits, Clear, Inverted, POLYNOMIAL;
    var u, v := BitsOf(a), BitsOf(b);
    BitsOfInjective(a, b);
    WindowRemains(u, v, at);
    DivideLinear(seed, seed, u, v);
    XorItself(seed);
    var d := Divide(seed, u);
    XorItself(d);
    InvertTwice(d);
    InvertTwice(Divide(seed, v));
  }

  lemma WindowRemains(u: bits, v: bits, at: nat)
    requires |u| == |v| && u != v
    requires forall j :: 0 <= j < |u| && u[j] != v[j] ==> at <= j < at + 32
    ensures Divide(Clear(32), XorBits(u, v)) != Clear(32)
  {
    hide Divide, XorBits, Clear, POLYNOMIAL;
    var k :| 0 <= k < |u| && u[k] != v[k];
    var hi := if at + 32 <= |u| then at + 32 else |u|;
    WindowBurst(u, v, at, hi, k);
    BurstRemains(at, XorBits(u, v)[at..hi], |u| - hi);
  }

  lemma XorItself(c: word)
    ensures XorBits(c, c) == Clear(32)
  {
  }

  lemma WindowBurst(u: bits, v: bits, lo: nat, hi: nat, k: nat)
    requires |u| == |v| && lo <= k < hi <= |u| && u[k] != v[k]
    requires forall j :: 0 <= j < |u| && u[j] != v[j] ==> lo <= j < hi
    ensures XorBits(u, v) == Clear(lo) + XorBits(u, v)[lo..hi] + Clear(|u| - hi)
    ensures XorBits(u, v)[lo..hi] != Clear(hi - lo)
  {
    assert XorBits(u, v)[lo..hi][k - lo];
  }

  lemma InvertTwice(c: word)
    ensures Inverted(Inverted(c)) == c
  {
  }

  lemma {:induction false} BitsOfInjective(a: bytes, b: bytes)
    requires |a| == |b| && a != b
    ensures BitsOf(a) != BitsOf(b)
  {
    hide ToBits;
    assert BitsOf(a)[..8] == ToBits(a[0], 8) && BitsOf(a)[8..] == BitsOf(a[1..]);
    assert BitsOf(b)[..8] == ToBits(b[0], 8) && BitsOf(b)[8..] == BitsOf(b[1..]);
    if a[0] != b[0] {
      assert Power2(8) == 256;
      FromToBits(a[0], 8);
      FromToBits(b[0], 8);
    } else {
      assert a == [a[0]] + a[1..] && b == [b[0]] + b[1..];
      BitsOfInjective(a[1..], b[1..]);
    }
  }
}
