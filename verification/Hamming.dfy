/**
  The distance between two 24-byte hashes: the number of bits in which they differ, computed by
  the source from a table of the bit counts of all 16-bit numbers.
 */
module Hamming {
  import opened Words

  const HASH_BITS := 192

  /** A node id or a key: 24 bytes. */
  type Hash = h: seq<byte> | |h| == 24 witness seq(24, _ => 0)

  // ----- the specification

  function Bit(h: Hash, k: nat): nat
    requires k < HASH_BITS
  {
    BitOf(h[k / 8], k % 8)
  }

  /** The positions below n where two hashes differ. */
  function Differing(g: Hash, h: Hash, n: nat): (d: set<nat>)
    requires n <= HASH_BITS
  {
    set k: nat | k < n && Bit(g, k) != Bit(h, k)
  }

  function Distance(g: Hash, h: Hash): nat {
    |Differing(g, h, HASH_BITS)|
  }

  // ----- the distance is a metric, bounded by 192

  lemma DistanceSymmetric(g: Hash, h: Hash)
    ensures Distance(g, h) == Distance(h, g)
  {
    assert Differing(g, h, HASH_BITS) == Differing(h, g, HASH_BITS);
  }

  lemma SubsetSize<T>(a: set<T>, b: set<T>)
    requires a <= b
    ensures |a| <= |b|
    ensures |a| == |b| ==> a == b
  {
    assert b == a + (b - a);
  }

  lemma DistanceTriangle(f: Hash, g: Hash, h: Hash)
    ensures Distance(f, h) <= Distance(f, g) + Distance(g, h)
  {
    var d, e := Differing(f, g, HASH_BITS), Differing(g, h, HASH_BITS);
    assert forall k :: k in Differing(f, h, HASH_BITS) ==> k in d || k in e;
    SubsetSize(Differing(f, h, HASH_BITS), d + e);
    assert |d + e| == |d| + |e| - |d * e|;
  }

  lemma {:induction false} SameBits(a: nat, b: nat, n: nat)
    requires a < Pow2(n) && b < Pow2(n)
    requires forall k :: 0 <= k < n ==> BitOf(a, k) == BitOf(b, k)
    ensures a == b
  {
    if n > 0 {
      forall k | 0 <= k < n - 1
        ensures BitOf(a / 2, k) == BitOf(b / 2, k)
      {
        assert BitOf(a, k + 1) == BitOf(b, k + 1);
      }
      SameBits(a / 2, b / 2, n - 1);
      assert BitOf(a, 0) == BitOf(b, 0);
    }
  }

  ghost predicate Opposite(a: nat, b: nat, n: nat) {
    forall k :: 0 <= k < n ==> BitOf(a, k) != BitOf(b, k)
  }

  lemma OppositeStep(a: nat, b: nat, n: nat)
    requires n > 0
    ensures Opposite(a, b, n) <==> a % 2 != b % 2 && Opposite(a / 2, b / 2, n - 1)
  {
    assert BitOf(a, 0) == a % 2 && BitOf(b, 0) == b % 2;
    if Opposite(a, b, n) {
      forall k | 0 <= k < n - 1
        ensures BitOf(a / 2, k) != BitOf(b / 2, k)
      {
        assert BitOf(a, k + 1) != BitOf(b, k + 1);
      }
    } else {
      var k :| 0 <= k < n && BitOf(a, k) == BitOf(b, k);
      if k > 0 {
        assert BitOf(a / 2, k - 1) == BitOf(b / 2, k - 1);
      }
    }
  }

  lemma {:induction false} OppositeBits(a: nat, b: nat, n: nat)
    requires a < Pow2(n) && b < Pow2(n)
    ensures Opposite(a, b, n) <==> a + b == Pow2(n) - 1
  {
    if n > 0 {
      OppositeBits(a / 2, b / 2, n - 1);
      OppositeStep(a, b, n);
      hide Opposite;
    }
  }

  lemma BitsOfByte(g: Hash, h: Hash, i: nat, k: nat)
    requires i < 24 && k < 8
    ensures Bit(g, 8 * i + k) == BitOf(g[i], k) && Bit(h, 8 * i + k) == BitOf(h[i], k)
  {
    assert (8 * i + k) / 8 == i && (8 * i + k) % 8 == k;
  }

  lemma DistanceZero(g: Hash, h: Hash)
    ensures Distance(g, h) == 0 <==> g == h
  {
    if Distance(g, h) == 0 {
      forall i | 0 <= i < 24
        ensures g[i] == h[i]
      {
        forall k | 0 <= k < 8
          ensures BitOf(g[i], k) == BitOf(h[i], k)
        {
          BitsOfByte(g, h, i, k);
          assert 8 * i + k !in Differing(g, h, HASH_BITS);
        }
        assert Pow2(8) == 256;
        SameBits(g[i], h[i], 8);
      }
    }
  }

  lemma DifferingStep(g: Hash, h: Hash, n: nat)
    requires n < HASH_BITS
    ensures |Differing(g, h, n + 1)| == |Differing(g, h, n)| + if Bit(g, n) != Bit(h, n) then 1 else 0
  {
    assert Differing(g, h, n + 1) == Differing(g, h, n) + if Bit(g, n) != Bit(h, n) then {n} else {};
  }

  /** Changing one bit changes the distance by one: up where the hashes agreed, down where not. */
  lemma DistanceOfFlip(g: Hash, f: Hash, h: Hash, k: nat)
    requires k < HASH_BITS && forall j :: 0 <= j < HASH_BITS ==> (Bit(f, j) != Bit(g, j) <==> j == k)
    ensures Distance(f, h) == Distance(g, h) + if Bit(g, k) == Bit(h, k) then 1 else -1
  {
    hide Bit;
    var d, e := Differing(g, h, HASH_BITS), Differing(f, h, HASH_BITS);
    BitsAreTwo(f, g, h);
    if Bit(g, k) == Bit(h, k) {
      assert e == d + {k};
    } else {
      assert d == e + {k};
    }
  }

  lemma BitsAreTwo(f: Hash, g: Hash, h: Hash)
    ensures forall j :: 0 <= j < HASH_BITS ==> Bit(f, j) < 2 && Bit(g, j) < 2 && Bit(h, j) < 2
  {
  }

  lemma {:induction false} DifferingBound(g: Hash, h: Hash, n: nat)
    requires n <= HASH_BITS
    ensures |Differing(g, h, n)| <= n
    ensures |Differing(g, h, n)| == n <==> forall k :: 0 <= k < n ==> Bit(g, k) != Bit(h, k)
  {
    hide Bit;
    if n > 0 {
      DifferingBound(g, h, n - 1);
      DifferingStep(g, h, n - 1);
    }
  }

  ghost predicate Complements(g: Hash, h: Hash) {
    forall i :: 0 <= i < 24 ==> h[i] == 255 - g[i]
  }

  /** 192 is attained exactly on bitwise complements. */
  lemma DistanceBounded(g: Hash, h: Hash)
    ensures Distance(g, h) <= HASH_BITS
    ensures Distance(g, h) == HASH_BITS <==> Complements(g, h)
  {
    DifferingBound(g, h, HASH_BITS);
    assert Pow2(8) == 256;
    forall i | 0 <= i < 24
      ensures h[i] == 255 - g[i] <==> Opposite(g[i], h[i], 8)
    {
      OppositeBits(g[i], h[i], 8);
    }
    if Distance(g, h) == HASH_BITS {
      forall i, k | 0 <= i < 24 && 0 <= k < 8
        ensures BitOf(g[i], k) != BitOf(h[i], k)
      {
        BitsOfByte(g, h, i, k);
      }
      assert forall i :: 0 <= i < 24 ==> Opposite(g[i], h[i], 8);
    }
  }

  // ----- the table, and the loop over six 32-bit words

  /** The number of bits set in n. */
  function PopCount(n: nat): nat {
    if n == 0 then 0 else n % 2 + PopCount(n / 2)
  }

  /** The 32-bit number in four bytes, in either byte order. */
  function Load32(big: bool, b: seq<byte>): nat
    requires |b| == 4
  {
    if big then FromBytes([b[3], b[2], b[1], b[0]]) else FromBytes(b)
  }

  /** The bits that differ in the first i bytes of two byte strings. */
  function ByteDifferences(p: seq<byte>, q: seq<byte>): nat
    requires |p| == |q|
  {
    if p == [] then 0 else PopCount(Xor(p[0], q[0])) + ByteDifferences(p[1..], q[1..])
  }

  lemma {:induction false} PopCountFits(n: nat, k: nat)
    requires n < Pow2(k)
    ensures PopCount(n) <= k
  {
    if k > 0 {
      PopCountFits(n / 2, k - 1);
    }
  }

  lemma {:induction false} PopCountSplit(lo: nat, hi: nat, k: nat)
    requires lo < Pow2(k)
    ensures PopCount(lo + ShiftLeft(hi, k)) == PopCount(lo) + PopCount(hi)
  {
    hide PopCount;
    PopCountStep(0);
    if k > 0 {
      PopCountSplit(lo / 2, hi, k - 1);
      PopCountDoubled(lo, ShiftLeft(hi, k - 1));
    }
  }

  lemma PopCountDoubled(lo: nat, p: nat)
    ensures PopCount(lo + 2 * p) == lo % 2 + PopCount(lo / 2 + p)
    ensures PopCount(lo) == lo % 2 + PopCount(lo / 2)
  {
    PopCountStep(lo + 2 * p);
    PopCountStep(lo);
    hide PopCount;
    assert (lo + 2 * p) / 2 == lo / 2 + p;
  }

  lemma ShiftLeft8(x: nat)
    ensures ShiftLeft(x, 8) == 256 * x
  {
    assert ShiftLeft(x, 4) == 2 * ShiftLeft(x, 3) == 4 * ShiftLeft(x, 2) == 8 * ShiftLeft(x, 1) == 16 * x;
    assert 16 * ShiftLeft(x, 4) == 8 * ShiftLeft(x, 5) == 4 * ShiftLeft(x, 6) == 2 * ShiftLeft(x, 7) == ShiftLeft(x, 8);
  }

  lemma {:induction false} ShiftLeftTwice(x: nat, j: nat, k: nat)
    ensures ShiftLeft(ShiftLeft(x, j), k) == ShiftLeft(x, j + k)
  {
    if k > 0 {
      ShiftLeftTwice(x, j, k - 1);
    }
  }

  lemma ShiftLeft16(x: nat)
    ensures ShiftLeft(x, 16) == 0x1_0000 * x
  {
    hide ShiftLeft;
    ShiftLeftTwice(x, 8, 8);
    ShiftLeft8(x);
    ShiftLeft8(256 * x);
  }

  lemma {:induction false} XorSplit(a: nat, b: nat, x: nat, y: nat, k: nat)
    requires a < Pow2(k) && b < Pow2(k)
    ensures Xor(a + ShiftLeft(x, k), b + ShiftLeft(y, k)) == Xor(a, b) + ShiftLeft(Xor(x, y), k)
  {
    assert Xor(0, 0) == 0;
    hide Xor;
    if k > 0 {
      XorSplit(a / 2, b / 2, x, y, k - 1);
      XorDoubled(a, b, ShiftLeft(x, k - 1), ShiftLeft(y, k - 1), ShiftLeft(Xor(x, y), k - 1));
    }
  }

  lemma XorDoubled(a: nat, b: nat, x: nat, y: nat, z: nat)
    requires Xor(a / 2 + x, b / 2 + y) == Xor(a / 2, b / 2) + z
    ensures Xor(a + 2 * x, b + 2 * y) == Xor(a, b) + 2 * z
  {
    XorBits(a + 2 * x, b + 2 * y);
    XorBits(a, b);
    hide Xor;
    assert (a + 2 * x) / 2 == a / 2 + x && (b + 2 * y) / 2 == b / 2 + y;
  }

  lemma {:induction false} XorOfBytes(p: seq<byte>, q: seq<byte>)
    requires |p| == |q|
    ensures PopCount(Xor(FromBytes(p), FromBytes(q))) == ByteDifferences(p, q)
  {
    if p != [] {
      XorOfBytes(p[1..], q[1..]);
      LowestByteDiffers(p[0], q[0], FromBytes(p[1..]), FromBytes(q[1..]));
      hide Xor, PopCount;
    }
  }

  lemma LowestByteDiffers(a: byte, b: byte, x: nat, y: nat)
    ensures PopCount(Xor(a + 256 * x, b + 256 * y)) == PopCount(Xor(a, b)) + PopCount(Xor(x, y))
  {
    assert Pow2(8) == 256;
    ShiftLeft8(x);
    ShiftLeft8(y);
    ShiftLeft8(Xor(x, y));
    hide Xor, PopCount, Pow2, ShiftLeft;
    XorSplit(a, b, x, y, 8);
    XorFits(a, b, 8);
    PopCountSplit(Xor(a, b), Xor(x, y), 8);
  }

  /** Bits are counted from the top here, as the positions of the differing bits are. */
  function LowBits(n: nat, k: nat): nat {
    if k == 0 then 0 else LowBits(n, k - 1) + BitOf(n, k - 1)
  }

  lemma {:induction false} LowBitsStep(n: nat, k: nat)
    ensures LowBits(n, k + 1) == n % 2 + LowBits(n / 2, k)
  {
    if k > 0 {
      LowBitsStep(n, k - 1);
    }
  }

  lemma {:induction false} PopCountIsLowBits(n: nat, k: nat)
    requires n < Pow2(k)
    ensures PopCount(n) == LowBits(n, k)
  {
    if k > 0 {
      PopCountIsLowBits(n / 2, k - 1);
      LowBitsStep(n, k - 1);
    }
  }

  /** The differing positions within byte i. */
  lemma {:induction false} DifferingInByte(g: Hash, h: Hash, i: nat, k: nat)
    requires i < 24 && k <= 8
    ensures |Differing(g, h, 8 * i + k)| == |Differing(g, h, 8 * i)| + LowBits(Xor(g[i], h[i]), k)
  {
    hide Bit, Xor, Differing, BitOf;
    if k > 0 {
      DifferingInByte(g, h, i, k - 1);
      DifferingStep(g, h, 8 * i + k - 1);
      BitsOfByte(g, h, i, k - 1);
      BitOfXor(g[i], h[i], k - 1);
    }
  }

  lemma {:induction false} DifferingInBytes(g: Hash, h: Hash, i: nat, n: nat)
    requires i + n <= 24
    ensures |Differing(g, h, 8 * (i + n))| == |Differing(g, h, 8 * i)| + ByteDifferences(g[i..i + n], h[i..i + n])
    decreases n
  {
    hide Xor, Differing, LowBits;
    if n > 0 {
      DifferingInByte(g, h, i, 8);
      assert Pow2(8) == 256;
      XorFits(g[i], h[i], 8);
      PopCountIsLowBits(Xor(g[i], h[i]), 8);
      DifferingInBytes(g, h, i + 1, n - 1);
      assert g[i..i + n][1..] == g[i + 1..i + n] && h[i..i + n][1..] == h[i + 1..i + n];
    }
  }

  /** Either way of loading four bytes shows the same number of differing bits. */
  lemma LoadedDifferences(big: bool, p: seq<byte>, q: seq<byte>)
    requires |p| == |q| == 4
    ensures PopCount(Xor(Load32(big, p), Load32(big, q))) == ByteDifferences(p, q)
    ensures Load32(big, p) < Pow2(32) && Load32(big, q) < Pow2(32)
  {
    var r, s := [p[3], p[2], p[1], p[0]], [q[3], q[2], q[1], q[0]];
    FromBytesFits(p);
    FromBytesFits(q);
    FromBytesFits(r);
    FromBytesFits(s);
    XorOfBytes(p, q);
    XorOfBytes(r, s);
    hide Xor, PopCount, FromBytes;
    FourBytes(p, q);
    FourBytes(r, s);
  }

  lemma FourBytes(p: seq<byte>, q: seq<byte>)
    requires |p| == |q| == 4
    ensures ByteDifferences(p, q) == PopCount(Xor(p[0], q[0])) + PopCount(Xor(p[1], q[1]))
      + PopCount(Xor(p[2], q[2])) + PopCount(Xor(p[3], q[3]))
  {
    hide Xor, PopCount;
    assert p[1..][1..] == p[2..] && p[2..][1..] == p[3..] && p[3..][1..] == [];
    assert q[1..][1..] == q[2..] && q[2..][1..] == q[3..] && q[3..][1..] == [];
    assert ByteDifferences(p[3..], q[3..]) == PopCount(Xor(p[3], q[3]));
    assert ByteDifferences(p[2..], q[2..]) == PopCount(Xor(p[2], q[2])) + ByteDifferences(p[3..], q[3..]);
    assert ByteDifferences(p[1..], q[1..]) == PopCount(Xor(p[1], q[1])) + ByteDifferences(p[2..], q[2..]);
  }

  const TABLE_SIZE := 0x1_0000

  /** `init_util`: entry i holds the number of bits set in i. */
  method InitUtil(bits: array<byte>)
    requires bits.Length == TABLE_SIZE
    modifies bits
    ensures forall i :: 0 <= i < TABLE_SIZE ==> bits[i] == PopCount(i)
  {
    hide PopCount;
    PopCountStep(0);
    bits[0] := 0;
    for i := 0 to TABLE_SIZE
      invariant i == 0 ==> bits[0] == 0
      invariant forall k :: 0 <= k < i ==> bits[k] == PopCount(k)
    {
      SixteenBits(i);
      PopCountStep(i);
      bits[i] := i % 2 + bits[i / 2];
    }
  }

  lemma PopCountStep(n: nat)
    ensures PopCount(n) == n % 2 + PopCount(n / 2)
    ensures n == 0 ==> PopCount(n) == 0
  {
  }

  lemma SixteenBits(i: nat)
    requires i < TABLE_SIZE
    ensures PopCount(i) <= 16
  {
    assert Pow2(8) == 0x100;
    Pow2Sum(8, 8);
    PopCountFits(i, 16);
  }

  /** `bit_distance`, with the table that `init_util` fills and words loaded in either byte order. */
  method BitDistance(bits: array<byte>, big: bool, h1: Hash, h2: Hash) returns (dist: nat)
    requires bits.Length == TABLE_SIZE
    requires forall i :: 0 <= i < TABLE_SIZE ==> bits[i] == PopCount(i)
    ensures dist == Distance(h1, h2)
  {
    hide Xor, PopCount, Differing, Load32, ByteDifferences, Pow2;
    dist := 0;
    NoneBelowZero(h1, h2);
    for i := 0 to 6
      invariant dist == |Differing(h1, h2, 32 * i)|
    {
      var a := Load32(big, h1[4 * i..4 * i + 4]);
      var b := Load32(big, h2[4 * i..4 * i + 4]);
      var v := Xor(a, b);
      LoadedDifferences(big, h1[4 * i..4 * i + 4], h2[4 * i..4 * i + 4]);
      DifferingInBytes(h1, h2, 4 * i, 4);
      TwoHalves(a, b);
      if v == 0 {
        continue;
      }
      dist := dist + bits[v % 0x1_0000] + bits[v / 0x1_0000 % 0x1_0000];
    }
  }

  lemma NoneBelowZero(g: Hash, h: Hash)
    ensures |Differing(g, h, 0)| == 0
  {
  }

  lemma TwoHalves(a: nat, b: nat)
    requires a < Pow2(32) && b < Pow2(32)
    ensures var v := Xor(a, b); PopCount(v) == PopCount(v % 0x1_0000) + PopCount(v / 0x1_0000 % 0x1_0000)
    ensures Xor(a, b) == 0 ==> PopCount(Xor(a, b)) == 0
  {
    hide Pow2, Xor, PopCount, ShiftLeft;
    var v := Xor(a, b);
    XorFits(a, b, 32);
    Pow2Of16();
    var lo, hi := v % 0x1_0000, v / 0x1_0000;
    ShiftLeft16(hi);
    PopCountSplit(lo, hi, 16);
    assert hi % 0x1_0000 == hi;
    PopCountStep(0);
  }

  lemma Pow2Of16()
    ensures Pow2(16) == 0x1_0000 && Pow2(32) == 0x1_0000_0000
  {
    assert Pow2(8) == 0x100;
    Pow2Sum(8, 8);
    Pow2Sum(16, 16);
  }
}
