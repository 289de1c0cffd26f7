/**
  Fixed-width unsigned integers: wrap-around arithmetic modulo 2^64 and the bitwise operations,
  written out on the natural numbers they denote.
 */
module Words {

  const MODULUS := 0x1_0000_0000_0000_0000

  /** uint64_t */
  type word = w: int | 0 <= w < 0x1_0000_0000_0000_0000

  /** uint8_t */
  type byte = b: int | 0 <= b < 256

  function Pow2(k: nat): (p: nat)
    ensures 0 < p
  {
    if k == 0 then 1 else 2 * Pow2(k - 1)
  }

  // ----- exclusive or

  function BitXor(a: nat, b: nat): (r: nat)
    ensures r < 2
  {
    if a == b then 0 else 1
  }

  /** Bitwise exclusive or, least significant bit first. */
  function Xor(a: nat, b: nat): nat
    decreases a + b
  {
    if a == 0 && b == 0 then 0 else BitXor(a % 2, b % 2) + 2 * Xor(a / 2, b / 2)
  }

  /** The lowest bit, and all the others. */
  lemma XorBits(a: nat, b: nat)
    ensures Xor(a, b) % 2 == BitXor(a % 2, b % 2)
    ensures Xor(a, b) / 2 == Xor(a / 2, b / 2)
  {
    if a == 0 && b == 0 {
    } else {
      Halves(BitXor(a % 2, b % 2), Xor(a / 2, b / 2));
    }
  }

  lemma Halves(r: nat, h: nat)
    requires r < 2
    ensures (r + 2 * h) % 2 == r && (r + 2 * h) / 2 == h
  {
  }

  lemma {:induction false} XorFits(a: nat, b: nat, k: nat)
    requires a < Pow2(k) && b < Pow2(k)
    ensures Xor(a, b) < Pow2(k)
  {
    if k > 0 {
      XorFits(a / 2, b / 2, k - 1);
    }
  }

  lemma {:induction false} XorCancels(a: nat, b: nat)
    ensures Xor(Xor(a, b), b) == a
    decreases a + b
  {
    if a + b > 0 {
      XorCancels(a / 2, b / 2);
      XorBits(a, b);
      XorBits(Xor(a, b), b);
      hide Xor;
    }
  }

  // ----- words

  lemma Pow2Of64()
    ensures Pow2(64) == MODULUS
  {
    hide Pow2;
    Pow2Of4();
    Pow2Sum(4, 4);
    Pow2Sum(8, 8);
    Pow2Sum(16, 16);
    Pow2Sum(32, 32);
  }

  lemma Pow2Of4()
    ensures Pow2(4) == 0x10
  {
  }

  lemma {:induction false} Pow2Sum(a: nat, b: nat)
    ensures Pow2(a + b) == Pow2(a) * Pow2(b)
  {
    if a > 0 {
      Pow2Sum(a - 1, b);
    }
  }

  function XorWord(a: word, b: word): word {
    Pow2Of64();
    XorFits(a, b, 64);
    Xor(a, b)
  }

  function Add(a: word, b: word): word { (a + b) % MODULUS }
  function Sub(a: word, b: word): word { (a - b) % MODULUS }
  function Mul(a: word, b: word): word { (a * b) % MODULUS }
  function Not(a: word): word { MODULUS - 1 - a }
  function ShiftLeft19(a: word): word { (a * 0x8_0000) % MODULUS }
  function ShiftRight23(a: word): word { a / 0x80_0000 }

  lemma AddSub(a: word, d: word)
    ensures Add(Sub(a, d), d) == a && Sub(Add(a, d), d) == a
  {
  }

  lemma XorWordCancels(a: word, d: word)
    ensures XorWord(XorWord(a, d), d) == a
  {
    XorCancels(a, d);
  }

  lemma AllCancel()
    ensures forall a: word, d: word :: Add(Sub(a, d), d) == a
    ensures forall a: word, d: word :: Sub(Add(a, d), d) == a
    ensures forall a: word, d: word :: XorWord(XorWord(a, d), d) == a
  {
    forall a: word, d: word
      ensures Add(Sub(a, d), d) == a && Sub(Add(a, d), d) == a && XorWord(XorWord(a, d), d) == a
    {
      AddSub(a, d);
      XorWordCancels(a, d);
    }
  }

  /** Multiplying by m and then by n is the identity when m * n is 1 modulo 2^64. */
  lemma MulCancels(a: word, m: word, n: word, k: nat)
    requires m * n == 1 + k * MODULUS
    ensures Mul(Mul(a, m), n) == a
  {
    var q := (a * m) / MODULUS;
    var r := (a * m) % MODULUS;
    calc {
      r * n;
      (a * m - q * MODULUS) * n;
      a * (m * n) - q * n * MODULUS;
      a * (1 + k * MODULUS) - q * n * MODULUS;
      a + (a * k - q * n) * MODULUS;
    }
    RemainderUnique(r * n, a * k - q * n, a);
  }

  lemma RemainderUnique(n: int, q: int, r: word)
    requires n == r + q * MODULUS
    ensures n % MODULUS == r
  {
  }

  // ----- bytes of a word

  /** Byte k of n, that is (n >> 8*k) & 0xFF. */
  function Byte(n: nat, k: nat): byte {
    if k == 0 then n % 256 else Byte(n / 256, k - 1)
  }

  lemma ByteZero(n: nat)
    ensures Byte(n, 0) == n % 256
  {
  }

  lemma ByteStep(n: nat, k: nat)
    requires k > 0
    ensures Byte(n, k) == Byte(n / 256, k - 1)
  {
  }

  /** The k lowest bytes of n, least significant first. */
  function ToBytes(n: nat, k: nat): (b: seq<byte>)
    ensures |b| == k
    ensures forall i :: 0 <= i < k ==> b[i] == Byte(n, i)
  {
    if k == 0 then [] else [n % 256] + ToBytes(n / 256, k - 1)
  }

  /** The number whose bytes are b, least significant first. */
  function FromBytes(b: seq<byte>): nat {
    if b == [] then 0 else b[0] + 256 * FromBytes(b[1..])
  }

  lemma {:induction false} FromBytesFits(b: seq<byte>)
    ensures FromBytes(b) < Pow2(8 * |b|)
  {
    if b != [] {
      FromBytesFits(b[1..]);
      Pow2Sum(8, 8 * |b[1..]|);
      assert Pow2(8) == 256;
    }
  }

  lemma {:induction false} FromToBytes(n: nat, k: nat)
    requires n < Pow2(8 * k)
    ensures FromBytes(ToBytes(n, k)) == n
  {
    if k > 0 {
      Pow2Sum(8, 8 * (k - 1));
      assert Pow2(8) == 256;
      FromToBytes(n / 256, k - 1);
    }
  }

  lemma LowestByte(r: byte, h: nat)
    ensures (r + 256 * h) % 256 == r && (r + 256 * h) / 256 == h
  {
  }

  lemma {:induction false} ToFromBytes(b: seq<byte>)
    ensures ToBytes(FromBytes(b), |b|) == b
  {
    if b != [] {
      LowestByte(b[0], FromBytes(b[1..]));
      ToFromBytes(b[1..]);
    }
  }

  // ----- the operations, bit by bit and as arithmetic

  /** (n >> k) & 1 */
  function BitOf(n: nat, k: nat): (b: nat)
    ensures b < 2
  {
    if k == 0 then n % 2 else BitOf(n / 2, k - 1)
  }

  /** x << k */
  function ShiftLeft(x: nat, k: nat): nat {
    if k == 0 then x else 2 * ShiftLeft(x, k - 1)
  }

  lemma BitOfStep(n: nat, k: nat)
    ensures BitOf(n, 0) == n % 2 && BitOf(n, k + 1) == BitOf(n / 2, k)
  {
  }

  lemma {:induction false} BitOfShifted(x: nat, j: nat, k: nat)
    ensures BitOf(ShiftLeft(x, j), k) == if k < j then 0 else BitOf(x, k - j)
  {
    if j > 0 {
      var p := ShiftLeft(x, j - 1);
      assert ShiftLeft(x, j) % 2 == 0 && ShiftLeft(x, j) / 2 == p;
      if k > 0 {
        BitOfShifted(x, j - 1, k - 1);
      }
    }
  }

  /** What is added above bit m does not show below it. */
  lemma {:induction false} BitOfLow(r: nat, q: nat, m: nat, k: nat)
    requires k < m
    ensures BitOf(r + ShiftLeft(q, m), k) == BitOf(r, k)
  {
    var p := ShiftLeft(q, m - 1);
    assert (r + 2 * p) % 2 == r % 2 && (r + 2 * p) / 2 == r / 2 + p;
    if k > 0 {
      BitOfLow(r / 2, q, m - 1, k - 1);
    }
  }

  lemma {:induction false} ShiftLeftIs(x: nat, k: nat)
    ensures ShiftLeft(x, k) == x * Pow2(k)
  {
    if k > 0 {
      ShiftLeftIs(x, k - 1);
    }
  }

  lemma Pow2Of19()
    ensures Pow2(19) == 0x8_0000
  {
    hide Pow2;
    Pow2Of4();
    Pow2Of3();
    Pow2Sum(4, 4);
    Pow2Sum(8, 8);
    Pow2Sum(16, 3);
  }

  lemma Pow2Of3()
    ensures Pow2(3) == 8
  {
  }

  /** a << 19 drops what leaves the word: bit k is bit k - 19 of a. */
  lemma ShiftLeft19Bits(a: word, k: nat)
    requires k < 64
    ensures BitOf(ShiftLeft19(a), k) == if k < 19 then 0 else BitOf(a, k - 19)
  {
    hide ShiftLeft, BitOf, Pow2;
    Pow2Of19();
    Pow2Of64();
    ShiftLeftIs(a, 19);
    var r, q := ShiftLeft19(a), a * 0x8_0000 / MODULUS;
    ShiftLeftIs(q, 64);
    BitOfLow(r, q, 64, k);
    BitOfShifted(a, 19, k);
  }

  /** x >> k */
  function ShiftRight(x: nat, k: nat): nat
    decreases k
  {
    if k == 0 then x else ShiftRight(x / 2, k - 1)
  }

  lemma {:induction false} BitOfHigh(n: nat, j: nat, k: nat)
    ensures BitOf(n, k + j) == BitOf(ShiftRight(n, j), k)
    decreases j
  {
    if j > 0 {
      BitOfHigh(n / 2, j - 1, k);
    }
  }

  lemma {:induction false} ShiftRightTwice(x: nat, j: nat, k: nat)
    ensures ShiftRight(ShiftRight(x, j), k) == ShiftRight(x, j + k)
    decreases j
  {
    if j > 0 {
      ShiftRightTwice(x / 2, j - 1, k);
    }
  }

  lemma ShiftRight4(x: nat)
    ensures ShiftRight(x, 3) == x / 8 && ShiftRight(x, 4) == x / 16
  {
    var a, b, c := x / 2, x / 4, x / 8;
    assert a / 2 == b && b / 2 == c && c / 2 == x / 16;
    assert ShiftRight(c, 1) == ShiftRight(x / 16, 0) == x / 16;
    assert ShiftRight(b, 2) == ShiftRight(c, 1) && ShiftRight(b, 1) == ShiftRight(c, 0) == c;
    assert ShiftRight(a, 3) == ShiftRight(b, 2) && ShiftRight(a, 2) == ShiftRight(b, 1);
  }

  lemma ShiftRightIs23(x: nat)
    ensures ShiftRight(x, 23) == x / 0x80_0000
  {
    hide ShiftRight;
    var a, b, c, d := x / 0x10, x / 0x100, x / 0x1000, x / 0x1_0000;
    assert a / 0x10 == b && b / 0x10 == c && c / 0x10 == d && d / 0x10 == x / 0x10_0000;
    ShiftRight4(x);
    ShiftRight4(a);
    ShiftRight4(b);
    ShiftRight4(c);
    ShiftRight4(d);
    ShiftRight4(x / 0x10_0000);
    ShiftRightTwice(x, 4, 4);
    ShiftRightTwice(x, 8, 4);
    ShiftRightTwice(x, 12, 4);
    ShiftRightTwice(x, 16, 4);
    ShiftRightTwice(x, 20, 3);
  }

  /** a >> 23: bit k is bit k + 23 of a. */
  lemma ShiftRight23Bits(a: word, k: nat)
    ensures BitOf(ShiftRight23(a), k) == BitOf(a, k + 23)
  {
    hide BitOf, ShiftRight;
    ShiftRightIs23(a);
    BitOfHigh(a, 23, k);
  }

  /** Exclusive or, bit by bit. */
  lemma {:induction false} BitOfXor(a: nat, b: nat, k: nat)
    ensures BitOf(Xor(a, b), k) == if BitOf(a, k) == BitOf(b, k) then 0 else 1
  {
    XorBits(a, b);
    hide Xor;
    if k > 0 {
      BitOfXor(a / 2, b / 2, k - 1);
    }
  }

  /** ~a: every bit of the word differs. */
  lemma NotFlips(a: word)
    ensures XorWord(a, Not(a)) == MODULUS - 1
  {
    hide Pow2, Xor;
    Pow2Of64();
    XorComplement(a, 64);
  }

  lemma {:induction false} XorComplement(a: nat, k: nat)
    requires a < Pow2(k)
    ensures Xor(a, Pow2(k) - 1 - a) == Pow2(k) - 1
  {
    if k > 0 {
      var b := Pow2(k) - 1 - a;
      assert b / 2 == Pow2(k - 1) - 1 - a / 2 && b % 2 != a % 2;
      XorComplement(a / 2, k - 1);
      XorBits(a, b);
      hide Xor;
    }
  }

  /** Sums, differences and products wrap around. */
  lemma ArithmeticWraps(a: word, b: word)
    ensures Add(a, b) == if a + b < MODULUS then a + b else a + b - MODULUS
    ensures Sub(a, b) == if a >= b then a - b else a - b + MODULUS
    ensures Mul(a, b) == a * b - a * b / MODULUS * MODULUS
  {
  }

  lemma XorWordZero(a: word)
    ensures XorWord(a, 0) == a && XorWord(0, a) == a
  {
    XorZeroBoth(a);
  }

  lemma {:induction false} XorZeroBoth(a: nat)
    ensures Xor(a, 0) == a && Xor(0, a) == a
  {
    if a > 0 {
      XorZeroBoth(a / 2);
    }
  }

  lemma {:induction false} XorSwap(a: nat, b: nat, c: nat, d: nat)
    ensures Xor(Xor(a, b), Xor(c, d)) == Xor(Xor(a, c), Xor(b, d))
    decreases a + b + c + d
  {
    if a + b + c + d > 0 {
      XorSwap(a / 2, b / 2, c / 2, d / 2);
    }
    XorBits(a, b);
    XorBits(c, d);
    XorBits(a, c);
    XorBits(b, d);
    XorBits(Xor(a, b), Xor(c, d));
    XorBits(Xor(a, c), Xor(b, d));
    XorOfZeros();
    hide Xor;
    if a + b + c + d > 0 {
      var p, q := Xor(Xor(a, b), Xor(c, d)), Xor(Xor(a, c), Xor(b, d));
      assert p / 2 == q / 2;
      assert p % 2 == q % 2;
    }
  }

  lemma XorOfZeros()
    ensures Xor(0, 0) == 0
  {
  }
}
