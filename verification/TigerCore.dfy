/**
  The Tiger compression function: `round`, `pass`, `key_schedule` and the two forms of `compress`,
  over an arbitrary S-box table and an arbitrary number of passes.
 */
module TigerCore {
  import opened Words

  /** The four S-boxes t1..t4 of 256 words, stored one after another. */
  type Table = t: seq<word> | |t| == 1024 witness seq(1024, _ => 0)

  /** The block registers x0..x7. */
  type Block = x: seq<word> | |x| == 8 witness seq(8, _ => 0)

  /** The multipliers that `compress` hands to `pass`. */
  type Multiplier = m: word | m == 5 || m == 7 || m == 9 witness 5

  /** The registers a, b, c. */
  datatype Abc = Abc(a: word, b: word, c: word)

  /** The two definitions of `round`: shifts of the whole word, or of its 32-bit halves. */
  datatype RoundForm = Official | Halves

  // ----- round

  /** The casts (uint32_t) and (uint8_t). */
  function Low32(c: word): word { c % 0x1_0000_0000 }
  function Low8(c: word): byte { c % 0x100 }

  function High32(c: word): word { Low32(c / 0x1_0000_0000) }

  /** Byte k of c as each definition of `round` extracts it. */
  function Index(f: RoundForm, c: word, k: nat): byte
    requires k < 8
  {
    match f
    case Official => Byte(c, k)
    case Halves => ByteOfHalf(if k < 4 then Low32(c) else High32(c), k % 4)
  }

  /** (uint8_t)(half >> 8*k) */
  function ByteOfHalf(half: word, k: nat): byte
    requires k < 4
  {
    Low8(match k case 0 => half case 1 => half / 0x100 case 2 => half / 0x1_0000 case _ => half / 0x100_0000)
  }

  /** S-box i (counted from 0) at byte k of c. */
  function Box(f: RoundForm, t: Table, i: nat, c: word, k: nat): word
    requires i < 4 && k < 8
  {
    t[256 * i + Index(f, c, k)]
  }

  /** What a round subtracts from a. */
  function Even(f: RoundForm, t: Table, c: word): word {
    XorWord(XorWord(XorWord(Box(f, t, 0, c, 0), Box(f, t, 1, c, 2)), Box(f, t, 2, c, 4)), Box(f, t, 3, c, 6))
  }

  /** What a round adds to b. */
  function Odd(f: RoundForm, t: Table, c: word): word {
    XorWord(XorWord(XorWord(Box(f, t, 3, c, 1), Box(f, t, 2, c, 3)), Box(f, t, 1, c, 5)), Box(f, t, 0, c, 7))
  }

  function Round(f: RoundForm, t: Table, s: Abc, x: word, mul: Multiplier): Abc {
    var c := XorWord(s.c, x);
    Abc(Sub(s.a, Even(f, t, c)), Mul(Add(s.b, Odd(f, t, c)), mul), c)
  }

  /** Both definitions of `round` extract the same byte. */
  lemma IndexesAgree(f: RoundForm, c: word, k: nat)
    requires k < 8
    ensures Index(f, c, k) == Index(Official, c, k)
  {
    hide Byte, Low32, ByteOfHalf;
    LowHalf(c, k % 4);
    LowHalf(c / 0x1_0000_0000, k % 4);
    if k >= 4 {
      ByteOfHighHalf(c, k);
    }
  }

  lemma LowHalf(c: word, k: nat)
    requires k < 4
    ensures ByteOfHalf(Low32(c), k) == Byte(c, k)
  {
    var h := Low32(c);
    LowHalfBytes(c, c / 0x1_0000_0000, h);
    hide Low32;
    LowBytes(c);
    hide Byte;
  }

  lemma ByteOfHighHalf(c: word, k: nat)
    requires 4 <= k < 8
    ensures Byte(c, k) == Byte(c / 0x1_0000_0000, k - 4)
  {
    ByteStep(c, k);
    ByteStep(c / 0x100, k - 1);
    ByteStep(c / 0x100 / 0x100, k - 2);
    ByteStep(c / 0x100 / 0x100 / 0x100, k - 3);
    hide Byte;
    assert c / 0x100 / 0x100 / 0x100 / 0x100 == c / 0x1_0000_0000;
  }

  lemma LowBytes(c: nat)
    ensures Byte(c, 0) == c % 0x100
    ensures Byte(c, 1) == c / 0x100 % 0x100
    ensures Byte(c, 2) == c / 0x1_0000 % 0x100
    ensures Byte(c, 3) == c / 0x100_0000 % 0x100
  {
    var c1, c2, c3 := c / 0x100, c / 0x1_0000, c / 0x100_0000;
    assert c1 / 0x100 == c2 && c2 / 0x100 == c3;
    ByteStep(c, 1);
    ByteStep(c, 2);
    ByteStep(c1, 1);
    ByteStep(c, 3);
    ByteStep(c1, 2);
    ByteStep(c2, 1);
    ByteZero(c);
    ByteZero(c1);
    ByteZero(c2);
    ByteZero(c3);
    hide Byte;
  }

  /** The four lowest bytes do not depend on the upper half q. */
  lemma LowHalfBytes(c: nat, q: nat, h: nat)
    requires c == 0x1_0000_0000 * q + h
    ensures c % 0x100 == h % 0x100
    ensures c / 0x100 % 0x100 == h / 0x100 % 0x100
    ensures c / 0x1_0000 % 0x100 == h / 0x1_0000 % 0x100
    ensures c / 0x100_0000 % 0x100 == h / 0x100_0000 % 0x100
  {
    DropMultiple(0x100_0000 * q, h);
    assert c / 0x100 == 0x100_0000 * q + h / 0x100;
    DropMultiple(0x1_0000 * q, h / 0x100);
    assert c / 0x1_0000 == 0x1_0000 * q + h / 0x1_0000;
    DropMultiple(0x100 * q, h / 0x1_0000);
    assert c / 0x100_0000 == 0x100 * q + h / 0x100_0000;
    DropMultiple(q, h / 0x100_0000);
  }

  lemma DropMultiple(q: nat, h: nat)
    ensures (0x100 * q + h) % 0x100 == h % 0x100
  {
  }

  lemma RoundFormsAgree(f: RoundForm, t: Table, s: Abc, x: word, mul: Multiplier)
    ensures Round(f, t, s, x, mul) == Round(Official, t, s, x, mul)
  {
    hide XorWord, Index;
    forall c: word, k: nat | k < 8
      ensures Index(f, c, k) == Index(Official, c, k)
    {
      IndexesAgree(f, c, k);
    }
  }

  // ----- which S-box entries a round uses, and how

  /** A table that is zero apart from one entry. */
  function Single(j: nat, w: word): Table
    requires j < 1024
  {
    seq(1024, i => if i == j then w else 0)
  }

  function ZeroTable(): Table { Single(0, 0) }

  /** Of S-box i the round subtracts from a the entry at byte 2 * i of c, and adds to b the entry at byte
      7 - 2 * i: entry j belongs to S-box j / 256. */
  lemma BoxesUsed(f: RoundForm, j: nat, w: word, c: word)
    requires j < 1024
    ensures Even(f, Single(j, w), c) == if j % 256 == Byte(c, 2 * (j / 256)) then w else 0
    ensures Odd(f, Single(j, w), c) == if j % 256 == Byte(c, 7 - 2 * (j / 256)) then w else 0
  {
    hide XorWord, Byte, Index;
    forall k: nat | k < 8
      ensures Index(f, c, k) == Byte(c, k)
    {
      IndexesAgree(f, c, k);
      OfficialIndex(c, k);
    }
    XorWordZero(0);
    XorWordZero(w);
  }

  lemma OfficialIndex(c: word, k: nat)
    requires k < 8
    ensures Index(Official, c, k) == Byte(c, k)
  {
  }

  /** Two tables, entry by entry. */
  function XorTables(t: Table, u: Table): Table {
    seq(1024, i requires 0 <= i < 1024 => XorWord(t[i], u[i]))
  }

  /** Entries count independently of each other, so single entries say it all. */
  lemma BoxesAreLinear(f: RoundForm, t: Table, u: Table, c: word)
    ensures Even(f, XorTables(t, u), c) == XorWord(Even(f, t, c), Even(f, u, c))
    ensures Odd(f, XorTables(t, u), c) == XorWord(Odd(f, t, c), Odd(f, u, c))
  {
    forall i: nat, k: nat | i < 4 && k < 8
      ensures Box(f, XorTables(t, u), i, c, k) == XorWord(Box(f, t, i, c, k), Box(f, u, i, c, k))
    {
      BoxIsLinear(f, t, u, i, c, k);
    }
    hide Box, XorWord, XorTables;
    FourSwapped(Box(f, t, 0, c, 0), Box(f, t, 1, c, 2), Box(f, t, 2, c, 4), Box(f, t, 3, c, 6),
                Box(f, u, 0, c, 0), Box(f, u, 1, c, 2), Box(f, u, 2, c, 4), Box(f, u, 3, c, 6));
    FourSwapped(Box(f, t, 3, c, 1), Box(f, t, 2, c, 3), Box(f, t, 1, c, 5), Box(f, t, 0, c, 7),
                Box(f, u, 3, c, 1), Box(f, u, 2, c, 3), Box(f, u, 1, c, 5), Box(f, u, 0, c, 7));
  }

  lemma BoxIsLinear(f: RoundForm, t: Table, u: Table, i: nat, c: word, k: nat)
    requires i < 4 && k < 8
    ensures Box(f, XorTables(t, u), i, c, k) == XorWord(Box(f, t, i, c, k), Box(f, u, i, c, k))
  {
    hide XorWord, Index;
  }

  lemma FourSwapped(a: word, b: word, c: word, d: word, p: word, q: word, r: word, s: word)
    ensures XorWord(XorWord(XorWord(XorWord(a, p), XorWord(b, q)), XorWord(c, r)), XorWord(d, s))
      == XorWord(XorWord(XorWord(XorWord(a, b), c), d), XorWord(XorWord(XorWord(p, q), r), s))
  {
    XorSwap(a, p, b, q);
    XorSwap(Xor(a, b), Xor(p, q), c, r);
    XorSwap(Xor(Xor(a, b), c), Xor(Xor(p, q), r), d, s);
    XorIsXorWord();
    hide Xor, XorWord;
  }

  lemma XorIsXorWord()
    ensures forall a: word, b: word :: XorWord(a, b) == Xor(a, b)
  {
  }

  /** The arithmetic of a round: c is mixed with the key word first, then a loses the even boxes, and b
      gains the odd ones and is multiplied. */
  lemma RoundEffect(f: RoundForm, t: Table, s: Abc, x: word, mul: Multiplier)
    ensures var r := Round(f, t, s, x, mul);
      && r.c == Xor(s.c, x)
      && (r.a + Even(f, t, r.c)) % MODULUS == s.a
      && r.b == (s.b + Odd(f, t, r.c)) * mul % MODULUS
  {
    var c := XorWord(s.c, x);
    hide Even, Odd;
    AddSub(s.a, Even(f, t, c));
    ProductWraps(s.b + Odd(f, t, c), mul);
  }

  lemma ProductWraps(n: nat, m: nat)
    ensures n % MODULUS * m % MODULUS == n * m % MODULUS
  {
    var q, r := n / MODULUS, n % MODULUS;
    assert n * m == r * m + q * m * MODULUS;
    MultipleDropped(r * m, q * m);
  }

  lemma MultipleDropped(n: nat, k: nat)
    ensures (n + k * MODULUS) % MODULUS == n % MODULUS
  {
    RemainderUnique(n + k * MODULUS, n / MODULUS + k, n % MODULUS);
  }

  // ----- undoing a round

  /** The inverse of the multiplier modulo 2^64. */
  function Inverse(mul: Multiplier): word {
    if mul == 5 then 0xCCCC_CCCC_CCCC_CCCD
    else if mul == 7 then 0x6DB6_DB6D_B6DB_6DB7
    else 0x8E38_E38E_38E3_8E39
  }

  function UnRound(f: RoundForm, t: Table, s: Abc, x: word, mul: Multiplier): Abc {
    Abc(Add(s.a, Even(f, t, s.c)), Sub(Mul(s.b, Inverse(mul)), Odd(f, t, s.c)), XorWord(s.c, x))
  }

  lemma MultiplierCancels(b: word, mul: Multiplier)
    ensures Mul(Mul(b, mul), Inverse(mul)) == b && Mul(Mul(b, Inverse(mul)), mul) == b
  {
    var k := (mul * Inverse(mul) - 1) / MODULUS;
    assert mul * Inverse(mul) == 1 + k * MODULUS;
    hide *;
    MulCancels(b, mul, Inverse(mul), k);
    MulCancels(b, Inverse(mul), mul, k);
  }

  lemma RoundInverse(f: RoundForm, t: Table, s: Abc, x: word, mul: Multiplier)
    ensures UnRound(f, t, Round(f, t, s, x, mul), x, mul) == s
    ensures Round(f, t, UnRound(f, t, s, x, mul), x, mul) == s
  {
    hide XorWord, Even, Odd, Add, Sub, Mul, Inverse;
    XorWordCancels(s.c, x);
    var c := XorWord(s.c, x);
    AddSub(s.a, Even(f, t, c));
    AddSub(s.b, Odd(f, t, c));
    MultiplierCancels(Add(s.b, Odd(f, t, c)), mul);
    AddSub(s.a, Even(f, t, s.c));
    AddSub(Mul(s.b, Inverse(mul)), Odd(f, t, s.c));
    MultiplierCancels(s.b, mul);
  }

  // ----- pass

  /** (b, c, a) and (c, a, b): the registers with their roles rotated. */
  function Left(s: Abc): Abc { Abc(s.b, s.c, s.a) }
  function Right(s: Abc): Abc { Abc(s.c, s.a, s.b) }

  /** The first n rounds of a pass; round i works on the registers with their roles rotated i times. */
  function Rounds(f: RoundForm, t: Table, s: Abc, x: Block, mul: Multiplier, n: nat): Abc
    requires n <= 8
    decreases n, x
  {
    if n == 0 then s else
      var p := Rounds(f, t, s, x, mul, n - 1);
      match (n - 1) % 3
      case 0 => Round(f, t, p, x[n - 1], mul)
      case 1 => Right(Round(f, t, Left(p), x[n - 1], mul))
      case _ => Left(Round(f, t, Right(p), x[n - 1], mul))
  }

  function Pass(f: RoundForm, t: Table, s: Abc, x: Block, mul: Multiplier): Abc {
    Rounds(f, t, s, x, mul, 8)
  }

  /** Undoes the first n rounds of a pass, the last one first. */
  function UnRounds(f: RoundForm, t: Table, s: Abc, x: Block, mul: Multiplier, n: nat): Abc
    requires n <= 8
    decreases n, x
  {
    if n == 0 then s else
      var p := match (n - 1) % 3
        case 0 => UnRound(f, t, s, x[n - 1], mul)
        case 1 => Right(UnRound(f, t, Left(s), x[n - 1], mul))
        case _ => Left(UnRound(f, t, Right(s), x[n - 1], mul));
      UnRounds(f, t, p, x, mul, n - 1)
  }

  function UnPass(f: RoundForm, t: Table, s: Abc, x: Block, mul: Multiplier): Abc {
    UnRounds(f, t, s, x, mul, 8)
  }

  lemma {:induction false} RoundsUndone(f: RoundForm, t: Table, s: Abc, x: Block, mul: Multiplier, n: nat)
    requires n <= 8
    ensures UnRounds(f, t, Rounds(f, t, s, x, mul, n), x, mul, n) == s
  {
    hide Round, UnRound;
    if n > 0 {
      var p := Rounds(f, t, s, x, mul, n - 1);
      RoundInverse(f, t, p, x[n - 1], mul);
      RoundInverse(f, t, Left(p), x[n - 1], mul);
      RoundInverse(f, t, Right(p), x[n - 1], mul);
      RoundsUndone(f, t, s, x, mul, n - 1);
    }
  }

  lemma {:induction false} RoundsRedone(f: RoundForm, t: Table, s: Abc, x: Block, mul: Multiplier, n: nat)
    requires n <= 8
    ensures Rounds(f, t, UnRounds(f, t, s, x, mul, n), x, mul, n) == s
    decreases n
  {
    hide Round, UnRound;
    if n > 0 {
      RoundInverse(f, t, s, x[n - 1], mul);
      RoundInverse(f, t, Left(s), x[n - 1], mul);
      RoundInverse(f, t, Right(s), x[n - 1], mul);
      var p := match (n - 1) % 3
        case 0 => UnRound(f, t, s, x[n - 1], mul)
        case 1 => Right(UnRound(f, t, Left(s), x[n - 1], mul))
        case _ => Left(UnRound(f, t, Right(s), x[n - 1], mul));
      RoundsRedone(f, t, p, x, mul, n - 1);
    }
  }

  lemma PassInverse(f: RoundForm, t: Table, s: Abc, x: Block, mul: Multiplier)
    ensures UnPass(f, t, Pass(f, t, s, x, mul), x, mul) == s
    ensures Pass(f, t, UnPass(f, t, s, x, mul), x, mul) == s
  {
    RoundsUndone(f, t, s, x, mul, 8);
    RoundsRedone(f, t, s, x, mul, 8);
  }

  lemma {:induction false} PassFormsAgree(f: RoundForm, t: Table, s: Abc, x: Block, mul: Multiplier, n: nat)
    requires n <= 8
    ensures Rounds(f, t, s, x, mul, n) == Rounds(Official, t, s, x, mul, n)
  {
    hide Round;
    if n > 0 {
      PassFormsAgree(f, t, s, x, mul, n - 1);
      var p := Rounds(f, t, s, x, mul, n - 1);
      RoundFormsAgree(f, t, p, x[n - 1], mul);
      RoundFormsAgree(f, t, Left(p), x[n - 1], mul);
      RoundFormsAgree(f, t, Right(p), x[n - 1], mul);
    }
  }

  /** The rounds of a pass in the arguments of the macro: (a, b, c), (b, c, a), (c, a, b), and again. */
  lemma RoundsOneByOne(f: RoundForm, t: Table, s: Abc, x: Block, mul: Multiplier, n: nat)
    requires n < 8
    ensures var p, q := Rounds(f, t, s, x, mul, n), Rounds(f, t, s, x, mul, n + 1);
      && (n % 3 == 0 ==> q == Round(f, t, Abc(p.a, p.b, p.c), x[n], mul))
      && (n % 3 == 1 ==> Abc(q.b, q.c, q.a) == Round(f, t, Abc(p.b, p.c, p.a), x[n], mul))
      && (n % 3 == 2 ==> Abc(q.c, q.a, q.b) == Round(f, t, Abc(p.c, p.a, p.b), x[n], mul))
  {
    hide Round;
  }

  /** Which register meets which key word and when it is multiplied: a pass over a table of zeros. */
  lemma PassWithoutBoxes(f: RoundForm, s: Abc, x: Block, mul: Multiplier)
    ensures Pass(f, ZeroTable(), s, x, mul) == Abc(
      XorWord(Mul(XorWord(Mul(XorWord(s.a, x[1]), mul), x[4]), mul), x[7]),
      Mul(XorWord(Mul(XorWord(Mul(s.b, mul), x[2]), mul), x[5]), mul),
      Mul(XorWord(Mul(XorWord(Mul(XorWord(s.c, x[0]), mul), x[3]), mul), x[6]), mul))
  {
    hide XorWord, Mul, Round;
    forall s: Abc, x: word
      ensures Round(f, ZeroTable(), s, x, mul) == Abc(s.a, Mul(s.b, mul), XorWord(s.c, x))
    {
      RoundWithoutBoxes(f, s, x, mul);
    }
    var z := ZeroTable();
    assert Rounds(f, z, s, x, mul, 0) == s;
    var s1 := Abc(s.a, Mul(s.b, mul), XorWord(s.c, x[0]));
    assert Rounds(f, z, s, x, mul, 1) == s1;
    var s2 := Abc(XorWord(s1.a, x[1]), s1.b, Mul(s1.c, mul));
    assert Rounds(f, z, s, x, mul, 2) == s2;
    var s3 := Abc(Mul(s2.a, mul), XorWord(s2.b, x[2]), s2.c);
    assert Rounds(f, z, s, x, mul, 3) == s3;
    var s4 := Abc(s3.a, Mul(s3.b, mul), XorWord(s3.c, x[3]));
    assert Rounds(f, z, s, x, mul, 4) == s4;
    var s5 := Abc(XorWord(s4.a, x[4]), s4.b, Mul(s4.c, mul));
    assert Rounds(f, z, s, x, mul, 5) == s5;
    var s6 := Abc(Mul(s5.a, mul), XorWord(s5.b, x[5]), s5.c);
    assert Rounds(f, z, s, x, mul, 6) == s6;
    var s7 := Abc(s6.a, Mul(s6.b, mul), XorWord(s6.c, x[6]));
    assert Rounds(f, z, s, x, mul, 7) == s7;
  }

  lemma RoundWithoutBoxes(f: RoundForm, s: Abc, x: word, mul: Multiplier)
    ensures Round(f, ZeroTable(), s, x, mul) == Abc(s.a, Mul(s.b, mul), XorWord(s.c, x))
  {
    hide XorWord, Even, Odd, Add, Sub, Mul;
    BoxesUsed(f, 0, 0, XorWord(s.c, x));
    AddNothing(s.a);
    AddNothing(s.b);
  }

  lemma AddNothing(a: word)
    ensures Add(a, 0) == a && Sub(a, 0) == a
  {
  }

  // ----- key_schedule

  function KeySchedule(x: Block): Block {
    var y0 := Sub(x[0], XorWord(x[7], 0xA5A5_A5A5_A5A5_A5A5));
    var y1 := XorWord(x[1], y0);
    var y2 := Add(x[2], y1);
    var y3 := Sub(x[3], XorWord(y2, ShiftLeft19(Not(y1))));
    var y4 := XorWord(x[4], y3);
    var y5 := Add(x[5], y4);
    var y6 := Sub(x[6], XorWord(y5, ShiftRight23(Not(y4))));
    var y7 := XorWord(x[7], y6);
    var z0 := Add(y0, y7);
    var z1 := Sub(y1, XorWord(z0, ShiftLeft19(Not(y7))));
    var z2 := XorWord(y2, z1);
    var z3 := Add(y3, z2);
    var z4 := Sub(y4, XorWord(z3, ShiftRight23(Not(z2))));
    var z5 := XorWord(y5, z4);
    var z6 := Add(y6, z5);
    var z7 := Sub(y7, XorWord(z6, 0x0123_4567_89AB_CDEF));
    [z0, z1, z2, z3, z4, z5, z6, z7]
  }

  function UnKeySchedule(z: Block): Block {
    var y7 := Add(z[7], XorWord(z[6], 0x0123_4567_89AB_CDEF));
    var y6 := Sub(z[6], z[5]);
    var y5 := XorWord(z[5], z[4]);
    var y4 := Add(z[4], XorWord(z[3], ShiftRight23(Not(z[2]))));
    var y3 := Sub(z[3], z[2]);
    var y2 := XorWord(z[2], z[1]);
    var y1 := Add(z[1], XorWord(z[0], ShiftLeft19(Not(y7))));
    var y0 := Sub(z[0], y7);
    var x7 := XorWord(y7, y6);
    var x6 := Add(y6, XorWord(y5, ShiftRight23(Not(y4))));
    var x5 := Sub(y5, y4);
    var x4 := XorWord(y4, y3);
    var x3 := Add(y3, XorWord(y2, ShiftLeft19(Not(y1))));
    var x2 := Sub(y2, y1);
    var x1 := XorWord(y1, y0);
    var x0 := Add(y0, XorWord(x7, 0xA5A5_A5A5_A5A5_A5A5));
    [x0, x1, x2, x3, x4, x5, x6, x7]
  }

  lemma KeyScheduleInverse(x: Block)
    ensures UnKeySchedule(KeySchedule(x)) == x
    ensures KeySchedule(UnKeySchedule(x)) == x
  {
    AllCancel();
    hide Add, Sub, XorWord, Not, ShiftLeft19, ShiftRight23;
  }

  /** Each of the sixteen assignments, read off the words before and after. */
  lemma KeyScheduleEquations(x: Block)
    ensures var z := KeySchedule(x);
      var y7 := Add(z[7], XorWord(z[6], 0x0123_4567_89AB_CDEF));
      var y6, y5, y3, y2 := Sub(z[6], z[5]), XorWord(z[5], z[4]), Sub(z[3], z[2]), XorWord(z[2], z[1]);
      var y4 := Add(z[4], XorWord(z[3], ShiftRight23(Not(z[2]))));
      var y1 := Add(z[1], XorWord(z[0], ShiftLeft19(Not(y7))));
      && Add(Sub(z[0], y7), XorWord(x[7], 0xA5A5_A5A5_A5A5_A5A5)) == x[0]
      && XorWord(y1, Sub(z[0], y7)) == x[1]
      && Sub(y2, y1) == x[2]
      && Add(y3, XorWord(y2, ShiftLeft19(Not(y1)))) == x[3]
      && XorWord(y4, y3) == x[4]
      && Sub(y5, y4) == x[5]
      && Add(y6, XorWord(y5, ShiftRight23(Not(y4)))) == x[6]
      && XorWord(y7, y6) == x[7]
  {
    AllCancel();
    hide Add, Sub, XorWord, Not, ShiftLeft19, ShiftRight23;
  }

  // ----- compress

  /** The block registers in pass n: the key schedule runs before every pass but the first. */
  function Key(x: Block, n: nat): Block {
    if n == 0 then x else KeySchedule(Key(x, n - 1))
  }

  function PassMultiplier(n: nat): Multiplier {
    if n == 0 then 5 else if n == 1 then 7 else 9
  }

  /** The registers after n passes, each of which ends by rotating them: a, b, c := c, a, b. */
  function Passes(t: Table, s: Abc, x: Block, n: nat): Abc {
    if n == 0 then s
    else Right(Pass(Official, t, Passes(t, s, x, n - 1), Key(x, n - 1), PassMultiplier(n - 1)))
  }

  function UnPasses(t: Table, s: Abc, x: Block, n: nat): Abc
    decreases n
  {
    if n == 0 then s
    else UnPasses(t, UnPass(Official, t, Left(s), Key(x, n - 1), PassMultiplier(n - 1)), x, n - 1)
  }

  lemma {:induction false} PassesUndone(t: Table, s: Abc, x: Block, n: nat)
    ensures UnPasses(t, Passes(t, s, x, n), x, n) == s
  {
    hide Pass, UnPass, Key, PassMultiplier;
    if n > 0 {
      PassInverse(Official, t, Passes(t, s, x, n - 1), Key(x, n - 1), PassMultiplier(n - 1));
      PassesUndone(t, s, x, n - 1);
    }
  }

  lemma {:induction false} PassesRedone(t: Table, s: Abc, x: Block, n: nat)
    ensures Passes(t, UnPasses(t, s, x, n), x, n) == s
    decreases n
  {
    hide Pass, UnPass, Key, PassMultiplier;
    if n > 0 {
      var k, m := Key(x, n - 1), PassMultiplier(n - 1);
      PassInverse(Official, t, Left(s), k, m);
      PassesRedone(t, UnPass(Official, t, Left(s), k, m), x, n - 1);
    }
  }

  /** For every block and table and any number of passes, what happens to a, b and c before the
      feedforward is a bijection with inverse UnPasses. */
  lemma PassesBijection(t: Table, s: Abc, x: Block, n: nat)
    ensures UnPasses(t, Passes(t, s, x, n), x, n) == s
    ensures Passes(t, UnPasses(t, s, x, n), x, n) == s
  {
    PassesUndone(t, s, x, n);
    PassesRedone(t, s, x, n);
  }

  function FeedForward(s: Abc, saved: Abc): Abc {
    Abc(XorWord(s.a, saved.a), Sub(s.b, saved.b), Add(s.c, saved.c))
  }

  /** The compression function. */
  function Compress(t: Table, s: Abc, x: Block, passes: nat): Abc {
    FeedForward(Passes(t, s, x, passes), s)
  }

  /** From one chaining state, two blocks have the same result exactly if the registers before the
      feedforward are the same. */
  lemma FeedForwardLosesNothing(t: Table, s: Abc, x: Block, y: Block, passes: nat)
    ensures Compress(t, s, x, passes) == Compress(t, s, y, passes) <==> Passes(t, s, x, passes) == Passes(t, s, y, passes)
  {
    FeedForwardInverse(Passes(t, s, x, passes), s);
    FeedForwardInverse(Passes(t, s, y, passes), s);
    hide Passes, FeedForward, UnFeedForward;
  }

  function UnFeedForward(r: Abc, saved: Abc): Abc {
    Abc(XorWord(r.a, saved.a), Add(r.b, saved.b), Sub(r.c, saved.c))
  }

  lemma FeedForwardInverse(s: Abc, saved: Abc)
    ensures UnFeedForward(FeedForward(s, saved), saved) == s
  {
    AllCancel();
    hide XorWord, Add, Sub;
  }

  /** What each register is combined with at the end. */
  lemma CompressFeedsForward(t: Table, s: Abc, x: Block, passes: nat)
    ensures var p, r := Passes(t, s, x, passes), Compress(t, s, x, passes);
      && Xor(r.a, s.a) == p.a
      && (r.b + s.b) % MODULUS == p.b
      && (r.c - s.c) % MODULUS == p.c
  {
    var p := Passes(t, s, x, passes);
    hide Passes, Xor;
    XorCancels(p.a, s.a);
    AddSub(p.b, s.b);
    AddSub(p.c, s.c);
  }

  /** The passes one by one: multiplied by 5, by 7 and from then on by 9, over the block as it is, which is
      scheduled once more before each later pass; a, b and c become c, a and b after it. */
  lemma PassesOneByOne(t: Table, s: Abc, x: Block, n: nat)
    ensures Passes(t, s, x, 0) == s && Key(x, 0) == x && Key(x, n + 1) == KeySchedule(Key(x, n))
    ensures var m: Multiplier := if n == 0 then 5 else if n == 1 then 7 else 9;
      var p, q := Pass(Official, t, Passes(t, s, x, n), Key(x, n), m), Passes(t, s, x, n + 1);
      q.a == p.c && q.b == p.a && q.c == p.b
  {
    hide Pass, KeySchedule;
  }

  // ----- the two forms of the loop over the passes

  function ToAbc(state: seq<word>): Abc
    requires |state| == 3
  {
    Abc(state[0], state[1], state[2])
  }

  /** `tiger_compress` with the rotating loop, for either definition of `round`. */
  method CompressLoop(f: RoundForm, t: Table, str: Block, state: array<word>, passes: nat)
    requires state.Length == 3
    modifies state
    ensures ToAbc(state[..]) == Compress(t, ToAbc(old(state[..])), str, passes)
  {
    hide Rounds, KeySchedule, XorWord, Add, Sub;
    var s := Abc(state[0], state[1], state[2]);
    var x := str;
    var saved := s;
    for n := 0 to passes
      invariant s == Passes(t, saved, str, n)
      invariant x == Key(str, if n == 0 then 0 else n - 1)
    {
      if n != 0 {
        x := KeySchedule(x);
      }
      PassFormsAgree(f, t, s, x, PassMultiplier(n), 8);
      s := Pass(f, t, s, x, if n == 0 then 5 else if n == 1 then 7 else 9);
      var tmpa := s.a;
      s := s.(a := s.c);
      s := s.(c := s.b);
      s := s.(b := tmpa);
    }
    s := FeedForward(s, saved);
    state[0], state[1], state[2] := s.a, s.b, s.c;
  }

  /** `tiger_compress` with three unrolled passes that permute the macro's arguments instead of
      the registers. It computes the same function, from three passes on. */
  method CompressUnrolled(f: RoundForm, t: Table, str: Block, state: array<word>, passes: nat)
    requires state.Length == 3
    requires passes >= 3
    modifies state
    ensures ToAbc(state[..]) == Compress(t, ToAbc(old(state[..])), str, passes)
  {
    hide Rounds, KeySchedule, XorWord, Add, Sub;
    var s := Abc(state[0], state[1], state[2]);
    var x := str;
    var saved := s;
    PassFormsAgree(f, t, s, x, 5, 8);
    s := Pass(f, t, s, x, 5);
    assert Right(s) == Passes(t, saved, str, 1);
    x := KeySchedule(x);
    PassFormsAgree(f, t, Right(s), x, 7, 8);
    s := Left(Pass(f, t, Right(s), x, 7));  // pass(c, a, b, 7)
    assert Left(s) == Passes(t, saved, str, 2);
    x := KeySchedule(x);
    PassFormsAgree(f, t, Left(s), x, 9, 8);
    s := Right(Pass(f, t, Left(s), x, 9));  // pass(b, c, a, 9)
    for n := 3 to passes
      invariant s == Passes(t, saved, str, n)
      invariant x == Key(str, n - 1)
    {
      x := KeySchedule(x);
      PassFormsAgree(f, t, s, x, 9, 8);
      s := Pass(f, t, s, x, 9);
      var tmpa := s.a;
      s := s.(a := s.c);
      s := s.(c := s.b);
      s := s.(b := tmpa);
    }
    s := FeedForward(s, saved);
    state[0], state[1], state[2] := s.a, s.b, s.c;
  }
}
