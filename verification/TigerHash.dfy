/**
  The Tiger hash of a message: the block loop and the padding of `tiger`, in both byte orders,
  against "pad, cut into blocks, fold the compression function".

  Whether bytes are swapped is decided when the source is compiled, by a switch that must match the
  machine; what happens when it does not is stated as well.
 */
module TigerHash {
  import opened Lists
  import opened Words
  import opened TigerCore

  /** The compile-time switches of the source and PASSES, and the byte order of the machine. */
  datatype Build = Build(bigEndian: bool, alpha: bool, passes: nat, bigMachine: bool) {
    predicate Mismatch() { bigEndian != bigMachine }
  }

  // ----- the specification

  function Zeros(n: nat): (z: seq<byte>)
    ensures |z| == n
  {
    seq(n, _ => 0)
  }

  /** The number of 64-byte blocks of a message of n bytes once it is padded. */
  function BlockCount(n: nat): nat { (n + 8) / 64 + 1 }

  /** The message, one byte 0x01, zeros, and the length in bits as 64 bits, low byte first. */
  function Pad(msg: seq<byte>): (p: seq<byte>)
    ensures |p| == 64 * BlockCount(|msg|) && |msg| + 9 <= |p| < |msg| + 9 + 64
    ensures p[..|msg|] == msg
  {
    msg + [1] + Zeros(64 * BlockCount(|msg|) - |msg| - 9) + ToBytes(8 * |msg| % MODULUS, 8)
  }

  /** The eight words of a 64-byte block, each low byte first. */
  function ToBlock(b: seq<byte>): (x: Block)
    requires |b| == 64
    ensures forall k :: 0 <= k < 8 ==> x[k] == ToWord(b[8 * k..8 * k + 8])
  {
    seq(8, k requires 0 <= k < 8 => ToWord(b[8 * k..8 * k + 8]))
  }

  function ToWord(b: seq<byte>): word
    requires |b| == 8
  {
    FromBytesFits(b);
    Pow2Of64();
    FromBytes(b)
  }

  function Initial(): Abc {
    Abc(0x0123_4567_89AB_CDEF, 0xFEDC_BA98_7654_3210, 0xF096_A5B4_C3B2_E187)
  }

  /** The three initial values as the sixteen hexadecimal digits of each, byte by byte. */
  lemma InitialBytes()
    ensures Initial().a == FromBytes([0xEF, 0xCD, 0xAB, 0x89, 0x67, 0x45, 0x23, 0x01])
    ensures Initial().a + Initial().b == MODULUS - 1
    ensures Initial().c == FromBytes([0x87, 0xE1, 0xB2, 0xC3, 0xB4, 0xA5, 0x96, 0xF0])
  {
    FromBytesOfEight(0xEF, 0xCD, 0xAB, 0x89, 0x67, 0x45, 0x23, 0x01);
    FromBytesOfEight(0x87, 0xE1, 0xB2, 0xC3, 0xB4, 0xA5, 0x96, 0xF0);
  }

  lemma FromBytesOfEight(a: byte, b: byte, c: byte, d: byte, e: byte, f: byte, g: byte, h: byte)
    ensures FromBytes([a, b, c, d, e, f, g, h]) == a + 0x100 * b + 0x1_0000 * c + 0x100_0000 * d
      + 0x1_0000_0000 * e + 0x100_0000_0000 * f + 0x1_0000_0000_0000 * g + 0x100_0000_0000_0000 * h
  {
    hide FromBytes;
    FromBytesCons(h, []);
    FromBytesCons(g, [h]);
    FromBytesCons(f, [g, h]);
    FromBytesCons(e, [f, g, h]);
    FromBytesCons(d, [e, f, g, h]);
    FromBytesCons(c, [d, e, f, g, h]);
    FromBytesCons(b, [c, d, e, f, g, h]);
    FromBytesCons(a, [b, c, d, e, f, g, h]);
    assert [h] + [] == [h];
    assert [g] + [h] == [g, h] && [f] + [g, h] == [f, g, h] && [e] + [f, g, h] == [e, f, g, h];
    assert [d] + [e, f, g, h] == [d, e, f, g, h] && [c] + [d, e, f, g, h] == [c, d, e, f, g, h];
    assert [b] + [c, d, e, f, g, h] == [b, c, d, e, f, g, h];
    assert [a] + [b, c, d, e, f, g, h] == [a, b, c, d, e, f, g, h];
    NoBytes();
  }

  lemma NoBytes()
    ensures FromBytes([]) == 0
  {
  }

  lemma FromBytesCons(b: byte, rest: seq<byte>)
    ensures FromBytes([b] + rest) == b + 256 * FromBytes(rest)
  {
    assert ([b] + rest)[1..] == rest;
  }

  /** Block k of the padded message. */
  function BlockOf(p: seq<byte>, k: nat): Block
    requires 64 * k + 64 <= |p|
  {
    ToBlock(p[64 * k..64 * k + 64])
  }

  /** The state after the first k blocks. */
  function Chain(t: Table, p: seq<byte>, k: nat, passes: nat): Abc
    requires 64 * k <= |p|
  {
    if k == 0 then Initial() else Compress(t, Chain(t, p, k - 1, passes), BlockOf(p, k - 1), passes)
  }

  function Tiger(t: Table, msg: seq<byte>, passes: nat): Abc {
    Chain(t, Pad(msg), BlockCount(|msg|), passes)
  }

  // ----- when the switch does not match the machine

  /** Where byte j is when the bytes of every 64-bit word are mirrored. */
  function Mirror(j: nat): (m: nat)
    ensures m <= j + 7 && m / 8 == j / 8
  {
    8 * (j / 8) + 7 - j % 8
  }

  /** The padded message as the compression function sees it: if the switch does not match the machine,
      every word but the length is mirrored. */
  function Seen(mismatch: bool, p: seq<byte>): (q: seq<byte>)
    ensures |q| == |p|
    ensures !mismatch ==> q == p
  {
    if mismatch then
      seq(|p|, j requires 0 <= j < |p| =>
        if j + 8 < |p| then p[Mirror(j)] else p[j])
    else p
  }

  lemma MirrorTwice(j: nat)
    ensures Mirror(Mirror(j)) == j
  {
    assert Mirror(j) / 8 == j / 8;
  }

  function SeenTiger(mismatch: bool, t: Table, msg: seq<byte>, passes: nat): Abc {
    Chain(t, Seen(mismatch, Pad(msg)), BlockCount(|msg|), passes)
  }

  /** The words before the length are palindromes. */
  predicate Palindromic(p: seq<byte>) {
    forall j :: 0 <= j < |p| - 8 ==> p[j] == p[Mirror(j)]
  }

  /** A mismatch changes the words that are hashed exactly if some word before the length is no
      palindrome, and that is so for every message that ends in the first half of a word. */
  lemma MismatchExactly(msg: seq<byte>)
    ensures ToWords(Seen(true, Pad(msg))) == ToWords(Pad(msg)) <==> Palindromic(Pad(msg))
    ensures |msg| % 8 < 4 ==> ToWords(Seen(true, Pad(msg))) != ToWords(Pad(msg))
  {
    WholeWords(msg);
    var p := Pad(msg);
    var q := Seen(true, p);
    hide Pad, ToWords;
    if ToWords(q) == ToWords(p) {
      ToWordsInjective(q, p);
      forall j | 0 <= j < |p| - 8
        ensures p[j] == p[Mirror(j)]
      {
        assert q[j] == p[Mirror(j)];
      }
    }
    if Palindromic(p) {
      assert q == p;
      OneIsNotMirrored(msg);
    }
  }

  /** The byte 0x01 in the first half of a word has a zero for its mirror image. */
  lemma OneIsNotMirrored(msg: seq<byte>)
    ensures |msg| % 8 < 4 ==> !Palindromic(Pad(msg))
  {
    hide Pad, Mirror, BlockCount;
    WholeWords(msg);
    PadEnd(msg);
    if |msg| % 8 < 4 {
      OneInside(Pad(msg), |msg|);
    }
  }

  lemma OneInside(p: seq<byte>, n: nat)
    requires |p| % 8 == 0 && n + 9 <= |p| && n % 8 < 4
    requires p[n] == 1 && forall k :: n < k < |p| - 8 ==> p[k] == 0
    ensures !Palindromic(p)
  {
    hide Mirror;
    MirrorAbove(n, |p|);
    assert p[n] != p[Mirror(n)];
  }

  lemma MirrorAbove(n: nat, end: nat)
    requires n % 8 < 4 && n + 9 <= end && end % 8 == 0
    ensures n < Mirror(n) < end - 8
  {
  }

  lemma PadEnd(msg: seq<byte>)
    ensures Pad(msg)[|msg|] == 1
    ensures forall k :: |msg| < k < |Pad(msg)| - 8 ==> Pad(msg)[k] == 0
  {
    hide ToBytes, BlockCount;
  }

  // ----- the padding is injective

  /** The words that are fed to the compression function, over all blocks. */
  function ToWords(p: seq<byte>): seq<word>
    decreases |p|
  {
    if |p| < 8 then [] else [ToWord(p[..8])] + ToWords(p[8..])
  }

  lemma {:induction false} ToWordsInjective(p: seq<byte>, q: seq<byte>)
    requires |p| % 8 == 0 && |q| % 8 == 0
    requires ToWords(p) == ToWords(q)
    ensures p == q
    decreases |p|
  {
    if |p| >= 8 && |q| >= 8 {
      assert ToWord(p[..8]) == ToWords(p)[0] == ToWords(q)[0] == ToWord(q[..8]);
      ToFromBytes(p[..8]);
      ToFromBytes(q[..8]);
      assert ToWords(p[8..]) == ToWords(p)[1..] == ToWords(q)[1..] == ToWords(q[8..]);
      ToWordsInjective(p[8..], q[8..]);
      assert p == p[..8] + p[8..] && q == q[..8] + q[8..];
    }
  }

  /** Different messages of any two lengths never have the same blocks. */
  lemma PaddingInjective(m: seq<byte>, n: seq<byte>)
    requires ToWords(Pad(m)) == ToWords(Pad(n))
    ensures m == n
  {
    hide Pad, ToWords;
    WholeWords(m);
    WholeWords(n);
    ToWordsInjective(Pad(m), Pad(n));
    SamePadding(m, n);
  }

  lemma WholeWords(m: seq<byte>)
    ensures |Pad(m)| % 8 == 0
  {
    hide Pad, BlockCount;
    assert 64 * BlockCount(|m|) == 8 * (8 * BlockCount(|m|));
  }

  lemma SamePadding(m: seq<byte>, n: seq<byte>)
    requires Pad(m) == Pad(n)
    ensures m == n
  {
    hide Pad, BlockCount, ToBytes, FromBytes;
    LengthField(m);
    LengthField(n);
    SameCountSameLength(|m|, |n|);
    assert m == Pad(m)[..|m|] == Pad(n)[..|n|] == n;
  }

  lemma LengthField(m: seq<byte>)
    ensures FromBytes(Pad(m)[|Pad(m)| - 8..]) == 8 * |m| % MODULUS
  {
    Pow2Of64();
    FromToBytes(8 * |m| % MODULUS, 8);
    assert Pad(m)[|Pad(m)| - 8..] == ToBytes(8 * |m| % MODULUS, 8);
  }

  lemma SameCountSameLength(m: nat, n: nat)
    requires BlockCount(m) == BlockCount(n)
    requires 8 * m % MODULUS == 8 * n % MODULUS
    ensures m == n
  {
    assert -64 < m - n < 64;
    var q := 8 * m / MODULUS - 8 * n / MODULUS;
    assert 8 * (m - n) == q * MODULUS;
  }

  // ----- memory and byte order

  /** Where byte j of a block is kept in temp: at j^7 for the big-endian order. */
  function Slot(big: bool, j: nat): nat {
    if big then Xor(j, 7) else j
  }

  /** The bytes of a block in message order. */
  function View(big: bool, temp: seq<byte>): (v: seq<byte>)
    requires |temp| == 64
    ensures |v| == 64
  {
    Slots(big);
    seq(64, j requires 0 <= j < 64 && Slot(big, j) < 64 => temp[Slot(big, j)])
  }

  /** A native load and a native store of a word. */
  function Load(big: bool, b: seq<byte>): word
    requires |b| == 8
  {
    if big then ToWord(Reverse(b)) else ToWord(b)
  }

  function Store(big: bool, w: word): (b: seq<byte>)
    ensures |b| == 8
  {
    if big then Reverse(ToBytes(w, 8)) else ToBytes(w, 8)
  }

  /** The block that `tiger_compress` sees when it is handed a pointer to these bytes. */
  function LoadBlock(big: bool, b: seq<byte>): Block
    requires |b| == 64
  {
    seq(8, k requires 0 <= k < 8 => Load(big, b[8 * k..8 * k + 8]))
  }

  lemma SwapIsMirror(j: nat)
    ensures Xor(j, 7) == Mirror(j)
  {
    hide Xor;
    var j2, j4 := j / 2, j / 4;
    Halve(j, 7, 3);
    Halve(j2, 3, 1);
    Halve(j4, 1, 0);
    XorZero(j / 8);
    assert j2 / 2 == j4 && j4 / 2 == j / 8;
  }

  lemma Halve(a: nat, b: nat, c: nat)
    requires b / 2 == c
    ensures Xor(a, b) == BitXor(a % 2, b % 2) + 2 * Xor(a / 2, c)
  {
    XorBits(a, b);
  }

  lemma {:induction false} XorZero(a: nat)
    ensures Xor(a, 0) == a
  {
    if a > 0 {
      XorZero(a / 2);
    }
  }

  lemma Slots(big: bool)
    ensures forall j :: 0 <= j < 64 ==> Slot(big, j) < 64 && (j < 56 ==> Slot(big, j) < 56)
    ensures forall j, k :: 0 <= j < k < 64 ==> Slot(big, j) != Slot(big, k)
  {
    hide Xor;
    forall j: nat
      ensures Xor(j, 7) == 8 * (j / 8) + 7 - j % 8
    {
      SwapIsMirror(j);
    }
  }

  /** The slots of word k are those of its bytes, mirrored on a big-endian machine. */
  lemma SlotsOfWord(big: bool, k: nat)
    ensures forall j :: 8 * k <= j < 8 * k + 8 ==> Slot(big, j) == if big then 16 * k + 7 - j else j
  {
    hide Xor;
    forall j: nat | 8 * k <= j < 8 * k + 8
      ensures Xor(j, 7) == 16 * k + 7 - j
    {
      SwapIsMirror(j);
      MirrorInWord(j, k);
    }
  }

  lemma ViewOfWord(big: bool, temp: seq<byte>, k: nat)
    requires |temp| == 64 && k < 8
    ensures View(big, temp)[8 * k..8 * k + 8]
      == if big then Reverse(temp[8 * k..8 * k + 8]) else temp[8 * k..8 * k + 8]
  {
    var v, lo := View(big, temp), 8 * k;
    SlotsOfWord(big, k);
    hide Slot;
    assert forall j :: lo <= j < lo + 8 ==> v[j] == if big then temp[2 * lo + 7 - j] else temp[j];
    hide View;
    if big {
      MirroredSlice(v, temp, lo);
    }
  }

  lemma MirroredSlice(v: seq<byte>, temp: seq<byte>, lo: nat)
    requires |v| == |temp| && lo + 8 <= |v|
    requires forall j :: lo <= j < lo + 8 ==> v[j] == temp[2 * lo + 7 - j]
    ensures v[lo..lo + 8] == Reverse(temp[lo..lo + 8])
  {
    var a, r := v[lo..lo + 8], Reverse(temp[lo..lo + 8]);
    forall i | 0 <= i < 8
      ensures a[i] == r[i]
    {
      assert a[i] == v[lo + i];
    }
  }

  lemma MirrorInWord(j: nat, k: nat)
    requires 8 * k <= j < 8 * k + 8
    ensures 8 * (j / 8) + 7 - j % 8 == 16 * k + 7 - j
  {
  }

  /** Swapping the bytes on the way in makes both byte orders feed the same words to the
      compression function. */
  lemma LoadsAgree(big: bool, temp: seq<byte>)
    requires |temp| == 64
    ensures LoadBlock(big, temp) == ToBlock(View(big, temp))
  {
    forall k | 0 <= k < 8
      ensures LoadBlock(big, temp)[k] == ToBlock(View(big, temp))[k]
    {
      ViewOfWord(big, temp, k);
    }
  }

  /** Swapping by the switch and then by the machine: nothing if they match, and a mirror image of
      every word if they do not. */
  lemma ViewTwice(big: bool, machine: bool, temp: seq<byte>)
    requires |temp| == 64
    ensures View(machine, temp) == View(big != machine, View(big, temp))
  {
    Slots(big);
    Slots(machine);
    Slots(big != machine);
    hide Xor;
    forall j | 0 <= j < 64
      ensures Slot(big, Slot(big != machine, j)) == Slot(machine, j)
    {
      SwapIsMirror(j);
      SwapIsMirror(Mirror(j));
      MirrorTwice(j);
    }
    hide Slot;
  }

  lemma SeenBlock(mismatch: bool, p: seq<byte>, k: nat)
    requires |p| % 64 == 0 && 64 * k + 64 <= |p|
    ensures var b := p[64 * k..64 * k + 64];
      Seen(mismatch, p)[64 * k..64 * k + 64]
      == if 64 * k + 64 < |p| then View(mismatch, b) else View(mismatch, b)[..56] + b[56..]
  {
    hide View, Seen, Mirror;
    var b := p[64 * k..64 * k + 64];
    forall j | 0 <= j < 64
      ensures Seen(mismatch, p)[64 * k + j] == if 64 * k + j + 8 < |p| then View(mismatch, b)[j] else b[j]
    {
      SeenAt(mismatch, p, k, j);
    }
    var c, v := Seen(mismatch, p)[64 * k..64 * k + 64], View(mismatch, b);
    if 64 * k + 64 < |p| {
      WordsInside(|p|, k);
      assert forall j :: 0 <= j < 64 ==> c[j] == v[j];
    } else {
      assert forall j :: 0 <= j < 64 ==> c[j] == (v[..56] + b[56..])[j];
    }
  }

  lemma SeenAt(mismatch: bool, p: seq<byte>, k: nat, j: nat)
    requires 64 * k + 64 <= |p| && j < 64
    ensures Seen(mismatch, p)[64 * k + j]
      == if 64 * k + j + 8 < |p| then View(mismatch, p[64 * k..64 * k + 64])[j] else p[64 * k + j]
  {
    hide View, Mirror, Seen;
    SeenIndex(mismatch, p, 64 * k + j);
    MirrorShift(k, j);
    ViewAt(mismatch, p[64 * k..64 * k + 64], j);
  }

  lemma SeenIndex(mismatch: bool, p: seq<byte>, i: nat)
    requires i < |p|
    ensures Seen(mismatch, p)[i] == if mismatch && i + 8 < |p| then p[Mirror(i)] else p[i]
  {
  }

  lemma WordsInside(n: nat, k: nat)
    requires n % 64 == 0 && 64 * k + 64 < n
    ensures 64 * k + 128 <= n
  {
  }

  lemma MirrorShift(k: nat, j: nat)
    requires j < 64
    ensures Mirror(64 * k + j) == 64 * k + Mirror(j) < 64 * k + 64
  {
    WordOf(8 * k, j);
  }

  lemma WordOf(a: nat, j: nat)
    ensures (8 * a + j) / 8 == a + j / 8 && (8 * a + j) % 8 == j % 8
  {
  }

  lemma ViewAt(mismatch: bool, b: seq<byte>, j: nat)
    requires |b| == 64 && j < 64
    ensures Mirror(j) < 64 && View(mismatch, b)[j] == if mismatch then b[Mirror(j)] else b[j]
  {
    hide Xor;
    Slots(mismatch);
    SwapIsMirror(j);
  }

  /** A word stored natively over the last eight bytes is seen with its low byte first. */
  lemma StoreIsSeen(big: bool, temp: seq<byte>, w: word)
    requires |temp| == 64
    requires temp[56..] == Store(big, w)
    ensures View(big, temp)[56..] == ToBytes(w, 8)
  {
    ViewOfWord(big, temp, 7);
    assert temp[56..] == temp[8 * 7..8 * 7 + 8];
    assert View(big, temp)[56..] == View(big, temp)[8 * 7..8 * 7 + 8];
    hide ToBytes;
    assert Reverse(Reverse(ToBytes(w, 8))) == ToBytes(w, 8);
  }

  // ----- the algorithm

  method TigerCompress(build: Build, t: Table, str: Block, state: array<word>)
    requires state.Length == 3 && build.passes >= 3
    modifies state
    ensures ToAbc(state[..]) == Compress(t, ToAbc(old(state[..])), str, build.passes)
  {
    if build.alpha {
      CompressUnrolled(Official, t, str, state, build.passes);
    } else {
      CompressLoop(Halves, t, str, state, build.passes);
    }
  }

  /** The bytes after the last whole block of the message, padded. */
  function Tail(msg: seq<byte>): (r: seq<byte>)
    ensures |r| == if |msg| % 64 < 56 then 64 else 128
  {
    TailLength(|msg|);
    Pad(msg)[64 * (|msg| / 64)..]
  }

  lemma TailLength(n: nat)
    ensures 64 * BlockCount(n) - 64 * (n / 64) == if n % 64 < 56 then 64 else 128
  {
  }

  lemma TailBytes(msg: seq<byte>, i: nat)
    requires i == |msg| % 64
    ensures Tail(msg)[..i] == msg[|msg| - i..]
    ensures Tail(msg)[i] == 1
    ensures forall k :: i < k < |Tail(msg)| - 8 ==> Tail(msg)[k] == 0
    ensures Tail(msg)[|Tail(msg)| - 8..] == ToBytes(8 * |msg| % MODULUS, 8)
  {
    TailLength(|msg|);
    var field := ToBytes(8 * |msg| % MODULUS, 8);
    hide ToBytes, BlockCount;
    var zeros := Zeros(64 * BlockCount(|msg|) - |msg| - 9);
    assert Tail(msg) == msg[|msg| - i..] + [1] + zeros + field;
  }

  /** Stores the byte that the source writes at temp[j], or at temp[j^7]. */
  method Put(big: bool, temp: array<byte>, j: nat, b: byte)
    requires temp.Length == 64 && j < 64
    modifies temp
    ensures View(big, temp[..]) == old(View(big, temp[..]))[j := b]
  {
    Slots(big);
    hide Slot;
    temp[Slot(big, j)] := b;
  }

  /** Bytes lo to hi of a message, each stored where Put stores it. */
  method PutAll(big: bool, temp: array<byte>, src: seq<byte>, lo: nat, hi: nat)
    requires temp.Length == 64 && lo <= hi <= 64 && |src| >= hi
    modifies temp
    ensures forall k :: 0 <= k < lo ==> View(big, temp[..])[k] == old(View(big, temp[..]))[k]
    ensures forall k :: lo <= k < hi ==> View(big, temp[..])[k] == src[k]
  {
    hide View;
    for j := lo to hi
      invariant forall k :: 0 <= k < lo ==> View(big, temp[..])[k] == old(View(big, temp[..]))[k]
      invariant forall k :: lo <= k < j ==> View(big, temp[..])[k] == src[k]
    {
      Put(big, temp, j, src[j]);
    }
  }

  /** Zeros from the start of a word to the end of one. The source does not swap these bytes on a
      big-endian machine, and need not: the slots of whole words are those words. */
  method ZeroWords(big: bool, temp: array<byte>, lo: nat, hi: nat)
    requires temp.Length == 64 && lo <= hi <= 64 && lo % 8 == 0 && hi % 8 == 0
    modifies temp
    ensures forall k :: 0 <= k < lo ==> View(big, temp[..])[k] == old(View(big, temp[..]))[k]
    ensures forall k :: lo <= k < hi ==> View(big, temp[..])[k] == 0
  {
    hide Slot;
    for j := lo to hi
      invariant forall k :: 0 <= k < lo ==> temp[k] == old(temp[k])
      invariant forall k :: lo <= k < j ==> temp[k] == 0
    {
      temp[j] := 0;
    }
    Slots(big);
    WholeWordSlots(big, lo);
    WholeWordSlots(big, hi);
  }

  lemma WholeWordSlots(big: bool, lo: nat)
    requires lo % 8 == 0
    ensures forall j :: 0 <= j < 64 ==> (Slot(big, j) < lo <==> j < lo)
  {
    hide Xor;
    forall j: nat
      ensures Xor(j, 7) < lo <==> j < lo
    {
      SwapIsMirror(j);
      SameWord(j, lo);
    }
  }

  lemma SameWord(j: nat, lo: nat)
    requires lo % 8 == 0
    ensures 8 * (j / 8) + 7 - j % 8 < lo <==> j < lo
  {
    var w := lo / 8;
    assert lo == 8 * w;
    assert j < lo <==> j / 8 < w;
  }

  /** Hashes one whole block, copying it through temp if the switch says so. */
  method CompressBlock(build: Build, t: Table, str: seq<byte>, temp: array<byte>, res: array<word>)
    requires temp.Length == 64 && res.Length == 3 && build.passes >= 3 && |str| == 64
    modifies temp, res
    ensures ToAbc(res[..]) == Compress(t, ToAbc(old(res[..])), ToBlock(View(build.Mismatch(), str)), build.passes)
    ensures !build.Mismatch() ==> ToAbc(res[..]) == Compress(t, ToAbc(old(res[..])), ToBlock(str), build.passes)
  {
    hide View, Compress;
    ViewFalse(str);
    if build.bigEndian {
      PutAll(true, temp, str, 0, 64);
      assert View(true, temp[..]) == str;
      ViewTwice(true, build.bigMachine, temp[..]);
      LoadsAgree(build.bigMachine, temp[..]);
      TigerCompress(build, t, LoadBlock(build.bigMachine, temp[..]), res);
    } else {
      LoadsAgree(build.bigMachine, str);
      TigerCompress(build, t, LoadBlock(build.bigMachine, str), res);
    }
  }

  lemma ViewFalse(b: seq<byte>)
    requires |b| == 64
    ensures View(false, b) == b
  {
  }

  /** Stores the last word of the block in the machine's own byte order. */
  method StoreWord(big: bool, temp: array<byte>, w: word)
    requires temp.Length == 64
    modifies temp
    ensures View(big, temp[..]) == old(View(big, temp[..]))[..56] + ToBytes(w, 8)
  {
    hide View, Store, ToBytes;
    var bytes := Store(big, w);
    for k := 0 to 8
      invariant temp[..56] == old(temp[..56])
      invariant temp[56..56 + k] == bytes[..k]
    {
      temp[56 + k] := bytes[k];
    }
    StoreIsSeen(big, temp[..], w);
    ViewPrefix(big, temp[..], old(temp[..]));
    var v := View(big, temp[..]);
    assert v == v[..56] + v[56..];
  }

  lemma ViewPrefix(big: bool, p: seq<byte>, q: seq<byte>)
    requires |p| == |q| == 64 && p[..56] == q[..56]
    ensures View(big, p)[..56] == View(big, q)[..56]
  {
    Slots(big);
    hide Slot;
    forall j | 0 <= j < 56
      ensures View(big, p)[j] == View(big, q)[j]
    {
      assert Slot(big, j) < 56;
      assert p[..56][Slot(big, j)] == q[..56][Slot(big, j)];
    }
  }

  /** The rest of the message, the byte 0x01, and zeros up to a whole word. */
  method PutTail(big: bool, str: seq<byte>, i: nat, temp: array<byte>) returns (j: nat)
    requires temp.Length == 64 && i == |str| % 64
    modifies temp
    ensures i < j <= 64 && j % 8 == 0 && (j <= 56 <==> i < 56)
    ensures forall k :: 0 <= k < j && k < |Tail(str)| - 8 ==> View(big, temp[..])[k] == Tail(str)[k]
  {
    hide View, Pad, ToBytes, Slot, BlockCount;
    ghost var tail := Tail(str);
    TailBytes(str, i);
    PutAll(big, temp, str[|str| - i..], 0, i);
    Put(big, temp, i, 1);
    j := i + 1;
    while j % 8 != 0
      invariant i < j <= 64 && (i < 56 ==> j <= 56)
      invariant forall k :: 0 <= k < j && k < |tail| - 8 ==> View(big, temp[..])[k] == tail[k]
      decreases 64 - j
    {
      Put(big, temp, j, 0);
      j := j + 1;
    }
  }

  /** The first of two last blocks, when the length does not fit: zeros up to its end. */
  method FinishFirst(build: Build, t: Table, str: seq<byte>, j: nat, temp: array<byte>, res: array<word>)
    requires temp.Length == 64 && res.Length == 3 && build.passes >= 3
    requires |str| % 64 >= 56 && |str| % 64 < j <= 64 && j % 8 == 0
    requires forall k :: 0 <= k < j ==> View(build.bigEndian, temp[..])[k] == Tail(str)[k]
    requires ToAbc(res[..]) == Chain(t, Seen(build.Mismatch(), Pad(str)), |str| / 64, build.passes)
    modifies temp, res
    ensures 64 * (|str| / 64) + 128 == |Pad(str)|
    ensures ToAbc(res[..]) == Chain(t, Seen(build.Mismatch(), Pad(str)), |str| / 64 + 1, build.passes)
  {
    hide View, Compress, Pad, Seen, ToBytes, Slot, LoadBlock, Chain, ToBlock, BlockCount;
    ghost var p, blocks, before := Pad(str), |str| / 64, res[..];
    TailLength(|str|);
    TailBytes(str, |str| % 64);
    ZeroWords(build.bigEndian, temp, j, 64);
    assert View(build.bigEndian, temp[..]) == Tail(str)[..64] == p[64 * blocks..64 * blocks + 64];
    ViewTwice(build.bigEndian, build.bigMachine, temp[..]);
    SeenBlock(build.Mismatch(), p, blocks);
    LoadsAgree(build.bigMachine, temp[..]);
    assert res[..] == before;
    ChainStep(t, Seen(build.Mismatch(), p), blocks, build.passes);
    TigerCompress(build, t, LoadBlock(build.bigMachine, temp[..]), res);
  }

  /** The end of `tiger`: one padded block, or two when the length does not fit in the first. */
  method FinishTail(build: Build, t: Table, str: seq<byte>, i: nat, temp: array<byte>, res: array<word>)
    requires temp.Length == 64 && res.Length == 3 && build.passes >= 3 && i == |str| % 64
    requires ToAbc(res[..]) == Chain(t, Seen(build.Mismatch(), Pad(str)), |str| / 64, build.passes)
    modifies temp, res
    ensures ToAbc(res[..]) == SeenTiger(build.Mismatch(), t, str, build.passes)
  {
    hide View, Compress, Pad, Seen, ToBytes, Slot, LoadBlock, Chain, ToBlock, BlockCount, SeenTiger;
    var big := build.bigEndian;
    ghost var p, tail, blocks := Pad(str), Tail(str), |str| / 64;
    ghost var before := res[..];
    TailLength(|str|);
    TailBytes(str, i);
    var j := PutTail(big, str, i, temp);
    assert res[..] == before;
    if j > 56 {
      FinishFirst(build, t, str, j, temp, res);
      tail, blocks, before := tail[64..], blocks + 1, res[..];
      j := 0;
    }
    assert ToAbc(before) == Chain(t, Seen(build.Mismatch(), p), blocks, build.passes);
    ZeroWords(big, temp, j, 56);
    assert View(big, temp[..])[..56] == tail[..56];
    ViewTwice(big, build.bigMachine, temp[..]);
    ViewPrefix(build.Mismatch(), View(big, temp[..]), tail);
    StoreWord(build.bigMachine, temp, 8 * |str| % MODULUS);  // length << 3
    assert tail == p[64 * blocks..64 * blocks + 64];
    SeenBlock(build.Mismatch(), p, blocks);
    LoadsAgree(build.bigMachine, temp[..]);
    assert res[..] == before;
    LastStep(build.Mismatch(), t, str, blocks, build.passes);
    TigerCompress(build, t, LoadBlock(build.bigMachine, temp[..]), res);
  }

  lemma LastStep(mismatch: bool, t: Table, msg: seq<byte>, k: nat, passes: nat)
    requires 64 * k + 64 == |Pad(msg)|
    ensures SeenTiger(mismatch, t, msg, passes)
      == var p := Seen(mismatch, Pad(msg));
         Compress(t, Chain(t, p, k, passes), ToBlock(p[64 * k..64 * k + 64]), passes)
  {
    hide Pad, Compress, Seen, ToBlock, BlockCount;
  }

  lemma ChainStep(t: Table, p: seq<byte>, k: nat, passes: nat)
    requires 64 * k + 64 <= |p|
    ensures Chain(t, p, k + 1, passes)
      == Compress(t, Chain(t, p, k, passes), ToBlock(p[64 * k..64 * k + 64]), passes)
  {
  }

  /** `tiger`. */
  method TigerInto(build: Build, t: Table, str: seq<byte>, res: array<word>)
    requires res.Length == 3 && build.passes >= 3
    modifies res
    ensures ToAbc(res[..]) == SeenTiger(build.Mismatch(), t, str, build.passes)
    ensures !build.Mismatch() ==> ToAbc(res[..]) == Tiger(t, str, build.passes)
  {
    hide View, Compress, Pad, Chain, BlockCount, ToBlock, Seen, SeenTiger, Tiger;
    var temp := new byte[64];
    res[0], res[1], res[2] := 0x0123_4567_89AB_CDEF, 0xFEDC_BA98_7654_3210, 0xF096_A5B4_C3B2_E187;
    ghost var seen := Seen(build.Mismatch(), Pad(str));
    ChainStart(t, seen, build.passes);

    var i, p := |str|, 0;
    ghost var blocks: nat := 0;
    while i >= 64
      invariant 0 <= i && p + i == |str| && p == 64 * blocks
      invariant ToAbc(res[..]) == Chain(t, seen, blocks, build.passes)
    {
      ChainStep(t, seen, blocks, build.passes);
      assert str[p..p + 64] == Pad(str)[..|str|][p..p + 64] == Pad(str)[p..p + 64];
      SeenBlock(build.Mismatch(), Pad(str), blocks);
      CompressBlock(build, t, str[p..p + 64], temp, res);
      p, i, blocks := p + 64, i - 64, blocks + 1;
    }
    assert blocks == |str| / 64;
    FinishTail(build, t, str, i, temp, res);
    SeenIsTiger(t, str, build.passes);
  }

  lemma SeenIsTiger(t: Table, msg: seq<byte>, passes: nat)
    ensures SeenTiger(false, t, msg, passes) == Tiger(t, msg, passes)
  {
    hide Pad, Chain, BlockCount;
  }

  lemma ChainStart(t: Table, p: seq<byte>, passes: nat)
    ensures Chain(t, p, 0, passes) == Initial()
  {
  }

  // ----- collisions

  /** One application of the compression function while hashing msg. */
  function Step(t: Table, msg: seq<byte>, k: nat, passes: nat): (Abc, Block)
    requires k < BlockCount(|msg|)
  {
    (Chain(t, Pad(msg), k, passes), BlockOf(Pad(msg), k))
  }

  /** While hashing m and n the compression function maps two different inputs to one output. */
  ghost predicate CompressionCollides(t: Table, m: seq<byte>, n: seq<byte>, passes: nat) {
    exists i: nat, j: nat | i < BlockCount(|m|) && j < BlockCount(|n|) ::
      Collision(t, Step(t, m, i, passes), Step(t, n, j, passes), passes)
  }

  ghost predicate Collision(t: Table, p: (Abc, Block), q: (Abc, Block), passes: nat) {
    p != q && Compress(t, p.0, p.1, passes) == Compress(t, q.0, q.1, passes)
  }

  /** Two messages with the same hash exhibit a collision of the compression function: this is what
      the length field is for. It needs that the length fields of different lengths differ. */
  lemma CollisionReduces(t: Table, m: seq<byte>, n: seq<byte>, passes: nat)
    requires m != n && Tiger(t, m, passes) == Tiger(t, n, passes)
    requires |m| == |n| || 8 * |m| % MODULUS != 8 * |n| % MODULUS
    ensures CompressionCollides(t, m, n, passes)
  {
    hide Pad, Compress, BlockCount, ToBlock;
    if |m| == |n| {
      SameLengthCollision(t, m, n, BlockCount(|m|), passes);
    } else {
      LastBlocksDiffer(t, m, n, passes);
      var i, j := BlockCount(|m|) - 1, BlockCount(|n|) - 1;
      assert Collision(t, Step(t, m, i, passes), Step(t, n, j, passes), passes);
    }
  }

  lemma LastBlocksDiffer(t: Table, m: seq<byte>, n: seq<byte>, passes: nat)
    requires 8 * |m| % MODULUS != 8 * |n| % MODULUS
    ensures BlockOf(Pad(m), BlockCount(|m|) - 1) != BlockOf(Pad(n), BlockCount(|n|) - 1)
  {
    hide Pad, BlockCount, ToBlock, FromBytes, BlockOf;
    LengthField(m);
    LengthField(n);
    LastBlock(m);
    LastBlock(n);
    var p, q := Pad(m), Pad(n);
    var b, c := p[|p| - 64..], q[|q| - 64..];
    assert b[56..] == p[|p| - 8..] && c[56..] == q[|q| - 8..];
    if ToBlock(b) == ToBlock(c) {
      BlockInjective(b, c);
    }
  }

  lemma LastBlock(m: seq<byte>)
    ensures |Pad(m)| >= 64 && BlockOf(Pad(m), BlockCount(|m|) - 1) == ToBlock(Pad(m)[|Pad(m)| - 64..])
  {
    hide Pad, ToBlock;
    var p, k := Pad(m), BlockCount(|m|) - 1;
    assert 64 * k + 64 == |p|;
    assert p[64 * k..64 * k + 64] == p[|p| - 64..];
  }

  lemma BlockInjective(b: seq<byte>, c: seq<byte>)
    requires |b| == |c| == 64 && ToBlock(b) == ToBlock(c)
    ensures b == c
  {
    forall k | 0 <= k < 8
      ensures b[8 * k..8 * k + 8] == c[8 * k..8 * k + 8]
    {
      assert ToBlock(b)[k] == ToBlock(c)[k];
      ToFromBytes(b[8 * k..8 * k + 8]);
      ToFromBytes(c[8 * k..8 * k + 8]);
    }
    EightWords(b, c);
  }

  lemma EightWords(b: seq<byte>, c: seq<byte>)
    requires |b| == |c| == 64
    requires forall k :: 0 <= k < 8 ==> b[8 * k..8 * k + 8] == c[8 * k..8 * k + 8]
    ensures b == c
  {
    forall i | 0 <= i < 64
      ensures b[i] == c[i]
    {
      var k := i / 8;
      assert b[8 * k..8 * k + 8][i % 8] == c[8 * k..8 * k + 8][i % 8];
    }
  }

  /** If the last blocks from k on agree, the last place before them where the two computations
      differ is a collision. */
  lemma {:induction false} SameLengthCollision(t: Table, m: seq<byte>, n: seq<byte>, k: nat, passes: nat)
    requires m != n && |m| == |n| && k <= BlockCount(|m|)
    requires Chain(t, Pad(m), k, passes) == Chain(t, Pad(n), k, passes)
    requires Pad(m)[64 * k..] == Pad(n)[64 * k..]
    ensures CompressionCollides(t, m, n, passes)
  {
    hide Pad, Compress, BlockCount, ToBlock;
    if k > 0 {
      var p, q := Step(t, m, k - 1, passes), Step(t, n, k - 1, passes);
      if p != q {
        assert Collision(t, p, q, passes);
      } else {
        ExtendSuffix(Pad(m), Pad(n), k - 1);
        SameLengthCollision(t, m, n, k - 1, passes);
      }
    }
  }

  lemma ExtendSuffix(p: seq<byte>, q: seq<byte>, k: nat)
    requires |p| == |q| >= 64 * k + 64
    requires BlockOf(p, k) == BlockOf(q, k) && p[64 * k + 64..] == q[64 * k + 64..]
    ensures p[64 * k..] == q[64 * k..]
  {
    BlockInjective(p[64 * k..64 * k + 64], q[64 * k..64 * k + 64]);
    assert p[64 * k..] == p[64 * k..64 * k + 64] + p[64 * k + 64..];
    assert q[64 * k..] == q[64 * k..64 * k + 64] + q[64 * k + 64..];
  }
}
