/**
 MurmurHash3_x86_32. The hash is a chain of injective steps on its 32-bit state, so two keys of one
 length that differ in a single block, or only in the tail, never collide; nor do two seeds on one key.
 A machine word is the integer it denotes, and each C operator is written out on such integers.
 */
module MurmurHash3 {
  import opened Arithmetic
  import opened Basics

  const MODULUS := 0x1_0000_0000

  type word = x: int | 0 <= x < 0x1_0000_0000
  type byte = x: int | 0 <= x < 0x100

  function Pow2(n: nat): (p: nat)
    ensures p > 0
  {
    PowPositive(2, n);
    Pow(2, n)
  }

  // ----- C operators -----

  function Xor(a: nat, b: nat): nat
    decreases a + b
  {
    if a == 0 && b == 0 then 0 else 2 * Xor(a / 2, b / 2) + (a + b) % 2
  }

  function Or(a: nat, b: nat): nat
    decreases a + b
  {
    if a == 0 && b == 0 then 0 else 2 * Or(a / 2, b / 2) + if a % 2 + b % 2 > 0 then 1 else 0
  }

  function XorWord(a: word, b: word): word {
    Pow2Of32();
    XorBound(a, b, 32);
    Xor(a, b)
  }

  function Times(x: word, c: word): word { (x * c) % MODULUS }

  function Plus(x: word, c: word): word { (x + c) % MODULUS }

  function ShiftRight(x: word, r: nat): (y: word) {
    DivShrinks(x, Pow2(r));
    x / Pow2(r)
  }

  function ShiftLeft(x: word, r: nat): word { (x * Pow2(r)) % MODULUS }

  function Rotl32(x: word, r: nat): word
    requires 0 < r < 32
  {
    RotlIsSum(x, r);
    Or(ShiftLeft(x, r), ShiftRight(x, 32 - r))
  }

  // ----- the hash as a function -----

  function GetBlock32(key: seq<byte>, i: nat): word
    requires 4 * i + 4 <= |key|
  {
    (key[4 * i] as int) + 0x100 * (key[4 * i + 1] as int) + 0x1_0000 * (key[4 * i + 2] as int) +
    0x100_0000 * (key[4 * i + 3] as int)
  }

  /** Scrambling of one block before it meets the state. */
  function MixBlock(k: word): word { Times(Rotl32(Times(k, 0xcc9e2d51), 15), 0x1b873593) }

  /** One round of the body. */
  function Round(h: word, k: word): word {
    Plus(Times(Rotl32(XorWord(h, MixBlock(k)), 13), 5), 0xe6546b64)
  }

  function XorShift(h: word, r: nat): word { XorWord(h, ShiftRight(h, r)) }

  function Fmix32(h: word): word {
    XorShift(Times(XorShift(Times(XorShift(h, 16), 0x85ebca6b), 13), 0xc2b2ae35), 16)
  }

  /** The state after the first `n` blocks. */
  function Body(key: seq<byte>, seed: word, n: nat): word
    requires 4 * n <= |key|
  {
    if n == 0 then seed else Round(Body(key, seed, n - 1), GetBlock32(key, n - 1))
  }

  function ByteAt(tail: seq<byte>, i: nat): int { if i < |tail| then tail[i] else 0 }

  /** The 0 to 3 bytes after the last whole block, as a number. */
  function TailWord(tail: seq<byte>): word
    requires |tail| < 4
  {
    ByteAt(tail, 0) + 0x100 * ByteAt(tail, 1) + 0x1_0000 * ByteAt(tail, 2)
  }

  function Tail(h: word, tail: seq<byte>): word
    requires |tail| < 4
  {
    if tail == [] then h else XorWord(h, MixBlock(TailWord(tail)))
  }

  function TailOf(key: seq<byte>): (tail: seq<byte>)
    ensures |tail| == |key| % 4
  {
    key[|key| / 4 * 4..]
  }

  function Hash(key: seq<byte>, seed: word): word {
    Fmix32(XorWord(Tail(Body(key, seed, |key| / 4), TailOf(key)), |key| % MODULUS))
  }

  // ----- the code -----

  method ComputeFmix32(h: word) returns (r: word)
    ensures r == Fmix32(h)
  {
    r := h;
    r := XorWord(r, ShiftRight(r, 16));
    r := Times(r, 0x85ebca6b);
    r := XorWord(r, ShiftRight(r, 13));
    r := Times(r, 0xc2b2ae35);
    r := XorWord(r, ShiftRight(r, 16));
  }

  /** The block loop, the tail switch with its fall-through, and the finalization. */
  method MurmurHash3_x86_32(key: seq<byte>, seed: word) returns (out: word)
    ensures out == Hash(key, seed)
  {
    var nblocks := |key| / 4;
    var h1 := seed;
    for i := 0 to nblocks
      invariant h1 == Body(key, seed, i)
    {
      var k1 := GetBlock32(key, i);
      k1 := Times(k1, 0xcc9e2d51);
      k1 := Rotl32(k1, 15);
      k1 := Times(k1, 0x1b873593);
      h1 := XorWord(h1, k1);
      h1 := Rotl32(h1, 13);
      h1 := Plus(Times(h1, 5), 0xe6546b64);
    }
    var tail := TailOf(key);
    var k1: word := 0;
    if |tail| >= 1 {
      TailSwitch(tail);
      if |tail| >= 3 {
        k1 := XorWord(k1, ShiftLeft(tail[2], 16));
      }
      if |tail| >= 2 {
        k1 := XorWord(k1, ShiftLeft(tail[1], 8));
      }
      k1 := XorWord(k1, tail[0]);
      assert k1 == TailWord(tail);
      k1 := Times(k1, 0xcc9e2d51);
      k1 := Rotl32(k1, 15);
      k1 := Times(k1, 0x1b873593);
      h1 := XorWord(h1, k1);
    }
    h1 := XorWord(h1, |key| % MODULUS);
    out := ComputeFmix32(h1);
  }

  /** The exclusive ors of the tail switch assemble the little-endian number, byte by byte. */
  lemma ThirdByte(b2: byte)
    ensures XorWord(0, ShiftLeft(b2, 16)) == (b2 as int) * 0x1_0000
  {
    ShiftByte(b2, 16);
    ZeroXor((b2 as int) * 0x1_0000);
  }

  lemma SecondByte(b2: byte, b1: byte)
    ensures XorWord((b2 as int) * 0x1_0000, ShiftLeft(b1, 8)) == (b2 as int) * 0x1_0000 + (b1 as int) * 0x100
  {
    ShiftByte(b1, 8);
    XorBelow((b2 as int), (b1 as int) * 0x100, 16, 0x1_0000);
  }

  lemma TailSwitch(tail: seq<byte>)
    requires 1 <= |tail| < 4
    ensures var k3 := if |tail| >= 3 then XorWord(0, ShiftLeft(tail[2], 16)) else 0;
      var k2 := if |tail| >= 2 then XorWord(k3, ShiftLeft(tail[1], 8)) else k3;
      XorWord(k2, tail[0]) == TailWord(tail)
  {
    var b1, b2 := ByteAt(tail, 1), ByteAt(tail, 2);
    ThirdByte(b2);
    SecondByte(b2, b1);
    FirstByte(0x100 * b2 + b1, tail[0]);
  }

  lemma FirstByte(high: int, b0: byte)
    requires 0 <= high < 0x1_0000
    ensures XorWord(high * 0x100, b0) == high * 0x100 + (b0 as int)
  {
    XorBelow(high, b0, 8, 0x100);
  }

  lemma ShiftByte(b: byte, r: nat)
    requires r == 8 || r == 16
    ensures ShiftLeft(b, r) == (b as int) * if r == 8 then 0x100 else 0x1_0000
  {
    Pow2Values();
  }

  lemma XorBelow(high: nat, low: nat, r: nat, p: nat)
    requires (r == 8 && p == 0x100) || (r == 16 && p == 0x1_0000)
    requires low < p
    ensures Xor(high * p, low) == high * p + low
  {
    Pow2Values();
    Disjoint(high, low, r);
  }

  lemma {:induction false} ZeroXor(a: nat)
    ensures Xor(0, a) == a
  {
    if a != 0 {
      ZeroXor(a / 2);
    }
  }

  // ----- arithmetic of the operators -----

  lemma Pow2Values()
    ensures Pow2(8) == 0x100 && Pow2(16) == 0x1_0000
  {
  }

  lemma Pow2Of32()
    ensures Pow2(32) == MODULUS
  {
    PowAdd(2, 16, 16);
    Pow2Values();
  }

  lemma {:induction false} XorBound(a: nat, b: nat, n: nat)
    requires a < Pow2(n) && b < Pow2(n)
    ensures Xor(a, b) < Pow2(n)
  {
    if n > 0 {
      XorBound(a / 2, b / 2, n - 1);
    }
  }

  lemma HalveSum(x: nat, bit: nat)
    requires bit < 2
    ensures (2 * x + bit) / 2 == x && (2 * x + bit) % 2 == bit
  {
  }

  lemma SameHalves(x: nat, y: nat)
    requires x / 2 == y / 2 && x % 2 == y % 2
    ensures x == y
  {
  }

  lemma ParityOfSum(a: nat, b: nat)
    ensures (a + b) % 2 == (a % 2 + b % 2) % 2
  {
  }

  /** Halving and parity of an exclusive or. */
  lemma XorHalf(a: nat, b: nat)
    ensures Xor(a, b) / 2 == Xor(a / 2, b / 2)
  {
    HalveSum(Xor(a / 2, b / 2), (a + b) % 2);
  }

  lemma XorBit(a: nat, b: nat)
    ensures Xor(a, b) % 2 == (a % 2 + b % 2) % 2
  {
    HalveSum(Xor(a / 2, b / 2), (a + b) % 2);
    ParityOfSum(a, b);
  }

  /** Equal exclusive ors can be rearranged. */
  lemma {:induction false} XorSwap(a: nat, b: nat, c: nat, d: nat)
    requires Xor(a, c) == Xor(b, d)
    ensures Xor(a, b) == Xor(c, d)
    decreases a + b + c + d
  {
    if a + b + c + d > 0 {
      HalvesShrink(a, b, c, d);
      HalvesMeet(a, b, c, d);
      XorSwap(a / 2, b / 2, c / 2, d / 2);
      BitsMeet(a, b, c, d);
      XorFromParts(a, b, c, d);
    }
  }

  lemma HalvesShrink(a: nat, b: nat, c: nat, d: nat)
    requires a + b + c + d > 0
    ensures a / 2 + b / 2 + c / 2 + d / 2 < a + b + c + d
  {
  }

  lemma HalvesMeet(a: nat, b: nat, c: nat, d: nat)
    requires Xor(a, c) == Xor(b, d)
    ensures Xor(a / 2, c / 2) == Xor(b / 2, d / 2)
  {
    XorHalf(a, c);
    XorHalf(b, d);
  }

  lemma BitsMeet(a: nat, b: nat, c: nat, d: nat)
    requires Xor(a, c) == Xor(b, d)
    ensures (a % 2 + b % 2) % 2 == (c % 2 + d % 2) % 2
  {
    XorBit(a, c);
    XorBit(b, d);
    ParitySwap(a % 2, b % 2, c % 2, d % 2);
  }

  lemma XorFromParts(a: nat, b: nat, c: nat, d: nat)
    requires Xor(a / 2, b / 2) == Xor(c / 2, d / 2) && (a % 2 + b % 2) % 2 == (c % 2 + d % 2) % 2
    ensures Xor(a, b) == Xor(c, d)
  {
    XorHalf(a, b);
    XorHalf(c, d);
    XorBit(a, b);
    XorBit(c, d);
    SameHalves(Xor(a, b), Xor(c, d));
  }

  lemma ParitySwap(a: nat, b: nat, c: nat, d: nat)
    requires a < 2 && b < 2 && c < 2 && d < 2 && (a + c) % 2 == (b + d) % 2
    ensures (a + b) % 2 == (c + d) % 2
  {
  }

  lemma {:induction false} XorIsZero(a: nat, b: nat)
    requires Xor(a, b) == 0
    ensures a == b
  {
    if a != 0 || b != 0 {
      XorHalf(a, b);
      XorBit(a, b);
      XorIsZero(a / 2, b / 2);
      SameHalves(a, b);
    }
  }

  lemma {:induction false} XorSelf(a: nat)
    ensures Xor(a, a) == 0
  {
    if a != 0 {
      XorSelf(a / 2);
    }
  }

  lemma {:induction false} XorZero(a: nat)
    ensures Xor(a, 0) == a
  {
    if a != 0 {
      XorZero(a / 2);
    }
  }

  /** On bits that do not overlap, exclusive or and or are both addition. */
  lemma {:induction false} Disjoint(high: nat, low: nat, r: nat)
    requires low < Pow2(r)
    ensures high * Pow2(r) >= 0
    ensures Xor(high * Pow2(r), low) == Or(high * Pow2(r), low) == high * Pow2(r) + low
    decreases r
  {
    MulNonNegative(high, Pow2(r));
    if r == 0 {
      XorZero(high);
      OrZero(high);
    } else {
      Disjoint(high, low / 2, r - 1);
      var half := high * Pow2(r - 1);
      assert high * Pow2(r) == 2 * half by { MulAssoc(high, 2, Pow2(r - 1)); MulAssoc(2, high, Pow2(r - 1)); }
      AddEven(half, low);
    }
  }

  /** One bit position of Disjoint. */
  lemma AddEven(half: nat, low: nat)
    requires Xor(half, low / 2) == Or(half, low / 2) == half + low / 2
    ensures Xor(2 * half, low) == Or(2 * half, low) == 2 * half + low
  {
    HalveSum(half, 0);
    EvenParity(half, low);
    XorUnfold(2 * half, low);
    OrUnfold(2 * half, low);
  }

  lemma XorUnfold(a: nat, b: nat)
    ensures Xor(a, b) == 2 * Xor(a / 2, b / 2) + (a + b) % 2
  {
  }

  lemma OrUnfold(a: nat, b: nat)
    ensures Or(a, b) == 2 * Or(a / 2, b / 2) + if a % 2 + b % 2 > 0 then 1 else 0
  {
  }

  lemma EvenParity(half: nat, low: nat)
    ensures (2 * half + low) % 2 == low % 2 && 2 * half % 2 == 0
  {
  }

  lemma {:induction false} OrZero(a: nat)
    ensures Or(a, 0) == a
  {
    if a != 0 {
      OrZero(a / 2);
    }
  }

  /** `a` halved `r` times. */
  function Shifted(a: nat, r: nat): (s: nat)
    ensures s <= a
    decreases r
  {
    if r == 0 then a else Shifted(a / 2, r - 1)
  }

  lemma {:induction false} ShiftedIs(a: nat, r: nat)
    ensures Shifted(a, r) == a / Pow2(r)
    decreases r
  {
    if r > 0 {
      ShiftedIs(a / 2, r - 1);
      DivTwice(a, 2, Pow2(r - 1));
    }
  }

  lemma {:induction false} XorShifted(a: nat, b: nat, r: nat)
    ensures Shifted(Xor(a, b), r) == Xor(Shifted(a, r), Shifted(b, r))
    decreases r
  {
    if r > 0 {
      XorShifted(a / 2, b / 2, r - 1);
      XorHalf(a, b);
    }
  }

  /** The product x * p modulo p * q keeps the low digit of x in base q. */
  lemma HighAndLow(x: nat, p: nat, q: nat)
    requires p > 0 && q > 0 && x < p * q
    ensures x / q < p && (x % q) * p + x / q < p * q
    ensures (x * p) % (p * q) == (x % q) * p
  {
    var high, low := x / q, x % q;
    DivModOf(x, q);
    if high >= p {
      MulGap(q, p - 1, high);
    }
    MulGap(p, low, q);
    MulNonNegative(low, p);
    MulAssoc(p, q, high);
    assert x * p == (p * q) * high + low * p;
    DivUnique(x * p, p * q, high, low * p);
  }

  /** Rotation moves the top r bits below the others. */
  lemma RotlIsSum(x: word, r: nat)
    requires 0 < r < 32
    ensures var p, q := Pow2(r), Pow2(32 - r);
      && ShiftRight(x, 32 - r) == x / q < p
      && Or(ShiftLeft(x, r), ShiftRight(x, 32 - r)) == (x % q) * p + x / q < MODULUS
  {
    var p, q := Pow2(r), Pow2(32 - r);
    PowersMeet(r);
    HighAndLow(x, p, q);
    DivModOf(x, q);
    var high, low := x / q, x % q;
    assert ShiftLeft(x, r) == low * p;
    assert ShiftRight(x, 32 - r) == high;
    Disjoint(low, high, r);
  }

  lemma PowersMeet(r: nat)
    requires 0 < r < 32
    ensures Pow2(r) * Pow2(32 - r) == MODULUS
  {
    Pow2Of32();
    PowAdd(2, r, 32 - r);
  }

  lemma RotlInjective(a: word, b: word, r: nat)
    requires 0 < r < 32 && Rotl32(a, r) == Rotl32(b, r)
    ensures a == b
  {
    RotlIsSum(a, r);
    RotlIsSum(b, r);
    PartsUnique(a, b, Pow2(r), Pow2(32 - r));
  }

  /** A word is determined by its two parts, swapped. */
  lemma PartsUnique(a: nat, b: nat, p: nat, q: nat)
    requires p > 0 && q > 0 && a / q < p && b / q < p && (a % q) * p + a / q == (b % q) * p + b / q
    ensures a == b
  {
    DivShrinks(a, q);
    DivShrinks(b, q);
    QuotientUnique(p, a % q, a / q, b % q, b / q);
    DivModOf(a, q);
    DivModOf(b, q);
  }

  /** Multiplication by a unit of the ring of integers modulo 2^32 is injective. */
  lemma TimesInjective(a: word, b: word, c: word, d: word)
    requires (c * d) % MODULUS == 1 && Times(a, c) == Times(b, c)
    ensures a == b
  {
    var i, j := (a * c) / MODULUS - (b * c) / MODULUS, (c * d) / MODULUS;
    Unit(a - b, c, d, i, j);
    QuotientUnique(MODULUS, i * d - j * (a - b), b, 0, a);
  }

  lemma Unit(x: int, c: int, d: int, i: int, j: int)
    requires x * c == MODULUS * i && c * d == MODULUS * j + 1
    ensures x == MODULUS * (i * d - j * x)
  {
    calc {
      x;
      x * (c * d - MODULUS * j);
      x * (c * d) - MODULUS * (j * x);
      { MulAssoc(x, c, d); }
      (MODULUS * i) * d - MODULUS * (j * x);
      { MulAssoc(MODULUS, i, d); }
      MODULUS * (i * d) - MODULUS * (j * x);
    }
  }

  /** Exclusive or with one operand fixed is injective in the other. */
  lemma XorInjective(a: word, b: word, k: word)
    ensures XorWord(a, k) == XorWord(b, k) ==> a == b
    ensures XorWord(k, a) == XorWord(k, b) ==> a == b
  {
    XorSelf(k);
    if XorWord(a, k) == XorWord(b, k) {
      XorSwap(a, b, k, k);
      XorIsZero(a, b);
    }
    if XorWord(k, a) == XorWord(k, b) {
      XorSwap(k, k, a, b);
      XorIsZero(a, b);
    }
  }

  /** x ^ (x >> r) is injective for every r > 0: a difference would equal its own shift. */
  lemma XorShiftInjective(a: word, b: word, r: nat)
    requires r > 0 && XorShift(a, r) == XorShift(b, r)
    ensures a == b
  {
    var d := Xor(a, b);
    XorSwap(a, b, ShiftRight(a, r), ShiftRight(b, r));
    ShiftedIs(a, r);
    ShiftedIs(b, r);
    XorShifted(a, b, r);
    assert d == Shifted(d, r) <= d / 2;
    XorIsZero(a, b);
  }

  lemma PlusInjective(a: word, b: word, c: word)
    requires Plus(a, c) == Plus(b, c)
    ensures a == b
  {
  }

  /** The inverses of the five multipliers. */
  lemma Units()
    ensures (0xcc9e2d51 * 0xdee13bb1) % MODULUS == 1 && (0x1b873593 * 0x56ed309b) % MODULUS == 1
    ensures (0x85ebca6b * 0xa5cb9243) % MODULUS == 1 && (0xc2b2ae35 * 0x7ed1b41d) % MODULUS == 1
    ensures (5 * 0xcccccccd) % MODULUS == 1
  {
  }

  /** Each multiplier of the hash, on its own. */
  lemma MultiplierInjective(a: word, b: word, c: word)
    requires c == 0xcc9e2d51 || c == 0x1b873593 || c == 0x85ebca6b || c == 0xc2b2ae35 || c == 5
    requires Times(a, c) == Times(b, c)
    ensures a == b
  {
    Units();
    TimesInjective(a, b, c, if c == 0xcc9e2d51 then 0xdee13bb1 else if c == 0x1b873593 then 0x56ed309b else
                            if c == 0x85ebca6b then 0xa5cb9243 else if c == 0xc2b2ae35 then 0x7ed1b41d else 0xcccccccd);
  }

  lemma MixBlockInjective(a: word, b: word)
    requires MixBlock(a) == MixBlock(b)
    ensures a == b
  {
    var x, y := Times(a, 0xcc9e2d51), Times(b, 0xcc9e2d51);
    MultiplierInjective(Rotl32(x, 15), Rotl32(y, 15), 0x1b873593);
    RotlInjective(x, y, 15);
    MultiplierInjective(a, b, 0xcc9e2d51);
  }

  /** A round is injective in the state, and injective in the block. */
  lemma RoundInjective(h: word, g: word, k: word, m: word)
    requires Round(h, k) == Round(g, m)
    ensures (k == m ==> h == g) && (h == g ==> k == m)
  {
    var x, y := XorWord(h, MixBlock(k)), XorWord(g, MixBlock(m));
    PlusInjective(Times(Rotl32(x, 13), 5), Times(Rotl32(y, 13), 5), 0xe6546b64);
    MultiplierInjective(Rotl32(x, 13), Rotl32(y, 13), 5);
    RotlInjective(x, y, 13);
    if k == m {
      XorInjective(h, g, MixBlock(k));
    }
    if h == g {
      XorInjective(MixBlock(k), MixBlock(m), h);
      MixBlockInjective(k, m);
    }
  }

  /** The finalizer maps different states to different hashes. */
  lemma Fmix32Injective(a: word, b: word)
    requires Fmix32(a) == Fmix32(b)
    ensures a == b
  {
    var a1, b1 := XorShift(a, 16), XorShift(b, 16);
    var a2, b2 := Times(a1, 0x85ebca6b), Times(b1, 0x85ebca6b);
    var a3, b3 := XorShift(a2, 13), XorShift(b2, 13);
    XorShiftInjective(Times(a3, 0xc2b2ae35), Times(b3, 0xc2b2ae35), 16);
    MultiplierInjective(a3, b3, 0xc2b2ae35);
    XorShiftInjective(a2, b2, 13);
    MultiplierInjective(a1, b1, 0x85ebca6b);
    XorShiftInjective(a, b, 16);
  }

  /** So it permutes the 2^32 states: every word is the hash of some state. */
  lemma Fmix32Onto(y: word) returns (x: word)
    ensures Fmix32(x) == y
  {
    forall a: word, b: word | Fmix32(a) == Fmix32(b) ensures a == b {
      Fmix32Injective(a, b);
    }
    x := InjectiveIsOnto(Fmix32, y);
  }

  function Same(x: word): word { x }

  ghost function Image(f: word -> word, n: nat): set<int>
    requires n <= MODULUS
  {
    set x: word | 0 <= x < n :: f(x)
  }

  lemma {:induction false} ImageCounts(f: word -> word, n: nat)
    requires n <= MODULUS && forall a: word, b: word :: f(a) == f(b) ==> a == b
    ensures |Image(f, n)| == n
  {
    if n > 0 {
      ImageCounts(f, n - 1);
      assert Image(f, n) == Image(f, n - 1) + {f(n - 1)};
      assert f(n - 1) !in Image(f, n - 1);
    }
  }

  /** An injective function on words takes every word as its value. */
  lemma InjectiveIsOnto(f: word -> word, y: word) returns (x: word)
    requires forall a: word, b: word :: f(a) == f(b) ==> a == b
    ensures f(x) == y
  {
    ImageCounts(f, MODULUS);
    ImageCounts(Same, MODULUS);
    if y !in Image(f, MODULUS) {
      forall z | z in Image(f, MODULUS) + {y} ensures z in Image(Same, MODULUS) {
        var x: word := z;
        assert Same(x) == z;
      }
      SubsetSmaller(Image(f, MODULUS) + {y}, Image(Same, MODULUS));
    }
    x :| f(x) == y;
  }

  // ----- the constants, seen on small words -----

  lemma Pow2More()
    ensures Pow2(13) == 0x2000 && Pow2(15) == 0x8000 && Pow2(17) == 0x2_0000 && Pow2(19) == 0x8_0000
  {
    Pow2Values();
    assert Pow2(5) == 32 && Pow2(7) == 128;
    PowAdd(2, 8, 5);
    PowAdd(2, 8, 7);
    PowAdd(2, 16, 1);
    PowAdd(2, 16, 3);
    assert Pow(2, 1) == 2 && Pow(2, 3) == 8;
  }

  lemma Rotl13(x: word)
    ensures Rotl32(x, 13) == x % 0x8_0000 * 0x2000 + x / 0x8_0000
  {
    Pow2More();
    RotlIsSum(x, 13);
  }

  lemma Rotl15(x: word)
    ensures Rotl32(x, 15) == x % 0x2_0000 * 0x8000 + x / 0x2_0000
  {
    Pow2More();
    RotlIsSum(x, 15);
  }

  lemma MixBlockIs(k: word, a: word, b: word)
    requires a == Times(k, 0xcc9e2d51) && b == a % 0x2_0000 * 0x8000 + a / 0x2_0000
    ensures MixBlock(k) == Times(b, 0x1b873593)
  {
    Rotl15(a);
  }

  /** A block of zeros mixes to zero, and the block 1 to what both multipliers and the rotation by 15 make of it. */
  lemma MixBlockOnOne()
    ensures MixBlock(0) == 0 && MixBlock(1) == 0xc353_9a5d
  {
    MixBlockIs(0, 0, 0);
    MixBlockIs(1, 0xcc9e2d51, 0x16a8e64f);
  }

  lemma RoundIs(h: word, y: word)
    requires y == Rotl32(h, 13)
    ensures Round(h, 0) == Plus(Times(y, 5), 0xe6546b64)
  {
    MixBlockOnOne();
    XorZero(h);
  }

  /** On a block of zeros a small state is rotated by 13, multiplied by 5, and added to. */
  lemma RoundOnZeros(h: word)
    requires h < 0x8_0000
    ensures Round(h, 0) == (0xa000 * h + 0xe6546b64) % MODULUS
  {
    SmallRotl13(h);
    RoundIs(h, 0x2000 * h);
    TimesFivePlus(h, 0x2000 * h);
  }

  lemma TimesFivePlus(h: word, y: word)
    requires y == 0x2000 * h
    ensures Plus(Times(y, 5), 0xe6546b64) == (0xa000 * h + 0xe6546b64) % MODULUS
  {
    ModAgain(0xa000 * h, 0xe6546b64);
  }

  lemma SmallRotl13(h: word)
    requires h < 0x8_0000
    ensures 0x2000 * h < MODULUS && Rotl32(h, 13) == 0x2000 * h
  {
    Rotl13(h);
    DivUnique(h, 0x8_0000, 0, h);
  }

  lemma ModAgain(a: nat, b: nat)
    ensures (a % MODULUS + b) % MODULUS == (a + b) % MODULUS
  {
  }

  lemma {:induction false} XorCommutes(a: nat, b: nat)
    ensures Xor(a, b) == Xor(b, a)
    decreases a + b
  {
    if a + b > 0 {
      XorUnfold(a, b);
      XorUnfold(b, a);
      XorCommutes(a / 2, b / 2);
    }
  }

  /** Taking the lower half of a word away again. */
  lemma XorCancels(high: nat, low: nat)
    requires low < 0x1_0000
    ensures Xor(high * 0x1_0000 + low, low) == high * 0x1_0000
  {
    var top := high * 0x1_0000;
    XorBelow(high, low, 16, 0x1_0000);
    XorCommutes(top, low);
    XorZero(top + low);
    XorSwap(low, top + low, top, 0);
    XorCommutes(low, top + low);
    XorZero(top);
  }

  lemma FirstShift()
    ensures XorShift(0x9243_9243, 16) == 0x9243_0000
  {
    Pow2Values();
    XorCancels(0x9243, 0x9243);
  }

  lemma SecondShift()
    ensures XorShift(0x1_0000, 13) == 0x1_0008
  {
    Pow2More();
    XorBelow(1, 8, 16, 0x1_0000);
  }

  /** A state on which every step of the finalization mix but the last can be followed. */
  lemma Fmix32OnOne()
    ensures Fmix32(0x9243_9243) == XorShift(0xc3ca_71a8, 16)
  {
    FirstShift();
    FirstProduct();
    SecondShift();
    SecondProduct();
  }

  lemma FirstProduct()
    ensures Times(0x9243_0000, 0x85ebca6b) == 0x1_0000
  {
  }

  lemma SecondProduct()
    ensures Times(0x1_0008, 0xc2b2ae35) == 0xc3ca_71a8
  {
  }

  // ----- collision freedom -----

  lemma GetBlockInjective(key: seq<byte>, other: seq<byte>, i: nat)
    requires 4 * i + 4 <= |key| == |other| && GetBlock32(key, i) == GetBlock32(other, i)
    ensures key[4 * i..4 * i + 4] == other[4 * i..4 * i + 4]
  {
    DigitsUnique(key[4 * i], key[4 * i + 1], key[4 * i + 2], key[4 * i + 3],
                 other[4 * i], other[4 * i + 1], other[4 * i + 2], other[4 * i + 3]);
  }

  lemma DigitsUnique(a0: byte, a1: byte, a2: byte, a3: byte, b0: byte, b1: byte, b2: byte, b3: byte)
    requires (a0 as int) + 0x100 * (a1 as int) + 0x1_0000 * (a2 as int) + 0x100_0000 * (a3 as int) ==
             (b0 as int) + 0x100 * (b1 as int) + 0x1_0000 * (b2 as int) + 0x100_0000 * (b3 as int)
    ensures a0 == b0 && a1 == b1 && a2 == b2 && a3 == b3
  {
  }

  lemma TailWordInjective(a: seq<byte>, b: seq<byte>)
    requires |a| == |b| < 4 && TailWord(a) == TailWord(b)
    ensures a == b
  {
  }

  /** The blocks from `n` on are the same in both keys. */
  ghost predicate SameBlocksFrom(key: seq<byte>, other: seq<byte>, n: nat) {
    |key| == |other| && forall i :: n <= i < |key| / 4 ==> GetBlock32(key, i) == GetBlock32(other, i)
  }

  /** The states after the first `m` blocks differ. */
  ghost predicate Apart(key: seq<byte>, other: seq<byte>, seed: word, seed': word, m: nat) {
    4 * m <= |key| && 4 * m <= |other| && Body(key, seed, m) != Body(other, seed', m)
  }

  lemma BlockKeepsApart(key: seq<byte>, other: seq<byte>, seed: word, seed': word, n: nat, m: nat)
    requires n < m <= |key| / 4 && SameBlocksFrom(key, other, n) && Apart(key, other, seed, seed', m - 1)
    ensures Apart(key, other, seed, seed', m)
  {
    assert GetBlock32(key, m - 1) == GetBlock32(other, m - 1);
    RoundKeepsApart(Body(key, seed, m - 1), Body(other, seed', m - 1), GetBlock32(key, m - 1));
  }

  /** Different states stay different through equal blocks. */
  lemma {:induction false} BodyKeepsApart(key: seq<byte>, other: seq<byte>, seed: word, seed': word, n: nat, m: nat)
    requires n <= m <= |key| / 4 && SameBlocksFrom(key, other, n) && Apart(key, other, seed, seed', n)
    ensures Apart(key, other, seed, seed', m)
    decreases m
  {
    if n < m {
      BodyKeepsApart(key, other, seed, seed', n, m - 1);
      BlockKeepsApart(key, other, seed, seed', n, m);
    }
  }

  lemma RoundKeepsApart(h: word, g: word, k: word)
    requires h != g
    ensures Round(h, k) != Round(g, k)
  {
    if Round(h, k) == Round(g, k) {
      RoundInjective(h, g, k, k);
    }
  }

  lemma {:induction false} BodyAgrees(key: seq<byte>, other: seq<byte>, seed: word, n: nat)
    requires 4 * n <= |key| == |other|
    requires forall i :: 0 <= i < n ==> GetBlock32(key, i) == GetBlock32(other, i)
    ensures Body(key, seed, n) == Body(other, seed, n)
  {
    if n > 0 {
      BodyAgrees(key, other, seed, n - 1);
    }
  }

  /** From the end of the body on, equal hashes of equal tails mean equal states. */
  lemma FinishInjective(h: word, g: word, tail: seq<byte>, length: word)
    requires |tail| < 4
    requires Fmix32(XorWord(Tail(h, tail), length)) == Fmix32(XorWord(Tail(g, tail), length))
    ensures h == g
  {
    Fmix32Injective(XorWord(Tail(h, tail), length), XorWord(Tail(g, tail), length));
    XorInjective(Tail(h, tail), Tail(g, tail), length);
    if tail != [] {
      XorInjective(h, g, MixBlock(TailWord(tail)));
    }
  }

  /** Two keys of one length that differ exactly inside aligned block `i` never collide. */
  lemma BlockCollisionFree(key: seq<byte>, other: seq<byte>, seed: word, i: nat)
    requires 4 * i + 4 <= |key| == |other|
    requires key[..4 * i] == other[..4 * i] && key[4 * i + 4..] == other[4 * i + 4..]
    requires key != other
    ensures Hash(key, seed) != Hash(other, seed)
  {
    var n := |key| / 4;
    OneBlockDiffers(key, other, seed, i);
    BodyKeepsApart(key, other, seed, seed, i + 1, n);
    SameTail(key, other, i);
    if Hash(key, seed) == Hash(other, seed) {
      FinishInjective(Body(key, seed, n), Body(other, seed, n), TailOf(key), |key| % MODULUS);
    }
  }

  lemma OneBlockDiffers(key: seq<byte>, other: seq<byte>, seed: word, i: nat)
    requires 4 * i + 4 <= |key| == |other|
    requires key[..4 * i] == other[..4 * i] && key[4 * i + 4..] == other[4 * i + 4..]
    requires key != other
    ensures Body(key, seed, i + 1) != Body(other, seed, i + 1) && SameBlocksFrom(key, other, i + 1)
  {
    assert key == key[..4 * i] + key[4 * i..4 * i + 4] + key[4 * i + 4..];
    assert other == other[..4 * i] + other[4 * i..4 * i + 4] + other[4 * i + 4..];
    if GetBlock32(key, i) == GetBlock32(other, i) {
      GetBlockInjective(key, other, i);
    }
    forall j | 0 <= j < |key| / 4 && j != i ensures GetBlock32(key, j) == GetBlock32(other, j) {
      OutsideBlock(key, other, i, j);
    }
    BodyAgrees(key, other, seed, i);
    if Body(key, seed, i + 1) == Body(other, seed, i + 1) {
      RoundInjective(Body(key, seed, i), Body(other, seed, i), GetBlock32(key, i), GetBlock32(other, i));
    }
  }

  lemma SameTail(key: seq<byte>, other: seq<byte>, i: nat)
    requires 4 * i + 4 <= |key| == |other| && key[4 * i + 4..] == other[4 * i + 4..]
    ensures TailOf(key) == TailOf(other)
  {
    var n := |key| / 4;
    assert TailOf(key) == key[4 * i + 4..][4 * n - 4 * i - 4..];
    assert TailOf(other) == other[4 * i + 4..][4 * n - 4 * i - 4..];
  }

  lemma OutsideBlock(key: seq<byte>, other: seq<byte>, i: nat, j: nat)
    requires 4 * i + 4 <= |key| == |other| && 4 * j + 4 <= |key| && j != i
    requires key[..4 * i] == other[..4 * i] && key[4 * i + 4..] == other[4 * i + 4..]
    ensures GetBlock32(key, j) == GetBlock32(other, j)
  {
    forall k | 4 * j <= k < 4 * j + 4 ensures key[k] == other[k] {
      if j < i {
        assert key[k] == key[..4 * i][k] && other[k] == other[..4 * i][k];
      } else {
        assert key[k] == key[4 * i + 4..][k - 4 * i - 4] && other[k] == other[4 * i + 4..][k - 4 * i - 4];
      }
    }
  }

  /** Two keys of one length that differ only in the tail never collide. */
  lemma TailCollisionFree(key: seq<byte>, other: seq<byte>, seed: word)
    requires |key| == |other| && key != other
    requires key[..|key| / 4 * 4] == other[..|key| / 4 * 4]
    ensures Hash(key, seed) != Hash(other, seed)
  {
    var n := |key| / 4;
    assert key == key[..4 * n] + TailOf(key) && other == other[..4 * n] + TailOf(other);
    forall j | 0 <= j < n ensures GetBlock32(key, j) == GetBlock32(other, j) {
      forall k | 4 * j <= k < 4 * j + 4 ensures key[k] == other[k] {
        assert key[k] == key[..4 * n][k] && other[k] == other[..4 * n][k];
      }
    }
    BodyAgrees(key, other, seed, n);
    if Hash(key, seed) == Hash(other, seed) {
      var h := Body(key, seed, n);
      Fmix32Injective(XorWord(Tail(h, TailOf(key)), |key| % MODULUS), XorWord(Tail(h, TailOf(other)), |key| % MODULUS));
      XorInjective(Tail(h, TailOf(key)), Tail(h, TailOf(other)), |key| % MODULUS);
      XorInjective(MixBlock(TailWord(TailOf(key))), MixBlock(TailWord(TailOf(other))), h);
      MixBlockInjective(TailWord(TailOf(key)), TailWord(TailOf(other)));
      TailWordInjective(TailOf(key), TailOf(other));
    }
  }

  /** Two seeds never give one key the same hash. */
  lemma SeedCollisionFree(key: seq<byte>, seed: word, seed': word)
    requires seed != seed'
    ensures Hash(key, seed) != Hash(key, seed')
  {
    var n := |key| / 4;
    BodyKeepsApart(key, key, seed, seed', 0, n);
    if Hash(key, seed) == Hash(key, seed') {
      FinishInjective(Body(key, seed, n), Body(key, seed', n), TailOf(key), |key| % MODULUS);
    }
  }

  /** A block is a word in little-endian order. */
  lemma BlocksAreLittleEndian(w: word)
    ensures GetBlock32([w % 0x100, w / 0x100 % 0x100, w / 0x1_0000 % 0x100, w / 0x100_0000], 0) == w
  {
  }

  /** The tail is a block with zeros behind it. */
  lemma TailIsPadded(tail: seq<byte>)
    requires |tail| < 4
    ensures TailWord(tail) == GetBlock32(tail + seq(4 - |tail|, i => 0), 0)
  {
  }

  lemma {:induction false} SameBody(key: seq<byte>, more: seq<byte>, seed: word, n: nat)
    requires 4 * n <= |key| && key <= more
    ensures Body(more, seed, n) == Body(key, seed, n)
  {
    if n > 0 {
      SameBody(key, more, seed, n - 1);
    }
  }

  lemma ZeroMixedIn(h: word)
    ensures XorWord(h, MixBlock(0)) == h
  {
    MixBlockOnOne();
    XorZero(h);
  }

  lemma SameTailWord(tail: seq<byte>)
    requires |tail| < 3
    ensures TailWord(tail + [0]) == TailWord(tail) && TailWord([]) == 0
  {
  }

  lemma SameTail0(h: word, tail: seq<byte>)
    requires |tail| < 3
    ensures Tail(h, tail + [0]) == Tail(h, tail)
  {
    SameTailWord(tail);
    ZeroMixedIn(h);
  }

  lemma TailOfMore(key: seq<byte>)
    requires |key| % 4 != 3
    ensures TailOf(key + [0]) == TailOf(key) + [0] && |key + [0]| / 4 == |key| / 4
  {
    var n := |key| / 4;
    DivModOf(|key|, 4);
    DivUnique(|key| + 1, 4, n, |key| % 4 + 1);
    DropMore(key, n * 4);
  }

  lemma DropMore(key: seq<byte>, k: nat)
    requires k <= |key|
    ensures (key + [0])[k..] == key[k..] + [0]
  {
  }

  lemma LengthsDiffer(n: nat)
    ensures (n + 1) % MODULUS != n % MODULUS
  {
  }

  /** The length counts: a zero byte behind a key that does not fill its last block changes the hash. */
  lemma ZeroByteCounts(key: seq<byte>, seed: word)
    requires |key| % 4 != 3
    ensures Hash(key + [0], seed) != Hash(key, seed)
  {
    var n, more := |key| / 4, key + [0];
    SameBody(key, more, seed, n);
    TailOfMore(key);
    SameTail0(Body(key, seed, n), TailOf(key));
    var h := Tail(Body(key, seed, n), TailOf(key));
    LengthsDiffer(|key|);
    if Hash(more, seed) == Hash(key, seed) {
      Fmix32Injective(XorWord(h, |more| % MODULUS), XorWord(h, |key| % MODULUS));
      XorInjective(|more| % MODULUS, |key| % MODULUS, h);
    }
  }
}
