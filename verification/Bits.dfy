/** Machine words as natural numbers, with the bitwise operators of C and Rust
    defined bit by bit.  The lemmas turn the mask idioms of the sources
    (extract a field, round down, set or clear one bit) into arithmetic. */
module Bits {

  /** Number of values of a 32-bit word, and bytes in a page. */
  const WORD: nat := 0x1_0000_0000
  const PAGE: nat := 4096

  /** What wrapping does to a number below twice the word size. */
  lemma Wrap(x: nat)
    requires x < 2 * WORD
    ensures x % WORD == if x < WORD then x else x - WORD
  {}

  function Pow2(k: nat): (r: nat)
    ensures r > 0
  {
    if k == 0 then 1 else 2 * Pow2(k - 1)
  }

  /** Bit k of x. */
  predicate Bit(x: nat, k: nat) {
    if k == 0 then x % 2 == 1 else Bit(x / 2, k - 1)
  }

  function And(x: nat, y: nat): nat {
    if x == 0 || y == 0 then 0
    else (if x % 2 == 1 && y % 2 == 1 then 1 else 0) + 2 * And(x / 2, y / 2)
  }

  function Or(x: nat, y: nat): nat {
    if x == 0 then y
    else if y == 0 then x
    else (if x % 2 == 1 || y % 2 == 1 then 1 else 0) + 2 * Or(x / 2, y / 2)
  }

  /** Complement of x in a word of w bits. */
  function Not(w: nat, x: nat): nat
    requires x < Pow2(w)
  {
    Pow2(w) - 1 - x
  }

  // ---------------------------------------------------------------- one bit

  lemma {:induction false} BitOfZero(k: nat)
    ensures !Bit(0, k)
  {
    if k > 0 { BitOfZero(k - 1); }
  }

  lemma {:induction false} BitAnd(x: nat, y: nat, k: nat)
    ensures Bit(And(x, y), k) == (Bit(x, k) && Bit(y, k))
  {
    if x == 0 || y == 0 {
      BitOfZero(k);
    } else if k > 0 {
      BitAnd(x / 2, y / 2, k - 1);
    }
  }

  lemma {:induction false} BitOr(x: nat, y: nat, k: nat)
    ensures Bit(Or(x, y), k) == (Bit(x, k) || Bit(y, k))
  {
    if x == 0 || y == 0 {
      BitOfZero(k);
    } else if k > 0 {
      BitOr(x / 2, y / 2, k - 1);
    }
  }

  lemma {:induction false} BitNot(w: nat, x: nat, k: nat)
    requires x < Pow2(w)
    ensures Bit(Not(w, x), k) == (k < w && !Bit(x, k))
  {
    if w == 0 {
      BitOfZero(k);
    } else {
      assert Not(w, x) / 2 == Not(w - 1, x / 2);
      if k > 0 { BitNot(w - 1, x / 2, k - 1); }
    }
  }

  lemma {:induction false} BitOfPow2(j: nat, k: nat)
    ensures Bit(Pow2(j), k) == (j == k)
  {
    if j == 0 {
      if k > 0 { BitOfZero(k - 1); }
    } else if k > 0 {
      BitOfPow2(j - 1, k - 1);
    }
  }

  /** Words are equal when all their bits are. */
  lemma {:induction false} Extensionality(x: nat, y: nat)
    requires forall k: nat :: Bit(x, k) == Bit(y, k)
    ensures x == y
    decreases x + y
  {
    assert Bit(x, 0) == Bit(y, 0);
    if x != 0 || y != 0 {
      forall k: nat
        ensures Bit(x / 2, k) == Bit(y / 2, k)
      {
        assert Bit(x, k + 1) == Bit(y, k + 1);
      }
      Extensionality(x / 2, y / 2);
    }
  }

  lemma BitOfOnes(w: nat, k: nat)
    requires k < w
    ensures Bit(Pow2(w) - 1, k)
  {
    BitNot(w, 0, k);
    BitOfZero(k);
  }

  lemma {:induction false} OnlyOnes(w: nat, x: nat)
    requires x < Pow2(w)
    requires forall k: nat | k < w :: Bit(x, k)
    ensures x == Pow2(w) - 1
  {
    if w > 0 {
      assert Bit(x, 0);
      forall k: nat | k < w - 1
        ensures Bit(x / 2, k)
      {
        assert Bit(x, k + 1);
      }
      OnlyOnes(w - 1, x / 2);
    }
  }

  lemma TestBit(x: nat, bit: nat)
    ensures And(x, Pow2(bit)) == 0 <==> !Bit(x, bit)
  {
    BitAnd(x, Pow2(bit), bit);
    BitOfPow2(bit, bit);
    BitOfZero(bit);
    if !Bit(x, bit) {
      forall k: nat
        ensures Bit(And(x, Pow2(bit)), k) == Bit(0, k)
      {
        BitAnd(x, Pow2(bit), k);
        BitOfPow2(bit, k);
        BitOfZero(k);
      }
      Extensionality(And(x, Pow2(bit)), 0);
    }
  }

  lemma {:induction false} OrBelow(w: nat, x: nat, y: nat)
    requires x < Pow2(w) && y < Pow2(w)
    ensures Or(x, y) < Pow2(w)
  {
    if w > 0 { OrBelow(w - 1, x / 2, y / 2); }
  }

  lemma {:induction false} AndBelow(x: nat, y: nat)
    ensures And(x, y) <= x
  {
    if x > 0 { AndBelow(x / 2, y / 2); }
  }

  lemma {:induction false} OrCommutes(x: nat, y: nat)
    ensures Or(x, y) == Or(y, x)
  {
    if x != 0 && y != 0 { OrCommutes(x / 2, y / 2); }
  }

  lemma {:induction false} AndCommutes(x: nat, y: nat)
    ensures And(x, y) == And(y, x)
  {
    if x > 0 && y > 0 { AndCommutes(x / 2, y / 2); }
  }

  /** x & !m takes from x the bits it shares with m. */
  lemma {:induction false} AndNot(w: nat, x: nat, m: nat)
    requires x < Pow2(w) && m < Pow2(w)
    ensures And(x, Not(w, m)) == x - And(x, m)
  {
    if w > 0 { AndNot(w - 1, x / 2, m / 2); }
  }

  lemma {:induction false} OrOnes(w: nat, x: nat)
    requires x < Pow2(w)
    ensures Or(Pow2(w) - 1, x) == Pow2(w) - 1
  {
    if w > 0 { OrOnes(w - 1, x / 2); }
  }

  lemma {:induction false} AndSelf(x: nat)
    ensures And(x, x) == x
  {
    if x > 0 { AndSelf(x / 2); }
  }

  lemma AndHalves(x: nat, y: nat)
    ensures And(x, y) / 2 == And(x / 2, y / 2)
    ensures And(x, y) % 2 == if x % 2 == 1 && y % 2 == 1 then 1 else 0
  {}

  lemma AndPredecessor(a: nat)
    requires a > 0
    ensures And(a, a - 1) == 2 * if a % 2 == 1 then a / 2 else And(a / 2, a / 2 - 1)
  {
    AndHalves(a, a - 1);
    AndSelf(a / 2);
    assert (a - 1) / 2 == if a % 2 == 1 then a / 2 else a / 2 - 1;
  }

  /** A number that shares no bit with its predecessor is a power of two. */
  lemma {:induction false} LowestBitOnly(w: nat, a: nat) returns (k: nat)
    requires 0 < a < Pow2(w) && And(a, a - 1) == 0
    ensures k < w && a == Pow2(k)
  {
    AndPredecessor(a);
    if a % 2 == 1 {
      k := 0;
    } else {
      k := LowestBitOnly(w - 1, a / 2);
      k := k + 1;
    }
  }

  /** Every bit of x is also set in y. */
  ghost predicate SubBits(x: nat, y: nat) {
    forall k: nat :: Bit(x, k) ==> Bit(y, k)
  }

  lemma OrAbsorbsIff(x: nat, y: nat)
    ensures Or(x, y) == x <==> SubBits(y, x)
  {
    forall k: nat
      ensures Bit(Or(x, y), k) == (Bit(x, k) || Bit(y, k))
    {
      BitOr(x, y, k);
    }
    if SubBits(y, x) {
      Extensionality(Or(x, y), x);
    }
  }

  // ----------------------------------------------------------------- fields

  /** The mask of len one-bits starting at bit lo. */
  function Mask(lo: nat, len: nat): nat {
    if lo == 0 then Pow2(len) - 1 else 2 * Mask(lo - 1, len)
  }

  function Shl(x: nat, k: nat): nat {
    if k == 0 then x else 2 * Shl(x, k - 1)
  }

  function Shr(x: nat, k: nat): nat {
    if k == 0 then x else Shr(x / 2, k - 1)
  }

  lemma {:induction false} ShlIsTimes(x: nat, k: nat)
    ensures Shl(x, k) == x * Pow2(k)
  {
    if k > 0 {
      ShlIsTimes(x, k - 1);
      Associate(x, 2, Pow2(k - 1));
    }
  }

  lemma {:induction false} ShrIsDivide(x: nat, k: nat)
    ensures Shr(x, k) == x / Pow2(k)
  {
    if k > 0 {
      ShrIsDivide(x / 2, k - 1);
      ModDouble(x, Pow2(k - 1));
    }
  }

  lemma Associate(a: int, b: int, c: int)
    ensures a * (b * c) == b * (a * c)
  {}

  lemma AndEven(x: nat, m: nat)
    ensures And(x, 2 * m) == 2 * And(x / 2, m)
  {}

  lemma OrEven(a: nat, b: nat)
    ensures Or(2 * a, b) == b % 2 + 2 * Or(a, b / 2)
  {}

  lemma {:induction false} AndLow(x: nat, len: nat)
    ensures And(x, Pow2(len) - 1) == x % Pow2(len)
  {
    if len == 0 {
    } else {
      AndLow(x / 2, len - 1);
      var p := Pow2(len - 1);
      assert (2 * p - 1) / 2 == p - 1;
      ModDouble(x, p);
    }
  }

  lemma ModDouble(x: nat, p: nat)
    requires p > 0
    ensures x % (2 * p) == x % 2 + 2 * (x / 2 % p)
    ensures x / (2 * p) == x / 2 / p
  {
    var h := x / 2;
    var q, r := h / p, h % p;
    assert h == p * q + r;
    assert x == (2 * p) * q + (x % 2 + 2 * r);
    DivModUnique(x, 2 * p, q, x % 2 + 2 * r);
  }

  lemma DivModUnique(x: int, d: int, q: int, r: int)
    requires d > 0 && 0 <= r < d && x == d * q + r
    ensures x / d == q && x % d == r
  {
    var q', r' := x / d, x % d;
    assert x == d * q' + r';
    assert d * (q' - q) == r - r' by { Distribute(d, q', q); }
    if q' - q >= 1 {
      MulMonotone(d, 1, q' - q);
    } else if q' - q <= -1 {
      MulMonotone(d, q' - q, -1);
    }
  }

  lemma Distribute(d: int, a: int, b: int)
    ensures d * (a - b) == d * a - d * b
  {}

  lemma MulMonotone(d: int, a: int, b: int)
    requires d >= 0 && a <= b
    ensures d * a <= d * b
  {}

  /** x & mask keeps exactly the masked field, in place. */
  lemma {:induction false} AndMask(x: nat, lo: nat, len: nat)
    ensures And(x, Mask(lo, len)) == Shl(Shr(x, lo) % Pow2(len), lo)
  {
    if lo == 0 {
      AndLow(x, len);
    } else {
      AndEven(x, Mask(lo - 1, len));
      AndMask(x / 2, lo - 1, len);
    }
  }

  lemma {:induction false} BitMask(lo: nat, len: nat, k: nat)
    ensures Bit(Mask(lo, len), k) == (lo <= k < lo + len)
  {
    if lo == 0 {
      BitNot(len, 0, k);
      BitOfZero(k);
    } else if k > 0 {
      BitMask(lo - 1, len, k - 1);
    }
  }

  /** x & !(2^k - 1) in a w-bit word rounds x down to a multiple of 2^k. */
  lemma RoundDown(w: nat, x: nat, k: nat)
    requires x < Pow2(w) && Pow2(k) - 1 < Pow2(w)
    ensures And(x, Not(w, Pow2(k) - 1)) == x - x % Pow2(k)
  {
    AndNot(w, x, Pow2(k) - 1);
    AndLow(x, k);
  }

  /** Or of a shifted number with a number below 2^k is their sum. */
  lemma {:induction false} OrDisjoint(a: nat, b: nat, k: nat)
    requires b < Pow2(k)
    ensures Or(Shl(a, k), b) == Shl(a, k) + b
  {
    if k > 0 {
      OrEven(Shl(a, k - 1), b);
      OrDisjoint(a, b / 2, k - 1);
    }
  }

  lemma {:induction false} Pow2Monotone(a: nat, b: nat)
    requires a <= b
    ensures Pow2(a) <= Pow2(b)
  {
    if a < b { Pow2Monotone(a, b - 1); }
  }

  lemma {:induction false} Pow2Add(a: nat, b: nat)
    ensures Pow2(a + b) == Pow2(a) * Pow2(b)
  {
    if a > 0 {
      Pow2Add(a - 1, b);
      Times2(Pow2(a - 1), Pow2(b));
    }
  }

  lemma Times2(x: int, y: int)
    ensures (2 * x) * y == 2 * (x * y)
  {}

  /** The powers of two that occur as page, table and word sizes. */
  lemma Pow2Values()
    ensures Pow2(1) == 2 && Pow2(4) == 16 && Pow2(7) == 128 && Pow2(8) == 256
    ensures Pow2(9) == 512 && Pow2(10) == 1024 && Pow2(12) == 4096
    ensures Pow2(20) == 0x10_0000 && Pow2(21) == 0x20_0000 && Pow2(22) == 0x40_0000
    ensures Pow2(30) == 0x4000_0000 && Pow2(32) == 0x1_0000_0000
  {
    var twelve := Pow2(12);
    assert twelve == 4096;
    Pow2Add(12, 8);
    Pow2Add(12, 9);
    Pow2Add(12, 10);
    Pow2Add(20, 10);
    Pow2Add(20, 12);
  }

  lemma Pow2Wide()
    ensures Pow2(39) == 0x80_0000_0000 && Pow2(40) == 0x100_0000_0000 && Pow2(64) == 0x1_0000_0000_0000_0000
  {
    assert Pow2(20) == 0x10_0000 && Pow2(32) == 0x1_0000_0000 by { Pow2Values(); }
    Pow2Add(20, 20);
    Pow2Double(32, 0x1_0000_0000);
  }

  lemma Pow2Double(k: nat, x: nat)
    requires Pow2(k) == x
    ensures Pow2(k + k) == x * x
  {
    Pow2Add(k, k);
  }

  /** (x >> k) & mask, as arithmetic. */
  lemma FieldAt(x: nat, k: nat, w: nat, mask: nat)
    requires mask == Pow2(w) - 1
    ensures And(Shr(x, k), mask) == x / Pow2(k) % Pow2(w)
  {
    AndLow(Shr(x, k), w);
    ShrIsDivide(x, k);
  }

  /** Or of a multiple of p = 2^k with a number below p. */
  lemma OrMultiple(a: nat, b: nat, k: nat, p: nat)
    requires p == Pow2(k) && b < p
    ensures Or(a * p, b) == a * p + b
  {
    ShlIsTimes(a, k);
    OrDisjoint(a, b, k);
  }

  /** The k low bits of x. */
  function Low(x: nat, k: nat): nat {
    if k == 0 then 0 else x % 2 + 2 * Low(x / 2, k - 1)
  }

  lemma {:induction false} LowIsMod(x: nat, k: nat)
    ensures Low(x, k) == x % Pow2(k)
  {
    if k > 0 {
      LowIsMod(x / 2, k - 1);
      ModDouble(x, Pow2(k - 1));
    }
  }

  /** Or works on the bits below and from bit k up separately. */
  lemma OrSplits(x: nat, y: nat, k: nat)
    ensures Shr(Or(x, y), k) == Or(Shr(x, k), Shr(y, k))
    ensures Low(Or(x, y), k) == Or(Low(x, k), Low(y, k))
  {
    OrShr(x, y, k);
    OrLow(x, y, k);
  }

  lemma {:induction false} OrShr(x: nat, y: nat, k: nat)
    ensures Shr(Or(x, y), k) == Or(Shr(x, k), Shr(y, k))
  {
    if k > 0 {
      OrHalves(x, y);
      OrShr(x / 2, y / 2, k - 1);
    }
  }

  lemma {:induction false} OrLow(x: nat, y: nat, k: nat)
    ensures Low(Or(x, y), k) == Or(Low(x, k), Low(y, k))
  {
    if k > 0 {
      OrHalves(x, y);
      OrLow(x / 2, y / 2, k - 1);
      LowParts(x, k);
      LowParts(y, k);
      LowParts(Or(x, y), k);
      OrHalves(Low(x, k), Low(y, k));
    }
  }

  lemma LowParts(x: nat, k: nat)
    requires k > 0
    ensures Low(x, k) % 2 == x % 2 && Low(x, k) / 2 == Low(x / 2, k - 1)
  {}

  lemma OrHalves(x: nat, y: nat)
    ensures Or(x, y) / 2 == Or(x / 2, y / 2)
    ensures Or(x, y) % 2 == if x % 2 == 1 || y % 2 == 1 then 1 else 0
  {}

  /** Dividing in two steps. */
  lemma DivDiv(x: nat, a: nat, b: nat)
    requires a > 0 && b > 0
    ensures a * b > 0 && x / (a * b) == x / a / b
  {
    var q, r := x / a, x % a;
    var q', r' := q / b, q % b;
    MulMonotone(a, 1, b);
    Nested(a, b, q', r');
    MulMonotone(a, r', b - 1);
    Distribute(a, b, 1);
    DivModUnique(x, a * b, q', a * r' + r);
  }

  lemma Nested(a: int, b: int, q: int, r: int)
    ensures a * (b * q + r) == (a * b) * q + a * r
  {}

  /** x & ~0xFFF is the start of the page of x. */
  lemma PageStart(x: nat)
    requires x < WORD
    ensures Pow2(32) == WORD && And(x, Not(32, 0xFFF)) == x / PAGE * PAGE
  {
    assert Pow2(32) == WORD && Pow2(12) == PAGE by { Pow2Values(); }
    RoundDown(32, x, 12);
  }
}
