/** Machine words as integers: the C operators `&`, `|`, `^`, `<<` and `>>` on unsigned words,
    written bit by bit, and the closed forms the memory code relies on. */
module Bits {

  const WORD_LIMIT: int := 0x1_0000_0000_0000_0000

  /** A `uint64_t`. */
  type Word = w: int | 0 <= w < WORD_LIMIT

  /** x * 2^n. */
  function Scale(x: nat, n: nat): (r: nat)
    ensures r >= x
  {
    if n == 0 then x else 2 * Scale(x, n - 1)
  }

  function Pow2(n: nat): nat {
    Scale(1, n)
  }

  predicate Bit(x: nat, j: nat) {
    if j == 0 then x % 2 == 1 else Bit(x / 2, j - 1)
  }

  function And(a: nat, b: nat): (r: nat)
    ensures r <= a && r <= b
  {
    if a == 0 || b == 0 then 0 else 2 * And(a / 2, b / 2) + (a % 2) * (b % 2)
  }

  function Or(a: nat, b: nat): nat
    decreases a + b
  {
    if a == 0 && b == 0 then 0
    else 2 * Or(a / 2, b / 2) + (if a % 2 == 1 || b % 2 == 1 then 1 else 0)
  }

  function Xor(a: nat, b: nat): nat
    decreases a + b
  {
    if a == 0 && b == 0 then 0
    else 2 * Xor(a / 2, b / 2) + (if a % 2 != b % 2 then 1 else 0)
  }

  /** `x << n` on 64 bits. */
  function Shl(x: nat, n: nat): Word {
    Scale(x, n) % WORD_LIMIT
  }

  /** `x >> n`. */
  function Shr(x: nat, n: nat): nat {
    if n == 0 then x else Shr(x / 2, n - 1)
  }

  /** The low n bits of x. */
  function Low(x: nat, n: nat): nat {
    if n == 0 then 0 else 2 * Low(x / 2, n - 1) + x % 2
  }

  // ---------------------------------------------------------------- powers of two

  lemma Pow2Values()
    ensures Pow2(3) == 8 && Pow2(6) == 64 && Pow2(9) == 0x200 && Pow2(12) == 0x1000
    ensures Pow2(21) == 0x20_0000 && Pow2(30) == 0x4000_0000 && Pow2(39) == 0x80_0000_0000
    ensures Pow2(48) == 0x1_0000_0000_0000 && Pow2(52) == 0x10_0000_0000_0000 && Pow2(64) == WORD_LIMIT
  {
  }

  /** x * 2^n for the shifts of page-table arithmetic. */
  lemma ScaleValues(x: nat)
    ensures Scale(x, 3) == 8 * x && Scale(x, 9) == 0x200 * x
    ensures Scale(x, 12) == 0x1000 * x && Scale(x, 21) == 0x20_0000 * x
    ensures Scale(x, 30) == 0x4000_0000 * x && Scale(x, 39) == 0x80_0000_0000 * x
  {
    ScaleBy8(x, 0);
    ScaleBy512(x, 0);
    ScaleBy512(x, 3);
    ScaleBy512(x, 12);
    ScaleBy512(x, 21);
    ScaleBy512(x, 30);
  }

  lemma ScaleBy8(x: nat, n: nat)
    ensures Scale(x, n + 3) == 8 * Scale(x, n)
  {
    assert Scale(x, n + 3) == 2 * Scale(x, n + 2);
    assert Scale(x, n + 2) == 2 * Scale(x, n + 1);
  }

  lemma ScaleBy512(x: nat, n: nat)
    ensures Scale(x, n + 9) == 0x200 * Scale(x, n)
  {
    ScaleBy8(x, n);
    ScaleBy8(x, n + 3);
    ScaleBy8(x, n + 6);
  }

  lemma {:induction false} Pow2Monotone(m: nat, n: nat)
    requires m <= n
    ensures Pow2(m) <= Pow2(n)
    decreases n
  {
    if m < n {
      Pow2Monotone(m, n - 1);
    }
  }

  // ---------------------------------------------------------------- what each operator does to each bit

  lemma {:induction false} BitOfZero(j: nat)
    ensures !Bit(0, j)
  {
    if j > 0 {
      BitOfZero(j - 1);
    }
  }

  lemma {:induction false} AndBit(a: nat, b: nat, j: nat)
    ensures Bit(And(a, b), j) <==> Bit(a, j) && Bit(b, j)
  {
    BitOfZero(j);
    if j > 0 && a != 0 && b != 0 {
      AndBit(a / 2, b / 2, j - 1);
    }
  }

  lemma {:induction false} OrBit(a: nat, b: nat, j: nat)
    ensures Bit(Or(a, b), j) <==> Bit(a, j) || Bit(b, j)
  {
    BitOfZero(j);
    if j > 0 && (a != 0 || b != 0) {
      OrBit(a / 2, b / 2, j - 1);
    }
  }

  lemma {:induction false} XorBit(a: nat, b: nat, j: nat)
    ensures Bit(Xor(a, b), j) <==> Bit(a, j) != Bit(b, j)
  {
    BitOfZero(j);
    if j > 0 && (a != 0 || b != 0) {
      XorBit(a / 2, b / 2, j - 1);
    }
  }

  lemma {:induction false} Pow2Bit(n: nat, j: nat)
    ensures Bit(Pow2(n), j) <==> j == n
  {
    if j == 0 {
    } else if n == 0 {
      BitOfZero(j - 1);
    } else {
      Pow2Bit(n - 1, j - 1);
    }
  }

  /** Words below 2^n have no bit at or above n. */
  lemma {:induction false} BitBeyond(x: nat, n: nat, j: nat)
    requires x < Pow2(n) && n <= j
    ensures !Bit(x, j)
  {
    BitOfZero(j);
    if n > 0 && x > 0 {
      BitBeyond(x / 2, n - 1, j - 1);
    }
  }

  /** Two n-bit words with the same bits are the same word. */
  lemma {:induction false} BitsDetermine(a: nat, b: nat, n: nat)
    requires a < Pow2(n) && b < Pow2(n)
    requires forall j: nat | j < n :: Bit(a, j) == Bit(b, j)
    ensures a == b
  {
    if n > 0 {
      forall j: nat | j < n - 1 ensures Bit(a / 2, j) == Bit(b / 2, j) {
        assert Bit(a, j + 1) == Bit(b, j + 1);
      }
      BitsDetermine(a / 2, b / 2, n - 1);
      assert Bit(a, 0) == Bit(b, 0);
    }
  }

  /** Halving n ones leaves n - 1. */
  lemma OnesHalf(n: nat)
    requires n > 0
    ensures Pow2(n) == 2 * Pow2(n - 1) && (Pow2(n) - 1) / 2 == Pow2(n - 1) - 1 && (Pow2(n) - 1) % 2 == 1
  {
    assert Pow2(n) == 2 * Pow2(n - 1);
    hide Pow2, Scale;
  }

  lemma {:induction false} OnesBit(n: nat, j: nat)
    ensures Bit(Pow2(n) - 1, j) <==> j < n
  {
    assert Pow2(0) == 1;
    hide Pow2, Scale;
    if n == 0 {
      BitOfZero(j);
    } else {
      OnesHalf(n);
      if j > 0 {
        OnesBit(n - 1, j - 1);
      }
    }
  }

  lemma {:induction false} XorSelf(a: nat)
    ensures Xor(a, a) == 0
  {
    if a > 0 {
      XorSelf(a / 2);
    }
  }

  // ---------------------------------------------------------------- staying inside the word

  lemma {:induction false} OrBelow(a: nat, b: nat, n: nat)
    requires a < Pow2(n) && b < Pow2(n)
    ensures Or(a, b) < Pow2(n)
  {
    if n > 0 && (a != 0 || b != 0) {
      OrBelow(a / 2, b / 2, n - 1);
    }
  }

  lemma {:induction false} XorBelow(a: nat, b: nat, n: nat)
    requires a < Pow2(n) && b < Pow2(n)
    ensures Xor(a, b) < Pow2(n)
  {
    if n > 0 && (a != 0 || b != 0) {
      XorBelow(a / 2, b / 2, n - 1);
    }
  }

  // ---------------------------------------------------------------- closed forms

  /** Or-ing a value into the empty low bits of another is addition. */
  lemma {:induction false} OrIsSum(high: nat, low: nat, n: nat)
    requires low < Pow2(n)
    ensures Or(Scale(high, n), low) == Scale(high, n) + low
  {
    if n == 0 {
      OrZero(high);
    } else {
      OrIsSum(high, low / 2, n - 1);
    }
  }

  lemma {:induction false} OrZero(a: nat)
    ensures Or(a, 0) == a
  {
    if a > 0 {
      OrZero(a / 2);
    }
  }

  lemma {:induction false} OrCommutes(a: nat, b: nat)
    ensures Or(a, b) == Or(b, a)
    decreases a + b
  {
    if a != 0 || b != 0 {
      OrCommutes(a / 2, b / 2);
    }
  }

  /** `x >> n` and the low n bits are the quotient and the remainder of division by 2^n. */
  lemma {:induction false} SplitAt(x: nat, n: nat)
    ensures Low(x, n) < Pow2(n)
    ensures x == Scale(Shr(x, n), n) + Low(x, n)
  {
    if n > 0 {
      SplitAt(x / 2, n - 1);
    }
  }

  /** Masking with n ones keeps the low n bits. */
  lemma {:induction false} AndOnes(x: nat, n: nat)
    ensures And(x, Pow2(n) - 1) == Low(x, n)
  {
    assert Pow2(0) == 1;
    hide Pow2, Scale;
    if x == 0 {
      LowOfZero(n);
    } else if n > 0 {
      AndOnes(x / 2, n - 1);
      OnesHalf(n);
    }
  }

  lemma {:induction false} LowOfZero(n: nat)
    ensures Low(0, n) == 0 && Shr(0, n) == 0
  {
    if n > 0 {
      LowOfZero(n - 1);
    }
  }

  /** Masking with a shifted mask is masking the shifted word. */
  lemma {:induction false} AndShifted(x: nat, m: nat, n: nat)
    ensures And(x, Scale(m, n)) == Scale(And(Shr(x, n), m), n)
  {
    if n > 0 {
      AndShifted(x / 2, m, n - 1);
      if x == 0 || Scale(m, n) == 0 {
        ScaleOfZero(n);
      }
    }
  }

  lemma {:induction false} ScaleOfZero(n: nat)
    ensures Scale(0, n) == 0
  {
    if n > 0 {
      ScaleOfZero(n - 1);
    }
  }

  /** A word below 2^n is its own low n bits. */
  lemma {:induction false} LowAll(x: nat, n: nat)
    requires x < Pow2(n)
    ensures Low(x, n) == x
  {
    if n > 0 {
      LowAll(x / 2, n - 1);
    }
  }

  lemma {:induction false} ShrBeyond(x: nat, n: nat)
    requires x < Pow2(n)
    ensures Shr(x, n) == 0
  {
    if n > 0 {
      ShrBeyond(x / 2, n - 1);
    }
  }

  /** `SHIFTR(x, n, s)`: `(x >> s) & MASK(n)`. */
  function Field(x: nat, n: nat, s: nat): nat {
    And(Shr(x, s), Pow2(n) - 1)
  }

  lemma FieldIsLow(x: nat, n: nat, s: nat)
    ensures Field(x, n, s) == Low(Shr(x, s), n)
  {
    AndOnes(Shr(x, s), n);
  }

  /** Or-ing works separately above and below bit n. */
  lemma {:induction false} OrScaled(high: nat, bit: nat, low: nat, n: nat)
    requires low < Pow2(n)
    ensures Or(Scale(high, n) + low, Scale(bit, n)) == Scale(Or(high, bit), n) + low
  {
    if n > 0 {
      OrScaled(high, bit, low / 2, n - 1);
      if Scale(high, n) + low == 0 && Scale(bit, n) == 0 {
        ScaleOfZero(n);
      }
    }
  }

  lemma {:induction false} ScaleShift(x: nat, m: nat, n: nat)
    ensures Scale(Scale(x, m), n) == Scale(x, m + n)
  {
    if n > 0 {
      ScaleShift(x, m, n - 1);
    }
  }

  lemma {:induction false} ScaleAdds(a: nat, b: nat, n: nat)
    ensures Scale(a + b, n) == Scale(a, n) + Scale(b, n)
  {
    if n > 0 {
      ScaleAdds(a, b, n - 1);
    }
  }

  // ---------------------------------------------------------------- single-bit tests and flips

  /** `x ^ (1 << j)` toggles bit j and no other. */
  lemma FlipBit(x: nat, j: nat, k: nat)
    ensures Bit(Xor(x, Pow2(j)), k) <==> (if k == j then !Bit(x, k) else Bit(x, k))
  {
    XorBit(x, Pow2(j), k);
    Pow2Bit(j, k);
  }

  /** `x & (1 << j)` is non-zero exactly when bit j is set. */
  lemma TestBit(x: nat, j: nat)
    ensures And(x, Pow2(j)) != 0 <==> Bit(x, j)
  {
    AndBit(x, Pow2(j), j);
    Pow2Bit(j, j);
    BitOfZero(j);
    if And(x, Pow2(j)) != 0 && !Bit(x, j) {
      var r := And(x, Pow2(j));
      forall k: nat ensures !Bit(r, k) {
        AndBit(x, Pow2(j), k);
        Pow2Bit(j, k);
      }
      NonZeroHasBit(r);
      assert false;
    }
  }

  lemma {:induction false} NonZeroHasBit(x: nat)
    requires x > 0
    ensures exists k: nat :: Bit(x, k)
  {
    if x % 2 == 1 {
      assert Bit(x, 0);
    } else {
      NonZeroHasBit(x / 2);
      var k: nat :| Bit(x / 2, k);
      assert Bit(x, k + 1);
    }
  }

  ghost predicate FullWord(w: Word) {
    forall j: nat | j < 64 :: Bit(w, j)
  }

  /** A 64-bit word is all ones exactly when none of its bits is clear. */
  lemma AllOnes(w: Word)
    ensures w == WORD_LIMIT - 1 <==> FullWord(w)
  {
    Pow2Values();
    var ones := Pow2(64) - 1;
    if w == ones {
      forall j: nat | j < 64 ensures Bit(w, j) {
        OnesBit(64, j);
      }
    } else if FullWord(w) {
      forall j: nat | j < 64 ensures Bit(w, j) == Bit(ones, j) {
        OnesBit(64, j);
      }
      BitsDetermine(w, ones, 64);
    }
  }
}
