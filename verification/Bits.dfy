/** Unsigned machine words as natural numbers: the bitwise operators of C are
    defined bit by bit, and the mask idioms the source uses are proved equal to
    division, remainder and addition.
  */
module Bits {

  const WORD32: nat := 0x1_0000_0000
  const WORD64: nat := 0x1_0000_0000_0000_0000

  /** A 64-bit word, the range of a uint64_t. */
  type u64 = x: nat | x < WORD64

  /** A 32-bit word, the range of a uint32_t. */
  type u32 = x: nat | x < WORD32

  /** A byte, the range of a uint8_t. */
  type byte = x: nat | x < 256

  /** Unsigned 64-bit subtraction. */
  function Sub64(a: u64, b: u64): (r: u64)
    ensures r == if b <= a then a - b else a + WORD64 - b
  {
    (a + WORD64 - b) % WORD64
  }

  /** A sum of 64-bit words, truncated. */
  function Wrap64(x: nat): (r: u64)
    ensures x < WORD64 ==> r == x
  {
    x % WORD64
  }

  function Pow2(n: nat): (r: nat)
    ensures r > 0
  {
    if n == 0 then 1 else 2 * Pow2(n - 1)
  }

  /** Bitwise `x & y`. */
  function And(x: nat, y: nat): (r: nat)
    ensures r <= x && r <= y
  {
    if x == 0 || y == 0 then 0
    else (if x % 2 == 1 && y % 2 == 1 then 1 else 0) + 2 * And(x / 2, y / 2)
  }

  /** Bitwise `x | y`. */
  function Or(x: nat, y: nat): nat {
    if x == 0 then y
    else if y == 0 then x
    else (if x % 2 == 1 || y % 2 == 1 then 1 else 0) + 2 * Or(x / 2, y / 2)
  }

  /** Bitwise `x ^ y`. */
  function Xor(x: nat, y: nat): nat
    decreases x + y
  {
    if x == 0 then y
    else if y == 0 then x
    else (if x % 2 != y % 2 then 1 else 0) + 2 * Xor(x / 2, y / 2)
  }

  // ---------------------------------------------------------------- division

  /** Quotient and remainder are the only such decomposition. */
  lemma DivModUnique(x: int, m: int, q: int, r: int)
    requires m > 0 && 0 <= r < m && x == m * q + r
    ensures x / m == q && x % m == r
  {
    var q', r' := x / m, x % m;
    assert m * (q - q') == r' - r;
    if q > q' {
      MulLower(m, q - q');
      assert false;
    } else if q < q' {
      MulLower(m, q' - q);
      assert false;
    }
  }

  lemma MulLower(m: int, k: int)
    requires m > 0 && k >= 1
    ensures m * k >= m
  {
  }

  /** Moving a whole number of `m`s out of a remainder. */
  lemma ModShift(x: int, m: int, k: int)
    requires m > 0
    ensures (x + m * k) % m == x % m
    ensures (x + m * k) / m == x / m + k
  {
    assert x + m * k == m * (x / m + k) + x % m;
    DivModUnique(x + m * k, m, x / m + k, x % m);
  }

  /** Splitting off the lowest bit of a remainder. */
  lemma ModSplit(x: nat, m: nat)
    requires m > 0
    ensures x % (2 * m) == x % 2 + 2 * ((x / 2) % m)
  {
    var h := x / 2;
    assert x == (2 * m) * (h / m) + (x % 2 + 2 * (h % m)) by {
      assert h == m * (h / m) + h % m;
      assert 2 * h == (2 * m) * (h / m) + 2 * (h % m);
    }
    DivModUnique(x, 2 * m, h / m, x % 2 + 2 * (h % m));
  }

  /** Dividing twice is dividing by the product. */
  lemma DivDiv(x: nat, a: nat, b: nat)
    requires a > 0 && b > 0
    ensures a * b > 0
    ensures (x / a) / b == x / (a * b)
    ensures x % (a * b) == a * ((x / a) % b) + x % a
  {
    var q := x / a;
    assert a * b >= a by { MulLower(a, b); }
    assert x == (a * b) * (q / b) + (a * (q % b) + x % a) by {
      assert q == b * (q / b) + q % b;
      assert a * q == a * (b * (q / b)) + a * (q % b);
      assert a * (b * (q / b)) == (a * b) * (q / b);
    }
    assert a * (q % b) <= a * (b - 1);
    DivModUnique(x, a * b, q / b, a * (q % b) + x % a);
  }

  // ------------------------------------------------------------------- masks

  lemma Pow2Double(n: nat)
    requires n > 0
    ensures Pow2(n) == 2 * Pow2(n - 1)
  {
  }

  lemma {:induction false} Pow2Mono(a: nat, b: nat)
    requires a <= b
    ensures Pow2(a) <= Pow2(b)
  {
    if a < b { Pow2Mono(a, b - 1); }
  }

  lemma {:induction false} Pow2Add(a: nat, b: nat)
    ensures Pow2(a + b) == Pow2(a) * Pow2(b)
  {
    if a > 0 { Pow2Add(a - 1, b); }
  }

  /** The powers of two that sizes and masks are made of. */
  lemma Pow2Values()
    ensures Pow2(8) == 0x100 && Pow2(12) == 0x1000 && Pow2(13) == 0x2000 && Pow2(15) == 0x8000
    ensures Pow2(16) == 0x1_0000 && Pow2(20) == 0x10_0000 && Pow2(21) == 0x20_0000
    ensures Pow2(29) == 0x2000_0000 && Pow2(30) == 0x4000_0000 && Pow2(31) == 0x8000_0000
    ensures Pow2(32) == WORD32 && Pow2(33) == 2 * WORD32 && Pow2(52) == 0x10_0000_0000_0000 && Pow2(64) == WORD64
  {
    assert Pow2(1) == 2 && Pow2(3) == 8 && Pow2(8) == 256;
    Pow2Add(8, 8);
    Pow2Add(16, 16);
    Pow2Add(32, 32);
    assert Pow2(4) == 16;
    hide Pow2;
    Pow2Add(8, 4);
    Pow2Add(12, 1);
    Pow2Add(12, 3);
    Pow2Add(12, 8);
    Pow2Add(20, 1);
    Pow2Add(21, 8);
    Pow2Add(29, 1);
    Pow2Add(30, 1);
    Pow2Add(32, 1);
    Pow2Add(32, 20);
  }

  /** The lowest `k` bits of a word. */
  function Low(x: nat, k: nat): nat {
    if k == 0 then 0 else x % 2 + 2 * Low(x / 2, k - 1)
  }

  lemma {:induction false} LowIsMod(x: nat, k: nat)
    ensures Low(x, k) == x % Pow2(k)
  {
    if k == 0 {
      assert x % 1 == 0;
    } else {
      LowIsMod(x / 2, k - 1);
      ModSplit(x, Pow2(k - 1));
    }
  }

  lemma AndEven(x: nat, m: nat)
    ensures And(x, 2 * m) == 2 * And(x / 2, m)
  {
    assert (2 * m) / 2 == m && (2 * m) % 2 == 0;
  }

  lemma AndOdd(x: nat, m: nat)
    ensures And(x, 2 * m + 1) == x % 2 + 2 * And(x / 2, m)
  {
    assert (2 * m + 1) / 2 == m && (2 * m + 1) % 2 == 1;
  }

  lemma {:induction false} AndLowBits(x: nat, k: nat)
    ensures And(x, Pow2(k) - 1) == Low(x, k)
  {
    hide And;
    if k == 0 {
    } else {
      AndLowBits(x / 2, k - 1);
      AndOdd(x, Pow2(k - 1) - 1);
    }
  }

  lemma {:induction false} AndFieldBits(x: nat, k: nat, n: nat)
    requires k <= n
    ensures Pow2(k) <= Pow2(n)
    ensures And(x, Pow2(n) - Pow2(k)) == Low(x, n) - Low(x, k)
  {
    hide And;
    Pow2Mono(k, n);
    if k == 0 {
      AndLowBits(x, n);
    } else {
      AndFieldBits(x / 2, k - 1, n - 1);
      AndEven(x, Pow2(n - 1) - Pow2(k - 1));
    }
  }

  /** `x & (2^k - 1)` is the remainder of `x` by `2^k`. */
  lemma AndLowMask(x: nat, k: nat)
    ensures And(x, Pow2(k) - 1) == x % Pow2(k)
  {
    AndLowBits(x, k);
    LowIsMod(x, k);
  }

  /** Masking with bits `k .. n-1` keeps exactly that field in place. */
  lemma AndField(x: nat, k: nat, n: nat)
    requires k <= n
    ensures Pow2(k) <= Pow2(n)
    ensures And(x, Pow2(n) - Pow2(k)) == x % Pow2(n) - x % Pow2(k)
  {
    AndFieldBits(x, k, n);
    LowIsMod(x, k);
    LowIsMod(x, n);
  }

  /** A field of a word is a multiple of the field's lowest bit. */
  lemma FieldAligned(x: nat, k: nat, n: nat)
    requires k <= n
    ensures Pow2(k) <= Pow2(n)
    ensures 0 <= x % Pow2(n) - x % Pow2(k) < Pow2(n)
    ensures (x % Pow2(n) - x % Pow2(k)) % Pow2(k) == 0
  {
    Pow2Mono(k, n);
    Pow2Add(k, n - k);
    ModAligned(x, Pow2(k), Pow2(n - k));
  }

  lemma ModAligned(x: nat, a: nat, b: nat)
    requires a > 0 && b > 0
    ensures a * b > 0
    ensures 0 <= x % (a * b) - x % a < a * b
    ensures (x % (a * b) - x % a) % a == 0
  {
    DivDiv(x, a, b);
    var q := (x / a) % b;
    DivModUnique(a * q, a, q, 0);
  }

  /** Joining an aligned word with a short one adds them. */
  lemma {:induction false} OrAligned(x: nat, y: nat, k: nat)
    requires x % Pow2(k) == 0 && y < Pow2(k)
    ensures Or(x, y) == x + y
  {
    if k > 0 && x > 0 && y > 0 {
      ModSplit(x, Pow2(k - 1));
      OrAligned(x / 2, y / 2, k - 1);
    }
  }

  /** A field of one word joined with the low bits of another. */
  lemma FieldOr(x: nat, y: nat, k: nat, n: nat)
    requires k <= n
    ensures Pow2(k) <= Pow2(n)
    ensures Or(And(x, Pow2(n) - Pow2(k)), And(y, Pow2(k) - 1)) == x % Pow2(n) - x % Pow2(k) + y % Pow2(k)
  {
    FieldAligned(x, k, n);
    AndField(x, k, n);
    AndLowMask(y, k);
    OrAligned(x % Pow2(n) - x % Pow2(k), y % Pow2(k), k);
  }

  // ------------------------------------------------------------- single bits

  function Bit(x: nat, k: nat): nat {
    x / Pow2(k) % 2
  }

  lemma OrUnfold(x: nat, y: nat)
    ensures Or(x, y) == (if x % 2 == 1 || y % 2 == 1 then 1 else 0) + 2 * Or(x / 2, y / 2)
  {
  }

  lemma BitHalf(x: nat, k: nat)
    requires k > 0
    ensures Bit(x, k) == Bit(x / 2, k - 1)
  {
    DivDiv(x, 2, Pow2(k - 1));
  }

  /** A bit of a union is set when it is set on either side. */
  lemma {:induction false} OrBit(x: nat, y: nat, k: nat)
    ensures Bit(Or(x, y), k) == if Bit(x, k) == 1 || Bit(y, k) == 1 then 1 else 0
  {
    OrUnfold(x, y);
    hide Or;
    if k == 0 {
      assert forall z: nat :: z / 1 == z;
    } else {
      OrBit(x / 2, y / 2, k - 1);
      BitHalf(x, k);
      BitHalf(y, k);
      BitHalf(Or(x, y), k);
    }
  }

  lemma AndUnfold(x: nat, y: nat)
    ensures And(x, y) == (if x % 2 == 1 && y % 2 == 1 then 1 else 0) + 2 * And(x / 2, y / 2)
  {
  }

  lemma BitZero(x: nat)
    ensures Bit(x, 0) == x % 2
  {
  }

  /** A bit of an intersection is set when it is set on both sides. */
  lemma {:induction false} BitAnd(x: nat, y: nat, k: nat)
    ensures Bit(And(x, y), k) == if Bit(x, k) == 1 && Bit(y, k) == 1 then 1 else 0
  {
    AndUnfold(x, y);
    hide And, Bit;
    if k == 0 {
      BitZero(x);
      BitZero(y);
      BitZero(And(x, y));
    } else {
      BitAnd(x / 2, y / 2, k - 1);
      BitHalf(x, k);
      BitHalf(y, k);
      BitHalf(And(x, y), k);
    }
  }

  lemma {:induction false} BitOfPow2(n: nat, k: nat)
    ensures Bit(Pow2(n), k) == if k == n then 1 else 0
    decreases n
  {
    hide Bit;
    if k == 0 {
      BitZero(Pow2(n));
    } else {
      BitHalf(Pow2(n), k);
      if n > 0 {
        BitOfPow2(n - 1, k - 1);
      } else {
        NoBits(k - 1);
      }
    }
  }

  lemma NoBits(k: nat)
    ensures Bit(0, k) == 0
  {
  }

  lemma {:induction false} OrComm(x: nat, y: nat)
    ensures Or(x, y) == Or(y, x)
  {
    if x > 0 && y > 0 { OrComm(x / 2, y / 2); }
  }

  /** Setting a clear bit adds it. */
  lemma {:induction false} OrSetBit(x: nat, k: nat)
    requires Bit(x, k) == 0
    ensures Or(x, Pow2(k)) == x + Pow2(k)
  {
    OrUnfold(x, Pow2(k));
    hide Or;
    if k == 0 {
      assert x / 1 == x;
      OrZero(x / 2);
    } else {
      BitHalf(x, k);
      OrSetBit(x / 2, k - 1);
    }
  }

  lemma OrZero(x: nat)
    ensures Or(x, 0) == x
  {
  }

  /** Testing a bit by masking. */
  lemma AndBit(x: nat, k: nat)
    ensures And(x, Pow2(k)) == Pow2(k) * Bit(x, k)
  {
    AndField(x, k, k + 1);
    DivDiv(x, Pow2(k), 2);
    hide And;
  }

  // --------------------------------------------------------------------- xor

  lemma {:induction false} XorBound(x: nat, y: nat, k: nat)
    requires x < Pow2(k) && y < Pow2(k)
    ensures Xor(x, y) < Pow2(k)
  {
    if k > 0 && x > 0 && y > 0 { XorBound(x / 2, y / 2, k - 1); }
  }

  /** Xor with the same word twice gives the word back, on either side. */
  lemma {:induction false} XorCancel(x: nat, y: nat)
    ensures Xor(Xor(x, y), y) == x
    ensures Xor(x, Xor(x, y)) == y
    decreases x + y
  {
    if x == 0 {
      XorSelf(y);
    } else if y == 0 {
      XorSelf(x);
    } else {
      XorCancel(x / 2, y / 2);
      var low := if x % 2 != y % 2 then 1 else 0;
      var z := Xor(x, y);
      assert z % 2 == low && z / 2 == Xor(x / 2, y / 2);
      XorUnfold(z, y);
      XorUnfold(x, z);
    }
  }

  lemma {:induction false} XorSelf(x: nat)
    ensures Xor(x, x) == 0
  {
    if x > 0 { XorSelf(x / 2); }
  }

  /** Xor with a low word leaves the bits above it alone. */
  lemma {:induction false} XorLow(q: nat, l: nat, b: nat, k: nat)
    requires l < Pow2(k) && b < Pow2(k)
    ensures Xor(Pow2(k) * q + l, b) == Pow2(k) * q + Xor(l, b)
  {
    hide Xor;
    if k > 0 {
      var a := Pow2(k - 1) * q;
      var x := Pow2(k) * q + l;
      DoubleTimes(Pow2(k - 1), q);
      XorLow(q, l / 2, b / 2, k - 1);
      XorUnfold(x, b);
      XorUnfold(l, b);
    } else {
      XorZero(q);
      XorZero(0);
      assert Pow2(k) * q + l == q && b == 0;
    }
  }

  lemma XorZero(q: nat)
    ensures Xor(q, 0) == q
  {
  }

  lemma DoubleTimes(p: nat, q: nat)
    ensures (2 * p) * q == 2 * (p * q)
  {
  }

  lemma XorUnfold(x: nat, y: nat)
    ensures Xor(x, y) == (if x % 2 != y % 2 then 1 else 0) + 2 * Xor(x / 2, y / 2)
  {
  }
}
