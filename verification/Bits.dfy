/** Bit-level integer operators as the address code uses them, on unbounded
    naturals, and what they mean on masks of consecutive ones. */
module Bits {

  function Pow2(k: nat): (p: nat)
    ensures p >= 1
  {
    if k == 0 then 1 else 2 * Pow2(k - 1)
  }

  lemma {:induction false} Pow2Mono(a: nat, b: nat)
    requires a < b
    ensures 2 * Pow2(a) <= Pow2(b)
  {
    if a + 1 < b { Pow2Mono(a, b - 1); }
  }

  lemma Pow2Order(a: nat, b: nat)
    ensures Pow2(a) <= Pow2(b) <==> a <= b
    ensures Pow2(a) == Pow2(b) <==> a == b
  {
    if a < b { Pow2Mono(a, b); } else if b < a { Pow2Mono(b, a); }
  }

  // ----- multiples of powers of two

  /** The low k bits of a are zero: a is a multiple of 2^k (AlignedMeans). */
  predicate Aligned(a: nat, k: nat) {
    k == 0 || (a % 2 == 0 && Aligned(a / 2, k - 1))
  }

  function Shl(a: nat, k: nat): nat {
    if k == 0 then a else 2 * Shl(a, k - 1)
  }

  function Shr(a: nat, k: nat): nat {
    if k == 0 then a else Shr(a / 2, k - 1)
  }

  lemma {:induction false} ShlMeans(a: nat, k: nat)
    ensures Shl(a, k) == a * Pow2(k)
  {
    if k > 0 {
      ShlMeans(a, k - 1);
      MulTwo(a, Pow2(k - 1));
    }
  }

  lemma MulTwo(a: nat, p: nat)
    ensures 2 * (a * p) == a * (2 * p)
  {}

  lemma {:induction false} ShrMeans(a: nat, k: nat)
    ensures Shr(a, k) == a / Pow2(k)
  {
    if k > 0 {
      ShrMeans(a / 2, k - 1);
      DivTwice(a, Pow2(k - 1));
    }
  }

  lemma DivTwice(a: nat, p: nat)
    requires p > 0
    ensures a / 2 / p == a / (2 * p)
  {
    var q, r := a / 2 / p, a / 2 % p;
    assert a / 2 == q * p + r;
    MulTwo(q, p);
    DivUnique(a, 2 * p, q, 2 * r + a % 2);
  }

  lemma DivUnique(n: nat, d: nat, q: nat, r: nat)
    requires r < d && n == q * d + r
    ensures n / d == q && n % d == r
  {
    var q', r' := n / d, n % d;
    assert n == q' * d + r';
    if q' < q { MulMono(q' + 1, q, d); }
    if q < q' { MulMono(q + 1, q', d); }
  }

  lemma MulMono(a: nat, b: nat, d: nat)
    requires a <= b
    ensures a * d <= b * d
  {}

  lemma AlignedMeans(a: nat, k: nat)
    ensures Aligned(a, k) <==> exists q: nat :: a == Shl(q, k)
  {
    if Aligned(a, k) { var q := Quotient(a, k); }
    forall q: nat | a == Shl(q, k) ensures Aligned(a, k) { ShlAligned(q, k); }
  }

  lemma {:induction false} Quotient(a: nat, k: nat) returns (q: nat)
    requires Aligned(a, k)
    ensures a == Shl(q, k)
  {
    if k == 0 { q := a; } else { q := Quotient(a / 2, k - 1); }
  }

  lemma {:induction false} ShlAligned(a: nat, k: nat)
    ensures Aligned(Shl(a, k), k)
  {
    if k > 0 {
      ShlAligned(a, k - 1);
      var s := Shl(a, k - 1);
      assert Shl(a, k) == 2 * s;
      assert 2 * s / 2 == s;
    }
  }

  lemma {:induction false} ShlPow2(j: nat, k: nat)
    ensures Shl(Pow2(j), k) == Pow2(j + k)
    ensures Shr(Pow2(j + k), k) == Pow2(j)
  {
    if k > 0 { ShlPow2(j, k - 1); }
  }

  lemma {:induction false} ShlLinear(a: nat, b: nat, k: nat)
    ensures Shl(a + b, k) == Shl(a, k) + Shl(b, k)
    ensures Shl(0, k) == 0 && Shl(1, k) == Pow2(k)
    ensures a <= b ==> Shl(a, k) <= Shl(b, k)
    ensures a < b ==> Shl(a, k) + Pow2(k) <= Shl(b, k)
  {
    if k > 0 { ShlLinear(a, b, k - 1); }
  }

  /** An aligned number is aligned for every smaller power. */
  lemma {:induction false} AlignedDown(a: nat, k: nat, j: nat)
    requires j <= k && Aligned(a, k)
    ensures Aligned(a, j)
  {
    if j > 0 { AlignedDown(a / 2, k - 1, j - 1); }
  }

  lemma {:induction false} AlignedAdd(a: nat, b: nat, k: nat)
    requires Aligned(a, k) && Aligned(b, k)
    ensures Aligned(a + b, k)
    ensures a >= b ==> Aligned(a - b, k)
  {
    if k > 0 {
      AlignedAdd(a / 2, b / 2, k - 1);
      assert (a + b) / 2 == a / 2 + b / 2;
      if a >= b { assert (a - b) / 2 == a / 2 - b / 2; }
    }
  }

  lemma {:induction false} AlignedPow2(j: nat, k: nat)
    requires k <= j
    ensures Aligned(Pow2(j), k)
  {
    if k > 0 {
      AlignedPow2(j - 1, k - 1);
      assert Pow2(j) == 2 * Pow2(j - 1);
    }
  }

  /** Two distinct multiples of 2^k are at least 2^k apart. */
  lemma {:induction false} AlignedGap(a: nat, b: nat, k: nat)
    requires Aligned(a, k) && Aligned(b, k) && a < b
    ensures a + Pow2(k) <= b
  {
    if k > 0 { AlignedGap(a / 2, b / 2, k - 1); }
  }

  /** One more bit below an aligned number. */
  lemma AlignedTwice(x: nat, k: nat)
    ensures Aligned(2 * x, k + 1) <==> Aligned(x, k)
    ensures !Aligned(2 * x + 1, k + 1)
  {
    assert 2 * x / 2 == x && 2 * x % 2 == 0 && (2 * x + 1) % 2 == 1;
  }

  lemma AlignedHalf(a: nat, k: nat) returns (x: nat)
    requires Aligned(a, k + 1)
    ensures a == 2 * x && Aligned(x, k)
  {
    x := a / 2;
  }

  /** A multiple of 2^k either is one of 2^(k+1) or lies halfway between two. */
  lemma {:induction false} AlignedNextBit(a: nat, k: nat)
    requires Aligned(a, k)
    ensures Aligned(a, k + 1) || (Aligned(a + Pow2(k), k + 1) && a >= Pow2(k) && Aligned(a - Pow2(k), k + 1))
    ensures Aligned(a, k + 1) ==> !Aligned(a + Pow2(k), k + 1)
  {
    if k == 0 {
      NextUnit(a);
    } else {
      var x := AlignedHalf(a, k - 1);
      var p := Pow2(k - 1);
      assert Pow2(k) == 2 * p;
      AlignedNextBit(x, k - 1);
      AlignedTwice(x, k);
      AlignedTwice(x + p, k);
      if x >= p { AlignedTwice(x - p, k); }
    }
  }

  lemma NextUnit(a: nat)
    ensures Pow2(0) == 1
    ensures Aligned(a, 1) || (Aligned(a + 1, 1) && a >= 1 && Aligned(a - 1, 1))
    ensures Aligned(a, 1) ==> !Aligned(a + 1, 1)
  {
    var x := a / 2;
    AlignedTwice(x, 0);
    AlignedTwice(x + 1, 0);
    assert a == 2 * x || a == 2 * x + 1;
  }

  /** The multiple of 2^k at or just below a. */
  function RoundDown(a: nat, k: nat): (r: nat)
    ensures r <= a < r + Pow2(k)
    ensures Aligned(r, k)
  {
    if k == 0 then a else 2 * RoundDown(a / 2, k - 1)
  }

  // ----- the bitwise operators

  function And(a: nat, b: nat): nat {
    if a == 0 || b == 0 then 0
    else (if a % 2 == 1 && b % 2 == 1 then 1 else 0) + 2 * And(a / 2, b / 2)
  }

  function Or(a: nat, b: nat): nat
    decreases a + b
  {
    if a == 0 then b else if b == 0 then a
    else (if a % 2 == 1 || b % 2 == 1 then 1 else 0) + 2 * Or(a / 2, b / 2)
  }

  function Xor(a: nat, b: nat): nat
    decreases a + b
  {
    if a == 0 then b else if b == 0 then a
    else (if a % 2 != b % 2 then 1 else 0) + 2 * Xor(a / 2, b / 2)
  }

  /** a & ~b, the complement taken over infinitely many bits. */
  function AndNot(a: nat, b: nat): nat {
    if a == 0 then 0
    else (if a % 2 == 1 && b % 2 == 0 then 1 else 0) + 2 * AndNot(a / 2, b / 2)
  }

  function BitLength(n: nat): nat {
    if n == 0 then 0 else 1 + BitLength(n / 2)
  }

  /** The source's bit trick for trailing zeros: the length of ~n & (n - 1). */
  function CountRighthandZeroBits(number: nat, bits: nat): nat {
    if number == 0 then bits
    else
      var len := BitLength(AndNot(number - 1, number));
      if bits <= len then bits else len
  }

  // ----- what the operators mean

  lemma {:induction false} BitLengthBounds(n: nat)
    requires n > 0
    ensures BitLength(n) >= 1 && Pow2(BitLength(n) - 1) <= n < Pow2(BitLength(n))
  {
    if n > 1 { BitLengthBounds(n / 2); }
  }

  lemma {:induction false} BitLengthOfOnes(k: nat)
    ensures BitLength(Pow2(k) - 1) == k
  {
    if k > 0 {
      BitLengthOfOnes(k - 1);
      assert (Pow2(k) - 1) / 2 == Pow2(k - 1) - 1;
    }
  }

  lemma {:induction false} AndNotSelf(a: nat)
    ensures AndNot(a, a) == 0
  {
    if a > 0 { AndNotSelf(a / 2); }
  }

  lemma {:induction false} TrailingOnes(n: nat) returns (t: nat)
    requires n > 0
    ensures AndNot(n - 1, n) == Pow2(t) - 1
    ensures Aligned(n, t) && !Aligned(n, t + 1)
  {
    if n % 2 == 1 {
      assert (n - 1) / 2 == n / 2;
      AndNotSelf(n / 2);
      assert Pow2(1) == 2;
      t := 0;
    } else {
      var s := TrailingOnes(n / 2);
      assert (n - 1) / 2 == n / 2 - 1;
      t := s + 1;
    }
  }

  lemma {:induction false} ZeroAligned(k: nat)
    ensures Aligned(0, k)
  {
    if k > 0 { ZeroAligned(k - 1); }
  }

  /** The bit trick counts the trailing zeros: for a non-zero number it is the
      largest power of two dividing it, cut off at `bits`. */
  lemma CountsTrailingZeros(number: nat, bits: nat, k: nat)
    ensures var z := CountRighthandZeroBits(number, bits);
            z <= bits && (k <= z <==> k <= bits && Aligned(number, k))
  {
    var z := CountRighthandZeroBits(number, bits);
    if number == 0 {
      ZeroAligned(k);
    } else {
      var t := TrailingOnes(number);
      BitLengthOfOnes(t);
      if k <= t { AlignedDown(number, t, k); }
      if k > t && Aligned(number, k) { AlignedDown(number, k, t + 1); }
    }
  }

  /** The operators on numbers given by their last bit and the rest. */
  lemma XorBits(a: nat, b: nat, x: nat, i: nat, y: nat, j: nat)
    requires i <= 1 && j <= 1 && a == 2 * x + i && b == 2 * y + j
    ensures Xor(a, b) == (if i != j then 1 else 0) + 2 * Xor(x, y)
  {
    assert a / 2 == x && a % 2 == i && b / 2 == y && b % 2 == j;
  }

  lemma AndBits(a: nat, b: nat, x: nat, i: nat, y: nat, j: nat)
    requires i <= 1 && j <= 1 && a == 2 * x + i && b == 2 * y + j
    ensures And(a, b) == (if i == 1 && j == 1 then 1 else 0) + 2 * And(x, y)
  {
    assert a / 2 == x && a % 2 == i && b / 2 == y && b % 2 == j;
  }

  /** The masks of a prefix and of its hosts, by exclusive or with all ones. */
  lemma XorOnes(w: nat, h: nat)
    requires h <= w
    ensures Xor(Pow2(w) - 1, Pow2(h) - 1) == Pow2(w) - Pow2(h)
    ensures Pow2(h) <= Pow2(w) && Xor(Pow2(w) - Pow2(h), Pow2(w) - 1) == Pow2(h) - 1
  {
    Pow2Order(h, w);
    XorLowOnes(w, h);
    XorHighOnes(w, h);
  }

  lemma {:induction false} XorLowOnes(w: nat, h: nat)
    requires h <= w
    ensures Xor(Pow2(w) - 1, Pow2(h) - 1) == Pow2(w) - Pow2(h)
  {
    if h == 0 {
      assert Pow2(h) == 1;
    } else {
      XorLowOnes(w - 1, h - 1);
      Pow2Order(h - 1, w - 1);
      XorLowStep(Pow2(w) - 1, Pow2(h) - 1, Pow2(w - 1) - 1, Pow2(h - 1) - 1);
    }
  }

  lemma XorLowStep(a: nat, b: nat, x: nat, y: nat)
    requires a == 2 * x + 1 && b == 2 * y + 1 && y <= x && Xor(x, y) == x - y
    ensures Xor(a, b) == a - b
  {
    XorBits(a, b, x, 1, y, 1);
  }

  lemma {:induction false} XorHighOnes(w: nat, h: nat)
    requires h <= w
    ensures Pow2(h) <= Pow2(w) && Xor(Pow2(w) - Pow2(h), Pow2(w) - 1) == Pow2(h) - 1
  {
    if h == 0 {
      XorWithOnesFromZero(w);
    } else {
      XorHighOnes(w - 1, h - 1);
      Pow2Order(h - 1, w - 1);
      XorHighStep(Pow2(w) - Pow2(h), Pow2(w) - 1, Pow2(w - 1) - Pow2(h - 1), Pow2(w - 1) - 1);
    }
  }

  lemma XorHighStep(a: nat, b: nat, x: nat, y: nat)
    requires a == 2 * x && b == 2 * y + 1 && x <= y && Xor(x, y) == y - x
    ensures Xor(a, b) == b - a
  {
    XorBits(a, b, x, 0, y, 1);
  }

  lemma {:induction false} XorWithOnesFromZero(w: nat)
    ensures Xor(Pow2(w) - 1, Pow2(w) - 1) == 0
  {
    if w > 0 {
      XorWithOnesFromZero(w - 1);
      assert (Pow2(w) - 1) / 2 == Pow2(w - 1) - 1;
    }
  }

  lemma {:induction false} ShrOnes(w: nat, p: nat)
    requires p <= w
    ensures Shr(Pow2(w) - 1, p) == Pow2(w - p) - 1
  {
    if p > 0 {
      assert (Pow2(w) - 1) / 2 == Pow2(w - 1) - 1;
      ShrOnes(w - 1, p - 1);
    }
  }

  /** Adding the host bits below an aligned address. */
  lemma {:induction false} OrHostBits(a: nat, h: nat)
    requires Aligned(a, h)
    ensures Or(a, Pow2(h) - 1) == a + Pow2(h) - 1
  {
    if h > 0 {
      OrHostBits(a / 2, h - 1);
      assert (Pow2(h) - 1) / 2 == Pow2(h - 1) - 1;
    }
  }

  lemma {:induction false} AndOnes(a: nat, j: nat)
    requires a < Pow2(j)
    ensures And(a, Pow2(j) - 1) == a
  {
    if j > 0 {
      var p := Pow2(j - 1);
      assert Pow2(j) == 2 * p;
      AndOnes(a / 2, j - 1);
      AndBits(a, Pow2(j) - 1, a / 2, a % 2, p - 1, 1);
    }
  }

  /** Masking with the ones from bit k up to bit n rounds down to a multiple of
      2^k. */
  lemma {:induction false} AndHighMask(a: nat, n: nat, k: nat)
    requires k <= n && a < Pow2(n)
    ensures Pow2(k) <= Pow2(n)
    ensures And(a, Pow2(n) - Pow2(k)) == RoundDown(a, k)
  {
    Pow2Order(k, n);
    if k == 0 {
      AndOnes(a, n);
    } else {
      AndHighMask(a / 2, n - 1, k - 1);
      AndEven(a, Pow2(n - 1) - Pow2(k - 1));
    }
  }

  lemma AndEven(a: nat, m: nat)
    ensures And(a, 2 * m) == 2 * And(a / 2, m)
  {
    AndBits(a, 2 * m, a / 2, a % 2, m, 0);
  }

  /** A mask of high ones, shifted, is again one. */
  lemma ShiftedMask(w: nat, h: nat, d: nat)
    requires h <= w
    ensures Pow2(h) <= Pow2(w) && Pow2(h + d) <= Pow2(w + d)
    ensures Shl(Pow2(w) - Pow2(h), d) == Pow2(w + d) - Pow2(h + d)
  {
    Pow2Order(h, w);
    Pow2Order(h + d, w + d);
    ShlLinear(Pow2(w) - Pow2(h), Pow2(h), d);
    ShlPow2(w, d);
    ShlPow2(h, d);
  }

  lemma AndShiftedMask(w: nat, h: nat, d: nat, a: nat)
    requires h <= w && a < Pow2(w)
    ensures Pow2(h) <= Pow2(w)
    ensures And(a, Shl(Pow2(w) - Pow2(h), d)) == RoundDown(a, h + d)
  {
    ShiftedMask(w, h, d);
    Pow2Order(w, w + d);
    AndHighMask(a, w + d, h + d);
  }
}
