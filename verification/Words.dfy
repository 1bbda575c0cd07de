/**
 64-bit machine words, written as natural numbers below `U64_LIMIT`.

 `Bit` reads one binary digit; `And`, `Or`, `Xor` and `Not64` are the machine operators defined
 digit by digit; `1 << i` is `Pow2(i)` and `x >> i` is `x / Pow2(i)`.  The lemmas justify
 the bit tricks the bitmaps and the pager rely on.
 */
module Words {

  function Pow2(n: nat): (r: nat)
    ensures r >= 1
  {
    if n == 0 then 1 else 2 * Pow2(n - 1)
  }

  /** Exclusive upper bounds of 32-bit and 64-bit unsigned values. */
  const U32_LIMIT: nat := 0x1_0000_0000
  const U64_LIMIT: nat := 0x1_0000_0000_0000_0000

  type Byte = b: int | 0 <= b < 256

  predicate Bit(w: nat, i: nat)
    decreases i
  {
    if i == 0 then w % 2 == 1 else Bit(w / 2, i - 1)
  }

  function And(a: nat, b: nat): nat
    decreases a
  {
    if a == 0 || b == 0 then 0
    else 2 * And(a / 2, b / 2) + (if a % 2 == 1 && b % 2 == 1 then 1 else 0)
  }

  function Or(a: nat, b: nat): nat
    decreases a
  {
    if a == 0 then b
    else 2 * Or(a / 2, b / 2) + (if a % 2 == 1 || b % 2 == 1 then 1 else 0)
  }

  function Xor(a: nat, b: nat): nat
    decreases a
  {
    if a == 0 then b
    else 2 * Xor(a / 2, b / 2) + (if a % 2 != b % 2 then 1 else 0)
  }

  function Not64(w: nat): nat
    requires w < U64_LIMIT
  {
    U64_LIMIT - 1 - w
  }

  function TrailingZeros(w: nat): nat
    requires w > 0
  {
    if w % 2 == 1 then 0 else 1 + TrailingZeros(w / 2)
  }

  predicate IsPowerOfTwo(w: nat)
  {
    w == 1 || (w > 0 && w % 2 == 0 && IsPowerOfTwo(w / 2))
  }

  /** Number of units of size `b` needed to cover `a`; the last one may be partial. */
  function CeilDiv(a: nat, b: nat): nat
    requires b > 0
  {
    if a == 0 then 0 else if a <= b then 1 else 1 + CeilDiv(a - b, b)
  }

  // ---- single digits -------------------------------------------------------------------

  lemma {:induction false} BitOfZero(i: nat)
    ensures !Bit(0, i)
    decreases i
  {
    if i == 0 {
    } else {
      BitOfZero(i - 1);
    }
  }

  lemma {:induction false} BitAnd(a: nat, b: nat, i: nat)
    ensures Bit(And(a, b), i) <==> Bit(a, i) && Bit(b, i)
    decreases i
  {
    if a == 0 || b == 0 {
      BitOfZero(i);
    } else if i > 0 {
      BitAnd(a / 2, b / 2, i - 1);
    }
  }

  lemma {:induction false} BitOr(a: nat, b: nat, i: nat)
    ensures Bit(Or(a, b), i) <==> Bit(a, i) || Bit(b, i)
    decreases i
  {
    if a == 0 {
      BitOfZero(i);
    } else if i > 0 {
      BitOr(a / 2, b / 2, i - 1);
    }
  }

  lemma {:induction false} BitPow2(n: nat, i: nat)
    ensures Bit(Pow2(n), i) <==> i == n
    decreases i
  {
    if n == 0 {
      if i > 0 { BitOfZero(i - 1); }
    } else if i > 0 {
      BitPow2(n - 1, i - 1);
    }
  }

  lemma HalvesDecide(a: nat, h: nat, r: nat)
    requires a == 2 * h + r && r < 2
    ensures a / 2 == h && a % 2 == r
  {
  }

  lemma SameHalves(a: nat, b: nat)
    requires a / 2 == b / 2 && a % 2 == b % 2
    ensures a == b
  {
    assert a == 2 * (a / 2) + a % 2 && b == 2 * (b / 2) + b % 2;
  }

  /** The complement of `w` below `2 * h` has the complement of `w / 2` as its half, and the other parity. */
  lemma HalfComplement(h: nat, w: nat)
    requires w < 2 * h
    ensures w / 2 < h && (2 * h - 1 - w) / 2 == h - 1 - w / 2 && (2 * h - 1 - w) % 2 == 1 - w % 2
  {
    var q, r := w / 2, w % 2;
    assert w == 2 * q + r;
    HalvesDecide(2 * h - 1 - w, h - 1 - q, 1 - r);
  }

  /** Complementing the low `n` digits flips each of them. */
  lemma {:induction false} BitComplement(n: nat, w: nat, i: nat)
    requires w < Pow2(n) && i < n
    ensures Bit(Pow2(n) - 1 - w, i) <==> !Bit(w, i)
    decreases i
  {
    HalfComplement(Pow2(n - 1), w);
    if i == 0 {
    } else {
      BitComplement(n - 1, w / 2, i - 1);
    }
  }

  lemma {:induction false} NoBitsAbove(w: nat, n: nat, i: nat)
    requires w < Pow2(n) && n <= i
    ensures !Bit(w, i)
    decreases i
  {
    if n == 0 {
      BitOfZero(i);
    } else {
      NoBitsAbove(w / 2, n - 1, i - 1);
    }
  }

  /** Two words with the same digits are the same word. */
  lemma {:induction false} SameBits(a: nat, b: nat)
    requires forall i: nat :: Bit(a, i) == Bit(b, i)
    ensures a == b
    decreases a
  {
    assert Bit(a, 0) == Bit(b, 0);
    forall i: nat
      ensures Bit(a / 2, i) == Bit(b / 2, i)
    {
      assert Bit(a, i + 1) == Bit(b, i + 1);
    }
    if a == 0 {
      if b != 0 {
        assert Bit(b, TrailingZeros(b)) by { LowestBit(b); }
        BitOfZero(TrailingZeros(b));
      }
    } else {
      SameBits(a / 2, b / 2);
    }
  }

  /** `w & (1 << i)` tests digit `i`. */
  lemma TestMask(w: nat, i: nat)
    ensures And(w, Pow2(i)) == 0 <==> !Bit(w, i)
  {
    BitAnd(w, Pow2(i), i);
    BitPow2(i, i);
    if !Bit(w, i) {
      forall j: nat
        ensures Bit(And(w, Pow2(i)), j) == Bit(0, j)
      {
        BitAnd(w, Pow2(i), j);
        BitPow2(i, j);
        BitOfZero(j);
      }
      SameBits(And(w, Pow2(i)), 0);
    } else {
      BitOfZero(i);
    }
  }

  lemma {:induction false} OrBound(a: nat, b: nat, n: nat)
    requires a < Pow2(n) && b < Pow2(n)
    ensures Or(a, b) < Pow2(n)
    decreases n
  {
    if a != 0 && n > 0 {
      OrBound(a / 2, b / 2, n - 1);
    }
  }

  lemma {:induction false} AndAtMost(a: nat, b: nat)
    ensures And(a, b) <= a && And(a, b) <= b
    decreases a
  {
    if a != 0 && b != 0 { AndAtMost(a / 2, b / 2); }
  }

  // ---- exclusive or ------------------------------------------------------------------------

  lemma XorHalf(a: nat, b: nat)
    ensures Xor(a, b) / 2 == Xor(a / 2, b / 2)
    ensures Xor(a, b) % 2 == (a + b) % 2
  {
    ParityOfSum(a, b);
    if a != 0 {
      HalvesDecide(Xor(a, b), Xor(a / 2, b / 2), if a % 2 != b % 2 then 1 else 0);
    }
  }

  lemma ParityOfSum(a: nat, b: nat)
    ensures (a + b) % 2 == if a % 2 != b % 2 then 1 else 0
  {
    var p, q := a % 2, b % 2;
    assert a + b == 2 * (a / 2 + b / 2) + (p + q);
    if p + q == 2 {
      HalvesDecide(a + b, a / 2 + b / 2 + 1, 0);
    } else {
      HalvesDecide(a + b, a / 2 + b / 2, p + q);
    }
  }

  lemma {:induction false} XorBound(a: nat, b: nat, n: nat)
    requires a < Pow2(n) && b < Pow2(n)
    ensures Xor(a, b) < Pow2(n)
    decreases n
  {
    if a != 0 && n > 0 { XorBound(a / 2, b / 2, n - 1); }
  }

  lemma {:induction false} XorZero(a: nat)
    ensures Xor(a, 0) == a
    decreases a
  {
    if a == 0 {
    } else {
      XorZero(a / 2);
    }
  }

  lemma {:induction false} XorSelf(a: nat)
    ensures Xor(a, a) == 0
    decreases a
  {
    if a == 0 {
    } else {
      XorSelf(a / 2);
    }
  }

  lemma {:induction false} XorAssociative(a: nat, b: nat, c: nat)
    ensures Xor(Xor(a, b), c) == Xor(a, Xor(b, c))
    decreases a + b + c
  {
    if a == 0 {
    } else {
      XorAssociative(a / 2, b / 2, c / 2);
      XorHalf(a, b);
      XorHalf(b, c);
      XorHalf(Xor(a, b), c);
      XorHalf(a, Xor(b, c));
    }
  }

  lemma {:induction false} XorCommutes(a: nat, b: nat)
    ensures Xor(a, b) == Xor(b, a)
    decreases a
  {
    if a == 0 { XorZero(b); } else if b == 0 { XorZero(a); } else { XorCommutes(a / 2, b / 2); }
  }

  /** Xor with a fixed word can be undone. */
  lemma XorCancel(a: nat, b: nat)
    ensures Xor(Xor(a, b), b) == a
  {
    XorAssociative(a, b, b);
    XorSelf(b);
    XorZero(a);
  }

  lemma XorInjective(a: nat, a': nat, b: nat)
    requires Xor(a, b) == Xor(a', b)
    ensures a == a'
  {
    XorCancel(a, b);
    XorCancel(a', b);
  }

  /** `a ^ b` is zero only for equal words. */
  lemma XorIsZero(a: nat, b: nat)
    ensures Xor(a, b) == 0 <==> a == b
  {
    XorSelf(b);
    if Xor(a, b) == 0 { XorInjective(a, b, b); }
  }

  /** Exactly one of the operands has the top digit: so does the xor. */
  lemma {:induction false} XorTop(a: nat, b: nat, n: nat)
    requires a < Pow2(n) <= b < 2 * Pow2(n)
    ensures Xor(a, b) >= Pow2(n)
    decreases n
  {
    if a == 0 {
    } else {
      XorTop(a / 2, b / 2, n - 1);
    }
  }

  // ---- the lowest set digit ------------------------------------------------------------

  lemma {:induction false} LowestBit(w: nat)
    requires w > 0
    ensures Bit(w, TrailingZeros(w))
    ensures forall j: nat :: j < TrailingZeros(w) ==> !Bit(w, j)
    decreases w
  {
    if w % 2 == 0 {
      LowestBit(w / 2);
      forall j: nat | j < TrailingZeros(w)
        ensures !Bit(w, j)
      {
        if j > 0 { assert !Bit(w / 2, j - 1); }
      }
    }
  }

  lemma LowestBitInRange(w: nat, n: nat)
    requires 0 < w < Pow2(n)
    ensures TrailingZeros(w) < n
  {
    LowestBit(w);
    if n <= TrailingZeros(w) { NoBitsAbove(w, n, TrailingZeros(w)); }
  }

  lemma {:induction false} AndSelf(w: nat)
    ensures And(w, w) == w
    decreases w
  {
    if w == 0 {
    } else {
      AndSelf(w / 2);
    }
  }

  /** `w & (w - 1)` clears exactly the lowest set digit. */
  lemma {:induction false} ClearLowest(w: nat, i: nat)
    requires w > 0
    ensures Bit(And(w, w - 1), i) <==> Bit(w, i) && i != TrailingZeros(w)
    decreases i
  {
    if w == 1 {
      BitOfZero(i);
      if i > 0 { BitOfZero(i - 1); }
    } else if w % 2 == 1 {
      assert (w - 1) / 2 == w / 2;
      AndSelf(w / 2);
      assert And(w, w - 1) == 2 * (w / 2);
    } else {
      assert (w - 1) / 2 == w / 2 - 1;
      if i > 0 { ClearLowest(w / 2, i - 1); }
    }
  }

  lemma WordLimit()
    ensures Pow2(32) == 0x1_0000_0000 && Pow2(64) == U64_LIMIT
  {
    Pow2Add(8, 8);
    assert Pow2(16) == 0x1_0000 by { assert Pow2(8) == 0x100; }
    Pow2Add(16, 16);
    assert Pow2(32) == 0x1_0000_0000;
    Pow2Add(32, 32);
  }

  /** `w & !(1 << w.trailing_zeros())` is the same word as `w & (w - 1)`. */
  lemma ClearByMask(w: nat)
    requires 0 < w < U64_LIMIT
    ensures Pow2(TrailingZeros(w)) < U64_LIMIT
    ensures And(w, Not64(Pow2(TrailingZeros(w)))) == And(w, w - 1)
  {
    var t := TrailingZeros(w);
    WordLimit();
    LowestBitInRange(w, 64);
    Pow2Monotone(t, 64);
    forall i: nat
      ensures Bit(And(w, Not64(Pow2(t))), i) == Bit(And(w, w - 1), i)
    {
      ClearByMaskBit(w, i);
    }
    SameBits(And(w, Not64(Pow2(t))), And(w, w - 1));
  }

  lemma ClearByMaskBit(w: nat, i: nat)
    requires 0 < w < U64_LIMIT && Pow2(TrailingZeros(w)) < U64_LIMIT
    ensures Bit(And(w, Not64(Pow2(TrailingZeros(w)))), i) == Bit(And(w, w - 1), i)
  {
    var m := Pow2(TrailingZeros(w));
    WordLimit();
    BitAnd(w, Not64(m), i);
    ClearLowest(w, i);
    if i < 64 {
      BitComplement(64, m, i);
      BitPow2(TrailingZeros(w), i);
    } else {
      NoBitsAbove(w, 64, i);
    }
  }

  // ---- powers of two: shift is division, mask is remainder ---------------------------------

  lemma {:induction false} Pow2Monotone(m: nat, n: nat)
    requires m < n
    ensures Pow2(m) < Pow2(n)
    decreases n
  {
    if m < n - 1 { Pow2Monotone(m, n - 1); }
  }

  lemma {:induction false} Pow2Add(m: nat, n: nat)
    ensures Pow2(m + n) == Pow2(m) * Pow2(n)
    decreases n
  {
    if n == 0 {
    } else {
      Pow2Add(m, n - 1);
      assert Pow2(m) * (2 * Pow2(n - 1)) == 2 * (Pow2(m) * Pow2(n - 1));
    }
  }

  /** A power of two is `1 << trailing_zeros`, so shifting by that amount divides by it. */
  lemma {:induction false} PowerOfTwoShift(w: nat)
    requires IsPowerOfTwo(w)
    ensures w > 0 && w == Pow2(TrailingZeros(w))
  {
    if w != 1 { PowerOfTwoShift(w / 2); }
  }

  /** Of two powers of two, the smaller divides the larger. */
  lemma PowersDivide(small: nat, large: nat)
    requires IsPowerOfTwo(small) && IsPowerOfTwo(large) && small <= large
    ensures small > 0 && large % small == 0 && large == small * (large / small)
  {
    PowerOfTwoShift(small);
    PowerOfTwoShift(large);
    var s, l := TrailingZeros(small), TrailingZeros(large);
    if l < s { Pow2Monotone(l, s); }
    Pow2Add(s, l - s);
    ExactQuotient(large, small, Pow2(l - s));
  }

  lemma RatioOfPowers(small: nat, large: nat)
    requires IsPowerOfTwo(small) && IsPowerOfTwo(large) && small <= large
    ensures small > 0 && large % small == 0 && 0 < large / small
  {
    PowersDivide(small, large);
  }

  lemma {:induction false} AndWithAllOnes(w: nat, k: nat)
    requires w < Pow2(k)
    ensures And(w, Pow2(k) - 1) == w
    decreases k
  {
    if w == 0 {
    } else {
      assert (Pow2(k) - 1) / 2 == Pow2(k - 1) - 1;
      AndWithAllOnes(w / 2, k - 1);
    }
  }

  /** The low `n` digits of `w`. */
  function LowPart(w: nat, n: nat): nat
    decreases n, w
  {
    if n == 0 then 0 else 2 * LowPart(w / 2, n - 1) + w % 2
  }

  lemma {:induction false} LowPartIs(w: nat, n: nat)
    ensures LowPart(w, n) == w % Pow2(n)
    decreases n
  {
    if n == 0 {
    } else {
      LowPartIs(w / 2, n - 1);
      HalfRemainder(w, Pow2(n - 1));
    }
  }

  lemma {:induction false} AndWithHighOnes(w: nat, k: nat, n: nat)
    requires w < Pow2(k) && n <= k
    ensures Pow2(k) >= Pow2(n) && And(w, Pow2(k) - Pow2(n)) == w - LowPart(w, n)
    decreases n
  {
    if n < k { Pow2Monotone(n, k); }
    if n == 0 {
      AndWithAllOnes(w, k);
    } else {
      var h, m := Pow2(n - 1), Pow2(k - 1);
      AndWithHighOnes(w / 2, k - 1, n - 1);
      assert Pow2(k) - Pow2(n) == 2 * (m - h);
      HighOnesStep(w, m - h, LowPart(w / 2, n - 1));
    }
  }

  lemma HighOnesStep(w: nat, d: nat, low: nat)
    requires And(w / 2, d) == w / 2 - low
    ensures And(w, 2 * d) == w - (2 * low + w % 2)
  {
    AndWithEven(w, d);
    DoubleBack(w, low);
  }

  lemma AndWithEven(w: nat, m: nat)
    ensures And(w, 2 * m) == 2 * And(w / 2, m)
  {
    HalvesDecide(2 * m, m, 0);
  }

  lemma DoubleBack(w: nat, r: nat)
    ensures 2 * (w / 2 - r) == w - (2 * r + w % 2)
  {
  }

  lemma HalfRemainder(w: nat, h: nat)
    requires h > 0
    ensures w % (2 * h) == 2 * ((w / 2) % h) + w % 2
  {
    var q, r := (w / 2) / h, (w / 2) % h;
    assert w / 2 == q * h + r;
    assert w == (2 * h) * q + (2 * r + w % 2) by {
      assert (2 * h) * q == 2 * (q * h);
    }
    QuotientUnique(w, 2 * h, q, 2 * r + w % 2);
  }

  /** `x & !(page - 1)` rounds down to a multiple of the power of two `page`. */
  lemma AlignDown(x: nat, page: nat)
    requires x < U64_LIMIT && IsPowerOfTwo(page) && page < U64_LIMIT
    ensures page > 0 && And(x, Not64(page - 1)) == x - x % page
  {
    WordLimit();
    PowerOfTwoShift(page);
    var n := TrailingZeros(page);
    if 64 < n { Pow2Monotone(64, n); }
    assert Not64(page - 1) == U64_LIMIT - page;
    AndWithHighOnes(x, 64, n);
    LowPartIs(x, n);
  }

  // ---- division facts shared by the address arithmetic ----------------------------------

  lemma QuotientUnique(a: int, d: int, q: int, r: int)
    requires d > 0 && a == d * q + r && 0 <= r < d
    ensures a / d == q && a % d == r
  {
    var q', r' := a / d, a % d;
    assert a == d * q' + r';
    assert d * (q - q') == r' - r;
    if q - q' >= 1 {
      MulAtLeast(d, q - q');
    } else if q - q' <= -1 {
      assert d * (q - q') == -(d * (q' - q));
      MulAtLeast(d, q' - q);
    }
  }

  lemma MulAtLeast(d: int, k: int)
    requires d > 0 && k >= 1
    ensures d * k >= d
  {
    assert d * k == d + d * (k - 1);
    assert d * (k - 1) >= 0;
  }

  lemma ExactQuotient(a: int, d: int, q: int)
    requires d > 0 && a == d * q
    ensures a / d == q && a % d == 0
  {
    QuotientUnique(a, d, q, 0);
  }

  /** Dividing by `f` and then by `r` is dividing by `f * r`. */
  lemma DivideTwice(x: nat, f: nat, r: nat)
    requires f > 0 && r > 0
    ensures f * r > 0 && (x / f) / r == x / (f * r)
  {
    var y := x / f;
    Regrouped(x, f, r, y, x % f, y / r, y % r);
    QuotientUnique(x, f * r, y / r, f * (y % r) + x % f);
  }

  lemma Regrouped(x: int, f: int, r: int, y: int, t: int, q: int, s: int)
    requires f > 0 && r > 0 && x == f * y + t && 0 <= t < f && y == r * q + s && 0 <= s < r
    ensures f * r > 0 && x == (f * r) * q + (f * s + t) && 0 <= f * s + t < f * r
  {
    MulAtLeast(f, r);
    RegroupProducts(f, r, q, s);
    MulOrdered(f, s, r - 1);
    assert f * (r - 1) == f * r - f;
  }

  lemma RegroupProducts(f: int, r: int, q: int, s: int)
    ensures f * (r * q + s) == (f * r) * q + f * s
  {
  }

  lemma MulOrdered(f: int, a: int, b: int)
    requires f >= 0 && 0 <= a <= b
    ensures 0 <= f * a <= f * b
  {
    assert f * (b - a) >= 0;
    assert f * (b - a) == f * b - f * a;
  }

  lemma DivMonotone(a: nat, b: nat, d: nat)
    requires d > 0 && a <= b
    ensures a / d <= b / d
  {
    if a / d > b / d {
      assert a == d * (a / d) + a % d && b == d * (b / d) + b % d;
      assert d * (a / d - b / d) == d * (a / d) - d * (b / d);
      MulAtLeast(d, a / d - b / d);
    }
  }

  /** Index `i` is below `ceil(a / d)` exactly when unit `i` starts below `a`. */
  lemma {:induction false} CeilDivBound(a: nat, d: nat, i: nat)
    requires d > 0
    ensures i < CeilDiv(a, d) <==> i * d < a
    decreases a
  {
    if i == 0 {
    } else if a <= d {
      MulAtLeast(d, i);
    } else {
      CeilDivBound(a - d, d, i - 1);
      assert (i - 1) * d == i * d - d;
    }
  }

  /** An offset below `a` lies in a unit below `ceil(a / d)`. */
  lemma UnitOfOffset(a: nat, d: nat, off: nat)
    requires d > 0 && off < a
    ensures off / d < CeilDiv(a, d)
    ensures (off / d) * d <= off < (off / d) * d + d
  {
    assert off == d * (off / d) + off % d;
    assert d * (off / d) == (off / d) * d;
    CeilDivBound(a, d, off / d);
  }

  /** Unit `i` holds exactly the offsets `i*d .. i*d + d`. */
  lemma InUnit(off: nat, d: nat, i: nat)
    requires d > 0
    ensures off / d == i <==> i * d <= off < i * d + d
  {
    assert off == d * (off / d) + off % d;
    if i * d <= off < i * d + d {
      assert d * i == i * d;
      QuotientUnique(off, d, i, off - i * d);
    }
  }

  // ---- the drain loop's order --------------------------------------------------------------

  /** The indices a `while bits != 0` drain of one word emits, in order. */
  function BitIndices(w: nat, base: nat): seq<nat>
    decreases w
  {
    if w == 0 then []
    else
      AndAtMost(w, w - 1);
      [base + TrailingZeros(w)] + BitIndices(And(w, w - 1), base)
  }

  predicate StrictlyAscending(s: seq<nat>)
  {
    forall i, j :: 0 <= i < j < |s| ==> s[i] < s[j]
  }

  /** The loop emits `base + i` exactly when digit `i` is set. */
  lemma {:induction false} InBitIndices(w: nat, base: nat, i: nat)
    ensures base + i in BitIndices(w, base) <==> Bit(w, i)
    decreases w
  {
    if w == 0 {
      BitOfZero(i);
    } else {
      AndAtMost(w, w - 1);
      LowestBit(w);
      ClearLowest(w, i);
      InBitIndices(And(w, w - 1), base, i);
    }
  }

  lemma {:induction false} BitIndicesFromBase(w: nat, base: nat)
    ensures forall x <- BitIndices(w, base) :: x >= base
    decreases w
  {
    if w == 0 {
    } else {
      AndAtMost(w, w - 1);
      BitIndicesFromBase(And(w, w - 1), base);
    }
  }

  /** Everything emitted after the lowest set digit is above it. */
  lemma LowestComesFirst(w: nat, base: nat, x: nat)
    requires w > 0 && x in BitIndices(And(w, w - 1), base)
    ensures base + TrailingZeros(w) < x
  {
    BitIndicesFromBase(And(w, w - 1), base);
    var i := x - base;
    InBitIndices(And(w, w - 1), base, i);
    ClearLowest(w, i);
    LowestBit(w);
  }

  lemma {:induction false} BitIndicesAscend(w: nat, base: nat)
    ensures StrictlyAscending(BitIndices(w, base))
    decreases w
  {
    if w == 0 {
    } else {
      AndAtMost(w, w - 1);
      var rest := BitIndices(And(w, w - 1), base);
      BitIndicesAscend(And(w, w - 1), base);
      forall j | 0 <= j < |rest| ensures base + TrailingZeros(w) < rest[j] {
        LowestComesFirst(w, base, rest[j]);
      }
      HeadBelowAscends(base + TrailingZeros(w), rest);
    }
  }

  lemma HeadBelowAscends(x: nat, rest: seq<nat>)
    requires StrictlyAscending(rest) && forall j :: 0 <= j < |rest| ==> x < rest[j]
    ensures StrictlyAscending([x] + rest)
  {
  }

  /** The loop emits each set digit once, lowest first. */
  lemma BitIndicesSpec(w: nat, base: nat)
    ensures StrictlyAscending(BitIndices(w, base))
    ensures forall i: nat {:trigger Bit(w, i)} :: base + i in BitIndices(w, base) <==> Bit(w, i)
    ensures forall x <- BitIndices(w, base) :: x >= base
  {
    BitIndicesAscend(w, base);
    BitIndicesFromBase(w, base);
    forall i: nat ensures base + i in BitIndices(w, base) <==> Bit(w, i) { InBitIndices(w, base, i); }
  }
}
