/**
 * `__round_to_power_of_two` (src/__init__.py): the bit-smearing trick that rounds a
 * non-negative integer up to the next power of two.
 *
 * Python integers are unbounded, so the model works on `nat` with Python's bitwise
 * operators on non-negative integers written out: `Or` (`|`), `And` (`&`) and `Shr`
 * (`>>`).  The smear stops at a shift of 32, which fills the 64 bits below the leading
 * one; the contract therefore speaks about inputs up to 2^64.
 */
module PowerOfTwo {

  /** 2^k */
  function Pow2(k: nat): (p: nat)
    ensures p >= 1
  {
    if k == 0 then 1 else 2 * Pow2(k - 1)
  }

  /** n is one of 1, 2, 4, 8, ... */
  predicate IsPowerOfTwo(n: nat)
    decreases n
  {
    n == 1 || (n >= 2 && n % 2 == 0 && IsPowerOfTwo(n / 2))
  }

  /** Python's `a | b` on non-negative integers, bit by bit from the lowest. */
  function Or(a: nat, b: nat): (r: nat)
    decreases a + b
  {
    if a == 0 && b == 0 then 0
    else 2 * Or(a / 2, b / 2) + (if a % 2 == 1 || b % 2 == 1 then 1 else 0)
  }

  /** Python's `a & b` on non-negative integers. */
  function And(a: nat, b: nat): (r: nat)
    decreases a + b
  {
    if a == 0 || b == 0 then 0
    else 2 * And(a / 2, b / 2) + (if a % 2 == 1 && b % 2 == 1 then 1 else 0)
  }

  /** Python's `x >> k` on a non-negative integer. */
  function Shr(x: nat, k: nat): (r: nat) {
    if k == 0 then x else Shr(x / 2, k - 1)
  }

  /** Number of binary digits of x (Python's `x.bit_length()`). */
  function Width(x: nat): (w: nat) {
    if x == 0 then 0 else 1 + Width(x / 2)
  }

  /** The six or-with-shifted-self steps, with shifts 1, 2, 4, 8, 16 and 32. */
  function Smear(x: nat): (r: nat) {
    SmearSteps(x, 6)
  }

  /** The first n smear steps: step k (from 1) ors the value with itself shifted right by 2^(k-1). */
  function SmearSteps(x: nat, n: nat): (r: nat) {
    if n == 0 then x
    else
      var y := SmearSteps(x, n - 1);
      Or(y, Shr(y, Pow2(n - 1)))
  }

  /**
   * The model of `__round_to_power_of_two(i)`: 0 comes back as 0, a power of two comes
   * back unchanged, and (for i up to 2^64) anything else goes up to the smallest power
   * of two above it: a power of two r with i <= r < 2 * i.
   */
  function RoundToPowerOfTwo(i: nat): (r: nat)
    ensures i == 0 ==> r == 0
    ensures IsPowerOfTwo(i) ==> r == i
    ensures 0 < i <= Pow2(64) ==> IsPowerOfTwo(r) && i <= r < 2 * i
  {
    if i == 0 then i
    else if And(i, i - 1) == 0 then
      SingleBitTest(i);
      i
    else
      var x := i - 1;
      SmearCase(i, x);
      Smear(x) + 1
  }

  /** When `i & (i - 1)` is not 0, i is no power of two and the smear of x = i - 1 rounds it up. */
  lemma SmearCase(i: nat, x: nat)
    requires i > 0 && x == i - 1 && And(i, x) != 0
    ensures !IsPowerOfTwo(i)
    ensures i <= Pow2(64) ==> IsPowerOfTwo(Smear(x) + 1) && i <= Smear(x) + 1 < 2 * i
  {
    SingleBitTest(i);
    if i <= Pow2(64) {
      assert i != 1 by {
        assert IsPowerOfTwo(1);
      }
      SmearRoundsUp(x);
    }
  }

  /** The smallest power of two not below i: any power of two p >= i is >= the result. */
  lemma RoundIsSmallest(i: nat, p: nat)
    requires 0 < i <= Pow2(64)
    requires IsPowerOfTwo(p) && i <= p
    ensures RoundToPowerOfTwo(i) <= p
  {
    var r := RoundToPowerOfTwo(i);
    if p < r {
      PowersOfTwoApart(p, r);
    }
  }

  // ---------------------------------------------------------------------------------
  // Powers of two

  lemma {:induction false} Pow2IsPowerOfTwo(k: nat)
    ensures IsPowerOfTwo(Pow2(k))
  {
    if k > 0 {
      Pow2IsPowerOfTwo(k - 1);
      assert Pow2(k) / 2 == Pow2(k - 1);
    }
  }

  lemma {:induction false} Pow2Add(a: nat, b: nat)
    ensures Pow2(a + b) == Pow2(a) * Pow2(b)
  {
    if a > 0 {
      Pow2Add(a - 1, b);
    }
  }

  lemma {:induction false} Pow2Monotone(a: nat, b: nat)
    requires a <= b
    ensures Pow2(a) <= Pow2(b)
  {
    if a < b {
      Pow2Monotone(a, b - 1);
    }
  }

  /** Of two distinct powers of two, the larger is at least twice the smaller. */
  lemma {:induction false} PowersOfTwoApart(p: nat, q: nat)
    requires IsPowerOfTwo(p) && IsPowerOfTwo(q) && p < q
    ensures 2 * p <= q
    decreases q
  {
    if p != 1 {
      PowersOfTwoApart(p / 2, q / 2);
    }
  }

  /** `i & (i - 1) == 0` holds of a positive i exactly when i is a power of two. */
  lemma {:induction false} SingleBitTest(i: nat)
    requires i > 0
    ensures And(i, i - 1) == 0 <==> IsPowerOfTwo(i)
    decreases i
  {
    if i == 1 {
    } else if i % 2 == 0 {
      SingleBitTest(i / 2);
      assert (i - 1) / 2 == i / 2 - 1 && (i - 1) % 2 == 1;
      assert And(i, i - 1) == 2 * And(i / 2, i / 2 - 1);
    } else {
      assert (i - 1) / 2 == i / 2 && (i - 1) % 2 == 0;
      AndSelf(i / 2);
      assert And(i, i - 1) == 2 * And(i / 2, i / 2);
    }
  }

  lemma {:induction false} AndSelf(a: nat)
    ensures And(a, a) == a
    decreases a
  {
    if a > 0 {
      AndSelf(a / 2);
    }
  }

  // ---------------------------------------------------------------------------------
  // Shifts and widths

  lemma {:induction false} ShrShr(x: nat, a: nat, b: nat)
    ensures Shr(Shr(x, a), b) == Shr(x, a + b)
    decreases a
  {
    if a > 0 {
      ShrShr(x / 2, a - 1, b);
    }
  }

  /** x splits into its bits above k and a remainder below 2^k. */
  lemma {:induction false} ShrSplit(x: nat, k: nat)
    ensures Shr(x, k) * Pow2(k) <= x < Shr(x, k) * Pow2(k) + Pow2(k)
    decreases k
  {
    if k > 0 {
      ShrSplit(x / 2, k - 1);
      var s, p := Shr(x / 2, k - 1), Pow2(k - 1);
      assert Shr(x, k) == s;
      TimesPow2Step(s, k);
      Doubled(x, s * p, p);
    }
  }

  lemma Doubled(x: nat, a: nat, p: nat)
    requires a <= x / 2 < a + p
    ensures 2 * a <= x < 2 * a + 2 * p
  {
  }

  /** Shifting `h * 2^k + t` with t below 2^k right by k leaves h. */
  lemma {:induction false} ShrOfSplit(h: nat, t: nat, k: nat)
    requires t < Pow2(k)
    ensures Shr(h * Pow2(k) + t, k) == h
    decreases k
  {
    if k > 0 {
      HalfOfSplit(h, t, k);
      ShrOfSplit(h, t / 2, k - 1);
    }
  }

  lemma {:induction false} WidthBounds(x: nat)
    requires x > 0
    ensures Width(x) >= 1 && Pow2(Width(x) - 1) <= x < Pow2(Width(x))
    decreases x
  {
    if x > 1 {
      WidthBounds(x / 2);
    }
  }

  lemma {:induction false} WidthAtMost(x: nat, k: nat)
    requires x < Pow2(k)
    ensures Width(x) <= k
    decreases x
  {
    if x > 0 {
      WidthAtMost(x / 2, k - 1);
    }
  }

  // ---------------------------------------------------------------------------------
  // Bitwise or

  lemma {:induction false} OrZero(a: nat)
    ensures Or(a, 0) == a
    decreases a
  {
    if a > 0 {
      OrZero(a / 2);
    }
  }

  lemma {:induction false} OrBelow(a: nat, b: nat, k: nat)
    requires a < Pow2(k) && b < Pow2(k)
    ensures Or(a, b) < Pow2(k)
    decreases k
  {
    if k > 0 && (a > 0 || b > 0) {
      OrBelow(a / 2, b / 2, k - 1);
    }
  }

  /** Or-ing with 2^k - 1 fills every bit below k. */
  lemma {:induction false} OrOnes(t: nat, k: nat)
    requires t < Pow2(k)
    ensures Or(t, Pow2(k) - 1) == Pow2(k) - 1 && Or(Pow2(k) - 1, t) == Pow2(k) - 1
    decreases k
  {
    if k > 0 {
      assert (Pow2(k) - 1) / 2 == Pow2(k - 1) - 1 && (Pow2(k) - 1) % 2 == 1;
      OrOnes(t / 2, k - 1);
    }
  }

  /** Halving `h * 2^k + t` halves the low part and keeps the high part one place lower. */
  lemma HalfOfSplit(h: nat, t: nat, k: nat)
    requires k > 0
    ensures (h * Pow2(k) + t) / 2 == h * Pow2(k - 1) + t / 2
    ensures (h * Pow2(k) + t) % 2 == t % 2
  {
    TimesPow2Step(h, k);
  }

  /** Or works separately on the bits above k and the bits below k. */
  lemma {:induction false} OrSplit(a1: nat, a0: nat, b1: nat, b0: nat, k: nat)
    requires a0 < Pow2(k) && b0 < Pow2(k)
    ensures Or(a1 * Pow2(k) + a0, b1 * Pow2(k) + b0) == Or(a1, b1) * Pow2(k) + Or(a0, b0)
    decreases k, 1
  {
    if a1 == 0 && b1 == 0 {
      assert a1 * Pow2(k) == 0 && b1 * Pow2(k) == 0 && Or(a1, b1) == 0;
    } else if k == 0 {
      OrZero(a1);
      OrZero(b1);
      assert Or(a0, b0) == 0;
    } else {
      OrSplitStep(a1, a0, b1, b0, k);
    }
  }

  lemma {:induction false} OrSplitStep(a1: nat, a0: nat, b1: nat, b0: nat, k: nat)
    requires a0 < Pow2(k) && b0 < Pow2(k)
    requires k > 0
    ensures Or(a1 * Pow2(k) + a0, b1 * Pow2(k) + b0) == Or(a1, b1) * Pow2(k) + Or(a0, b0)
    decreases k, 0
  {
    var bit := if a0 % 2 == 1 || b0 % 2 == 1 then 1 else 0;
    var high := Or(a1, b1);
    var low := Or(a0 / 2, b0 / 2);
    OrOfHalves(a1, a0, b1, b0, k);
    OrSplit(a1, a0 / 2, b1, b0 / 2, k - 1);
    OrUnfold(a0, b0);
    TimesPow2Step(high, k);
    assert 2 * (high * Pow2(k - 1) + low) + bit == high * Pow2(k) + (2 * low + bit);
  }

  /** One step of Or on split numbers: the lowest bit comes from the low parts. */
  lemma OrOfHalves(a1: nat, a0: nat, b1: nat, b0: nat, k: nat)
    requires k > 0
    ensures Or(a1 * Pow2(k) + a0, b1 * Pow2(k) + b0) ==
      2 * Or(a1 * Pow2(k - 1) + a0 / 2, b1 * Pow2(k - 1) + b0 / 2) +
      (if a0 % 2 == 1 || b0 % 2 == 1 then 1 else 0)
  {
    HalfOfSplit(a1, a0, k);
    HalfOfSplit(b1, b0, k);
    OrUnfold(a1 * Pow2(k) + a0, b1 * Pow2(k) + b0);
  }

  lemma TimesPow2Step(x: nat, k: nat)
    requires k > 0
    ensures x * Pow2(k) == 2 * (x * Pow2(k - 1))
  {
    var p := Pow2(k - 1);
    assert Pow2(k) == 2 * p;
    assert x * (2 * p) == 2 * (x * p);
  }

  lemma MulPredecessor(p: nat, q: nat)
    requires p >= 1
    ensures (p - 1) * q == p * q - q
  {
  }

  /** The recursive step of Or also holds when both arguments are 0. */
  lemma OrUnfold(a: nat, b: nat)
    ensures Or(a, b) == 2 * Or(a / 2, b / 2) + (if a % 2 == 1 || b % 2 == 1 then 1 else 0)
  {
  }

  // ---------------------------------------------------------------------------------
  // The smear

  /** x has width at most w and its top m bits (of w) are all ones. */
  ghost predicate Filled(x: nat, w: nat, m: nat) {
    m <= w && Shr(x, w - m) == Pow2(m) - 1
  }

  /** x is `h * 2^k + t` with h = x >> k and t below 2^k. */
  lemma SplitAt(x: nat, k: nat) returns (h: nat, t: nat)
    ensures h == Shr(x, k) && t < Pow2(k) && x == h * Pow2(k) + t
  {
    ShrSplit(x, k);
    h := Shr(x, k);
    t := x - h * Pow2(k);
  }

  /** One smear step: with the top m bits filled, or-ing in `x >> s` for s == m fills 2m. */
  lemma SmearStepDoubles(x: nat, w: nat, m: nat)
    requires Filled(x, w, m) && 1 <= m && m + m <= w
    ensures Filled(Or(x, Shr(x, m)), w, m + m)
  {
    var o := Pow2(m) - 1;
    var q := w - m - m;
    var X1, x0 := SplitAt(x, q);
    ShrShr(x, q, m);
    var top, T := SplitAt(X1, m);
    ShrShr(x, m, q);
    var ytop, y0 := SplitAt(Shr(x, m), q);
    OrDoublesTop(X1, x0, T, y0, m, q);
  }

  /** Or-ing `(top m ones, then T) . x0` with `(m ones) . y0` leaves 2m ones above q bits. */
  lemma OrDoublesTop(X1: nat, x0: nat, T: nat, y0: nat, m: nat, q: nat)
    requires X1 == (Pow2(m) - 1) * Pow2(m) + T && T < Pow2(m)
    requires x0 < Pow2(q) && y0 < Pow2(q)
    ensures Shr(Or(X1 * Pow2(q) + x0, (Pow2(m) - 1) * Pow2(q) + y0), q) == Pow2(m + m) - 1
  {
    ShrOrSplit(X1, x0, Pow2(m) - 1, y0, q);
    OrOnesBelowTop(T, m, m);
  }

  /** Shifting an or of split numbers past the split point leaves the or of the high parts. */
  lemma ShrOrSplit(a1: nat, a0: nat, b1: nat, b0: nat, q: nat)
    requires a0 < Pow2(q) && b0 < Pow2(q)
    ensures Shr(Or(a1 * Pow2(q) + a0, b1 * Pow2(q) + b0), q) == Or(a1, b1)
  {
    OrSplit(a1, a0, b1, b0, q);
    OrBelow(a0, b0, q);
    ShrOfSplit(Or(a1, b1), Or(a0, b0), q);
  }

  /** The last needed smear step: a shift past the unfilled bits fills all of them. */
  lemma SmearStepCompletes(x: nat, w: nat, m: nat)
    requires Filled(x, w, m) && w < m + m
    ensures Filled(Or(x, Shr(x, m)), w, w)
  {
    var j := w - m;
    var y := Or(x, Shr(x, m));
    assert y == Pow2(w) - 1 by {
      var top, t := SplitAt(x, j);
      ShrPastTop(x, j, m);
      OrOnesBelowTop(t, m, j);
      assert Pow2(m + j) == Pow2(w);
    }
    AllFilled(y, w);
  }

  /** With m ones above bit j, shifting by m leaves j ones. */
  lemma ShrPastTop(x: nat, j: nat, m: nat)
    requires j <= m && Shr(x, j) == Pow2(m) - 1
    ensures Shr(x, m) == Pow2(j) - 1
  {
    var k := m - j;
    var y := Shr(x, j);
    var p := Pow2(m) - 1;
    ShrShr(x, j, k);
    assert Shr(x, m) == Shr(y, k);
    assert y == p;
    assert Shr(y, k) == Shr(p, k);
    ShrOnes(m, k);
    assert m - k == j;
    assert Pow2(m - k) == Pow2(j);
    assert Shr(p, k) == Pow2(m - k) - 1;
  }

  lemma AllFilled(y: nat, w: nat)
    requires y == Pow2(w) - 1
    ensures Filled(y, w, w)
  {
    assert Shr(y, 0) == y;
  }

  /** m top ones above j bits, or-ed with j ones, are m + j ones. */
  lemma OrOnesBelowTop(t: nat, m: nat, j: nat)
    requires t < Pow2(j)
    ensures Or((Pow2(m) - 1) * Pow2(j) + t, Pow2(j) - 1) == Pow2(m + j) - 1
  {
    OrKeepsTop(Pow2(m) - 1, t, j);
    OnesJoin(m, j);
  }

  /** Or-ing j ones into `h * 2^j + t` keeps h and fills the j low bits. */
  lemma OrKeepsTop(h: nat, t: nat, j: nat)
    requires t < Pow2(j)
    ensures Or(h * Pow2(j) + t, Pow2(j) - 1) == h * Pow2(j) + Pow2(j) - 1
  {
    var ones := Pow2(j) - 1;
    OrSplit(h, t, 0, ones, j);
    assert 0 * Pow2(j) + ones == ones;
    OrZero(h);
    OrOnes(t, j);
  }

  /** m ones followed by j ones are m + j ones. */
  lemma OnesJoin(m: nat, j: nat)
    ensures (Pow2(m) - 1) * Pow2(j) + Pow2(j) - 1 == Pow2(m + j) - 1
  {
    Pow2Add(m, j);
    MulPredecessor(Pow2(m), Pow2(j));
  }

  /** Once every bit under the leading one is set, further smear steps change nothing. */
  lemma SmearStepFull(x: nat, w: nat, s: nat)
    requires Filled(x, w, w)
    ensures Or(x, Shr(x, s)) == x
  {
    assert x == Pow2(w) - 1;
    ShrLe(x, s);
    OrOnes(Shr(x, s), w);
  }

  /** The smear step with shift s, whatever the filled count m (s == m, or m == w). */
  lemma SmearStep(x: nat, w: nat, m: nat, s: nat)
    requires Filled(x, w, m) && 1 <= m && (s == m || m == w)
    ensures Filled(Or(x, Shr(x, s)), w, if m + s <= w then m + s else w)
  {
    if m == w {
      SmearStepFull(x, w, s);
    } else if m + s <= w {
      SmearStepDoubles(x, w, m);
    } else {
      SmearStepCompletes(x, w, m);
    }
  }

  lemma {:induction false} ShrLe(x: nat, k: nat)
    ensures Shr(x, k) <= x
    decreases k
  {
    if k > 0 {
      ShrLe(x / 2, k - 1);
    }
  }

  /** (2^m - 1) >> k == 2^(m - k) - 1 */
  lemma {:induction false} ShrOnes(m: nat, k: nat)
    requires k <= m
    ensures Shr(Pow2(m) - 1, k) == Pow2(m - k) - 1
    decreases k
  {
    if k > 0 {
      assert (Pow2(m) - 1) / 2 == Pow2(m - 1) - 1;
      ShrOnes(m - 1, k - 1);
    }
  }

  /** Below 2^64, the smear sets every bit under the leading one: the result is 2^Width(x) - 1. */
  lemma SmearFills(x: nat)
    requires 0 < x && Width(x) <= 64
    ensures Smear(x) + 1 == Pow2(Width(x))
  {
    var w := Width(x);
    LeadingBit(x);
    assert Filled(x, w, 1) by {
      assert Pow2(1) == 2;
    }
    assert Pow2(6) == 64;
    SmearStepsFill(x, w, 6);
    var y := SmearSteps(x, 6);
    assert Filled(y, w, w);
    assert Shr(y, 0) == y;
  }

  /** The bit at position Width(x) - 1 is the leading one. */
  lemma {:induction false} LeadingBit(x: nat)
    requires x > 0
    ensures Width(x) >= 1 && Shr(x, Width(x) - 1) == 1
    decreases x
  {
    if x > 1 {
      LeadingBit(x / 2);
    }
  }

  /** For 0 < x < 2^64, `Smear(x) + 1` is the power of two just above x. */
  lemma SmearRoundsUp(x: nat)
    ensures 0 < x < Pow2(64) ==> IsPowerOfTwo(Smear(x) + 1) && x < Smear(x) + 1 <= 2 * x
  {
    if 0 < x < Pow2(64) {
      assert Smear(x) + 1 == Pow2(Width(x)) by {
        WidthAtMost(x, 64);
        SmearFills(x);
      }
      NextPowerAboveWidth(x);
    }
  }

  /** 2^Width(x) is the power of two just above x. */
  lemma NextPowerAboveWidth(x: nat)
    requires x > 0
    ensures IsPowerOfTwo(Pow2(Width(x))) && x < Pow2(Width(x)) <= 2 * x
  {
    WidthBounds(x);
    Pow2IsPowerOfTwo(Width(x));
    assert Pow2(Width(x)) == 2 * Pow2(Width(x) - 1);
  }

  /** After n smear steps from the leading bit, the top min(2^n, w) bits of w are ones. */
  lemma {:induction false} SmearStepsFill(x: nat, w: nat, n: nat)
    requires Filled(x, w, 1)
    ensures Filled(SmearSteps(x, n), w, if Pow2(n) <= w then Pow2(n) else w)
  {
    if n > 0 {
      SmearStepsFill(x, w, n - 1);
      var s := Pow2(n - 1);
      assert Pow2(n) == s + s;
      SmearStep(SmearSteps(x, n - 1), w, if s <= w then s else w, s);
    }
  }
}
