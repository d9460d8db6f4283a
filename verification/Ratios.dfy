/** The ratio type: construction, inverse and multiplication. */
module Ratios {
  import opened Common
  import opened Powers
  import opened FixedPoint

  datatype Ratio = Ratio(numerator: u32, denominator: u32, mult: u32, shift: u32)

  /** Whether `r` holds its fraction in the form the search and the reduction give. */
  predicate Built(r: Ratio) {
    && (r.denominator == 0 ==> r.numerator == 0)
    && Fraction(r.mult, r.shift) == if r.numerator == 0 then Fraction(0, 0) else Fixed(r.numerator, r.denominator)
  }

  /** `new`, with None where its assertion stops the program. */
  method New(numerator: u32, denominator: u32) returns (r: Option<Ratio>)
    ensures r.None? <==> denominator == 0 && numerator != 0
    ensures r.Some? ==> Built(r.value) && r.value.numerator == numerator && r.value.denominator == denominator
    ensures r.Some? ==> r.value.mult % 2 == 1 || r.value.shift == 0
  {
    if denominator == 0 && numerator != 0 {
      return None;
    }
    if numerator == 0 {
      return Some(Ratio(numerator, denominator, 0, 0));
    }
    var mult, shift := Search(numerator, denominator);
    FixedFits(numerator, denominator);
    mult, shift := HalveWhileEven(mult, shift);
    r := Some(Ratio(numerator, denominator, mult, shift));
  }

  /** The first loop: lower the shift until the multiplier fits 32 bits. */
  method Search(numerator: u32, denominator: u32) returns (mult: u64, shift: u32)
    requires denominator > 0
    ensures shift == Stop(numerator, denominator, TOP) && mult == Candidate(numerator, denominator, shift)
  {
    shift := 32;
    mult := FirstMult(numerator, denominator, shift);
    while mult >= U32 && shift != 0
      invariant shift <= 32 && mult == Candidate(numerator, denominator, shift)
      invariant Stop(numerator, denominator, shift) == Stop(numerator, denominator, TOP)
      decreases shift
    {
      shift := shift - 1;
      mult := FirstMult(numerator, denominator, shift);
    }
  }

  /** The second loop: take out common factors of two. */
  method HalveWhileEven(mult0: u64, shift0: u32) returns (mult: u64, shift: u32)
    ensures Fraction(mult, shift) == Reduce(mult0, shift0)
  {
    mult, shift := mult0, shift0;
    while mult % 2 == 0 && shift > 0
      invariant Reduce(mult, shift) == Reduce(mult0, shift0)
    {
      mult := mult / 2;
      shift := shift - 1;
    }
  }

  /** One candidate; neither the shifted numerator nor the sum leaves 64 bits. */
  method FirstMult(numerator: u32, denominator: u32, shift: u32) returns (mult: u64)
    requires denominator > 0 && shift <= 32
    ensures mult == Candidate(numerator, denominator, shift)
  {
    SumFits(numerator, denominator, shift);
    var shifted: u64 := numerator * Pow2(shift);
    var sum: u64 := shifted + denominator / 2;
    QuotientShrinks(sum, denominator);
    mult := sum / denominator;
  }

  lemma QuotientShrinks(a: nat, d: nat)
    requires d > 0
    ensures 0 <= a / d <= a
  {
    DivisionBounds(a, d);
    MulGrows(a / d, 1, d);
  }

  lemma SumFits(n: u32, d: u32, shift: nat)
    requires shift <= TOP
    ensures n * Pow2(shift) + d / 2 < U64
  {
    Pow2Grows(shift, TOP);
    Pow2U32();
    MulGrows(n, Pow2(shift), U32);
  }

  method Inverse(r: Ratio) returns (i: Option<Ratio>)
    ensures i.None? <==> r.numerator == 0 && r.denominator != 0
    ensures i.Some? ==> Built(i.value) && i.value.numerator == r.denominator && i.value.denominator == r.numerator
  {
    i := New(r.denominator, r.numerator);
  }

  /** `a >> s`, one bit at a time. */
  function ShiftRight(a: nat, s: nat): (r: nat)
    ensures Pow2(s) * r <= a < Pow2(s) * r + Pow2(s)
    decreases s
  {
    if s == 0 then a else
      var r := ShiftRight(a / 2, s - 1);
      assert Pow2(s) * r == 2 * (Pow2(s - 1) * r);
      r
  }

  /** What mul_trunc computes before the cast to 64 bits. */
  function Truncated(r: Ratio, value: u64): nat {
    ShiftRight(value * r.mult, r.shift)
  }

  function MulTrunc(r: Ratio, value: u64): u64 { Truncated(r, value) % U64 }

  /** What mul_round computes before the cast to 64 bits. */
  function Rounded(r: Ratio, value: u64): (k: nat)
    ensures Nearest(value * r.mult, Pow2(r.shift), k)
  {
    ShiftRight(value * r.mult + Pow2(r.shift) / 2, r.shift)
  }

  function MulRound(r: Ratio, value: u64): u64 { Rounded(r, value) % U64 }

  lemma TruncCast(r: Ratio, value: u64)
    requires Truncated(r, value) < U64
    ensures MulTrunc(r, value) == Truncated(r, value)
  {
  }

  lemma RoundCast(r: Ratio, value: u64)
    requires Rounded(r, value) < U64
    ensures MulRound(r, value) == Rounded(r, value)
  {
  }

  /** Equal fractions, in particular k * n over k * d, give equal ratios. */
  lemma EqualFractionsEqualRatios(r: Ratio, t: Ratio)
    requires Built(r) && Built(t) && r.denominator > 0 && t.denominator > 0
    requires r.numerator * t.denominator == t.numerator * r.denominator
    ensures r.mult == t.mult && r.shift == t.shift
  {
    var (n, d, m, e) := (r.numerator, r.denominator, t.numerator, t.denominator);
    assert n == 0 <==> m == 0 by {
      Cancel(e, 0, n);
      Cancel(d, 0, m);
    }
    assert Fixed(n, d) == Fixed(m, e) by {
      SameFixed(n, d, m, e);
    }
  }

  /** The shift at which the search for `r` stopped: its precision. */
  function Precision(r: Ratio): (s: nat)
    requires Built(r)
    ensures s <= 32
    ensures 0 < r.numerator < r.denominator ==> s == 32
  {
    if r.numerator == 0 then 32 else
    if r.numerator < r.denominator then (ProperStop(r.numerator, r.denominator); Stop(r.numerator, r.denominator, TOP))
    else Stop(r.numerator, r.denominator, TOP)
  }

  /** What the equality test compares. */
  predicate Equal(r: Ratio, t: Ratio) {
    r.mult == t.mult && r.shift == t.shift
  }

  /** Both fractions, in units of 2^-s, round to `k`. */
  predicate SharedCell(r: Ratio, t: Ratio, s: nat, k: nat) {
    && Nearest(r.numerator * Pow2(s), r.denominator, k)
    && Nearest(t.numerator * Pow2(s), t.denominator, k)
  }

  lemma BuiltIsFixed(r: Ratio)
    requires Built(r) && r.denominator > 0
    ensures Fraction(r.mult, r.shift) == Fixed(r.numerator, r.denominator)
    ensures Precision(r) == Stop(r.numerator, r.denominator, TOP)
  {
    if r.numerator == 0 {
      FixedZero(r.denominator);
    }
  }

  /** One integer is nearest to both exactly when the candidates at that shift are the same. */
  lemma SharedCellIff(r: Ratio, t: Ratio, s: nat)
    requires r.denominator > 0 && t.denominator > 0
    ensures (exists k: nat :: SharedCell(r, t, s, k)) <==>
            Candidate(r.numerator, r.denominator, s) == Candidate(t.numerator, t.denominator, s)
  {
    var b, c := Candidate(r.numerator, r.denominator, s), Candidate(t.numerator, t.denominator, s);
    if b == c {
      assert SharedCell(r, t, s, b);
    }
    if k: nat :| SharedCell(r, t, s, k) {
      NearestUnique(r.numerator * Pow2(s), r.denominator, k, b);
      NearestUnique(t.numerator * Pow2(s), t.denominator, k, c);
    }
  }

  /** Two ratios compare equal exactly when they have one precision and round to one integer at it. */
  lemma EqualIff(r: Ratio, t: Ratio)
    requires Built(r) && Built(t) && r.denominator > 0 && t.denominator > 0
    ensures Equal(r, t) <==> Precision(r) == Precision(t) && exists k: nat :: SharedCell(r, t, Precision(r), k)
  {
    assert Equal(r, t) <==> Fixed(r.numerator, r.denominator) == Fixed(t.numerator, t.denominator) by {
      BuiltIsFixed(r);
      BuiltIsFixed(t);
    }
    assert Precision(r) == Stop(r.numerator, r.denominator, TOP) by { BuiltIsFixed(r); }
    assert Precision(t) == Stop(t.numerator, t.denominator, TOP) by { BuiltIsFixed(t); }
    SameFixedIff(r.numerator, r.denominator, t.numerator, t.denominator);
    SharedCellIff(r, t, Precision(r));
  }

  /** The ratio 0 / 0 equals exactly the ratios with numerator zero. */
  lemma EqualToNothing(r: Ratio, t: Ratio)
    requires Built(r) && Built(t) && t.denominator == 0
    ensures Equal(r, t) <==> r.numerator == 0
  {
    if r.numerator > 0 {
      FixedPositive(r.numerator, r.denominator);
    }
  }

  /** So ratios that compare equal are less than 2^-s apart: |n/d - m/e| * 2^s < 1. */
  lemma EqualAreClose(r: Ratio, t: Ratio)
    requires Built(r) && Built(t) && r.denominator > 0 && t.denominator > 0 && Equal(r, t)
    ensures Abs(r.numerator * t.denominator - t.numerator * r.denominator) * Pow2(Precision(r))
            < r.denominator * t.denominator
  {
    EqualIff(r, t);
    var s := Precision(r);
    var k: nat :| SharedCell(r, t, s, k);
    CellWidth(r.numerator, r.denominator, t.numerator, t.denominator, Pow2(s), k);
  }

  /** Two fractions that round to one integer in units of 1 / p are less than a unit apart. */
  lemma CellWidth(n: nat, d: nat, m: nat, e: nat, p: nat, k: nat)
    requires d > 0 && e > 0 && Nearest(n * p, d, k) && Nearest(m * p, e, k)
    ensures Abs(n * e - m * d) * p < d * e
  {
    assert -(d * e) < e * (n * p) - d * (m * p) < d * e by { CellGap(d, e, n * p, m * p, k); }
    assert (n * e - m * d) * p == e * (n * p) - d * (m * p) by { Difference(n, e, m, d, p); }
    AbsTimes(n * e - m * d, p);
  }

  lemma Difference(n: nat, e: nat, m: nat, d: nat, p: nat)
    ensures (n * e - m * d) * p == e * (n * p) - d * (m * p)
  {
    assert (n * e) * p == e * (n * p) && (m * d) * p == d * (m * p);
  }

  lemma AbsTimes(a: int, p: nat)
    ensures Abs(a) * p == Abs(a * p)
  {
  }

  lemma CellGap(d: nat, e: nat, x: nat, y: nat, k: nat)
    requires d > 0 && e > 0 && Nearest(x, d, k) && Nearest(y, e, k)
    ensures -(d * e) < e * x - d * y < d * e
  {
    Cancel(e, 2 * (d * k), 2 * x + d);
    Cancel(e, 2 * x + d, 2 * (d * k) + 2 * d);
    Cancel(d, 2 * (e * k), 2 * y + e);
    Cancel(d, 2 * y + e, 2 * (e * k) + 2 * e);
    CellArithmetic(d, e, x, y, k);
  }

  lemma CellArithmetic(d: nat, e: nat, x: nat, y: nat, k: nat)
    requires e * (2 * (d * k)) <= e * (2 * x + d) < e * (2 * (d * k) + 2 * d)
    requires d * (2 * (e * k)) <= d * (2 * y + e) < d * (2 * (e * k) + 2 * e)
    ensures -(d * e) < e * x - d * y < d * e
  {
    var c := d * (e * k);
    assert e * (d * k) == c by { Swap(e, d, k); }
    Distribute(e, d * k, d);
    Distribute(e, d * k, 2 * d);
    Distribute(e, x, d);
    Distribute(d, e * k, e);
    Distribute(d, e * k, 2 * e);
    Distribute(d, y, e);
    assert e * d == d * e && e * (2 * d) == 2 * (d * e) && d * (2 * e) == 2 * (d * e);
  }

  /** Not all different fractions are told apart: these two round to the same pair. */
  lemma DistinctFractionsMayAgree()
    ensures Fixed(1, U32 - 1) == Fixed(1, U32 - 2) == Fraction(1, 32)
  {
    Pow2U32();
    assert Candidate(1, U32 - 1, TOP) == 1;
    assert Candidate(1, U32 - 2, TOP) == 1;
    assert Reduce(1, TOP) == Fraction(1, TOP);
  }

  /** `k` is less than one away from v * n / d. */
  predicate Close(v: nat, n: nat, d: nat, k: nat) {
    v * n < d * k + d && d * k < v * n + d
  }

  /** A rounded product of a rounded multiplier: the two half units add to less than one. */
  lemma TwoRoundings(v: nat, n: nat, d: nat, m: nat, q: nat, r: nat)
    requires d > 0 && v < q && Nearest(n * q, d, m) && Nearest(v * m, q, r)
    ensures Close(v, n, d, r)
  {
    var x, y, t, u, w := q * (d * r), q * (v * n), v * (d * m), v * d, q * d;
    assert 2 * t <= 2 * y + u && 2 * y <= 2 * t + u by { ScaledNearest(v, n * q, d, m); Regroup(v, n, q); }
    assert 2 * x <= 2 * t + w < 2 * x + 2 * w by { ScaledRounding(d, v, m, q, r); }
    assert u < w by { Cancel(d, v, q); }
    assert q * (v * n + d) == y + w && q * (d * r + d) == x + w;
    assert d * r < v * n + d by { Cancel(q, d * r, v * n + d); }
    assert v * n < d * r + d by { Cancel(q, v * n, d * r + d); }
  }

  lemma Regroup(a: nat, b: nat, c: nat)
    ensures a * (b * c) == c * (a * b)
  {
  }

  lemma ScaledNearest(v: nat, a: nat, d: nat, m: nat)
    requires Nearest(a, d, m)
    ensures 2 * (v * (d * m)) <= 2 * (v * a) + v * d
    ensures 2 * (v * a) <= 2 * (v * (d * m)) + v * d
  {
    var b := d * m;
    MulGrows(v, 2 * b, 2 * a + d);
    MulGrows(v, 2 * a, 2 * b + d);
    Distribute(v, a, d);
    Distribute(v, b, d);
  }

  lemma Distribute(k: nat, a: nat, b: nat)
    ensures k * (2 * a + b) == 2 * (k * a) + k * b
    ensures k * (2 * a) == 2 * (k * a)
  {
  }

  lemma ScaledRounding(d: nat, v: nat, m: nat, q: nat, r: nat)
    requires d > 0 && Nearest(v * m, q, r)
    ensures 2 * (q * (d * r)) <= 2 * (v * (d * m)) + q * d < 2 * (q * (d * r)) + 2 * (q * d)
  {
    var a, b := v * m, q * r;
    Cancel(d, 2 * b, 2 * a + q);
    Cancel(d, 2 * a + q, 2 * b + 2 * q);
    Distribute(d, a, q);
    Distribute(d, b, 2 * q);
    Regroup(q, d, r);
    Regroup(d, q, r);
    Regroup(v, d, m);
    Regroup(d, v, m);
    assert d * a == v * (d * m) && d * b == q * (d * r);
  }

  lemma Regroup4(q: nat, p: nat, v: nat, m: nat)
    ensures (q * p) * (v * m) == q * (v * (m * p))
  {
    assert p * (v * m) == v * (m * p);
  }

  /** Rounding by the reduced pair or by the one the search stopped at is the same. */
  lemma RoundUnreduced(mult: nat, shift: nat, v: nat, r: nat)
    requires var f := Reduce(mult, shift); Nearest(v * f.mult, Pow2(f.shift), r)
    ensures Nearest(v * mult, Pow2(shift), r)
  {
    var f := Reduce(mult, shift);
    assert Pow2(shift) == Pow2(f.shift) * Pow2(shift - f.shift) by { Pow2Add(f.shift, shift - f.shift); }
    RoundScaled(f.mult, Pow2(f.shift), Pow2(shift - f.shift), v, r);
  }

  lemma RoundScaled(m: nat, q: nat, p: nat, v: nat, r: nat)
    requires q > 0 && p > 0 && Nearest(v * m, q, r)
    ensures Nearest(v * (m * p), q * p, r)
  {
    assert (q * p) * (v * m) == q * (v * (m * p)) by { Regroup4(q, p, v, m); }
    NearestOfValue(v * m, q, v * (m * p), q * p, r);
  }

  lemma RoundedCloseAt(n: nat, d: nat, s: nat, v: nat, k: nat)
    requires d > 0 && v < Pow2(s)
    requires var f := Reduce(Candidate(n, d, s), s); Nearest(v * f.mult, Pow2(f.shift), k)
    ensures Close(v, n, d, k)
  {
    var m := Candidate(n, d, s);
    assert Nearest(v * m, Pow2(s), k) by { RoundUnreduced(m, s, v, k); }
    TwoRoundings(v, n, d, m, Pow2(s), k);
  }

  lemma RoundFits(n: u32, d: nat, s: nat, v: nat, k: nat)
    requires d > 0 && s <= TOP && v < Pow2(s) && Close(v, n, d, k)
    ensures k < U64
  {
    WithinPrecision(s, v);
    ProductFits(v, n, d, k);
  }

  /** For values within the precision, mul_round is less than one away from value * n / d. */
  lemma RoundClose(r: Ratio, value: u64)
    requires Built(r) && r.numerator > 0 && value < Pow2(Precision(r))
    ensures Close(value, r.numerator, r.denominator, MulRound(r, value))
  {
    var n, d, s, k := r.numerator, r.denominator, Precision(r), Rounded(r, value);
    assert Close(value, n, d, k) by { RoundedCloseAt(n, d, s, value, k); }
    assert k < U64 by { RoundFits(n, d, s, value, k); }
    RoundCast(r, value);
  }

  lemma WithinPrecision(s: nat, v: nat)
    requires s <= TOP && v < Pow2(s)
    ensures v < U32
  {
    Pow2Grows(s, TOP);
    Pow2U32();
  }

  lemma ProductFits(v: nat, n: u32, d: nat, k: nat)
    requires v < U32 && d > 0 && Close(v, n, d, k)
    ensures k < U64
  {
    assert v * n < U64 - U32 by { MulGrows(n, v, U32 - 1); }
    assert k <= v * n + 1 by { Cancel(d, k, v * n + 2); MulGrows(v * n, 1, d); }
  }

  lemma CloseToWhole(v: nat, n: nat, d: nat, t: nat, k: nat)
    requires d > 0 && v * n == d * k && Close(v, n, d, t)
    ensures t == k
  {
    Cancel(d, k, t + 1);
    Cancel(d, t, k + 1);
  }

  /** mul_round is exact wherever an exact answer exists and the value is within the precision. */
  lemma RoundExact(r: Ratio, value: u64, k: nat)
    requires Built(r) && r.denominator > 0 && value * r.numerator == r.denominator * k
    requires value < Pow2(Precision(r))
    ensures MulRound(r, value) == k
  {
    if r.numerator == 0 {
      assert k == 0 by { Cancel(r.denominator, 0, k); }
      assert Rounded(r, value) == 0;
    } else {
      RoundClose(r, value);
      CloseToWhole(value, r.numerator, r.denominator, MulRound(r, value), k);
    }
  }

  /** How far the multiplier is from the fraction, in units of 1 / (d * 2^shift). */
  function Excess(r: Ratio): int {
    r.denominator * r.mult - r.numerator * Pow2(r.shift)
  }

  /** The exact condition for the product before the cast to 64 bits. */
  lemma TruncatedIff(r: Ratio, value: u64, q: nat, rem: nat)
    requires value * r.numerator == r.denominator * q + rem && rem < r.denominator
    ensures Truncated(r, value) == q <==>
            0 <= rem * Pow2(r.shift) + value * Excess(r) < r.denominator * Pow2(r.shift)
  {
    var (n, d, p, m) := (r.numerator, r.denominator, Pow2(r.shift), r.mult);
    var offset := rem * p + value * Excess(r);
    assert d * (value * m) == d * (q * p) + offset by { TruncIdentity(value, n, d, p, m, q, rem); }
    FloorIff(value * m, p, Truncated(r, value), q);
    OffsetBounds(d, value * m, q * p, p, offset);
  }

  /** Half a unit of the denominator bounds the excess, whatever the shift. */
  lemma ExcessBounded(r: Ratio)
    requires Built(r) && r.denominator > 0
    ensures 2 * Abs(Excess(r)) <= r.denominator
  {
    if r.numerator > 0 {
      ReducedExcess(r.numerator, r.denominator, Stop(r.numerator, r.denominator, TOP));
    }
  }

  lemma ReducedExcess(n: nat, d: nat, s: nat)
    requires d > 0
    ensures var f := Reduce(Candidate(n, d, s), s); 2 * Abs(d * f.mult - n * Pow2(f.shift)) <= d
  {
    var f := Reduce(Candidate(n, d, s), s);
    var p := Pow2(s - f.shift);
    assert Pow2(s) == Pow2(f.shift) * p by { Pow2Add(f.shift, s - f.shift); }
    assert 2 * Abs(d * (f.mult * p) - n * (Pow2(f.shift) * p)) <= d by { CandidateError(n, d, s); }
    ScaledExcess(n, d, f.mult, Pow2(f.shift), p);
  }

  lemma ScaledExcess(n: nat, d: nat, m: nat, q: nat, p: nat)
    requires p > 0 && 2 * Abs(d * (m * p) - n * (q * p)) <= d
    ensures 2 * Abs(d * m - n * q) <= d
  {
    var e := d * m - n * q;
    assert d * (m * p) - n * (q * p) == p * e by {
      Regroup(d, m, p);
      Regroup(n, q, p);
      assert p * e == p * (d * m) - p * (n * q);
    }
    AbsGrows(p, e);
  }

  lemma AbsGrows(p: nat, e: int)
    requires p > 0
    ensures Abs(e) <= Abs(p * e)
  {
    if e >= 0 { MulGrows(e, 1, p); } else { MulGrows(-e, 1, p); assert p * e == -(p * -e); }
  }

  /** A quotient by the held fraction is little more than half the value away from the true one. */
  lemma HeldNear(v: nat, n: nat, d: nat, p: nat, m: nat, q: nat, rem: nat, t: nat)
    requires p > 0 && rem < d && v * n == d * q + rem && 2 * Abs(d * m - n * p) <= d
    requires p * t <= v * m < p * t + p
    ensures Abs(t - q) <= v / 2 + 2
  {
    var e, h := d * m - n * p, v / 2 + 1;
    assert d * (v * m) == d * (q * p) + (rem * p + v * e) by { TruncIdentity(v, n, d, p, m, q, rem); }
    assert Abs(v * e) <= h * d by { HalfProduct(v, e, d); }
    assert 0 <= rem * p <= d * p by { MulGrows(p, rem, d); }
    NearQuotient(d, p, v * m, q, t, h, rem * p + v * e);
  }

  lemma HalfProduct(v: nat, e: int, d: nat)
    requires 2 * Abs(e) <= d
    ensures Abs(v * e) <= (v / 2 + 1) * d
  {
    var h, a := v / 2 + 1, Abs(e);
    assert Abs(v * e) == v * a;
    MulGrows(a, v, 2 * h);
    MulGrows(h, 2 * a, d);
  }

  lemma NearQuotient(d: nat, p: nat, a: nat, q: nat, t: nat, v: nat, offset: int)
    requires d > 0 && p > 0 && p * t <= a < p * t + p
    requires d * a == d * (q * p) + offset && -(v * d) <= offset <= d * p + v * d
    ensures Abs(t - q) <= v + 1
  {
    assert d * a <= d * (q * p + p + v) && d * (q * p) <= d * (a + v);
    Cancel(d, a, q * p + p + v);
    Cancel(d, q * p, a + v);
    // so p * t <= q * p + p + v and q * p < p * t + p + v
    MulGrows(v, 1, p);
    assert p * t <= p * (q + 1 + v) && p * q <= p * (t + 1 + v);
    Cancel(p, t, q + 1 + v);
    Cancel(p, q, t + 1 + v);
  }

  /**
   * With `q` and `rem` the quotient and remainder of value * n by d, mul_trunc returns the documented
   * floor `q` exactly when `q` fits 64 bits and the multiplier's excess leaves the remainder in range.
   */
  lemma TruncExactIff(r: Ratio, value: u64, q: nat, rem: nat)
    requires Built(r) && value * r.numerator == r.denominator * q + rem && rem < r.denominator
    ensures MulTrunc(r, value) == q <==>
            q < U64 && 0 <= rem * Pow2(r.shift) + value * Excess(r) < r.denominator * Pow2(r.shift)
  {
    var t := Truncated(r, value);
    assert Abs(t - q) < U64 by {
      ExcessBounded(r);
      HeldNear(value, r.numerator, r.denominator, Pow2(r.shift), r.mult, q, rem, t);
    }
    assert t == q <==> 0 <= rem * Pow2(r.shift) + value * Excess(r) < r.denominator * Pow2(r.shift) by {
      TruncatedIff(r, value, q, rem);
    }
    CastTells(r, value, q);
  }

  lemma CastTells(r: Ratio, value: u64, q: nat)
    requires Abs(Truncated(r, value) - q) < U64
    ensures MulTrunc(r, value) == q <==> q < U64 && Truncated(r, value) == q
  {
    Residue(Truncated(r, value), q);
  }

  lemma Residue(t: nat, q: nat)
    requires Abs(t - q) < U64
    ensures t % U64 == q <==> q < U64 && t == q
  {
  }

  lemma OffsetBounds(d: nat, a: nat, b: nat, p: nat, offset: int)
    requires d > 0 && d * a == d * b + offset
    ensures b <= a <==> 0 <= offset
    ensures a < b + p <==> offset < d * p
  {
    Cancel(d, b, a);
    Cancel(d, a, b + p);
  }

  /** Within the precision the excess never reaches the next whole number. */
  lemma ExcessSmall(n: nat, d: nat, s: nat, v: nat)
    requires d > 0 && v < Pow2(s)
    ensures var f := Reduce(Candidate(n, d, s), s);
            v * (d * f.mult - n * Pow2(f.shift)) < d * Pow2(f.shift)
  {
    var m := Candidate(n, d, s);
    var f := Reduce(m, s);
    assert Pow2(s) == Pow2(f.shift) * Pow2(s - f.shift) by { Pow2Add(f.shift, s - f.shift); }
    ExcessScaled(n, d, f.mult, Pow2(f.shift), Pow2(s - f.shift), v);
  }

  lemma ExcessScaled(n: nat, d: nat, m: nat, q: nat, p: nat, v: nat)
    requires d > 0 && p > 0 && v < q * p && Nearest(n * (q * p), d, m * p)
    ensures v * (d * m - n * q) < d * q
  {
    var e := d * m - n * q;
    HalfUnitExcess(n, d, m, q, p);
    if e > 0 {
      ExcessBelow(d, q, p, v, e);
    } else {
      NotPositive(v, e);
      Cancel(d, 0, q);
    }
  }

  lemma HalfUnitExcess(n: nat, d: nat, m: nat, q: nat, p: nat)
    requires Nearest(n * (q * p), d, m * p)
    ensures 2 * (p * (d * m - n * q)) <= d
  {
    Regroup(d, m, p);
    Regroup(n, q, p);
    assert p * (d * m - n * q) == p * (d * m) - p * (n * q);
  }

  lemma ExcessBelow(d: nat, q: nat, p: nat, v: nat, e: nat)
    requires d > 0 && p > 0 && v < q * p && 2 * (p * e) <= d
    ensures v * e < d * q
  {
    assert p * (v * e) <= v * d by { MulGrows(v, p * e, d); Regroup(v, e, p); Regroup(v, p, e); }
    assert v * d < p * (d * q) by { Cancel(d, v, q * p); Regroup(d, q, p); }
    Cancel(p, v * e, d * q);
  }

  lemma NotPositive(v: nat, e: int)
    requires e <= 0
    ensures v * e <= 0
  {
  }

  lemma TruncatedOfWhole(r: Ratio, value: u64, k: nat)
    requires Built(r) && r.numerator > 0 && value * r.numerator == r.denominator * k
    requires value < Pow2(Precision(r))
    ensures Truncated(r, value) == k <==> 0 <= value * Excess(r)
  {
    assert value * Excess(r) < r.denominator * Pow2(r.shift) by {
      ExcessSmall(r.numerator, r.denominator, Precision(r), value);
    }
    WholeIff(r, value, k);
  }

  lemma WholeIff(r: Ratio, value: u64, k: nat)
    requires r.denominator > 0 && value * r.numerator == r.denominator * k
    requires value * Excess(r) < r.denominator * Pow2(r.shift)
    ensures Truncated(r, value) == k <==> 0 <= value * Excess(r)
  {
    TruncatedIff(r, value, k, 0);
  }

  lemma TruncFits(v: nat, m: u32, p: nat, t: nat)
    requires v < U32 && p > 0 && p * t <= v * m
    ensures t < U64
  {
    MulGrows(m, v, U32 - 1);
    MulGrows(t, 1, p);
  }

  /** On a whole answer within the precision, mul_trunc is right unless the multiplier was rounded down. */
  lemma TruncOfWhole(r: Ratio, value: u64, k: nat)
    requires Built(r) && r.numerator > 0 && value * r.numerator == r.denominator * k
    requires value < Pow2(Precision(r))
    ensures MulTrunc(r, value) == k <==> value == 0 || Excess(r) >= 0
  {
    var t := Truncated(r, value);
    assert t == k <==> value == 0 || Excess(r) >= 0 by {
      TruncatedOfWhole(r, value, k);
      SignOfProduct(value, Excess(r));
    }
    assert t < U64 by {
      WithinPrecision(Precision(r), value);
      TruncFits(value, r.mult, Pow2(r.shift), t);
    }
    TruncCast(r, value);
  }

  lemma SignOfProduct(v: nat, e: int)
    ensures 0 <= v * e <==> v == 0 || e >= 0
  {
  }

  lemma FixedThird()
    ensures Fixed(1, 3) == Fraction(1431655765, 32)
  {
    Pow2U32();
    assert Candidate(1, 3, TOP) == 1431655765;
    assert Reduce(1431655765, TOP) == Fraction(1431655765, TOP);
  }

  /** So a third of three comes out as zero. */
  lemma ThirdOfThree(r: Ratio)
    requires Built(r) && r.numerator == 1 && r.denominator == 3
    ensures MulTrunc(r, 3) == 0 && MulRound(r, 3) == 1
  {
    FixedThird();
    assert Pow2(r.shift) == U32 by { Pow2U32(); }
  }

  lemma TruncIdentity(v: int, n: int, d: int, p: int, m: int, q: int, rem: int)
    requires v * n == d * q + rem
    ensures d * (v * m) == d * (q * p) + rem * p + v * (d * m - n * p)
  {
    calc {
      v * (d * m - n * p);
      v * (d * m) - v * (n * p);
      { assert v * (n * p) == (v * n) * p; }
      v * (d * m) - (d * q + rem) * p;
      d * (v * m) - d * (q * p) - rem * p;
    }
  }

  lemma FloorIff(a: nat, p: nat, f: nat, q: nat)
    requires p > 0 && p * f <= a < p * f + p
    ensures f == q <==> q * p <= a < q * p + p
  {
    if f < q { MulGrows(p, f + 1, q); }
    if q < f { MulGrows(p, q + 1, f); }
  }
}
