/** How `n / d` is approximated by `mult / 2^shift`, and how far off that is. */
module FixedPoint {
  import opened Powers

  const U32: nat := 0x1_0000_0000
  const U64: nat := 0x1_0000_0000_0000_0000

  /** The largest shift tried. */
  const TOP: nat := 32

  type u32 = x: nat | x < U32
  type u64 = x: nat | x < U64

  lemma Pow2U32()
    ensures Pow2(TOP) == U32
  {
    assert Pow2(8) == 256;
    Pow2Add(8, 8);
    assert Pow2(16) == 0x1_0000;
    Pow2Add(16, 16);
  }

  /** `r` is `a / d` rounded to the nearest integer, halves upwards. */
  predicate Nearest(a: nat, d: nat, r: nat) {
    2 * (d * r) <= 2 * a + d < 2 * (d * r) + 2 * d
  }

  /** The candidate multiplier the search computes at one shift. */
  function Candidate(n: nat, d: nat, shift: nat): (r: nat)
    requires d > 0
    ensures Nearest(n * Pow2(shift), d, r)
  {
    var a := n * Pow2(shift) + d / 2;
    var r := a / d;
    DivisionBounds(a, d);
    r
  }

  lemma DivisionBounds(a: nat, d: nat)
    requires d > 0
    ensures d * (a / d) <= a < d * (a / d) + d
  {
    assert a == d * (a / d) + a % d;
  }

  lemma NearestUnique(a: nat, d: nat, r: nat, s: nat)
    requires Nearest(a, d, r) && Nearest(a, d, s) && d > 0
    ensures r == s
  {
    if r < s { MulGrows(d, r + 1, s); }
    if s < r { MulGrows(d, s + 1, r); }
  }

  lemma MulGrows(k: nat, a: nat, b: nat)
    requires a <= b
    ensures k * a <= k * b
  {
    assert k * b == k * a + k * (b - a);
  }

  /** A common factor may be taken out of a comparison. */
  lemma Cancel(k: nat, a: nat, b: nat)
    requires k > 0
    ensures k * a <= k * b <==> a <= b
    ensures k * a < k * b <==> a < b
  {
    if a <= b { MulGrows(k, a, b); } else { MulGrows(k, b + 1, a); }
    if a < b { MulGrows(k, a + 1, b); } else { MulGrows(k, b, a); }
  }

  lemma ScaledBounds(d: nat, e: nat, x: nat, y: nat, a: nat, b: nat)
    requires d > 0 && e > 0 && e * x == d * y && e * a == d * b
    ensures 2 * x <= 2 * a + d <==> 2 * y <= 2 * b + e
    ensures 2 * a + d < 2 * x + 2 * d <==> 2 * b + e < 2 * y + 2 * e
  {
    Cancel(e, 2 * x, 2 * a + d);
    Cancel(d, 2 * y, 2 * b + e);
    Cancel(e, 2 * a + d, 2 * x + 2 * d);
    Cancel(d, 2 * b + e, 2 * y + 2 * e);
  }

  lemma Swap(a: nat, b: nat, c: nat)
    ensures a * (b * c) == b * (a * c)
  {
  }

  /** Equal fractions round to the same integer. */
  lemma NearestOfValue(a: nat, d: nat, b: nat, e: nat, r: nat)
    requires d > 0 && e > 0 && e * a == d * b && Nearest(a, d, r)
    ensures Nearest(b, e, r)
  {
    var x, y := d * r, e * r;
    assert e * x == d * y by { Swap(e, d, r); }
    ScaledBounds(d, e, x, y, a, b);
  }

  /** The shift at which the search stops, looking downwards from `shift`. */
  function Stop(n: nat, d: nat, shift: nat): (s: nat)
    requires d > 0
    ensures s <= shift
    ensures s == 0 || Candidate(n, d, s) < U32
    ensures forall t | s < t <= shift :: Candidate(n, d, t) >= U32
  {
    if Candidate(n, d, shift) < U32 || shift == 0 then shift else Stop(n, d, shift - 1)
  }

  /** mult / 2^shift */
  datatype Fraction = Fraction(mult: nat, shift: nat)

  /** The multiplier and shift with common factors of two taken out. */
  function Reduce(mult: nat, shift: nat): (r: Fraction)
    ensures r.mult % 2 == 1 || r.shift == 0
    ensures r.shift <= shift && mult == r.mult * Pow2(shift - r.shift)
    decreases shift
  {
    if mult % 2 == 0 && shift > 0 then Reduce(mult / 2, shift - 1) else Fraction(mult, shift)
  }

  /** The multiplier and shift of `n / d`. */
  function Fixed(n: nat, d: nat): (r: Fraction)
    requires d > 0
  {
    var s := Stop(n, d, TOP);
    Reduce(Candidate(n, d, s), s)
  }

  /** At shift 0 the candidate is no larger than the numerator, or than one. */
  lemma CandidateAtZero(n: nat, d: nat)
    requires d > 0 && n < U32
    ensures Candidate(n, d, 0) < U32
  {
    var r := Candidate(n, d, 0);
    assert Nearest(n, d, r);
    assert d * U32 >= n + d by {
      MulGrows(U32 - 1, 1, d);
    }
    Cancel(d, r, U32);
  }

  lemma FixedFits(n: u32, d: u32)
    requires d > 0
    ensures Fixed(n, d).mult < U32 && Fixed(n, d).shift <= TOP
  {
    var s := Stop(n, d, TOP);
    CandidateAtZero(n, d);
    var r := Reduce(Candidate(n, d, s), s);
    MulGrows(r.mult, 1, Pow2(s - r.shift));
  }

  lemma SameCandidate(n: nat, d: nat, m: nat, e: nat, s: nat)
    requires d > 0 && e > 0 && n * e == m * d
    ensures Candidate(n, d, s) == Candidate(m, e, s)
  {
    var p := Pow2(s);
    assert e * (n * p) == (n * e) * p == (m * d) * p == d * (m * p);
    NearestOfValue(n * p, d, m * p, e, Candidate(n, d, s));
    NearestUnique(m * p, e, Candidate(n, d, s), Candidate(m, e, s));
  }

  lemma {:induction false} SameStop(n: nat, d: nat, m: nat, e: nat, s: nat)
    requires d > 0 && e > 0 && n * e == m * d
    ensures Stop(n, d, s) == Stop(m, e, s)
  {
    SameCandidate(n, d, m, e, s);
    if s > 0 {
      SameStop(n, d, m, e, s - 1);
    }
  }

  /** The representation depends only on the value of the fraction. */
  lemma SameFixed(n: nat, d: nat, m: nat, e: nat)
    requires d > 0 && e > 0 && n * e == m * d
    ensures Fixed(n, d) == Fixed(m, e)
  {
    SameStop(n, d, m, e, TOP);
    SameCandidate(n, d, m, e, Stop(n, d, TOP));
  }

  lemma FixedZero(d: nat)
    requires d > 0
    ensures Stop(0, d, TOP) == TOP && Fixed(0, d) == Fraction(0, 0)
  {
    assert Candidate(0, d, TOP) == 0 by { NearestUnique(0, d, Candidate(0, d, TOP), 0); }
    ReduceZero(TOP);
  }

  lemma {:induction false} ReduceZero(shift: nat)
    ensures Reduce(0, shift) == Fraction(0, 0)
  {
    if shift > 0 { ReduceZero(shift - 1); }
  }

  lemma NearestDouble(a: nat, d: nat, r: nat, r': nat)
    requires d > 0 && Nearest(a, d, r) && Nearest(2 * a, d, r')
    ensures r' <= 2 * r + 1
  {
    assert d * (2 * r + 2) == 2 * (d * r) + 2 * d;
    Cancel(d, r', 2 * r + 2);
  }

  /** One more bit of precision no more than doubles the candidate, but for one. */
  lemma CandidateNext(n: nat, d: nat, s: nat)
    requires d > 0
    ensures Candidate(n, d, s + 1) <= 2 * Candidate(n, d, s) + 1
  {
    assert n * Pow2(s + 1) == 2 * (n * Pow2(s)) by { Swap(n, 2, Pow2(s)); }
    NearestDouble(n * Pow2(s), d, Candidate(n, d, s), Candidate(n, d, s + 1));
  }

  /** Pairs that reduce to the same one differ by a power of two. */
  lemma SameReduction(c: nat, s: nat, b: nat, t: nat)
    requires Reduce(c, s) == Reduce(b, t) && t <= s
    ensures c == b * Pow2(s - t)
  {
    var f := Reduce(b, t);
    assert Pow2(s - f.shift) == Pow2(t - f.shift) * Pow2(s - t) by {
      Pow2Add(t - f.shift, s - t);
      assert t - f.shift + (s - t) == s - f.shift;
    }
    Associate(f.mult, Pow2(t - f.shift), Pow2(s - t));
  }

  lemma Associate(a: nat, b: nat, c: nat)
    ensures a * (b * c) == (a * b) * c
  {
  }

  lemma Halved(b: nat, c: nat, k: nat)
    requires c == b * Pow2(k) && k > 0 && c < U32
    ensures 2 * b + 1 < U32
  {
    MulGrows(b, 2, Pow2(k));
  }

  lemma DifferentReductions(c: nat, s: nat, b: nat, t: nat)
    requires t < s && c < U32 <= 2 * b + 1
    ensures Reduce(c, s) != Reduce(b, t)
  {
    if Reduce(c, s) == Reduce(b, t) {
      SameReduction(c, s, b, t);
      Halved(b, c, s - t);
    }
  }

  /** A search that stops early could not have gone on: one more bit and the candidate does not fit. */
  lemma StopsForReason(n: nat, d: nat)
    requires d > 0
    ensures var s := Stop(n, d, TOP);
            && (s > 0 ==> Candidate(n, d, s) < U32)
            && (s < TOP ==> 2 * Candidate(n, d, s) + 1 >= U32)
  {
    var s := Stop(n, d, TOP);
    if s < TOP {
      CandidateNext(n, d, s);
    }
  }

  /** A search that stops lower would have found its candidate one shift earlier. */
  lemma HigherStopDiffers(n: nat, d: nat, m: nat, e: nat)
    requires d > 0 && e > 0 && Stop(m, e, TOP) < Stop(n, d, TOP)
    ensures Fixed(n, d) != Fixed(m, e)
  {
    StopsForReason(n, d);
    StopsForReason(m, e);
    DifferentReductions(Candidate(n, d, Stop(n, d, TOP)), Stop(n, d, TOP), Candidate(m, e, Stop(m, e, TOP)), Stop(m, e, TOP));
  }

  lemma SameAtOneShift(c: nat, b: nat, s: nat)
    ensures Reduce(c, s) == Reduce(b, s) <==> c == b
  {
    if Reduce(c, s) == Reduce(b, s) {
      SameReduction(c, s, b, s);
    }
  }

  /** Two fractions are held alike exactly when the search stops at one shift with one candidate. */
  lemma SameFixedIff(n: nat, d: nat, m: nat, e: nat)
    requires d > 0 && e > 0
    ensures Fixed(n, d) == Fixed(m, e) <==>
            var s := Stop(n, d, TOP); s == Stop(m, e, TOP) && Candidate(n, d, s) == Candidate(m, e, s)
  {
    var s, t := Stop(n, d, TOP), Stop(m, e, TOP);
    if t < s {
      HigherStopDiffers(n, d, m, e);
    } else if s < t {
      HigherStopDiffers(m, e, n, d);
    } else {
      SameAtOneShift(Candidate(n, d, s), Candidate(m, e, s), s);
    }
  }

  lemma ReducePositive(mult: nat, shift: nat)
    requires mult > 0
    ensures Reduce(mult, shift).mult > 0
  {
    var f := Reduce(mult, shift);
    PositiveFactor(f.mult, Pow2(shift - f.shift));
  }

  lemma PositiveFactor(a: nat, b: nat)
    requires a * b > 0
    ensures a > 0
  {
  }

  lemma StopPositive(n: u32, d: u32)
    requires n > 0 && d > 0
    ensures Candidate(n, d, Stop(n, d, TOP)) > 0
  {
    var s := Stop(n, d, TOP);
    if s < TOP { CandidateNext(n, d, s); } else { TopPositive(n, d); }
  }

  /** A positive fraction is never held as zero. */
  lemma FixedPositive(n: u32, d: u32)
    requires n > 0 && d > 0
    ensures Fixed(n, d).mult > 0
  {
    StopPositive(n, d);
    ReducePositive(Candidate(n, d, Stop(n, d, TOP)), Stop(n, d, TOP));
  }

  lemma TopPositive(n: u32, d: u32)
    requires n > 0 && d > 0
    ensures Candidate(n, d, TOP) > 0
  {
    Pow2U32();
    MulGrows(U32, 1, n);
    assert Nearest(n * U32, d, Candidate(n, d, TOP));
  }

  /** A proper fraction keeps the full precision. */
  lemma ProperStop(n: u32, d: u32)
    requires 0 < n < d
    ensures Stop(n, d, TOP) == TOP
  {
    var r := Candidate(n, d, TOP);
    Pow2U32();
    assert Nearest(n * U32, d, r);
    assert d * U32 >= n * U32 + U32 by {
      MulGrows(U32, n + 1, d);
    }
    Cancel(d, r, U32);
  }

  function Abs(x: int): nat { if x < 0 then -x else x }

  /** Reducing keeps the value, which is within half a unit of 2^-s of the fraction. */
  lemma CandidateError(n: nat, d: nat, s: nat)
    requires d > 0
    ensures var f := Reduce(Candidate(n, d, s), s);
            2 * Abs(d * (f.mult * Pow2(s - f.shift)) - n * Pow2(s)) <= d
  {
    var c := Candidate(n, d, s);
    assert Nearest(n * Pow2(s), d, c);
    var f := Reduce(c, s);
    assert f.mult * Pow2(s - f.shift) == c;
  }

  lemma UnitErrorAt(n: nat, d: nat, s: nat)
    requires d > 0
    ensures var f := Reduce(Candidate(n, d, s), s);
            Near(f.mult, Pow2(f.shift), n, d, Pow2(s + 1))
  {
    var f := Reduce(Candidate(n, d, s), s);
    var q, p := Pow2(f.shift), Pow2(s - f.shift);
    assert Pow2(s) == q * p by { Pow2Add(f.shift, s - f.shift); }
    assert 2 * Abs(d * (f.mult * p) - n * (q * p)) <= d by { CandidateError(n, d, s); }
    assert Near(f.mult, q, n, d, 2 * (q * p)) by { UnitError(n, d, f.mult, q, p); }
  }

  /** m / q and n / d are at most 1 / w apart. */
  predicate Near(m: nat, q: nat, n: nat, d: nat, w: nat)
    requires q > 0 && d > 0 && w > 0
  {
    -1.0 <= (m as real / q as real - n as real / d as real) * w as real <= 1.0
  }

  /** The product held for `value` is within value / w of value * n / d. */
  predicate ProductNear(value: nat, m: nat, q: nat, n: nat, d: nat, w: nat)
    requires q > 0 && d > 0 && w > 0
  {
    var v := value as real;
    -(v / w as real) <= v * (m as real / q as real) - v * (n as real / d as real) <= v / w as real
  }

  /** value * mult / 2^shift is within value / 2^(s + 1) of value * n / d. */
  lemma ErrorBound(n: nat, d: nat, value: nat)
    requires d > 0
    ensures var s, f := Stop(n, d, TOP), Fixed(n, d);
            ProductNear(value, f.mult, Pow2(f.shift), n, d, Pow2(s + 1))
  {
    var s, f := Stop(n, d, TOP), Fixed(n, d);
    UnitErrorAt(n, d, s);
    ScaleNear(f.mult, Pow2(f.shift), n, d, Pow2(s + 1), value);
  }

  lemma ScaleNear(m: nat, q: nat, n: nat, d: nat, w: nat, value: nat)
    requires q > 0 && d > 0 && w > 0 && Near(m, q, n, d, w)
    ensures ProductNear(value, m, q, n, d, w)
  {
    ScaleError(value as real, m as real / q as real, n as real / d as real, w as real);
  }

  lemma ScaleError(v: real, held: real, exact: real, w: real)
    requires v >= 0.0 && w > 0.0 && -1.0 <= (held - exact) * w <= 1.0
    ensures -(v / w) <= v * held - v * exact <= v / w
  {
    var u, gap := v / w, held - exact;
    assert v == u * w;
    assert v * held - v * exact == v * gap == u * (gap * w);
    UnitTimes(u, gap * w);
  }

  lemma UnitTimes(u: real, g: real)
    requires u >= 0.0 && -1.0 <= g <= 1.0
    ensures -u <= u * g <= u
  {
  }

  lemma UnitError(n: nat, d: nat, m: nat, q: nat, p: nat)
    requires d > 0 && q > 0 && p > 0
    requires 2 * Abs(d * (m * p) - n * (q * p)) <= d
    ensures Near(m, q, n, d, 2 * (q * p))
  {
    CastError(n, d, m, q, p);
    RealUnit(n as real, d as real, m as real, q as real, p as real);
    Casts(2, q, p);
  }

  lemma CastError(n: nat, d: nat, m: nat, q: nat, p: nat)
    requires 2 * Abs(d * (m * p) - n * (q * p)) <= d
    ensures var (rn, rd, rm, rq, rp) := (n as real, d as real, m as real, q as real, p as real);
            -rd <= 2.0 * (rd * (rm * rp) - rn * (rq * rp)) <= rd
  {
    LinearCast(d * (m * p), n * (q * p), d);
    Casts(d, m, p);
    Casts(n, q, p);
  }

  lemma RealUnit(n: real, d: real, m: real, q: real, p: real)
    requires d > 0.0 && q > 0.0 && -d <= 2.0 * (d * (m * p) - n * (q * p)) <= d
    ensures -1.0 <= (m / q - n / d) * (2.0 * (q * p)) <= 1.0
  {
    var gap := (m / q - n / d) * (q * p);
    assert gap * d == d * (m * p) - n * (q * p) by { CrossMultiply(n, d, m, q, p); }
    HalfUnit(gap, d);
  }

  lemma LinearCast(x: int, y: int, d: int)
    requires 2 * Abs(x - y) <= d
    ensures -(d as real) <= 2.0 * (x as real - y as real) <= d as real
  {
  }

  lemma Casts(a: int, b: int, c: int)
    ensures (a * (b * c)) as real == a as real * (b as real * c as real)
  {
  }

  lemma HalfUnit(gap: real, d: real)
    requires d > 0.0 && -d <= 2.0 * (gap * d) <= d
    ensures -1.0 <= 2.0 * gap <= 1.0
  {
  }

  lemma CrossMultiply(n: real, d: real, m: real, q: real, p: real)
    requires d > 0.0 && q > 0.0
    ensures ((m / q - n / d) * (q * p)) * d == d * (m * p) - n * (q * p)
  {
    var a, b := m / q, n / d;
    assert a * q == m && b * d == n;
    assert ((a - b) * (q * p)) * d == d * ((a * q) * p) - (b * d) * (q * p);
  }
}
