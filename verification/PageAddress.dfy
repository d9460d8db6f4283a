/**
  Virtual addresses: table indices, pages and offsets within the reach of the
  indices, and the translation of an address by a tree of tables.
 */
module PageAddress {
  import opened Powers
  import opened PageTableSpec

  function P4Index(v: nat): (i: nat) ensures i < ENTRY_COUNT { v / 0x80_0000_0000 % ENTRY_COUNT }
  function P3Index(v: nat): (i: nat) ensures i < ENTRY_COUNT { v / 0x4000_0000 % ENTRY_COUNT }
  function P2Index(v: nat): (i: nat) ensures i < ENTRY_COUNT { v / 0x20_0000 % ENTRY_COUNT }
  function P1Index(v: nat): (i: nat) ensures i < ENTRY_COUNT { v / 0x1000 % ENTRY_COUNT }

  ghost predicate LevelsOk(levels: nat) { levels == 3 || levels == 4 }

  function Indices(levels: nat, v: nat): (ix: seq<nat>)
    requires LevelsOk(levels)
    ensures Path(levels, ix)
  {
    if levels == 3 then [P3Index(v), P2Index(v), P1Index(v)]
    else [P4Index(v), P3Index(v), P2Index(v), P1Index(v)]
  }

  /** The number with these binary digits, the lowest first. */
  function Binary(bits: seq<bool>): nat {
    if bits == [] then 0 else (if bits[0] then 1 else 0) + 2 * Binary(bits[1..])
  }

  /** Shifting right drops low digits, which is a division. */
  lemma {:induction false} ShiftDivides(bits: seq<bool>, k: nat)
    requires k <= |bits|
    ensures Binary(bits[k..]) == Binary(bits) / Pow2(k)
    decreases k
  {
    if k > 0 {
      ShiftDivides(bits[1..], k - 1);
      assert bits[1..][k - 1..] == bits[k..];
      HalveThenDivide(Binary(bits), Pow2(k - 1));
    }
  }

  lemma HalveThenDivide(x: nat, m: nat)
    requires m > 0
    ensures x / 2 / m == x / (2 * m)
  {
    var q, r := x / 2 / m, x / 2 % m;
    assert x / 2 == q * m + r;
    assert x == q * (2 * m) + (2 * r + x % 2);
    DivMod(x, 2 * m, q, 2 * r + x % 2);
  }

  /** Masking keeps low digits, which is a remainder. */
  lemma {:induction false} MaskRemains(bits: seq<bool>, k: nat)
    requires k <= |bits|
    ensures Binary(bits[..k]) == Binary(bits) % Pow2(k)
    decreases k
  {
    if k > 0 {
      MaskRemains(bits[1..], k - 1);
      assert bits[..k][1..] == bits[1..][..k - 1];
      AppendDigit(Binary(bits[1..]), Pow2(k - 1), if bits[0] then 1 else 0);
    } else {
      DivMod(Binary(bits), 1, Binary(bits), 0);
    }
  }

  lemma AppendDigit(b: nat, m: nat, digit: nat)
    requires m > 0 && digit < 2
    ensures (digit + 2 * b) % (2 * m) == digit + 2 * (b % m)
  {
    var q, r := b / m, b % m;
    assert b == q * m + r;
    assert digit + 2 * b == q * (2 * m) + (digit + 2 * r);
    DivMod(digit + 2 * b, 2 * m, q, digit + 2 * r);
  }

  lemma PowersOfIndices()
    ensures Pow2(9) == 0x200 && Pow2(12) == 0x1000 && Pow2(21) == 0x20_0000
    ensures Pow2(30) == 0x4000_0000 && Pow2(39) == 0x80_0000_0000
  {
    assert Pow2(9) == 0x200 && Pow2(3) == 8;
    Pow2Add(3, 9);
    Pow2Add(12, 9);
    Pow2Add(21, 9);
    Pow2Add(30, 9);
  }

  /** The source shifts the address and masks nine bits: the digits from 39, 30, 21 and 12 on. */
  lemma IndexBits(bits: seq<bool>)
    requires |bits| == 64
    ensures P4Index(Binary(bits)) == Binary(bits[39..][..9])
    ensures P3Index(Binary(bits)) == Binary(bits[30..][..9])
    ensures P2Index(Binary(bits)) == Binary(bits[21..][..9])
    ensures P1Index(Binary(bits)) == Binary(bits[12..][..9])
  {
    PowersOfIndices();
    ShiftThenMask(bits, 39);
    ShiftThenMask(bits, 30);
    ShiftThenMask(bits, 21);
    ShiftThenMask(bits, 12);
  }

  lemma ShiftThenMask(bits: seq<bool>, k: nat)
    requires k + 9 <= |bits|
    ensures Binary(bits[k..][..9]) == Binary(bits) / Pow2(k) % Pow2(9)
  {
    ShiftDivides(bits, k);
    MaskRemains(bits[k..], 9);
  }

  /** The size of the address space that the indices distinguish: 2^39 or 2^48 bytes. */
  function Reach(levels: nat): (m: nat)
    ensures m > 0
  {
    if levels == 3 then 0x80_0000_0000 else 0x1_0000_0000_0000
  }

  function AlignDown(a: nat, size: PageSize): (r: nat)
    ensures r % size.Bytes() == 0 && r <= a < r + size.Bytes()
  {
    DivMod(a - a % size.Bytes(), size.Bytes(), a / size.Bytes(), 0);
    a - a % size.Bytes()
  }

  /** Quotient and remainder are unique. */
  lemma DivMod(x: int, m: nat, k: int, r: nat)
    requires m > 0 && x == k * m + r && r < m
    ensures x / m == k && x % m == r
  {
    assert x == x / m * m + x % m;
    var j := k - x / m;
    assert j * m == x % m - r;
    assert j >= 1 ==> j * m >= m;
    assert j <= -1 ==> j * m + m <= 0;
  }

  predicate IsAligned(a: nat, size: PageSize) { a % size.Bytes() == 0 }

  /** `v` and `w` are in the same page of the given size, as far as the indices can tell. */
  ghost predicate SamePage(levels: nat, v: nat, w: nat, size: PageSize) {
    v % Reach(levels) / size.Bytes() == w % Reach(levels) / size.Bytes()
  }

  /** The depth of the slot that maps a page of this size. */
  function Depth(levels: nat, size: PageSize): (d: nat)
    requires LevelsOk(levels)
    ensures d < levels <= d + 3
  {
    levels - size.Level()
  }

  function SizeAtDepth(levels: nat, d: nat): (s: PageSize)
    requires LevelsOk(levels) && d < levels <= d + 3
    ensures Depth(levels, s) == d
  {
    if levels - d == 1 then Size4K else if levels - d == 2 then Size2M else Size1G
  }

  // Radix digits, one at a time.

  lemma NextDigit(v: nat)
    ensures v / 0x1000 / 512 == v / 0x20_0000
    ensures v / 0x20_0000 / 512 == v / 0x4000_0000
    ensures v / 0x4000_0000 / 512 == v / 0x80_0000_0000
  {
  }

  lemma PageNumber3(v: nat)
    ensures v % 0x80_0000_0000 / 0x1000 == v / 0x1000 % 0x800_0000
    ensures v % 0x80_0000_0000 / 0x20_0000 == v / 0x20_0000 % 0x4_0000
    ensures v % 0x80_0000_0000 / 0x4000_0000 == v / 0x4000_0000 % 512
  {
    var q, r := v / 0x80_0000_0000, v % 0x80_0000_0000;
    DivMod(v, 0x1000, q * 0x800_0000 + r / 0x1000, r % 0x1000);
    DivMod(v / 0x1000, 0x800_0000, q, r / 0x1000);
    DivMod(v, 0x20_0000, q * 0x4_0000 + r / 0x20_0000, r % 0x20_0000);
    DivMod(v / 0x20_0000, 0x4_0000, q, r / 0x20_0000);
    DivMod(v, 0x4000_0000, q * 0x200 + r / 0x4000_0000, r % 0x4000_0000);
    DivMod(v / 0x4000_0000, 0x200, q, r / 0x4000_0000);
  }

  lemma PageNumber4(v: nat)
    ensures v % 0x1_0000_0000_0000 / 0x1000 == v / 0x1000 % 0x10_0000_0000
    ensures v % 0x1_0000_0000_0000 / 0x20_0000 == v / 0x20_0000 % 0x800_0000
    ensures v % 0x1_0000_0000_0000 / 0x4000_0000 == v / 0x4000_0000 % 0x4_0000
  {
    var q, r := v / 0x1_0000_0000_0000, v % 0x1_0000_0000_0000;
    DivMod(v, 0x1000, q * 0x10_0000_0000 + r / 0x1000, r % 0x1000);
    DivMod(v / 0x1000, 0x10_0000_0000, q, r / 0x1000);
    DivMod(v, 0x20_0000, q * 0x800_0000 + r / 0x20_0000, r % 0x20_0000);
    DivMod(v / 0x20_0000, 0x800_0000, q, r / 0x20_0000);
    DivMod(v, 0x4000_0000, q * 0x4_0000 + r / 0x4000_0000, r % 0x4000_0000);
    DivMod(v / 0x4000_0000, 0x4_0000, q, r / 0x4000_0000);
  }

  lemma SplitDigits2(x: nat)
    ensures x % 0x4_0000 == x / 512 % 512 * 512 + x % 512
  {
  }

  lemma SplitDigits3(x: nat)
    ensures x % 0x800_0000 == x / 512 % 0x4_0000 * 512 + x % 512
  {
  }

  lemma SplitDigits4(x: nat)
    ensures x % 0x10_0000_0000 == x / 512 % 0x800_0000 * 512 + x % 512
  {
  }

  /** The three numbers below are determined by their base-512 digits. */
  lemma SameDigits2(x: nat, y: nat)
    ensures x % 0x4_0000 == y % 0x4_0000 <==> x / 512 % 512 == y / 512 % 512 && x % 512 == y % 512
  {
    SplitDigits2(x); SplitDigits2(y);
  }

  lemma SameDigits3(x: nat, y: nat)
    ensures x % 0x800_0000 == y % 0x800_0000 <==>
            x / 512 % 0x4_0000 == y / 512 % 0x4_0000 && x % 512 == y % 512
  {
    SplitDigits3(x); SplitDigits3(y);
  }

  lemma SameDigits4(x: nat, y: nat)
    ensures x % 0x10_0000_0000 == y % 0x10_0000_0000 <==>
            x / 512 % 0x800_0000 == y / 512 % 0x800_0000 && x % 512 == y % 512
  {
    SplitDigits4(x); SplitDigits4(y);
  }

  lemma SamePage1G(levels: nat, v: nat, w: nat)
    requires LevelsOk(levels)
    ensures SamePage(levels, v, w, Size1G) <==>
            (levels == 4 ==> P4Index(v) == P4Index(w)) && P3Index(v) == P3Index(w)
  {
    if levels == 3 {
      PageNumber3(v); PageNumber3(w);
    } else {
      PageNumber4(v); PageNumber4(w);
      SameDigits2(v / 0x4000_0000, w / 0x4000_0000);
      NextDigit(v); NextDigit(w);
    }
  }

  lemma SamePage2M(levels: nat, v: nat, w: nat)
    requires LevelsOk(levels)
    ensures SamePage(levels, v, w, Size2M) <==> SamePage(levels, v, w, Size1G) && P2Index(v) == P2Index(w)
  {
    NextDigit(v); NextDigit(w);
    if levels == 3 {
      PageNumber3(v); PageNumber3(w);
      SameDigits2(v / 0x20_0000, w / 0x20_0000);
    } else {
      PageNumber4(v); PageNumber4(w);
      SameDigits3(v / 0x20_0000, w / 0x20_0000);
    }
  }

  lemma SamePage4K(levels: nat, v: nat, w: nat)
    requires LevelsOk(levels)
    ensures SamePage(levels, v, w, Size4K) <==> SamePage(levels, v, w, Size2M) && P1Index(v) == P1Index(w)
  {
    NextDigit(v); NextDigit(w);
    if levels == 3 {
      PageNumber3(v); PageNumber3(w);
      SameDigits3(v / 0x1000, w / 0x1000);
    } else {
      PageNumber4(v); PageNumber4(w);
      SameDigits4(v / 0x1000, w / 0x1000);
    }
  }

  lemma SameSlot(levels: nat, v: nat, w: nat, n: nat)
    requires LevelsOk(levels) && levels - 2 <= n <= levels
    ensures Indices(levels, v)[..n] <= Indices(levels, w) <==>
            && (levels == 4 ==> P4Index(v) == P4Index(w))
            && P3Index(v) == P3Index(w)
            && (n >= levels - 1 ==> P2Index(v) == P2Index(w))
            && (n >= levels ==> P1Index(v) == P1Index(w))
  {
    DigitsPrefix(P4Index(v), P3Index(v), P2Index(v), P1Index(v), P4Index(w), P3Index(w), P2Index(w), P1Index(w), levels, n);
  }

  lemma DigitsPrefix(
    a4: nat, a3: nat, a2: nat, a1: nat, b4: nat, b3: nat, b2: nat, b1: nat, levels: nat, n: nat)
    requires LevelsOk(levels) && levels - 2 <= n <= levels
    ensures levels == 3 ==>
              ([a3, a2, a1][..n] <= [b3, b2, b1] <==> a3 == b3 && (n >= 2 ==> a2 == b2) && (n >= 3 ==> a1 == b1))
    ensures levels == 4 ==>
              ([a4, a3, a2, a1][..n] <= [b4, b3, b2, b1] <==>
               a4 == b4 && a3 == b3 && (n >= 3 ==> a2 == b2) && (n >= 4 ==> a1 == b1))
  {
    if levels == 3 {
      var p, q := [a3, a2, a1][..n], [b3, b2, b1];
      assert p[0] == a3 && q[0] == b3;
      assert (n >= 2 ==> p[1] == a2) && q[1] == b2 && (n >= 3 ==> p[2] == a1) && q[2] == b1;
    } else {
      var p, q := [a4, a3, a2, a1][..n], [b4, b3, b2, b1];
      assert p[0] == a4 && q[0] == b4 && p[1] == a3 && q[1] == b3;
      assert (n >= 3 ==> p[2] == a2) && q[2] == b2 && (n >= 4 ==> p[3] == a1) && q[3] == b1;
    }
  }

  /** Two addresses share a page exactly when their walks share the slot of that page. */
  lemma SamePageIsSameSlot(levels: nat, v: nat, w: nat, size: PageSize)
    requires LevelsOk(levels)
    ensures SamePage(levels, v, w, size) <==>
            Indices(levels, v)[..Depth(levels, size) + 1] <= Indices(levels, w)
  {
    SameSlot(levels, v, w, Depth(levels, size) + 1);
    SamePage1G(levels, v, w);
    match size {
      case Size1G =>
      case Size2M => SamePage2M(levels, v, w);
      case Size4K => SamePage2M(levels, v, w); SamePage4K(levels, v, w);
    }
  }

  // ---------------------------------------------------------------------
  // Offsets from a region start, modulo the reach of the indices

  function Offset(levels: nat, w: nat, v: nat): (d: nat)
    ensures d < Reach(levels)
  {
    (w - v) % Reach(levels)
  }

  lemma OffsetShift(levels: nat, w: nat, v: nat, d: nat)
    requires LevelsOk(levels) && d <= Reach(levels)
    ensures Offset(levels, w, v + d) ==
            if d <= Offset(levels, w, v) then Offset(levels, w, v) - d else Offset(levels, w, v) + Reach(levels) - d
  {
  }

  lemma LowOffset3(v: nat, w: nat)
    ensures (w - v) % 0x80_0000_0000 == (w % 0x80_0000_0000 - v % 0x80_0000_0000) % 0x80_0000_0000
  {
  }

  lemma LowPart3(v: nat)
    ensures v % 0x80_0000_0000 % 0x1000 == v % 0x1000
    ensures v % 0x80_0000_0000 % 0x20_0000 == v % 0x20_0000
    ensures v % 0x80_0000_0000 % 0x4000_0000 == v % 0x4000_0000
  {
    var q, r := v / 0x80_0000_0000, v % 0x80_0000_0000;
    DivMod(v, 0x1000, q * 0x800_0000 + r / 0x1000, r % 0x1000);
    DivMod(v, 0x20_0000, q * 0x4_0000 + r / 0x20_0000, r % 0x20_0000);
    DivMod(v, 0x4000_0000, q * 0x200 + r / 0x4000_0000, r % 0x4000_0000);
  }

  lemma LowOffset4(v: nat, w: nat)
    ensures (w - v) % 0x1_0000_0000_0000 == (w % 0x1_0000_0000_0000 - v % 0x1_0000_0000_0000) % 0x1_0000_0000_0000
  {
  }

  lemma LowPart4(v: nat)
    ensures v % 0x1_0000_0000_0000 % 0x1000 == v % 0x1000
    ensures v % 0x1_0000_0000_0000 % 0x20_0000 == v % 0x20_0000
    ensures v % 0x1_0000_0000_0000 % 0x4000_0000 == v % 0x4000_0000
  {
    var q, r := v / 0x1_0000_0000_0000, v % 0x1_0000_0000_0000;
    DivMod(v, 0x1000, q * 0x10_0000_0000 + r / 0x1000, r % 0x1000);
    DivMod(v, 0x20_0000, q * 0x800_0000 + r / 0x20_0000, r % 0x20_0000);
    DivMod(v, 0x4000_0000, q * 0x4_0000 + r / 0x4000_0000, r % 0x4000_0000);
  }

  lemma Offsets4K(x: nat, y: nat, reach: nat)
    requires (reach == 0x80_0000_0000 || reach == 0x1_0000_0000_0000) && x < reach && y < reach && x % 0x1000 == 0
    ensures y / 0x1000 == x / 0x1000 <==> (y - x) % reach < 0x1000
    ensures (y - x) % reach < 0x1000 ==> y % 0x1000 == (y - x) % reach
  {
    if reach == 0x80_0000_0000 { assert (y - x) % 0x80_0000_0000 == if x <= y then y - x else y - x + 0x80_0000_0000; }
    else { assert (y - x) % 0x1_0000_0000_0000 == if x <= y then y - x else y - x + 0x1_0000_0000_0000; }
  }

  lemma Offsets2M(x: nat, y: nat, reach: nat)
    requires (reach == 0x80_0000_0000 || reach == 0x1_0000_0000_0000) && x < reach && y < reach && x % 0x20_0000 == 0
    ensures y / 0x20_0000 == x / 0x20_0000 <==> (y - x) % reach < 0x20_0000
    ensures (y - x) % reach < 0x20_0000 ==> y % 0x20_0000 == (y - x) % reach
  {
    if reach == 0x80_0000_0000 { assert (y - x) % 0x80_0000_0000 == if x <= y then y - x else y - x + 0x80_0000_0000; }
    else { assert (y - x) % 0x1_0000_0000_0000 == if x <= y then y - x else y - x + 0x1_0000_0000_0000; }
  }

  lemma Offsets1G(x: nat, y: nat, reach: nat)
    requires (reach == 0x80_0000_0000 || reach == 0x1_0000_0000_0000) && x < reach && y < reach && x % 0x4000_0000 == 0
    ensures y / 0x4000_0000 == x / 0x4000_0000 <==> (y - x) % reach < 0x4000_0000
    ensures (y - x) % reach < 0x4000_0000 ==> y % 0x4000_0000 == (y - x) % reach
  {
    if reach == 0x80_0000_0000 { assert (y - x) % 0x80_0000_0000 == if x <= y then y - x else y - x + 0x80_0000_0000; }
    else { assert (y - x) % 0x1_0000_0000_0000 == if x <= y then y - x else y - x + 0x1_0000_0000_0000; }
  }

  /** From an aligned start, a page is the addresses at offsets below its size. */
  lemma SamePageOffset(levels: nat, v: nat, w: nat, size: PageSize)
    requires LevelsOk(levels) && IsAligned(v, size)
    ensures SamePage(levels, v, w, size) <==> Offset(levels, w, v) < size.Bytes()
    ensures Offset(levels, w, v) < size.Bytes() ==> w % size.Bytes() == Offset(levels, w, v)
  {
    if levels == 3 {
      LowOffset3(v, w); LowPart3(v); LowPart3(w);
    } else {
      LowOffset4(v, w); LowPart4(v); LowPart4(w);
    }
    var x, y := v % Reach(levels), w % Reach(levels);
    match size {
      case Size4K => Offsets4K(x, y, Reach(levels));
      case Size2M => Offsets2M(x, y, Reach(levels));
      case Size1G => Offsets1G(x, y, Reach(levels));
    }
  }

  // ---------------------------------------------------------------------
  // Canonical addresses

  /** vaddr_is_valid with VA_MAX_BITS = 39 or 48: the unused top bits are a sign extension. */
  predicate Canonical(levels: nat, v: nat) {
    v < Reach(levels) / 2 || 0x1_0000_0000_0000_0000 - Reach(levels) / 2 <= v < 0x1_0000_0000_0000_0000
  }

  /** Canonical addresses are told apart by their low part: the upper half is shifted by a constant. */
  lemma CanonicalLow(levels: nat, v: nat)
    requires LevelsOk(levels) && Canonical(levels, v)
    ensures v % Reach(levels) ==
            if v < Reach(levels) / 2 then v else v - (0x1_0000_0000_0000_0000 - Reach(levels))
    ensures v < Reach(levels) / 2 <==> v % Reach(levels) < Reach(levels) / 2
  {
    if levels == 3 {
      assert v >= 0x40_0000_0000 ==> v == 0x1FF_FFFF * 0x80_0000_0000 + (v - 0x1FF_FFFF * 0x80_0000_0000);
    } else {
      assert v >= 0x8000_0000_0000 ==> v == 0xFFFF * 0x1_0000_0000_0000 + (v - 0xFFFF * 0x1_0000_0000_0000);
    }
  }

  lemma CanonicalPageNo4K(levels: nat, v: nat)
    requires LevelsOk(levels) && Canonical(levels, v)
    ensures v % Reach(levels) / 0x1000 ==
            if v < Reach(levels) / 2 then v / 0x1000 else v / 0x1000 - if levels == 3 then 0xF_FFFF_F800_0000 else 0xF_FFF0_0000_0000
  {
    CanonicalLow(levels, v);
    if v >= Reach(levels) / 2 {
      if levels == 3 {
        assert (v - 0xF_FFFF_F800_0000 * 0x1000) / 0x1000 == v / 0x1000 - 0xF_FFFF_F800_0000;
      } else {
        assert (v - 0xF_FFF0_0000_0000 * 0x1000) / 0x1000 == v / 0x1000 - 0xF_FFF0_0000_0000;
      }
    }
  }

  lemma CanonicalPages4K(levels: nat, v: nat, w: nat)
    requires LevelsOk(levels) && Canonical(levels, v) && Canonical(levels, w)
    ensures v % Reach(levels) / 0x1000 == w % Reach(levels) / 0x1000 <==> v / 0x1000 == w / 0x1000
  {
    CanonicalPageNo4K(levels, v);
    CanonicalPageNo4K(levels, w);
  }

  lemma CanonicalPageNo2M(levels: nat, v: nat)
    requires LevelsOk(levels) && Canonical(levels, v)
    ensures v % Reach(levels) / 0x20_0000 ==
            if v < Reach(levels) / 2 then v / 0x20_0000 else v / 0x20_0000 - if levels == 3 then 0x7FF_FFFC_0000 else 0x7FF_F800_0000
  {
    CanonicalLow(levels, v);
    if v >= Reach(levels) / 2 {
      if levels == 3 {
        assert (v - 0x7FF_FFFC_0000 * 0x20_0000) / 0x20_0000 == v / 0x20_0000 - 0x7FF_FFFC_0000;
      } else {
        assert (v - 0x7FF_F800_0000 * 0x20_0000) / 0x20_0000 == v / 0x20_0000 - 0x7FF_F800_0000;
      }
    }
  }

  lemma CanonicalPages2M(levels: nat, v: nat, w: nat)
    requires LevelsOk(levels) && Canonical(levels, v) && Canonical(levels, w)
    ensures v % Reach(levels) / 0x20_0000 == w % Reach(levels) / 0x20_0000 <==> v / 0x20_0000 == w / 0x20_0000
  {
    CanonicalPageNo2M(levels, v);
    CanonicalPageNo2M(levels, w);
  }

  lemma CanonicalPageNo1G(levels: nat, v: nat)
    requires LevelsOk(levels) && Canonical(levels, v)
    ensures v % Reach(levels) / 0x4000_0000 ==
            if v < Reach(levels) / 2 then v / 0x4000_0000 else v / 0x4000_0000 - if levels == 3 then 0x3_FFFF_FE00 else 0x3_FFFC_0000
  {
    CanonicalLow(levels, v);
    if v >= Reach(levels) / 2 {
      if levels == 3 {
        assert (v - 0x3_FFFF_FE00 * 0x4000_0000) / 0x4000_0000 == v / 0x4000_0000 - 0x3_FFFF_FE00;
      } else {
        assert (v - 0x3_FFFC_0000 * 0x4000_0000) / 0x4000_0000 == v / 0x4000_0000 - 0x3_FFFC_0000;
      }
    }
  }

  lemma CanonicalPages1G(levels: nat, v: nat, w: nat)
    requires LevelsOk(levels) && Canonical(levels, v) && Canonical(levels, w)
    ensures v % Reach(levels) / 0x4000_0000 == w % Reach(levels) / 0x4000_0000 <==> v / 0x4000_0000 == w / 0x4000_0000
  {
    CanonicalPageNo1G(levels, v);
    CanonicalPageNo1G(levels, w);
  }

  /** On canonical addresses the pages that the tables distinguish are the real ones. */
  lemma CanonicalPages(levels: nat, v: nat, w: nat, size: PageSize)
    requires LevelsOk(levels) && Canonical(levels, v) && Canonical(levels, w)
    ensures SamePage(levels, v, w, size) <==> AlignDown(v, size) == AlignDown(w, size)
  {
    assert AlignDown(v, size) == v / size.Bytes() * size.Bytes() && AlignDown(w, size) == w / size.Bytes() * size.Bytes();
    match size {
      case Size4K => CanonicalPages4K(levels, v, w);
      case Size2M => CanonicalPages2M(levels, v, w);
      case Size1G => CanonicalPages1G(levels, v, w);
    }
  }

  /** A canonical region stays in its half of the address space. */
  lemma CanonicalRegion(levels: nat, v: nat, len: nat)
    requires LevelsOk(levels) && 0 < len <= Reach(levels) && Canonical(levels, v) && Canonical(levels, v + len - 1)
    ensures v < Reach(levels) / 2 ==> v + len <= Reach(levels) / 2
    ensures v >= Reach(levels) / 2 ==> v + len <= 0x1_0000_0000_0000_0000
  {
  }

  /** On canonical addresses, being at an offset below `len` from `v` is being in [v, v+len). */
  lemma CanonicalOffset(levels: nat, v: nat, len: nat, w: nat)
    requires LevelsOk(levels) && 0 < len <= Reach(levels) && Canonical(levels, v) && Canonical(levels, v + len - 1)
    requires Canonical(levels, w)
    ensures Offset(levels, w, v) < len <==> v <= w < v + len
    ensures v <= w < v + len ==> Offset(levels, w, v) == w - v
  {
    CanonicalRegion(levels, v, len);
    var m := Reach(levels);
    var top := 0x1_0000_0000_0000_0000 - m;
    var x, y := if v < m / 2 then v else v - top, if w < m / 2 then w else w - top;
    assert (w - v) % m == if x <= y then y - x else y - x + m by {
      SignExtendedDifference(levels, v, w, x, y);
    }
  }

  lemma SignExtendedDifference(levels: nat, v: nat, w: nat, x: nat, y: nat)
    requires LevelsOk(levels) && x < Reach(levels) && y < Reach(levels)
    requires v == x || v == x + (0x1_0000_0000_0000_0000 - Reach(levels))
    requires w == y || w == y + (0x1_0000_0000_0000_0000 - Reach(levels))
    ensures (w - v) % Reach(levels) == if x <= y then y - x else y - x + Reach(levels)
  {
    var m, d := Reach(levels), if x <= y then y - x else y - x + Reach(levels);
    var k: int := if levels == 3 then 0x1FF_FFFF else 0xFFFF;
    assert 0x1_0000_0000_0000_0000 - m == k * m;
    var q := (if w == y then 0 else k) - (if v == x then 0 else k) - (if x <= y then 0 else 1);
    assert w - v == q * m + d;
    DivMod(w - v, m, q, d);
  }
}
