/**
  What a tree of tables means: a flat partial map from virtual addresses to
  physical addresses, and how mapping and unmapping pages and regions change it.
 */
module AddressSpace {
  import opened Common
  import opened PageTableSpec
  import opened PageAddress

  datatype Space = Space(levels: nat, root: nat, mem: Memory)

  /** The specification of `query`. */
  ghost function Translate(s: Space, v: nat): PagingResult<Mapping>
    requires LevelsOk(s.levels)
  {
    var (e, d) := Follow(s.mem, s.root, Indices(s.levels, v), 0);
    if e.Page? && s.levels <= d + 3 then
      var size := SizeAtDepth(s.levels, d);
      Ok(Mapping(e.target + v % size.Bytes(), e.attrs, size))
    else
      Err(NotMapped)
  }

  ghost predicate WellFormed(s: Space, at: Places) {
    LevelsOk(s.levels) && Inv(s.levels, s.root, s.mem, at)
  }

  /** Slot `i` of table `f` is the one that maps the page of `v` of the given size. */
  ghost predicate SlotOf(levels: nat, at: Places, f: nat, i: nat, v: nat, size: PageSize)
    requires LevelsOk(levels)
  {
    f in at && at[f].prefix + [i] == Indices(levels, v)[..Depth(levels, size) + 1]
  }

  ghost function LeafMeaning(e: PTE, w: nat, size: PageSize): PagingResult<Mapping> {
    if e.Page? then Ok(Mapping(e.target + w % size.Bytes(), e.attrs, size)) else Err(NotMapped)
  }

  /** Writing the slot of a page changes the translation of that page and of nothing else. */
  lemma WriteTranslates(s: Space, at: Places, f: nat, i: nat, e: PTE, v: nat, size: PageSize, w: nat)
    requires WellFormed(s, at) && LeafWrite(s.levels, s.mem, at, f, i, e) && SlotOf(s.levels, at, f, i, v, size)
    ensures Translate(s.(mem := SetSlot(s.mem, f, i, e)), w) ==
            if SamePage(s.levels, v, w, size) then LeafMeaning(e, w, size) else Translate(s, w)
  {
    SamePageIsSameSlot(s.levels, v, w, size);
    LeafWriteFollow(s.levels, s.root, s.mem, at, f, i, e, Indices(s.levels, w));
    assert |at[f].prefix| == Depth(s.levels, size);
    assert SizeAtDepth(s.levels, |at[f].prefix|) == size;
  }

  /** What the slot of a page holds when the walk ends there. */
  lemma SlotTranslates(s: Space, at: Places, f: nat, i: nat, v: nat, size: PageSize, w: nat)
    requires WellFormed(s, at) && SlotOf(s.levels, at, f, i, v, size) && SamePage(s.levels, v, w, size)
    requires !EntryAt(s.mem, f, i).Table?
    ensures Translate(s, w) == LeafMeaning(EntryAt(s.mem, f, i), w, size)
  {
    SamePageIsSameSlot(s.levels, v, w, size);
    var ix := Indices(s.levels, w);
    assert at[f].prefix + [i] <= ix;
    assert ix[|at[f].prefix|] == i;
    FollowThrough(s.levels, s.root, s.mem, at, f, ix);
    assert SizeAtDepth(s.levels, |at[f].prefix|) == size;
  }

  /** The walk for `v` meets table `f` at depth `d`. */
  ghost predicate Meets(s: Space, at: Places, f: nat, v: nat, d: nat)
    requires LevelsOk(s.levels)
  {
    OnPath(at, f, Indices(s.levels, v)) && |at[f].prefix| == d
  }

  /** The entry of a table met by the walk: the next table, the slot of a page, or nothing. */
  lemma MetEntry(s: Space, at: Places, f: nat, v: nat, d: nat)
    requires WellFormed(s, at) && Meets(s, at, f, v, d)
    ensures d < s.levels && f in s.mem && |s.mem[f]| == ENTRY_COUNT
    ensures var e := EntryAt(s.mem, f, Indices(s.levels, v)[d]);
            && (e.Table? ==> Meets(s, at, e.frame, v, d + 1))
            && (e.Unused? ==> Translate(s, v) == Err(NotMapped))
            && (e.Page? ==> s.levels <= d + 3 && e.huge == (d + 1 < s.levels)
                            && Translate(s, v) == LeafMeaning(e, v, SizeAtDepth(s.levels, d)))
            && (d + 1 == s.levels ==> !e.Table?)
            && (!e.Table? ==> Follow(s.mem, s.root, Indices(s.levels, v), 0) == (e, d))
    ensures s.levels <= d + 3 ==> SlotOf(s.levels, at, f, Indices(s.levels, v)[d], v, SizeAtDepth(s.levels, d))
  {
    var ix := Indices(s.levels, v);
    assert SlotOk(s.levels, s.root, s.mem, at, f, ix[d]);
    FollowThrough(s.levels, s.root, s.mem, at, f, ix);
    if EntryAt(s.mem, f, ix[d]).Table? {
      ChildOnPath(s.levels, s.root, s.mem, at, f, ix);
    }
    assert at[f].prefix + [ix[d]] == ix[..d + 1];
  }

  /** Past a table at depth `d` only slots at that depth or below decide the translation. */
  lemma MetNotLarger(s: Space, at: Places, f: nat, v: nat, d: nat)
    requires WellFormed(s, at) && Meets(s, at, f, v, d) && d < s.levels
    ensures Translate(s, v).Ok? ==> d <= Depth(s.levels, Translate(s, v).value.size)
  {
    FollowThrough(s.levels, s.root, s.mem, at, f, Indices(s.levels, v));
  }

  /** Creating an intermediate table changes no translation. */
  lemma InstallTranslates(s: Space, at: Places, f: nat, i: nat, c: nat, w: nat)
    requires WellFormed(s, at) && Installable(s.levels, s.mem, at, f, i, c)
    ensures Translate(s.(mem := Install(s.mem, f, i, c)), w) == Translate(s, w)
  {
    InstallFollow(s.levels, s.root, s.mem, at, f, i, c, Indices(s.levels, w));
  }

  /** The space and the walk for `v` after a table `c` is created under table `f`. */
  lemma InstallSpace(s: Space, at: Places, f: nat, i: nat, c: nat, v: nat, d: nat)
    requires WellFormed(s, at) && Installable(s.levels, s.mem, at, f, i, c)
    requires Meets(s, at, f, v, d) && i == Indices(s.levels, v)[d]
    ensures var t, at' := s.(mem := Install(s.mem, f, i, c)), PlaceChild(at, f, i, c);
            WellFormed(t, at') && SameTranslation(s, t) && Meets(t, at', c, v, d + 1)
  {
    var t := s.(mem := Install(s.mem, f, i, c));
    InstallInv(s.levels, s.root, s.mem, at, f, i, c);
    forall w: nat ensures Translate(t, w) == Translate(s, w) {
      InstallTranslates(s, at, f, i, c, w);
    }
    assert at[f].prefix + [i] == Indices(s.levels, v)[..d + 1];
  }

  lemma {:induction false} FollowCongruent(mem: Memory, f: nat, ix: seq<nat>, jx: seq<nat>, d: nat)
    requires d < |ix| == |jx| && ix[..Follow(mem, f, ix, d).1 + 1] <= jx
    ensures Follow(mem, f, jx, d) == Follow(mem, f, ix, d)
    decreases |ix| - d
  {
    var k := Follow(mem, f, ix, d).1;
    assert jx[..k + 1][d] == ix[..k + 1][d];
    var e := EntryAt(mem, f, ix[d]);
    if e.Table? && d + 1 < |ix| {
      FollowCongruent(mem, e.frame, ix, jx, d + 1);
    }
  }

  /** All addresses of a mapped page translate through the same leaf. */
  lemma PageUniform(s: Space, v: nat, w: nat)
    requires LevelsOk(s.levels) && Translate(s, v).Ok? && SamePage(s.levels, v, w, Translate(s, v).value.size)
    ensures var m, b := Translate(s, v).value, Translate(s, v).value.size.Bytes();
            m.paddr >= v % b && Translate(s, w) == Ok(Mapping(m.paddr - v % b + w % b, m.flags, m.size))
  {
    SamePageIsSameSlot(s.levels, v, w, Translate(s, v).value.size);
    FollowCongruent(s.mem, s.root, Indices(s.levels, v), Indices(s.levels, w), 0);
  }

  // ---------------------------------------------------------------------
  // One page

  ghost predicate Comparable(s: Space, t: Space) {
    s.levels == t.levels && LevelsOk(s.levels)
  }

  ghost predicate SameTranslation(s: Space, t: Space) {
    Comparable(s, t) && forall w: nat :: Translate(t, w) == Translate(s, w)
  }

  ghost predicate PageMapped(s: Space, t: Space, v: nat, target: nat, size: PageSize, flags: MappingFlags) {
    && Comparable(s, t)
    && (forall w: nat :: Translate(t, w) ==
          if SamePage(s.levels, v, w, size) then Ok(Mapping(target + w % size.Bytes(), flags, size))
          else Translate(s, w))
    && (forall w: nat | SamePage(s.levels, v, w, size) :: Translate(s, w) == Err(NotMapped))
  }

  ghost predicate PageUnmapped(s: Space, t: Space, v: nat, size: PageSize) {
    && Comparable(s, t)
    && (forall w: nat :: Translate(t, w) ==
          if SamePage(s.levels, v, w, size) then Err(NotMapped) else Translate(s, w))
  }

  // ---------------------------------------------------------------------
  // Which slots are taken

  /** The slot for a page of this size at `v` holds something: a page, or a table, even an empty one. */
  ghost predicate SlotTaken(s: Space, v: nat, size: PageSize)
    requires LevelsOk(s.levels)
  {
    var (e, d) := Follow(s.mem, s.root, Indices(s.levels, v), 0);
    d > Depth(s.levels, size) || (d == Depth(s.levels, size) && !e.Unused?)
  }

  /** No slot got taken or freed, except on the path of `v` above depth `n`. */
  ghost predicate SlotsKept(s: Space, t: Space, v: nat, n: nat) {
    && Comparable(s, t)
    && forall w: nat, size: PageSize {:trigger SlotTaken(t, w, size)}
         | !(SamePage(s.levels, v, w, size) && Depth(s.levels, size) < n) ::
         SlotTaken(t, w, size) <==> SlotTaken(s, w, size)
  }

  lemma SlotsKeptTwice(s: Space, m: Space, t: Space, v: nat, k: nat, n: nat)
    requires SlotsKept(s, m, v, k) && SlotsKept(m, t, v, n) && k <= n
    ensures SlotsKept(s, t, v, n)
  {
    forall w: nat, size: PageSize | !(SamePage(s.levels, v, w, size) && Depth(s.levels, size) < n)
      ensures SlotTaken(t, w, size) <==> SlotTaken(s, w, size)
    {
      assert SlotTaken(t, w, size) <==> SlotTaken(m, w, size);
    }
  }

  /** A slot is taken exactly when its entry is in use. */
  lemma TakenSlot(s: Space, at: Places, f: nat, i: nat, v: nat, size: PageSize)
    requires WellFormed(s, at) && SlotOf(s.levels, at, f, i, v, size)
    ensures SlotTaken(s, v, size) <==> !EntryAt(s.mem, f, i).Unused?
  {
    var ix := Indices(s.levels, v);
    assert at[f].prefix + [i] == ix[..Depth(s.levels, size) + 1];
    assert at[f].prefix <= ix && ix[|at[f].prefix|] == i;
    assert SlotOk(s.levels, s.root, s.mem, at, f, i);
    FollowThrough(s.levels, s.root, s.mem, at, f, ix);
  }

  ghost predicate LeafAt(s: Space, v: nat, size: PageSize)
    requires LevelsOk(s.levels)
  {
    Translate(s, v).Ok? && Translate(s, v).value.size == size
  }

  /** `v` is already translated by a larger page. */
  ghost predicate UnderHuge(s: Space, v: nat, size: PageSize)
    requires LevelsOk(s.levels)
  {
    Translate(s, v).Ok? && Translate(s, v).value.size.Level() > size.Level()
  }

  /** At 4K a taken slot is a mapped page: nothing else can be in the lowest tables. */
  lemma TakenAt4K(s: Space, at: Places, v: nat)
    requires WellFormed(s, at)
    ensures SlotTaken(s, v, Size4K) <==> LeafAt(s, v, Size4K)
  {
    var f := LastTable(s, at, s.root, v);
    MetEntry(s, at, f, v, |at[f].prefix|);
  }

  /** The table in which the walk for `v` ends. */
  lemma {:induction false} LastTable(s: Space, at: Places, f: nat, v: nat) returns (g: nat)
    requires WellFormed(s, at) && OnPath(at, f, Indices(s.levels, v))
    ensures OnPath(at, g, Indices(s.levels, v)) && !EntryAt(s.mem, g, Indices(s.levels, v)[|at[g].prefix|]).Table?
    decreases s.levels - |at[f].prefix|
  {
    var ix := Indices(s.levels, v);
    var e := EntryAt(s.mem, f, ix[|at[f].prefix|]);
    if e.Table? {
      ChildOnPath(s.levels, s.root, s.mem, at, f, ix);
      g := LastTable(s, at, e.frame, v);
    } else {
      g := f;
    }
  }

  /** Where the walk already ended above the slot, the slot is not taken. */
  lemma MetNotTaken(s: Space, at: Places, f: nat, v: nat, d: nat, size: PageSize)
    requires WellFormed(s, at) && Meets(s, at, f, v, d) && d < Depth(s.levels, size)
    requires !EntryAt(s.mem, f, Indices(s.levels, v)[d]).Table?
    ensures !SlotTaken(s, v, size)
  {
    FollowThrough(s.levels, s.root, s.mem, at, f, Indices(s.levels, v));
  }

  /** A new table takes the one slot it hangs in. */
  lemma InstallKeepsSlots(s: Space, at: Places, f: nat, i: nat, c: nat, v: nat, d: nat)
    requires WellFormed(s, at) && Installable(s.levels, s.mem, at, f, i, c)
    requires Meets(s, at, f, v, d) && i == Indices(s.levels, v)[d]
    ensures SlotsKept(s, s.(mem := Install(s.mem, f, i, c)), v, d + 1)
  {
    var t := s.(mem := Install(s.mem, f, i, c));
    forall w: nat, size: PageSize | !(SamePage(s.levels, v, w, size) && Depth(s.levels, size) < d + 1)
      ensures SlotTaken(t, w, size) <==> SlotTaken(s, w, size)
    {
      InstallFollow(s.levels, s.root, s.mem, at, f, i, c, Indices(s.levels, w));
      assert at[f].prefix + [i] == Indices(s.levels, v)[..d + 1];
      SamePageIsSameSlot(s.levels, v, w, size);
    }
  }

  /** A leaf takes its slot, and clearing it frees that one slot. */
  lemma WriteKeepsSlots(s: Space, at: Places, f: nat, i: nat, e: PTE, v: nat, size: PageSize)
    requires WellFormed(s, at) && LeafWrite(s.levels, s.mem, at, f, i, e) && SlotOf(s.levels, at, f, i, v, size)
    ensures SlotsKept(s, s.(mem := SetSlot(s.mem, f, i, e)), v, Depth(s.levels, size) + 1)
    ensures forall q: PageSize | q != size ::
              SlotTaken(s.(mem := SetSlot(s.mem, f, i, e)), v, q) <==> SlotTaken(s, v, q)
  {
    var t := s.(mem := SetSlot(s.mem, f, i, e));
    var d := Depth(s.levels, size);
    forall w: nat, q: PageSize | !(SamePage(s.levels, v, w, q) && Depth(s.levels, q) < d + 1) || (w == v && q != size)
      ensures SlotTaken(t, w, q) <==> SlotTaken(s, w, q)
    {
      var ix := Indices(s.levels, w);
      LeafWriteFollow(s.levels, s.root, s.mem, at, f, i, e, ix);
      SamePageIsSameSlot(s.levels, v, w, q);
      if at[f].prefix + [i] <= ix {
        FollowThrough(s.levels, s.root, s.mem, at, f, ix);
        assert ix[d] == i;
      }
    }
  }

  /** A mapped page takes its slot and those of all larger pages around it. */
  lemma MappedTakesSlots(s: Space, v: nat, size: PageSize)
    requires LevelsOk(s.levels) && Translate(s, v).Ok? && Depth(s.levels, size) <= Depth(s.levels, Translate(s, v).value.size)
    ensures SlotTaken(s, v, size)
  {
  }

  lemma MapLeaf(s: Space, at: Places, f: nat, i: nat, e: PTE, v: nat, size: PageSize)
    requires WellFormed(s, at) && LeafWrite(s.levels, s.mem, at, f, i, e) && SlotOf(s.levels, at, f, i, v, size)
    requires e.Page? && s.mem[f][i].Unused?
    ensures WellFormed(s.(mem := SetSlot(s.mem, f, i, e)), at)
    ensures PageMapped(s, s.(mem := SetSlot(s.mem, f, i, e)), v, e.target, size, e.attrs)
  {
    LeafWriteInv(s.levels, s.root, s.mem, at, f, i, e);
    var t := s.(mem := SetSlot(s.mem, f, i, e));
    forall w: nat
      ensures Translate(t, w) == if SamePage(s.levels, v, w, size) then LeafMeaning(e, w, size) else Translate(s, w)
    {
      WriteTranslates(s, at, f, i, e, v, size, w);
    }
    forall w: nat | SamePage(s.levels, v, w, size) ensures Translate(s, w) == Err(NotMapped) {
      SlotTranslates(s, at, f, i, v, size, w);
    }
  }

  lemma SameThenMapped(s: Space, m: Space, t: Space, v: nat, target: nat, size: PageSize, flags: MappingFlags)
    requires SameTranslation(s, m) && PageMapped(m, t, v, target, size, flags)
    ensures PageMapped(s, t, v, target, size, flags)
  {
  }

  lemma ClearLeaf(s: Space, at: Places, f: nat, i: nat, v: nat, size: PageSize)
    requires WellFormed(s, at) && LeafWrite(s.levels, s.mem, at, f, i, Unused) && SlotOf(s.levels, at, f, i, v, size)
    ensures WellFormed(s.(mem := SetSlot(s.mem, f, i, Unused)), at)
    ensures PageUnmapped(s, s.(mem := SetSlot(s.mem, f, i, Unused)), v, size)
  {
    LeafWriteInv(s.levels, s.root, s.mem, at, f, i, Unused);
    var t := s.(mem := SetSlot(s.mem, f, i, Unused));
    forall w: nat
      ensures Translate(t, w) == if SamePage(s.levels, v, w, size) then Err(NotMapped) else Translate(s, w)
    {
      WriteTranslates(s, at, f, i, Unused, v, size, w);
    }
  }

  /** `t` is `s` with the page of `v` retargeted. */
  ghost predicate PageReplaced(s: Space, t: Space, v: nat, target: nat, size: PageSize, flags: MappingFlags) {
    && Comparable(s, t)
    && (forall w: nat :: Translate(t, w) ==
          if SamePage(s.levels, v, w, size) then Ok(Mapping(target + w % size.Bytes(), flags, size))
          else Translate(s, w))
  }

  lemma ReplaceLeaf(s: Space, at: Places, f: nat, i: nat, e: PTE, v: nat, size: PageSize)
    requires WellFormed(s, at) && LeafWrite(s.levels, s.mem, at, f, i, e) && SlotOf(s.levels, at, f, i, v, size)
    requires e.Page?
    ensures WellFormed(s.(mem := SetSlot(s.mem, f, i, e)), at)
    ensures PageReplaced(s, s.(mem := SetSlot(s.mem, f, i, e)), v, e.target, size, e.attrs)
  {
    LeafWriteInv(s.levels, s.root, s.mem, at, f, i, e);
    var t := s.(mem := SetSlot(s.mem, f, i, e));
    forall w: nat
      ensures Translate(t, w) == if SamePage(s.levels, v, w, size) then LeafMeaning(e, w, size) else Translate(s, w)
    {
      WriteTranslates(s, at, f, i, e, v, size, w);
    }
  }

  lemma UpdateLeaf(s: Space, at: Places, f: nat, i: nat, e: PTE, v: nat, size: PageSize)
    requires WellFormed(s, at) && SlotOf(s.levels, at, f, i, v, size) && i < ENTRY_COUNT
    requires EntryAt(s.mem, f, i).Page? && e.Page? && e.huge == EntryAt(s.mem, f, i).huge
    ensures f in s.mem && i < |s.mem[f]| && WellFormed(s.(mem := SetSlot(s.mem, f, i, e)), at)
    ensures PageReplaced(s, s.(mem := SetSlot(s.mem, f, i, e)), v, e.target, size, e.attrs)
  {
    assert SlotOk(s.levels, s.root, s.mem, at, f, i);
    ReplaceLeaf(s, at, f, i, e, v, size);
  }

  /** The walk for `v` stops at an unused slot above the lowest level. */
  ghost predicate MissingTable(s: Space, v: nat)
    requires LevelsOk(s.levels)
  {
    var (e, d) := Follow(s.mem, s.root, Indices(s.levels, v), 0);
    e.Unused? && d + 1 < s.levels
  }

  /** The tables on the path of address zero, all there and the lowest one empty. */
  function Leftover(root: nat, p2: nat, p1: nat): Space {
    Space(3, root, map[root := EmptyTable()[0 := Table(p2)], p2 := EmptyTable()[0 := Table(p1)], p1 := EmptyTable()])
  }

  /** Nothing is mapped in a well-formed space like this, but no table is missing for `update`, and
      the slot of the 2M page is taken. */
  lemma UnmappedWithTables(root: nat, p2: nat, p1: nat)
    requires root != p2 && p2 != p1 && root != p1
    ensures var s := Leftover(root, p2, p1);
            && WellFormed(s, map[root := Place([], root), p2 := Place([0], root), p1 := Place([0, 0], p2)])
            && Translate(s, 0) == Err(NotMapped) && !MissingTable(s, 0) && SlotTaken(s, 0, Size2M)
  {
    var mem := Leftover(root, p2, p1).mem;
    var at := map[root := Place([], root), p2 := Place([0], root), p1 := Place([0, 0], p2)];
    assert Follow(mem, p1, Indices(3, 0), 2) == (Unused, 2);
    assert Follow(mem, p2, Indices(3, 0), 1) == (Unused, 2);
    assert Follow(mem, root, Indices(3, 0), 0) == (Unused, 2);
    forall f, i: nat | f in at ensures SlotOk(3, root, mem, at, f, i) {
    }
  }

  /** Where a 2M slot is taken and nothing is mapped, every table is there. */
  lemma TakenNotMissing(s: Space, v: nat)
    requires LevelsOk(s.levels) && SlotTaken(s, v, Size2M) && Translate(s, v).Err?
    ensures !MissingTable(s, v)
  {
    FollowEnds(s.mem, s.root, Indices(s.levels, v), 0);
  }

  /** The page-level result in plain address terms, on canonical addresses. */
  lemma PageMappedCanonical(
    s: Space, t: Space, v: nat, target: nat, size: PageSize, flags: MappingFlags, w: nat)
    requires PageMapped(s, t, v, target, size, flags) && Canonical(s.levels, v) && Canonical(s.levels, w)
    ensures Translate(t, w) ==
            if AlignDown(v, size) <= w < AlignDown(v, size) + size.Bytes()
            then Ok(Mapping(target + (w - AlignDown(v, size)), flags, size))
            else Translate(s, w)
  {
    var base := AlignDown(v, size);
    assert SamePage(s.levels, v, w, size) <==> base <= w < base + size.Bytes() by {
      CanonicalPages(s.levels, v, w, size);
      AlignDownUnique(w, base, size);
    }
    assert base <= w < base + size.Bytes() ==> w % size.Bytes() == w - base by { AlignDownUnique(w, base, size); }
    assert Translate(t, w) == if SamePage(s.levels, v, w, size) then Ok(Mapping(target + w % size.Bytes(), flags, size))
                              else Translate(s, w);
  }

  lemma AlignDownUnique(w: nat, base: nat, size: PageSize)
    requires IsAligned(base, size)
    ensures AlignDown(w, size) == base <==> base <= w < base + size.Bytes()
    ensures base <= w < base + size.Bytes() ==> w % size.Bytes() == w - base
  {
    var b := size.Bytes();
    assert base == base / b * b;
    if base <= w < base + b {
      DivMod(w, b, base / b, w - base);
    }
  }

  // ---------------------------------------------------------------------
  // Regions

  /** `t` is `s` with [v, v+len) mapped to [p, p+len), all of it unmapped before. */
  ghost predicate RegionMapped(s: Space, t: Space, v: nat, p: nat, len: nat, flags: MappingFlags) {
    && Comparable(s, t)
    && forall w: nat :: RegionMappedAt(s, t, v, p, len, flags, w)
  }

  ghost predicate RegionMappedAt(s: Space, t: Space, v: nat, p: nat, len: nat, flags: MappingFlags, w: nat)
    requires Comparable(s, t)
  {
    var d := Offset(s.levels, w, v);
    if d < len then
      Translate(s, w) == Err(NotMapped) && MapsTo(Translate(t, w), p + d, flags)
    else
      Translate(t, w) == Translate(s, w)
  }

  ghost predicate MapsTo(r: PagingResult<Mapping>, paddr: nat, flags: MappingFlags) {
    r.Ok? && r.value.paddr == paddr && r.value.flags == flags
  }

  /** `t` is `s` with [v, v+len) unmapped. */
  ghost predicate RegionUnmapped(s: Space, t: Space, v: nat, len: nat) {
    && Comparable(s, t)
    && forall w: nat :: Translate(t, w) ==
                        if Offset(s.levels, w, v) < len then Err(NotMapped) else Translate(s, w)
  }

  /** [v, v+len) is mapped by whole pages that do not stick out of it. */
  ghost predicate Tiled(s: Space, v: nat, len: nat) {
    && LevelsOk(s.levels)
    && len <= Reach(s.levels)
    && forall w: nat | Offset(s.levels, w, v) < len :: TileInside(s, v, len, w)
  }

  ghost predicate TileInside(s: Space, v: nat, len: nat, w: nat)
    requires LevelsOk(s.levels)
  {
    var r, d := Translate(s, w), Offset(s.levels, w, v);
    r.Ok? && var b := r.value.size.Bytes(); w % b <= d && d - w % b + b <= len
  }

  lemma StepFits(s0: Space, s1: Space, s2: Space, v: nat, p: nat, done: nat, q: nat, size: PageSize, flags: MappingFlags)
    requires RegionMapped(s0, s1, v, p, done, flags) && done <= Reach(s0.levels)
    requires IsAligned(v + done, size) && PageMapped(s1, s2, v + done, q, size, flags)
    ensures done + size.Bytes() <= Reach(s0.levels)
  {
    if done + size.Bytes() > Reach(s0.levels) {
      // the page would wrap around onto the start of the region, which is mapped already
      assert RegionMappedAt(s0, s1, v, p, done, flags, v);
      OffsetShift(s0.levels, v, v, done);
      SamePageOffset(s0.levels, v + done, v, size);
    }
  }

  /** One iteration of `map_region`. */
  lemma MapStep(s0: Space, s1: Space, s2: Space, v: nat, p: nat, done: nat, size: PageSize, flags: MappingFlags)
    requires RegionMapped(s0, s1, v, p, done, flags) && Tiled(s1, v, done)
    requires IsAligned(v + done, size) && PageMapped(s1, s2, v + done, p + done, size, flags)
    ensures RegionMapped(s0, s2, v, p, done + size.Bytes(), flags) && Tiled(s2, v, done + size.Bytes())
  {
    StepFits(s0, s1, s2, v, p, done, p + done, size, flags);
    forall w: nat
      ensures RegionMappedAt(s0, s2, v, p, done + size.Bytes(), flags, w)
      ensures Offset(s0.levels, w, v) < done + size.Bytes() ==> TileInside(s2, v, done + size.Bytes(), w)
    {
      MapStepAt(s0, s1, s2, v, p, done, size, flags, w);
    }
  }

  lemma MapStepAt(
    s0: Space, s1: Space, s2: Space, v: nat, p: nat, done: nat, size: PageSize, flags: MappingFlags, w: nat)
    requires RegionMapped(s0, s1, v, p, done, flags) && Tiled(s1, v, done)
    requires IsAligned(v + done, size) && PageMapped(s1, s2, v + done, p + done, size, flags)
    requires done + size.Bytes() <= Reach(s0.levels)
    ensures RegionMappedAt(s0, s2, v, p, done + size.Bytes(), flags, w)
    ensures Offset(s0.levels, w, v) < done + size.Bytes() ==> TileInside(s2, v, done + size.Bytes(), w)
  {
    OffsetShift(s0.levels, w, v, done);
    SamePageOffset(s0.levels, v + done, w, size);
    assert RegionMappedAt(s0, s1, v, p, done, flags, w);
    assert Offset(s0.levels, w, v) < done ==> TileInside(s1, v, done, w);
  }

  /** A failed page changes nothing. */
  lemma SameRegion(s0: Space, s1: Space, s2: Space, v: nat, p: nat, done: nat, flags: MappingFlags)
    requires RegionMapped(s0, s1, v, p, done, flags) && Tiled(s1, v, done) && SameTranslation(s1, s2)
    ensures RegionMapped(s0, s2, v, p, done, flags) && Tiled(s2, v, done)
  {
    forall w: nat ensures RegionMappedAt(s0, s2, v, p, done, flags, w) {
      assert RegionMappedAt(s0, s1, v, p, done, flags, w);
    }
    forall w: nat | Offset(s0.levels, w, v) < done ensures TileInside(s2, v, done, w) {
      assert TileInside(s1, v, done, w);
    }
  }

  /** The page of this size at `w` has no address in [v, v+len). */
  ghost predicate OffRegion(levels: nat, v: nat, len: nat, w: nat, size: PageSize)
    requires LevelsOk(levels)
  {
    forall u: nat | Offset(levels, u, v) < len :: !SamePage(levels, u, w, size)
  }

  /** Slots got taken only around [v, v+len). */
  ghost predicate RegionSlotsKept(s: Space, t: Space, v: nat, len: nat) {
    && Comparable(s, t)
    && forall w: nat, size: PageSize {:trigger SlotTaken(t, w, size)} | OffRegion(s.levels, v, len, w, size) ::
         SlotTaken(t, w, size) <==> SlotTaken(s, w, size)
  }

  lemma SlotsOutside(s0: Space, s1: Space, s2: Space, v: nat, done: nat, size: PageSize)
    requires RegionSlotsKept(s0, s1, v, done) && done + size.Bytes() <= Reach(s0.levels)
    requires SlotsKept(s1, s2, v + done, Depth(s1.levels, size) + 1)
    ensures RegionSlotsKept(s0, s2, v, done + size.Bytes())
  {
    forall w: nat, q: PageSize | OffRegion(s0.levels, v, done + size.Bytes(), w, q)
      ensures SlotTaken(s2, w, q) <==> SlotTaken(s0, w, q)
    {
      OffsetWithin(s0.levels, v + done, v);
      assert OffRegion(s0.levels, v, done, w, q);
      assert SlotTaken(s2, w, q) <==> SlotTaken(s1, w, q);
    }
  }

  /** What the loop of `map_region` keeps: `done` bytes are mapped, by whole pages. */
  ghost predicate RegionGrown(s: Space, t: Space, v: nat, p: nat, done: nat, flags: MappingFlags) {
    RegionMapped(s, t, v, p, done, flags) && Tiled(t, v, done) && RegionSlotsKept(s, t, v, done)
  }

  lemma GrowRegion(s0: Space, s1: Space, s2: Space, v: nat, p: nat, done: nat, size: PageSize, flags: MappingFlags,
                   w: nat, q: nat, done': nat)
    requires RegionGrown(s0, s1, v, p, done, flags) && w == v + done && q == p + done && IsAligned(w, size)
    requires done' == done + size.Bytes()
    requires PageMapped(s1, s2, w, q, size, flags) && SlotsKept(s1, s2, w, Depth(s1.levels, size) + 1)
    requires FreeFor(s1, w, size)
    ensures RegionGrown(s0, s2, v, p, done', flags) && FreeFor(s0, w, size)
  {
    MapStep(s0, s1, s2, v, p, done, size, flags);
    SlotsOutside(s0, s1, s2, v, done, size);
    SameAtEnd(s0, s1, v, p, done, size, flags);
  }

  /** Nothing is in the way of a page of this size at `v`. */
  ghost predicate FreeFor(s: Space, v: nat, size: PageSize)
    requires LevelsOk(s.levels)
  {
    !SlotTaken(s, v, size) && !UnderHuge(s, v, size)
  }

  /** The largest page allowed by the alignment of both addresses and the size left. */
  function ChooseSize(v: nat, p: nat, size: nat, allowHuge: bool): (pageSize: PageSize)
    requires Aligned4K(v, p, size) && size > 0
    ensures IsAligned(v, pageSize) && IsAligned(p, pageSize) && pageSize.Bytes() <= size
    ensures !allowHuge ==> pageSize == Size4K
    ensures forall s: PageSize | allowHuge && IsAligned(v, s) && IsAligned(p, s) && s.Bytes() <= size ::
              s.Bytes() <= pageSize.Bytes()
  {
    if allowHuge && IsAligned(v, Size1G) && IsAligned(p, Size1G) && size >= Size1G.Bytes() then Size1G
    else if allowHuge && IsAligned(v, Size2M) && IsAligned(p, Size2M) && size >= Size2M.Bytes() then Size2M
    else Size4K
  }

  /** Nothing is in the way of any of the pages that `map_region` chooses. */
  ghost predicate RegionFree(s: Space, v: nat, p: nat, len: nat, allowHuge: bool)
    requires LevelsOk(s.levels) && Aligned4K(v, p, len)
    decreases len
  {
    len > 0 ==>
      var size := ChooseSize(v, p, len, allowHuge);
      AlignedAfter(v, p, len, size);
      FreeFor(s, v, size) && RegionFree(s, v + size.Bytes(), p + size.Bytes(), len - size.Bytes(), allowHuge)
  }

  lemma AlignedAfter(v: nat, p: nat, len: nat, size: PageSize)
    requires Aligned4K(v, p, len) && size.Bytes() <= len
    ensures Aligned4K(v + size.Bytes(), p + size.Bytes(), len - size.Bytes())
  {
    match size { case Size4K => case Size2M => case Size1G => }
  }

  /** No page of the region is mapped. */
  ghost predicate NothingMapped(s: Space, v: nat, len: nat)
    requires LevelsOk(s.levels)
  {
    forall w: nat | v <= w < v + len && w % 0x1000 == 0 :: Translate(s, w) == Err(NotMapped)
  }

  lemma NothingMappedNext(s: Space, v: nat, len: nat)
    requires LevelsOk(s.levels) && len >= 0x1000 && v % 0x1000 == 0
    ensures NothingMapped(s, v, len) <==>
            Translate(s, v) == Err(NotMapped) && NothingMapped(s, v + 0x1000, len - 0x1000)
  {
    forall w: nat | v < w < v + len && w % 0x1000 == 0 ensures w >= v + 0x1000 {
      PageAfter(v, w);
    }
  }

  lemma PageAfter(v: nat, w: nat)
    requires v % 0x1000 == 0 && w % 0x1000 == 0 && v < w
    ensures w >= v + 0x1000
  {
  }

  /** Without huge pages, a region is free exactly when none of its pages is mapped. */
  lemma {:induction false} FreeAt4K(s: Space, at: Places, v: nat, p: nat, len: nat)
    requires WellFormed(s, at) && Aligned4K(v, p, len)
    ensures RegionFree(s, v, p, len, false) <==> NothingMapped(s, v, len)
    decreases len
  {
    if len > 0 {
      AlignedAfter(v, p, len, Size4K);
      FreeAt4K(s, at, v + 0x1000, p + 0x1000, len - 0x1000);
      NothingMappedNext(s, v, len);
      FreeIsUnmapped(s, at, v);
    }
  }

  lemma FreeIsUnmapped(s: Space, at: Places, v: nat)
    requires WellFormed(s, at)
    ensures FreeFor(s, v, Size4K) <==> Translate(s, v) == Err(NotMapped)
  {
    TakenAt4K(s, at, v);
  }

  /** Why the page at `done` was refused: its slot is taken, or a larger page covers it. Both are so
      before the whole operation, too, unless the region is so long that it comes round to itself. */
  ghost predicate Blocked(s: Space, t: Space, v: nat, done: nat, size: PageSize, r: PagingResult<()>)
    requires Comparable(s, t)
  {
    && (r == Err(NoMemory) || r == Err(AlreadyMapped) || r == Err(MappedToHugePage))
    && (r == Err(AlreadyMapped) <==> SlotTaken(t, v + done, size))
    && (r == Err(MappedToHugePage) <==> UnderHuge(t, v + done, size))
    && (done + size.Bytes() <= Reach(s.levels) ==>
          && (r == Err(AlreadyMapped) <==> SlotTaken(s, v + done, size))
          && (r == Err(MappedToHugePage) <==> UnderHuge(s, v + done, size)))
  }

  /** How `map_region` stands when the page at `done` was refused. */
  ghost predicate RegionStopped(s: Space, t: Space, v: nat, p: nat, done: nat, size: PageSize, flags: MappingFlags,
                                r: PagingResult<()>) {
    RegionMapped(s, t, v, p, done, flags) && Tiled(t, v, done) && Blocked(s, t, v, done, size, r)
  }

  lemma StopRegion(s0: Space, s1: Space, t: Space, v: nat, p: nat, done: nat, size: PageSize, flags: MappingFlags,
                   r: PagingResult<()>, w: nat)
    requires RegionGrown(s0, s1, v, p, done, flags) && w == v + done && IsAligned(w, size)
    requires SameTranslation(s1, t) && SlotsKept(s1, t, w, Depth(s1.levels, size))
    requires r == Err(NoMemory) || r == Err(AlreadyMapped) || r == Err(MappedToHugePage)
    requires r == Err(AlreadyMapped) <==> SlotTaken(s1, w, size)
    requires r == Err(MappedToHugePage) <==> UnderHuge(s1, w, size)
    ensures RegionStopped(s0, t, v, p, done, size, flags, r)
  {
    assert RegionMapped(s0, t, v, p, done, flags) && Tiled(t, v, done) by { SameRegion(s0, s1, t, v, p, done, flags); }
    assert SlotTaken(t, w, size) <==> SlotTaken(s1, w, size);
    assert Translate(t, w) == Translate(s1, w);
    if done + size.Bytes() <= Reach(s0.levels) {
      SameAtEnd(s0, s1, v, p, done, size, flags);
    }
  }

  /** The loop of `map_region`, with `rest` bytes to go from `w` and `q` on: the pages chosen so far
      were free, so it hangs on the rest. */
  ghost predicate MapLoop(s: Space, v: nat, p: nat, len: nat, allowHuge: bool, done: nat, w: nat, q: nat, rest: nat)
    requires LevelsOk(s.levels) && Aligned4K(v, p, len)
  {
    && done + rest == len && w == v + done && q == p + done && Aligned4K(w, q, rest)
    && (RegionFree(s, w, q, rest, allowHuge) <==> RegionFree(s, v, p, len, allowHuge))
  }

  lemma MapLoopStep(s: Space, v: nat, p: nat, len: nat, allowHuge: bool, done: nat, w: nat, q: nat, rest: nat,
                    done': nat, w': nat, q': nat, rest': nat)
    requires LevelsOk(s.levels) && Aligned4K(v, p, len) && MapLoop(s, v, p, len, allowHuge, done, w, q, rest) && rest > 0
    requires var size := ChooseSize(w, q, rest, allowHuge);
             && FreeFor(s, w, size) && done' == done + size.Bytes() && w' == w + size.Bytes()
             && q' == q + size.Bytes() && rest' == rest - size.Bytes()
    ensures MapLoop(s, v, p, len, allowHuge, done', w', q', rest')
  {
    RegionFreeNext(s, w, q, rest, allowHuge);
  }

  lemma RegionFreeNext(s: Space, v: nat, p: nat, len: nat, allowHuge: bool)
    requires LevelsOk(s.levels) && Aligned4K(v, p, len) && len > 0
    ensures var size := ChooseSize(v, p, len, allowHuge);
            && Aligned4K(v + size.Bytes(), p + size.Bytes(), len - size.Bytes())
            && (RegionFree(s, v, p, len, allowHuge) <==>
                  FreeFor(s, v, size) && RegionFree(s, v + size.Bytes(), p + size.Bytes(), len - size.Bytes(), allowHuge))
  {
    AlignedAfter(v, p, len, ChooseSize(v, p, len, allowHuge));
  }

  ghost predicate MayMap(s: Space, v: nat, p: nat, len: nat, allowHuge: bool)
    requires LevelsOk(s.levels)
  {
    Aligned4K(v, p, len) && len <= Reach(s.levels) && RegionFree(s, v, p, len, allowHuge)
  }

  /** Everything about the outcome of `map_region`: it succeeds exactly when no frame was refused, the
      region does not come round to itself and is free, and it tells what else was in the way. */
  ghost predicate MapRegionResult(s: Space, t: Space, v: nat, p: nat, len: nat, flags: MappingFlags, allowHuge: bool,
                                  done: nat, r: PagingResult<()>) {
    && Comparable(s, t) && RegionMapped(s, t, v, p, done, flags) && Tiled(t, v, done)
    && done <= len && (r == Err(NotAligned) <==> !Aligned4K(v, p, len))
    && (r.Ok? ==> done == len && MayMap(s, v, p, len, allowHuge))
    && (MayMap(s, v, p, len, allowHuge) ==> r.Ok? || r == Err(NoMemory))
    && (r.Err? && r != Err(NotAligned) ==>
          && done < len && Aligned4K(v + done, p + done, len - done)
          && Blocked(s, t, v, done, ChooseSize(v + done, p + done, len - done, allowHuge), r))
  }

  lemma NothingDone(s: Space, v: nat, p: nat, len: nat, flags: MappingFlags, allowHuge: bool)
    requires LevelsOk(s.levels)
    ensures Aligned4K(v, p, len) ==> MapLoop(s, v, p, len, allowHuge, 0, v, p, len) && RegionGrown(s, s, v, p, 0, flags)
    ensures !Aligned4K(v, p, len) ==> MapRegionResult(s, s, v, p, len, flags, allowHuge, 0, Err(NotAligned))
  {
  }

  lemma MapLoopEnds(s: Space, t: Space, v: nat, p: nat, len: nat, flags: MappingFlags, allowHuge: bool,
                    done: nat, w: nat, q: nat)
    requires LevelsOk(s.levels) && Aligned4K(v, p, len) && MapLoop(s, v, p, len, allowHuge, done, w, q, 0)
    requires RegionGrown(s, t, v, p, done, flags)
    ensures MapRegionResult(s, t, v, p, len, flags, allowHuge, done, Ok(()))
  {
  }

  lemma MapLoopStops(s: Space, u: Space, v: nat, p: nat, len: nat, flags: MappingFlags, allowHuge: bool,
                     done: nat, w: nat, q: nat, rest: nat, size: PageSize, r: PagingResult<()>)
    requires LevelsOk(s.levels) && Aligned4K(v, p, len) && MapLoop(s, v, p, len, allowHuge, done, w, q, rest)
    requires rest > 0 && size == ChooseSize(w, q, rest, allowHuge)
    requires RegionStopped(s, u, v, p, done, size, flags, r)
    ensures MapRegionResult(s, u, v, p, len, flags, allowHuge, done, r)
  {
  }

  /** The page at the end of the mapped part is as it was before. */
  lemma SameAtEnd(s0: Space, s1: Space, v: nat, p: nat, done: nat, size: PageSize, flags: MappingFlags)
    requires RegionGrown(s0, s1, v, p, done, flags) && IsAligned(v + done, size)
    requires done + size.Bytes() <= Reach(s0.levels)
    ensures SlotTaken(s1, v + done, size) <==> SlotTaken(s0, v + done, size)
    ensures Translate(s1, v + done) == Translate(s0, v + done)
  {
    PageOffRegion(s0.levels, v, done, size);
    OffsetWithin(s0.levels, v + done, v);
    assert RegionMappedAt(s0, s1, v, p, done, flags, v + done);
  }

  /** The page at the end of a region is outside it, short of coming round. */
  lemma PageOffRegion(levels: nat, v: nat, done: nat, size: PageSize)
    requires LevelsOk(levels) && IsAligned(v + done, size) && done + size.Bytes() <= Reach(levels)
    ensures OffRegion(levels, v, done, v + done, size)
  {
    forall u: nat | Offset(levels, u, v) < done ensures !SamePage(levels, u, v + done, size) {
      OffsetShift(levels, u, v, done);
      SamePageOffset(levels, v + done, u, size);
    }
  }

  predicate Aligned4K(v: nat, p: nat, size: nat) {
    IsAligned(v, Size4K) && IsAligned(p, Size4K) && IsAligned(size, Size4K)
  }

  lemma AlignedAt(v: nat, p: nat, size: nat, done: nat)
    requires Aligned4K(v, p, size) && done % 0x1000 == 0 && done <= size
    ensures Aligned4K(v + done, p + done, size - done)
  {
  }

  lemma AlignedStep(done: nat, size: PageSize)
    requires done % 0x1000 == 0
    ensures (done + size.Bytes()) % 0x1000 == 0
  {
    match size { case Size4K => case Size2M => case Size1G => }
  }

  // ---------------------------------------------------------------------
  // Where unmap_region stops

  datatype Outcome = Finished(result: PagingResult<()>) | Panicked

  /** Nothing to unmap at `done`: an unmapped address, or the region has come round to its start. */
  ghost predicate NothingLeft(s: Space, v: nat, done: nat)
    requires LevelsOk(s.levels)
  {
    done == Reach(s.levels) || Translate(s, v + done) == Err(NotMapped)
  }

  /** The page at `done` begins before that point or ends after `len`: one of the assertions fails. */
  ghost predicate SticksOut(s: Space, v: nat, len: nat, done: nat)
    requires LevelsOk(s.levels)
  {
    var r := Translate(s, v + done);
    && done < Reach(s.levels) && r.Ok?
    && (!IsAligned(v + done, r.value.size) || done + r.value.size.Bytes() > len)
  }

  /** `unmap_region` of [v, v+len) stops at `done`, after whole pages, with outcome `r`. */
  ghost predicate UnmapStops(s: Space, v: nat, len: nat, done: nat, r: Outcome) {
    && done <= len && Tiled(s, v, done)
    && if done == len then r == Finished(Ok(()))
       else
         || (r == Finished(Err(NotMapped)) && NothingLeft(s, v, done))
         || (r == Panicked && SticksOut(s, v, len, done))
  }

  /** Between two points that whole pages lead to, the first page starts at the one and ends by the other. */
  lemma NextTile(s: Space, v: nat, d: nat, e: nat)
    requires Tiled(s, v, d) && Tiled(s, v, e) && d < e
    ensures !NothingLeft(s, v, d)
    ensures var size := Translate(s, v + d).value.size; IsAligned(v + d, size) && d + size.Bytes() <= e
  {
    var w := v + d;
    OffsetWithin(s.levels, w, v);
    assert TileInside(s, v, e, w);
    var size := Translate(s, w).value.size;
    if w % size.Bytes() > 0 {
      // the page would begin inside the first part, whose pages end at `d`
      var u := AlignDown(w, size);
      AlignedBase(s.levels, w, v, size);
      OffsetWithin(s.levels, w, u);
      SamePageOffset(s.levels, u, w, size);
      PageUniform(s, w, u);
    }
  }

  /** Where it stops and with what outcome is determined by the translation. */
  lemma UnmapStopsOnce(s: Space, v: nat, len: nat, d: nat, r: Outcome, e: nat, q: Outcome)
    requires UnmapStops(s, v, len, d, r) && UnmapStops(s, v, len, e, q)
    ensures d == e && r == q
  {
    if d < e { NextTile(s, v, d, e); }
    if e < d { NextTile(s, v, e, d); }
  }

  /** It succeeds exactly on regions that are tiled by whole pages. */
  lemma UnmapSucceedsIff(s: Space, v: nat, len: nat, done: nat, r: Outcome)
    requires UnmapStops(s, v, len, done, r)
    ensures r == Finished(Ok(())) <==> Tiled(s, v, len)
  {
    if Tiled(s, v, len) {
      UnmapStopsOnce(s, v, len, done, r, len, Finished(Ok(())));
    }
  }

  /** A huge page cannot be unmapped in part: the assertion on its size fails. */
  lemma PartOfHugePage(s: Space, v: nat, len: nat)
    requires LevelsOk(s.levels) && Translate(s, v).Ok? && 0 < len < Translate(s, v).value.size.Bytes()
    ensures UnmapStops(s, v, len, 0, Panicked)
  {
  }

  /** A page that starts at `done` does not run round into the part already unmapped. */
  lemma UnmapFits(s0: Space, s1: Space, v: nat, done: nat, size: PageSize)
    requires RegionUnmapped(s0, s1, v, done) && done <= Reach(s0.levels)
    requires Translate(s1, v + done).Ok? && size == Translate(s1, v + done).value.size && IsAligned(v + done, size)
    ensures done + size.Bytes() <= Reach(s0.levels)
  {
    if done + size.Bytes() > Reach(s0.levels) {
      OffsetShift(s0.levels, v, v, done);
      SamePageOffset(s0.levels, v + done, v, size);
      PageUniform(s1, v + done, v);
    }
  }

  lemma TiledStep(s0: Space, s1: Space, v: nat, done: nat, size: PageSize)
    requires RegionUnmapped(s0, s1, v, done) && Tiled(s0, v, done) && done + size.Bytes() <= Reach(s0.levels)
    requires Translate(s1, v + done).Ok? && size == Translate(s1, v + done).value.size && IsAligned(v + done, size)
    ensures Tiled(s0, v, done + size.Bytes())
  {
    var len := done + size.Bytes();
    forall w: nat | Offset(s0.levels, w, v) < len ensures TileInside(s0, v, len, w) {
      OffsetShift(s0.levels, w, v, done);
      SamePageOffset(s0.levels, v + done, w, size);
      if Offset(s0.levels, w, v) < done {
        assert TileInside(s0, v, done, w);
      } else {
        PageUniform(s1, v + done, w);
      }
    }
  }

  /** The page at `done` is as it was before the loop, unless the region has come round. */
  lemma StillAsBefore(s0: Space, s1: Space, v: nat, done: nat)
    requires RegionUnmapped(s0, s1, v, done) && done <= Reach(s0.levels)
    ensures Translate(s1, v + done) == if done == Reach(s0.levels) then Err(NotMapped) else Translate(s0, v + done)
  {
    if done < Reach(s0.levels) {
      OffsetWithin(s0.levels, v + done, v);
    }
  }

  /** `t` is `s` with [v, v+done) and the page at its end unmapped. */
  ghost predicate UnmappedPast(s: Space, t: Space, v: nat, done: nat, size: PageSize) {
    && Comparable(s, t)
    && forall w: nat :: Translate(t, w) ==
                        if Offset(s.levels, w, v) < done || SamePage(s.levels, v + done, w, size) then Err(NotMapped)
                        else Translate(s, w)
  }

  /** What the loop of `unmap_region` keeps: `done` bytes are unmapped, which were whole pages. */
  ghost predicate RegionGone(s: Space, t: Space, v: nat, done: nat) {
    RegionUnmapped(s, t, v, done) && Tiled(s, v, done)
  }

  /** One page further: what is unmapped now, and, if the page was aligned, that the tiles go on. */
  lemma UnmapFurther(s0: Space, s1: Space, s2: Space, v: nat, done: nat, size: PageSize, w: nat)
    requires RegionGone(s0, s1, v, done) && w == v + done
    requires Translate(s1, w).Ok? && size == Translate(s1, w).value.size && PageUnmapped(s1, s2, w, size)
    ensures UnmappedPast(s0, s2, v, done, size)
    ensures IsAligned(w, size) ==> RegionGone(s0, s2, v, done + size.Bytes())
  {
    if IsAligned(w, size) {
      UnmapFits(s0, s1, v, done, size);
      UnmapStep(s0, s1, s2, v, done, size);
      TiledStep(s0, s1, v, done, size);
    }
  }

  /** Everything about the outcome: where and how it stopped, and what is unmapped then. */
  ghost predicate UnmapResult(s: Space, t: Space, v: nat, len: nat, done: nat, r: Outcome) {
    && Comparable(s, t) && UnmapStops(s, v, len, done, r)
    && (r == Finished(Ok(())) <==> Tiled(s, v, len))
    && OnlyUnmapped(s, t)
    && (r.Finished? ==> RegionUnmapped(s, t, v, done))
    && (r.Panicked? ==> UnmappedPast(s, t, v, done, Translate(s, v + done).value.size))
  }

  lemma Stopped(s: Space, t: Space, v: nat, len: nat, done: nat)
    requires RegionGone(s, t, v, done) && done <= len && (done < len ==> NothingLeft(s, v, done))
    ensures UnmapResult(s, t, v, len, done, if done == len then Finished(Ok(())) else Finished(Err(NotMapped)))
  {
    UnmapSucceedsIff(s, v, len, done, if done == len then Finished(Ok(())) else Finished(Err(NotMapped)));
  }

  lemma StoppedOut(s: Space, t: Space, v: nat, len: nat, done: nat, size: PageSize)
    requires Tiled(s, v, done) && done < len && SticksOut(s, v, len, done) && size == Translate(s, v + done).value.size
    requires UnmappedPast(s, t, v, done, size)
    ensures UnmapResult(s, t, v, len, done, Panicked)
  {
    UnmapSucceedsIff(s, v, len, done, Panicked);
  }

  lemma AlignedBase(levels: nat, w: nat, v: nat, size: PageSize)
    requires LevelsOk(levels) && w % size.Bytes() <= Offset(levels, w, v)
    ensures Offset(levels, w - w % size.Bytes(), v) == Offset(levels, w, v) - w % size.Bytes()
    ensures IsAligned(w - w % size.Bytes(), size)
  {
    var u := AlignDown(w, size);
    OffsetBack(levels, w, v, w - u);
  }

  lemma OffsetBack(levels: nat, w: nat, v: nat, k: nat)
    requires LevelsOk(levels) && k <= w && k <= Offset(levels, w, v)
    ensures Offset(levels, w - k, v) == Offset(levels, w, v) - k
  {
  }

  lemma OffsetWithin(levels: nat, w: nat, u: nat)
    requires LevelsOk(levels) && u <= w < u + Reach(levels)
    ensures Offset(levels, w, u) == w - u
  {
  }

  lemma UnmapStep(s0: Space, s1: Space, s2: Space, v: nat, done: nat, size: PageSize)
    requires RegionUnmapped(s0, s1, v, done) && done + size.Bytes() <= Reach(s0.levels)
    requires IsAligned(v + done, size) && PageUnmapped(s1, s2, v + done, size)
    ensures RegionUnmapped(s0, s2, v, done + size.Bytes())
  {
    forall w: nat ensures Translate(s2, w) ==
                          if Offset(s0.levels, w, v) < done + size.Bytes() then Err(NotMapped) else Translate(s0, w)
    {
      OffsetShift(s0.levels, w, v, done);
      SamePageOffset(s0.levels, v + done, w, size);
    }
  }

  /** Every address translates as before, or not at all any more. */
  ghost predicate OnlyUnmapped(s: Space, t: Space) {
    && Comparable(s, t)
    && forall w: nat :: Translate(t, w) == Translate(s, w) || Translate(t, w) == Err(NotMapped)
  }

  /** Both region results in plain address terms, on canonical addresses: exactly [v, v+len). */
  lemma RegionMappedCanonical(s: Space, t: Space, v: nat, p: nat, len: nat, flags: MappingFlags, w: nat)
    requires RegionMapped(s, t, v, p, len, flags) && 0 < len <= Reach(s.levels)
    requires Canonical(s.levels, v) && Canonical(s.levels, v + len - 1) && Canonical(s.levels, w)
    ensures if v <= w < v + len then Translate(s, w) == Err(NotMapped) && MapsTo(Translate(t, w), p + (w - v), flags)
            else Translate(t, w) == Translate(s, w)
  {
    CanonicalOffset(s.levels, v, len, w);
    assert RegionMappedAt(s, t, v, p, len, flags, w);
  }

  lemma RegionUnmappedCanonical(s: Space, t: Space, v: nat, len: nat, w: nat)
    requires RegionUnmapped(s, t, v, len) && 0 < len <= Reach(s.levels)
    requires Canonical(s.levels, v) && Canonical(s.levels, v + len - 1) && Canonical(s.levels, w)
    ensures Translate(t, w) == if v <= w < v + len then Err(NotMapped) else Translate(s, w)
  {
    CanonicalOffset(s.levels, v, len, w);
  }

  // ---------------------------------------------------------------------
  // The region theorems

  /** Two ways of mapping the same region of the same space, huge pages or not, agree everywhere. */
  lemma RegionMappingsAgree(
    s: Space, s': Space, t: Space, t': Space, v: nat, p: nat, len: nat, flags: MappingFlags, w: nat)
    requires SameTranslation(s, s')
    requires RegionMapped(s, t, v, p, len, flags) && RegionMapped(s', t', v, p, len, flags)
    ensures Agree(Translate(t, w), Translate(t', w))
  {
    assert RegionMappedAt(s, t, v, p, len, flags, w);
    assert RegionMappedAt(s', t', v, p, len, flags, w);
  }

  /** The same physical address and flags, or both unmapped. */
  ghost predicate Agree(r: PagingResult<Mapping>, r': PagingResult<Mapping>) {
    if r.Ok? then MapsTo(r', r.value.paddr, r.value.flags) else r' == r
  }

  /** Unmapping a mapped region restores the translation of every address. */
  lemma UnmapUndoesMap(s: Space, t: Space, u: Space, v: nat, p: nat, len: nat, flags: MappingFlags)
    requires RegionMapped(s, t, v, p, len, flags) && RegionUnmapped(t, u, v, len)
    ensures SameTranslation(s, u)
  {
    forall w: nat ensures Translate(u, w) == Translate(s, w) {
      assert RegionMappedAt(s, t, v, p, len, flags, w);
    }
  }
}
