/**
  `PageTable64` itself: the table frames in physical memory, the list of frames to
  free, and the operations that change them.
 */
module PageTable {
  import opened PageTableSpec
  import opened PageAddress
  import opened AddressSpace
  import opened Common

  /** `PagingIf`: a pool of 4K frames. An allocation may fail at any time; a frame can be
      freed only while it is allocated. */
  class FrameAllocator {
    var free: set<nat>
    var inUse: set<nat>
    /** How many requests have been refused. */
    ghost var refusals: nat

    ghost predicate Valid()
      reads this
    {
      free !! inUse
    }

    method AllocFrame() returns (r: Option<nat>)
      requires Valid()
      modifies this
      ensures Valid()
      ensures r.None? ==> free == old(free) && inUse == old(inUse)
      ensures r.Some? ==> r.value in old(free) && free == old(free) - {r.value} && inUse == old(inUse) + {r.value}
      ensures refusals == if r.None? then old(refusals) + 1 else old(refusals)
    {
      var refuse: bool := *;
      if refuse || free == {} {
        refusals := refusals + 1;
        return None;
      }
      var f :| f in free;
      free, inUse := free - {f}, inUse + {f};
      return Some(f);
    }

    method DeallocFrame(f: nat)
      requires Valid() && f in inUse
      modifies this
      ensures Valid() && free == old(free) + {f} && inUse == old(inUse) - {f}
    {
      free, inUse := free + {f}, inUse - {f};
    }
  }

  function NextTable(e: PTE): PagingResult<nat> {
    if !e.IsPresent() then Err(NotMapped)
    else if e.IsHuge() then Err(MappedToHugePage)
    else Ok(e.Paddr())
  }

  /** Everything that holds once table `c`, in a frame not used before, hangs under table `f`. */
  lemma TableInstalled(s: Space, at: Places, tables: seq<nat>, inUse: set<nat>, f: nat, i: nat, c: nat, v: nat, d: nat)
    requires WellFormed(s, at) && Installable(s.levels, s.mem, at, f, i, c) && Listed(tables, at)
    requires Meets(s, at, f, v, d) && i == Indices(s.levels, v)[d] && at.Keys <= inUse && c !in inUse
    ensures var t, at' := s.(mem := Install(s.mem, f, i, c)), PlaceChild(at, f, i, c);
            && WellFormed(t, at') && SameTranslation(s, t) && Meets(t, at', c, v, d + 1)
            && SlotsKept(s, t, v, d + 1) && Listed(tables + [c], at')
            && at'.Keys <= inUse + {c} && inUse + {c} - at'.Keys == inUse - at.Keys
  {
    var at' := PlaceChild(at, f, i, c);
    InstallSpace(s, at, f, i, c, v, d);
    InstallKeepsSlots(s, at, f, i, c, v, d);
    ListedAppend(tables, at, c, at'[c]);
    assert at'.Keys == at.Keys + {c};
  }

  /** set_paddr and set_flags, each if asked for. */
  function Retarget(e: PTE, paddr: Option<nat>, flags: Option<MappingFlags>): PTE
    requires e.Page?
  {
    Page(paddr.GetOr(e.target), flags.GetOr(e.attrs), e.huge)
  }

  class PageTable64 {
    const levels: nat
    const frames: FrameAllocator
    const rootPaddr: nat
    var intrmTables: seq<nat>
    var mem: Memory
    ghost var at: Places

    ghost function View(): Space
      reads this
    {
      Space(levels, rootPaddr, mem)
    }

    ghost predicate Valid()
      reads this, frames
    {
      && WellFormed(View(), at)
      && frames.Valid()
      && Listed(intrmTables, at)
      && at.Keys <= frames.inUse
    }

    /** The second half of try_new, once the root frame is allocated. */
    constructor FromRoot(levels: nat, frames: FrameAllocator, root: nat)
      requires LevelsOk(levels) && frames.Valid() && root in frames.inUse
      ensures this.levels == levels && this.frames == frames && this.rootPaddr == root
      ensures Valid() && intrmTables == [root] && at.Keys == {root}
      ensures forall w: nat :: Translate(View(), w) == Err(NotMapped)
      ensures forall w: nat, size: PageSize :: !SlotTaken(View(), w, size)
    {
      this.levels := levels;
      this.frames := frames;
      rootPaddr := root;
      intrmTables := [root];
      mem := map[root := EmptyTable()];
      at := map[root := Place([], root)];
      new;
      forall f, i: nat | f in at ensures SlotOk(levels, root, mem, at, f, i) {
        assert EntryAt(mem, f, i) == Unused;
      }
    }

    static method TryNew(levels: nat, frames: FrameAllocator) returns (r: PagingResult<PageTable64>)
      requires LevelsOk(levels) && frames.Valid()
      modifies frames
      ensures r.Err? ==> r.error == NoMemory && frames.Valid() && frames.inUse == old(frames.inUse)
      ensures r.Ok? ==>
                && fresh(r.value) && r.value.Valid() && r.value.levels == levels && r.value.frames == frames
                && r.value.intrmTables == [r.value.rootPaddr] && r.value.Outside() == old(frames.inUse)
                && forall w: nat :: Translate(r.value.View(), w) == Err(NotMapped)
      ensures frames.refusals == if r.Err? then old(frames.refusals) + 1 else old(frames.refusals)
      ensures r.Ok? ==> forall w: nat, size: PageSize :: !SlotTaken(r.value.View(), w, size)
    {
      var f := frames.AllocFrame();
      if f.None? {
        return Err(NoMemory);
      }
      var t := new PageTable64.FromRoot(levels, frames, f.value);
      r := Ok(t);
    }

    method AllocTable() returns (r: PagingResult<nat>)
      requires Valid()
      modifies this, frames
      ensures frames.Valid() && at == old(at) && intrmTables == old(intrmTables)
      ensures r.Err? ==> r.error == NoMemory && mem == old(mem) && frames.inUse == old(frames.inUse)
      ensures r.Ok? ==> r.value !in old(frames.inUse) && r.value !in old(mem) && mem == old(mem)[r.value := EmptyTable()]
                        && frames.inUse == old(frames.inUse) + {r.value}
      ensures frames.refusals == if r.Err? then old(frames.refusals) + 1 else old(frames.refusals)
    {
      var f := frames.AllocFrame();
      if f.None? {
        return Err(NoMemory);
      }
      mem := mem[f.value := EmptyTable()];
      r := Ok(f.value);
    }

    /** The allocated frames that are not tables of this page table. */
    ghost function Outside(): set<nat>
      reads this, frames
    {
      frames.inUse - at.Keys
    }

    /** An operation that ends in `r` reports want of memory exactly when a frame was refused. */
    ghost predicate Refused<T>(r: PagingResult<T>, before: nat)
      reads frames
    {
      frames.refusals == if r == Err(NoMemory) then before + 1 else before
    }

    /** next_table_mut_or_create on a slot of a table met by the walk for `v`. */
    method NextTableOrCreate(f: nat, i: nat, ghost v: nat, ghost d: nat) returns (r: PagingResult<nat>)
      requires Valid() && d + 1 < levels && Meets(View(), at, f, v, d) && i == Indices(levels, v)[d]
      modifies this, frames
      ensures Valid() && Outside() == old(Outside()) && SameTranslation(old(View()), View())
      ensures Refused(r, old(frames.refusals)) && (r == Err(NoMemory) ==> Translate(View(), v) == Err(NotMapped))
      ensures SlotsKept(old(View()), View(), v, d + 1)
      ensures r.Err? ==> forall size: PageSize | d < Depth(levels, size) :: !SlotTaken(old(View()), v, size)
      ensures r.Ok? ==> Meets(View(), at, r.value, v, d + 1)
      ensures r.Err? ==>
                || r.error == NoMemory
                || (r.error == MappedToHugePage && d + 3 >= levels && LeafAt(View(), v, SizeAtDepth(levels, d)))
    {
      MetEntry(View(), at, f, v, d);
      forall size: PageSize | d < Depth(levels, size) && !EntryAt(mem, f, i).Table?
        ensures !SlotTaken(View(), v, size)
      {
        MetNotTaken(View(), at, f, v, d, size);
      }
      if mem[f][i].IsUnused() {
        r := CreateTable(f, i, v, d);
      } else {
        r := NextTable(mem[f][i]);
      }
    }

    method CreateTable(f: nat, i: nat, ghost v: nat, ghost d: nat) returns (r: PagingResult<nat>)
      requires Valid() && d + 1 < levels && Meets(View(), at, f, v, d) && i == Indices(levels, v)[d]
      requires f in mem && |mem[f]| == ENTRY_COUNT && mem[f][i].IsUnused()
      modifies this, frames
      ensures Valid() && Outside() == old(Outside()) && SameTranslation(old(View()), View())
      ensures Refused(r, old(frames.refusals)) && SlotsKept(old(View()), View(), v, d + 1)
      ensures r.Ok? ==> Meets(View(), at, r.value, v, d + 1)
      ensures r.Err? ==> r.error == NoMemory && View() == old(View())
    {
      r := AllocTable();
      if r.Err? {
        return;
      }
      var c := r.value;
      intrmTables := intrmTables + [c];
      mem := SetSlot(mem, f, i, Table(c));
      at := PlaceChild(at, f, i, c);
      TableInstalled(old(View()), old(at), old(intrmTables), old(frames.inUse), f, i, c, v, d);
    }

    /** The level-3 table for `v`: the root itself, or a table below it. */
    method P3Table(v: nat) returns (r: PagingResult<nat>)
      requires Valid()
      modifies this, frames
      ensures Valid() && Outside() == old(Outside()) && SameTranslation(old(View()), View())
      ensures Refused(r, old(frames.refusals)) && (r == Err(NoMemory) ==> Translate(View(), v) == Err(NotMapped))
      ensures SlotsKept(old(View()), View(), v, levels - 3)
      ensures r.Ok? ==> Meets(View(), at, r.value, v, levels - 3)
      ensures r.Err? ==> r.error == NoMemory && forall size: PageSize :: !SlotTaken(old(View()), v, size)
    {
      if levels == 3 {
        r := Ok(rootPaddr);
      } else {
        r := NextTableOrCreate(rootPaddr, P4Index(v), v, 0);
      }
    }

    /** get_entry_mut_or_create: the slot of the page of `v`, with the tables above it created. */
    method GetEntryOrCreate(v: nat, size: PageSize) returns (r: PagingResult<(nat, nat)>)
      requires Valid()
      modifies this, frames
      ensures Valid() && Outside() == old(Outside()) && SameTranslation(old(View()), View())
      ensures Refused(r, old(frames.refusals))
      ensures r.Ok? ==> SlotOf(levels, at, r.value.0, r.value.1, v, size) && r.value.1 < ENTRY_COUNT
      ensures r.Err? ==> r.error == NoMemory || r.error == MappedToHugePage
      ensures r == Err(MappedToHugePage) <==> UnderHuge(old(View()), v, size)
      ensures r == Err(NoMemory) ==> Translate(old(View()), v) == Err(NotMapped)
      ensures SlotsKept(old(View()), View(), v, Depth(levels, size))
      ensures r.Err? ==> !SlotTaken(old(View()), v, size)
    {
      var p3 := P3Table(v);
      if p3.Err? {
        return Err(p3.error);
      }
      if size == Size1G {
        MetEntry(View(), at, p3.value, v, levels - 3);
        return Ok((p3.value, P3Index(v)));
      }
      ghost var mid := View();
      r := EntryBelow(p3.value, v, size);
      SlotsKeptTwice(old(View()), mid, View(), v, levels - 3, Depth(levels, size));
    }

    method EntryBelow(p3: nat, v: nat, size: PageSize) returns (r: PagingResult<(nat, nat)>)
      requires Valid() && Meets(View(), at, p3, v, levels - 3) && size != Size1G
      modifies this, frames
      ensures Valid() && Outside() == old(Outside()) && SameTranslation(old(View()), View())
      ensures Refused(r, old(frames.refusals))
      ensures r.Ok? ==> SlotOf(levels, at, r.value.0, r.value.1, v, size) && r.value.1 < ENTRY_COUNT
      ensures r.Err? ==> r.error == NoMemory || r.error == MappedToHugePage
      ensures r == Err(MappedToHugePage) <==> UnderHuge(old(View()), v, size)
      ensures r == Err(NoMemory) ==> Translate(old(View()), v) == Err(NotMapped)
      ensures SlotsKept(old(View()), View(), v, Depth(levels, size))
      ensures r.Err? ==> !SlotTaken(old(View()), v, size)
    {
      var p2 := NextTableOrCreate(p3, P3Index(v), v, levels - 3);
      if p2.Err? {
        return Err(p2.error);
      }
      if size == Size2M {
        MetEntry(View(), at, p2.value, v, levels - 2);
        MetNotLarger(View(), at, p2.value, v, levels - 2);
        return Ok((p2.value, P2Index(v)));
      }
      ghost var mid := View();
      var p1 := NextTableOrCreate(p2.value, P2Index(v), v, levels - 2);
      SlotsKeptTwice(old(View()), mid, View(), v, levels - 2, levels - 1);
      if p1.Err? {
        return Err(p1.error);
      }
      MetEntry(View(), at, p1.value, v, levels - 1);
      MetNotLarger(View(), at, p1.value, v, levels - 1);
      return Ok((p1.value, P1Index(v)));
    }

    /** What get_entry_mut finds: the slot that decides the translation of `v`, or a missing table. */
    ghost predicate FoundEntry(v: nat, r: PagingResult<(nat, nat, PageSize)>)
      requires LevelsOk(levels)
      reads this
    {
      match r
      case Ok((f, i, size)) =>
        && SlotOf(levels, at, f, i, v, size) && i < ENTRY_COUNT && !EntryAt(mem, f, i).Table?
        && Translate(View(), v) == LeafMeaning(EntryAt(mem, f, i), v, size) && !MissingTable(View(), v)
        && (EntryAt(mem, f, i).Unused? ==> size == Size4K)
      case Err(e) => e == NotMapped && Translate(View(), v) == Err(NotMapped) && MissingTable(View(), v)
    }

    /** get_entry_mut. */
    method GetEntry(v: nat) returns (r: PagingResult<(nat, nat, PageSize)>)
      requires Valid()
      ensures FoundEntry(v, r)
    {
      var p3 := rootPaddr;
      if levels == 4 {
        MetEntry(View(), at, rootPaddr, v, 0);
        var next := NextTable(mem[p3][P4Index(v)]);
        if next.Err? {
          return Err(next.error);
        }
        p3 := next.value;
      }
      r := LookBelow(p3, v);
    }

    method LookBelow(p3: nat, v: nat) returns (r: PagingResult<(nat, nat, PageSize)>)
      requires Valid() && Meets(View(), at, p3, v, levels - 3)
      ensures FoundEntry(v, r)
    {
      MetEntry(View(), at, p3, v, levels - 3);
      var p3e := mem[p3][P3Index(v)];
      if p3e.IsHuge() {
        return Ok((p3, P3Index(v), Size1G));
      }
      var p2 := NextTable(p3e);
      if p2.Err? {
        return Err(p2.error);
      }
      MetEntry(View(), at, p2.value, v, levels - 2);
      var p2e := mem[p2.value][P2Index(v)];
      if p2e.IsHuge() {
        return Ok((p2.value, P2Index(v), Size2M));
      }
      var p1 := NextTable(p2e);
      if p1.Err? {
        return Err(p1.error);
      }
      MetEntry(View(), at, p1.value, v, levels - 1);
      return Ok((p1.value, P1Index(v), Size4K));
    }

    /** map: exactly the page of `v` changes, from unmapped to the given mapping; a failed map
        changes no translation, even when it ran out of frames after creating some tables. */
    method Map(v: nat, target: nat, size: PageSize, flags: MappingFlags) returns (r: PagingResult<()>)
      requires Valid()
      modifies this, frames
      ensures Valid() && Outside() == old(Outside())
      ensures r.Ok? ==> PageMapped(old(View()), View(), v, AlignDown(target, size), size, flags)
      ensures r.Err? ==> SameTranslation(old(View()), View())
      ensures r.Err? ==> r.error == NoMemory || r.error == MappedToHugePage || r.error == AlreadyMapped
      ensures Refused(r, old(frames.refusals))
      ensures r == Err(MappedToHugePage) <==> UnderHuge(old(View()), v, size)
      ensures r == Err(NoMemory) ==> Translate(old(View()), v) == Err(NotMapped)
      ensures r == Err(AlreadyMapped) <==> SlotTaken(old(View()), v, size)
      ensures size == Size4K ==> (r == Err(AlreadyMapped) <==> LeafAt(old(View()), v, Size4K))
      ensures SlotsKept(old(View()), View(), v, Depth(levels, size) + if r.Ok? then 1 else 0)
    {
      TakenAt4K(View(), at, v);
      var slot := GetEntryOrCreate(v, size);
      if slot.Err? {
        return Err(slot.error);
      }
      var (f, i) := slot.value;
      ghost var mid := View();
      TakenSlot(mid, at, f, i, v, size);
      if !mem[f][i].IsUnused() {
        return Err(AlreadyMapped);
      }
      WriteLeaf(f, i, AlignDown(target, size), flags, size, v);
      SameThenMapped(old(View()), mid, View(), v, AlignDown(target, size), size, flags);
      SlotsKeptTwice(old(View()), mid, View(), v, Depth(levels, size), Depth(levels, size) + 1);
      return Ok(());
    }

    method WriteLeaf(f: nat, i: nat, target: nat, flags: MappingFlags, size: PageSize, ghost v: nat)
      requires Valid() && SlotOf(levels, at, f, i, v, size) && i < ENTRY_COUNT && mem[f][i].IsUnused()
      modifies this
      ensures Valid() && at == old(at) && intrmTables == old(intrmTables)
      ensures PageMapped(old(View()), View(), v, target, size, flags)
      ensures SlotsKept(old(View()), View(), v, Depth(levels, size) + 1)
    {
      MapLeaf(View(), at, f, i, Page(target, flags, size.IsHuge()), v, size);
      WriteKeepsSlots(View(), at, f, i, Page(target, flags, size.IsHuge()), v, size);
      mem := SetSlot(mem, f, i, Page(target, flags, size.IsHuge()));
    }

    /** unmap: fails exactly on unmapped addresses, and otherwise unmaps exactly the page of `v`. */
    method Unmap(v: nat) returns (r: PagingResult<(nat, PageSize)>)
      requires Valid()
      modifies this
      ensures Valid() && at == old(at) && intrmTables == old(intrmTables)
      ensures r.Err? <==> Translate(old(View()), v).Err?
      ensures r.Err? ==> r.error == NotMapped && mem == old(mem)
      ensures r.Ok? ==>
                var m := Translate(old(View()), v).value;
                && r.value.1 == m.size && r.value.0 + v % m.size.Bytes() == m.paddr
                && PageUnmapped(old(View()), View(), v, m.size)
                && SlotsKept(old(View()), View(), v, Depth(levels, m.size) + 1)
                && forall q: PageSize | q != m.size :: SlotTaken(View(), v, q) <==> SlotTaken(old(View()), v, q)
    {
      var slot := GetEntry(v);
      if slot.Err? {
        return Err(slot.error);
      }
      var (f, i, size) := slot.value;
      if mem[f][i].IsUnused() {
        return Err(NotMapped);
      }
      var paddr := mem[f][i].Paddr();
      ClearLeaf(View(), at, f, i, v, size);
      WriteKeepsSlots(View(), at, f, i, Unused, v, size);
      mem := SetSlot(mem, f, i, Unused);
      return Ok((paddr, size));
    }

    /** query computes the translation. */
    method Query(v: nat) returns (r: PagingResult<Mapping>)
      requires Valid()
      ensures r == Translate(View(), v)
    {
      var slot := GetEntry(v);
      if slot.Err? {
        return Err(slot.error);
      }
      var (f, i, size) := slot.value;
      var e := mem[f][i];
      if e.IsUnused() {
        return Err(NotMapped);
      }
      return Ok(Mapping(e.Paddr() + v % size.Bytes(), e.attrs, size));
    }

    /** One iteration of map_region, seen from the space `s0` before the loop. */
    method MapNext(ghost s0: Space, ghost vaddr: nat, ghost paddr: nat, ghost done: nat,
                   v: nat, p: nat, size: PageSize, flags: MappingFlags, ghost done': nat)
      returns (r: PagingResult<()>)
      requires Valid() && done' == done + size.Bytes() && v == vaddr + done && p == paddr + done && IsAligned(v, size) && IsAligned(p, size)
      requires RegionGrown(s0, View(), vaddr, paddr, done, flags)
      modifies this, frames
      ensures Valid() && Outside() == old(Outside()) && r != Err(NotAligned)
      ensures Refused(r, old(frames.refusals))
      ensures r.Ok? ==> RegionGrown(s0, View(), vaddr, paddr, done', flags) && FreeFor(s0, v, size)
      ensures r.Err? ==> RegionStopped(s0, View(), vaddr, paddr, done, size, flags, r)
    {
      ghost var s1 := View();
      AlignDownUnique(p, p, size);
      r := Map(v, p, size, flags);
      if r.Err? {
        StopRegion(s0, s1, View(), vaddr, paddr, done, size, flags, r, v);
      } else {
        GrowRegion(s0, s1, View(), vaddr, paddr, done, size, flags, v, p, done');
      }
    }

    /** One iteration with its choice of the page size. */
    method MapChosen(ghost s0: Space, ghost vaddr: nat, ghost paddr: nat, ghost size: nat, flags: MappingFlags,
                     allowHuge: bool, ghost done: nat, v: nat, p: nat, rest: nat)
      returns (m: PagingResult<()>, v': nat, p': nat, rest': nat, ghost done': nat)
      requires Valid() && rest > 0 && s0.levels == levels && Aligned4K(vaddr, paddr, size)
      requires MapLoop(s0, vaddr, paddr, size, allowHuge, done, v, p, rest)
      requires RegionGrown(s0, View(), vaddr, paddr, done, flags)
      modifies this, frames
      ensures Valid() && Outside() == old(Outside()) && Refused(m, old(frames.refusals)) && rest' < rest
      ensures m.Ok? ==> MapLoop(s0, vaddr, paddr, size, allowHuge, done', v', p', rest')
      ensures m.Ok? ==> RegionGrown(s0, View(), vaddr, paddr, done', flags)
      ensures m.Err? ==> MapRegionResult(s0, View(), vaddr, paddr, size, flags, allowHuge, done, m)
    {
      var pageSize := ChooseSize(v, p, rest, allowHuge);
      var bytes := pageSize.Bytes();
      v', p', rest', done' := v + bytes, p + bytes, rest - bytes, done + bytes;
      m := MapNext(s0, vaddr, paddr, done, v, p, pageSize, flags, done');
      if m.Err? {
        MapLoopStops(s0, View(), vaddr, paddr, size, flags, allowHuge, done, v, p, rest, pageSize, m);
      } else {
        MapLoopStep(s0, vaddr, paddr, size, allowHuge, done, v, p, rest, done', v', p', rest');
      }
    }

    /** map_region: success maps the whole region, by pages that tile it; failure leaves the
        `done` bytes before the failing page mapped and nothing else changed, and tells exactly
        what was in the way of the page chosen there. */
    method MapRegion(vaddr: nat, paddr: nat, size: nat, flags: MappingFlags, allowHuge: bool)
      returns (r: PagingResult<()>, ghost done: nat)
      requires Valid()
      modifies this, frames
      ensures Valid() && Outside() == old(Outside())
      ensures Refused(r, old(frames.refusals))
      ensures MapRegionResult(old(View()), View(), vaddr, paddr, size, flags, allowHuge, done, r)
    {
      done := 0;
      ghost var s0 := View();
      NothingDone(s0, vaddr, paddr, size, flags, allowHuge);
      if !IsAligned(vaddr, Size4K) || !IsAligned(paddr, Size4K) || !IsAligned(size, Size4K) {
        return Err(NotAligned), 0;
      }
      var v: nat, p: nat, rest: nat := vaddr, paddr, size;
      while rest > 0
        invariant Valid() && Outside() == old(Outside()) && frames.refusals == old(frames.refusals)
        invariant MapLoop(s0, vaddr, paddr, size, allowHuge, done, v, p, rest)
        invariant RegionGrown(s0, View(), vaddr, paddr, done, flags)
      {
        ghost var before := done;
        var m;
        m, v, p, rest, done := MapChosen(s0, vaddr, paddr, size, flags, allowHuge, done, v, p, rest);
        if m.Err? {
          return m, before;
        }
      }
      MapLoopEnds(s0, View(), vaddr, paddr, size, flags, allowHuge, done, v, p);
      return Ok(()), done;
    }

    /** update: retargets the page of `v`, but leaves alone pages at physical address zero. It
        reports NotMapped exactly when a table is missing, so an unmapped address whose tables are
        all there is reported as success (see LeftoverTables). */
    method Update(v: nat, paddr: Option<nat>, flags: Option<MappingFlags>) returns (r: PagingResult<PageSize>)
      requires Valid()
      modifies this
      ensures Valid() && at == old(at) && intrmTables == old(intrmTables)
      ensures r.Err? ==> r.error == NotMapped
      ensures r.Err? <==> MissingTable(old(View()), v)
      ensures match Translate(old(View()), v)
              case Err(_) => mem == old(mem) && (r.Ok? ==> r == Ok(Size4K))
              case Ok(m) =>
                && r == Ok(m.size)
                && if m.paddr == v % m.size.Bytes() then mem == old(mem)
                   else PageReplaced(old(View()), View(), v, paddr.GetOr(m.paddr - v % m.size.Bytes()), m.size, flags.GetOr(m.flags))
    {
      var slot := GetEntry(v);
      if slot.Err? {
        return Err(slot.error);
      }
      var (f, i, size) := slot.value;
      if mem[f][i].Paddr() == 0 {
        return Ok(size);
      }
      var e := Retarget(mem[f][i], paddr, flags);
      UpdateLeaf(View(), at, f, i, e, v, size);
      mem := SetSlot(mem, f, i, e);
      return Ok(size);
    }

    /** unmap_region: it unmaps page by page up to the point `done` where it stops. It succeeds
        exactly on a region tiled by whole pages; it reports NotMapped exactly where nothing is
        mapped any more, and an assertion fails exactly where a page sticks out, after that page
        was unmapped. */
    method UnmapRegion(vaddr: nat, size: nat) returns (r: Outcome, ghost done: nat)
      requires Valid()
      modifies this
      ensures Valid() && at == old(at) && intrmTables == old(intrmTables)
      ensures UnmapResult(old(View()), View(), vaddr, size, done, r)
    {
      var v, rest: nat := vaddr, size;
      done := 0;
      while rest > 0
        invariant Valid() && at == old(at) && intrmTables == old(intrmTables)
        invariant done + rest == size && v == vaddr + done
        invariant RegionGone(old(View()), View(), vaddr, done)
      {
        var m := UnmapNext(old(View()), vaddr, done, v, rest);
        if m.Err? {
          Stopped(old(View()), View(), vaddr, size, done);
          return Finished(Err(m.error)), done;
        }
        var pageSize := m.value;
        if !IsAligned(v, pageSize) || pageSize.Bytes() > rest {
          StoppedOut(old(View()), View(), vaddr, size, done, pageSize);
          return Panicked, done;
        }
        v, rest, done := v + pageSize.Bytes(), rest - pageSize.Bytes(), done + pageSize.Bytes();
      }
      Stopped(old(View()), View(), vaddr, size, done);
      return Finished(Ok(())), done;
    }

    /** One iteration, seen from the space `s0` before the loop. */
    method UnmapNext(ghost s0: Space, ghost vaddr: nat, ghost done: nat, v: nat, rest: nat)
      returns (r: PagingResult<PageSize>)
      requires Valid() && rest > 0 && v == vaddr + done
      requires RegionGone(s0, View(), vaddr, done)
      modifies this
      ensures Valid() && at == old(at) && intrmTables == old(intrmTables)
      ensures r.Err? ==> r.error == NotMapped && NothingLeft(s0, vaddr, done) && RegionGone(s0, View(), vaddr, done)
      ensures r.Ok? ==> !NothingLeft(s0, vaddr, done) && r.value == Translate(s0, v).value.size
      ensures r.Ok? ==> UnmappedPast(s0, View(), vaddr, done, r.value)
      ensures r.Ok? && !(IsAligned(v, r.value) && r.value.Bytes() <= rest) ==> SticksOut(s0, vaddr, done + rest, done)
      ensures r.Ok? && IsAligned(v, r.value) ==> RegionGone(s0, View(), vaddr, done + r.value.Bytes())
    {
      ghost var s1 := View();
      StillAsBefore(s0, s1, vaddr, done);
      var m := Unmap(v);
      if m.Err? {
        return Err(m.error);
      }
      r := Ok(m.value.1);
      UnmapFurther(s0, s1, View(), vaddr, done, r.value, v);
    }

    /** map_region followed by unmap_region over the same region restores every translation. */
    method MapThenUnmap(v: nat, p: nat, size: nat, flags: MappingFlags, allowHuge: bool)
      returns (m: PagingResult<()>, u: Outcome)
      requires Valid()
      modifies this, frames
      ensures Valid() && Outside() == old(Outside())
      ensures m.Ok? ==> u == Finished(Ok(())) && SameTranslation(old(View()), View())
    {
      ghost var done;
      m, done := MapRegion(v, p, size, flags, allowHuge);
      ghost var mid := View();
      u, done := UnmapRegion(v, size);
      if m.Ok? {
        UnmapUndoesMap(old(View()), mid, View(), v, p, size, flags);
      }
    }

    /** Drop: every table frame is handed back once, and no other frame is touched. */
    method Drop()
      requires Valid()
      modifies frames
      ensures frames.Valid() && frames.inUse == old(Outside())
    {
      for k := 0 to |intrmTables|
        invariant frames.Valid() && frames.inUse == old(frames.inUse) - FirstFrames(intrmTables, k)
      {
        frames.DeallocFrame(intrmTables[k]);
      }
      assert FirstFrames(intrmTables, |intrmTables|) == at.Keys;
    }
  }

  ghost function FirstFrames(s: seq<nat>, k: nat): set<nat>
    requires k <= |s|
  {
    set i | 0 <= i < k :: s[i]
  }

  /** Two page tables on one frame allocator have frames of their own. */
  ghost predicate Separate(t: PageTable64, t': PageTable64)
    reads t, t'
  {
    t != t' && (t.frames == t'.frames ==> t.at.Keys !! t'.at.Keys)
  }

  /** From the same translation, mapping a region with and without huge pages agrees everywhere. */
  method HugeOrNot(t: PageTable64, t': PageTable64, v: nat, p: nat, size: nat, flags: MappingFlags)
    returns (r: PagingResult<()>, r': PagingResult<()>)
    requires t.Valid() && t'.Valid() && Separate(t, t')
    requires SameTranslation(t.View(), t'.View())
    modifies t, t.frames, t', t'.frames
    ensures t.Valid() && t'.Valid() && Separate(t, t')
    ensures r.Ok? && r'.Ok? ==> forall w: nat :: Agree(Translate(t.View(), w), Translate(t'.View(), w))
  {
    ghost var s, s' := t.View(), t'.View();
    ghost var done;
    r, done := MapBeside(t, t', v, p, size, flags, true);
    ghost var u := t.View();
    r', done := MapBeside(t', t, v, p, size, flags, false);
    if r.Ok? && r'.Ok? {
      forall w: nat ensures Agree(Translate(u, w), Translate(t'.View(), w)) {
        RegionMappingsAgree(s, s', u, t'.View(), v, p, size, flags, w);
      }
    }
  }

  /** Mapping in one table leaves the other one alone, whether they share an allocator or not. */
  method MapBeside(t: PageTable64, other: PageTable64, v: nat, p: nat, size: nat, flags: MappingFlags, allowHuge: bool)
    returns (r: PagingResult<()>, ghost done: nat)
    requires t.Valid() && other.Valid() && Separate(t, other)
    modifies t, t.frames
    ensures t.Valid() && other.Valid() && Separate(t, other)
    ensures other.View() == old(other.View()) && other.at == old(other.at)
    ensures r.Ok? ==> done == size
    ensures RegionMapped(old(t.View()), t.View(), v, p, done, flags)
  {
    ghost var outside := t.Outside();
    assert t.frames == other.frames ==> other.at.Keys <= outside;
    r, done := t.MapRegion(v, p, size, flags, allowHuge);
    assert t.Outside() == outside;
  }

  /** On a fresh table with one huge page, unmapping its first 4K stops the program. */
  method UnmapPartOfHuge(levels: nat, frames: FrameAllocator, flags: MappingFlags) returns (stopped: bool)
    requires LevelsOk(levels) && frames.Valid()
    modifies frames
    ensures stopped || frames.refusals > old(frames.refusals)
  {
    var made := PageTable64.TryNew(levels, frames);
    if made.Err? {
      return false;
    }
    var m := made.value.Map(0, 0, Size2M, flags);
    if m.Err? {
      return false;
    }
    ghost var s := made.value.View();
    assert UnmapStops(s, 0, 0x1000, 0, Panicked) by {
      assert SamePage(levels, 0, 0, Size2M);
      PartOfHugePage(s, 0, 0x1000);
    }
    ghost var done;
    var u;
    u, done := made.value.UnmapRegion(0, 0x1000);
    UnmapStopsOnce(s, 0, 0x1000, done, u, 0, Panicked);
    stopped := u.Panicked?;
  }

  /** Mapping one 4K page and unmapping it again leaves empty tables. Nothing is mapped then, but
      `update` reports success and a 2M page is refused as already mapped. */
  method LeftoverTables(levels: nat, frames: FrameAllocator, flags: MappingFlags)
    returns (query: PagingResult<Mapping>, update: PagingResult<PageSize>, huge: PagingResult<()>)
    requires LevelsOk(levels) && frames.Valid()
    modifies frames
    ensures || frames.refusals > old(frames.refusals)
            || (query == Err(NotMapped) && update.Ok? && huge == Err(AlreadyMapped))
  {
    query, update, huge := Err(NoMemory), Err(NoMemory), Err(NoMemory);
    var made := PageTable64.TryNew(levels, frames);
    if made.Err? {
      return;
    }
    var t := made.value;
    var mapped := t.Map(0, 0, Size4K, flags);
    if mapped.Err? {
      return;
    }
    assert SamePage(levels, 0, 0, Size4K);
    assert SlotTaken(t.View(), 0, Size2M) by { MappedTakesSlots(t.View(), 0, Size2M); }
    var _ := t.Unmap(0);
    assert Translate(t.View(), 0) == Err(NotMapped) && SlotTaken(t.View(), 0, Size2M);
    query := t.Query(0);
    TakenNotMissing(t.View(), 0);
    update := t.Update(0, None, Some(flags));
    huge := t.Map(0, 0, Size2M, flags);
  }

  datatype Op =
    | OpMap(v: nat, target: nat, size: PageSize, flags: MappingFlags)
    | OpUnmap(v: nat)
    | OpUpdate(v: nat, paddr: Option<nat>, newFlags: Option<MappingFlags>)
    | OpMapRegion(v: nat, p: nat, len: nat, flags: MappingFlags, allowHuge: bool)
    | OpUnmapRegion(v: nat, len: nat)

  /** Over the whole life of a page table, whatever operations run on it and however they end,
      dropping it gives back exactly the frames that it took. */
  method Lifetime(levels: nat, frames: FrameAllocator, ops: seq<Op>)
    requires LevelsOk(levels) && frames.Valid()
    modifies frames
    ensures frames.Valid() && frames.inUse == old(frames.inUse)
  {
    var made := PageTable64.TryNew(levels, frames);
    if made.Err? {
      return;
    }
    var t := made.value;
    for k := 0 to |ops|
      invariant t.Valid() && t.Outside() == old(frames.inUse)
    {
      RunOp(t, ops[k]);
    }
    t.Drop();
  }

  method RunOp(t: PageTable64, op: Op)
    requires t.Valid()
    modifies t, t.frames
    ensures t.Valid() && t.Outside() == old(t.Outside())
  {
    match op {
      case OpMap(v, target, size, flags) => var _ := t.Map(v, target, size, flags);
      case OpUnmap(v) => var _ := t.Unmap(v);
      case OpUpdate(v, paddr, flags) => var _ := t.Update(v, paddr, flags);
      case OpMapRegion(v, p, len, flags, allowHuge) =>
        var _, _ := t.MapRegion(v, p, len, flags, allowHuge);
      case OpUnmapRegion(v, len) => var _, _ := t.UnmapRegion(v, len);
    }
  }
}
