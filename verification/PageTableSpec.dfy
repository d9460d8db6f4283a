/**
  The value side of `PageTable64`: page sizes, entries, the radix walk over
  physical memory, and what one slot write does to the translation of every
  virtual address.
 */
module PageTableSpec {
  import opened Common

  datatype PagingError = NoMemory | NotAligned | NotMapped | AlreadyMapped | MappedToHugePage

  type PagingResult<+T> = Result<T, PagingError>

  datatype PageSize = Size4K | Size2M | Size1G {
    function Bytes(): (r: nat)
      ensures r > 0
    {
      match this
      case Size4K => 0x1000
      case Size2M => 0x20_0000
      case Size1G => 0x4000_0000
    }

    predicate IsHuge() {
      Size1G? || Size2M?
    }

    /** The level of the table that holds leaves of this size. */
    function Level(): nat {
      match this
      case Size4K => 1
      case Size2M => 2
      case Size1G => 3
    }
  }

  datatype MappingFlags = MappingFlags(
    read: bool, write: bool, execute: bool, user: bool, device: bool, uncached: bool)

  /** A page table entry, as the free model of the laws of `GenericPTE`: `new_table` and
      `new_page` build distinct present entries whose fields are read back unchanged, and a
      zeroed entry is neither present nor huge. */
  datatype PTE = Unused | Table(frame: nat) | Page(target: nat, attrs: MappingFlags, huge: bool) {
    predicate IsUnused() { Unused? }
    predicate IsPresent() { !Unused? }
    predicate IsHuge() { Page? && huge }

    function Paddr(): nat {
      match this
      case Unused => 0
      case Table(f) => f
      case Page(p, _, _) => p
    }
  }

  datatype Mapping = Mapping(paddr: nat, flags: MappingFlags, size: PageSize)

  /** Physical memory, restricted to the frames that hold tables. */
  type Memory = map<nat, seq<PTE>>

  const ENTRY_COUNT: nat := 512

  function EmptyTable(): (t: seq<PTE>)
    ensures |t| == ENTRY_COUNT && forall i | 0 <= i < |t| :: t[i] == Unused
  {
    seq(ENTRY_COUNT, (_: nat) => Unused)
  }

  // ---------------------------------------------------------------------
  // The walk, on the sequence of table indices of an address

  /** An index sequence of an address, from the root table down. */
  ghost predicate Path(levels: nat, ix: seq<nat>) {
    |ix| == levels && forall k | 0 <= k < |ix| :: ix[k] < ENTRY_COUNT
  }

  function EntryAt(mem: Memory, f: nat, i: nat): PTE {
    if f in mem && i < |mem[f]| then mem[f][i] else Unused
  }

  /** The last entry met, and its depth, when `ix[d..]` is followed from the table in frame `f`. */
  function Follow(mem: Memory, f: nat, ix: seq<nat>, d: nat): (r: (PTE, nat))
    requires d < |ix|
    ensures d <= r.1 < |ix|
    decreases |ix| - d
  {
    var e := EntryAt(mem, f, ix[d]);
    if e.Table? && d + 1 < |ix| then Follow(mem, e.frame, ix, d + 1) else (e, d)
  }

  /** A walk ends in a table entry only at the last level. */
  lemma {:induction false} FollowEnds(mem: Memory, f: nat, ix: seq<nat>, d: nat)
    requires d < |ix|
    ensures var r := Follow(mem, f, ix, d); r.0.Table? ==> r.1 + 1 == |ix|
    decreases |ix| - d
  {
    var e := EntryAt(mem, f, ix[d]);
    if e.Table? && d + 1 < |ix| {
      FollowEnds(mem, e.frame, ix, d + 1);
    }
  }

  // ---------------------------------------------------------------------
  // The shape invariant: every table has one place in the tree

  datatype Place = Place(prefix: seq<nat>, parent: nat)

  type Places = map<nat, Place>

  ghost predicate SlotOk(levels: nat, root: nat, mem: Memory, at: Places, f: nat, i: nat)
    requires f in at
  {
    match EntryAt(mem, f, i)
    case Unused => true
    case Table(c) => |at[f].prefix| + 1 < levels && c != root && c in at && at[c] == Place(at[f].prefix + [i], f)
    case Page(_, _, huge) => LeafOk(levels, |at[f].prefix|, huge)
  }

  /** Leaves sit in the lowest three levels, and are huge exactly above the lowest one. */
  ghost predicate LeafOk(levels: nat, depth: nat, huge: bool) {
    levels <= depth + 3 && huge == (depth + 1 < levels)
  }

  ghost predicate HasParent(mem: Memory, at: Places, f: nat)
    requires f in at
  {
    var Place(prefix, p) := at[f];
    |prefix| > 0 && p in at && at[p].prefix + [prefix[|prefix| - 1]] == prefix
    && EntryAt(mem, p, prefix[|prefix| - 1]) == Table(f)
  }

  ghost predicate Inv(levels: nat, root: nat, mem: Memory, at: Places) {
    && levels > 0
    && mem.Keys == at.Keys
    && root in at && at[root].prefix == []
    && (forall f | f in at :: |mem[f]| == ENTRY_COUNT && |at[f].prefix| < levels)
    && (forall f {:trigger HasParent(mem, at, f)} | f in at && f != root :: HasParent(mem, at, f))
    && (forall f, i: nat {:trigger SlotOk(levels, root, mem, at, f, i)} | f in at :: SlotOk(levels, root, mem, at, f, i))
  }

  /** The table in frame `f` is the one that a walk along `ix` meets at its depth. */
  ghost predicate OnPath(at: Places, f: nat, ix: seq<nat>) {
    f in at && at[f].prefix <= ix
  }

  /** Following a table entry stays on the path. */
  lemma ChildOnPath(levels: nat, root: nat, mem: Memory, at: Places, f: nat, ix: seq<nat>)
    requires Inv(levels, root, mem, at) && Path(levels, ix) && OnPath(at, f, ix)
    requires EntryAt(mem, f, ix[|at[f].prefix|]).Table?
    ensures var c := EntryAt(mem, f, ix[|at[f].prefix|]).frame;
            OnPath(at, c, ix) && |at[c].prefix| == |at[f].prefix| + 1 && |at[c].prefix| < levels
  {
    var i := ix[|at[f].prefix|];
    assert SlotOk(levels, root, mem, at, f, i);
  }

  /** Whatever table is placed on a path, the walk from the root goes through it. */
  lemma {:induction false} FollowThrough(levels: nat, root: nat, mem: Memory, at: Places, f: nat, ix: seq<nat>)
    requires Inv(levels, root, mem, at) && Path(levels, ix) && OnPath(at, f, ix)
    ensures Follow(mem, root, ix, 0) == Follow(mem, f, ix, |at[f].prefix|)
    decreases |at[f].prefix|
  {
    if f != root {
      assert HasParent(mem, at, f);
      FollowThrough(levels, root, mem, at, at[f].parent, ix);
    }
  }

  // ---------------------------------------------------------------------
  // Writing a leaf or clearing it

  function SetSlot(mem: Memory, f: nat, i: nat, e: PTE): Memory
    requires f in mem && i < |mem[f]|
  {
    mem[f := mem[f][i := e]]
  }

  ghost predicate LeafWrite(levels: nat, mem: Memory, at: Places, f: nat, i: nat, e: PTE) {
    && f in at && f in mem && i < |mem[f]|
    && !mem[f][i].Table? && !e.Table?
    && (e.Page? ==> LeafOk(levels, |at[f].prefix|, e.huge))
  }

  lemma LeafWriteInv(levels: nat, root: nat, mem: Memory, at: Places, f: nat, i: nat, e: PTE)
    requires Inv(levels, root, mem, at) && LeafWrite(levels, mem, at, f, i, e)
    ensures Inv(levels, root, SetSlot(mem, f, i, e), at)
  {
    var mem' := SetSlot(mem, f, i, e);
    forall g | g in at && g != root ensures HasParent(mem', at, g) {
      assert HasParent(mem, at, g);
    }
    forall g, j: nat | g in at ensures SlotOk(levels, root, mem', at, g, j) {
      assert SlotOk(levels, root, mem, at, g, j);
    }
  }

  /** Walks that avoid the written slot do not see the write. */
  lemma {:induction false} LeafWriteElsewhere(
    levels: nat, root: nat, mem: Memory, at: Places, f: nat, i: nat, e: PTE, g: nat, ix: seq<nat>)
    requires Inv(levels, root, mem, at) && LeafWrite(levels, mem, at, f, i, e)
    requires Path(levels, ix) && OnPath(at, g, ix)
    requires !(at[f].prefix + [i] <= ix)
    ensures Follow(SetSlot(mem, f, i, e), g, ix, |at[g].prefix|) == Follow(mem, g, ix, |at[g].prefix|)
    decreases levels - |at[g].prefix|
  {
    var j := ix[|at[g].prefix|];
    assert EntryAt(SetSlot(mem, f, i, e), g, j) == EntryAt(mem, g, j) by {
      assert g == f ==> i != j;
    }
    if EntryAt(mem, g, j).Table? {
      ChildOnPath(levels, root, mem, at, g, ix);
      LeafWriteElsewhere(levels, root, mem, at, f, i, e, EntryAt(mem, g, j).frame, ix);
    }
  }

  /** A slot write is seen by exactly the walks that pass the slot. */
  lemma LeafWriteFollow(levels: nat, root: nat, mem: Memory, at: Places, f: nat, i: nat, e: PTE, ix: seq<nat>)
    requires Inv(levels, root, mem, at) && LeafWrite(levels, mem, at, f, i, e) && Path(levels, ix)
    ensures Follow(SetSlot(mem, f, i, e), root, ix, 0) ==
            if at[f].prefix + [i] <= ix then (e, |at[f].prefix|) else Follow(mem, root, ix, 0)
  {
    if at[f].prefix + [i] <= ix {
      LeafWriteInv(levels, root, mem, at, f, i, e);
      FollowThrough(levels, root, SetSlot(mem, f, i, e), at, f, ix);
    } else {
      LeafWriteElsewhere(levels, root, mem, at, f, i, e, root, ix);
    }
  }

  // ---------------------------------------------------------------------
  // Installing a fresh table

  ghost predicate Installable(levels: nat, mem: Memory, at: Places, f: nat, i: nat, c: nat) {
    && f in at && f in mem && i < |mem[f]|
    && |at[f].prefix| + 1 < levels && mem[f][i].Unused? && c !in mem
  }

  function Install(mem: Memory, f: nat, i: nat, c: nat): Memory
    requires f in mem && i < |mem[f]| && c != f
  {
    SetSlot(mem[c := EmptyTable()], f, i, Table(c))
  }

  ghost function PlaceChild(at: Places, f: nat, i: nat, c: nat): Places
    requires f in at
  {
    at[c := Place(at[f].prefix + [i], f)]
  }

  lemma InstallParents(levels: nat, root: nat, mem: Memory, at: Places, f: nat, i: nat, c: nat)
    requires Inv(levels, root, mem, at) && Installable(levels, mem, at, f, i, c)
    ensures var mem', at' := Install(mem, f, i, c), PlaceChild(at, f, i, c);
            forall g | g in at' && g != root :: HasParent(mem', at', g)
  {
    var mem', at' := Install(mem, f, i, c), PlaceChild(at, f, i, c);
    forall g | g in at' && g != root ensures HasParent(mem', at', g) {
      if g == c {
        assert EntryAt(mem', f, i) == Table(c);
      } else {
        assert HasParent(mem, at, g);
      }
    }
  }

  lemma InstallSlots(levels: nat, root: nat, mem: Memory, at: Places, f: nat, i: nat, c: nat)
    requires Inv(levels, root, mem, at) && Installable(levels, mem, at, f, i, c)
    ensures var mem', at' := Install(mem, f, i, c), PlaceChild(at, f, i, c);
            forall g, j: nat | g in at' :: SlotOk(levels, root, mem', at', g, j)
  {
    var mem', at' := Install(mem, f, i, c), PlaceChild(at, f, i, c);
    forall g, j: nat | g in at' ensures SlotOk(levels, root, mem', at', g, j) {
      if g == c {
        assert EntryAt(mem', c, j) == Unused;
      } else {
        assert SlotOk(levels, root, mem, at, g, j);
      }
    }
  }

  lemma InstallInv(levels: nat, root: nat, mem: Memory, at: Places, f: nat, i: nat, c: nat)
    requires Inv(levels, root, mem, at) && Installable(levels, mem, at, f, i, c)
    ensures Inv(levels, root, Install(mem, f, i, c), PlaceChild(at, f, i, c))
  {
    InstallParents(levels, root, mem, at, f, i, c);
    InstallSlots(levels, root, mem, at, f, i, c);
    assert Install(mem, f, i, c).Keys == PlaceChild(at, f, i, c).Keys;
  }

  /** Walks that avoid the slot do not see the new table. */
  lemma {:induction false} InstallElsewhere(
    levels: nat, root: nat, mem: Memory, at: Places, f: nat, i: nat, c: nat, g: nat, ix: seq<nat>)
    requires Inv(levels, root, mem, at) && Installable(levels, mem, at, f, i, c)
    requires Path(levels, ix) && OnPath(at, g, ix) && !(at[f].prefix + [i] <= ix)
    ensures Follow(Install(mem, f, i, c), g, ix, |at[g].prefix|) == Follow(mem, g, ix, |at[g].prefix|)
    decreases levels - |at[g].prefix|
  {
    var j := ix[|at[g].prefix|];
    assert EntryAt(Install(mem, f, i, c), g, j) == EntryAt(mem, g, j) by {
      assert g == f ==> i != j;
    }
    if EntryAt(mem, g, j).Table? {
      ChildOnPath(levels, root, mem, at, g, ix);
      InstallElsewhere(levels, root, mem, at, f, i, c, EntryAt(mem, g, j).frame, ix);
    }
  }

  /** A walk through an unused slot goes one level further once an empty table hangs there, and
      finds nothing in it; no other walk sees the table. */
  lemma InstallFollow(levels: nat, root: nat, mem: Memory, at: Places, f: nat, i: nat, c: nat, ix: seq<nat>)
    requires Inv(levels, root, mem, at) && Installable(levels, mem, at, f, i, c) && Path(levels, ix)
    ensures var (r, r') := (Follow(mem, root, ix, 0), Follow(Install(mem, f, i, c), root, ix, 0));
            if at[f].prefix + [i] <= ix then r == (Unused, |at[f].prefix|) && r' == (Unused, |at[f].prefix| + 1)
            else r' == r
  {
    if at[f].prefix + [i] <= ix {
      FollowThrough(levels, root, mem, at, f, ix);
      InstallInv(levels, root, mem, at, f, i, c);
      FollowThrough(levels, root, Install(mem, f, i, c), PlaceChild(at, f, i, c), c, ix);
      assert EntryAt(Install(mem, f, i, c), c, ix[|at[f].prefix| + 1]) == Unused;
    } else {
      InstallElsewhere(levels, root, mem, at, f, i, c, root, ix);
    }
  }

  // ---------------------------------------------------------------------
  // The tables form a tree

  /** Every entry that points at table `c` is the one slot its place names; the root has none. */
  lemma OnePointer(levels: nat, root: nat, mem: Memory, at: Places, f: nat, i: nat, c: nat)
    requires Inv(levels, root, mem, at) && f in mem && EntryAt(mem, f, i) == Table(c)
    ensures c != root && c in at && f == at[c].parent && at[c].prefix == at[f].prefix + [i]
  {
    assert SlotOk(levels, root, mem, at, f, i);
  }

  /** The table reached by following all of `ix` through table entries, if there is one. */
  function TableAt(mem: Memory, f: nat, ix: seq<nat>): PagingResult<nat> {
    if ix == [] then Ok(f)
    else
      var up := TableAt(mem, f, ix[..|ix| - 1]);
      if up.Err? then up
      else match EntryAt(mem, up.value, ix[|ix| - 1])
        case Table(c) => Ok(c)
        case _ => Err(NotMapped)
  }

  /** Every table is reached from the root along its own place, and at no other place. */
  lemma {:induction false} EveryTableReached(levels: nat, root: nat, mem: Memory, at: Places, f: nat)
    requires Inv(levels, root, mem, at) && f in at
    ensures TableAt(mem, root, at[f].prefix) == Ok(f)
    decreases |at[f].prefix|
  {
    if f != root {
      assert HasParent(mem, at, f);
      var Place(prefix, p) := at[f];
      EveryTableReached(levels, root, mem, at, p);
      assert prefix[..|prefix| - 1] == at[p].prefix;
    }
  }

  lemma {:induction false} ReachedOnlyAtPlace(levels: nat, root: nat, mem: Memory, at: Places, ix: seq<nat>)
    requires Inv(levels, root, mem, at) && TableAt(mem, root, ix).Ok?
    ensures TableAt(mem, root, ix).value in at && at[TableAt(mem, root, ix).value].prefix == ix
  {
    if ix != [] {
      ReachedOnlyAtPlace(levels, root, mem, at, ix[..|ix| - 1]);
      var p := TableAt(mem, root, ix[..|ix| - 1]).value;
      OnePointer(levels, root, mem, at, p, ix[|ix| - 1], TableAt(mem, root, ix).value);
      assert ix == ix[..|ix| - 1] + [ix[|ix| - 1]];
    }
  }

  ghost predicate PointsTo(mem: Memory, p: nat, i: nat, c: nat) {
    p in mem && EntryAt(mem, p, i) == Table(c)
  }

  /** Every placed table is on the list of frames to free, once. */
  ghost predicate Listed(tables: seq<nat>, at: Places) {
    && Distinct(tables)
    && (forall f | f in tables :: f in at)
    && (forall f | f in at :: f in tables)
  }

  lemma ListedAppend(tables: seq<nat>, at: Places, c: nat, place: Place)
    requires Listed(tables, at) && c !in at
    ensures Listed(tables + [c], at[c := place])
  {
  }

  /** A frame is on the list exactly when some path from the root leads to it. */
  lemma ListedExactlyReached(levels: nat, root: nat, mem: Memory, at: Places, tables: seq<nat>, c: nat)
    requires Inv(levels, root, mem, at) && Listed(tables, at)
    ensures c in tables <==> exists ix: seq<nat> :: TableAt(mem, root, ix) == Ok(c)
  {
    if c in tables {
      EveryTableReached(levels, root, mem, at, c);
    }
    if ix: seq<nat> :| TableAt(mem, root, ix) == Ok(c) {
      ReachedOnlyAtPlace(levels, root, mem, at, ix);
    }
  }

  lemma SamePointer(levels: nat, root: nat, mem: Memory, at: Places, c: nat, p: nat, q: nat, i: nat, j: nat)
    requires Inv(levels, root, mem, at) && PointsTo(mem, p, i, c) && PointsTo(mem, q, j, c)
    ensures c != root && p == q && i == j
  {
    OnePointer(levels, root, mem, at, p, i, c);
    OnePointer(levels, root, mem, at, q, j, c);
    assert (at[p].prefix + [i])[|at[p].prefix|] == i;
    assert (at[q].prefix + [j])[|at[q].prefix|] == j;
  }

  /** The tables form a tree: every table but the root is pointed to by exactly one entry. */
  lemma TablesFormTree(levels: nat, root: nat, mem: Memory, at: Places)
    requires Inv(levels, root, mem, at)
    ensures forall c | c in mem && c != root :: exists p, i: nat :: PointsTo(mem, p, i, c)
    ensures forall c, p, q, i: nat, j: nat :: PointsTo(mem, p, i, c) && PointsTo(mem, q, j, c) ==> p == q && i == j
    ensures forall p, i: nat :: !PointsTo(mem, p, i, root)
  {
    forall c | c in mem && c != root ensures exists p, i: nat :: PointsTo(mem, p, i, c) {
      assert HasParent(mem, at, c);
      var Place(prefix, p) := at[c];
      assert PointsTo(mem, p, prefix[|prefix| - 1], c);
    }
    forall c, p, q, i: nat, j: nat | PointsTo(mem, p, i, c) && PointsTo(mem, q, j, c) ensures p == q && i == j {
      SamePointer(levels, root, mem, at, c, p, q, i, j);
    }
    forall p, i: nat ensures !PointsTo(mem, p, i, root) {
      if PointsTo(mem, p, i, root) {
        SamePointer(levels, root, mem, at, root, p, p, i, i);
      }
    }
  }
}
