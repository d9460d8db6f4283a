/** The allocator itself: free lists, slabs and the heap as objects over one memory. */
module SlabAllocator {
  import opened Common
  import opened SlabSpec
  import opened HeapSpec

  /** The link words in memory. */
  class Memory {
    var links: Links

    constructor ()
      ensures links == map[]
    {
      links := map[];
    }
  }

  class FreeBlockList {
    var len: nat
    var head: Option<nat>
    ghost var blocks: seq<nat>

    constructor ()
      ensures len == 0 && head == None && blocks == []
    {
      len, head, blocks := 0, None, [];
    }

    ghost predicate Valid(mem: Memory)
      reads this, mem
    {
      Chain(mem.links, head, blocks) && len == |blocks|
    }

    method Pop(mem: Memory) returns (r: Option<nat>)
      requires Valid(mem)
      modifies this, mem
      ensures Valid(mem)
      ensures r == old(head) == HeadOf(old(blocks))
      ensures r.None? ==> blocks == old(blocks) && mem.links == old(mem.links)
      ensures r.Some? ==> blocks == old(blocks)[1..] && mem.links == old(mem.links)[r.value := None]
    {
      if head.None? {
        return None;
      }
      ChainPop(mem.links, head, blocks);
      var node := head.value;
      head := mem.links[node];
      mem.links := mem.links[node := None];
      len := len - 1;
      blocks := blocks[1..];
      return Some(node);
    }

    method Push(mem: Memory, block: nat)
      requires Valid(mem) && block !in blocks
      modifies this, mem
      ensures Valid(mem) && blocks == [block] + old(blocks)
      ensures mem.links == old(mem.links)[block := old(head)]
    {
      ChainPush(mem.links, head, blocks, block);
      mem.links := mem.links[block := head];
      len := len + 1;
      head := Some(block);
      blocks := [block] + blocks;
    }
  }

  /** Nothing outside `written` changed. */
  ghost predicate SameOutside(before: Links, after: Links, written: seq<nat>) {
    forall b | b in before && b !in written :: b in after && after[b] == before[b]
  }

  /** One iteration of FreeBlockList::new: block `i` of `all` goes in front of those above it. */
  method PushNext(mem: Memory, list: FreeBlockList, block: nat, ghost all: seq<nat>, ghost i: nat, ghost before: Links)
    requires i < |all| && block == all[i] && Distinct(all)
    requires list.Valid(mem) && list.blocks == all[i + 1..] && SameOutside(before, mem.links, all)
    modifies mem, list
    ensures list.Valid(mem) && list.blocks == all[i..] && SameOutside(before, mem.links, all)
  {
    assert all[i] !in all[i + 1..];
    list.Push(mem, block);
    assert [all[i]] + all[i + 1..] == all[i..];
  }

  /** FreeBlockList::new: the blocks of a chunk, lowest address first. */
  method NewList(mem: Memory, start: nat, size: nat, n: nat) returns (list: FreeBlockList)
    requires size > 0
    modifies mem
    ensures fresh(list) && list.Valid(mem) && list.blocks == BlocksFrom(start, size, n)
    ensures SameOutside(old(mem.links), mem.links, list.blocks)
  {
    list := new FreeBlockList();
    ghost var all := BlocksFrom(start, size, n);
    assert Distinct(all) by { BlocksFromAre(start, size, n); }
    assert all[n..] == [];
    var i := n;
    while i > 0
      invariant 0 <= i <= n && |all| == n && fresh(list)
      invariant list.Valid(mem) && list.blocks == all[i..]
      invariant SameOutside(old(mem.links), mem.links, all)
    {
      i := i - 1;
      assert start + i * size == all[i] by { BlockAt(start, size, n, i); }
      PushNext(mem, list, start + i * size, all, i, old(mem.links));
    }
    assert all[0..] == all;
  }

  function Reverse(s: seq<nat>): (r: seq<nat>)
    ensures |r| == |s|
  {
    if s == [] then [] else [s[|s| - 1]] + Reverse(s[..|s| - 1])
  }

  lemma {:induction false} ReverseElements(s: seq<nat>)
    ensures forall x :: x in Reverse(s) <==> x in s
  {
    if s != [] {
      ReverseElements(s[..|s| - 1]);
      assert s == s[..|s| - 1] + [s[|s| - 1]];
    }
  }

  /** Where the last of `n` blocks starts. */
  function LastStart(start: nat, size: nat, n: nat): nat
    requires n > 0
  {
    start + (n - 1) * size
  }

  lemma LastBlock(start: nat, size: nat, n: nat)
    requires n > 0
    ensures HeadOf(Reverse(BlocksFrom(start, size, n))) == Some(LastStart(start, size, n))
  {
    BlockAt(start, size, n, n - 1);
  }

  /** One iteration of the loop of grow. */
  method MoveOne(mem: Memory, from: FreeBlockList, to: FreeBlockList) returns (moved: bool)
    requires from != to && from.Valid(mem) && to.Valid(mem)
    requires from.blocks != [] ==> from.blocks[0] !in to.blocks
    modifies mem, from, to
    ensures from.Valid(mem) && to.Valid(mem)
    ensures moved <==> old(from.blocks) != []
    ensures !moved ==> mem.links == old(mem.links) && to.blocks == old(to.blocks) && from.blocks == []
    ensures moved ==>
              var b := old(from.blocks)[0];
              && from.blocks == old(from.blocks)[1..] && to.blocks == [b] + old(to.blocks)
              && mem.links == old(mem.links)[b := old(to.head)]
  {
    ghost var b := if from.blocks == [] then 0 else from.blocks[0];
    ghost var links := mem.links;
    var block := from.Pop(mem);
    if block.None? {
      return false;
    }
    ghost var popped := mem.links;
    assert to.Valid(mem) by { ChainFrame(links, popped, to.head, to.blocks); }
    to.Push(mem, block.value);
    assert from.Valid(mem) by {
      ChainPop(links, Some(b), [b] + from.blocks);
      ChainFrame(popped, mem.links, from.head, from.blocks);
    }
    return true;
  }

  lemma NotMovedYet(all: seq<nat>, k: nat, base: seq<nat>)
    requires Distinct(all) && k < |all| && all[k] !in base
    ensures all[k] !in Reverse(all[..k]) + base
  {
    ReverseElements(all[..k]);
  }

  /** One iteration of the loop of grow, seen from the lists before the loop. */
  method MoveNext(mem: Memory, from: FreeBlockList, to: FreeBlockList, ghost all: seq<nat>, ghost k: nat,
                  ghost base: seq<nat>, ghost before: Links)
    returns (moved: bool)
    requires from != to && from.Valid(mem) && to.Valid(mem) && Distinct(all) && k <= |all|
    requires from.blocks == all[k..] && to.blocks == Reverse(all[..k]) + base
    requires SameOutside(before, mem.links, all) && forall b | b in all :: b !in base
    modifies mem, from, to
    ensures from.Valid(mem) && to.Valid(mem) && (moved <==> k < |all|)
    ensures var k' := if moved then k + 1 else k;
            k' <= |all| && from.blocks == all[k'..] && to.blocks == Reverse(all[..k']) + base
    ensures SameOutside(before, mem.links, all)
  {
    if k < |all| {
      assert all[k] in all;
      NotMovedYet(all, k, base);
      assert all[..k + 1][..k] == all[..k];
      assert Reverse(all[..k + 1]) + base == [all[k]] + (Reverse(all[..k]) + base);
    }
    moved := MoveOne(mem, from, to);
  }

  /** The loop of grow: every block moves to the front of the other list, so their order is reversed. */
  method MoveAll(mem: Memory, from: FreeBlockList, to: FreeBlockList)
    requires from != to && from.Valid(mem) && to.Valid(mem) && forall b | b in from.blocks :: b !in to.blocks
    modifies mem, from, to
    ensures from.Valid(mem) && to.Valid(mem) && from.blocks == []
    ensures to.blocks == Reverse(old(from.blocks)) + old(to.blocks)
    ensures SameOutside(old(mem.links), mem.links, old(from.blocks))
  {
    ghost var all, base := from.blocks, to.blocks;
    ghost var k := 0;
    assert all[0..] == all && Reverse(all[..0]) + base == base;
    var moved := true;
    while moved
      invariant 0 <= k <= |all| && Distinct(all)
      invariant from.Valid(mem) && from.blocks == all[k..] && (!moved ==> k == |all|)
      invariant to.Valid(mem) && to.blocks == Reverse(all[..k]) + base
      invariant SameOutside(old(mem.links), mem.links, all)
      decreases |all| - k, moved
    {
      moved := MoveNext(mem, from, to, all, k, base, old(mem.links));
      k := if moved then k + 1 else k;
    }
    assert all[..k] == all;
  }

  /** Block `b` is one of the `n` blocks from `start` on. */
  predicate InRun(start: nat, size: nat, n: nat, b: nat)
    requires size > 0
  {
    start <= b && b + size <= start + n * size && (b - start) % size == 0
  }

  lemma ChunkBlocks(start: nat, size: nat, n: nat)
    requires size > 0
    ensures forall b | b in BlocksFrom(start, size, n) :: InRun(start, size, n, b)
    ensures forall b | b in Reverse(BlocksFrom(start, size, n)) :: InRun(start, size, n, b)
  {
    BlocksFromAre(start, size, n);
    ReverseElements(BlocksFrom(start, size, n));
  }

  /** The list work of grow: make the list of a chunk, and move it over. */
  method FillList(mem: Memory, list: FreeBlockList, start: nat, size: nat, n: nat)
    requires size > 0 && list.Valid(mem) && forall b | b in list.blocks :: !InRun(start, size, n, b)
    modifies list, mem
    ensures list.Valid(mem) && list.blocks == Reverse(BlocksFrom(start, size, n)) + old(list.blocks)
    ensures SameOutside(old(mem.links), mem.links, BlocksFrom(start, size, n))
  {
    ghost var base, before := list.blocks, mem.links;
    var blockList := NewList(mem, start, size, n);
    ghost var all := blockList.blocks;
    ChunkBlocks(start, size, n);
    assert list.Valid(mem) by { ChainFrame(before, mem.links, list.head, base); }
    MoveAll(mem, blockList, list);
  }

  class SlabCache {
    const size: nat
    const list: FreeBlockList
    var totalBlocks: nat
    ghost var chunks: set<nat>
    ghost var live: set<nat>

    /** Slab::new(0, 0): no blocks yet. */
    constructor (size: nat)
      ensures this.size == size && fresh(list) && View() == Slab(size, None, 0, 0, [], {}, {})
    {
      this.size := size;
      list := new FreeBlockList();
      totalBlocks := 0;
      chunks, live := {}, {};
    }

    ghost function View(): Slab
      reads this, list
    {
      Slab(size, list.head, list.len, totalBlocks, list.blocks, chunks, live)
    }

    /** grow with the `n` blocks of one granted chunk. */
    method Grow(mem: Memory, start: nat, n: nat)
      requires size > 0 && list.Valid(mem) && forall b | b in list.blocks :: !InRun(start, size, n, b)
      modifies this, list, mem
      ensures list.Valid(mem) && View() == Grown(old(View()), start, Reverse(BlocksFrom(start, size, n)))
      ensures SameOutside(old(mem.links), mem.links, BlocksFrom(start, size, n))
    {
      totalBlocks := totalBlocks + n;
      FillList(mem, list, start, size, n);
      chunks := chunks + {start};
    }

    /** grow on an empty list, as a refill does it. */
    method GrowEmpty(mem: Memory, start: nat, n: nat)
      requires size > 0 && list.Valid(mem) && list.blocks == []
      modifies this, list, mem
      ensures list.Valid(mem) && |list.blocks| == n && forall b | b in list.blocks :: InRun(start, size, n, b)
      ensures View() == Refilled(old(View()), start, list.blocks)
      ensures n > 0 ==> HeadOf(list.blocks) == Some(LastStart(start, size, n))
      ensures SameOutside(old(mem.links), mem.links, list.blocks)
    {
      ghost var blocks := BlocksFrom(start, size, n);
      ChunkBlocks(start, size, n);
      ReverseElements(blocks);
      assert Reverse(blocks) + [] == Reverse(blocks);
      if n > 0 { LastBlock(start, size, n); }
      Grow(mem, start, n);
    }

    /** The fast path: the first block of the list. */
    method TakeFirst(mem: Memory) returns (r: Option<nat>)
      requires list.Valid(mem)
      modifies this, list, mem
      ensures list.Valid(mem) && r == HeadOf(old(list.blocks))
      ensures r.None? ==> View() == old(View()) && mem.links == old(mem.links)
      ensures r.Some? ==> View() == Popped(old(View())) && mem.links == old(mem.links)[r.value := None]
    {
      r := list.Pop(mem);
      if r.Some? {
        live := live + {r.value};
      }
    }

    method Deallocate(mem: Memory, ptr: nat)
      requires list.Valid(mem) && ptr !in list.blocks
      modifies this, list, mem
      ensures list.Valid(mem) && View() == Pushed(old(View()), ptr)
      ensures mem.links == old(mem.links)[ptr := old(list.head)]
    {
      list.Push(mem, ptr);
      live := live - {ptr};
    }
  }

  /** layout_to_allocator: a size class, or none for the buddy heap. */
  function ClassOf(size: nat, align: nat): (c: Option<nat>)
    ensures c.None? <==> size > 4096
    ensures c.Some? ==> c.value < CLASSES && size <= ClassSize(c.value)
    ensures c.Some? ==> if align <= 4096 then align <= ClassSize(c.value) else ClassSize(c.value) == 4096
    ensures c.Some? && c.value > 0 ==> size > ClassSize(c.value - 1) || align > ClassSize(c.value - 1)
  {
    if size > 4096 then None
    else if size <= 64 && align <= 64 then Some(0)
    else if size <= 128 && align <= 128 then Some(1)
    else if size <= 256 && align <= 256 then Some(2)
    else if size <= 512 && align <= 512 then Some(3)
    else if size <= 1024 && align <= 1024 then Some(4)
    else if size <= 2048 && align <= 2048 then Some(5)
    else Some(6)
  }

  /** What the buddy heap is asked for, if it is asked: a chunk of a class, or the piece itself. */
  function Demand(size: nat, align: nat): nat {
    var c := ClassOf(size, align);
    if c.Some? then SET_SIZE * ClassSize(c.value) else Charge(size, align)
  }

  function DemandAlign(size: nat, align: nat): nat {
    if ClassOf(size, align).Some? then 4096 else align
  }

  /** The slabs of the size classes are separate objects with separate lists. */
  ghost predicate Separate(slabs: seq<SlabCache>) {
    forall c, d | 0 <= c < |slabs| && 0 <= d < |slabs| && c != d :: slabs[c] != slabs[d] && slabs[c].list != slabs[d].list
  }

  ghost function ListsOf(slabs: seq<SlabCache>): set<FreeBlockList> {
    set s | s in slabs :: s.list
  }

  method NewSlabs(n: nat) returns (slabs: seq<SlabCache>)
    ensures |slabs| == n && Separate(slabs)
    ensures forall c | 0 <= c < n :: fresh(slabs[c]) && fresh(slabs[c].list) && slabs[c].View() == EmptySlab(c)
  {
    slabs := [];
    for c := 0 to n
      invariant |slabs| == c && Separate(slabs)
      invariant forall d | 0 <= d < c :: fresh(slabs[d]) && fresh(slabs[d].list) && slabs[d].View() == EmptySlab(d)
    {
      var s := new SlabCache(ClassSize(c));
      slabs := slabs + [s];
    }
  }

  class SlabHeap {
    const mem: Memory
    const slabs: seq<SlabCache>
    var total: nat
    var actual: nat
    ghost var views: seq<Slab>
    ghost var regions: map<nat, nat>
    ghost var big: map<nat, Layout>

    ghost function View(): Heap
      reads this, mem
    {
      Heap(views, mem.links, regions, big, total, actual)
    }

    ghost predicate Viewed()
      reads this, slabs, ListsOf(slabs)
    {
      && |slabs| == |views| == CLASSES && Separate(slabs)
      && forall c | 0 <= c < CLASSES :: views[c] == slabs[c].View()
    }

    ghost predicate Valid()
      reads this, mem, slabs, ListsOf(slabs)
    {
      Viewed() && HeapOk(View())
    }

    /** Heap::new: empty slabs, and a buddy heap of `heapSize` bytes. */
    constructor (heapSize: nat)
      ensures Valid() && fresh(mem) && fresh(slabs) && fresh(ListsOf(slabs))
      ensures total == heapSize && actual == 0 && regions == map[] && big == map[]
      ensures forall c | 0 <= c < CLASSES :: views[c] == EmptySlab(c)
    {
      mem := new Memory();
      var made := NewSlabs(CLASSES);
      slabs := made;
      total, actual := heapSize, 0;
      regions, big := map[], map[];
      views := seq(CLASSES, (c: nat) => EmptySlab(c));
      new;
      EmptyHeapOk(View());
    }

    method AddMemory(bytes: nat)
      requires Valid()
      modifies this`total
      ensures Valid() && total == old(total) + bytes && View() == old(View()).(total := total)
    {
      MoreMemoryOk(View(), bytes);
      total := total + bytes;
    }

    /** The fast path of a slab allocation. */
    method AllocateFree(c: nat) returns (r: Option<nat>)
      requires Valid() && c < CLASSES
      modifies this`views, mem, slabs[c], slabs[c].list
      ensures Valid() && r == HeadOf(old(views)[c].blocks)
      ensures r.None? ==> View() == old(View())
      ensures r.Some? ==> View() == PopBlock(old(View()), c)
    {
      assert SlabOk(View().links, views[c]);
      r := slabs[c].TakeFirst(mem);
      views := views[c := slabs[c].View()];
      assert Viewed();
      if r.Some? {
        ghost var h := PopBlock(old(View()), c);
        assert HeapOk(h) by { PopBlockOk(old(View()), c); }
        assert View() == h;
      } else {
        assert View() == old(View());
      }
    }

    /** The slab's own part of a refill. */
    method GrowSlab(c: nat, chunk: nat)
      requires Valid() && c < CLASSES && views[c].blocks == []
      requires Grantable(View(), chunk, SET_SIZE * ClassSize(c), 4096)
      modifies this`views, mem, slabs[c], slabs[c].list
      ensures Viewed() && RefillArgs(old(View()), c, chunk, views[c].blocks, mem.links)
      ensures views == old(views)[c := Refilled(old(views)[c], chunk, views[c].blocks)]
      ensures HeadOf(views[c].blocks) == LastOf(Some(chunk), c)
    {
      assert SlabOk(View().links, views[c]);
      slabs[c].GrowEmpty(mem, chunk, SET_SIZE);
      views := views[c := slabs[c].View()];
    }

    /** The buddy heap's answer `chunk` refills class `c`. */
    method Refill(c: nat, chunk: nat)
      requires Valid() && c < CLASSES && views[c].blocks == []
      requires Grantable(View(), chunk, SET_SIZE * ClassSize(c), 4096)
      modifies this, mem, slabs[c], slabs[c].list
      ensures Valid()
      ensures RefillArgs(old(View()), c, chunk, views[c].blocks, mem.links)
      ensures View() == HeapSpec.Refill(old(View()), c, chunk, views[c].blocks, mem.links)
      ensures HeadOf(views[c].blocks) == LastOf(Some(chunk), c)
    {
      GrowSlab(c, chunk);
      assert Viewed();
      actual := actual + SET_SIZE * ClassSize(c);
      regions := regions[chunk := SET_SIZE * ClassSize(c)];
      ghost var h := HeapSpec.Refill(old(View()), c, chunk, views[c].blocks, mem.links);
      assert HeapOk(h) by { RefillHeapOk(old(View()), c, chunk, views[c].blocks, mem.links); }
      assert View() == h;
    }

    /** A refill puts the last block of the chunk first. */
    ghost function LastOf(answer: Option<nat>, c: nat): Option<nat> {
      if answer.None? then None else Some(LastStart(answer.value, ClassSize(c), SET_SIZE))
    }

    /** A slab allocation; `answer` is what the buddy heap says if it is asked for a chunk. */
    method AllocateSlab(c: nat, answer: Option<nat>) returns (r: Option<nat>)
      requires Valid() && c < CLASSES
      requires answer.Some? ==> Grantable(View(), answer.value, SET_SIZE * ClassSize(c), 4096)
      modifies this, mem, slabs[c], slabs[c].list
      ensures Valid()
      ensures r.None? <==> old(views)[c].blocks == [] && answer.None?
      ensures r.None? ==> View() == old(View())
      ensures r.Some? ==> Allocated(old(View()), View(), c, r.value)
      ensures r == if old(views)[c].blocks != [] then HeadOf(old(views)[c].blocks) else LastOf(answer, c)
      ensures regions == if old(views)[c].blocks == [] && answer.Some? then old(regions)[answer.value := SET_SIZE * ClassSize(c)]
                         else old(regions)
    {
      ghost var h := View();
      r := AllocateFree(c);
      if r.Some? {
        PopBlockAllocates(h, c);
        return;
      }
      if answer.None? {
        return;
      }
      Refill(c, answer.value);
      RefillAllocates(h, c, answer.value, views[c].blocks, mem.links);
      r := AllocateFree(c);
    }

    /** allocate: the block is big enough, was not held before, and is aligned, except that a small
        request never gets more than the alignment of the 4096-byte class; a slab allocation costs
        exactly the block size of its class. */
    method Allocate(size: nat, align: nat, answer: Option<nat>) returns (r: Option<nat>)
      requires Valid() && PowerOfTwo(align)
      requires answer.Some? ==> Grantable(View(), answer.value, Demand(size, align), DemandAlign(size, align))
      modifies this, mem, slabs, ListsOf(slabs)
      ensures Valid()
      ensures r.None? ==> View() == old(View()) && answer.None?
      ensures r.Some? ==> r.value % (if size <= 4096 && align > 4096 then 4096 else align) == 0
      ensures r.Some? ==>
                match ClassOf(size, align)
                case Some(c) => size <= ClassSize(c) && Allocated(old(View()), View(), c, r.value)
                case None =>
                  && r == answer && View() == GrantBig(old(View()), r.value, Layout(size, align))
                  && AvailableBytes(View()) == AvailableBytes(old(View())) - Charge(size, align)
      ensures ClassOf(size, align).Some? ==>
                var c := ClassOf(size, align).value;
                r == if old(views)[c].blocks != [] then HeadOf(old(views)[c].blocks) else LastOf(answer, c)
      ensures regions == old(regions) || (answer.Some? && regions == old(regions)[answer.value := Demand(size, align)])
    {
      match ClassOf(size, align) {
        case Some(c) =>
          r := AllocateSlab(c, answer);
          if r.Some? {
            ClassSizePower(c);
            BlockAligned(View(), c, r.value, if align > 4096 then 4096 else align);
          }
        case None =>
          r := answer;
          if r.Some? {
            TakeRegion(r.value, size, align);
          }
      }
    }

    method SumTotalBlocks() returns (n: nat)
      requires Viewed()
      ensures n == TotalBlocks(views)
    {
      n := 0;
      for c := 0 to |slabs|
        invariant n == TotalBlocks(views[..c])
      {
        var s := slabs[c];
        assert s.totalBlocks == views[c].totalBlocks && s.size == views[c].size;
        SumsNext(views, c);
        n := n + s.totalBlocks * s.size;
      }
      assert views[..|slabs|] == views;
    }

    method SumUsedBlocks() returns (n: int)
      requires Viewed()
      ensures n == UsedBlocks(views)
    {
      n := 0;
      for c := 0 to |slabs|
        invariant n == UsedBlocks(views[..c])
      {
        var s := slabs[c];
        assert s.totalBlocks == views[c].totalBlocks && s.size == views[c].size && s.list.len == views[c].len;
        SumsNext(views, c);
        n := n + (s.totalBlocks - s.list.len) * s.size;
      }
      assert views[..|slabs|] == views;
    }

    /** total_bytes: the memory of the buddy heap, and every refilled chunk once more. */
    method TotalBytes() returns (n: nat)
      requires Valid()
      ensures n == HeapSpec.TotalBytes(View()) && n == total + ChunkBytes(views)
    {
      var blocks := SumTotalBlocks();
      n := blocks + total;
      CountedTwice(View());
    }

    /** used_bytes: what the buddy heap charged, refilled chunks included, and the held blocks once more. */
    method UsedBytes() returns (n: int)
      requires Valid()
      ensures n == HeapSpec.UsedBytes(View()) && n == Sum(regions) + LiveBytes(views)
    {
      var blocks := SumUsedBlocks();
      n := blocks + actual;
      CountedTwice(View());
    }

    /** available_bytes: the subtraction never goes below zero. */
    method Available() returns (n: nat)
      requires Valid()
      ensures n == AvailableBytes(View())
    {
      AvailableIs(View());
      var t := TotalBytes();
      var u := UsedBytes();
      n := t - u;
    }

    method TakeRegion(a: nat, size: nat, align: nat)
      requires Valid() && Grantable(View(), a, Charge(size, align), align)
      modifies this
      ensures Valid() && View() == GrantBig(old(View()), a, Layout(size, align))
      ensures AvailableBytes(View()) == AvailableBytes(old(View())) - Charge(size, align)
    {
      GrantBigOk(View(), a, Layout(size, align));
      regions, big := regions[a := Charge(size, align)], big[a := Layout(size, align)];
      actual := actual + Charge(size, align);
      AvailableIs(old(View()));
      AvailableIs(View());
    }

    method ReleaseRegion(a: nat, size: nat, align: nat)
      requires Valid() && a in big && big[a] == Layout(size, align)
      modifies this
      ensures Valid() && regions == old(regions) - {a} && big == old(big) - {a} && views == old(views)
      ensures AvailableBytes(View()) == AvailableBytes(old(View())) + Charge(size, align)
    {
      ReleaseBigOk(View(), a);
      actual := actual - Charge(size, align);
      regions, big := regions - {a}, big - {a};
      AvailableIs(old(View()));
      AvailableIs(View());
    }

    /** deallocate of a piece obtained with the same layout. */
    method Deallocate(ptr: nat, size: nat, align: nat)
      requires Valid()
      requires match ClassOf(size, align)
               case Some(c) => ptr in views[c].live
               case None => ptr in big && big[ptr] == Layout(size, align)
      modifies this, mem, slabs, ListsOf(slabs)
      ensures Valid()
      ensures match ClassOf(size, align)
              case Some(c) =>
                && View() == PushBlock(old(View()), c, ptr)
                && AvailableBytes(View()) == AvailableBytes(old(View())) + ClassSize(c)
              case None =>
                && regions == old(regions) - {ptr} && big == old(big) - {ptr} && views == old(views)
                && AvailableBytes(View()) == AvailableBytes(old(View())) + Charge(size, align)
    {
      match ClassOf(size, align) {
        case Some(c) => DeallocateSlab(c, ptr);
        case None => ReleaseRegion(ptr, size, align);
      }
    }

    method DeallocateSlab(c: nat, ptr: nat)
      requires Valid() && c < CLASSES && ptr in views[c].live
      modifies this`views, mem, slabs[c], slabs[c].list
      ensures Valid() && View() == PushBlock(old(View()), c, ptr)
      ensures AvailableBytes(View()) == AvailableBytes(old(View())) + ClassSize(c)
    {
      assert SlabOk(View().links, views[c]);
      ghost var h := PushBlock(View(), c, ptr);
      assert HeapOk(h) by { PushBlockOk(View(), c, ptr); }
      assert AvailableBytes(h) == AvailableBytes(View()) + ClassSize(c) by { PushBlockBytes(View(), c, ptr); }
      slabs[c].Deallocate(mem, ptr);
      views := views[c := slabs[c].View()];
      assert View() == h;
    }
  }

  /** The first small request aligned above 4096 gets the last block of a chunk of the 4096-byte class,
      wherever the chunk is. */
  method FirstOverAligned(heapSize: nat, size: nat, align: nat, chunk: nat) returns (r: Option<nat>)
    requires PowerOfTwo(align) && size <= 4096 < align && chunk % 4096 == 0 && heapSize >= 0x4_0000
    ensures r == Some(chunk + 63 * 4096)
  {
    var heap := new SlabHeap(heapSize);
    assert heap.views[6] == EmptySlab(6);
    assert Demand(size, align) == 0x4_0000;
    r := heap.Allocate(size, align, Some(chunk));
  }

  lemma NotAligned(align: nat)
    requires PowerOfTwo(align) && align > 4096
    ensures align % 4096 == 0 && (align + 63 * 4096) % align != 0
  {
    ClassSizePower(0);
    NextPower(align);
    Multiple8192(align);
    OddBlocks(align, align + 63 * 4096);
  }

  lemma Multiple8192(align: nat)
    requires PowerOfTwo(8192) && PowerOfTwo(align) && align >= 8192
    ensures align % 4096 == 0 && (align + 63 * 4096) % 8192 != 0
  {
    assert align % 8192 == 0 by {
      SelfDivides(align);
      PowersDivide(8192, align, align);
    }
  }

  lemma SelfDivides(n: nat)
    requires n > 0
    ensures n % n == 0
  {
  }

  lemma OddBlocks(align: nat, x: nat)
    requires PowerOfTwo(8192) && PowerOfTwo(align) && 8192 <= align && x % 8192 != 0
    ensures x % align != 0
  {
    if x % align == 0 {
      PowersDivide(8192, align, x);
    }
  }

  /** Above 4096 the next power of two is 8192. */
  lemma NextPower(align: nat)
    requires PowerOfTwo(align) && align > 4096 && PowerOfTwo(4096)
    ensures PowerOfTwo(8192) && align >= 8192
  {
    if align < 8192 {
      SelfDivides(align);
      PowersDivide(4096, align, align);
    }
  }

  /** So for every small request aligned above 4096 there is a chunk for which the alignment is not met. */
  method OverAligned(size: nat, align: nat) returns (r: Option<nat>)
    requires PowerOfTwo(align) && size <= 4096 < align
    ensures r.Some? && r.value % align != 0
  {
    NotAligned(align);
    r := FirstOverAligned(0x10_0000, size, align, align);
  }
}
