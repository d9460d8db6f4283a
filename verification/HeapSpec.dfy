/** All size classes together with the buddy heap: no two pieces of memory overlap, and the byte counts. */
module HeapSpec {
  import opened Common
  import opened SlabSpec

  const CLASSES: nat := 7

  function ClassSize(c: nat): (s: nat)
    ensures s > 0
  {
    if c == 0 then 64 else if c == 1 then 128 else if c == 2 then 256 else if c == 3 then 512
    else if c == 4 then 1024 else if c == 5 then 2048 else 4096
  }

  function Max(a: nat, b: nat): nat { if a < b then b else a }

  function PowerFrom(p: nat, n: nat): (r: nat)
    requires p > 0
    ensures r >= n && r >= p
    decreases if p < n then n - p else 0
  {
    if p >= n then p else PowerFrom(2 * p, n)
  }

  /** What the buddy heap charges: the next power of two, at least the alignment and a word. */
  function Charge(size: nat, align: nat): (n: nat)
    ensures n >= size && n >= align && n > 0
  {
    Max(PowerFrom(1, size), Max(align, 8))
  }

  /** The charge is the least power of two that holds the size, the alignment and a word of 8 bytes. */
  lemma ChargeIsLeast(size: nat, align: nat)
    requires PowerOfTwo(align)
    ensures PowerOfTwo(Charge(size, align))
    ensures forall m: nat | PowerOfTwo(m) && m >= size && m >= align && m >= 8 :: Charge(size, align) <= m
  {
    assert PowerOfTwo(8) && PowerOfTwo(1);
    PowerFromPower(1, size);
    forall m: nat | PowerOfTwo(m) && m >= size && m >= align && m >= 8 ensures Charge(size, align) <= m {
      PowerFromLeast(1, size, m);
    }
  }

  lemma {:induction false} PowerFromPower(p: nat, n: nat)
    requires PowerOfTwo(p) && p > 0
    ensures PowerOfTwo(PowerFrom(p, n))
    decreases if p < n then n - p else 0
  {
    if p < n {
      PowerFromPower(2 * p, n);
    }
  }

  lemma {:induction false} PowerFromLeast(p: nat, n: nat, m: nat)
    requires PowerOfTwo(p) && PowerOfTwo(m) && 0 < p <= m && m >= n
    ensures PowerFrom(p, n) <= m
    decreases if p < n then n - p else 0
  {
    if p < n {
      NextPowerUp(p, m);
      PowerFromLeast(2 * p, n, m);
    }
  }

  /** The next power of two above `p` is its double. */
  lemma {:induction false} NextPowerUp(p: nat, m: nat)
    requires PowerOfTwo(p) && PowerOfTwo(m) && 0 < p < m
    ensures 2 * p <= m && PowerOfTwo(2 * p)
  {
    if p > 1 {
      NextPowerUp(p / 2, m / 2);
    }
  }

  datatype Layout = Layout(size: nat, align: nat)

  /** `regions` are the buddy heap's grants with their charge, `big` the ones that callers hold
      directly, with the layout they asked for. */
  datatype Heap = Heap(slabs: seq<Slab>, links: Links, regions: map<nat, nat>, big: map<nat, Layout>, total: nat, actual: nat)

  predicate Apart(a: nat, n: nat, b: nat, m: nat) {
    a + n <= b || b + m <= a
  }

  ghost predicate RegionsApart(regions: map<nat, nat>) {
    forall a, b | a in regions && b in regions && a != b :: Apart(a, regions[a], b, regions[b])
  }

  /** The total charge of all regions. */
  ghost function Sum(regions: map<nat, nat>): nat {
    if regions == map[] then 0
    else
      var a :| a in regions;
      regions[a] + Sum(regions - {a})
  }

  lemma {:induction false} SumWithout(regions: map<nat, nat>, a: nat)
    requires a in regions
    ensures Sum(regions) == regions[a] + Sum(regions - {a})
    decreases |regions|
  {
    var b :| b in regions && Sum(regions) == regions[b] + Sum(regions - {b});
    if b != a {
      SumWithout(regions - {b}, a);
      SumWithout(regions - {a}, b);
      assert regions - {a} - {b} == regions - {b} - {a};
    }
  }

  lemma SumWith(regions: map<nat, nat>, a: nat, n: nat)
    requires a !in regions
    ensures Sum(regions[a := n]) == Sum(regions) + n
  {
    SumWithout(regions[a := n], a);
    assert regions[a := n] - {a} == regions;
  }

  /** The chunks of class `c` are aligned regions of 64 blocks. */
  ghost predicate ChunksOk(h: Heap, c: nat)
    requires c < |h.slabs|
  {
    && h.slabs[c].totalBlocks == SET_SIZE * |h.slabs[c].chunks|
    && forall a | a in h.slabs[c].chunks :: a in h.regions && h.regions[a] == SET_SIZE * ClassSize(c) && a % 4096 == 0 && a !in h.big
  }

  ghost predicate HeapOk(h: Heap) {
    && |h.slabs| == CLASSES
    && (forall c | 0 <= c < CLASSES :: h.slabs[c].size == ClassSize(c) && SlabOk(h.links, h.slabs[c]) && ChunksOk(h, c))
    && (forall c, d | 0 <= c < d < CLASSES :: h.slabs[c].chunks !! h.slabs[d].chunks)
    && RegionsApart(h.regions)
    && (forall a | a in h.big :: a in h.regions && h.regions[a] == Charge(h.big[a].size, h.big[a].align))
    && h.actual == Sum(h.regions) <= h.total
  }

  function EmptySlab(c: nat): Slab { Slab(ClassSize(c), None, 0, 0, [], {}, {}) }

  lemma EmptyHeapOk(h: Heap)
    requires |h.slabs| == CLASSES && forall c | 0 <= c < CLASSES :: h.slabs[c] == EmptySlab(c)
    requires h.regions == map[] && h.big == map[] && h.actual == 0
    ensures HeapOk(h)
  {
    forall c | 0 <= c < CLASSES ensures SlabOk(h.links, h.slabs[c]) && ChunksOk(h, c) {
      assert h.slabs[c] == EmptySlab(c);
    }
  }

  // ---------------------------------------------------------------------
  // Pieces never overlap

  /** A block of a size class, free or held by a caller, or a region held directly. */
  datatype Piece = Block(class_: nat, start: nat) | Big(start: nat)

  ghost predicate Exists(h: Heap, p: Piece) {
    match p
    case Block(c, b) => c < |h.slabs| && (b in h.slabs[c].blocks || b in h.slabs[c].live)
    case Big(a) => a in h.big
  }

  ghost function Size(h: Heap, p: Piece): nat {
    match p
    case Block(c, _) => ClassSize(c)
    case Big(a) => if a in h.regions then h.regions[a] else 0
  }

  /** Every piece lies in one region: its chunk, or itself. */
  lemma HomeOf(h: Heap, p: Piece) returns (a: nat)
    requires HeapOk(h) && Exists(h, p)
    ensures a in h.regions && a <= p.start && p.start + Size(h, p) <= a + h.regions[a]
    ensures p.Block? ==> a in h.slabs[p.class_].chunks && InChunk(a, ClassSize(p.class_), p.start)
    ensures p.Big? ==> a == p.start && a in h.big
  {
    match p {
      case Block(c, b) =>
        var s := h.slabs[c];
        assert SlabOk(h.links, s) && ChunksOk(h, c);
        a :| a in s.chunks && InChunk(a, s.size, b);
      case Big(start) => a := start;
    }
  }

  /** Live allocations never overlap each other or any free block. */
  lemma PiecesApart(h: Heap, p: Piece, q: Piece)
    requires HeapOk(h) && Exists(h, p) && Exists(h, q) && p != q
    ensures Apart(p.start, Size(h, p), q.start, Size(h, q))
  {
    var a := HomeOf(h, p);
    var b := HomeOf(h, q);
    if a != b {
      assert Apart(a, h.regions[a], b, h.regions[b]);
    } else if p.Block? && q.Block? {
      SameHomeSameClass(h, p.class_, q.class_, a);
      if p.start < q.start {
        SameChunkApart(a, ClassSize(p.class_), p.start, q.start);
      } else {
        SameChunkApart(a, ClassSize(p.class_), q.start, p.start);
      }
    }
  }

  lemma SameHomeSameClass(h: Heap, c: nat, d: nat, a: nat)
    requires HeapOk(h) && c < CLASSES && d < CLASSES && a in h.slabs[c].chunks && a in h.slabs[d].chunks
    ensures c == d
  {
  }

  // ---------------------------------------------------------------------
  // Operations on one class

  ghost function WithSlab(h: Heap, c: nat, s: Slab, links: Links): Heap
    requires c < |h.slabs|
  {
    h.(slabs := h.slabs[c := s], links := links)
  }

  /** The other classes do not see a link write to a block of class `c`. */
  lemma OthersKeep(h: Heap, c: nat, b: nat, link: Option<nat>, d: nat)
    requires HeapOk(h) && c < CLASSES && d < CLASSES && c != d && Exists(h, Block(c, b))
    ensures SlabOk(h.links[b := link], h.slabs[d])
  {
    var s := h.slabs[d];
    forall x | x in s.blocks ensures x in h.links && x != b {
      assert SlabOk(h.links, s);
      PiecesApart(h, Block(d, x), Block(c, b));
    }
    SlabFrame(h.links, h.links[b := link], s);
  }

  lemma ReplaceSlab(h: Heap, c: nat, s: Slab, b: nat, link: Option<nat>)
    requires HeapOk(h) && c < CLASSES && Exists(h, Block(c, b))
    requires SlabOk(h.links[b := link], s) && s.size == ClassSize(c) && s.chunks == h.slabs[c].chunks
    requires s.totalBlocks == h.slabs[c].totalBlocks
    ensures HeapOk(WithSlab(h, c, s, h.links[b := link]))
  {
    var h' := WithSlab(h, c, s, h.links[b := link]);
    forall d | 0 <= d < CLASSES
      ensures h'.slabs[d].size == ClassSize(d) && SlabOk(h'.links, h'.slabs[d]) && ChunksOk(h', d)
    {
      assert ChunksOk(h, d);
      if d != c {
        OthersKeep(h, c, b, link, d);
      }
    }
  }

  ghost function PopBlock(h: Heap, c: nat): Heap
    requires c < |h.slabs| && h.slabs[c].blocks != []
  {
    WithSlab(h, c, Popped(h.slabs[c]), h.links[h.slabs[c].blocks[0] := None])
  }

  /** Allocation from the free list. */
  lemma PopBlockOk(h: Heap, c: nat)
    requires HeapOk(h) && c < CLASSES && h.slabs[c].blocks != []
    ensures HeapOk(PopBlock(h, c))
  {
    PopOk(h.links, h.slabs[c]);
    ReplaceSlab(h, c, Popped(h.slabs[c]), h.slabs[c].blocks[0], None);
  }

  ghost function PushBlock(h: Heap, c: nat, b: nat): Heap
    requires c < |h.slabs|
  {
    WithSlab(h, c, Pushed(h.slabs[c], b), h.links[b := h.slabs[c].head])
  }

  /** Deallocation of a block that a caller holds. */
  lemma PushBlockOk(h: Heap, c: nat, b: nat)
    requires HeapOk(h) && c < CLASSES && b in h.slabs[c].live
    ensures HeapOk(PushBlock(h, c, b))
  {
    PushOk(h.links, h.slabs[c], b);
    ReplaceSlab(h, c, Pushed(h.slabs[c], b), b, h.slabs[c].head);
  }

  /** The buddy heap may grant [a, a+n): it is apart from every region it granted before. */
  ghost predicate Grantable(h: Heap, a: nat, n: nat, align: nat) {
    && align > 0 && a % align == 0 && n > 0 && h.actual + n <= h.total
    && a !in h.regions && forall r | r in h.regions :: Apart(a, n, r, h.regions[r])
  }

  ghost function Grant(h: Heap, a: nat, n: nat): Heap {
    h.(regions := h.regions[a := n], actual := h.actual + n)
  }

  ghost function Refill(h: Heap, c: nat, chunk: nat, blocks: seq<nat>, links: Links): Heap
    requires c < |h.slabs|
  {
    WithSlab(Grant(h, chunk, SET_SIZE * ClassSize(c)), c, Refilled(h.slabs[c], chunk, blocks), links)
  }

  ghost predicate RefillArgs(h: Heap, c: nat, chunk: nat, blocks: seq<nat>, links: Links) {
    && |h.slabs| == CLASSES && c < CLASSES && h.slabs[c].blocks == []
    && Grantable(h, chunk, SET_SIZE * ClassSize(c), 4096)
    && Chain(links, HeadOf(blocks), blocks) && |blocks| == SET_SIZE
    && (forall b | b in blocks :: InChunk(chunk, ClassSize(c), b))
    && (forall b | b in h.links && b !in blocks :: b in links && links[b] == h.links[b])
  }

  /** No existing piece is in the region that is about to be granted. */
  lemma FreshRegion(h: Heap, a: nat, n: nat, align: nat, p: Piece)
    requires HeapOk(h) && Grantable(h, a, n, align) && Exists(h, p)
    ensures Apart(a, n, p.start, Size(h, p))
  {
    var home := HomeOf(h, p);
    assert Apart(a, n, home, h.regions[home]);
  }

  lemma RefillKeeps(h: Heap, c: nat, chunk: nat, blocks: seq<nat>, links: Links, d: nat)
    requires HeapOk(h) && RefillArgs(h, c, chunk, blocks, links) && d < CLASSES && d != c
    ensures SlabOk(links, h.slabs[d])
  {
    var s := h.slabs[d];
    assert SlabOk(h.links, s);
    forall x | x in s.blocks ensures x in h.links && x in links && links[x] == h.links[x] {
      FreshRegion(h, chunk, SET_SIZE * ClassSize(c), 4096, Block(d, x));
    }
    SlabFrame(h.links, links, s);
  }

  lemma RefillOwn(h: Heap, c: nat, chunk: nat, blocks: seq<nat>, links: Links)
    requires HeapOk(h) && RefillArgs(h, c, chunk, blocks, links)
    ensures SlabOk(links, Refilled(h.slabs[c], chunk, blocks)) && chunk !in h.big
  {
    assert SlabOk(h.links, h.slabs[c]);
    forall b | b in h.slabs[c].live ensures !InChunk(chunk, h.slabs[c].size, b) {
      FreshRegion(h, chunk, SET_SIZE * ClassSize(c), 4096, Block(c, b));
    }
    RefillOk(h.links, links, h.slabs[c], chunk, blocks);
  }

  lemma RefillSlab(h: Heap, c: nat, chunk: nat, blocks: seq<nat>, links: Links, d: nat)
    requires HeapOk(h) && RefillArgs(h, c, chunk, blocks, links) && d < CLASSES
    ensures var h' := Refill(h, c, chunk, blocks, links);
            h'.slabs[d].size == ClassSize(d) && SlabOk(h'.links, h'.slabs[d]) && ChunksOk(h', d)
    ensures chunk !in h.slabs[d].chunks
  {
    assert ChunksOk(h, d);
    if d != c {
      RefillKeeps(h, c, chunk, blocks, links, d);
    } else {
      RefillOwn(h, c, chunk, blocks, links);
      assert |h.slabs[c].chunks + {chunk}| == |h.slabs[c].chunks| + 1;
    }
  }

  lemma RefillChunks(h: Heap, c: nat, chunk: nat, blocks: seq<nat>, links: Links, d: nat, e: nat)
    requires HeapOk(h) && RefillArgs(h, c, chunk, blocks, links) && d < e < CLASSES
    ensures var h' := Refill(h, c, chunk, blocks, links); h'.slabs[d].chunks !! h'.slabs[e].chunks
  {
    RefillSlab(h, c, chunk, blocks, links, d);
    RefillSlab(h, c, chunk, blocks, links, e);
  }

  lemma GrantApart(h: Heap, a: nat, n: nat, align: nat)
    requires HeapOk(h) && Grantable(h, a, n, align)
    ensures RegionsApart(Grant(h, a, n).regions)
    ensures Grant(h, a, n).actual == Sum(Grant(h, a, n).regions) <= h.total
  {
    SumWith(h.regions, a, n);
  }

  /** Refilling an empty class from the buddy heap. */
  lemma RefillHeapOk(h: Heap, c: nat, chunk: nat, blocks: seq<nat>, links: Links)
    requires HeapOk(h) && RefillArgs(h, c, chunk, blocks, links)
    ensures HeapOk(Refill(h, c, chunk, blocks, links))
  {
    var h' := Refill(h, c, chunk, blocks, links);
    forall d | 0 <= d < CLASSES
      ensures h'.slabs[d].size == ClassSize(d) && SlabOk(h'.links, h'.slabs[d]) && ChunksOk(h', d)
    {
      RefillSlab(h, c, chunk, blocks, links, d);
    }
    forall d, e | 0 <= d < e < CLASSES ensures h'.slabs[d].chunks !! h'.slabs[e].chunks {
      RefillChunks(h, c, chunk, blocks, links, d, e);
    }
    GrantApart(h, chunk, SET_SIZE * ClassSize(c), 4096);
  }

  ghost function GrantBig(h: Heap, a: nat, l: Layout): Heap {
    var g := Grant(h, a, Charge(l.size, l.align)); g.(big := g.big[a := l])
  }

  lemma GrantBigOk(h: Heap, a: nat, l: Layout)
    requires HeapOk(h) && Grantable(h, a, Charge(l.size, l.align), l.align)
    ensures HeapOk(GrantBig(h, a, l))
  {
    var h' := GrantBig(h, a, l);
    assert h'.actual == Sum(h'.regions) by { SumWith(h.regions, a, Charge(l.size, l.align)); }
    forall d | 0 <= d < CLASSES ensures ChunksOk(h', d) {
      assert ChunksOk(h, d);
    }
  }

  lemma MoreMemoryOk(h: Heap, n: nat)
    requires HeapOk(h)
    ensures HeapOk(h.(total := h.total + n))
  {
    var t := h.(total := h.total + n);
    forall c | 0 <= c < CLASSES ensures ChunksOk(t, c) {
      assert ChunksOk(h, c);
    }
  }

  ghost function ReleaseBig(h: Heap, a: nat): Heap
    requires a in h.regions && h.regions[a] <= h.actual
  {
    h.(regions := h.regions - {a}, big := h.big - {a}, actual := h.actual - h.regions[a])
  }

  lemma ReleaseBigOk(h: Heap, a: nat)
    requires HeapOk(h) && a in h.big
    ensures h.regions[a] <= h.actual && HeapOk(ReleaseBig(h, a))
  {
    SumWithout(h.regions, a);
    var h' := ReleaseBig(h, a);
    forall d | 0 <= d < CLASSES ensures ChunksOk(h', d) {
      assert ChunksOk(h, d);
    }
  }

  /** A caller may write anywhere in a piece that it holds. */
  lemma ClientWriteOk(h: Heap, p: Piece, x: nat, link: Option<nat>)
    requires HeapOk(h) && Exists(h, p) && (p.Block? ==> p.start in h.slabs[p.class_].live)
    requires p.start <= x < p.start + Size(h, p)
    ensures HeapOk(h.(links := h.links[x := link]))
  {
    var h' := h.(links := h.links[x := link]);
    forall d | 0 <= d < CLASSES ensures SlabOk(h'.links, h.slabs[d]) && ChunksOk(h', d) {
      assert SlabOk(h.links, h.slabs[d]) && ChunksOk(h, d);
      forall y | y in h.slabs[d].blocks ensures y != x {
        PiecesApart(h, p, Block(d, y));
      }
      SlabFrame(h.links, h'.links, h.slabs[d]);
    }
  }

  // ---------------------------------------------------------------------
  // Byte counts

  function TotalBlocks(slabs: seq<Slab>): nat {
    if slabs == [] then 0
    else TotalBlocks(slabs[..|slabs| - 1]) + slabs[|slabs| - 1].totalBlocks * slabs[|slabs| - 1].size
  }

  /** used_blocks is total_blocks - len; the subtraction is on integers here. */
  function UsedBlocks(slabs: seq<Slab>): int {
    if slabs == [] then 0
    else
      var s := slabs[|slabs| - 1];
      UsedBlocks(slabs[..|slabs| - 1]) + (s.totalBlocks - s.len) * s.size
  }

  function FreeBytes(slabs: seq<Slab>): nat {
    if slabs == [] then 0
    else FreeBytes(slabs[..|slabs| - 1]) + slabs[|slabs| - 1].len * slabs[|slabs| - 1].size
  }

  /** The bytes of all chunks, 64 blocks each. */
  ghost function ChunkBytes(slabs: seq<Slab>): nat {
    if slabs == [] then 0
    else ChunkBytes(slabs[..|slabs| - 1]) + |slabs[|slabs| - 1].chunks| * (64 * slabs[|slabs| - 1].size)
  }

  /** The bytes of the blocks that callers hold. */
  ghost function LiveBytes(slabs: seq<Slab>): nat {
    if slabs == [] then 0
    else LiveBytes(slabs[..|slabs| - 1]) + |slabs[|slabs| - 1].live| * slabs[|slabs| - 1].size
  }

  lemma {:induction false} BlocksAreChunks(slabs: seq<Slab>)
    requires forall c | 0 <= c < |slabs| :: slabs[c].totalBlocks == 64 * |slabs[c].chunks|
    ensures TotalBlocks(slabs) == ChunkBytes(slabs)
  {
    if slabs != [] {
      var s := slabs[|slabs| - 1];
      BlocksAreChunks(slabs[..|slabs| - 1]);
      assert s.totalBlocks * s.size == |s.chunks| * (64 * s.size);
    }
  }

  lemma {:induction false} UsedIsLive(slabs: seq<Slab>)
    requires forall c | 0 <= c < |slabs| :: slabs[c].totalBlocks == slabs[c].len + |slabs[c].live|
    ensures UsedBlocks(slabs) == LiveBytes(slabs)
  {
    if slabs != [] {
      UsedIsLive(slabs[..|slabs| - 1]);
    }
  }

  /** Both sums count every refilled chunk: the total a second time, as blocks of its slab, and the used
      bytes as a charge of the buddy heap, besides the blocks that are held. */
  lemma CountedTwice(h: Heap)
    requires HeapOk(h)
    ensures TotalBytes(h) == h.total + ChunkBytes(h.slabs)
    ensures UsedBytes(h) == Sum(h.regions) + LiveBytes(h.slabs)
  {
    forall c | 0 <= c < |h.slabs|
      ensures h.slabs[c].totalBlocks == 64 * |h.slabs[c].chunks|
      ensures h.slabs[c].totalBlocks == h.slabs[c].len + |h.slabs[c].live|
    {
      assert ChunksOk(h, c) && SlabOk(h.links, h.slabs[c]);
    }
    BlocksAreChunks(h.slabs);
    UsedIsLive(h.slabs);
  }

  function TotalBytes(h: Heap): int { TotalBlocks(h.slabs) + h.total }
  function UsedBytes(h: Heap): int { UsedBlocks(h.slabs) + h.actual }
  function AvailableBytes(h: Heap): int { TotalBytes(h) - UsedBytes(h) }

  lemma SumsNext(slabs: seq<Slab>, c: nat)
    requires c < |slabs|
    ensures TotalBlocks(slabs[..c + 1]) == TotalBlocks(slabs[..c]) + slabs[c].totalBlocks * slabs[c].size
    ensures UsedBlocks(slabs[..c + 1]) == UsedBlocks(slabs[..c]) + (slabs[c].totalBlocks - slabs[c].len) * slabs[c].size
  {
    assert slabs[..c + 1][..c] == slabs[..c];
  }

  lemma {:induction false} TotalIsUsedAndFree(slabs: seq<Slab>)
    ensures TotalBlocks(slabs) == UsedBlocks(slabs) + FreeBytes(slabs)
  {
    if slabs != [] {
      var s := slabs[|slabs| - 1];
      TotalIsUsedAndFree(slabs[..|slabs| - 1]);
      assert s.totalBlocks * s.size == (s.totalBlocks - s.len) * s.size + s.len * s.size;
    }
  }

  /** What is available is what is on the free lists plus what the buddy heap has left. */
  lemma AvailableIs(h: Heap)
    ensures AvailableBytes(h) == FreeBytes(h.slabs) + h.total - h.actual
    ensures HeapOk(h) ==> 0 <= AvailableBytes(h)
  {
    TotalIsUsedAndFree(h.slabs);
  }

  /** Exchanging one slab of the heap changes what is available by its free blocks and the grant. */
  lemma AvailableChange(h: Heap, h': Heap, c: nat, s: Slab)
    requires c < |h.slabs| && s.size == h.slabs[c].size && h'.slabs == h.slabs[c := s] && h'.total == h.total
    ensures AvailableBytes(h') == AvailableBytes(h) + (s.len - h.slabs[c].len) * s.size - (h'.actual - h.actual)
  {
    AvailableIs(h);
    AvailableIs(h');
    FreeBytesUpdate(h.slabs, c, s);
  }

  lemma {:induction false} FreeBytesUpdate(slabs: seq<Slab>, c: nat, s: Slab)
    requires c < |slabs| && s.size == slabs[c].size
    ensures FreeBytes(slabs[c := s]) == FreeBytes(slabs) + (s.len - slabs[c].len) * s.size
  {
    var n := |slabs| - 1;
    if c == n {
      assert slabs[c := s][..n] == slabs[..n];
      assert s.len * s.size == slabs[c].len * s.size + (s.len - slabs[c].len) * s.size;
    } else {
      assert slabs[c := s][..n] == slabs[..n][c := s];
      FreeBytesUpdate(slabs[..n], c, s);
    }
  }

  lemma SlabFacts(h: Heap, c: nat)
    requires HeapOk(h) && c < CLASSES
    ensures h.slabs[c].len == |h.slabs[c].blocks| && h.slabs[c].size == ClassSize(c)
  {
    assert SlabOk(h.links, h.slabs[c]);
  }

  /** A block from the free list costs its size. */
  lemma PopBlockBytes(h: Heap, c: nat)
    requires |h.slabs| == CLASSES && c < CLASSES && h.slabs[c].blocks != [] && h.slabs[c].len == |h.slabs[c].blocks|
    ensures AvailableBytes(PopBlock(h, c)) == AvailableBytes(h) - h.slabs[c].size
  {
    var s := Popped(h.slabs[c]);
    AvailableChange(h, PopBlock(h, c), c, s);
    assert (s.len - h.slabs[c].len) * s.size + s.size == 0;
  }

  /** Refilling moves bytes from the buddy heap to the free list, and changes nothing else. */
  lemma RefillBytes(h: Heap, c: nat, chunk: nat, blocks: seq<nat>, links: Links)
    requires |h.slabs| == CLASSES && c < CLASSES && h.slabs[c].size == ClassSize(c) && h.slabs[c].len == 0
    requires |blocks| == SET_SIZE
    ensures AvailableBytes(Refill(h, c, chunk, blocks, links)) == AvailableBytes(h)
  {
    AvailableChange(h, Refill(h, c, chunk, blocks, links), c, Refilled(h.slabs[c], chunk, blocks));
  }

  /** Giving a block back restores its size. */
  lemma PushBlockBytes(h: Heap, c: nat, b: nat)
    requires |h.slabs| == CLASSES && c < CLASSES
    ensures AvailableBytes(PushBlock(h, c, b)) == AvailableBytes(h) + h.slabs[c].size
  {
    var s := Pushed(h.slabs[c], b);
    AvailableChange(h, PushBlock(h, c, b), c, s);
    assert (s.len - h.slabs[c].len) * s.size == s.size;
  }

  /** `h'` is `h` with block `a` of class `c` handed out: no other allocation changed. */
  ghost predicate Allocated(h: Heap, h': Heap, c: nat, a: nat) {
    && |h.slabs| == |h'.slabs| == CLASSES && c < CLASSES
    && a !in h.slabs[c].live && h'.slabs[c].live == h.slabs[c].live + {a}
    && (forall d | 0 <= d < CLASSES && d != c :: h'.slabs[d].live == h.slabs[d].live)
    && h'.big == h.big
    && AvailableBytes(h') == AvailableBytes(h) - ClassSize(c)
  }

  lemma PopBlockAllocates(h: Heap, c: nat)
    requires HeapOk(h) && c < CLASSES && h.slabs[c].blocks != []
    ensures Allocated(h, PopBlock(h, c), c, h.slabs[c].blocks[0])
  {
    assert SlabOk(h.links, h.slabs[c]);
    assert h.slabs[c].blocks[0] in h.slabs[c].blocks;
    PopBlockBytes(h, c);
  }

  lemma RefillAllocates(h: Heap, c: nat, chunk: nat, blocks: seq<nat>, links: Links)
    requires HeapOk(h) && RefillArgs(h, c, chunk, blocks, links)
    ensures HeapOk(Refill(h, c, chunk, blocks, links)) && Refill(h, c, chunk, blocks, links).slabs[c].blocks == blocks
    ensures Allocated(h, PopBlock(Refill(h, c, chunk, blocks, links), c), c, blocks[0])
  {
    var h1 := Refill(h, c, chunk, blocks, links);
    RefillHeapOk(h, c, chunk, blocks, links);
    SlabFacts(h, c);
    RefillBytes(h, c, chunk, blocks, links);
    PopBlockAllocates(h1, c);
  }

  // ---------------------------------------------------------------------
  // Alignment

  predicate PowerOfTwo(n: nat) {
    n == 1 || (n > 1 && n % 2 == 0 && PowerOfTwo(n / 2))
  }

  /** A power of two that is not larger divides a power of two. */
  lemma {:induction false} PowersDivide(m: nat, n: nat, x: nat)
    requires PowerOfTwo(m) && PowerOfTwo(n) && m <= n && x % n == 0
    ensures x % m == 0
    decreases n
  {
    if m < n {
      if m > 1 {
        HalvePowers(m, n, x);
        PowersDivide(m / 2, n / 2, x / 2);
        DoubleRemainder(x, m);
      }
    }
  }

  lemma HalvePowers(m: nat, n: nat, x: nat)
    requires n > 1 && n % 2 == 0 && x % n == 0
    ensures x % 2 == 0 && (x / 2) % (n / 2) == 0
  {
    var q, k := x / n, n / 2;
    assert x == q * n && n == 2 * k;
    assert x == 2 * (q * k);
    assert x / 2 == q * k;
    MultipleRemainder(q, k);
  }

  lemma DoubleRemainder(x: nat, m: nat)
    requires x % 2 == 0 && m > 1 && m % 2 == 0 && (x / 2) % (m / 2) == 0
    ensures x % m == 0
  {
    var q := (x / 2) / (m / 2);
    assert x / 2 == q * (m / 2);
    assert x == q * m;
    MultipleRemainder(q, m);
  }

  lemma ClassSizePower(c: nat)
    ensures PowerOfTwo(ClassSize(c)) && PowerOfTwo(4096) && ClassSize(c) <= 4096
  {
    assert PowerOfTwo(64) && PowerOfTwo(128) && PowerOfTwo(256) && PowerOfTwo(512);
    assert PowerOfTwo(1024) && PowerOfTwo(2048) && PowerOfTwo(4096);
  }

  /** Every block is aligned to its size, and so to every smaller power of two. */
  lemma BlockAligned(h: Heap, c: nat, b: nat, align: nat)
    requires HeapOk(h) && Exists(h, Block(c, b)) && PowerOfTwo(align) && align <= ClassSize(c)
    ensures b % align == 0
  {
    var a := HomeOf(h, Block(c, b));
    assert a % 4096 == 0 by {
      assert ChunksOk(h, c);
    }
    InChunkAligned(c, a, b, align);
  }

  lemma InChunkAligned(c: nat, a: nat, b: nat, align: nat)
    requires a % 4096 == 0 && InChunk(a, ClassSize(c), b) && PowerOfTwo(align) && align <= ClassSize(c)
    ensures b % align == 0
  {
    ClassSizePower(c);
    PowersDivide(ClassSize(c), 4096, a);
    SumAligned(a, b - a, ClassSize(c));
    PowersDivide(align, ClassSize(c), b);
  }

  lemma SumAligned(x: nat, y: nat, m: nat)
    requires m > 0 && x % m == 0 && y % m == 0
    ensures (x + y) % m == 0
  {
    assert x == x / m * m && y == y / m * m;
    assert x + y == (x / m + y / m) * m;
    MultipleRemainder(x / m + y / m, m);
  }
}
