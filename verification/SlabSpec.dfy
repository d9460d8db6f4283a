/**
  The slab allocator as values: free lists threaded through memory, size classes made of
  chunks that the buddy heap granted, and what keeps all blocks apart.
 */
module SlabSpec {
  import opened Common

  const SET_SIZE: nat := 64

  /** The link word at the start of each free block. */
  type Links = map<nat, Option<nat>>

  function HeadOf(blocks: seq<nat>): Option<nat> {
    if blocks == [] then None else Some(blocks[0])
  }

  /** Following the links from the head visits exactly `blocks`, once each, and stops. */
  ghost predicate Chain(links: Links, head: Option<nat>, blocks: seq<nat>) {
    && Distinct(blocks)
    && head == HeadOf(blocks)
    && forall i | 0 <= i < |blocks| :: blocks[i] in links && links[blocks[i]] == HeadOf(blocks[i + 1..])
  }

  lemma ChainPush(links: Links, head: Option<nat>, blocks: seq<nat>, b: nat)
    requires Chain(links, head, blocks) && b !in blocks
    ensures Chain(links[b := head], Some(b), [b] + blocks)
  {
    var blocks' := [b] + blocks;
    assert blocks'[1..] == blocks;
    forall i | 0 <= i < |blocks'| ensures blocks'[i] in links[b := head] && links[b := head][blocks'[i]] == HeadOf(blocks'[i + 1..]) {
      assert i > 0 ==> blocks'[i] == blocks[i - 1] && blocks'[i + 1..] == blocks[i..];
    }
  }

  lemma ChainPop(links: Links, head: Option<nat>, blocks: seq<nat>)
    requires Chain(links, head, blocks) && blocks != []
    ensures blocks[0] in links && links[blocks[0]] == HeadOf(blocks[1..]) && blocks[0] !in blocks[1..]
    ensures Chain(links[blocks[0] := None], links[blocks[0]], blocks[1..])
  {
    var rest := blocks[1..];
    forall i | 0 <= i < |rest|
      ensures rest[i] in links && rest[i] != blocks[0] && links[rest[i]] == HeadOf(rest[i + 1..])
    {
      assert rest[i] == blocks[i + 1] && rest[i + 1..] == blocks[i + 2..];
    }
  }

  lemma ChainFrame(links: Links, links': Links, head: Option<nat>, blocks: seq<nat>)
    requires Chain(links, head, blocks) && forall b | b in blocks :: b in links' && b in links && links'[b] == links[b]
    ensures Chain(links', head, blocks)
  {
  }

  // ---------------------------------------------------------------------
  // Chunks and blocks

  /** The `n` blocks of the given size from `start` on, in order. */
  function BlocksFrom(start: nat, size: nat, n: nat): (s: seq<nat>)
    ensures |s| == n
    decreases n
  {
    if n == 0 then [] else [start] + BlocksFrom(start + size, size, n - 1)
  }

  /** Block `b` is one of the 64 blocks of the chunk at `a`. */
  predicate InChunk(a: nat, size: nat, b: nat)
    requires size > 0
  {
    a <= b && b + size <= a + SET_SIZE * size && (b - a) % size == 0
  }

  lemma {:induction false} BlockAt(start: nat, size: nat, n: nat, i: nat)
    requires i < n
    ensures BlocksFrom(start, size, n)[i] == start + i * size
    decreases n
  {
    if i > 0 {
      BlockAt(start + size, size, n - 1, i - 1);
      assert size + (i - 1) * size == i * size;
    }
  }

  lemma MultipleRemainder(q: nat, k: nat)
    requires k > 0
    ensures (q * k) % k == 0
  {
    var r, d := (q * k) % k, q - (q * k) / k;
    assert d * k == r;
    assert d >= 1 ==> d * k >= k;
    assert d <= -1 ==> d * k < 0;
  }

  lemma OrderedBlocks(i: nat, j: nat, size: nat)
    requires i < j
    ensures i * size + size <= j * size
  {
    assert (j - i) * size == j * size - i * size;
    assert j - i >= 1 ==> (j - i) * size >= size;
  }

  lemma BlocksFromAre(start: nat, size: nat, n: nat)
    requires size > 0
    ensures Distinct(BlocksFrom(start, size, n))
    ensures forall i | 0 <= i < n ::
              var b := BlocksFrom(start, size, n)[i];
              start <= b && b + size <= start + n * size && (b - start) % size == 0
  {
    var all := BlocksFrom(start, size, n);
    forall i | 0 <= i < n ensures start <= all[i] && all[i] + size <= start + n * size && (all[i] - start) % size == 0 {
      BlockAt(start, size, n, i);
      OrderedBlocks(i, n, size);
      MultipleRemainder(i, size);
    }
    forall i, j | 0 <= i < j < n ensures all[i] != all[j] {
      BlockAt(start, size, n, i);
      BlockAt(start, size, n, j);
      OrderedBlocks(i, j, size);
    }
  }

  /** Two blocks of one chunk are the same or a whole block apart. */
  lemma SameChunkApart(a: nat, size: nat, b: nat, c: nat)
    requires size > 0 && InChunk(a, size, b) && InChunk(a, size, c) && b < c
    ensures b + size <= c
  {
    var x, y := b - a, c - a;
    assert x == x / size * size && y == y / size * size;
    var d := y / size - x / size;
    assert d * size == y - x;
    assert d <= 0 ==> d * size <= 0;
    assert d >= 1 ==> d * size >= size;
  }

  // ---------------------------------------------------------------------
  // One size class

  /** A slab: the fields of the source, with the blocks on its list, its chunks, and the blocks
      that callers hold. */
  datatype Slab = Slab(size: nat, head: Option<nat>, len: nat, totalBlocks: nat,
                       blocks: seq<nat>, chunks: set<nat>, live: set<nat>)

  ghost predicate InChunks(chunks: set<nat>, size: nat, b: nat)
    requires size > 0
  {
    exists a :: a in chunks && InChunk(a, size, b)
  }

  ghost predicate SlabOk(links: Links, s: Slab) {
    && s.size > 0
    && Chain(links, s.head, s.blocks)
    && s.len == |s.blocks|
    && (forall b | b in s.blocks :: b !in s.live && InChunks(s.chunks, s.size, b))
    && (forall b | b in s.live :: InChunks(s.chunks, s.size, b))
    && s.totalBlocks == |s.blocks| + |s.live|
  }

  function Popped(s: Slab): Slab
    requires s.blocks != []
  {
    s.(head := HeadOf(s.blocks[1..]), len := if s.len > 0 then s.len - 1 else 0, blocks := s.blocks[1..],
       live := s.live + {s.blocks[0]})
  }

  lemma PopOk(links: Links, s: Slab)
    requires SlabOk(links, s) && s.blocks != []
    ensures SlabOk(links[s.blocks[0] := None], Popped(s))
  {
    ChainPop(links, s.head, s.blocks);
    forall b | b in s.blocks[1..] ensures b != s.blocks[0] && b in s.blocks {
    }
    assert |s.live + {s.blocks[0]}| == |s.live| + 1;
  }

  function Pushed(s: Slab, b: nat): Slab {
    s.(head := Some(b), len := s.len + 1, blocks := [b] + s.blocks, live := s.live - {b})
  }

  lemma PushOk(links: Links, s: Slab, b: nat)
    requires SlabOk(links, s) && b in s.live
    ensures SlabOk(links[b := s.head], Pushed(s, b))
  {
    ChainPush(links, s.head, s.blocks, b);
    assert |s.live - {b}| == |s.live| - 1;
    assert InChunks(s.chunks, s.size, b);
  }

  /** A slab after the blocks of a new chunk were put in front of its list. */
  function Grown(s: Slab, chunk: nat, blocks: seq<nat>): Slab {
    s.(head := HeadOf(blocks + s.blocks), len := s.len + |blocks|, totalBlocks := s.totalBlocks + |blocks|,
       blocks := blocks + s.blocks, chunks := s.chunks + {chunk})
  }

  /** A slab whose list is empty, after the blocks of a new chunk were put on it. */
  function Refilled(s: Slab, chunk: nat, blocks: seq<nat>): Slab {
    s.(head := HeadOf(blocks), len := |blocks|, totalBlocks := s.totalBlocks + |blocks|, blocks := blocks,
       chunks := s.chunks + {chunk})
  }

  lemma RefillOk(links: Links, links': Links, s: Slab, chunk: nat, blocks: seq<nat>)
    requires SlabOk(links, s) && s.blocks == []
    requires Chain(links', HeadOf(blocks), blocks) && |blocks| == SET_SIZE
    requires forall b | b in blocks :: InChunk(chunk, s.size, b)
    requires forall b | b in s.live :: !InChunk(chunk, s.size, b)
    ensures SlabOk(links', Refilled(s, chunk, blocks))
  {
    var s' := Refilled(s, chunk, blocks);
    forall b | b in s.live ensures InChunks(s'.chunks, s'.size, b) {
      var a :| a in s.chunks && InChunk(a, s.size, b);
      assert a in s'.chunks;
    }
  }

  lemma SlabFrame(links: Links, links': Links, s: Slab)
    requires SlabOk(links, s) && forall b | b in s.blocks :: b in links && b in links' && links'[b] == links[b]
    ensures SlabOk(links', s)
  {
    ChainFrame(links, links', s.head, s.blocks);
  }
}
