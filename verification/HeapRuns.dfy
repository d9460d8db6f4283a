/** Whole runs of the heap: what every reachable heap keeps, and where every byte is. */
module HeapRuns {
  import opened Common
  import opened SlabSpec
  import opened HeapSpec

  /** What can happen to a heap. A slab allocation is a block taken, after a refill if need be. */
  datatype Event =
    | TakeBlock(class_: nat)
    | RefillClass(class_: nat, chunk: nat, blocks: seq<nat>, links: Links)
    | GiveBlock(class_: nat, start: nat)
    | TakeBig(start: nat, layout: Layout)
    | GiveBig(start: nat)
    | ClientWrite(piece: Piece, address: nat, content: Option<nat>)
    | AddMemory(bytes: nat)

  /** The buddy heap's contract for grants, and the callers' for what they give back and write. */
  ghost predicate Legal(h: Heap, e: Event)
    requires |h.slabs| == CLASSES
  {
    match e
    case TakeBlock(c) => c < CLASSES && h.slabs[c].blocks != []
    case RefillClass(c, chunk, blocks, links) => RefillArgs(h, c, chunk, blocks, links)
    case GiveBlock(c, b) => c < CLASSES && b in h.slabs[c].live
    case TakeBig(a, l) => Grantable(h, a, Charge(l.size, l.align), l.align)
    case GiveBig(a) => a in h.big
    case ClientWrite(p, x, _) =>
      Exists(h, p) && (p.Block? ==> p.start in h.slabs[p.class_].live) && p.start <= x < p.start + Size(h, p)
    case AddMemory(_) => true
  }

  ghost function Next(h: Heap, e: Event): Heap
    requires HeapOk(h) && Legal(h, e)
  {
    match e
    case TakeBlock(c) => PopBlock(h, c)
    case RefillClass(c, chunk, blocks, links) => Refill(h, c, chunk, blocks, links)
    case GiveBlock(c, b) => PushBlock(h, c, b)
    case TakeBig(a, l) => GrantBig(h, a, l)
    case GiveBig(a) => ReleaseBigOk(h, a); ReleaseBig(h, a)
    case ClientWrite(_, x, content) => h.(links := h.links[x := content])
    case AddMemory(n) => h.(total := h.total + n)
  }

  lemma NextOk(h: Heap, e: Event)
    requires HeapOk(h) && Legal(h, e)
    ensures HeapOk(Next(h, e))
  {
    match e
    case TakeBlock(c) => PopBlockOk(h, c);
    case RefillClass(c, chunk, blocks, links) => RefillHeapOk(h, c, chunk, blocks, links);
    case GiveBlock(c, b) => PushBlockOk(h, c, b);
    case TakeBig(a, l) => GrantBigOk(h, a, l);
    case GiveBig(a) => ReleaseBigOk(h, a);
    case ClientWrite(p, x, content) => ClientWriteOk(h, p, x, content);
    case AddMemory(n) => MoreMemoryOk(h, n);
  }

  /** What the buddy heap charges for the regions that callers hold directly. */
  ghost function Charges(big: map<nat, Layout>): map<nat, nat> {
    map a | a in big :: Charge(big[a].size, big[a].align)
  }

  /** Every charged byte is in a block of some slab or in a region that a caller holds. */
  ghost predicate Balanced(h: Heap) {
    h.actual == TotalBlocks(h.slabs) + Sum(Charges(h.big))
  }

  lemma {:induction false} TotalBlocksUpdate(slabs: seq<Slab>, c: nat, s: Slab)
    requires c < |slabs| && s.size == slabs[c].size
    ensures TotalBlocks(slabs[c := s]) == TotalBlocks(slabs) + (s.totalBlocks - slabs[c].totalBlocks) * s.size
  {
    var n := |slabs| - 1;
    if c == n {
      assert slabs[c := s][..n] == slabs[..n];
      assert s.totalBlocks * s.size == slabs[c].totalBlocks * s.size + (s.totalBlocks - slabs[c].totalBlocks) * s.size;
    } else {
      assert slabs[c := s][..n] == slabs[..n][c := s];
      TotalBlocksUpdate(slabs[..n], c, s);
    }
  }

  /** Moving blocks within a class leaves the charged bytes alone. */
  lemma SameBlocksBalanced(h: Heap, c: nat, s: Slab, links: Links)
    requires Balanced(h) && c < |h.slabs| && s.size == h.slabs[c].size && s.totalBlocks == h.slabs[c].totalBlocks
    ensures Balanced(WithSlab(h, c, s, links))
  {
    TotalBlocksUpdate(h.slabs, c, s);
  }

  lemma RefillBalanced(h: Heap, c: nat, chunk: nat, blocks: seq<nat>, links: Links)
    requires Balanced(h) && c < |h.slabs| && h.slabs[c].size == ClassSize(c) && |blocks| == SET_SIZE
    ensures Balanced(Refill(h, c, chunk, blocks, links))
  {
    TotalBlocksUpdate(h.slabs, c, Refilled(h.slabs[c], chunk, blocks));
  }

  lemma TakeBigBalanced(h: Heap, a: nat, l: Layout)
    requires Balanced(h) && a !in h.big
    ensures Balanced(GrantBig(h, a, l))
  {
    assert Charges(h.big[a := l]) == Charges(h.big)[a := Charge(l.size, l.align)];
    SumWith(Charges(h.big), a, Charge(l.size, l.align));
  }

  lemma GiveBigBalanced(h: Heap, a: nat)
    requires Balanced(h) && a in h.big && a in h.regions && h.regions[a] <= h.actual
    requires h.regions[a] == Charge(h.big[a].size, h.big[a].align)
    ensures Balanced(ReleaseBig(h, a))
  {
    assert Charges(h.big - {a}) == Charges(h.big) - {a};
    SumWithout(Charges(h.big), a);
  }

  lemma NextBalanced(h: Heap, e: Event)
    requires HeapOk(h) && Legal(h, e) && Balanced(h)
    ensures Balanced(Next(h, e))
  {
    match e
    case TakeBlock(c) => SameBlocksBalanced(h, c, Popped(h.slabs[c]), PopBlock(h, c).links);
    case RefillClass(c, chunk, blocks, links) => RefillBalanced(h, c, chunk, blocks, links);
    case GiveBlock(c, b) => SameBlocksBalanced(h, c, Pushed(h.slabs[c], b), PushBlock(h, c, b).links);
    case TakeBig(a, l) => TakeBigBalanced(h, a, l);
    case GiveBig(a) => ReleaseBigOk(h, a); GiveBigBalanced(h, a);
    case ClientWrite(_, _, _) =>
    case AddMemory(_) =>
  }

  ghost predicate LegalRun(h: Heap, es: seq<Event>)
    decreases |es|
  {
    es != [] ==> HeapOk(h) && Legal(h, es[0]) && LegalRun(Next(h, es[0]), es[1..])
  }

  ghost function Run(h: Heap, es: seq<Event>): Heap
    requires LegalRun(h, es)
    decreases |es|
  {
    if es == [] then h else Run(Next(h, es[0]), es[1..])
  }

  /** At the end of every legal run the heap is sound and its bytes are accounted for. */
  lemma {:induction false} RunOk(h: Heap, es: seq<Event>)
    requires HeapOk(h) && Balanced(h) && LegalRun(h, es)
    ensures HeapOk(Run(h, es)) && Balanced(Run(h, es))
    decreases |es|
  {
    if es != [] {
      NextOk(h, es[0]);
      NextBalanced(h, es[0]);
      RunOk(Next(h, es[0]), es[1..]);
    }
  }

  ghost predicate EmptyHeap(h: Heap) {
    && |h.slabs| == CLASSES && (forall c | 0 <= c < CLASSES :: h.slabs[c] == EmptySlab(c))
    && h.regions == map[] && h.big == map[] && h.actual == 0
  }

  lemma {:induction false} NoBlocks(slabs: seq<Slab>)
    requires forall c | 0 <= c < |slabs| :: slabs[c].totalBlocks == 0
    ensures TotalBlocks(slabs) == 0
  {
    if slabs != [] {
      NoBlocks(slabs[..|slabs| - 1]);
    }
  }

  /**
   * From an empty heap on, whatever the run: the available bytes are exactly those of the heap that
   * no caller holds, although refilled chunks are counted twice in both the total and the used bytes.
   */
  lemma AvailableIsUnheld(h: Heap, es: seq<Event>)
    requires EmptyHeap(h) && LegalRun(h, es)
    ensures var t := Run(h, es);
            AvailableBytes(t) == t.total - LiveBytes(t.slabs) - Sum(Charges(t.big)) >= 0
  {
    EmptyHeapOk(h);
    NoBlocks(h.slabs);
    RunOk(h, es);
    var t := Run(h, es);
    AvailableIs(t);
    TotalIsUsedAndFree(t.slabs);
    forall c | 0 <= c < |t.slabs| ensures t.slabs[c].totalBlocks == t.slabs[c].len + |t.slabs[c].live| {
      assert SlabOk(t.links, t.slabs[c]);
    }
    UsedIsLive(t.slabs);
  }

  /** And no two pieces, held or free, of whatever class, overlap. */
  lemma RunPiecesApart(h: Heap, es: seq<Event>, p: Piece, q: Piece)
    requires EmptyHeap(h) && LegalRun(h, es) && p != q
    requires Exists(Run(h, es), p) && Exists(Run(h, es), q)
    ensures var t := Run(h, es); Apart(p.start, Size(t, p), q.start, Size(t, q))
  {
    EmptyHeapOk(h);
    NoBlocks(h.slabs);
    RunOk(h, es);
    PiecesApart(Run(h, es), p, q);
  }
}
