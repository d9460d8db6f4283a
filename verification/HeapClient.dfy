/** Whole runs of a client that allocates and gives back, on the heap object itself. */
module HeapClient {
  import opened Common
  import opened SlabSpec
  import opened HeapSpec
  import opened SlabAllocator

  /** A stand-in for the buddy heap that never gives out an address twice; it may refuse at any time.
      Clients see no more than the contract of `Offer`. */
  class Buddy {
    var next: nat

    constructor (start: nat)
      ensures next == start
    {
      next := start;
    }

    ghost predicate Covers(h: Heap)
      reads this
    {
      forall r | r in h.regions :: r < next && r + h.regions[r] <= next
    }

    method Offer(n: nat, align: nat, actual: nat, total: nat, ghost h: Heap) returns (answer: Option<nat>)
      requires Covers(h) && n > 0 && align > 0 && actual == h.actual && total == h.total
      modifies this
      ensures Covers(h)
      ensures answer.Some? ==> Grantable(h, answer.value, n, align) && answer.value + n <= next
    {
      var refuse: bool := *;
      if refuse || actual + n > total {
        return None;
      }
      var a := RoundUp(next, align);
      next := a + n;
      return Some(a);
    }
  }

  function RoundUp(x: nat, m: nat): (r: nat)
    requires m > 0
    ensures r >= x && r % m == 0
  {
    var q := (x + m - 1) / m;
    MultipleRemainder(q, m);
    assert x + m - 1 == q * m + (x + m - 1) % m;
    q * m
  }

  /** A piece the client holds, with the layout it asked for. */
  datatype Held = Held(ptr: nat, size: nat, align: nat)

  /** What the piece takes from the heap: the block of its class, or its power-of-two charge. */
  function Cost(e: Held): nat {
    match ClassOf(e.size, e.align)
    case Some(c) => ClassSize(c)
    case None => Charge(e.size, e.align)
  }

  function Costs(held: seq<Held>): nat {
    if held == [] then 0 else Costs(held[..|held| - 1]) + Cost(held[|held| - 1])
  }

  function Without(held: seq<Held>, i: nat): seq<Held>
    requires i < |held|
  {
    held[..i] + held[i + 1..]
  }

  lemma {:induction false} CostsWithout(held: seq<Held>, i: nat)
    requires i < |held|
    ensures Costs(Without(held, i)) == Costs(held) - Cost(held[i])
  {
    var n := |held| - 1;
    if i < n {
      CostsWithout(held[..n], i);
      assert Without(held, i)[..n - 1] == Without(held[..n], i);
      assert Without(held, i)[n - 1] == held[n];
    } else {
      assert Without(held, i) == held[..n];
    }
  }

  function PieceOf(e: Held): Piece {
    match ClassOf(e.size, e.align)
    case Some(c) => Block(c, e.ptr)
    case None => Big(e.ptr)
  }

  /** The heap knows the piece as one that a caller holds, under the layout it was asked for with. */
  ghost predicate Known(h: Heap, e: Held)
    requires |h.slabs| == CLASSES
  {
    match ClassOf(e.size, e.align)
    case Some(c) => e.ptr in h.slabs[c].live
    case None => e.ptr in h.big && h.big[e.ptr] == Layout(e.size, e.align)
  }

  /** All pieces are known, and no two are the same. */
  ghost predicate Ledger(h: Heap, held: seq<Held>) {
    && |h.slabs| == CLASSES
    && (forall i | 0 <= i < |held| :: Known(h, held[i]))
    && (forall i, j | 0 <= i < j < |held| :: PieceOf(held[i]) != PieceOf(held[j]))
  }

  /** `h'` is `h` with one more piece held, at its cost. */
  ghost predicate Taken(h: Heap, h': Heap, e: Held) {
    && AvailableBytes(h') == AvailableBytes(h) - Cost(e)
    && match ClassOf(e.size, e.align)
       case Some(c) => Allocated(h, h', c, e.ptr)
       case None => h' == GrantBig(h, e.ptr, Layout(e.size, e.align)) && e.ptr !in h.big
  }

  lemma LedgerTake(h: Heap, h': Heap, held: seq<Held>, e: Held)
    requires Ledger(h, held) && Taken(h, h', e)
    ensures Ledger(h', held + [e]) && Costs(held + [e]) == Costs(held) + Cost(e)
  {
    assert (held + [e])[..|held|] == held;
    forall i | 0 <= i < |held| ensures Known(h', held[i]) && PieceOf(held[i]) != PieceOf(e) {
      assert Known(h, held[i]);
    }
  }

  lemma LedgerGive(h: Heap, h': Heap, held: seq<Held>, k: nat)
    requires Ledger(h, held) && k < |held| && |h'.slabs| == CLASSES
    requires match ClassOf(held[k].size, held[k].align)
             case Some(c) => h' == PushBlock(h, c, held[k].ptr)
             case None => h'.slabs == h.slabs && h'.big == h.big - {held[k].ptr}
    ensures Ledger(h', Without(held, k))
  {
    var rest := Without(held, k);
    forall i | 0 <= i < |rest| ensures Known(h', rest[i]) {
      var j := if i < k then i else i + 1;
      assert rest[i] == held[j] && Known(h, held[j]) && PieceOf(held[j]) != PieceOf(held[k]);
    }
    forall i, j | 0 <= i < j < |rest| ensures PieceOf(rest[i]) != PieceOf(rest[j]) {
      assert rest[i] == held[if i < k then i else i + 1] && rest[j] == held[if j < k then j else j + 1];
    }
  }

  datatype Request = Get(size: nat, align: nat) | Free(index: nat)

  /** One allocation: the buddy heap is asked as the allocator would ask it. */
  method Ask(heap: SlabHeap, buddy: Buddy, size: nat, align: nat) returns (r: Option<Held>)
    requires heap.Valid() && PowerOfTwo(align) && buddy.Covers(heap.View())
    modifies heap, heap.mem, heap.slabs, ListsOf(heap.slabs), buddy
    ensures heap.Valid() && buddy.Covers(heap.View())
    ensures r.None? ==> heap.View() == old(heap.View())
    ensures r.Some? ==> Taken(old(heap.View()), heap.View(), r.value)
  {
    var n := Demand(size, align);
    var answer := buddy.Offer(n, DemandAlign(size, align), heap.actual, heap.total, heap.View());
    var p := heap.Allocate(size, align, answer);
    r := if p.None? then None else Some(Held(p.value, size, align));
  }

  method Take(heap: SlabHeap, buddy: Buddy, size: nat, align: nat, held: seq<Held>) returns (now: seq<Held>)
    requires heap.Valid() && PowerOfTwo(align) && buddy.Covers(heap.View()) && Ledger(heap.View(), held)
    modifies heap, heap.mem, heap.slabs, ListsOf(heap.slabs), buddy
    ensures heap.Valid() && buddy.Covers(heap.View()) && Ledger(heap.View(), now)
    ensures AvailableBytes(heap.View()) + Costs(now) == old(AvailableBytes(heap.View())) + Costs(held)
  {
    ghost var h := heap.View();
    var r := Ask(heap, buddy, size, align);
    if r.None? {
      return held;
    }
    LedgerTake(h, heap.View(), held, r.value);
    now := held + [r.value];
  }

  method Give(heap: SlabHeap, buddy: Buddy, held: seq<Held>, k: nat) returns (rest: seq<Held>)
    requires heap.Valid() && k < |held| && buddy.Covers(heap.View()) && Ledger(heap.View(), held)
    modifies heap, heap.mem, heap.slabs, ListsOf(heap.slabs)
    ensures heap.Valid() && buddy.Covers(heap.View())
    ensures Ledger(heap.View(), rest)
    ensures AvailableBytes(heap.View()) + Costs(rest) == old(AvailableBytes(heap.View())) + Costs(held)
  {
    ghost var h := heap.View();
    assert Known(h, held[k]);
    rest := Without(held, k);
    heap.Deallocate(held[k].ptr, held[k].size, held[k].align);
    LedgerGive(h, heap.View(), held, k);
    CostsWithout(held, k);
  }

  /** No two pieces overlap. */
  ghost predicate AllApart(held: seq<Held>) {
    forall i, j | 0 <= i < j < |held| :: Apart(held[i].ptr, Cost(held[i]), held[j].ptr, Cost(held[j]))
  }

  lemma LedgerApart(h: Heap, held: seq<Held>)
    requires HeapOk(h) && Ledger(h, held)
    ensures AllApart(held)
  {
    forall i, j | 0 <= i < j < |held| ensures Apart(held[i].ptr, Cost(held[i]), held[j].ptr, Cost(held[j])) {
      assert Known(h, held[i]) && Known(h, held[j]);
      PiecesApart(h, PieceOf(held[i]), PieceOf(held[j]));
    }
  }

  /** After every run of requests, available_bytes is the heap size less what the held pieces cost,
      and no two held pieces overlap. */
  method Serve(heapSize: nat, start: nat, requests: seq<Request>) returns (held: seq<Held>, available: nat)
    ensures available == heapSize - Costs(held) && AllApart(held)
  {
    var heap := new SlabHeap(heapSize);
    var buddy := new Buddy(start);
    held := [];
    AvailableAtFirst(heap.View());
    for i := 0 to |requests|
      invariant heap.Valid() && fresh(heap) && fresh(heap.mem) && fresh(heap.slabs) && fresh(ListsOf(heap.slabs)) && fresh(buddy)
      invariant buddy.Covers(heap.View()) && Ledger(heap.View(), held)
      invariant AvailableBytes(heap.View()) + Costs(held) == heapSize
    {
      match requests[i] {
        case Get(size, align) =>
          if PowerOfTwo(align) {
            held := Take(heap, buddy, size, align, held);
          }
        case Free(k) =>
          if k < |held| {
            held := Give(heap, buddy, held, k);
          }
      }
    }
    LedgerApart(heap.View(), held);
    available := heap.Available();
  }

  lemma AvailableAtFirst(h: Heap)
    requires |h.slabs| == CLASSES && h.actual == 0 && forall c | 0 <= c < CLASSES :: h.slabs[c] == EmptySlab(c)
    ensures AvailableBytes(h) == h.total
  {
    AvailableIs(h);
    NothingFree(h.slabs);
  }

  lemma {:induction false} NothingFree(slabs: seq<Slab>)
    requires forall c | 0 <= c < |slabs| :: slabs[c].len == 0
    ensures FreeBytes(slabs) == 0
  {
    if slabs != [] {
      NothingFree(slabs[..|slabs| - 1]);
    }
  }
}
