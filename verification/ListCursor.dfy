/** Cursors and iterators over the linked list, and whole runs of list operations. */
module ListCursor {
  import opened LinkedList

  /**
   * `cur` is on position `p` of the list. The n entries are positions 0..n-1 and None is position n,
   * so the n + 1 positions close into a circle of their own.
   */
  ghost predicate On(nodes: seq<Entry>, cur: Entry?, p: nat) {
    p <= |nodes| && cur == if p < |nodes| then nodes[p] else null
  }

  /** The predecessor of position `i` on a circle of `n`. */
  function Pred(i: nat, n: nat): nat { if i > 0 then i - 1 else if n > 0 then n - 1 else 0 }

  /** Where a cursor stands determines its position. */
  lemma OnePosition(nodes: seq<Entry>, cur: Entry?, p: nat, q: nat)
    requires EachOnce(nodes) && On(nodes, cur, p) && On(nodes, cur, q)
    ensures p == q
  {
    assert p < |nodes| && q < |nodes| ==> Apart(nodes, p, q);
  }

  class Cursor {
    const list: List
    var cur: Entry?

    constructor (list: List, cur: Entry?)
      ensures this.list == list && this.cur == cur
    {
      this.list, this.cur := list, cur;
    }

    method MoveNext(ghost p: nat)
      requires list.Valid() && On(list.nodes, cur, p)
      modifies this
      ensures list.Valid() && list.nodes == old(list.nodes)
      ensures On(list.nodes, cur, Succ(p, |list.nodes| + 1))
    {
      var at := cur;
      cur := null;
      if at == null {
        cur := list.first;
      } else if list.first != null {
        assert Edge(list.nodes, p) && Apart(list.nodes, 0, Succ(p, |list.nodes|));
        if at.next != list.first {
          cur := at.next;
        }
      }
    }

    method MovePrev(ghost p: nat)
      requires list.Valid() && On(list.nodes, cur, p)
      modifies this
      ensures list.Valid() && list.nodes == old(list.nodes)
      ensures On(list.nodes, cur, Pred(p, |list.nodes| + 1))
    {
      if list.first == null {
        cur := null;
        return;
      }
      assert p < |list.nodes| ==> Apart(list.nodes, 0, p);
      assert Edge(list.nodes, Pred(p, |list.nodes|));
      var next := list.first;
      if cur != null {
        if cur == list.first {
          cur := null;
          return;
        }
        next := cur;
      }
      assert Edge(list.nodes, |list.nodes| - 1);
      cur := next.prev;
    }

    /** The two moves undo each other, from every position and in either order. */
    method ThereAndBack(forwardFirst: bool, ghost p: nat)
      requires list.Valid() && On(list.nodes, cur, p)
      modifies this
      ensures cur == old(cur)
    {
      if forwardFirst {
        MoveNext(p);
        MovePrev(Succ(p, |list.nodes| + 1));
      } else {
        MovePrev(p);
        MoveNext(Pred(p, |list.nodes| + 1));
      }
    }

    /** Iterator::next: nothing once the cursor is on None, and it then stays there. */
    method Next(ghost p: nat) returns (r: Entry?)
      requires list.Valid() && On(list.nodes, cur, p)
      modifies this
      ensures list.Valid() && list.nodes == old(list.nodes) && r == old(cur)
      ensures On(list.nodes, cur, if p < |list.nodes| then p + 1 else p)
    {
      r := cur;
      if r != null {
        MoveNext(p);
      }
    }

    method NextBack(ghost p: nat) returns (r: Entry?)
      requires list.Valid() && On(list.nodes, cur, p)
      modifies this
      ensures list.Valid() && list.nodes == old(list.nodes) && r == old(cur)
      ensures On(list.nodes, cur, if p < |list.nodes| then Pred(p, |list.nodes| + 1) else p)
    {
      r := cur;
      if r != null {
        MovePrev(p);
      }
    }
  }

  /** Iterating from the front visits every entry once, in order, and then stops. */
  method IterateForward(list: List) returns (visited: seq<Entry>)
    requires list.Valid()
    ensures visited == list.nodes && EachOnce(visited)
  {
    var front := list.Front();
    var c := new Cursor(list, front);
    visited := [];
    ghost var nodes := list.nodes;
    var e := c.Next(0);
    while e != null
      invariant c.list == list && list.Valid() && list.nodes == nodes
      invariant |visited| <= |nodes| && visited == nodes[..|visited|]
      invariant On(nodes, e, |visited|)
      invariant On(nodes, c.cur, if |visited| < |nodes| then |visited| + 1 else |visited|)
      decreases |nodes| - |visited|
    {
      visited := visited + [e];
      e := c.Next(|visited|);
    }
  }

  function Reversed(s: seq<Entry>): (r: seq<Entry>)
    ensures |r| == |s| && forall i | 0 <= i < |r| :: r[i] == s[|s| - 1 - i]
  {
    seq(|s|, i requires 0 <= i < |s| => s[|s| - 1 - i])
  }

  /**
   * Iterating backwards from any position visits exactly that entry and those before it. From the
   * back that is the whole list reversed; from the front, where iter() starts, only the first entry.
   */
  method IterateBackward(list: List, from: Entry?, ghost p: nat) returns (visited: seq<Entry>)
    requires list.Valid() && On(list.nodes, from, p)
    ensures visited == if p < |list.nodes| then Reversed(list.nodes[..p + 1]) else []
  {
    var c := new Cursor(list, from);
    visited := [];
    ghost var nodes := list.nodes;
    ghost var n := if p < |nodes| then p + 1 else 0;
    ghost var all := if p < |nodes| then Reversed(nodes[..n]) else [];
    var e := c.NextBack(p);
    while e != null
      invariant c.list == list && list.Valid() && list.nodes == nodes
      invariant |visited| <= n && visited == all[..|visited|]
      invariant On(nodes, e, if |visited| < n then n - 1 - |visited| else |nodes|)
      invariant On(nodes, c.cur, if |visited| + 1 < n then n - 2 - |visited| else |nodes|)
      decreases n - |visited|
    {
      visited := visited + [e];
      e := c.NextBack(if |visited| < n then n - 1 - |visited| else |nodes|);
    }
  }

  /** The operations a client may ask for, each naming the entries it touches. */
  datatype Op =
    | PushFront(obj: Entry)
    | PushBack(obj: Entry)
    | InsertAfter(existing: Entry, obj: Entry)
    | InsertBefore(existing: Entry, obj: Entry)
    | Remove(entry: Entry)

  /** The safety requirements of the operation: what is inserted is new, what is named is there. */
  predicate Allowed(s: seq<Entry>, op: Op) {
    && (!op.Remove? ==> op.obj !in s)
    && (op.InsertAfter? || op.InsertBefore? ==> op.existing in s)
    && (op.Remove? ==> op.entry in s)
  }

  ghost function IndexOf(s: seq<Entry>, e: Entry): (k: nat)
    requires e in s
    ensures k < |s| && s[k] == e
  {
    var k: nat :| k < |s| && s[k] == e;
    k
  }

  /** What the operation does to the sequence the list denotes. */
  ghost function Edit(s: seq<Entry>, op: Op): seq<Entry>
    requires Allowed(s, op)
  {
    match op
    case PushFront(e) => [e] + s
    case PushBack(e) => s + [e]
    case InsertAfter(x, e) => var k := IndexOf(s, x); s[..k + 1] + [e] + s[k + 1..]
    case InsertBefore(x, e) => var k := IndexOf(s, x); s[..k] + [e] + s[k..]
    case Remove(x) => var k := IndexOf(s, x); s[..k] + s[k + 1..]
  }

  ghost predicate RunAllowed(s: seq<Entry>, ops: seq<Op>)
    decreases |ops|
  {
    ops != [] ==> Allowed(s, ops[0]) && RunAllowed(Edit(s, ops[0]), ops[1..])
  }

  ghost function Edits(s: seq<Entry>, ops: seq<Op>): seq<Entry>
    requires RunAllowed(s, ops)
    decreases |ops|
  {
    if ops == [] then s else Edits(Edit(s, ops[0]), ops[1..])
  }

  lemma TakenOut(s: seq<Entry>, k: nat, e: Entry)
    requires k <= |s| && e !in s
    ensures var t := s[..k] + [e] + s[k..];
            e in t && IndexOf(t, e) == k && t[..k] + t[k + 1..] == s
  {
    var t := s[..k] + [e] + s[k..];
    assert t[k] == e;
    assert forall i | 0 <= i < |t| && i != k :: t[i] in s;
  }

  /** Removal undoes every kind of insertion, whatever the entry was put beside. */
  lemma RemoveUndoes(s: seq<Entry>, op: Op)
    requires Allowed(s, op) && !op.Remove?
    ensures Allowed(Edit(s, op), Remove(op.obj))
    ensures Edit(Edit(s, op), Remove(op.obj)) == s
  {
    var k := match op
      case PushFront(_) => 0
      case PushBack(_) => |s|
      case InsertAfter(x, _) => IndexOf(s, x) + 1
      case InsertBefore(x, _) => IndexOf(s, x);
    assert Edit(s, op) == s[..k] + [op.obj] + s[k..];
    TakenOut(s, k, op.obj);
  }

  function Entries(op: Op): set<Entry> {
    match op
    case PushFront(e) => {e}
    case PushBack(e) => {e}
    case InsertAfter(x, e) => {x, e}
    case InsertBefore(x, e) => {x, e}
    case Remove(x) => {x}
  }

  /** The list and the operation stay within `world`. */
  predicate Within(s: seq<Entry>, op: Op, world: set<Entry>) {
    Entries(op) <= world && forall e | e in s :: e in world
  }

  method Perform(list: List, op: Op, ghost world: set<Entry>)
    requires list.Valid() && Allowed(list.nodes, op) && Within(list.nodes, op, world)
    modifies list, world
    ensures list.Valid() && list.nodes == Edit(old(list.nodes), op)
    ensures forall e | e in list.nodes :: e in world
  {
    match op
    case PushFront(e) => list.PushFront(e);
    case PushBack(e) => list.PushBack(e);
    case InsertAfter(x, e) => list.InsertAfter(x, e, IndexOf(list.nodes, x));
    case InsertBefore(x, e) => list.InsertBefore(x, e, IndexOf(list.nodes, x));
    case Remove(x) => list.Remove(x, IndexOf(list.nodes, x));
  }

  /** Over every allowed run the links denote the edited sequence. */
  method Run(list: List, ops: seq<Op>, ghost world: set<Entry>)
    requires list.Valid() && RunAllowed(list.nodes, ops)
    requires forall e | e in list.nodes :: e in world
    requires forall i | 0 <= i < |ops| :: Entries(ops[i]) <= world
    modifies list, world
    ensures list.Valid() && list.nodes == Edits(old(list.nodes), ops)
  {
    for i := 0 to |ops|
      invariant list.Valid() && (forall e | e in list.nodes :: e in world)
      invariant RunAllowed(list.nodes, ops[i..])
      invariant Edits(list.nodes, ops[i..]) == Edits(old(list.nodes), ops)
    {
      assert ops[i..][0] == ops[i] && ops[i..][1..] == ops[i + 1..];
      Perform(list, ops[i], world);
    }
  }

  /** Whatever the run, walking the links either way reads the edited sequence. */
  method RunAndWalk(list: List, ops: seq<Op>, ghost world: set<Entry>)
    returns (forth: seq<Entry>, back: seq<Entry>)
    requires list.Valid() && RunAllowed(list.nodes, ops)
    requires forall e | e in list.nodes :: e in world
    requires forall i | 0 <= i < |ops| :: Entries(ops[i]) <= world
    modifies list, world
    ensures forth == Edits(old(list.nodes), ops) && back == Reversed(forth) && EachOnce(forth)
  {
    Run(list, ops, world);
    forth := IterateForward(list);
    var last := list.Back();
    ghost var n := |list.nodes|;
    back := IterateBackward(list, last, if n == 0 then 0 else n - 1);
    assert n > 0 ==> list.nodes[..n] == list.nodes;
  }
}
