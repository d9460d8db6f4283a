/** The intrusive circular doubly-linked list: its links, and the sequence they denote. */
module LinkedList {

  /** An entry with its links; they mean something only while it is in a list. */
  class Entry {
    var next: Entry?
    var prev: Entry?

    constructor ()
    {
      next, prev := null, null;
    }
  }

  /** The successor of position `i` on a circle of `n`. */
  function Succ(i: nat, n: nat): nat { if i + 1 < n then i + 1 else 0 }

  /** The edge leaving position `i` is there in both directions. */
  ghost predicate Edge(nodes: seq<Entry>, i: nat)
    requires i < |nodes|
    reads nodes
  {
    && nodes[i].next == nodes[Succ(i, |nodes|)]
    && nodes[Succ(i, |nodes|)].prev == nodes[i]
  }

  /** The links of `nodes` make one circle in this order, in both directions. */
  ghost predicate Circle(nodes: seq<Entry>)
    reads nodes
  {
    forall i: nat {:trigger Edge(nodes, i)} | i < |nodes| :: Edge(nodes, i)
  }

  predicate Apart(nodes: seq<Entry>, i: nat, j: nat)
    requires i < |nodes| && j < |nodes|
  {
    i != j ==> nodes[i] != nodes[j]
  }

  predicate EachOnce(nodes: seq<Entry>) {
    forall i: nat, j: nat {:trigger Apart(nodes, i, j)} | i < |nodes| && j < |nodes| :: Apart(nodes, i, j)
  }

  /** `e` put right after position `k`. */
  function Inserted(s: seq<Entry>, k: nat, e: Entry): seq<Entry>
    requires k < |s|
  {
    s[..k + 1] + [e] + s[k + 1..]
  }

  function Removed(s: seq<Entry>, k: nat): seq<Entry>
    requires k < |s|
  {
    s[..k] + s[k + 1..]
  }

  lemma InsertedDistinct(s: seq<Entry>, k: nat, e: Entry)
    requires k < |s| && EachOnce(s) && e !in s
    ensures EachOnce(Inserted(s, k, e))
  {
    forall i: nat, j: nat | i <= |s| && j <= |s| ensures Apart(Inserted(s, k, e), i, j) {
      var a, b := if i <= k then i else i - 1, if j <= k then j else j - 1;
      assert a < |s| && b < |s| ==> Apart(s, a, b);
    }
  }

  lemma RemovedDistinct(s: seq<Entry>, k: nat)
    requires k < |s| && EachOnce(s)
    ensures EachOnce(Removed(s, k)) && s[k] !in Removed(s, k)
  {
    forall i: nat, j: nat | i < |s| - 1 && j < |s| - 1 ensures Apart(Removed(s, k), i, j) {
      assert Apart(s, if i < k then i else i + 1, if j < k then j else j + 1);
    }
    forall i: nat | i < |s| - 1 ensures Removed(s, k)[i] != s[k] {
      assert Apart(s, if i < k then i else i + 1, k);
    }
  }

  class List {
    var first: Entry?
    ghost var nodes: seq<Entry>

    ghost predicate Valid()
      reads this, nodes
    {
      && EachOnce(nodes) && Circle(nodes)
      && first == if nodes == [] then null else nodes[0]
    }

    constructor ()
      ensures Valid() && nodes == []
    {
      first, nodes := null, [];
    }

    method IsEmpty() returns (r: bool)
      requires Valid()
      ensures r <==> nodes == []
    {
      r := first == null;
    }

    method InsertOnlyEntry(obj: Entry)
      requires Valid() && nodes == []
      modifies this, obj
      ensures Valid() && nodes == [obj]
    {
      obj.next, obj.prev := obj, obj;
      first := obj;
      nodes := [obj];
    }

    /** The three link updates of insert_after; `nodes` is left to the caller. */
    method LinkAfter(existing: Entry, obj: Entry, ghost k: nat)
      requires EachOnce(nodes) && Circle(nodes)
      requires k < |nodes| && nodes[k] == existing && obj !in nodes
      modifies nodes, obj
      ensures Circle(Inserted(nodes, k, obj))
    {
      ghost var n := |nodes|;
      ghost var now := Inserted(nodes, k, obj);
      assert Edge(nodes, k);
      var next := existing.next;
      obj.next, obj.prev := next, existing;
      existing.next := obj;
      next.prev := obj;
      forall i: nat | i < n + 1
        ensures Edge(now, i)
      {
        if i == k || i == k + 1 {
        } else {
          var j := if i < k then i else i - 1;
          assert now[i] == nodes[j] && now[Succ(i, n + 1)] == nodes[Succ(j, n)];
          assert old(Edge(nodes, j));
          assert Apart(nodes, j, k) && Apart(nodes, Succ(j, n), Succ(k, n));
        }
      }
    }

    method InsertAfter(existing: Entry, obj: Entry, ghost k: nat)
      requires Valid() && k < |nodes| && nodes[k] == existing && obj !in nodes
      modifies this, nodes, obj
      ensures Valid() && nodes == old(nodes)[..k + 1] + [obj] + old(nodes)[k + 1..]
    {
      LinkAfter(existing, obj, k);
      InsertedDistinct(nodes, k, obj);
      nodes := Inserted(nodes, k, obj);
    }

    method InsertBefore(existing: Entry, obj: Entry, ghost k: nat)
      requires Valid() && k < |nodes| && nodes[k] == existing && obj !in nodes
      modifies this, nodes, obj
      ensures Valid() && nodes == old(nodes)[..k] + [obj] + old(nodes)[k..]
    {
      ghost var was, p := nodes, if k == 0 then |nodes| - 1 else k - 1;
      assert Edge(nodes, p) && Apart(nodes, 0, k);
      InsertAfter(existing.prev, obj, p);
      if first == existing {
        assert nodes == was + [obj];
        Rotated(was, obj);
        first := obj;
        nodes := [obj] + was;
      }
    }

    method PushBack(obj: Entry)
      requires Valid() && obj !in nodes
      modifies this, nodes, obj
      ensures Valid() && nodes == old(nodes) + [obj]
    {
      if first != null {
        assert Edge(nodes, |nodes| - 1);
        InsertAfter(first.prev, obj, |nodes| - 1);
      } else {
        InsertOnlyEntry(obj);
      }
    }

    method PushFront(obj: Entry)
      requires Valid() && obj !in nodes
      modifies this, nodes, obj
      ensures Valid() && nodes == [obj] + old(nodes)
    {
      if first != null {
        InsertBefore(first, obj, 0);
      } else {
        InsertOnlyEntry(obj);
      }
    }

    /** The two link updates that take position `k` out of a circle of several. */
    method Unlink(next: Entry, prev: Entry, ghost k: nat)
      requires EachOnce(nodes) && Circle(nodes) && k < |nodes| && |nodes| > 1
      requires next == nodes[k].next && prev == nodes[k].prev
      modifies nodes
      ensures Circle(Removed(nodes, k))
    {
      ghost var n, p := |nodes|, if k == 0 then |nodes| - 1 else k - 1;
      ghost var now := Removed(nodes, k);
      assert Edge(nodes, k) && Edge(nodes, p);
      prev.next := next;
      next.prev := prev;
      forall i: nat | i < n - 1
        ensures Edge(now, i)
      {
        var j := if i < k then i else i + 1;
        assert now[i] == nodes[j];
        if j == p {
          assert now[Succ(i, n - 1)] == nodes[Succ(k, n)];
        } else {
          assert now[Succ(i, n - 1)] == nodes[Succ(j, n)];
          assert old(Edge(nodes, j));
          assert Apart(nodes, j, p) && Apart(nodes, Succ(j, n), Succ(k, n));
        }
      }
    }

    method Remove(entry: Entry, ghost k: nat)
      requires Valid() && k < |nodes| && nodes[k] == entry
      modifies this, nodes
      ensures Valid() && nodes == old(nodes)[..k] + old(nodes)[k + 1..]
    {
      assert Edge(nodes, k) && Edge(nodes, if k == 0 then |nodes| - 1 else k - 1);
      assert Apart(nodes, k, Succ(k, |nodes|)) && Apart(nodes, 0, k);
      var next, prev := entry.next, entry.prev;
      if next == entry {
        first := null;
      } else {
        Unlink(next, prev, k);
        if first == entry {
          first := next;
        }
      }
      RemovedDistinct(nodes, k);
      nodes := Removed(nodes, k);
    }

    method Front() returns (r: Entry?)
      requires Valid()
      ensures r == if nodes == [] then null else nodes[0]
    {
      r := first;
    }

    method Back() returns (r: Entry?)
      requires Valid()
      ensures r == if nodes == [] then null else nodes[|nodes| - 1]
    {
      assert nodes != [] ==> Edge(nodes, |nodes| - 1);
      r := if first == null then null else first.prev;
    }
  }

  /** A circle may be read from any of its entries. */
  lemma Rotated(s: seq<Entry>, e: Entry)
    requires EachOnce(s + [e]) && Circle(s + [e])
    ensures EachOnce([e] + s) && Circle([e] + s)
  {
    var a, b, n := s + [e], [e] + s, |s| + 1;
    forall i: nat | i < n ensures Edge(b, i) {
      assert Edge(a, if i == 0 then n - 1 else i - 1);
    }
    forall i: nat, j: nat | i < n && j < n ensures Apart(b, i, j) {
      assert Apart(a, if i == 0 then n - 1 else i - 1, if j == 0 then n - 1 else j - 1);
    }
  }
}
