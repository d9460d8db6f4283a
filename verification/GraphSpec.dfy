/** Walks in a graph given by adjacency lists, and what a search has to find. */
module GraphSpec {
  import opened Common

  type Adjacency = seq<seq<nat>>

  predicate Edge(adj: Adjacency, u: nat, v: nat) {
    u < |adj| && v in adj[u]
  }

  /** Every listed neighbour is a vertex. */
  ghost predicate InRange(adj: Adjacency) {
    forall u: nat, v: nat | Edge(adj, u, v) :: v < |adj|
  }

  ghost predicate Symmetric(adj: Adjacency) {
    forall u: nat, v: nat | Edge(adj, u, v) :: Edge(adj, v, u)
  }

  /** There is a walk of `k` edges from `s` to `v`. */
  ghost predicate Steps(adj: Adjacency, s: nat, v: nat, k: nat)
    decreases k
  {
    if k == 0 then v == s else exists u: nat :: Steps(adj, s, u, k - 1) && Edge(adj, u, v)
  }

  ghost predicate Reachable(adj: Adjacency, s: nat, v: nat) {
    exists k: nat :: Steps(adj, s, v, k)
  }

  /** `k` is the length of a shortest walk. */
  ghost predicate Distance(adj: Adjacency, s: nat, v: nat, k: nat) {
    Steps(adj, s, v, k) && forall j: nat | j < k :: !Steps(adj, s, v, j)
  }

  predicate Vertices(s: seq<nat>, n: nat) {
    forall i | 0 <= i < |s| :: s[i] < n
  }

  lemma TakeOut(s: seq<nat>, k: nat, n: nat)
    requires Distinct(s) && Vertices(s, n) && k < |s| && s[k] == n - 1
    ensures var t := s[..k] + s[k + 1..];
            Distinct(t) && Vertices(t, n - 1) && |t| == |s| - 1 && forall v | v in t :: v in s
  {
    var t := s[..k] + s[k + 1..];
    assert forall i | 0 <= i < |t| :: t[i] == s[if i < k then i else i + 1];
  }

  /** Distinct vertices are no more than there are, and as many only when they are all. */
  lemma {:induction false} Pigeonhole(s: seq<nat>, n: nat)
    requires Distinct(s) && Vertices(s, n)
    ensures |s| <= n
    ensures |s| == n ==> forall v: nat | v < n :: v in s
  {
    if s == [] {
      return;
    }
    assert s[0] < n;
    if n - 1 in s {
      var k :| 0 <= k < |s| && s[k] == n - 1;
      TakeOut(s, k, n);
      Pigeonhole(s[..k] + s[k + 1..], n - 1);
    } else {
      assert Vertices(s, n - 1) by {
        forall i | 0 <= i < |s| ensures s[i] < n - 1 {
          assert s[i] in s;
        }
      }
      Pigeonhole(s, n - 1);
    }
  }

  /** Everything reachable lies in any set that holds the start and keeps to its edges. */
  lemma {:induction false} ClosedHoldsReachable(adj: Adjacency, s: nat, all: seq<nat>, v: nat, k: nat)
    requires s in all && Steps(adj, s, v, k)
    requires forall u: nat, w: nat | u in all && Edge(adj, u, w) :: w in all
    ensures v in all
    decreases k
  {
    if k > 0 {
      var u: nat :| Steps(adj, s, u, k - 1) && Edge(adj, u, v);
      ClosedHoldsReachable(adj, s, all, u, k - 1);
    }
  }

  lemma OneMore(adj: Adjacency, s: nat, u: nat, v: nat, k: nat)
    requires Steps(adj, s, u, k) && Edge(adj, u, v)
    ensures Steps(adj, s, v, k + 1)
  {
  }

  lemma {:induction false} FromFront(adj: Adjacency, s: nat, u: nat, v: nat, k: nat)
    requires Edge(adj, s, u) && Steps(adj, u, v, k)
    ensures Steps(adj, s, v, k + 1)
    decreases k
  {
    if k == 0 {
      assert Steps(adj, s, s, 0);
    } else {
      var w: nat :| Steps(adj, u, w, k - 1) && Edge(adj, w, v);
      FromFront(adj, s, u, w, k - 1);
    }
  }

  /** In an undirected graph every walk can be walked back. */
  lemma {:induction false} WalkBack(adj: Adjacency, s: nat, v: nat, k: nat)
    requires Symmetric(adj) && Steps(adj, s, v, k)
    ensures Steps(adj, v, s, k)
    decreases k
  {
    if k > 0 {
      var u: nat :| Steps(adj, s, u, k - 1) && Edge(adj, u, v);
      WalkBack(adj, s, u, k - 1);
      FromFront(adj, v, u, s, k - 1);
    }
  }

  /** `found` lists every vertex reachable from `s` once, and nothing else. */
  ghost predicate Finds(adj: Adjacency, s: nat, found: seq<nat>) {
    && Distinct(found)
    && forall v: nat :: v in found <==> Reachable(adj, s, v)
  }

  lemma {:induction false} Chained(adj: Adjacency, s: nat, v: nat, w: nat, j: nat, k: nat)
    requires Steps(adj, s, v, j) && Steps(adj, v, w, k)
    ensures Steps(adj, s, w, j + k)
    decreases k
  {
    if k > 0 {
      var u: nat :| Steps(adj, v, u, k - 1) && Edge(adj, u, w);
      Chained(adj, s, v, u, j, k - 1);
    }
  }

  lemma ReachableThrough(adj: Adjacency, s: nat, v: nat, w: nat)
    requires Reachable(adj, s, v) && Reachable(adj, v, w)
    ensures Reachable(adj, s, w)
  {
    var j: nat :| Steps(adj, s, v, j);
    var k: nat :| Steps(adj, v, w, k);
    Chained(adj, s, v, w, j, k);
  }

  /** Two searches, of either kind, find the same vertices when one starts among what the other finds. */
  lemma SameComponent(adj: Adjacency, s: nat, v: nat, a: seq<nat>, b: seq<nat>)
    requires Symmetric(adj) && Finds(adj, s, a) && Finds(adj, v, b) && v in a
    ensures forall w :: w in a <==> w in b
  {
    var k: nat :| Steps(adj, s, v, k);
    WalkBack(adj, s, v, k);
    forall w: nat ensures w in a <==> w in b {
      if w in a { ReachableThrough(adj, v, s, w); }
      if w in b { ReachableThrough(adj, s, v, w); }
    }
  }

  /** `found` with its labels: each label is the true distance, and they never go down. */
  ghost predicate ByDistance(adj: Adjacency, s: nat, found: seq<nat>, dist: seq<nat>) {
    && |found| == |dist|
    && (forall i {:trigger found[i]} | 0 <= i < |found| :: Distance(adj, s, found[i], dist[i]))
    && (forall i, j | 0 <= i <= j < |dist| :: dist[i] <= dist[j])
  }

  /** All neighbours of the first `m` are there. */
  ghost predicate Processed(adj: Adjacency, all: seq<nat>, m: nat)
    requires m <= |all|
  {
    forall i, w: nat {:trigger Edge(adj, all[i], w)} | 0 <= i < m && Edge(adj, all[i], w) :: w in all
  }

  /** Whatever is no further than the head of the queue has been seen. */
  lemma {:induction false} NearSeen(adj: Adjacency, s: nat, all: seq<nat>, dist: seq<nat>, m: nat, v: nat, k: nat)
    requires s in all && ByDistance(adj, s, all, dist) && m < |all| && Processed(adj, all, m)
    requires Steps(adj, s, v, k) && k <= dist[m]
    ensures v in all
    decreases k
  {
    if k > 0 {
      var u: nat :| Steps(adj, s, u, k - 1) && Edge(adj, u, v);
      NearSeen(adj, s, all, dist, m, u, k - 1);
      var i :| 0 <= i < |all| && all[i] == u;
      assert dist[i] <= k - 1;
      assert Edge(adj, all[i], v);
    }
  }

  /** So a neighbour of the head seen for the first time is exactly one step further. */
  lemma Discovered(adj: Adjacency, s: nat, all: seq<nat>, dist: seq<nat>, m: nat, w: nat)
    requires s in all && ByDistance(adj, s, all, dist) && m < |all| && Processed(adj, all, m)
    requires Edge(adj, all[m], w) && w !in all
    ensures Distance(adj, s, w, dist[m] + 1)
  {
    OneMore(adj, s, all[m], w, dist[m]);
    forall j: nat | j < dist[m] + 1
      ensures !Steps(adj, s, w, j)
    {
      if Steps(adj, s, w, j) {
        NearSeen(adj, s, all, dist, m, w, j);
      }
    }
  }
}
