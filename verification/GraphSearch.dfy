/** The two graph searches. */
module GraphSearch {
  import opened Common
  import opened GraphSpec

  class Graph {
    var adj: Adjacency

    ghost predicate Valid()
      reads this
    {
      InRange(adj) && Symmetric(adj)
    }

    constructor (n: nat)
      ensures Valid() && |adj| == n && forall u: nat, v: nat :: !Edge(adj, u, v)
    {
      adj := seq(n, _ => []);
    }

    method AddEdge(src: nat, dest: nat)
      requires Valid() && src < |adj| && dest < |adj|
      modifies this
      ensures Valid() && |adj| == |old(adj)|
      ensures forall u: nat | u < |adj| ::
                adj[u] == old(adj)[u] + (if u == src then [dest] else []) + (if u == dest then [src] else [])
      ensures forall u: nat, v: nat :: Edge(adj, u, v) <==>
        Edge(old(adj), u, v) || (u == src && v == dest) || (u == dest && v == src)
    {
      adj := adj[src := adj[src] + [dest]];
      adj := adj[dest := adj[dest] + [src]];
      assert forall u: nat, v: nat :: Edge(adj, u, v) <==>
        Edge(old(adj), u, v) || (u == src && v == dest) || (u == dest && v == src);
    }

    /** The inner loop: queue the neighbours of `node` not seen before. */
    method QueueNeighbours(node: nat, visited0: seq<bool>, queue0: seq<nat>,
                           ghost start: nat, ghost order: seq<nat>, ghost dist0: seq<nat>)
      returns (visited: seq<bool>, queue: seq<nat>, ghost dist: seq<nat>)
      requires Valid() && order != [] && order[|order| - 1] == node
      requires BfsInv(adj, start, visited0, order + queue0, dist0)
      requires Frontier(adj, order + queue0, dist0, |order| - 1) && BreadthFirst(adj, order + queue0)
      ensures BreadthFirst(adj, order + queue)
      ensures BfsInv(adj, start, visited, order + queue, dist)
      ensures Frontier(adj, order + queue, dist, |order| - 1)
      ensures forall w: nat | Edge(adj, node, w) :: w in order + queue
    {
      visited, queue, dist := visited0, queue0, dist0;
      ghost var m, all := |order| - 1, order + queue0;
      assert node == all[m];
      for i := 0 to |adj[node]|
        invariant all == order + queue && m < |all| && all[m] == node
        invariant BfsInv(adj, start, visited, all, dist) && Frontier(adj, all, dist, m)
        invariant Marked(visited, adj[node][..i]) && BreadthFirst(adj, all)
      {
        var next := adj[node][i];
        assert Edge(adj, node, next);
        assert visited[next] ==> Marked(visited, adj[node][..i + 1]) by { MarkNext(visited, adj[node], i); }
        if !visited[next] {
          assert BfsInv(adj, start, visited[next := true], all + [next], dist + [dist[m] + 1])
              && Frontier(adj, all + [next], dist + [dist[m] + 1], m) by {
            Grow(adj, start, visited, all, dist, m, next);
          }
          assert Marked(visited[next := true], adj[node][..i + 1]) by { MarkNext(visited, adj[node], i); }
          assert BreadthFirst(adj, all + [next]) by {
            UnseenNext(adj, node, visited, all, i);
            WiderOrder(adj, all, next);
          }
          visited := visited[next := true];
          queue := queue + [next];
          all := all + [next];
          dist := dist + [dist[m] + 1];
        }
      }
    }

    method BfsWithReturn(start: nat) returns (visitOrder: seq<nat>, ghost dist: seq<nat>)
      requires Valid() && start < |adj|
      ensures Finds(adj, start, visitOrder) && ByDistance(adj, start, visitOrder, dist)
      ensures BreadthFirst(adj, visitOrder) && visitOrder != [] && visitOrder[0] == start
    {
      visitOrder := [];
      var visited := seq(|adj|, _ => false);
      visited := visited[start := true];
      var queue := [start];
      dist := [0];
      assert visitOrder + queue == [start];
      while queue != []
        invariant BfsInv(adj, start, visited, visitOrder + queue, dist)
        invariant BreadthFirst(adj, visitOrder + queue) && (visitOrder + queue)[0] == start
        invariant queue != [] ==> Frontier(adj, visitOrder + queue, dist, |visitOrder|)
        invariant queue == [] ==> Processed(adj, visitOrder, |visitOrder|)
        decreases |adj| - |visitOrder|
      {
        Pigeonhole(visitOrder + queue, |adj|);
        assert (visitOrder + queue)[|visitOrder|] == queue[0];
        assert visitOrder + [queue[0]] + queue[1..] == visitOrder + queue;
        var node := queue[0];
        queue := queue[1..];
        visitOrder := visitOrder + [node];
        visited, queue, dist := QueueNeighbours(node, visited, queue, start, visitOrder, dist);
        Advance(adj, visitOrder, queue, dist);
      }
      assert visitOrder + queue == visitOrder;
      forall v: nat
        ensures v in visitOrder <==> Reachable(adj, start, v)
      {
        AllReached(adj, start, visited, visitOrder, dist, v);
      }
    }

    /** Depth first from `v`; stops looking once every vertex has been seen. */
    method DfsUtil(v: nat, visited: array<bool>, order0: seq<nat>, ghost start: nat) returns (order: seq<nat>)
      requires Valid() && v < |adj| == visited.Length && !visited[v] && Reachable(adj, start, v)
      requires DfsInv(adj, start, visited[..], order0)
      requires DepthFirst(adj, order0) && (order0 == [] || Backtracks(adj, order0, v))
      modifies visited
      ensures DfsInv(adj, start, visited[..], order) && DepthFirst(adj, order)
      ensures order0 + [v] <= order && Closed(adj, order, |order0|)
      decreases |adj| - |order0|
    {
      visited[v] := true;
      order := order0 + [v];
      EnterVertex(adj, start, old(visited[..]), order0, v);
      DeeperOrder(adj, order0, v);
      Pigeonhole(order, |adj|);
      if |order| == |adj| {
        return;
      }
      for i := 0 to |adj[v]|
        invariant DfsInv(adj, start, visited[..], order) && order0 + [v] <= order
        invariant Closed(adj, order, |order0| + 1) && Marked(visited[..], adj[v][..i]) && DepthFirst(adj, order)
      {
        var next := adj[v][i];
        assert Edge(adj, v, next);
        if !visited[next] {
          ReachNext(adj, start, v, next);
          assert order[|order0|] == v;
          UnseenNext(adj, v, visited[..], order, i);
          assert Backtracks(adj, order, next);
          ghost var before, marks := order, visited[..];
          order := DfsUtil(next, visited, order, start);
          ClosedExtends(adj, before, order, |order0| + 1);
          MarkedExtends(marks, visited[..], before, order, adj[v][..i]);
          assert order[|before|] == next;
        }
        MarkNext(visited[..], adj[v], i);
      }
      CloseVertex(adj, visited[..], order, v, |order0|);
    }

    method Dfs(start: nat) returns (order: seq<nat>)
      requires Valid() && start < |adj|
      ensures Finds(adj, start, order) && DepthFirst(adj, order) && order != [] && order[0] == start
    {
      var visited := new bool[|adj|](_ => false);
      assert Steps(adj, start, start, 0);
      order := DfsUtil(start, visited, [], start);
      forall v: nat
        ensures v in order <==> Reachable(adj, start, v)
      {
        if k: nat :| Steps(adj, start, v, k) {
          assert order[0] == start;
          ClosedHoldsReachable(adj, start, order, v, k);
        }
      }
    }
  }

  /** The marks are those of the order so far, which repeats nothing and holds only what can be reached. */
  ghost predicate DfsInv(adj: Adjacency, s: nat, visited: seq<bool>, order: seq<nat>) {
    && Distinct(order) && Vertices(order, |adj|)
    && |visited| == |adj| && (forall v | 0 <= v < |visited| :: visited[v] <==> v in order)
    && (forall v | v in order :: Reachable(adj, s, v))
  }

  /** The neighbours of everything from position `lo` on are there. */
  ghost predicate Closed(adj: Adjacency, order: seq<nat>, lo: nat) {
    forall i, w: nat {:trigger Edge(adj, order[i], w)} | lo <= i < |order| && Edge(adj, order[i], w) :: w in order
  }

  /** `v` is the first neighbour in the list of `u` that is not in `seen`. */
  ghost predicate FirstUnseen(adj: Adjacency, u: nat, seen: seq<nat>, v: nat) {
    u < |adj| && v !in seen && exists j :: 0 <= j < |adj[u]| && adj[u][j] == v && forall w | w in adj[u][..j] :: w in seen
  }

  /** `v` is the first unseen neighbour of the earliest vertex of the order that still has one. */
  ghost predicate QueuedNext(adj: Adjacency, order: seq<nat>, v: nat) {
    exists k :: 0 <= k < |order| && FirstUnseen(adj, order[k], order, v) && Processed(adj, order, k)
  }

  /** A breadth-first order: every vertex but the first is the one that was to be queued next. */
  ghost predicate BreadthFirst(adj: Adjacency, order: seq<nat>) {
    forall b {:trigger order[..b]} | 0 < b < |order| :: QueuedNext(adj, order[..b], order[b])
  }

  lemma WiderOrder(adj: Adjacency, order: seq<nat>, v: nat)
    requires BreadthFirst(adj, order) && QueuedNext(adj, order, v)
    ensures BreadthFirst(adj, order + [v])
  {
    var now := order + [v];
    forall b | 0 < b < |now| ensures QueuedNext(adj, now[..b], now[b]) {
      assert now[..b] == order[..b];
      if b == |order| {
        assert order[..b] == order;
      }
    }
  }

  /** `v` is the first unseen neighbour of the latest vertex of the order that still has one. */
  ghost predicate Backtracks(adj: Adjacency, order: seq<nat>, v: nat) {
    exists k :: 0 <= k < |order| && FirstUnseen(adj, order[k], order, v) && Closed(adj, order, k + 1)
  }

  /** A depth-first order: every vertex but the first came as far down as one could go from there. */
  ghost predicate DepthFirst(adj: Adjacency, order: seq<nat>) {
    forall b {:trigger order[..b]} | 0 < b < |order| :: Backtracks(adj, order[..b], order[b])
  }

  lemma UnseenNext(adj: Adjacency, u: nat, visited: seq<bool>, seen: seq<nat>, i: nat)
    requires u < |adj| && i < |adj[u]| && adj[u][i] < |visited| && !visited[adj[u][i]] && Marked(visited, adj[u][..i])
    requires forall v | 0 <= v < |visited| :: visited[v] <==> v in seen
    ensures FirstUnseen(adj, u, seen, adj[u][i])
  {
  }

  lemma DeeperOrder(adj: Adjacency, order: seq<nat>, v: nat)
    requires DepthFirst(adj, order) && (order == [] || Backtracks(adj, order, v))
    ensures DepthFirst(adj, order + [v])
  {
    var now := order + [v];
    forall b | 0 < b < |now| ensures Backtracks(adj, now[..b], now[b]) {
      assert now[..b] == order[..b];
      if b == |order| {
        assert order[..b] == order;
      }
    }
  }

  lemma EnterVertex(adj: Adjacency, s: nat, visited: seq<bool>, order: seq<nat>, v: nat)
    requires InRange(adj) && DfsInv(adj, s, visited, order) && v < |adj| && !visited[v] && Reachable(adj, s, v)
    ensures DfsInv(adj, s, visited[v := true], order + [v])
    ensures |order + [v]| == |adj| ==> Closed(adj, order + [v], |order|)
  {
    Pigeonhole(order + [v], |adj|);
  }

  lemma ReachNext(adj: Adjacency, s: nat, u: nat, v: nat)
    requires Reachable(adj, s, u) && Edge(adj, u, v)
    ensures Reachable(adj, s, v)
  {
    var k: nat :| Steps(adj, s, u, k);
    OneMore(adj, s, u, v, k);
  }

  lemma ClosedExtends(adj: Adjacency, a: seq<nat>, b: seq<nat>, lo: nat)
    requires a <= b && Closed(adj, a, lo) && Closed(adj, b, |a|)
    ensures Closed(adj, b, lo)
  {
    forall i, w: nat | lo <= i < |b| && Edge(adj, b[i], w) ensures w in b {
      if i < |a| {
        assert Edge(adj, a[i], w);
      }
    }
  }

  lemma MarkedExtends(before: seq<bool>, after: seq<bool>, a: seq<nat>, b: seq<nat>, vs: seq<nat>)
    requires a <= b && |before| == |after| && Marked(before, vs)
    requires forall v | 0 <= v < |before| :: before[v] <==> v in a
    requires forall v | 0 <= v < |after| :: after[v] <==> v in b
    ensures Marked(after, vs)
  {
  }

  lemma CloseVertex(adj: Adjacency, visited: seq<bool>, order: seq<nat>, v: nat, lo: nat)
    requires v < |adj| && lo < |order| && order[lo] == v && Closed(adj, order, lo + 1) && Marked(visited, adj[v])
    requires forall u | 0 <= u < |visited| :: visited[u] <==> u in order
    ensures Closed(adj, order, lo)
  {
    forall i, w: nat | lo <= i < |order| && Edge(adj, order[i], w) ensures w in order {
      if i == lo {
        assert w in adj[v] && visited[w];
      }
    }
  }

  /** The search is at position `m`: those before are done, and nothing queued is over one step further. */
  ghost predicate Frontier(adj: Adjacency, all: seq<nat>, dist: seq<nat>, m: nat) {
    && m < |all| == |dist| && Processed(adj, all, m)
    && forall i | 0 <= i < |dist| :: dist[i] <= dist[m] + 1
  }

  lemma Grow(adj: Adjacency, s: nat, visited: seq<bool>, all: seq<nat>, dist: seq<nat>, m: nat, w: nat)
    requires BfsInv(adj, s, visited, all, dist) && Frontier(adj, all, dist, m)
    requires Edge(adj, all[m], w) && w < |adj| && !visited[w]
    ensures BfsInv(adj, s, visited[w := true], all + [w], dist + [dist[m] + 1])
    ensures Frontier(adj, all + [w], dist + [dist[m] + 1], m)
  {
    Discovered(adj, s, all, dist, m, w);
    var all', dist' := all + [w], dist + [dist[m] + 1];
    assert forall i | 0 <= i < |all| :: all'[i] == all[i];
    assert forall i, v: nat | 0 <= i < m && Edge(adj, all'[i], v) :: v in all';
  }

  /** With its neighbours in, the head is done and the next one takes its place. */
  lemma Advance(adj: Adjacency, order: seq<nat>, queue: seq<nat>, dist: seq<nat>)
    requires order != [] && Frontier(adj, order + queue, dist, |order| - 1)
    requires forall i, j | 0 <= i <= j < |dist| :: dist[i] <= dist[j]
    requires forall w: nat | Edge(adj, order[|order| - 1], w) :: w in order + queue
    ensures queue != [] ==> Frontier(adj, order + queue, dist, |order|)
    ensures queue == [] ==> Processed(adj, order, |order|)
  {
    assert (order + queue)[|order| - 1] == order[|order| - 1];
    assert queue == [] ==> order + queue == order;
  }

  predicate Marked(visited: seq<bool>, vs: seq<nat>) {
    forall v | v in vs :: v < |visited| && visited[v]
  }

  lemma MarkNext(visited: seq<bool>, vs: seq<nat>, i: nat)
    requires i < |vs| && vs[i] < |visited| && Marked(visited, vs[..i])
    ensures visited[vs[i]] ==> Marked(visited, vs[..i + 1])
    ensures Marked(visited[vs[i] := true], vs[..i + 1])
  {
    assert vs[..i + 1] == vs[..i] + [vs[i]];
  }

  ghost predicate BfsInv(adj: Adjacency, s: nat, visited: seq<bool>, all: seq<nat>, dist: seq<nat>) {
    && s in all && Distinct(all) && Vertices(all, |adj|) && ByDistance(adj, s, all, dist)
    && |visited| == |adj| && forall v | 0 <= v < |visited| :: visited[v] <==> v in all
  }

  lemma AllReached(adj: Adjacency, s: nat, visited: seq<bool>, all: seq<nat>, dist: seq<nat>, v: nat)
    requires BfsInv(adj, s, visited, all, dist) && Processed(adj, all, |all|)
    ensures v in all <==> Reachable(adj, s, v)
  {
    if k: nat :| Steps(adj, s, v, k) {
      forall u: nat, w: nat | u in all && Edge(adj, u, w) ensures w in all {
        var i :| 0 <= i < |all| && all[i] == u;
        assert Edge(adj, all[i], w);
      }
      ClosedHoldsReachable(adj, s, all, v, k);
    }
    if v in all {
      var i :| 0 <= i < |all| && all[i] == v;
      assert Steps(adj, s, v, dist[i]);
    }
  }

  lemma FirstUnseenUnique(adj: Adjacency, u: nat, seen: seq<nat>, v: nat, w: nat)
    requires FirstUnseen(adj, u, seen, v) && FirstUnseen(adj, u, seen, w)
    ensures v == w
  {
    var i :| 0 <= i < |adj[u]| && adj[u][i] == v && forall x | x in adj[u][..i] :: x in seen;
    var j :| 0 <= j < |adj[u]| && adj[u][j] == w && forall x | x in adj[u][..j] :: x in seen;
  }

  lemma QueuedNextUnique(adj: Adjacency, order: seq<nat>, v: nat, w: nat)
    requires QueuedNext(adj, order, v) && QueuedNext(adj, order, w)
    ensures v == w
  {
    var i :| 0 <= i < |order| && FirstUnseen(adj, order[i], order, v) && Processed(adj, order, i);
    var j :| 0 <= j < |order| && FirstUnseen(adj, order[j], order, w) && Processed(adj, order, j);
    assert Edge(adj, order[i], v) && Edge(adj, order[j], w);
    FirstUnseenUnique(adj, order[i], order, v, w);
  }

  lemma BacktracksUnique(adj: Adjacency, order: seq<nat>, v: nat, w: nat)
    requires Backtracks(adj, order, v) && Backtracks(adj, order, w)
    ensures v == w
  {
    var i :| 0 <= i < |order| && FirstUnseen(adj, order[i], order, v) && Closed(adj, order, i + 1);
    var j :| 0 <= j < |order| && FirstUnseen(adj, order[j], order, w) && Closed(adj, order, j + 1);
    assert Edge(adj, order[i], v) && Edge(adj, order[j], w);
    FirstUnseenUnique(adj, order[i], order, v, w);
  }

  /** The start determines the breadth-first order, neighbour lists included, */
  lemma {:induction false} BreadthFirstUnique(adj: Adjacency, a: seq<nat>, b: seq<nat>, n: nat)
    requires BreadthFirst(adj, a) && BreadthFirst(adj, b) && 0 < n <= |a| && n <= |b| && a[0] == b[0]
    ensures a[..n] == b[..n]
  {
    if n > 1 {
      BreadthFirstUnique(adj, a, b, n - 1);
      assert a[..n - 1] == b[..n - 1];
      QueuedNextUnique(adj, a[..n - 1], a[n - 1], b[n - 1]);
      assert a[..n] == a[..n - 1] + [a[n - 1]] && b[..n] == b[..n - 1] + [b[n - 1]];
    }
  }

  /** and likewise the depth-first order. */
  lemma {:induction false} DepthFirstUnique(adj: Adjacency, a: seq<nat>, b: seq<nat>, n: nat)
    requires DepthFirst(adj, a) && DepthFirst(adj, b) && 0 < n <= |a| && n <= |b| && a[0] == b[0]
    ensures a[..n] == b[..n]
  {
    if n > 1 {
      DepthFirstUnique(adj, a, b, n - 1);
      assert a[..n - 1] == b[..n - 1];
      BacktracksUnique(adj, a[..n - 1], a[n - 1], b[n - 1]);
      assert a[..n] == a[..n - 1] + [a[n - 1]] && b[..n] == b[..n - 1] + [b[n - 1]];
    }
  }
}
