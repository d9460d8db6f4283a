/**
  The completely fair scheduler as a state machine: tasks with mutable fields, and a
  ready queue ordered by a key that was computed from those fields at insertion time.
 */
module CfsSpec {
  import opened Common

  const NICE2WEIGHT_POS: seq<int> := [
    1024, 820, 655, 526, 423, 335, 272, 215, 172, 137, 110, 87, 70, 56, 45, 36, 29, 23, 18, 15]
  const NICE2WEIGHT_NEG: seq<int> := [
    1024, 1277, 1586, 1991, 2501, 3121, 3906, 4904, 6100, 7620, 9548, 11916, 14949, 18705, 23254,
    29154, 36291, 46273, 56483, 71755, 88761]

  predicate NiceOk(nice: int) { -20 <= nice <= 19 }

  function Weight(nice: int): (w: int)
    requires NiceOk(nice)
    ensures w >= 15
  {
    if nice >= 0 then NICE2WEIGHT_POS[nice] else NICE2WEIGHT_NEG[-nice]
  }

  /** The mutable fields of a task. */
  datatype Fields = Fields(initVruntime: int, delta: nat, nice: int, id: int)

  const FRESH := Fields(0, 0, 0, 0)

  function Vruntime(f: Fields): int
    requires NiceOk(f.nice)
  {
    if f.nice == 0 then f.initVruntime + f.delta
    else f.initVruntime + f.delta * 1024 / Weight(f.nice)
  }

  /** set_priority folds the elapsed time into the start value. */
  function Reprioritized(f: Fields, nice: int): (g: Fields)
    requires NiceOk(f.nice) && NiceOk(nice)
    ensures g.nice == nice && Vruntime(g) == Vruntime(f) && g.id == f.id
    ensures g.delta == 0 && g.initVruntime == Vruntime(f)
  {
    NothingElapsed(Fields(Vruntime(f), 0, nice, f.id));
    Fields(Vruntime(f), 0, nice, f.id)
  }

  lemma NothingElapsed(f: Fields)
    requires NiceOk(f.nice) && f.delta == 0
    ensures Vruntime(f) == f.initVruntime
  {
    assert 0 / Weight(f.nice) == 0;
  }

  /** The virtual run time past the start is the elapsed time scaled by 1024 over the weight, rounded down. */
  lemma VruntimeScales(f: Fields)
    requires NiceOk(f.nice)
    ensures var past := Vruntime(f) - f.initVruntime;
            Weight(f.nice) * past <= 1024 * f.delta < Weight(f.nice) * past + Weight(f.nice)
  {
    var w, x := Weight(f.nice), f.delta * 1024;
    assert x == w * (x / w) + x % w;
  }

  /** One tick adds at most 69, the step of nice 19, and exactly 1 at nice 0. */
  lemma TickStep(f: Fields)
    requires NiceOk(f.nice)
    ensures 0 <= Vruntime(f.(delta := f.delta + 1)) - Vruntime(f) <= 69
    ensures f.nice == 0 ==> Vruntime(f.(delta := f.delta + 1)) == Vruntime(f) + 1
  {
    QuotientStep(f.delta * 1024, Weight(f.nice));
  }

  lemma QuotientStep(x: nat, w: int)
    requires w >= 15
    ensures 0 <= (x + 1024) / w - x / w <= 69
  {
    var a, b := x / w, (x + 1024) / w;
    assert x == a * w + x % w && x + 1024 == b * w + (x + 1024) % w;
    var d := b - a;
    assert d * w == b * w - a * w;
    assert d >= 70 ==> d * w >= 70 * w;
    assert d <= -1 ==> d * w <= -w;
  }

  /** The bound of 69 is reached: the fourth tick at nice 19. */
  lemma TickStepReached()
    ensures Vruntime(Fields(0, 4, 19, 0)) - Vruntime(Fields(0, 3, 19, 0)) == 69
  {
    assert 4 * 1024 / 15 == 273 && 3 * 1024 / 15 == 204;
  }

  /** Each level weighs about a quarter more than the next one, from 1024 at nice 0. */
  lemma WeightFalls(nice: int)
    requires NiceOk(nice) && NiceOk(nice + 1)
    ensures Weight(nice) > Weight(nice + 1)
    ensures 120 * Weight(nice + 1) <= 100 * Weight(nice) <= 128 * Weight(nice + 1)
    ensures Weight(0) == 1024 && Weight(-20) == 88761 && Weight(19) == 15
  {
  }

  lemma {:induction false} WeightsFall(a: int, b: int)
    requires NiceOk(a) && NiceOk(b) && a <= b
    ensures Weight(a) >= Weight(b)
    decreases b - a
  {
    if a < b {
      WeightFalls(a);
      WeightsFall(a + 1, b);
    }
  }

  /** For the same elapsed time, a less nice task never has the larger virtual run time. */
  lemma NicerRunsFaster(f: Fields, g: Fields)
    requires NiceOk(f.nice) && NiceOk(g.nice) && f.nice <= g.nice
    requires f.initVruntime == g.initVruntime && f.delta == g.delta
    ensures Vruntime(f) <= Vruntime(g)
  {
    WeightsFall(f.nice, g.nice);
    QuotientFalls(f.delta * 1024, Weight(f.nice), Weight(g.nice));
    assert f.delta * 1024 / 1024 == f.delta;
  }

  lemma QuotientFalls(x: nat, v: int, w: int)
    requires v >= w > 0
    ensures x / v <= x / w
  {
    var a, b := x / v, x / w;
    assert a >= 0 && a * v <= x by { assert x == a * v + x % v; }
    assert x < b * w + w by { assert x == b * w + x % w; }
    assert a * w <= a * v by { Grows(a, w, v); }
    if a >= b + 1 {
      Grows(w, b + 1, a);
    }
  }

  lemma Grows(k: nat, a: int, b: int)
    requires a <= b
    ensures k * a <= k * b
  {
    assert k * b == k * a + k * (b - a);
  }

  // ---------------------------------------------------------------------
  // Keys

  datatype Key = Key(vruntime: int, id: int)

  predicate Before(j: Key, k: Key) {
    j.vruntime < k.vruntime || (j.vruntime == k.vruntime && j.id <= k.id)
  }

  function KeyOf(f: Fields): Key
    requires NiceOk(f.nice)
  {
    Key(Vruntime(f), f.id)
  }

  ghost predicate IsFirst(keys: set<Key>, k: Key) {
    k in keys && forall j | j in keys :: Before(k, j)
  }

  lemma {:induction false} HasFirst(keys: set<Key>)
    requires keys != {}
    ensures exists k :: IsFirst(keys, k)
  {
    var k :| k in keys;
    if keys != {k} {
      HasFirst(keys - {k});
      var j :| IsFirst(keys - {k}, j);
      assert forall i | i in keys :: i == k || i in keys - {k};
      assert IsFirst(keys, if Before(k, j) then k else j);
    } else {
      assert IsFirst(keys, k);
    }
  }

  ghost function First(keys: set<Key>): (k: Key)
    requires keys != {}
    ensures IsFirst(keys, k)
  {
    HasFirst(keys);
    var k :| IsFirst(keys, k);
    k
  }

  // ---------------------------------------------------------------------
  // The scheduler

  /** `tasks` holds the fields of every known task, and `owner` the task that was given each id. */
  datatype State<T> = State(
    tasks: map<T, Fields>, owner: map<int, T>, queue: map<Key, T>, minVruntime: Option<int>, idPool: int)

  ghost function FirstVruntime<T>(queue: map<Key, T>): Option<int> {
    if queue == map[] then None else
      assert queue.Keys != {} by { var k :| k in queue; }
      Some(First(queue.Keys).vruntime)
  }

  ghost function AddTask<T>(s: State<T>, t: T): State<T>
    requires t in s.tasks
  {
    var v := s.minVruntime.GetOr(0);
    var queue := s.queue[Key(v, s.idPool) := t];
    State(s.tasks[t := s.tasks[t].(initVruntime := v, id := s.idPool)], s.owner[s.idPool := t], queue,
          FirstVruntime(queue), s.idPool + 1)
  }

  ghost function RemoveTask<T>(s: State<T>, t: T): (State<T>, Option<T>)
    requires t in s.tasks && NiceOk(s.tasks[t].nice)
  {
    var k := KeyOf(s.tasks[t]);
    if k in s.queue then
      var queue := s.queue - {k};
      (s.(queue := queue, minVruntime := FirstVruntime(queue)), Some(s.queue[k]))
    else
      (s, None)
  }

  ghost function PickNextTask<T>(s: State<T>): (State<T>, Option<T>) {
    if s.queue == map[] then (s, None) else
      assert s.queue.Keys != {} by { var k :| k in s.queue; }
      var k := First(s.queue.Keys);
      (s.(queue := s.queue - {k}), Some(s.queue[k]))
  }

  ghost function PutPrevTask<T>(s: State<T>, t: T): State<T>
    requires t in s.tasks && NiceOk(s.tasks[t].nice)
  {
    var f := s.tasks[t].(id := s.idPool);
    State(s.tasks[t := f], s.owner[s.idPool := t], s.queue[Key(Vruntime(f), s.idPool) := t], s.minVruntime, s.idPool + 1)
  }

  ghost function TaskTick<T>(s: State<T>, t: T): State<T>
    requires t in s.tasks
  {
    s.(tasks := s.tasks[t := s.tasks[t].(delta := s.tasks[t].delta + 1)])
  }

  ghost function SetPriority<T>(s: State<T>, t: T, prio: int): State<T>
    requires t in s.tasks && NiceOk(s.tasks[t].nice)
  {
    if NiceOk(prio) then s.(tasks := s.tasks[t := Reprioritized(s.tasks[t], prio)]) else s
  }

  ghost predicate Queued<T>(s: State<T>, t: T) {
    t in s.queue.Values
  }

  // ---------------------------------------------------------------------
  // Coherence

  ghost predicate TasksOk<T>(s: State<T>) {
    forall t | t in s.tasks :: NiceOk(s.tasks[t].nice)
  }

  /** The task has entered the queue at some time: its id was given out to it. */
  ghost predicate Entered<T>(s: State<T>, t: T) {
    t in s.tasks && s.tasks[t].id in s.owner && s.owner[s.tasks[t].id] == t
  }

  /** Ids are given out once, and every key in the queue is its task's current key. */
  ghost predicate Coherent<T>(s: State<T>) {
    && TasksOk(s)
    && (forall i | i in s.owner :: i < s.idPool)
    && (forall k | k in s.queue :: Entered(s, s.queue[k]) && k == KeyOf(s.tasks[s.queue[k]]))
  }

  /** Two tasks that entered the queue never share an id. */
  lemma DistinctIds<T>(s: State<T>, t: T, u: T)
    requires Coherent(s) && Entered(s, t) && Entered(s, u) && t != u
    ensures s.tasks[t].id != s.tasks[u].id
  {
  }

  datatype Event<T> =
    | New(task: T)
    | Add(task: T)
    | Remove(task: T)
    | Pick
    | Put(task: T)
    | Tick(task: T)
    | Prioritize(task: T, prio: int)

  /** Tasks are added fresh in their accounting and out of the queue; only running tasks tick. */
  ghost predicate Legal<T>(s: State<T>, e: Event<T>) {
    match e
    case New(t) => t !in s.tasks
    case Add(t) => t in s.tasks && !Queued(s, t) && s.tasks[t].delta == 0
    case Remove(t) => t in s.tasks
    case Pick => true
    case Put(t) => t in s.tasks && !Queued(s, t)
    case Tick(t) => t in s.tasks && !Queued(s, t)
    case Prioritize(t, _) => t in s.tasks
  }

  ghost function Next<T>(s: State<T>, e: Event<T>): State<T>
    requires TasksOk(s) && Legal(s, e)
  {
    match e
    case New(t) => s.(tasks := s.tasks[t := FRESH])
    case Add(t) => AddTask(s, t)
    case Remove(t) => RemoveTask(s, t).0
    case Pick => PickNextTask(s).0
    case Put(t) => PutPrevTask(s, t)
    case Tick(t) => TaskTick(s, t)
    case Prioritize(t, prio) => SetPriority(s, t, prio)
  }

  lemma EnqueueCoherent<T>(s: State<T>, t: T, f: Fields, s': State<T>)
    requires Coherent(s) && t in s.tasks && !Queued(s, t) && NiceOk(f.nice) && f.id == s.idPool
    requires s'.tasks == s.tasks[t := f] && s'.owner == s.owner[s.idPool := t] && s'.idPool == s.idPool + 1
    requires s'.queue == s.queue[KeyOf(f) := t]
    ensures Coherent(s')
    ensures KeyOf(f) !in s.queue && s'.queue.Values == s.queue.Values + {t}
  {
    forall k | k in s.queue ensures k != KeyOf(f) && s.queue[k] != t {
      assert s.queue[k] in s.queue.Values;
    }
    assert s'.queue[KeyOf(f)] == t;
    forall u | u in s.queue.Values + {t} ensures u in s'.queue.Values {
      if u != t {
        var k :| k in s.queue && s.queue[k] == u;
        assert s'.queue[k] == u;
      }
    }
  }

  lemma AddCoherent<T>(s: State<T>, t: T)
    requires Coherent(s) && Legal(s, Add(t))
    ensures Coherent(AddTask(s, t)) && AddTask(s, t).queue.Values == s.queue.Values + {t}
    ensures |AddTask(s, t).queue| == |s.queue| + 1
  {
    var f := s.tasks[t].(initVruntime := s.minVruntime.GetOr(0), id := s.idPool);
    NothingElapsed(f);
    EnqueueCoherent(s, t, f, AddTask(s, t));
  }

  lemma PutCoherent<T>(s: State<T>, t: T)
    requires Coherent(s) && Legal(s, Put(t))
    ensures Coherent(PutPrevTask(s, t)) && PutPrevTask(s, t).queue.Values == s.queue.Values + {t}
    ensures |PutPrevTask(s, t).queue| == |s.queue| + 1
  {
    EnqueueCoherent(s, t, s.tasks[t].(id := s.idPool), PutPrevTask(s, t));
  }

  lemma DequeueCoherent<T>(s: State<T>, k: Key, s': State<T>)
    requires Coherent(s) && k in s.queue
    requires s'.tasks == s.tasks && s'.owner == s.owner && s'.idPool == s.idPool && s'.queue == s.queue - {k}
    ensures Coherent(s') && s'.queue.Values == s.queue.Values - {s.queue[k]}
  {
    forall j | j in s'.queue ensures s'.queue[j] != s.queue[k] {
      assert j != k;
    }
    forall u | u in s.queue.Values - {s.queue[k]} ensures u in s'.queue.Values {
      var j :| j in s.queue && s.queue[j] == u;
      assert s'.queue[j] == u;
    }
  }

  /** Picking takes a task of least current vruntime out of the queue, and nothing else. */
  lemma PickCoherent<T>(s: State<T>)
    requires Coherent(s)
    ensures var (s', r) := PickNextTask(s);
            && Coherent(s') && s'.tasks == s.tasks
            && (r.None? <==> s.queue == map[])
            && (r.None? ==> s' == s)
            && (r.Some? ==>
                  && Queued(s, r.value) && s'.queue.Values == s.queue.Values - {r.value}
                  && forall u | Queued(s, u) :: Vruntime(s.tasks[r.value]) <= Vruntime(s.tasks[u]))
  {
    if s.queue != map[] {
      assert s.queue.Keys != {} by { var k :| k in s.queue; }
      var k := First(s.queue.Keys);
      DequeueCoherent(s, k, PickNextTask(s).0);
      forall u | Queued(s, u) ensures Vruntime(s.tasks[s.queue[k]]) <= Vruntime(s.tasks[u]) {
        var j :| j in s.queue && s.queue[j] == u;
        assert Before(k, j);
      }
    }
  }

  /** Removal finds a task exactly when it is queued, unless its key is that of another queued
      task; a task that has entered the queue before is never mistaken for another one. */
  lemma RemoveCoherent<T>(s: State<T>, t: T)
    requires Coherent(s) && t in s.tasks
    ensures var (s', r) := RemoveTask(s, t);
            && Coherent(s') && s'.tasks == s.tasks
            && (r == (if Queued(s, t) then Some(t) else None) <==> Queued(s, t) || KeyOf(s.tasks[t]) !in s.queue)
            && (Entered(s, t) ==>
                  && r == (if Queued(s, t) then Some(t) else None)
                  && s'.queue.Values == s.queue.Values - {t})
  {
    var k := KeyOf(s.tasks[t]);
    if k in s.queue {
      DequeueCoherent(s, k, RemoveTask(s, t).0);
    }
  }

  /** A task that never entered still has id 0, so removing it can take out another task. */
  lemma RemoveNeverAdded<T>(t: T, u: T)
    requires t != u
    ensures var s := AddTask(State(map[t := FRESH, u := FRESH], map[], map[], None, 0), t);
            Coherent(s) && !Queued(s, u) && RemoveTask(s, u).1 == Some(t)
  {
    var s0 := State(map[t := FRESH, u := FRESH], map[], map[], None, 0);
    AddCoherent(s0, t);
    assert AddTask(s0, t).queue == map[Key(0, 0) := t];
  }

  /** Every legal event keeps the queue coherent with the task fields. */
  lemma NextCoherent<T>(s: State<T>, e: Event<T>)
    requires Coherent(s) && Legal(s, e)
    ensures Coherent(Next(s, e))
  {
    match e {
      case New(t) =>
      case Add(t) => AddCoherent(s, t);
      case Remove(t) => RemoveCoherent(s, t);
      case Pick => PickCoherent(s);
      case Put(t) => PutCoherent(s, t);
      case Tick(t) => OffQueueChange(s, t, s.tasks[t].(delta := s.tasks[t].delta + 1));
      case Prioritize(t, prio) => PrioritizeCoherent(s, t, prio);
    }
  }

  /** Changing the priority of a task leaves its key alone, so it may even be queued. */
  lemma PrioritizeCoherent<T>(s: State<T>, t: T, prio: int)
    requires Coherent(s) && t in s.tasks
    ensures Coherent(SetPriority(s, t, prio))
    ensures forall u | u in s.tasks :: KeyOf(SetPriority(s, t, prio).tasks[u]) == KeyOf(s.tasks[u])
  {
  }

  lemma OffQueueChange<T>(s: State<T>, t: T, f: Fields)
    requires Coherent(s) && t in s.tasks && !Queued(s, t) && f.id == s.tasks[t].id && NiceOk(f.nice)
    ensures Coherent(s.(tasks := s.tasks[t := f]))
  {
    forall k | k in s.queue ensures s.queue[k] != t {
      assert s.queue[k] in s.queue.Values;
    }
  }

  /** A change to an accepted priority sets it, starts the elapsed time anew from the virtual run time
      reached, and touches no other task and not the queue; any other priority changes nothing. */
  lemma PrioritySet<T>(s: State<T>, t: T, prio: int)
    requires TasksOk(s) && t in s.tasks
    ensures var s' := SetPriority(s, t, prio);
            && s'.tasks.Keys == s.tasks.Keys && s'.queue == s.queue && s'.owner == s.owner
            && s'.minVruntime == s.minVruntime && s'.idPool == s.idPool
            && (forall u | u in s.tasks && u != t :: s'.tasks[u] == s.tasks[u])
            && s'.tasks[t] == if -20 <= prio <= 19 then Fields(Vruntime(s.tasks[t]), 0, prio, s.tasks[t].id) else s.tasks[t]
  {
    assert NiceOk(prio) <==> -20 <= prio <= 19;
  }

  /** `v` is the least virtual run time among the keys of the queue, or there is none. */
  ghost predicate LeastKey<T>(queue: map<Key, T>, v: Option<int>) {
    match v
    case None => queue == map[]
    case Some(m) => (exists k :: k in queue && k.vruntime == m) && forall k | k in queue :: m <= k.vruntime
  }

  lemma FirstIsLeast<T>(queue: map<Key, T>)
    ensures LeastKey(queue, FirstVruntime(queue))
  {
    if queue != map[] {
      assert queue.Keys != {} by { var k :| k in queue; }
      var first := First(queue.Keys);
      assert first in queue;
      forall k | k in queue ensures first.vruntime <= k.vruntime {
        assert Before(first, k);
      }
    }
  }

  /** An added task starts at the recorded minimum, or at 0 if there is none, keeps its other fields but
      for its new id, and the minimum is recorded again. */
  lemma AddStartsAtMinimum<T>(s: State<T>, t: T)
    requires t in s.tasks
    ensures var s' := AddTask(s, t);
            && s'.tasks[t] == s.tasks[t].(initVruntime := s'.tasks[t].initVruntime, id := s.idPool)
            && (s.minVruntime.Some? ==> s'.tasks[t].initVruntime == s.minVruntime.value)
            && (s.minVruntime.None? ==> s'.tasks[t].initVruntime == 0)
            && (forall u | u in s.tasks && u != t :: s'.tasks[u] == s.tasks[u])
            && LeastKey(s'.queue, s'.minVruntime) && s'.idPool == s.idPool + 1
  {
    FirstIsLeast(AddTask(s, t).queue);
  }

  /** Only additions and successful removals record the minimum; picks, puts and ticks leave it. */
  lemma MinimumRecorded<T>(s: State<T>, e: Event<T>)
    requires TasksOk(s) && Legal(s, e)
    ensures var s' := Next(s, e);
            if e.Add? || (e.Remove? && Answer(s, e).Some?) then LeastKey(s'.queue, s'.minVruntime)
            else s'.minVruntime == s.minVruntime
  {
    FirstIsLeast(Next(s, e).queue);
  }

  /** A tick adds one to the elapsed time of its task, and a task put back gets the next id; nothing
      else changes in any task. */
  lemma TickAndPut<T>(s: State<T>, t: T)
    requires t in s.tasks && TasksOk(s)
    ensures TaskTick(s, t) == s.(tasks := s.tasks[t := s.tasks[t].(delta := s.tasks[t].delta + 1)])
    ensures PutPrevTask(s, t).tasks == s.tasks[t := s.tasks[t].(id := s.idPool)] && PutPrevTask(s, t).idPool == s.idPool + 1
  {
  }

  ghost predicate LegalRun<T>(s: State<T>, es: seq<Event<T>>)
    decreases |es|
  {
    es == [] || (TasksOk(s) && Legal(s, es[0]) && LegalRun(Next(s, es[0]), es[1..]))
  }

  ghost function Run<T>(s: State<T>, es: seq<Event<T>>): State<T>
    requires LegalRun(s, es)
    decreases |es|
  {
    if es == [] then s else Run(Next(s, es[0]), es[1..])
  }

  ghost function Init<T>(): State<T> { State(map[], map[], map[], None, 0) }

  /** Coherence holds at the end of every legal run of the scheduler. */
  lemma {:induction false} RunCoherent<T>(s: State<T>, es: seq<Event<T>>)
    requires Coherent(s) && LegalRun(s, es)
    ensures Coherent(Run(s, es))
    decreases |es|
  {
    if es != [] {
      NextCoherent(s, es[0]);
      RunCoherent(Next(s, es[0]), es[1..]);
    }
  }

  /** The task that an event hands back to the caller. */
  ghost function Answer<T>(s: State<T>, e: Event<T>): Option<T>
    requires TasksOk(s) && Legal(s, e)
  {
    match e
    case Pick => PickNextTask(s).1
    case Remove(t) => RemoveTask(s, t).1
    case _ => None
  }

  /** How often `u` goes into the queue by an event, less how often it comes out. */
  ghost function Flow<T>(s: State<T>, e: Event<T>, u: T): int
    requires TasksOk(s) && Legal(s, e)
  {
    (if e == Add(u) || e == Put(u) then 1 else 0) - (if Answer(s, e) == Some(u) then 1 else 0)
  }

  ghost function NetFlow<T>(s: State<T>, es: seq<Event<T>>, u: T): int
    requires LegalRun(s, es)
    decreases |es|
  {
    if es == [] then 0 else Flow(s, es[0], u) + NetFlow(Next(s, es[0]), es[1..], u)
  }

  ghost function Present<T>(s: State<T>, u: T): int { if Queued(s, u) then 1 else 0 }

  lemma NextConserves<T>(s: State<T>, e: Event<T>, u: T)
    requires Coherent(s) && Legal(s, e)
    ensures Present(Next(s, e), u) == Present(s, u) + Flow(s, e, u)
  {
    var s' := Next(s, e);
    if e.Add? || e.Put? {
      assert s'.queue.Values == s.queue.Values + {e.task} by {
        if e.Add? { AddCoherent(s, e.task); } else { PutCoherent(s, e.task); }
      }
    } else if e.Pick? || e.Remove? {
      HandedOut(s, e);
    } else {
      assert s'.queue == s.queue;
    }
  }

  /** What a pick or a removal hands back is what leaves the queue. */
  lemma HandedOut<T>(s: State<T>, e: Event<T>)
    requires Coherent(s) && Legal(s, e) && (e.Pick? || e.Remove?)
    ensures match Answer(s, e)
            case None => Next(s, e).queue == s.queue
            case Some(t) => Queued(s, t) && Next(s, e).queue.Values == s.queue.Values - {t}
  {
    if e.Pick? {
      PickCoherent(s);
    } else if KeyOf(s.tasks[e.task]) in s.queue {
      DequeueCoherent(s, KeyOf(s.tasks[e.task]), Next(s, e));
    }
  }

  /** No task is lost or duplicated: over every run, what went in less what came out is what is there. */
  lemma {:induction false} RunConserves<T>(s: State<T>, es: seq<Event<T>>, u: T)
    requires Coherent(s) && LegalRun(s, es)
    ensures Present(Run(s, es), u) == Present(s, u) + NetFlow(s, es, u)
    decreases |es|
  {
    if es != [] {
      NextConserves(s, es[0], u);
      NextCoherent(s, es[0]);
      RunConserves(Next(s, es[0]), es[1..], u);
    }
  }
}
