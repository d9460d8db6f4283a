/**
  Fairness of the scheduler over whole runs: tasks are picked, ticked once and put back,
  and priorities may change at any moment.
 */
module CfsFairness {
  import opened Common
  import opened CfsSpec

  /** Where the scheduling loop stands: between tasks, or with one task running. */
  datatype Phase<T> = Idle | Picked(task: T) | Ticked(task: T)

  datatype Move<T> = DoPick | DoTick | DoPut | DoPrioritize(task: T, prio: int)

  datatype Loop<T> = Loop(s: State<T>, phase: Phase<T>)

  ghost predicate CanMove<T>(l: Loop<T>, m: Move<T>) {
    match m
    case DoPick => l.phase.Idle? && l.s.queue != map[]
    case DoTick => l.phase.Picked?
    case DoPut => l.phase.Ticked?
    case DoPrioritize(t, prio) => t in l.s.tasks && NiceOk(prio)
  }

  ghost function After<T>(l: Loop<T>, m: Move<T>): Loop<T>
    requires TasksOk(l.s) && PhaseOk(l) && CanMove(l, m)
  {
    match m
    case DoPick => var (s', r) := PickNextTask(l.s); Loop(s', Picked(r.value))
    case DoTick => Loop(TaskTick(l.s, l.phase.task), Ticked(l.phase.task))
    case DoPut => Loop(PutPrevTask(l.s, l.phase.task), Idle)
    case DoPrioritize(t, prio) => l.(s := SetPriority(l.s, t, prio))
  }

  ghost predicate PhaseOk<T>(l: Loop<T>) {
    !l.phase.Idle? ==> l.phase.task in l.s.tasks
  }

  ghost function Vr<T>(s: State<T>, t: T): int
    requires TasksOk(s) && t in s.tasks
  {
    Vruntime(s.tasks[t])
  }

  /** Any two tasks are within `bound` of each other; the running task is off the queue, all the
      others are on it, and until it ticks the running task has the least vruntime. */
  ghost predicate Fair<T>(l: Loop<T>, bound: int) {
    && Coherent(l.s) && PhaseOk(l)
    && (forall t | t in l.s.tasks :: Queued(l.s, t) <==> l.phase.Idle? || t != l.phase.task)
    && Within(l.s, bound)
    && (l.phase.Picked? ==> Least(l.s, l.phase.task))
  }

  ghost predicate Within<T>(s: State<T>, bound: int)
    requires TasksOk(s)
  {
    forall t, u | t in s.tasks && u in s.tasks :: Vr(s, t) - Vr(s, u) <= bound
  }

  ghost predicate Least<T>(s: State<T>, t: T)
    requires TasksOk(s) && t in s.tasks
  {
    forall u | u in s.tasks :: Vr(s, t) <= Vr(s, u)
  }

  lemma WithinSame<T>(s: State<T>, s': State<T>, bound: int)
    requires TasksOk(s) && TasksOk(s') && Within(s, bound)
    requires forall u | u in s'.tasks :: u in s.tasks && Vr(s', u) == Vr(s, u)
    ensures Within(s', bound)
  {
  }

  /** Advancing a task of least vruntime by at most the bound keeps the bound. */
  lemma WithinAdvance<T>(s: State<T>, s': State<T>, t: T, bound: int)
    requires TasksOk(s) && TasksOk(s') && Within(s, bound) && s'.tasks.Keys == s.tasks.Keys
    requires t in s.tasks && Least(s, t) && Vr(s, t) <= Vr(s', t) <= Vr(s, t) + bound
    requires forall u | u in s.tasks && u != t :: Vr(s', u) == Vr(s, u)
    ensures Within(s', bound)
  {
  }

  lemma FairPick<T>(l: Loop<T>, bound: int)
    requires Fair(l, bound) && CanMove(l, DoPick)
    ensures Fair(After(l, DoPick), bound)
  {
    PickCoherent(l.s);
    var l' := After(l, DoPick);
    WithinSame(l.s, l'.s, bound);
    forall u | u in l'.s.tasks ensures Vr(l'.s, l'.phase.task) <= Vr(l'.s, u) {
      assert Queued(l.s, u);
    }
  }

  lemma TickVruntimes<T>(s: State<T>, t: T)
    requires TasksOk(s) && t in s.tasks
    ensures var s' := TaskTick(s, t);
            && TasksOk(s') && s'.tasks.Keys == s.tasks.Keys
            && Vr(s, t) <= Vr(s', t) <= Vr(s, t) + (if s.tasks[t].nice == 0 then 1 else 69)
            && forall u | u in s.tasks && u != t :: Vr(s', u) == Vr(s, u)
  {
    TickStep(s.tasks[t]);
  }

  lemma FairTick<T>(l: Loop<T>, bound: int)
    requires Fair(l, bound) && CanMove(l, DoTick)
    requires bound >= 69 || (bound >= 1 && l.s.tasks[l.phase.task].nice == 0)
    ensures Fair(After(l, DoTick), bound)
  {
    var t := l.phase.task;
    assert Coherent(TaskTick(l.s, t)) by {
      OffQueueChange(l.s, t, l.s.tasks[t].(delta := l.s.tasks[t].delta + 1));
    }
    assert Within(TaskTick(l.s, t), bound) by {
      TickVruntimes(l.s, t);
      WithinAdvance(l.s, TaskTick(l.s, t), t, bound);
    }
  }

  lemma PutVruntimes<T>(s: State<T>, t: T)
    requires TasksOk(s) && t in s.tasks
    ensures var s' := PutPrevTask(s, t);
            && TasksOk(s') && s'.tasks.Keys == s.tasks.Keys
            && forall u | u in s.tasks :: Vr(s', u) == Vr(s, u)
  {
  }

  lemma FairPut<T>(l: Loop<T>, bound: int)
    requires Fair(l, bound) && CanMove(l, DoPut)
    ensures Fair(After(l, DoPut), bound)
  {
    var t := l.phase.task;
    var s' := PutPrevTask(l.s, t);
    assert Coherent(s') && s'.queue.Values == l.s.queue.Values + {t} by {
      PutCoherent(l.s, t);
    }
    assert Within(s', bound) by {
      PutVruntimes(l.s, t);
      WithinSame(l.s, s', bound);
    }
  }

  lemma FairPrioritize<T>(l: Loop<T>, bound: int, t: T, prio: int)
    requires Fair(l, bound) && CanMove(l, DoPrioritize(t, prio))
    ensures Fair(After(l, DoPrioritize(t, prio)), bound)
  {
    PrioritizeCoherent(l.s, t, prio);
    var s' := After(l, DoPrioritize(t, prio)).s;
    forall u | u in l.s.tasks ensures Vr(s', u) == Vr(l.s, u) {
      assert KeyOf(s'.tasks[u]) == KeyOf(l.s.tasks[u]);
    }
    WithinSame(l.s, s', bound);
  }

  ghost predicate Moves<T>(l: Loop<T>, ms: seq<Move<T>>)
    decreases |ms|
  {
    ms == [] || (TasksOk(l.s) && PhaseOk(l) && CanMove(l, ms[0]) && Moves(After(l, ms[0]), ms[1..]))
  }

  ghost function Play<T>(l: Loop<T>, ms: seq<Move<T>>): Loop<T>
    requires Moves(l, ms)
    decreases |ms|
  {
    if ms == [] then l else Play(After(l, ms[0]), ms[1..])
  }

  /** In every run, with arbitrary in-range priority changes, any two tasks stay within 69. */
  lemma {:induction false} FairRun<T>(l: Loop<T>, ms: seq<Move<T>>)
    requires Fair(l, 69) && Moves(l, ms)
    ensures Fair(Play(l, ms), 69)
    decreases |ms|
  {
    if ms != [] {
      match ms[0] {
        case DoPick => FairPick(l, 69);
        case DoTick => FairTick(l, 69);
        case DoPut => FairPut(l, 69);
        case DoPrioritize(t, prio) => FairPrioritize(l, 69, t, prio);
      }
      FairRun(After(l, ms[0]), ms[1..]);
    }
  }

  ghost predicate AllNiceZero<T>(s: State<T>) {
    forall t | t in s.tasks :: s.tasks[t].nice == 0
  }

  /** As long as all tasks are at nice 0, any two of them stay within 1. */
  lemma {:induction false} EvenRun<T>(l: Loop<T>, ms: seq<Move<T>>)
    requires Fair(l, 1) && AllNiceZero(l.s) && Moves(l, ms)
    requires forall i | 0 <= i < |ms| && ms[i].DoPrioritize? :: ms[i].prio == 0
    ensures Fair(Play(l, ms), 1)
    decreases |ms|
  {
    if ms != [] {
      match ms[0] {
        case DoPick => FairPick(l, 1);
        case DoTick => FairTick(l, 1);
        case DoPut => FairPut(l, 1);
        case DoPrioritize(t, prio) =>
          assert prio == 0;
          FairPrioritize(l, 1, t, prio);
      }
      EvenRun(After(l, ms[0]), ms[1..]);
    }
  }

  // ---------------------------------------------------------------------
  // Fresh tasks

  /** A new scheduler to which `n` fresh tasks, numbered in order, were added. */
  ghost function Loaded(n: nat): State<nat> {
    if n == 0 then Init() else LoadNext(Loaded(n - 1), n - 1)
  }

  /** How often task `j` ran in `q` full turns of all tasks and `r` more picks. */
  function Runs(q: nat, r: nat, j: nat): nat { if j < r then q + 1 else q }

  /** q * n, by repeated addition. */
  function IdBase(n: nat, q: nat): nat {
    if q == 0 then 0 else IdBase(n, q - 1) + n
  }

  /** The id of task `j` after it ran `runs` times: it gets a new one each time. */
  function TurnId(n: nat, runs: nat, j: nat): nat { IdBase(n, runs) + j }

  function TurnKey(n: nat, q: nat, r: nat, j: nat): Key {
    Key(Runs(q, r, j), TurnId(n, Runs(q, r, j), j))
  }

  ghost predicate TasksAt(tasks: map<nat, Fields>, n: nat, q: nat, r: nat) {
    && (forall j: nat | j < n :: j in tasks && tasks[j] == Fields(0, Runs(q, r, j), 0, TurnId(n, Runs(q, r, j), j)))
    && (forall j: nat | j in tasks :: j < n)
  }

  ghost predicate QueueAt(queue: map<Key, nat>, n: nat, q: nat, r: nat) {
    && (forall j: nat | j < n :: TurnKey(n, q, r, j) in queue && queue[TurnKey(n, q, r, j)] == j)
    && (forall k | k in queue :: queue[k] < n && k == TurnKey(n, q, r, queue[k]))
  }

  /** The state after `q` full turns of all `n` tasks and `r` more picks. */
  ghost predicate Rotated(s: State<nat>, n: nat, q: nat, r: nat) {
    && s.idPool == TurnId(n, q + 1, r)
    && TasksAt(s.tasks, n, q, r)
    && QueueAt(s.queue, n, q, r)
  }

  // ---------------------------------------------------------------------
  // Loading

  lemma FirstVruntimeIs(queue: map<Key, nat>, k: Key, v: int)
    requires k in queue && forall j | j in queue :: j.vruntime == v
    ensures FirstVruntime(queue) == Some(v)
  {
    assert queue.Keys != {};
  }

  /** `n` tasks, all queued, with vruntime 0 and their number as id. */
  ghost predicate AllNew(s: State<nat>, n: nat) {
    && s.idPool == n && s.minVruntime.GetOr(0) == 0
    && (forall j: nat | j < n :: j in s.tasks && s.tasks[j] == Fields(0, 0, 0, j))
    && (forall j: nat | j in s.tasks :: j < n)
    && (forall j: nat | j < n :: Key(0, j) in s.queue && s.queue[Key(0, j)] == j)
    && (forall k | k in s.queue :: s.queue[k] < n && k == Key(0, s.queue[k]))
  }

  ghost function LoadNext(s: State<nat>, n: nat): State<nat> {
    AddTask(s.(tasks := s.tasks[n := FRESH]), n)
  }

  lemma LoadNextNew(s: State<nat>, n: nat)
    requires AllNew(s, n)
    ensures AllNew(LoadNext(s, n), n + 1)
  {
    var s' := LoadNext(s, n);
    assert s'.queue == s.queue[Key(0, n) := n];
    FirstVruntimeIs(s'.queue, Key(0, n), 0);
  }

  lemma LoadNextCoherent(s: State<nat>, n: nat)
    requires AllNew(s, n) && Coherent(s)
    ensures Coherent(LoadNext(s, n))
  {
    AddCoherent(s.(tasks := s.tasks[n := FRESH]), n);
  }

  /** Fresh tasks, added in order, are all queued with vruntime 0 and their number as id. */
  lemma {:induction false} LoadedNew(n: nat)
    ensures AllNew(Loaded(n), n) && Coherent(Loaded(n))
  {
    if n > 0 {
      LoadedNew(n - 1);
      LoadNextNew(Loaded(n - 1), n - 1);
      LoadNextCoherent(Loaded(n - 1), n - 1);
    }
  }

  lemma LoadedRotated(n: nat)
    ensures Rotated(Loaded(n), n, 0, 0)
  {
    LoadedNew(n);
    assert IdBase(n, 1) == IdBase(n, 0) + n;
  }

  /** A freshly loaded scheduler is fair from the start, so the bounds hold from fresh tasks on. */
  lemma LoadedFair(n: nat)
    ensures Fair(Loop(Loaded(n), Idle), 0) && AllNiceZero(Loaded(n))
  {
    LoadedNew(n);
    var s := Loaded(n);
    forall j | j in s.tasks ensures Queued(s, j) {
      assert s.queue[Key(0, j)] == j;
    }
  }

  /** From any number of fresh tasks, after any moves, any two tasks are within 69 of each other. */
  lemma FreshRunFair(n: nat, ms: seq<Move<nat>>)
    requires Moves(Loop(Loaded(n), Idle), ms)
    ensures Fair(Play(Loop(Loaded(n), Idle), ms), 69)
  {
    LoadedFair(n);
    FairRun(Loop(Loaded(n), Idle), ms);
  }

  /** From any number of fresh tasks, kept at nice 0, within 1. */
  lemma FreshRunEven(n: nat, ms: seq<Move<nat>>)
    requires Moves(Loop(Loaded(n), Idle), ms) && forall i | 0 <= i < |ms| && ms[i].DoPrioritize? :: ms[i].prio == 0
    ensures Fair(Play(Loop(Loaded(n), Idle), ms), 1)
  {
    LoadedFair(n);
    EvenRun(Loop(Loaded(n), Idle), ms);
  }

  // ---------------------------------------------------------------------
  // Turns

  /** Among the keys of all tasks, that of the task whose turn it is comes first. */
  lemma TurnOrder(n: nat, q: nat, r: nat, j: nat)
    requires r < n && j < n
    ensures Before(TurnKey(n, q, r, j), TurnKey(n, q, r, r)) ==> j == r
  {
  }

  lemma PickTurn(s: State<nat>, n: nat, q: nat, r: nat)
    requires r < n && Rotated(s, n, q, r)
    ensures s.queue != map[] && First(s.queue.Keys) == TurnKey(n, q, r, r) && PickNextTask(s).1 == Some(r)
  {
    var k := TurnKey(n, q, r, r);
    assert s.queue[k] == r;
    assert s.queue.Keys != {};
    var f := First(s.queue.Keys);
    assert Before(f, k);
    TurnOrder(n, q, r, s.queue[f]);
  }

  /** pick_next_task, task_tick, put_prev_task. */
  ghost function Round<T>(s: State<T>): State<T> {
    var (s1, r) := PickNextTask(s);
    if r.Some? && r.value in s1.tasks && NiceOk(s1.tasks[r.value].nice)
    then PutPrevTask(TaskTick(s1, r.value), r.value)
    else s1
  }

  lemma NextTasks(tasks: map<nat, Fields>, n: nat, q: nat, r: nat, tasks': map<nat, Fields>)
    requires r < n && TasksAt(tasks, n, q, r)
    requires tasks' == tasks[r := Fields(0, q + 1, 0, TurnId(n, q + 1, r))]
    ensures if r + 1 < n then TasksAt(tasks', n, q, r + 1) else TasksAt(tasks', n, q + 1, 0)
  {
  }

  lemma NextQueue(queue: map<Key, nat>, n: nat, q: nat, r: nat, queue': map<Key, nat>)
    requires r < n && QueueAt(queue, n, q, r)
    requires queue' == (queue - {TurnKey(n, q, r, r)})[Key(q + 1, TurnId(n, q + 1, r)) := r]
    ensures QueueAt(queue', n, q, r + 1)
  {
    var r' := r + 1;
    forall j: nat | j < n ensures TurnKey(n, q, r', j) in queue' && queue'[TurnKey(n, q, r', j)] == j {
      assert queue[TurnKey(n, q, r, j)] == j && queue[TurnKey(n, q, r, r)] == r;
    }
  }

  lemma FullTurn(queue: map<Key, nat>, n: nat, q: nat)
    requires QueueAt(queue, n, q, n)
    ensures QueueAt(queue, n, q + 1, 0)
  {
    var q' := q + 1;
    forall j: nat | j < n ensures TurnKey(n, q', 0, j) in queue && queue[TurnKey(n, q', 0, j)] == j {
      assert TurnKey(n, q', 0, j) == TurnKey(n, q, n, j);
    }
  }

  lemma RoundIs(s: State<nat>, n: nat, q: nat, r: nat)
    requires r < n && Rotated(s, n, q, r)
    ensures var s' := Round(s);
            && s'.tasks == s.tasks[r := Fields(0, q + 1, 0, TurnId(n, q + 1, r))]
            && s'.queue == (s.queue - {TurnKey(n, q, r, r)})[Key(q + 1, TurnId(n, q + 1, r)) := r]
            && s'.idPool == s.idPool + 1
  {
    PickTurn(s, n, q, r);
  }

  lemma NextRotated(s: State<nat>, n: nat, q: nat, r: nat)
    requires r < n && Rotated(s, n, q, r)
    ensures if r + 1 < n then Rotated(Round(s), n, q, r + 1) else Rotated(Round(s), n, q + 1, 0)
  {
    RoundIs(s, n, q, r);
    var s' := Round(s);
    NextTasks(s.tasks, n, q, r, s'.tasks);
    NextQueue(s.queue, n, q, r, s'.queue);
    if r + 1 == n {
      FullTurn(s'.queue, n, q);
      assert TurnId(n, q + 2, 0) == TurnId(n, q + 1, n);
    }
  }

  ghost function Rounds<T>(s: State<T>, k: nat): State<T> {
    if k == 0 then s else Round(Rounds(s, k - 1))
  }

  /** `k` picks make some number `q` of full turns and `r` more picks. */
  ghost predicate RotatedBy(s: State<nat>, n: nat, k: nat) {
    exists q: nat, r: nat :: r < n && k == IdBase(n, q) + r && Rotated(s, n, q, r)
  }

  lemma NextRotatedBy(s: State<nat>, n: nat, k: nat)
    requires RotatedBy(s, n, k)
    ensures RotatedBy(Round(s), n, k + 1)
  {
    var q: nat, r: nat :| r < n && k == IdBase(n, q) + r && Rotated(s, n, q, r);
    NextRotated(s, n, q, r);
  }

  lemma {:induction false} RoundsRotate(s: State<nat>, n: nat, k: nat)
    requires RotatedBy(s, n, 0)
    ensures RotatedBy(Rounds(s, k), n, k)
  {
    if k > 0 {
      RoundsRotate(s, n, k - 1);
      var t := Rounds(s, k - 1);
      assert RotatedBy(Round(t), n, k - 1 + 1) by { NextRotatedBy(t, n, k - 1); }
      assert Rounds(s, k) == Round(t);
    }
  }

  lemma PickTurnBy(s: State<nat>, n: nat, k: nat)
    requires n > 0 && RotatedBy(s, n, k)
    ensures PickNextTask(s).1 == Some(k % n)
  {
    var q: nat, r: nat :| r < n && k == IdBase(n, q) + r && Rotated(s, n, q, r);
    assert k % n == r by { RemainderUnique(n, q, r); }
    assert PickNextTask(s).1 == Some(r) by { PickTurn(s, n, q, r); }
  }

  /** The tests' expectation for every number of tasks and picks: pick `k` is task `k mod n`. */
  lemma KthPick(n: nat, k: nat)
    requires n > 0
    ensures PickNextTask(Rounds(Loaded(n), k)).1 == Some(k % n)
  {
    assert RotatedBy(Loaded(n), n, 0) by {
      LoadedRotated(n);
    }
    RoundsRotate(Loaded(n), n, k);
    PickTurnBy(Rounds(Loaded(n), k), n, k);
  }

  lemma {:induction false} RemainderUnique(n: nat, q: nat, r: nat)
    requires r < n
    ensures (IdBase(n, q) + r) % n == r
  {
    if q > 0 {
      RemainderUnique(n, q - 1, r);
      AddModulus(IdBase(n, q - 1) + r, n);
    }
  }

  lemma AddModulus(x: nat, n: nat)
    requires n > 0
    ensures (x + n) % n == x % n
  {
    var a, b := x / n, (x + n) / n;
    assert x == a * n + x % n && x + n == b * n + (x + n) % n;
    var d := b - a - 1;
    assert d * n == b * n - a * n - n;
    assert d >= 1 ==> d * n >= n;
    assert d <= -1 ==> d * n + n <= 0;
  }
}
