/**
 * `Pool.map` (src/__init__.py) as a sequential protocol.  The master puts every index
 * on the task queue S, then one sentinel per worker.  Each worker repeatedly takes the
 * front task: a sentinel stops it; an index is run through `work` unless the worker
 * is dead, and one record goes on the result queue Q.  The master then reads exactly
 * `len(sequence)` records, and either raises (count and first trace of the errors) or
 * returns the values, in collection order or, with `ordered`, by index.
 *
 * Concurrency is replaced by a schedule: a list of worker ranks, each entry letting that
 * worker make one move (take a task, or finish the task it holds).  After the schedule,
 * the remaining moves are made by the lowest-ranked worker still running.
 */
module PoolMap {
  import opened Wrappers

  /** What `workfunc(sequence[i])` does: return a value, or raise an `Exception` the worker catches. */
  datatype Outcome<Y> = Returned(value: Y) | Raised(exc: string, trace: string)

  /** An entry of the task queue S: `(i,)` or the sentinel `None`. */
  datatype Task = Item(index: nat) | Sentinel

  /** An entry of the result queue Q: `(i, out)`, `(exc, trace)`, or `(None, None)` from a dead worker. */
  datatype Record<Y> = Done(index: nat, value: Y) | Failed(exc: string, trace: string) | Dead

  /** Where a worker is in its loop. */
  datatype Status = Idle | Holding(index: nat) | Stopped

  /** The exception `map` raises: aggregated by the master, or propagated by `map_debug`. */
  datatype MapError = Aggregated(count: nat, firstTrace: string) | Propagated(exc: string, trace: string)

  predicate IsHolding(s: Status) { s.Holding? }
  predicate IsRunning(s: Status) { !s.Stopped? }

  /** Number of workers whose status satisfies p. */
  function Count(status: seq<Status>, p: Status -> bool): (c: nat) {
    if status == [] then 0
    else Count(status[..|status| - 1], p) + if p(status[|status| - 1]) then 1 else 0
  }

  lemma {:induction false} CountUpdate(status: seq<Status>, p: Status -> bool, w: nat, s: Status)
    requires w < |status|
    ensures Count(status[w := s], p) + (if p(status[w]) then 1 else 0)
         == Count(status, p) + (if p(s) then 1 else 0)
  {
    var n := |status|;
    var t := status[w := s];
    assert t[..n - 1] == if w < n - 1 then status[..n - 1][w := s] else status[..n - 1];
    if w < n - 1 {
      CountUpdate(status[..n - 1], p, w, s);
    }
  }

  lemma {:induction false} CountPositive(status: seq<Status>, p: Status -> bool, w: nat)
    requires w < |status| && p(status[w])
    ensures Count(status, p) >= 1
  {
    if w < |status| - 1 {
      CountPositive(status[..|status| - 1], p, w);
    }
  }

  lemma {:induction false} CountAll(n: nat, s: Status, p: Status -> bool)
    ensures Count(seq(n, k => s), p) == if p(s) then n else 0
  {
    if n > 0 {
      assert seq(n, k => s)[..n - 1] == seq(n - 1, k => s);
      CountAll(n - 1, s, p);
    }
  }

  /** The lowest-ranked worker that has not stopped. */
  method FirstRunning(status: seq<Status>) returns (w: nat)
    requires Count(status, IsRunning) > 0
    ensures w < |status| && !status[w].Stopped?
  {
    w := 0;
    while w < |status| && status[w].Stopped?
      invariant w <= |status|
      invariant forall v :: 0 <= v < w ==> status[v].Stopped?
    {
      w := w + 1;
    }
    if w == |status| {
      CountNone(status, IsRunning);
      assert false;
    }
  }

  lemma {:induction false} CountNone(status: seq<Status>, p: Status -> bool)
    requires forall v :: 0 <= v < |status| ==> !p(status[v])
    ensures Count(status, p) == 0
  {
    if status != [] {
      CountNone(status[..|status| - 1], p);
    }
  }

  /** S: the indices not yet taken, in order, then one sentinel per running worker. */
  ghost predicate TaskQueue(tasks: seq<Task>, len: nat, taken: nat, running: nat) {
    taken <= len && tasks == seq(len - taken, k requires 0 <= k => Item(taken + k)) + seq(running, k => Sentinel)
  }

  lemma TakeFront(tasks: seq<Task>, len: nat, taken: nat, running: nat)
    requires TaskQueue(tasks, len, taken, running) && tasks != []
    ensures taken < len ==> tasks[0] == Item(taken) && TaskQueue(tasks[1..], len, taken + 1, running)
    ensures taken == len ==> tasks[0] == Sentinel && running > 0 && TaskQueue(tasks[1..], len, taken, running - 1)
  {
    if taken < len {
      assert tasks[1..] == seq(len - taken - 1, k requires 0 <= k => Item(taken + 1 + k)) + seq(running, k => Sentinel);
    } else {
      assert tasks[1..] == seq(running - 1, k => Sentinel);
    }
  }

  /** Record j answers item i: a success carries i and its value, a failure its exception. */
  ghost predicate Fits<X, Y>(items: seq<X>, work: X -> Outcome<Y>, rec: Record<Y>, i: nat)
    requires i < |items|
  {
    match rec
    case Done(index, value) => index == i && work(items[i]) == Returned(value)
    case Failed(exc, trace) => work(items[i]) == Raised(exc, trace)
    case Dead => true
  }

  /**
   * Which items are accounted for: every record answers a distinct taken item, every
   * held item is answered by no record yet, and records plus held items are all taken ones.
   */
  ghost predicate Ledger(taken: nat, status: seq<Status>, queue: seq<nat>) {
    && |queue| + Count(status, IsHolding) == taken
    && (forall j :: 0 <= j < |queue| ==> queue[j] < taken)
    && (forall j, k :: 0 <= j < k < |queue| ==> queue[j] != queue[k])
    && (forall w :: 0 <= w < |status| && status[w].Holding? ==>
          status[w].index < taken && status[w].index !in queue)
    && (forall w, v :: 0 <= w < v < |status| && status[w].Holding? && status[v].Holding? ==>
          status[w].index != status[v].index)
    && (forall i :: 0 <= i < taken ==> i in queue || exists w :: 0 <= w < |status| && status[w] == Holding(i))
  }

  /**
   * What the records say: each answers its item faithfully; a worker is dead exactly when
   * it has put a failure; no worker fails twice; a dead record follows its worker's failure,
   * and after its failure a worker puts nothing but dead records.
   */
  ghost predicate Records<X, Y>(items: seq<X>, work: X -> Outcome<Y>, np: nat, dead: seq<bool>,
                                queue: seq<Record<Y>>, origin: seq<nat>, producer: seq<nat>) {
    && |dead| == np && |origin| == |queue| && |producer| == |queue|
    && (forall j :: 0 <= j < |queue| ==>
          producer[j] < np && origin[j] < |items| && Fits(items, work, queue[j], origin[j]))
    && (forall w :: 0 <= w < np ==>
          (dead[w] <==> exists j :: 0 <= j < |queue| && producer[j] == w && queue[j].Failed?))
    && (forall j, k :: 0 <= j < k < |queue| && queue[j].Failed? && queue[k].Failed? ==>
          producer[j] != producer[k])
    && (forall j :: 0 <= j < |queue| && queue[j].Dead? ==>
          exists k :: 0 <= k < j && queue[k].Failed? && producer[k] == producer[j])
    && (forall j, k :: 0 <= j < k < |queue| && queue[j].Failed? && producer[k] == producer[j] ==>
          queue[k].Dead?)
  }

  /** The state of a run between moves. */
  ghost predicate Running<X, Y>(items: seq<X>, work: X -> Outcome<Y>, np: nat,
                                tasks: seq<Task>, status: seq<Status>, dead: seq<bool>, running: nat,
                                taken: nat, queue: seq<Record<Y>>, origin: seq<nat>, producer: seq<nat>) {
    && |status| == np && running == Count(status, IsRunning)
    && TaskQueue(tasks, |items|, taken, running)
    && (running < np || np == 0 ==> taken == |items|)
    && Ledger(taken, status, origin)
    && Records(items, work, np, dead, queue, origin, producer)
  }

  /** The records once every worker has stopped: one per item, each item answered once. */
  ghost predicate Complete<X, Y>(items: seq<X>, work: X -> Outcome<Y>, np: nat,
                                 queue: seq<Record<Y>>, origin: seq<nat>, producer: seq<nat>) {
    && |queue| == |items|
    && (forall j, k :: 0 <= j < k < |origin| ==> origin[j] != origin[k])
    && (forall i :: 0 <= i < |items| ==> i in origin)
    && exists dead :: Records(items, work, np, dead, queue, origin, producer)
  }

  lemma LedgerTake(taken: nat, status: seq<Status>, origin: seq<nat>, w: nat)
    requires Ledger(taken, status, origin) && w < |status| && status[w] == Idle
    ensures Ledger(taken + 1, status[w := Holding(taken)], origin)
  {
    var t := status[w := Holding(taken)];
    CountUpdate(status, IsHolding, w, Holding(taken));
    forall i | 0 <= i < taken + 1
      ensures i in origin || exists v :: 0 <= v < |t| && t[v] == Holding(i)
    {
      if i == taken {
        assert t[w] == Holding(i);
      } else if i !in origin {
        var v :| 0 <= v < |status| && status[v] == Holding(i);
        assert t[v] == Holding(i);
      }
    }
  }

  lemma LedgerStop(taken: nat, status: seq<Status>, origin: seq<nat>, w: nat)
    requires Ledger(taken, status, origin) && w < |status| && status[w] == Idle
    ensures Ledger(taken, status[w := Stopped], origin)
  {
    var t := status[w := Stopped];
    CountUpdate(status, IsHolding, w, Stopped);
    forall i | 0 <= i < taken && i !in origin
      ensures exists v :: 0 <= v < |t| && t[v] == Holding(i)
    {
      var v :| 0 <= v < |status| && status[v] == Holding(i);
      assert t[v] == Holding(i);
    }
  }

  lemma LedgerFinish(taken: nat, status: seq<Status>, origin: seq<nat>, w: nat)
    requires Ledger(taken, status, origin) && w < |status| && status[w].Holding?
    ensures Ledger(taken, status[w := Idle], origin + [status[w].index])
  {
    var i := status[w].index;
    var t := status[w := Idle];
    var o := origin + [i];
    CountUpdate(status, IsHolding, w, Idle);
    forall j, k | 0 <= j < k < |o|
      ensures o[j] != o[k]
    {
      if k == |origin| {
        assert o[j] == origin[j];
      }
    }
    forall v | 0 <= v < |t| && t[v].Holding?
      ensures t[v].index < taken && t[v].index !in o
    {
      assert t[v] == status[v] && v != w;
    }
    forall n | 0 <= n < taken && n !in o
      ensures exists v :: 0 <= v < |t| && t[v] == Holding(n)
    {
      var v :| 0 <= v < |status| && status[v] == Holding(n);
      assert v != w;
      assert t[v] == Holding(n);
    }
  }

  /**
   * A worker finishing item i: a dead worker puts `(None, None)`; a live one runs the work
   * and puts `(i, out)`, or `(exc, trace)` and becomes dead.
   */
  lemma RecordsFinish<X, Y>(items: seq<X>, work: X -> Outcome<Y>, np: nat, dead: seq<bool>,
                            queue: seq<Record<Y>>, origin: seq<nat>, producer: seq<nat>,
                            w: nat, i: nat, rec: Record<Y>, dead': seq<bool>)
    requires Records(items, work, np, dead, queue, origin, producer) && w < np && i < |items|
    requires dead[w] ==> rec == Dead && dead' == dead
    requires !dead[w] && work(items[i]).Returned? ==> rec == Done(i, work(items[i]).value) && dead' == dead
    requires !dead[w] && work(items[i]).Raised? ==>
      rec == Failed(work(items[i]).exc, work(items[i]).trace) && dead' == dead[w := true]
    ensures Records(items, work, np, dead', queue + [rec], origin + [i], producer + [w])
  {
    var q, o, p := queue + [rec], origin + [i], producer + [w];
    var n := |queue|;
    assert forall j :: 0 <= j < n ==> q[j] == queue[j] && o[j] == origin[j] && p[j] == producer[j];
    forall v | 0 <= v < np
      ensures dead'[v] <==> exists j :: 0 <= j < |q| && p[j] == v && q[j].Failed?
    {
      if dead'[v] {
        if v == w && !dead[w] {
          assert p[n] == v && q[n].Failed?;
        } else {
          var j :| 0 <= j < n && producer[j] == v && queue[j].Failed?;
          assert p[j] == v && q[j].Failed?;
        }
      }
    }
    forall j, k | 0 <= j < k < |q| && q[j].Failed? && q[k].Failed?
      ensures p[j] != p[k]
    {
      if k == n {
        assert !dead[w];
      }
    }
    forall j | 0 <= j < |q| && q[j].Dead?
      ensures exists k :: 0 <= k < j && q[k].Failed? && p[k] == p[j]
    {
      if j == n {
        var k :| 0 <= k < n && producer[k] == w && queue[k].Failed?;
        assert q[k].Failed? && p[k] == p[j];
      } else {
        var k :| 0 <= k < j && queue[k].Failed? && producer[k] == producer[j];
        assert q[k].Failed? && p[k] == p[j];
      }
    }
  }

  /** A worker takes the next index from S. */
  lemma StepTake<X, Y>(items: seq<X>, work: X -> Outcome<Y>, np: nat,
                       tasks: seq<Task>, status: seq<Status>, dead: seq<bool>, running: nat,
                       taken: nat, queue: seq<Record<Y>>, origin: seq<nat>, producer: seq<nat>, w: nat)
    requires Running(items, work, np, tasks, status, dead, running, taken, queue, origin, producer)
    requires w < np && status[w] == Idle && taken < |items|
    ensures tasks != [] && tasks[0] == Item(taken)
    ensures Running(items, work, np, tasks[1..], status[w := Holding(taken)], dead, running,
                    taken + 1, queue, origin, producer)
    ensures Count(status[w := Holding(taken)], IsHolding) == Count(status, IsHolding) + 1
  {
    CountPositive(status, IsRunning, w);
    TakeFront(tasks, |items|, taken, running);
    CountUpdate(status, IsHolding, w, Holding(taken));
    CountUpdate(status, IsRunning, w, Holding(taken));
    LedgerTake(taken, status, origin, w);
  }

  /** A worker takes a sentinel from S and stops. */
  lemma StepStop<X, Y>(items: seq<X>, work: X -> Outcome<Y>, np: nat,
                       tasks: seq<Task>, status: seq<Status>, dead: seq<bool>, running: nat,
                       taken: nat, queue: seq<Record<Y>>, origin: seq<nat>, producer: seq<nat>, w: nat)
    requires Running(items, work, np, tasks, status, dead, running, taken, queue, origin, producer)
    requires w < np && status[w] == Idle && taken == |items|
    ensures tasks != [] && tasks[0] == Sentinel && running > 0
    ensures Running(items, work, np, tasks[1..], status[w := Stopped], dead, running - 1,
                    taken, queue, origin, producer)
    ensures Count(status[w := Stopped], IsHolding) == Count(status, IsHolding)
  {
    CountPositive(status, IsRunning, w);
    TakeFront(tasks, |items|, taken, running);
    CountUpdate(status, IsHolding, w, Stopped);
    CountUpdate(status, IsRunning, w, Stopped);
    LedgerStop(taken, status, origin, w);
  }

  /** A worker finishes the item it holds and puts one record on Q. */
  lemma StepFinish<X, Y>(items: seq<X>, work: X -> Outcome<Y>, np: nat,
                         tasks: seq<Task>, status: seq<Status>, dead: seq<bool>, running: nat,
                         taken: nat, queue: seq<Record<Y>>, origin: seq<nat>, producer: seq<nat>,
                         w: nat, rec: Record<Y>, dead': seq<bool>)
    requires Running(items, work, np, tasks, status, dead, running, taken, queue, origin, producer)
    requires w < np && status[w].Holding?
    requires var i := status[w].index;
      && (dead[w] ==> rec == Dead && dead' == dead)
      && (i < |items| && !dead[w] && work(items[i]).Returned? ==> rec == Done(i, work(items[i]).value) && dead' == dead)
      && (i < |items| && !dead[w] && work(items[i]).Raised? ==>
            rec == Failed(work(items[i]).exc, work(items[i]).trace) && dead' == dead[w := true])
    ensures status[w].index < |items|
    ensures Running(items, work, np, tasks, status[w := Idle], dead', running, taken,
                    queue + [rec], origin + [status[w].index], producer + [w])
    ensures Count(status[w := Idle], IsHolding) + 1 == Count(status, IsHolding)
  {
    var i := status[w].index;
    LedgerFinish(taken, status, origin, w);
    RecordsFinish(items, work, np, dead, queue, origin, producer, w, i, rec, dead');
    CountUpdate(status, IsRunning, w, Idle);
    CountUpdate(status, IsHolding, w, Idle);
  }

  /** The state after the master has filled S and before any worker has moved. */
  lemma StepsStart<X, Y>(items: seq<X>, work: X -> Outcome<Y>, np: nat, tasks: seq<Task>)
    requires np > 0 || |items| == 0
    requires tasks == seq(|items|, k requires 0 <= k => Item(k)) + seq(np, k => Sentinel)
    ensures Running(items, work, np, tasks, seq(np, w => Idle), seq(np, w => false), np, 0,
                    [], [], [])
  {
    CountAll(np, Idle, IsRunning);
    CountAll(np, Idle, IsHolding);
    assert seq(|items| - 0, k requires 0 <= k => Item(0 + k)) == seq(|items|, k requires 0 <= k => Item(k));
  }

  /** Once no worker runs, nothing is held and every taken item has its record. */
  lemma StepsDone<X, Y>(items: seq<X>, work: X -> Outcome<Y>, np: nat,
                        tasks: seq<Task>, status: seq<Status>, dead: seq<bool>,
                        taken: nat, queue: seq<Record<Y>>, origin: seq<nat>, producer: seq<nat>)
    requires Running(items, work, np, tasks, status, dead, 0, taken, queue, origin, producer)
    ensures Complete(items, work, np, queue, origin, producer)
  {
    forall v | 0 <= v < |status|
      ensures !status[v].Holding?
    {
      if status[v].Holding? {
        CountPositive(status, IsRunning, v);
      }
    }
    CountNone(status, IsHolding);
  }

  /**
   * The record a worker holding item i puts on Q: `(None, None)` once it is dead, otherwise
   * the outcome of running the work on item i.
   */
  function Answer<X, Y>(items: seq<X>, work: X -> Outcome<Y>, isDead: bool, i: nat): (rec: Record<Y>)
    requires i < |items|
    ensures rec.Dead? <==> isDead
    ensures !isDead ==> Fits(items, work, rec, i) && (rec.Failed? <==> work(items[i]).Raised?)
  {
    if isDead then Dead
    else
      match work(items[i])
      case Returned(v) => Done(i, v)
      case Raised(e, trace) => Failed(e, trace)
  }

  /**
   * One move of worker w in the `slave` loop: an idle worker takes the front of S (a
   * sentinel stops it, an index is held); a worker holding item i puts its one record on Q.
   * Each move shortens S or empties a worker's hands, so the run ends.
   */
  method Move<X, Y>(items: seq<X>, work: X -> Outcome<Y>, np: nat,
                    tasks: seq<Task>, status: seq<Status>, dead: seq<bool>, running: nat, ghost taken: nat,
                    queue: seq<Record<Y>>, ghost origin: seq<nat>, ghost producer: seq<nat>, w: nat)
    returns (tasks': seq<Task>, status': seq<Status>, dead': seq<bool>, running': nat, ghost taken': nat,
             queue': seq<Record<Y>>, ghost origin': seq<nat>, ghost producer': seq<nat>)
    requires Running(items, work, np, tasks, status, dead, running, taken, queue, origin, producer)
    requires w < np && !status[w].Stopped?
    ensures Running(items, work, np, tasks', status', dead', running', taken', queue', origin', producer')
    ensures 2 * |tasks'| + Count(status', IsHolding) < 2 * |tasks| + Count(status, IsHolding)
    ensures status[w].Holding? ==> status[w].index < |items|
    ensures status[w].Holding? ==>
      var rec := Answer(items, work, dead[w], status[w].index);
      queue' == queue + [rec] && dead' == (if rec.Failed? then dead[w := true] else dead)
    ensures status[w].Idle? ==> queue' == queue && dead' == dead
  {
    tasks', status', dead', running', taken' := tasks, status, dead, running, taken;
    queue', origin', producer' := queue, origin, producer;
    match status[w] {
      case Idle =>
        if taken < |items| {
          StepTake(items, work, np, tasks, status, dead, running, taken, queue, origin, producer, w);
        } else {
          StepStop(items, work, np, tasks, status, dead, running, taken, queue, origin, producer, w);
        }
        var task := tasks[0];
        tasks' := tasks[1..];
        if task.Sentinel? {
          status' := status[w := Stopped];
          running' := running - 1;
        } else {
          status' := status[w := Holding(task.index)];
          taken' := taken + 1;
        }
      case Holding(i) =>
        var rec: Record<Y>;
        if dead[w] {
          rec := Dead;
        } else {
          assert i < taken <= |items|;
          match work(items[i]) {
            case Returned(v) =>
              rec := Done(i, v);
            case Raised(e, trace) =>
              rec := Failed(e, trace);
              dead' := dead[w := true];
          }
        }
        StepFinish(items, work, np, tasks, status, dead, running, taken, queue, origin, producer, w, rec, dead');
        queue', origin', producer' := queue + [rec], origin + [i], producer + [w];
        status' := status[w := Idle];
    }
  }

  /**
   * The workers' side of `Pool.map`: the master enqueues every index and one sentinel per
   * worker; the workers then move as the schedule says until all have stopped.  The result
   * queue ends with exactly one record per item.
   */
  method RunWorkers<X, Y>(items: seq<X>, work: X -> Outcome<Y>, np: nat, schedule: seq<nat>)
    returns (queue: seq<Record<Y>>, ghost origin: seq<nat>, ghost producer: seq<nat>)
    requires np > 0 || |items| == 0
    ensures |queue| == |items|
    ensures Complete(items, work, np, queue, origin, producer)
  {
    var tasks: seq<Task> := [];
    for i := 0 to |items|
      invariant tasks == seq(i, k requires 0 <= k => Item(k))
    {
      tasks := tasks + [Item(i)];
    }
    for r := 0 to np
      invariant tasks == seq(|items|, k requires 0 <= k => Item(k)) + seq(r, k => Sentinel)
    {
      tasks := tasks + [Sentinel];
    }
    var status := seq(np, w => Idle);
    var dead := seq(np, w => false);
    var running := np;
    queue, origin, producer := [], [], [];
    ghost var taken := 0;
    StepsStart(items, work, np, tasks);
    var t := 0;
    while running > 0
      invariant t <= |schedule|
      invariant Running(items, work, np, tasks, status, dead, running, taken, queue, origin, producer)
      decreases |schedule| - t, 2 * |tasks| + Count(status, IsHolding)
    {
      var w: nat;
      if t < |schedule| {
        w := schedule[t];
        t := t + 1;
        if w >= np || status[w].Stopped? {
          continue;
        }
      } else {
        w := FirstRunning(status);
      }
      tasks, status, dead, running, taken, queue, origin, producer :=
        Move(items, work, np, tasks, status, dead, running, taken, queue, origin, producer, w);
    }
    StepsDone(items, work, np, tasks, status, dead, taken, queue, origin, producer);
  }

  /** `callback(r)` when a callback is given, r itself otherwise. */
  function Apply<Y>(callback: Option<Y -> Y>, v: Y): (r: Y)
    ensures callback.None? ==> r == v
    ensures callback.Some? ==> r == callback.value(v)
  {
    match callback
    case None => v
    case Some(f) => f(v)
  }

  /** R: the successes among the records, in collection order, with the callback applied. */
  function Successes<Y>(records: seq<Record<Y>>, callback: Option<Y -> Y>): (rs: seq<(nat, Y)>)
    ensures |rs| + |Failures(records)| <= |records|
  {
    if records == [] then []
    else
      Successes(records[..|records| - 1], callback) + Success(records[|records| - 1], callback)
  }

  /** What one record adds to R: `(i, callback(out))` for a success, nothing otherwise. */
  function Success<Y>(rec: Record<Y>, callback: Option<Y -> Y>): (s: seq<(nat, Y)>) {
    match rec
    case Done(i, v) => [(i, Apply(callback, v))]
    case _ => []
  }

  /** The error list: every `(exc, trace)` record, in collection order. */
  function Failures<Y>(records: seq<Record<Y>>): (fs: seq<(string, string)>)
    ensures |fs| <= |records|
  {
    if records == [] then []
    else
      Failures(records[..|records| - 1]) + Failure(records[|records| - 1])
  }

  /** What one record adds to the error list: `(exc, trace)` for a failure, nothing otherwise. */
  function Failure<Y>(rec: Record<Y>): (f: seq<(string, string)>) {
    match rec
    case Failed(e, t) => [(e, t)]
    case _ => []
  }

  /**
   * The master's collection loop: read exactly `len` records, keep exceptions, drop dead
   * records and apply the callback to successes.  Whatever it did not read is what the
   * drain loop after `S.join()` would report as unexpected.
   */
  method Collect<Y>(queue: seq<Record<Y>>, len: nat, callback: Option<Y -> Y>)
    returns (results: seq<(nat, Y)>, errors: seq<(string, string)>, leftover: seq<Record<Y>>)
    requires len <= |queue|
    ensures results == Successes(queue[..len], callback)
    ensures errors == Failures(queue[..len])
    ensures leftover == queue[len..]
  {
    var pending := queue;
    var remaining: nat := len;
    results, errors := [], [];
    while remaining > 0
      invariant remaining <= len && pending == queue[len - remaining..]
      invariant results == Successes(queue[..len - remaining], callback)
      invariant errors == Failures(queue[..len - remaining])
    {
      ReadOne(queue, len - remaining, callback);
      var rec := pending[0];
      assert rec == queue[len - remaining];
      pending := pending[1..];
      results, errors := Take(rec, results, errors, callback);
      remaining := remaining - 1;
    }
    assert len - remaining == len;
    leftover := pending;
  }

  /** One `Q.get()` of the collection loop: file the record as an error, a result or nothing. */
  method Take<Y>(rec: Record<Y>, results: seq<(nat, Y)>, errors: seq<(string, string)>, callback: Option<Y -> Y>)
    returns (results': seq<(nat, Y)>, errors': seq<(string, string)>)
    ensures results' == results + Success(rec, callback)
    ensures errors' == errors + Failure(rec)
  {
    results', errors' := results, errors;
    match rec {
      case Failed(e, trace) =>
        errors' := errors + [(e, trace)];
      case Dead =>
      case Done(i, v) =>
        results' := results + [(i, Apply(callback, v))];
    }
  }

  /** Reading record n extends R and the error list by what that record contributes. */
  lemma ReadOne<Y>(queue: seq<Record<Y>>, n: nat, callback: Option<Y -> Y>)
    requires n < |queue|
    ensures Successes(queue[..n + 1], callback) == Successes(queue[..n], callback) + Success(queue[n], callback)
    ensures Failures(queue[..n + 1]) == Failures(queue[..n]) + Failure(queue[n])
  {
    var read := queue[..n + 1];
    assert read[..|read| - 1] == queue[..n];
    assert read[|read| - 1] == queue[n];
  }

  predicate Distinct(s: seq<nat>) {
    forall a, b :: 0 <= a < b < |s| ==> s[a] != s[b]
  }

  /** s lists each of 0 .. n-1 exactly once. */
  predicate Permutation(s: seq<nat>, n: nat) {
    |s| == n && (forall k :: 0 <= k < |s| ==> s[k] < n) && Distinct(s)
  }

  predicate Increasing(s: seq<nat>) {
    forall a, b :: 0 <= a < b < |s| ==> s[a] < s[b]
  }

  /**
   * `heapq.heapify(R)` followed by `len(R)` calls of `heappop`: each pop removes the pair
   * with the least index still on the heap.  The result is R rearranged (`order` gives,
   * for each pop, the position in R it came from) with the indices in ascending order.
   */
  method PopInOrder<Y>(results: seq<(nat, Y)>) returns (out: seq<Y>, ghost order: seq<nat>)
    ensures Permutation(order, |results|) && |out| == |results|
    ensures forall k :: 0 <= k < |out| ==> out[k] == results[order[k]].1
    ensures forall a, b :: 0 <= a < b < |order| ==> results[order[a]].0 <= results[order[b]].0
  {
    var heap: seq<nat> := seq(|results|, k => k);
    out, order := [], [];
    while heap != []
      invariant Popping(results, heap, order, out)
      decreases |heap|
    {
      var m := LeastIndex(results, heap);
      PopStep(results, heap, order, out, m);
      out, order := out + [results[heap[m]].1], order + [heap[m]];
      heap := heap[..m] + heap[m + 1..];
    }
  }

  /**
   * Midway through the pops: `heap` holds the positions of R not yet popped, `order` those
   * popped, in ascending index order and never above what is still on the heap.
   */
  ghost predicate Popping<Y>(results: seq<(nat, Y)>, heap: seq<nat>, order: seq<nat>, out: seq<Y>) {
    && |order| + |heap| == |results| && |out| == |order|
    && Distinct(heap) && Distinct(order)
    && (forall k :: 0 <= k < |heap| ==> heap[k] < |results|)
    && (forall k :: 0 <= k < |order| ==> order[k] < |results| && out[k] == results[order[k]].1)
    && (forall a, b :: 0 <= a < |order| && 0 <= b < |heap| ==> order[a] != heap[b])
    && (forall a, b :: 0 <= a < |order| && 0 <= b < |heap| ==> results[order[a]].0 <= results[heap[b]].0)
    && (forall a, b :: 0 <= a < b < |order| ==> results[order[a]].0 <= results[order[b]].0)
  }

  /** Popping the least entry keeps the pop order sorted and loses nothing. */
  lemma PopStep<Y>(results: seq<(nat, Y)>, heap: seq<nat>, order: seq<nat>, out: seq<Y>, m: nat)
    requires Popping(results, heap, order, out)
    requires m < |heap| && forall b :: 0 <= b < |heap| ==> results[heap[m]].0 <= results[heap[b]].0
    ensures Popping(results, heap[..m] + heap[m + 1..], order + [heap[m]], out + [results[heap[m]].1])
  {
    var h := heap[..m] + heap[m + 1..];
    var o := order + [heap[m]];
    var u := out + [results[heap[m]].1];
    assert forall b :: 0 <= b < |h| ==> h[b] == if b < m then heap[b] else heap[b + 1];
    assert forall a :: 0 <= a < |order| ==> o[a] == order[a] && u[a] == out[a];
    forall a, b | 0 <= a < b < |h|
      ensures h[a] != h[b]
    {
      if b < m {
      } else if a < m {
        assert h[b] == heap[b + 1];
      } else {
        assert h[a] == heap[a + 1] && h[b] == heap[b + 1];
      }
    }
    forall a, b | 0 <= a < |o| && 0 <= b < |h|
      ensures o[a] != h[b] && results[o[a]].0 <= results[h[b]].0
    {
      var b' := if b < m then b else b + 1;
      assert h[b] == heap[b'] && b' != m;
    }
  }

  /** Position in `heap` of the pair with the least index. */
  method LeastIndex<Y>(results: seq<(nat, Y)>, heap: seq<nat>) returns (m: nat)
    requires heap != [] && forall k :: 0 <= k < |heap| ==> heap[k] < |results|
    ensures m < |heap| && forall b :: 0 <= b < |heap| ==> results[heap[m]].0 <= results[heap[b]].0
  {
    m := 0;
    var j := 1;
    while j < |heap|
      invariant m < j <= |heap|
      invariant forall b :: 0 <= b < j ==> results[heap[m]].0 <= results[heap[b]].0
    {
      if results[heap[j]].0 < results[heap[m]].0 {
        m := j;
      }
      j := j + 1;
    }
  }

  /** Positions of the failure records, in collection order. */
  function FailedPositions<Y>(records: seq<Record<Y>>): (ps: seq<nat>)
    ensures Increasing(ps)
    ensures forall k :: 0 <= k < |ps| ==> ps[k] < |records| && records[ps[k]].Failed?
    ensures forall j :: 0 <= j < |records| && records[j].Failed? ==> j in ps
  {
    if records == [] then []
    else
      var init := records[..|records| - 1];
      assert forall j :: 0 <= j < |init| ==> init[j] == records[j];
      FailedPositions(init) + if records[|records| - 1].Failed? then [|records| - 1] else []
  }

  /** The error list is the failure records at the failed positions. */
  lemma {:induction false} FailuresAt<Y>(records: seq<Record<Y>>)
    ensures |Failures(records)| == |FailedPositions(records)|
    ensures forall k :: 0 <= k < |Failures(records)| ==>
      var j := FailedPositions(records)[k];
      Failures(records)[k] == (records[j].exc, records[j].trace)
  {
    if records != [] {
      var init := records[..|records| - 1];
      FailuresAt(init);
      var fs, ps := Failures(records), FailedPositions(records);
      var fs0, ps0 := Failures(init), FailedPositions(init);
      assert |fs| == |ps|;
      forall k | 0 <= k < |fs|
        ensures fs[k] == (records[ps[k]].exc, records[ps[k]].trace)
      {
        if k < |fs0| {
          assert fs[k] == fs0[k] && ps[k] == ps0[k] && init[ps0[k]] == records[ps0[k]];
        }
      }
    }
  }

  /** ks with r taken out. */
  function Without(ks: seq<nat>, r: nat): (out: seq<nat>)
    ensures forall x :: x in out <==> x in ks && x != r
    ensures Distinct(ks) ==> Distinct(out) && |out| + (if r in ks then 1 else 0) == |ks|
  {
    if ks == [] then []
    else
      var init := ks[..|ks| - 1];
      var last := ks[|ks| - 1];
      assert forall x :: x in ks <==> x in init || x == last;
      assert Distinct(ks) ==> Distinct(init) && last !in init;
      Without(init, r) + if last == r then [] else [last]
  }

  /** Distinct values drawn from rs are no more than |rs|. */
  lemma {:induction false} DistinctIn(ks: seq<nat>, rs: seq<nat>)
    requires Distinct(ks) && forall k :: 0 <= k < |ks| ==> ks[k] in rs
    ensures |ks| <= |rs|
    decreases |rs|
  {
    if rs != [] {
      var r := rs[|rs| - 1];
      var init := rs[..|rs| - 1];
      var rest := Without(ks, r);
      forall k | 0 <= k < |rest|
        ensures rest[k] in init
      {
        assert rest[k] in ks && rest[k] != r;
        var a :| 0 <= a < |ks| && ks[a] == rest[k];
        assert ks[a] in rs;
      }
      DistinctIn(rest, init);
    }
  }

  /** The indices of the items whose work raises, in order. */
  function Raising<X, Y>(work: X -> Outcome<Y>, items: seq<X>): (rs: seq<nat>)
    ensures forall i: nat :: i in rs <==> i < |items| && work(items[i]).Raised?
  {
    if items == [] then []
    else
      var init := items[..|items| - 1];
      assert forall i :: 0 <= i < |init| ==> init[i] == items[i];
      Raising(work, init) + if work(items[|items| - 1]).Raised? then [|items| - 1] else []
  }

  /**
   * A worker that has raised runs no further work: every later record it puts on Q is
   * `(None, None)`.
   */
  lemma DeadWorkerSkips<X, Y>(items: seq<X>, work: X -> Outcome<Y>, np: nat,
                              queue: seq<Record<Y>>, origin: seq<nat>, producer: seq<nat>)
    requires Complete(items, work, np, queue, origin, producer)
    ensures |producer| == |queue|
    ensures forall j, k :: 0 <= j < k < |queue| && queue[j].Failed? && producer[k] == producer[j] ==>
      queue[k].Dead?
  {
    var dead :| Records(items, work, np, dead, queue, origin, producer);
  }

  /** The master raises exactly when some item's work raises. */
  lemma ErrorsIffRaising<X, Y>(items: seq<X>, work: X -> Outcome<Y>, np: nat,
                               queue: seq<Record<Y>>, origin: seq<nat>, producer: seq<nat>)
    requires Complete(items, work, np, queue, origin, producer)
    ensures |Failures(queue)| > 0 <==> exists i :: 0 <= i < |items| && work(items[i]).Raised?
  {
    if |Failures(queue)| > 0 {
      FirstErrorRaised(items, work, np, queue, origin, producer);
    }
    if exists i :: 0 <= i < |items| && work(items[i]).Raised? {
      var i :| 0 <= i < |items| && work(items[i]).Raised?;
      RaisingReported(items, work, np, queue, origin, producer, i);
    }
  }

  /**
   * An item whose work raises leaves an error record: its own, or, when its record is a
   * dead one, the earlier failure of the same worker.
   */
  lemma RaisingReported<X, Y>(items: seq<X>, work: X -> Outcome<Y>, np: nat,
                              queue: seq<Record<Y>>, origin: seq<nat>, producer: seq<nat>, i: nat)
    requires Complete(items, work, np, queue, origin, producer)
    requires i < |items| && work(items[i]).Raised?
    ensures |Failures(queue)| > 0
  {
    var dead :| Records(items, work, np, dead, queue, origin, producer);
    FailuresAt(queue);
    var ps := FailedPositions(queue);
    assert i in origin;
    var j :| 0 <= j < |origin| && origin[j] == i;
    var f := j;
    if queue[j].Dead? {
      f :| 0 <= f < j && queue[f].Failed? && producer[f] == producer[j];
    }
    assert queue[f].Failed?;
    assert f in ps;
  }

  /** At most one error per worker, and at most one per raising item. */
  lemma ErrorCountBounds<X, Y>(items: seq<X>, work: X -> Outcome<Y>, np: nat,
                               queue: seq<Record<Y>>, origin: seq<nat>, producer: seq<nat>)
    requires Complete(items, work, np, queue, origin, producer)
    ensures |Failures(queue)| <= np
    ensures |Failures(queue)| <= |Raising(work, items)|
  {
    ErrorsPerWorker(items, work, np, queue, origin, producer);
    ErrorsPerItem(items, work, np, queue, origin, producer);
  }

  /** The failures come from distinct workers: a worker stops after its first one. */
  lemma ErrorsPerWorker<X, Y>(items: seq<X>, work: X -> Outcome<Y>, np: nat,
                              queue: seq<Record<Y>>, origin: seq<nat>, producer: seq<nat>)
    requires Complete(items, work, np, queue, origin, producer)
    ensures |Failures(queue)| <= np
  {
    var dead :| Records(items, work, np, dead, queue, origin, producer);
    FailuresAt(queue);
    var ps := FailedPositions(queue);
    var workers := seq(|ps|, k requires 0 <= k < |ps| => producer[ps[k]]);
    var ranks := seq(np, w => w);
    forall k | 0 <= k < |workers|
      ensures workers[k] in ranks
    {
      assert ranks[workers[k]] == workers[k];
    }
    DistinctIn(workers, ranks);
  }

  /** The failures answer distinct items, each one whose work raises. */
  lemma ErrorsPerItem<X, Y>(items: seq<X>, work: X -> Outcome<Y>, np: nat,
                            queue: seq<Record<Y>>, origin: seq<nat>, producer: seq<nat>)
    requires Complete(items, work, np, queue, origin, producer)
    ensures |Failures(queue)| <= |Raising(work, items)|
  {
    var dead :| Records(items, work, np, dead, queue, origin, producer);
    FailuresAt(queue);
    var ps := FailedPositions(queue);
    var answered := seq(|ps|, k requires 0 <= k < |ps| => origin[ps[k]]);
    forall k | 0 <= k < |answered|
      ensures answered[k] in Raising(work, items)
    {
      assert Fits(items, work, queue[ps[k]], origin[ps[k]]);
    }
    DistinctIn(answered, Raising(work, items));
  }

  /** The trace the master reports belongs to an item whose work raised. */
  lemma FirstErrorRaised<X, Y>(items: seq<X>, work: X -> Outcome<Y>, np: nat,
                               queue: seq<Record<Y>>, origin: seq<nat>, producer: seq<nat>)
    requires Complete(items, work, np, queue, origin, producer) && |Failures(queue)| > 0
    ensures exists i :: 0 <= i < |items| && work(items[i]) == Raised(Failures(queue)[0].0, Failures(queue)[0].1)
  {
    var dead :| Records(items, work, np, dead, queue, origin, producer);
    FailuresAt(queue);
    var j := FailedPositions(queue)[0];
    assert Fits(items, work, queue[j], origin[j]);
  }

  /** Records that are all successes: R is them, in order, with the callback applied. */
  lemma {:induction false} SuccessesOfDone<Y>(records: seq<Record<Y>>, callback: Option<Y -> Y>)
    requires forall j :: 0 <= j < |records| ==> records[j].Done?
    ensures |Successes(records, callback)| == |records|
    ensures forall j :: 0 <= j < |records| ==>
      Successes(records, callback)[j] == (records[j].index, Apply(callback, records[j].value))
  {
    if records != [] {
      var init := records[..|records| - 1];
      SuccessesOfDone(init, callback);
    }
  }

  /** With no error, every record is a success and record j carries item origin[j]. */
  lemma NoErrorsAllDone<X, Y>(items: seq<X>, work: X -> Outcome<Y>, np: nat,
                              queue: seq<Record<Y>>, origin: seq<nat>, producer: seq<nat>,
                              callback: Option<Y -> Y>)
    requires Complete(items, work, np, queue, origin, producer) && |Failures(queue)| == 0
    ensures |Successes(queue, callback)| == |items| == |origin|
    ensures forall j :: 0 <= j < |items| ==>
      origin[j] < |items| && work(items[origin[j]]).Returned? &&
      Successes(queue, callback)[j] == (origin[j], Apply(callback, work(items[origin[j]]).value))
  {
    AllDone(items, work, np, queue, origin, producer);
    DoneSuccesses(items, work, queue, origin, callback);
  }

  /** With no error record, every record is the success of the item it answers. */
  lemma AllDone<X, Y>(items: seq<X>, work: X -> Outcome<Y>, np: nat,
                      queue: seq<Record<Y>>, origin: seq<nat>, producer: seq<nat>)
    requires Complete(items, work, np, queue, origin, producer) && |Failures(queue)| == 0
    ensures |origin| == |queue| == |items|
    ensures forall j :: 0 <= j < |queue| ==>
      origin[j] < |items| && work(items[origin[j]]).Returned? && queue[j] == Done(origin[j], work(items[origin[j]]).value)
  {
    var dead :| Records(items, work, np, dead, queue, origin, producer);
    FailuresAt(queue);
    forall j | 0 <= j < |queue|
      ensures origin[j] < |items| && work(items[origin[j]]).Returned? && queue[j] == Done(origin[j], work(items[origin[j]]).value)
    {
      assert queue[j].Done?;
      assert Fits(items, work, queue[j], origin[j]);
    }
  }

  lemma DoneSuccesses<X, Y>(items: seq<X>, work: X -> Outcome<Y>, queue: seq<Record<Y>>, origin: seq<nat>,
                            callback: Option<Y -> Y>)
    requires |origin| == |queue| == |items|
    requires forall j :: 0 <= j < |queue| ==>
      origin[j] < |items| && work(items[origin[j]]).Returned? && queue[j] == Done(origin[j], work(items[origin[j]]).value)
    ensures |Successes(queue, callback)| == |items|
    ensures forall j :: 0 <= j < |items| ==>
      origin[j] < |items| && work(items[origin[j]]).Returned? &&
      Successes(queue, callback)[j] == (origin[j], Apply(callback, work(items[origin[j]]).value))
  {
    SuccessesOfDone(queue, callback);
  }

  /** An increasing list of n numbers below n is 0, 1, ..., n-1. */
  lemma IncreasingIsIdentity(s: seq<nat>, n: nat)
    requires |s| == n && Increasing(s) && forall k :: 0 <= k < n ==> s[k] < n
    ensures forall k :: 0 <= k < n ==> s[k] == k
  {
    forall k | 0 <= k < n
      ensures s[k] == k
    {
      AtLeastPosition(s, k);
      AtMostPosition(s, n, k);
    }
  }

  lemma {:induction false} AtLeastPosition(s: seq<nat>, k: nat)
    requires k < |s| && Increasing(s)
    ensures s[k] >= k
  {
    if k > 0 {
      AtLeastPosition(s, k - 1);
    }
  }

  lemma {:induction false} AtMostPosition(s: seq<nat>, n: nat, k: nat)
    requires |s| == n && k < n && Increasing(s) && forall j :: 0 <= j < n ==> s[j] < n
    ensures s[k] + (n - 1 - k) <= n - 1
    decreases n - k
  {
    if k < n - 1 {
      AtMostPosition(s, n, k + 1);
    }
  }

  /**
   * Popping R from the heap yields the indices in ascending order; when R's indices are
   * 0 .. n-1 each once, pop k is the pair of item k.
   */
  lemma PoppedInIndexOrder(origin: seq<nat>, order: seq<nat>, n: nat)
    requires Permutation(origin, n) && Permutation(order, n)
    requires forall a, b :: 0 <= a < b < n ==> origin[order[a]] <= origin[order[b]]
    ensures forall k :: 0 <= k < n ==> origin[order[k]] == k
  {
    var s := seq(n, k requires 0 <= k < n => origin[order[k]]);
    forall a, b | 0 <= a < b < n
      ensures s[a] < s[b]
    {
      assert order[a] != order[b];
      assert origin[order[a]] != origin[order[b]];
    }
    IncreasingIsIdentity(s, n);
    assert forall k :: 0 <= k < n ==> s[k] == origin[order[k]];
  }

  /**
   * `map_debug`: the work applied to each item in turn, in the master itself; the first
   * item whose work raises ends the call with that exception.  The callback is not applied.
   */
  function MapDebug<X, Y>(work: X -> Outcome<Y>, items: seq<X>): (r: Result<seq<Y>, MapError>)
    ensures r.Ok? <==> forall i :: 0 <= i < |items| ==> work(items[i]).Returned?
    ensures r.Ok? ==> |r.value| == |items| && forall i :: 0 <= i < |items| ==> r.value[i] == work(items[i]).value
    ensures r.Err? ==> r.error.Propagated? && exists f :: (0 <= f < |items| &&
      work(items[f]) == Raised(r.error.exc, r.error.trace) &&
      forall i :: 0 <= i < f ==> work(items[i]).Returned?)
  {
    if items == [] then Ok([])
    else
      match work(items[0])
      case Raised(e, trace) => Err(Propagated(e, trace))
      case Returned(v) =>
        var rest := MapDebug(work, items[1..]);
        assert forall i :: 1 <= i < |items| ==> items[i] == items[1..][i - 1];
        match rest
        case Err(error) => FirstRaisingShifts(work, items, error); Err(error)
        case Ok(values) => Ok([v] + values)
  }

  lemma FirstRaisingShifts<X, Y>(work: X -> Outcome<Y>, items: seq<X>, error: MapError)
    requires items != [] && work(items[0]).Returned? && error.Propagated?
    requires exists f :: (0 <= f < |items| - 1 && work(items[1..][f]) == Raised(error.exc, error.trace) &&
      forall i :: 0 <= i < f ==> work(items[1..][i]).Returned?)
    ensures exists f :: (0 <= f < |items| && work(items[f]) == Raised(error.exc, error.trace) &&
      forall i :: 0 <= i < f ==> work(items[i]).Returned?)
  {
    var f :| 0 <= f < |items| - 1 && work(items[1..][f]) == Raised(error.exc, error.trace) &&
      forall i :: 0 <= i < f ==> work(items[1..][i]).Returned?;
    assert forall i :: 1 <= i <= f ==> items[i] == items[1..][i - 1];
    assert work(items[f + 1]) == Raised(error.exc, error.trace);
  }

  /**
   * `Pool.map(workfunc, sequence, ordered, callback)`.  With the debug switch on, or in a
   * nested thread pool (serial), it is `map_debug`; otherwise the pool runs it.
   */
  method Map<X, Y>(debug: bool, serial: bool, np: nat, work: X -> Outcome<Y>, items: seq<X>,
                   ordered: bool, callback: Option<Y -> Y>, schedule: seq<nat>)
    returns (r: Result<seq<Y>, MapError>, ghost queue: seq<Record<Y>>, ghost origin: seq<nat>, ghost producer: seq<nat>)
    requires debug || serial || np > 0 || |items| == 0
    ensures debug || serial ==> r == MapDebug(work, items)
    ensures !debug && !serial ==> PoolOutcome(np, work, items, ordered, callback, r)
    ensures !debug && !serial ==> Complete(items, work, np, queue, origin, producer)
    ensures !debug && !serial && r.Err? ==>
      |Failures(queue)| > 0 && r.error == Aggregated(|Failures(queue)|, Failures(queue)[0].1)
    ensures !debug && !serial && r.Ok? && !ordered ==> r.value == Values(Successes(queue, callback))
  {
    if debug || serial {
      return MapDebug(work, items), [], [], [];
    }
    r, queue, origin, producer := MapPool(np, work, items, ordered, callback, schedule);
  }

  /**
   * What the pool's answer promises: it raises exactly when some item's work raises,
   * reporting between 1 and min(np, number of raising items) errors and the trace of one
   * of them; on success it returns one callback-applied value per item, by index when
   * ordered, else in some order that lists every item once.
   */
  ghost predicate PoolOutcome<X, Y>(np: nat, work: X -> Outcome<Y>, items: seq<X>,
                                    ordered: bool, callback: Option<Y -> Y>, r: Result<seq<Y>, MapError>) {
    && (r.Err? <==> exists i :: 0 <= i < |items| && work(items[i]).Raised?)
    && (r.Err? ==>
          r.error.Aggregated? && 1 <= r.error.count <= np && r.error.count <= |Raising(work, items)| &&
          exists i :: 0 <= i < |items| && work(items[i]).Raised? && work(items[i]).trace == r.error.firstTrace)
    && (r.Ok? && ordered ==>
          |r.value| == |items| &&
          forall i :: 0 <= i < |items| ==> work(items[i]).Returned? && r.value[i] == Apply(callback, work(items[i]).value))
    && (r.Ok? && !ordered ==>
          |r.value| == |items| &&
          exists order :: Permutation(order, |items|) && forall k :: 0 <= k < |items| ==>
            work(items[order[k]]).Returned? && r.value[k] == Apply(callback, work(items[order[k]]).value))
  }

  /**
   * The pool proper: run the workers, collect `len(sequence)` records, assemble the answer.
   * Q is returned as a ghost: the error raised carries the number of failures read from Q
   * and the trace of the first one; without failures, the unordered answer lists the
   * values in the order they were read.
   */
  method MapPool<X, Y>(np: nat, work: X -> Outcome<Y>, items: seq<X>,
                       ordered: bool, callback: Option<Y -> Y>, schedule: seq<nat>)
    returns (r: Result<seq<Y>, MapError>, ghost queue: seq<Record<Y>>, ghost origin: seq<nat>, ghost producer: seq<nat>)
    requires np > 0 || |items| == 0
    ensures PoolOutcome(np, work, items, ordered, callback, r)
    ensures Complete(items, work, np, queue, origin, producer)
    ensures r.Err? <==> |Failures(queue)| > 0
    ensures r.Err? ==> |Failures(queue)| > 0 && r.error == Aggregated(|Failures(queue)|, Failures(queue)[0].1)
    ensures r.Ok? && !ordered ==> r.value == Values(Successes(queue, callback))
  {
    var len := |items|;
    var q;
    q, origin, producer := RunWorkers(items, work, np, schedule);
    queue := q;
    assert q[..len] == q;
    var results, errors, leftover := Collect(q, len, callback);
    assert results == Successes(queue, callback) && errors == Failures(queue);
    if errors != [] {
      FailedOutcome(np, work, items, ordered, callback, queue, origin, producer);
      r := Err(Aggregated(|errors|, errors[0].1));
      return;
    }
    NoErrorsAllDone(items, work, np, queue, origin, producer, callback);
    var values := Assemble(results, ordered, work, items, callback, origin);
    OkAnswer(np, work, items, ordered, callback, queue, origin, producer, values);
    r := Ok(values);
  }

  /**
   * With no failure on Q, the values assembled from R are the answer the pool promises:
   * by index when ordered, in collection order (a permutation of the items) otherwise.
   */
  lemma OkAnswer<X, Y>(np: nat, work: X -> Outcome<Y>, items: seq<X>, ordered: bool, callback: Option<Y -> Y>,
                       queue: seq<Record<Y>>, origin: seq<nat>, producer: seq<nat>, values: seq<Y>)
    requires Complete(items, work, np, queue, origin, producer) && |Failures(queue)| == 0
    requires |values| == |items|
    requires ordered ==>
      forall i :: 0 <= i < |items| ==> work(items[i]).Returned? && values[i] == Apply(callback, work(items[i]).value)
    requires !ordered ==> values == Values(Successes(queue, callback))
    ensures PoolOutcome(np, work, items, ordered, callback, Ok(values))
  {
    ErrorsIffRaising(items, work, np, queue, origin, producer);
    NoErrorsAllDone(items, work, np, queue, origin, producer, callback);
    if !ordered {
      assert Permutation(origin, |items|);
      assert forall k :: 0 <= k < |items| ==>
        work(items[origin[k]]).Returned? && values[k] == Apply(callback, work(items[origin[k]]).value);
    }
  }

  /** With an error received, the exception the master raises is the one the pool promises. */
  lemma FailedOutcome<X, Y>(np: nat, work: X -> Outcome<Y>, items: seq<X>, ordered: bool, callback: Option<Y -> Y>,
                            queue: seq<Record<Y>>, origin: seq<nat>, producer: seq<nat>)
    requires Complete(items, work, np, queue, origin, producer) && |Failures(queue)| > 0
    ensures PoolOutcome(np, work, items, ordered, callback, Err(Aggregated(|Failures(queue)|, Failures(queue)[0].1)))
  {
    ErrorsIffRaising(items, work, np, queue, origin, producer);
    ErrorCountBounds(items, work, np, queue, origin, producer);
    FirstErrorRaised(items, work, np, queue, origin, producer);
  }

  /** The second components of R, in R's order: the unordered answer. */
  function Values<Y>(results: seq<(nat, Y)>): (values: seq<Y>)
    ensures |values| == |results|
    ensures forall k :: 0 <= k < |results| ==> values[k] == results[k].1
  {
    seq(|results|, k requires 0 <= k < |results| => results[k].1)
  }

  /** With no error: pop R by index when ordered, else take the values in collection order. */
  method Assemble<X, Y>(results: seq<(nat, Y)>, ordered: bool, work: X -> Outcome<Y>, items: seq<X>,
                        callback: Option<Y -> Y>, ghost origin: seq<nat>)
    returns (values: seq<Y>)
    requires |results| == |items| && Permutation(origin, |items|)
    requires forall j :: 0 <= j < |items| ==>
      work(items[origin[j]]).Returned? && results[j] == (origin[j], Apply(callback, work(items[origin[j]]).value))
    ensures |values| == |items|
    ensures ordered ==>
      forall i :: 0 <= i < |items| ==> work(items[i]).Returned? && values[i] == Apply(callback, work(items[i]).value)
    ensures !ordered ==> values == Values(results)
    ensures !ordered ==>
      exists order :: Permutation(order, |items|) && forall k :: 0 <= k < |items| ==>
        work(items[order[k]]).Returned? && values[k] == Apply(callback, work(items[order[k]]).value)
  {
    if ordered {
      ghost var order;
      values, order := PopInOrder(results);
      assert forall j :: 0 <= j < |items| ==> results[j].0 == origin[j];
      PoppedInIndexOrder(origin, order, |items|);
      forall i | 0 <= i < |items|
        ensures work(items[i]).Returned? && values[i] == Apply(callback, work(items[i]).value)
      {
        assert origin[order[i]] == i;
        assert values[i] == results[order[i]].1;
      }
      return;
    }
    values := Values(results);
    assert forall k :: 0 <= k < |items| ==>
      work(items[origin[k]]).Returned? && values[k] == Apply(callback, work(items[origin[k]]).value);
  }
}
