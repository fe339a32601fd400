/**
 * The worker pool of src/thread_pool.c: a bounded circular FIFO of client
 * tasks (`queue`, `head`, `tail`, `count`) with a one-way `shutdown` flag.
 * Every operation runs under the pool's lock in the source; here each one is
 * an atomic step on the pool object, and the threads themselves are not
 * modelled. `Contents` is the queue as the workers will see it, oldest first.
 */
module ThreadPool {
  import opened Wrappers

  /** A `task_t`: an accepted socket and the peer's address text. */
  datatype Task = Task(clientSocket: int, clientAddr: string)

  /** What a worker does after one pass under the lock. */
  datatype WorkerAction =
    | Wait            // no task and no shutdown: block on the condition variable
    | Exit            // shutdown is set: leave without taking a task
    | Run(task: Task) // a task was taken from the head of the queue

  // ---------------------------------------------------------------------
  // The ring as a value

  /** `x` brought back into `[0, n)` for `0 <= x < 2n`: what `x % n` yields there. */
  function Wrap(x: int, n: int): int {
    if x >= n then x - n else x
  }

  /** The queue slots read starting at `head`, so that the oldest pending task comes first. */
  function Rotation(q: seq<Option<Task>>, head: int): (r: seq<Option<Task>>)
    requires 0 <= head <= |q|
    ensures |r| == |q|
  {
    q[head..] + q[..head]
  }

  /** The slot layout of a queue of capacity `n` holding `c`: the tasks in order, then empty slots. */
  function Layout(c: seq<Task>, n: int): (r: seq<Option<Task>>)
    requires |c| <= n
    ensures |r| == n
  {
    seq(n, i requires 0 <= i < n => if i < |c| then Some(c[i]) else None)
  }

  /** The non-NULL slots of `q`, in index order. */
  function Occupied(q: seq<Option<Task>>): (r: seq<Task>)
    ensures |r| <= |q|
  {
    if q == [] then []
    else Occupied(q[..|q| - 1]) + (match q[|q| - 1] case Some(t) => [t] case None => [])
  }

  lemma RotationIndex(q: seq<Option<Task>>, head: int, i: int)
    requires 0 <= head < |q| && 0 <= i < |q|
    ensures 0 <= Wrap(head + i, |q|) < |q|
    ensures Rotation(q, head)[i] == q[Wrap(head + i, |q|)]
  {
  }

  /** Writing slot `head + k` (wrapped) changes the rotated view at position `k` only. */
  lemma RotationUpdate(q: seq<Option<Task>>, head: int, k: int, x: Option<Task>)
    requires 0 <= head < |q| && 0 <= k < |q|
    ensures 0 <= Wrap(head + k, |q|) < |q|
    ensures Rotation(q[Wrap(head + k, |q|) := x], head) == Rotation(q, head)[k := x]
  {
    var q' := q[Wrap(head + k, |q|) := x];
    forall i | 0 <= i < |q| ensures Rotation(q', head)[i] == Rotation(q, head)[k := x][i] {
      RotationIndex(q', head, i);
      RotationIndex(q, head, i);
    }
  }

  /** Clearing the head slot and advancing `head` drops the first element of the rotated view. */
  lemma RotationAdvance(q: seq<Option<Task>>, head: int, x: Option<Task>)
    requires 0 <= head < |q|
    ensures 0 <= Wrap(head + 1, |q|) < |q|
    ensures Rotation(q[head := x], Wrap(head + 1, |q|)) == Rotation(q, head)[1..] + [x]
  {
    var q' := q[head := x];
    var h' := Wrap(head + 1, |q|);
    var l, r := Rotation(q', h'), Rotation(q, head)[1..] + [x];
    forall i | 0 <= i < |q| ensures l[i] == r[i] {
      RotationIndex(q', h', i);
      if i < |q| - 1 {
        RotationIndex(q, head, i + 1);
      }
    }
  }

  lemma LayoutPush(c: seq<Task>, t: Task, n: int)
    requires |c| < n
    ensures Layout(c, n)[|c| := Some(t)] == Layout(c + [t], n)
  {
  }

  lemma LayoutPop(c: seq<Task>, n: int)
    requires 0 < |c| <= n
    ensures Layout(c, n)[0] == Some(c[0])
    ensures Layout(c, n)[1..] + [None] == Layout(c[1..], n)
  {
  }

  lemma {:induction false} OccupiedAppend(a: seq<Option<Task>>, b: seq<Option<Task>>)
    ensures Occupied(a + b) == Occupied(a) + Occupied(b)
    decreases |b|
  {
    if b == [] {
      assert a + b == a;
    } else {
      assert (a + b)[..|a + b| - 1] == a + b[..|b| - 1];
      OccupiedAppend(a, b[..|b| - 1]);
    }
  }

  lemma {:induction false} OccupiedLayout(c: seq<Task>, n: int)
    requires |c| <= n
    ensures Occupied(Layout(c, n)) == c
    decreases n
  {
    if n > 0 {
      var l := Layout(c, n);
      if |c| < n {
        assert l[..n - 1] == Layout(c, n - 1);
        OccupiedLayout(c, n - 1);
      } else {
        var c' := c[..n - 1];
        assert l[..n - 1] == Layout(c', n - 1);
        OccupiedLayout(c', n - 1);
        assert c' + [c[n - 1]] == c;
      }
    }
  }

  /** One more slot read: its task, if any, comes after the ones before it. */
  lemma OccupiedStep(q: seq<Option<Task>>, i: int)
    requires 0 <= i < |q|
    ensures Occupied(q[..i + 1]) == Occupied(q[..i]) + (match q[i] case Some(t) => [t] case None => [])
  {
    assert q[..i + 1][..i] == q[..i];
  }

  /** The non-NULL slots of a well-formed ring are exactly its pending tasks, each once. */
  lemma OccupiedArePending(q: seq<Option<Task>>, head: int, c: seq<Task>)
    requires 0 <= head <= |q| && |c| <= |q|
    requires Rotation(q, head) == Layout(c, |q|)
    ensures multiset(Occupied(q)) == multiset(c)
  {
    var a, b := q[..head], q[head..];
    assert q == a + b;
    OccupiedAppend(a, b);
    OccupiedAppend(b, a);
    assert Rotation(q, head) == b + a;
    OccupiedLayout(c, |q|);
    assert Occupied(b + a) == c;
    calc {
      multiset(Occupied(q));
      multiset(Occupied(a) + Occupied(b));
      multiset(Occupied(a)) + multiset(Occupied(b));
      multiset(Occupied(b) + Occupied(a));
      multiset(c);
    }
  }

  /** C's `(x + 1) % n` on an index of the ring. */
  lemma NextIndex(x: int, n: int)
    requires 0 <= x < n
    ensures (x + 1) % n == Wrap(x + 1, n)
  {
  }

  // ---------------------------------------------------------------------
  // The pool

  /** A `thread_pool_t` without its threads, mutex and condition variable. */
  class Pool {
    const size: int
    const queueSize: int
    const queue: array<Option<Task>>
    var head: int
    var tail: int
    var count: int
    var shutdown: bool
    ghost var Contents: seq<Task>

    /**
     * The ring invariant: `count` tasks sit at `head`, `head + 1`, ...
     * (wrapping), `tail` is the slot after the last of them, and every other
     * slot is NULL.
     */
    ghost predicate Valid()
      reads this, queue
    {
      && queue.Length == queueSize
      && 0 <= count <= queueSize
      && |Contents| == count
      && (queueSize == 0 ==> head == 0 && tail == 0)
      && (queueSize > 0 ==> 0 <= head < queueSize && tail == Wrap(head + count, queueSize))
      && Rotation(queue[..], head) == Layout(Contents, queueSize)
    }

    /** The state `thread_pool_create` leaves once its allocations succeed. */
    constructor (size: int, queueSize: int)
      requires queueSize >= 0
      ensures Valid()
      ensures this.size == size && this.queueSize == queueSize
      ensures head == 0 && tail == 0 && count == 0 && !shutdown && Contents == []
      ensures forall i :: 0 <= i < queue.Length ==> queue[i] == None
      ensures fresh(queue)
    {
      this.size := size;
      this.queueSize := queueSize;
      queue := new Option<Task>[queueSize](_ => None);
      head, tail, count := 0, 0, 0;
      shutdown := false;
      Contents := [];
    }

    /**
     * `thread_pool_add`: -1 for a NULL task, a full queue or a pool shutting
     * down, leaving everything as it was; otherwise 0 with the task stored at
     * `tail` and appended to the pending tasks.
     */
    method Add(task: Option<Task>) returns (r: int)
      requires Valid()
      modifies this, queue
      ensures Valid()
      ensures r == 0 || r == -1
      ensures r == -1 <==> task.None? || old(count) == queueSize || old(shutdown)
      ensures r == -1 ==> unchanged(this) && unchanged(queue)
      ensures r == 0 ==>
                && Contents == old(Contents) + [task.value]
                && queue[old(tail)] == task
                && (forall j :: 0 <= j < queueSize && j != old(tail) ==> queue[j] == old(queue[j]))
                && tail == (old(tail) + 1) % queueSize
                && head == old(head) && count == old(count) + 1 && shutdown == old(shutdown)
    {
      if task.None? {
        return -1;
      }
      if count == queueSize {
        return -1;
      }
      if shutdown {
        return -1;
      }
      ghost var q := queue[..];
      RotationUpdate(q, head, count, task);
      LayoutPush(Contents, task.value, queueSize);
      queue[tail] := task;
      assert queue[..] == q[tail := task];
      NextIndex(tail, queueSize);
      tail := (tail + 1) % queueSize;
      count := count + 1;
      Contents := Contents + [task.value];
      r := 0;
    }

    /**
     * One pass of `worker_thread` under the lock: exit when shutdown is set
     * (even with tasks pending), wait when the queue is empty, and otherwise
     * take the oldest task, clearing its slot and advancing `head`.
     */
    method WorkerStep() returns (action: WorkerAction)
      requires Valid()
      modifies this, queue
      ensures Valid()
      ensures old(shutdown) ==> action == Exit && unchanged(this) && unchanged(queue)
      ensures !old(shutdown) && old(count) == 0 ==> action == Wait && unchanged(this) && unchanged(queue)
      ensures !old(shutdown) && old(count) > 0 ==>
                && action == Run(old(Contents)[0])
                && Contents == old(Contents)[1..]
                && old(queue[head]) == Some(action.task) && queue[old(head)] == None
                && (forall j :: 0 <= j < queueSize && j != old(head) ==> queue[j] == old(queue[j]))
                && head == (old(head) + 1) % queueSize
                && count == old(count) - 1 && tail == old(tail) && !shutdown
    {
      if shutdown {
        return Exit;
      }
      if count == 0 {
        return Wait;
      }
      ghost var q := queue[..];
      RotationIndex(q, head, 0);
      LayoutPop(Contents, queueSize);
      RotationAdvance(q, head, None);
      var task := queue[head];
      queue[head] := None;
      assert queue[..] == q[head := None];
      NextIndex(head, queueSize);
      head := (head + 1) % queueSize;
      count := count - 1;
      Contents := Contents[1..];
      action := Run(task.value);
    }

    /**
     * The `while (1)` loop of one worker, with `handle_client` on each task
     * left to the connection model: it serves the pending tasks in the order
     * they were added until the queue is empty (and then blocks), or exits at
     * once when shutdown is set.
     */
    method RunWorker() returns (served: seq<Task>, exited: bool)
      requires Valid()
      modifies this, queue
      ensures Valid()
      ensures old(shutdown) ==> exited && served == [] && unchanged(this) && unchanged(queue)
      ensures !old(shutdown) ==> !exited && served == old(Contents) && Contents == [] && !shutdown
    {
      served := [];
      while true
        invariant Valid()
        invariant old(shutdown) ==> served == [] && unchanged(this) && unchanged(queue)
        invariant !old(shutdown) ==> !shutdown && served + Contents == old(Contents)
        decreases count
      {
        ghost var pending := Contents;
        var action := WorkerStep();
        match action
        case Exit =>
          return served, true;
        case Wait =>
          assert Contents == [];
          return served, false;
        case Run(t) =>
          assert pending == [t] + Contents;
          assert (served + [t]) + Contents == served + pending;
          served := served + [t];
      }
    }

    /**
     * `thread_pool_destroy` on a live pool: nothing when shutdown is already
     * set; otherwise set it for good and close, in slot order, the socket of
     * every task still queued, which are exactly the pending tasks.
     */
    method Destroy() returns (closed: seq<Task>)
      requires Valid()
      modifies this
      ensures Valid() && shutdown
      ensures old(shutdown) ==> closed == [] && unchanged(this)
      ensures !old(shutdown) ==> closed == Occupied(queue[..]) && multiset(closed) == multiset(Contents)
      ensures head == old(head) && tail == old(tail) && count == old(count) && Contents == old(Contents)
    {
      if shutdown {
        return [];
      }
      shutdown := true;
      closed := [];
      ghost var q := queue[..];
      var i := 0;
      while i < queueSize
        invariant 0 <= i <= queueSize
        invariant closed == Occupied(q[..i])
        invariant queue[..] == q
        invariant unchanged(`head, `tail, `count, `Contents) && shutdown
      {
        OccupiedStep(q, i);
        if queue[i].Some? {
          closed := closed + [queue[i].value];
        }
        i := i + 1;
      }
      assert q[..queueSize] == q;
      OccupiedArePending(q, head, Contents);
    }
  }

  /**
   * `thread_pool_create`: NULL for negative sizes (their allocations fail)
   * or when an allocation, the lock set-up or a thread start fails
   * (`resourcesOk` false); otherwise an empty, running pool.
   */
  method Create(size: int, queueSize: int, resourcesOk: bool) returns (pool: Pool?)
    ensures pool == null <==> size < 0 || queueSize < 0 || !resourcesOk
    ensures pool != null ==>
              && fresh(pool) && pool.Valid()
              && pool.size == size && pool.queueSize == queueSize
              && pool.head == 0 && pool.tail == 0 && pool.count == 0 && !pool.shutdown
              && (forall i :: 0 <= i < pool.queue.Length ==> pool.queue[i] == None)
  {
    if size < 0 || queueSize < 0 || !resourcesOk {
      return null;
    }
    pool := new Pool(size, queueSize);
  }

  /** `thread_pool_add` with its pool pointer: a NULL pool is refused with -1. */
  method PoolAdd(pool: Pool?, task: Option<Task>) returns (r: int)
    requires pool != null ==> pool.Valid()
    modifies pool, if pool != null then {pool.queue} else {}
    ensures pool != null ==> pool.Valid()
    ensures pool == null ==> r == -1
    ensures r == 0 || r == -1
    ensures pool != null ==> (r == -1 <==> task.None? || old(pool.count) == pool.queueSize || old(pool.shutdown))
    ensures pool != null && r == -1 ==> unchanged(pool) && unchanged(pool.queue)
    ensures pool != null && r == 0 ==>
              && pool.Contents == old(pool.Contents) + [task.value]
              && pool.queue[old(pool.tail)] == task
              && (forall j :: 0 <= j < pool.queueSize && j != old(pool.tail) ==> pool.queue[j] == old(pool.queue[j]))
              && pool.tail == (old(pool.tail) + 1) % pool.queueSize
              && pool.head == old(pool.head) && pool.count == old(pool.count) + 1
              && pool.shutdown == old(pool.shutdown)
  {
    if pool == null {
      return -1;
    }
    r := pool.Add(task);
  }

  /** `thread_pool_destroy` with its pool pointer: a NULL pool is left alone. */
  method PoolDestroy(pool: Pool?) returns (closed: seq<Task>)
    requires pool != null ==> pool.Valid()
    modifies pool
    ensures pool == null ==> closed == []
    ensures pool != null ==> pool.Valid() && pool.shutdown
    ensures pool != null && !old(pool.shutdown) ==>
              closed == Occupied(pool.queue[..]) && multiset(closed) == multiset(old(pool.Contents))
    ensures pool != null && old(pool.shutdown) ==> closed == [] && unchanged(pool)
    ensures pool != null ==>
              && pool.head == old(pool.head) && pool.tail == old(pool.tail)
              && pool.count == old(pool.count) && pool.Contents == old(pool.Contents)
  {
    if pool == null {
      return [];
    }
    closed := pool.Destroy();
  }
}
