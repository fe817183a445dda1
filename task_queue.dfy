/**
 * The sequential task queue: an ordered list of task records, each moving
 * from PENDING to COMPLETED or FAILED when it is run, and a table of
 * handlers by task id.
 *
 * A handler is modelled by what calling it does: it returns a value or it
 * raises an exception with a message. Task ids are supplied by the caller
 * (in place of `uuid4`), and timestamps come from a counter that advances
 * at every reading of the clock (in place of `datetime.utcnow`).
 */
module TaskQueue {
  import opened Wrappers

  /** The four states of a task; the enum's string values play no part in the queue's behaviour. */
  datatype TaskStatus = Pending | Running | Completed | Failed

  /** What calling a handler does: returns a value, or raises an exception whose `str` is `message`. */
  datatype Outcome<V> = Returns(value: V) | Raises(message: string)

  /** A snapshot of a task record's fields. */
  datatype TaskInfo<V> = TaskInfo(
    taskId: string,
    description: string,
    status: TaskStatus,
    createdAt: nat,
    startedAt: Option<nat>,
    finishedAt: Option<nat>,
    result: Option<V>,
    error: Option<string>)

  const HandlerNotFound := "Task handler not found."

  /** `handlers.get(task_id)`. */
  function Lookup<V>(handlers: map<string, Outcome<V>>, taskId: string): Option<Outcome<V>>
  {
    if taskId in handlers then Some(handlers[taskId]) else None
  }

  /** How many clock readings `_run_task` takes: one without a handler, two with one. */
  function Ticks<V>(handler: Option<Outcome<V>>): nat
  {
    if handler.None? then 1 else 2
  }

  /**
   * `_run_task` on a record's fields, with the clock reading `now` first:
   * without a handler the task fails with "Task handler not found." and is
   * finished at `now`; otherwise it is started at `now`, finishes at the next
   * reading, and is COMPLETED with the handler's value or FAILED with its
   * exception message.
   */
  function Execute<V>(info: TaskInfo<V>, handler: Option<Outcome<V>>, now: nat): (r: TaskInfo<V>)
    ensures r.status == Completed || r.status == Failed
    ensures r.taskId == info.taskId && r.description == info.description && r.createdAt == info.createdAt
    ensures handler.None? ==>
              r.status == Failed && r.error == Some(HandlerNotFound) && r.finishedAt == Some(now) &&
              r.startedAt == info.startedAt && r.result == info.result
    ensures handler.Some? ==> r.startedAt == Some(now) && r.finishedAt == Some(now + 1)
    ensures handler.Some? && handler.value.Returns? ==>
              r.status == Completed && r.result == Some(handler.value.value) && r.error == info.error
    ensures handler.Some? && handler.value.Raises? ==>
              r.status == Failed && r.error == Some(handler.value.message) && r.result == info.result
  {
    match handler
    case None =>
      info.(status := Failed, error := Some(HandlerNotFound), finishedAt := Some(now))
    case Some(Returns(v)) =>
      var running := info.(status := Running, startedAt := Some(now));
      running.(result := Some(v), status := Completed, finishedAt := Some(now + 1))
    case Some(Raises(message)) =>
      var running := info.(status := Running, startedAt := Some(now));
      running.(status := Failed, error := Some(message), finishedAt := Some(now + 1))
  }

  // ---------------------------------------------------------------------------
  // The queue on snapshots
  // ---------------------------------------------------------------------------

  /** The positions `>= i` holding a PENDING task, in increasing order. */
  function PendingFrom<V>(infos: seq<TaskInfo<V>>, i: nat): (r: seq<nat>)
    requires i <= |infos|
    ensures forall k :: 0 <= k < |r| ==> i <= r[k] < |infos| && infos[r[k]].status == Pending
    ensures forall j :: i <= j < |infos| && infos[j].status == Pending ==> j in r
    decreases |infos| - i
  {
    if i == |infos| then []
    else if infos[i].status == Pending then [i] + PendingFrom(infos, i + 1)
    else PendingFrom(infos, i + 1)
  }

  /** The positions of the PENDING tasks, in list order. */
  function PendingIndices<V>(infos: seq<TaskInfo<V>>): seq<nat>
  {
    PendingFrom(infos, 0)
  }

  /** The position of the first PENDING task (the one `run_next`'s loop stops at). */
  function FirstPending<V>(infos: seq<TaskInfo<V>>, i: nat): (k: Option<nat>)
    requires i <= |infos|
    ensures k.None? <==> forall j :: i <= j < |infos| ==> infos[j].status != Pending
    ensures k.Some? ==> i <= k.value < |infos| && infos[k.value].status == Pending &&
                        forall j :: i <= j < k.value ==> infos[j].status != Pending
    decreases |infos| - i
  {
    if i == |infos| then None
    else if infos[i].status == Pending then Some(i)
    else FirstPending(infos, i + 1)
  }

  /** The state after one `run_next`: the snapshots, the position run (if any) and the clock. */
  datatype Step<V> = Step(infos: seq<TaskInfo<V>>, ran: Option<nat>, clock: nat)

  /**
   * `run_next` on snapshots: the first PENDING task is run and nothing else
   * changes; with no PENDING task nothing changes at all.
   */
  function RunNextOf<V>(infos: seq<TaskInfo<V>>, handlers: map<string, Outcome<V>>, clock: nat): (s: Step<V>)
    ensures s.ran == FirstPending(infos, 0)
    ensures |s.infos| == |infos|
    ensures s.ran.None? ==> s.infos == infos && s.clock == clock
    ensures s.ran.Some? ==>
              var k := s.ran.value;
              var handler := Lookup(handlers, infos[k].taskId);
              s.infos[k] == Execute(infos[k], handler, clock) &&
              s.clock == clock + Ticks(handler) &&
              forall j :: 0 <= j < |infos| && j != k ==> s.infos[j] == infos[j]
  {
    match FirstPending(infos, 0)
    case None => Step(infos, None, clock)
    case Some(k) =>
      var handler := Lookup(handlers, infos[k].taskId);
      Step(infos[k := Execute(infos[k], handler, clock)], Some(k), clock + Ticks(handler))
  }

  /** Positions at or after `i` keep their status, so they stay pending or not pending alike. */
  lemma {:induction false} PendingFromSame<V>(a: seq<TaskInfo<V>>, b: seq<TaskInfo<V>>, i: nat)
    requires |a| == |b| && i <= |a|
    requires forall j :: i <= j < |a| ==> a[j].status == b[j].status
    ensures PendingFrom(a, i) == PendingFrom(b, i)
    decreases |a| - i
  {
    if i < |a| {
      PendingFromSame(a, b, i + 1);
    }
  }

  /** Nothing before the first PENDING position is pending. */
  lemma {:induction false} PendingFromSkip<V>(infos: seq<TaskInfo<V>>, i: nat, k: nat)
    requires i <= k <= |infos|
    requires forall j :: i <= j < k ==> infos[j].status != Pending
    ensures PendingFrom(infos, i) == PendingFrom(infos, k)
    decreases k - i
  {
    if i < k {
      PendingFromSkip(infos, i + 1, k);
    }
  }

  /** With no PENDING task at or after `i` there is no pending position there. */
  lemma {:induction false} NoPendingFrom<V>(infos: seq<TaskInfo<V>>, i: nat)
    requires i <= |infos|
    requires forall j :: i <= j < |infos| ==> infos[j].status != Pending
    ensures PendingFrom(infos, i) == []
    decreases |infos| - i
  {
    if i < |infos| {
      NoPendingFrom(infos, i + 1);
    }
  }

  /** One `run_next` that runs a task takes exactly the first pending position off the list of pending positions. */
  lemma RunNextPending<V>(infos: seq<TaskInfo<V>>, handlers: map<string, Outcome<V>>, clock: nat)
    requires RunNextOf(infos, handlers, clock).ran.Some?
    ensures var s := RunNextOf(infos, handlers, clock);
            PendingIndices(infos) == [s.ran.value] + PendingIndices(s.infos)
  {
    var s := RunNextOf(infos, handlers, clock);
    var k := s.ran.value;
    PendingFromSkip(infos, 0, k);
    forall j | 0 <= j < k
      ensures s.infos[j].status != Pending
    {
      assert s.infos[j] == infos[j];
    }
    PendingFromSkip(s.infos, 0, k + 1);
    PendingFromSame(infos, s.infos, k + 1);
  }

  /** The state after `run_all`: the snapshots, the positions run in the order they ran, and the clock. */
  datatype Drain<V> = Drain(infos: seq<TaskInfo<V>>, ran: seq<nat>, clock: nat)

  /** `run_all` on snapshots: `run_next` until it finds no PENDING task. */
  function RunAllOf<V>(infos: seq<TaskInfo<V>>, handlers: map<string, Outcome<V>>, clock: nat): Drain<V>
    decreases |PendingIndices(infos)|
  {
    var s := RunNextOf(infos, handlers, clock);
    if s.ran.None? then Drain(infos, [], clock)
    else
      RunNextPending(infos, handlers, clock);
      var rest := RunAllOf(s.infos, handlers, s.clock);
      Drain(rest.infos, [s.ran.value] + rest.ran, rest.clock)
  }

  /** With no PENDING task `run_all` runs nothing and changes nothing. */
  lemma RunAllOfNone<V>(infos: seq<TaskInfo<V>>, handlers: map<string, Outcome<V>>, clock: nat)
    requires RunNextOf(infos, handlers, clock).ran.None?
    ensures RunAllOf(infos, handlers, clock) == Drain(infos, [], clock)
  {
  }

  /** Otherwise `run_all` is one `run_next` followed by `run_all` on what it leaves, with one fewer pending task. */
  lemma RunAllOfSome<V>(infos: seq<TaskInfo<V>>, handlers: map<string, Outcome<V>>, clock: nat)
    requires RunNextOf(infos, handlers, clock).ran.Some?
    ensures var s := RunNextOf(infos, handlers, clock);
            var rest := RunAllOf(s.infos, handlers, s.clock);
            RunAllOf(infos, handlers, clock) == Drain(rest.infos, [s.ran.value] + rest.ran, rest.clock) &&
            |PendingIndices(s.infos)| < |PendingIndices(infos)|
  {
    RunNextPending(infos, handlers, clock);
  }

  /** One `run_next` of the `run_all` loop moves the position it runs from what is left to run to what has run. */
  lemma DrainStep<V>(initial: Drain<V>, ran: seq<nat>, infos: seq<TaskInfo<V>>, handlers: map<string, Outcome<V>>, clock: nat)
    requires RunNextOf(infos, handlers, clock).ran.Some?
    requires var rest := RunAllOf(infos, handlers, clock); initial == Drain(rest.infos, ran + rest.ran, rest.clock)
    ensures var s := RunNextOf(infos, handlers, clock);
            var rest := RunAllOf(s.infos, handlers, s.clock);
            initial == Drain(rest.infos, (ran + [s.ran.value]) + rest.ran, rest.clock) &&
            |PendingIndices(s.infos)| < |PendingIndices(infos)|
  {
    var s := RunNextOf(infos, handlers, clock);
    var rest := RunAllOf(s.infos, handlers, s.clock);
    RunAllOfSome(infos, handlers, clock);
    assert ran + ([s.ran.value] + rest.ran) == (ran + [s.ran.value]) + rest.ran;
  }

  /**
   * `run_all` runs exactly the tasks that were PENDING, in list order, and
   * leaves none PENDING; every task that was not pending is left as it was,
   * and every task that was pending ends COMPLETED or FAILED.
   */
  lemma {:induction false} RunAllOfSpec<V>(infos: seq<TaskInfo<V>>, handlers: map<string, Outcome<V>>, clock: nat)
    ensures var d := RunAllOf(infos, handlers, clock);
            d.ran == PendingIndices(infos) &&
            |d.infos| == |infos| &&
            PendingIndices(d.infos) == [] &&
            (forall j :: 0 <= j < |infos| && infos[j].status != Pending ==> d.infos[j] == infos[j]) &&
            (forall j :: 0 <= j < |infos| && infos[j].status == Pending ==>
               d.infos[j].status == Completed || d.infos[j].status == Failed)
    decreases |PendingIndices(infos)|
  {
    var s := RunNextOf(infos, handlers, clock);
    if s.ran.None? {
      NoPendingFrom(infos, 0);
    } else {
      RunNextPending(infos, handlers, clock);
      RunAllOfSpec(s.infos, handlers, s.clock);
      var d := RunAllOf(infos, handlers, clock);
      var k := s.ran.value;
      var rest := RunAllOf(s.infos, handlers, s.clock);
      assert d == Drain(rest.infos, [k] + rest.ran, rest.clock);
      forall j | 0 <= j < |infos| && infos[j].status == Pending
        ensures d.infos[j].status == Completed || d.infos[j].status == Failed
      {
        if j != k {
          assert s.infos[j] == infos[j];
        }
      }
    }
  }

  /** The number of tasks `run_all` returns is the number that were PENDING. */
  lemma RunAllCount<V>(infos: seq<TaskInfo<V>>, handlers: map<string, Outcome<V>>, clock: nat)
    ensures |RunAllOf(infos, handlers, clock).ran| == |set j | 0 <= j < |infos| && infos[j].status == Pending|
  {
    RunAllOfSpec(infos, handlers, clock);
    PendingCount(infos);
  }

  /** There are as many pending positions as PENDING tasks. */
  lemma PendingCount<V>(infos: seq<TaskInfo<V>>)
    ensures |PendingIndices(infos)| == |set j | 0 <= j < |infos| && infos[j].status == Pending|
  {
    PendingIndicesDistinct(infos, 0);
    var p := PendingIndices(infos);
    var pending := set j | 0 <= j < |infos| && infos[j].status == Pending;
    assert pending == set k | 0 <= k < |p| :: p[k];
    DistinctCard(p);
  }

  /** Pending positions are listed in strictly increasing order. */
  lemma {:induction false} PendingIndicesDistinct<V>(infos: seq<TaskInfo<V>>, i: nat)
    requires i <= |infos|
    ensures forall a, b :: 0 <= a < b < |PendingFrom(infos, i)| ==> PendingFrom(infos, i)[a] < PendingFrom(infos, i)[b]
    decreases |infos| - i
  {
    if i < |infos| {
      PendingIndicesDistinct(infos, i + 1);
    }
  }

  /** A strictly increasing list has as many elements as the set of its elements. */
  lemma {:induction false} DistinctCard(p: seq<nat>)
    requires forall a, b :: 0 <= a < b < |p| ==> p[a] < p[b]
    ensures |set k | 0 <= k < |p| :: p[k]| == |p|
    decreases |p|
  {
    if p != [] {
      var init := p[..|p| - 1];
      DistinctCard(init);
      var s := set k | 0 <= k < |p| :: p[k];
      var t := set k | 0 <= k < |init| :: init[k];
      assert s == t + {p[|p| - 1]};
      assert p[|p| - 1] !in t;
    }
  }

  /** `picked` lists the elements of `xs` at the positions `at`, in that order. */
  ghost predicate Picks<T>(picked: seq<T>, xs: seq<T>, at: seq<nat>)
  {
    |picked| == |at| && forall i :: 0 <= i < |at| ==> at[i] < |xs| && picked[i] == xs[at[i]]
  }

  lemma PicksSnoc<T>(picked: seq<T>, xs: seq<T>, at: seq<nat>, k: nat)
    requires Picks(picked, xs, at) && k < |xs|
    ensures Picks(picked + [xs[k]], xs, at + [k])
  {
  }

  // ---------------------------------------------------------------------------
  // The objects
  // ---------------------------------------------------------------------------

  /** `TaskRecord`: its id, description and creation time never change; the rest is updated in place. */
  class TaskRecord<V> {
    const taskId: string
    const description: string
    const createdAt: nat
    var status: TaskStatus
    var startedAt: Option<nat>
    var finishedAt: Option<nat>
    var result: Option<V>
    var error: Option<string>

    /** The record's fields as a value. */
    function View(): TaskInfo<V>
      reads this
    {
      TaskInfo(taskId, description, status, createdAt, startedAt, finishedAt, result, error)
    }

    /** A new record: PENDING, nothing started, finished, returned or raised. */
    constructor (taskId: string, description: string, createdAt: nat)
      ensures View() == TaskInfo(taskId, description, Pending, createdAt, None, None, None, None)
    {
      this.taskId := taskId;
      this.description := description;
      this.createdAt := createdAt;
      status := Pending;
      startedAt := None;
      finishedAt := None;
      result := None;
      error := None;
    }
  }

  class TaskQueue<V> {
    var tasks: seq<TaskRecord<V>>
    var handlers: map<string, Outcome<V>>
    /** The reading the clock will give next. */
    var clock: nat

    /** Each record object is listed once. */
    ghost predicate Valid()
      reads this
    {
      forall i, j :: 0 <= i < j < |tasks| ==> tasks[i] != tasks[j]
    }

    /** The records' fields, in list order. */
    ghost function Views(): seq<TaskInfo<V>>
      reads this, tasks
    {
      var ts := tasks;
      seq(|ts|, i requires 0 <= i < |ts| reads ts => ts[i].View())
    }

    /** An empty queue; the clock's first reading is `clock`. */
    constructor (clock: nat)
      ensures Valid()
      ensures tasks == [] && handlers == map[] && this.clock == clock
    {
      tasks := [];
      handlers := map[];
      this.clock := clock;
    }

    /**
     * `enqueue`: a new PENDING record with id `taskId` goes to the end of the
     * list and `handler` is registered under that id; earlier records are
     * untouched.
     */
    method Enqueue(description: string, handler: Outcome<V>, taskId: string) returns (record: TaskRecord<V>)
      requires Valid()
      modifies this
      ensures Valid()
      ensures fresh(record)
      ensures record.View() == TaskInfo(taskId, description, Pending, old(clock), None, None, None, None)
      ensures tasks == old(tasks) + [record]
      ensures handlers == old(handlers)[taskId := handler]
      ensures clock == old(clock) + 1
      ensures Views() == old(Views()) + [record.View()]
    {
      record := new TaskRecord(taskId, description, clock);
      clock := clock + 1;
      tasks := tasks + [record];
      handlers := handlers[taskId := handler];
    }

    /** `list_tasks`: the records in enqueue order, as a new list. */
    method ListTasks() returns (r: seq<TaskRecord<V>>)
      ensures r == tasks
      ensures forall i :: 0 <= i < |r| ==> r[i].View() == Views()[i]
    {
      r := tasks;
    }

    /** `get_task`: the first record with id `taskId`, or None when there is none. */
    method GetTask(taskId: string) returns (r: Option<TaskRecord<V>>)
      ensures r.None? <==> forall i :: 0 <= i < |tasks| ==> tasks[i].taskId != taskId
      ensures r.Some? ==> exists i :: 0 <= i < |tasks| && tasks[i] == r.value && r.value.taskId == taskId &&
                                      forall j :: 0 <= j < i ==> tasks[j].taskId != taskId
    {
      var i := 0;
      while i < |tasks|
        invariant 0 <= i <= |tasks|
        invariant forall j :: 0 <= j < i ==> tasks[j].taskId != taskId
      {
        if tasks[i].taskId == taskId {
          return Some(tasks[i]);
        }
        i := i + 1;
      }
      return None;
    }

    /** `_run_task`: runs `record` with its registered handler, per `Execute`. */
    method RunTask(record: TaskRecord<V>) returns (r: TaskRecord<V>)
      modifies this, record
      ensures r == record
      ensures tasks == old(tasks) && handlers == old(handlers)
      ensures record.View() == Execute(old(record.View()), Lookup(handlers, record.taskId), old(clock))
      ensures clock == old(clock) + Ticks(Lookup(handlers, record.taskId))
    {
      var handler := Lookup(handlers, record.taskId);
      if handler.None? {
        record.status := Failed;
        record.error := Some(HandlerNotFound);
        record.finishedAt := Some(clock);
        clock := clock + 1;
        return record;
      }
      record.status := Running;
      record.startedAt := Some(clock);
      clock := clock + 1;
      match handler.value {
        case Returns(v) =>
          record.result := Some(v);
          record.status := Completed;
        case Raises(message) =>
          record.status := Failed;
          record.error := Some(message);
      }
      record.finishedAt := Some(clock);
      clock := clock + 1;
      return record;
    }

    /** `run_next`: runs the first PENDING record and returns it, or returns None when no record is PENDING. */
    method RunNext() returns (r: Option<TaskRecord<V>>)
      requires Valid()
      modifies this, tasks
      ensures Valid() && tasks == old(tasks) && handlers == old(handlers)
      ensures var s := RunNextOf(old(Views()), handlers, old(clock));
              Views() == s.infos && clock == s.clock &&
              (r.None? <==> s.ran.None?) &&
              (r.Some? ==> s.ran.Some? && r.value == tasks[s.ran.value])
    {
      ghost var before := Views();
      var i := 0;
      while i < |tasks|
        invariant 0 <= i <= |tasks|
        invariant forall j :: 0 <= j < i ==> before[j].status != Pending
      {
        var record := tasks[i];
        assert before[i] == record.View();
        if record.status == Pending {
          assert FirstPending(before, 0) == Some(i);
          var done := RunTask(record);
          assert forall j :: 0 <= j < |tasks| && j != i ==> tasks[j] != record;
          assert Views() == before[i := record.View()];
          return Some(done);
        }
        i := i + 1;
      }
      return None;
    }

    /** `run_all`: `run_next` until it returns None; the records run, in the order they ran. */
    method RunAll() returns (completed: seq<TaskRecord<V>>)
      requires Valid()
      modifies this, tasks
      ensures Valid() && tasks == old(tasks) && handlers == old(handlers)
      ensures var d := RunAllOf(old(Views()), handlers, old(clock));
              Views() == d.infos && clock == d.clock &&
              |completed| == |d.ran| &&
              forall i :: 0 <= i < |completed| ==> d.ran[i] < |tasks| && completed[i] == tasks[d.ran[i]]
    {
      ghost var hs := handlers;
      ghost var infos := Views();
      ghost var clk := clock;
      ghost var initial := RunAllOf(infos, hs, clk);
      var records := tasks;
      completed := [];
      ghost var ran: seq<nat> := [];
      while true
        invariant Valid() && tasks == records == old(tasks) && handlers == hs
        invariant Views() == infos && clock == clk
        invariant var rest := RunAllOf(infos, hs, clk);
                  initial == Drain(rest.infos, ran + rest.ran, rest.clock)
        invariant Picks(completed, records, ran)
        decreases |PendingIndices(infos)|
      {
        var record := RunNext();
        if record.None? {
          RunAllOfNone(infos, hs, clk);
          assert ran + [] == ran;
          break;
        }
        ghost var k: nat := RunNextOf(infos, hs, clk).ran.value;
        assert k < |records| && record.value == records[k];
        DrainStep(initial, ran, infos, hs, clk);
        PicksSnoc(completed, records, ran, k);
        completed := completed + [record.value];
        ran := ran + [k];
        infos := Views();
        clk := clock;
      }
      RunAllOfSpec(old(Views()), handlers, old(clock));
    }
  }
}
