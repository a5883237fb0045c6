/** `FTimeQueue`: immediate tasks, and timers in a time-ordered multimap with an index from ids to due times. */
module TimeQueue {

  type Task = int

  datatype Timer = Timer(due: int, id: nat, task: Task, aborted: bool)

  /** All of the queue's state. The multimap is the sequence of its elements in order. */
  datatype State = State(tasks: seq<Timer>, index: map<nat, int>, current: seq<Task>, counter: nat)

  /** `multimap::insert`: behind everything due at the same time or before. */
  function Insert(tasks: seq<Timer>, x: Timer): seq<Timer> {
    if tasks == [] || tasks[|tasks| - 1].due <= x.due then tasks + [x]
    else Insert(tasks[..|tasks| - 1], x) + [tasks[|tasks| - 1]]
  }

  /** `multimap::upper_bound` */
  function UpperBound(tasks: seq<Timer>, t: int): (n: nat)
    ensures n <= |tasks|
    ensures forall i :: 0 <= i < n ==> tasks[i].due <= t
    ensures n < |tasks| ==> tasks[n].due > t
  {
    if tasks == [] || tasks[0].due > t then 0 else 1 + UpperBound(tasks[1..], t)
  }

  function Ids(tasks: seq<Timer>): set<nat> {
    set x | x in tasks :: x.id
  }

  function Kept(tasks: seq<Timer>): seq<Timer> {
    if tasks == [] then []
    else Kept(tasks[..|tasks| - 1]) + if tasks[|tasks| - 1].aborted then [] else [tasks[|tasks| - 1]]
  }

  function TasksOf(tasks: seq<Timer>): seq<Task> {
    if tasks == [] then [] else TasksOf(tasks[..|tasks| - 1]) + [tasks[|tasks| - 1].task]
  }

  /** The timers that a tick at `t` returns. */
  function Fired(s: State, t: int): seq<Timer> {
    Kept(s.tasks[..UpperBound(s.tasks, t)])
  }

  datatype Op = AddNow(task: Task) | AddAt(task: Task, due: int) | Tick(time: int) | Cancel(id: nat)

  function Abort(tasks: seq<Timer>, id: nat): seq<Timer> {
    if tasks == [] then []
    else if tasks[0].id == id then [tasks[0].(aborted := true)] + tasks[1..]
    else [tasks[0]] + Abort(tasks[1..], id)
  }

  function Do(s: State, op: Op): State {
    match op
    case AddNow(task) => s.(current := s.current + [task])
    case AddAt(task, due) =>
      var id := s.counter + 1;
      State(Insert(s.tasks, Timer(due, id, task, false)), s.index[id := due], s.current, id)
    case Tick(t) =>
      var n := UpperBound(s.tasks, t);
      State(s.tasks[n..], s.index - Ids(s.tasks[..n]), [], s.counter)
    case Cancel(id) =>
      if id in s.index then s.(tasks := Abort(s.tasks, id), index := s.index - {id}) else s
  }

  /** Earlier timers come first; of those due at the same time, the one added first. */
  predicate Before(x: Timer, y: Timer) {
    x.due < y.due || (x.due == y.due && x.id < y.id)
  }

  ghost predicate Ordered(tasks: seq<Timer>) {
    forall i, j :: 0 <= i < j < |tasks| ==> Before(tasks[i], tasks[j])
  }

  ghost predicate Distinct(tasks: seq<Timer>) {
    forall i, j :: 0 <= i < j < |tasks| ==> tasks[i].id != tasks[j].id
  }

  /** The index holds exactly the pending timers that have not been cancelled, with their due times. */
  ghost predicate Indexed(tasks: seq<Timer>, index: map<nat, int>) {
    && (forall i :: 0 <= i < |tasks| && !tasks[i].aborted ==>
          tasks[i].id in index && index[tasks[i].id] == tasks[i].due)
    && (forall id :: id in index ==> Pending(tasks, id))
  }

  ghost predicate Pending(tasks: seq<Timer>, id: nat) {
    exists i :: 0 <= i < |tasks| && tasks[i].id == id && !tasks[i].aborted
  }

  ghost predicate Inv(s: State) {
    && Ordered(s.tasks) && Distinct(s.tasks) && Indexed(s.tasks, s.index)
    && forall i :: 0 <= i < |s.tasks| ==> s.tasks[i].id <= s.counter
  }

  lemma {:induction false} InsertAt(tasks: seq<Timer>, x: Timer) returns (k: nat)
    requires Ordered(tasks)
    ensures k <= |tasks| && Insert(tasks, x) == tasks[..k] + [x] + tasks[k..]
    ensures forall i :: 0 <= i < k ==> tasks[i].due <= x.due
    ensures forall i :: k <= i < |tasks| ==> x.due < tasks[i].due
  {
    if tasks == [] || tasks[|tasks| - 1].due <= x.due {
      k := |tasks|;
      assert tasks[..k] == tasks;
    } else {
      var front := tasks[..|tasks| - 1];
      k := InsertAt(front, x);
      assert front[..k] == tasks[..k] && tasks[k..] == front[k..] + [tasks[|tasks| - 1]];
    }
  }

  lemma InsertOrdered(tasks: seq<Timer>, x: Timer, k: nat)
    requires Ordered(tasks) && Distinct(tasks) && k <= |tasks| && forall i :: 0 <= i < |tasks| ==> tasks[i].id < x.id
    requires forall i :: 0 <= i < k ==> tasks[i].due <= x.due
    requires forall i :: k <= i < |tasks| ==> x.due < tasks[i].due
    ensures Ordered(tasks[..k] + [x] + tasks[k..]) && Distinct(tasks[..k] + [x] + tasks[k..])
  {
    var q := tasks[..k] + [x] + tasks[k..];
    forall i, j | 0 <= i < j < |q| ensures Before(q[i], q[j]) && q[i].id != q[j].id {
      var (a, b) := (if i < k then i else i - 1, if j < k then j else j - 1);
      if i != k && j != k {
        assert q[i] == tasks[a] && q[j] == tasks[b];
      }
    }
  }

  lemma InsertIndexed(tasks: seq<Timer>, index: map<nat, int>, x: Timer, k: nat)
    requires Indexed(tasks, index) && k <= |tasks| && !x.aborted && x.id !in index
    ensures Indexed(tasks[..k] + [x] + tasks[k..], index[x.id := x.due])
  {
    var (q, index') := (tasks[..k] + [x] + tasks[k..], index[x.id := x.due]);
    forall i | 0 <= i < |q| && !q[i].aborted ensures q[i].id in index' && index'[q[i].id] == q[i].due {
      if i != k {
        var a := if i < k then i else i - 1;
        assert q[i] == tasks[a];
      }
    }
    forall id | id in index' ensures Pending(q, id) {
      if id == x.id {
        assert q[k] == x;
      } else {
        assert Pending(tasks, id);
        var i :| 0 <= i < |tasks| && tasks[i].id == id && !tasks[i].aborted;
        var a := if i < k then i else i + 1;
        assert q[a] == tasks[i];
      }
    }
  }

  lemma AddKeeps(s: State, task: Task, due: int)
    requires Inv(s)
    ensures Inv(Do(s, AddAt(task, due)))
  {
    IndexBelow(s);
    hide Insert, Ordered, Distinct, Indexed;
    var x := Timer(due, s.counter + 1, task, false);
    var k := InsertAt(s.tasks, x);
    InsertOrdered(s.tasks, x, k);
    InsertIndexed(s.tasks, s.index, x, k);
    var q := s.tasks[..k] + [x] + s.tasks[k..];
    forall i | 0 <= i < |q| ensures q[i].id <= x.id {
      if i != k {
        var a := if i < k then i else i - 1;
        assert q[i] == s.tasks[a];
      }
    }
    assert Do(s, AddAt(task, due)) == State(q, s.index[x.id := x.due], s.current, x.id);
  }

  lemma IndexBelow(s: State)
    requires Inv(s)
    ensures forall id :: id in s.index ==> id <= s.counter
  {
    hide Ordered, Distinct;
    forall id | id in s.index ensures id <= s.counter {
      assert Pending(s.tasks, id);
    }
  }

  lemma {:induction false} AbortAt(tasks: seq<Timer>, k: nat)
    requires k < |tasks| && forall i :: 0 <= i < k ==> tasks[i].id != tasks[k].id
    ensures Abort(tasks, tasks[k].id) == tasks[k := tasks[k].(aborted := true)]
  {
    if k > 0 {
      assert tasks[1..][k - 1] == tasks[k];
      AbortAt(tasks[1..], k - 1);
      assert tasks[k := tasks[k].(aborted := true)] == [tasks[0]] + tasks[1..][k - 1 := tasks[k].(aborted := true)];
    }
  }

  lemma CancelIndexed(tasks: seq<Timer>, index: map<nat, int>, k: nat)
    requires Indexed(tasks, index) && Distinct(tasks) && k < |tasks|
    ensures Indexed(tasks[k := tasks[k].(aborted := true)], index - {tasks[k].id})
  {
    var tasks' := tasks[k := tasks[k].(aborted := true)];
    forall o | o in index - {tasks[k].id} ensures Pending(tasks', o) {
      assert Pending(tasks, o);
      var i :| 0 <= i < |tasks| && tasks[i].id == o && !tasks[i].aborted;
      assert tasks'[i] == tasks[i];
    }
  }

  lemma CancelOrdered(tasks: seq<Timer>, k: nat)
    requires Ordered(tasks) && Distinct(tasks) && k < |tasks|
    ensures Ordered(tasks[k := tasks[k].(aborted := true)]) && Distinct(tasks[k := tasks[k].(aborted := true)])
  {
  }

  lemma CancelKeeps(s: State, id: nat)
    requires Inv(s)
    ensures Inv(Do(s, Cancel(id)))
  {
    if id in s.index {
      assert Pending(s.tasks, id);
      var k :| 0 <= k < |s.tasks| && s.tasks[k].id == id && !s.tasks[k].aborted;
      AbortAt(s.tasks, k);
      hide Abort, Ordered, Distinct, Indexed;
      CancelIndexed(s.tasks, s.index, k);
      CancelOrdered(s.tasks, k);
    }
  }

  lemma IdsFront(tasks: seq<Timer>, n: nat)
    requires n <= |tasks| && Distinct(tasks)
    ensures forall i :: 0 <= i < |tasks| ==> (tasks[i].id in Ids(tasks[..n]) <==> i < n)
  {
    forall i | 0 <= i < |tasks| ensures tasks[i].id in Ids(tasks[..n]) <==> i < n {
      if i < n {
        assert tasks[..n][i] in tasks[..n];
      }
    }
  }

  lemma TickIndexed(tasks: seq<Timer>, index: map<nat, int>, n: nat)
    requires Indexed(tasks, index) && Distinct(tasks) && n <= |tasks|
    ensures Indexed(tasks[n..], index - Ids(tasks[..n]))
  {
    IdsFront(tasks, n);
    hide Ids, Distinct;
    var (later, index') := (tasks[n..], index - Ids(tasks[..n]));
    forall id | id in index' ensures Pending(later, id) {
      assert Pending(tasks, id);
      var i :| 0 <= i < |tasks| && tasks[i].id == id && !tasks[i].aborted;
      assert later[i - n] == tasks[i];
    }
  }

  lemma TickKeeps(s: State, t: int)
    requires Inv(s)
    ensures Inv(Do(s, Tick(t)))
  {
    TickIndexed(s.tasks, s.index, UpperBound(s.tasks, t));
    hide UpperBound, Indexed, Ids;
  }

  lemma DoKeeps(s: State, op: Op)
    requires Inv(s)
    ensures Inv(Do(s, op))
  {
    match op
    case AddNow(task) =>
    case AddAt(task, due) => AddKeeps(s, task, due);
    case Tick(t) => TickKeeps(s, t);
    case Cancel(id) => CancelKeeps(s, id);
  }

  // ---- What a tick returns ----

  lemma {:induction false} KeptElements(q: seq<Timer>, x: Timer)
    ensures x in Kept(q) <==> x in q && !x.aborted
  {
    if q != [] {
      KeptElements(q[..|q| - 1], x);
      assert q == q[..|q| - 1] + [q[|q| - 1]];
    }
  }

  lemma {:induction false} KeptOrdered(q: seq<Timer>)
    requires Ordered(q)
    ensures Ordered(Kept(q))
  {
    if q != [] {
      var front := q[..|q| - 1];
      KeptOrdered(front);
      forall i | 0 <= i < |Kept(front)| ensures Before(Kept(front)[i], q[|q| - 1]) {
        KeptElements(front, Kept(front)[i]);
      }
    }
  }

  /** Timers come back by due time, those due together in the order in which they were added. */
  lemma FiredInOrder(s: State, t: int)
    requires Inv(s)
    ensures Ordered(Fired(s, t))
  {
    KeptOrdered(s.tasks[..UpperBound(s.tasks, t)]);
  }

  /** What has fired was pending and due, and is gone. */
  lemma FiredWas(s: State, t: int, x: Timer)
    requires Inv(s) && x in Fired(s, t)
    ensures x in s.tasks && !x.aborted && x.due <= t && x.id in s.index && s.index[x.id] == x.due
    ensures Gone(Do(s, Tick(t)), x.id)
  {
    KeptElements(s.tasks[..UpperBound(s.tasks, t)], x);
    assert x in s.tasks[..UpperBound(s.tasks, t)];
  }

  /** An id that has been given out and is not, or no longer, pending. */
  ghost predicate Gone(s: State, id: nat) {
    id <= s.counter && id !in s.index
  }

  lemma GoneStays(s: State, op: Op, id: nat)
    requires Inv(s) && Gone(s, id)
    ensures Gone(Do(s, op), id)
    ensures op.Tick? ==> forall x :: x in Fired(s, op.time) ==> x.id != id
  {
    if op.Tick? {
      forall x | x in Fired(s, op.time) ensures x.id != id {
        FiredWas(s, op.time, x);
      }
    }
  }

  // ---- Whole runs ----

  function Exec(s: State, ops: seq<Op>): State {
    if ops == [] then s else Do(Exec(s, ops[..|ops| - 1]), ops[|ops| - 1])
  }

  /** The timers that operation `k` of a run returns. */
  function FiredAt(s: State, ops: seq<Op>, k: nat): seq<Timer>
    requires k < |ops|
  {
    if ops[k].Tick? then Fired(Exec(s, ops[..k]), ops[k].time) else []
  }

  lemma ExecNext(s: State, ops: seq<Op>, k: nat)
    requires k < |ops|
    ensures Exec(s, ops[..k + 1]) == Do(Exec(s, ops[..k]), ops[k])
  {
    assert ops[..k + 1][..k] == ops[..k];
  }

  lemma {:induction false} ExecKeeps(s: State, ops: seq<Op>)
    requires Inv(s)
    ensures Inv(Exec(s, ops))
  {
    if ops != [] {
      ExecKeeps(s, ops[..|ops| - 1]);
      DoKeeps(Exec(s, ops[..|ops| - 1]), ops[|ops| - 1]);
    }
  }

  lemma {:induction false} GoneLater(s: State, ops: seq<Op>, j: nat, k: nat, id: nat)
    requires Inv(s) && j <= k <= |ops| && Gone(Exec(s, ops[..j]), id)
    ensures Gone(Exec(s, ops[..k]), id)
  {
    hide Do, Inv;
    if j < k {
      GoneLater(s, ops, j, k - 1, id);
      ExecKeeps(s, ops[..k - 1]);
      ExecNext(s, ops, k - 1);
      GoneStays(Exec(s, ops[..k - 1]), ops[k - 1], id);
    }
  }

  lemma GoneDoesNotFire(s: State, ops: seq<Op>, j: nat, k: nat, id: nat)
    requires Inv(s) && j <= k < |ops| && Gone(Exec(s, ops[..j]), id)
    ensures forall x :: x in FiredAt(s, ops, k) ==> x.id != id
  {
    hide Do, Inv, Gone;
    GoneLater(s, ops, j, k, id);
    ExecKeeps(s, ops[..k]);
    GoneStays(Exec(s, ops[..k]), ops[k], id);
  }

  /** No timer is returned by two ticks. */
  lemma AtMostOnce(s: State, ops: seq<Op>, j: nat, k: nat, x: Timer, y: Timer)
    requires Inv(s) && j < k < |ops| && x in FiredAt(s, ops, j) && y in FiredAt(s, ops, k)
    ensures x.id != y.id
  {
    hide Do, Inv;
    ExecKeeps(s, ops[..j]);
    FiredWas(Exec(s, ops[..j]), ops[j].time, x);
    ExecNext(s, ops, j);
    GoneDoesNotFire(s, ops, j + 1, k, x.id);
  }

  /** No timer is returned after it has been cancelled. */
  lemma NotAfterCancel(s: State, ops: seq<Op>, j: nat, k: nat, id: nat)
    requires Inv(s) && j < k < |ops| && ops[j] == Cancel(id) && id <= Exec(s, ops[..j]).counter
    ensures forall x :: x in FiredAt(s, ops, k) ==> x.id != id
  {
    ExecNext(s, ops, j);
    hide Inv, FiredAt, Exec;
    GoneDoesNotFire(s, ops, j + 1, k, id);
  }

  /** The timer that `op` has just put into the queue, or made of one that was there. */
  lemma CameFrom(s: State, op: Op, x: Timer) returns (added: bool, y: Timer)
    requires Inv(s) && x in Do(s, op).tasks
    ensures added ==> op == AddAt(x.task, x.due) && x.id == s.counter + 1
    ensures !added ==> y in s.tasks && y.id == x.id && y.task == x.task && y.due == x.due
  {
    hide UpperBound;
    added, y := false, x;
    match op
    case AddNow(task) =>
    case AddAt(task, due) =>
      var k := InsertAt(s.tasks, Timer(due, s.counter + 1, task, false));
      added := x !in s.tasks;
    case Tick(t) =>
    case Cancel(id) =>
      y := AbortedFrom(s, id, x);
  }

  /** A timer that is pending was added earlier in the run. */
  lemma {:induction false} PendingWasAdded(s: State, ops: seq<Op>, x: Timer) returns (j: nat)
    requires Inv(s) && s.tasks == [] && x in Exec(s, ops).tasks
    ensures j < |ops| && ops[j] == AddAt(x.task, x.due) && x.id == Exec(s, ops[..j]).counter + 1
  {
    hide Do, Inv;
    var n := |ops| - 1;
    ExecKeeps(s, ops[..n]);
    var added, y := CameFrom(Exec(s, ops[..n]), ops[n], x);
    if added {
      j := n;
    } else {
      j := PendingWasAdded(s, ops[..n], y);
      assert ops[..n][..j] == ops[..j];
    }
  }

  lemma AbortedFrom(s: State, id: nat, x: Timer) returns (y: Timer)
    requires Inv(s) && x in Do(s, Cancel(id)).tasks
    ensures y in s.tasks && y.id == x.id && y.task == x.task && y.due == x.due
  {
    y := x;
    if id in s.index {
      assert Pending(s.tasks, id);
      var k :| 0 <= k < |s.tasks| && s.tasks[k].id == id && !s.tasks[k].aborted;
      AbortAt(s.tasks, k);
      if x !in s.tasks {
        y := s.tasks[k];
      }
    }
  }

  /** A timer is returned never before it is due, and only if it was added with that task and due time. */
  lemma NeverEarly(s: State, ops: seq<Op>, k: nat, x: Timer) returns (j: nat)
    requires Inv(s) && s.tasks == [] && k < |ops| && x in FiredAt(s, ops, k)
    ensures j < k && ops[j] == AddAt(x.task, x.due) && x.id == Exec(s, ops[..j]).counter + 1
    ensures ops[k].Tick? && x.due <= ops[k].time
  {
    hide Inv, Do;
    ExecKeeps(s, ops[..k]);
    FiredWas(Exec(s, ops[..k]), ops[k].time, x);
    j := PendingWasAdded(s, ops[..k], x);
    assert ops[..k][..j] == ops[..j];
  }

  /** An operation that leaves timer `x` alone. */
  ghost predicate Spares(op: Op, x: Timer) {
    op != Cancel(x.id) && (op.Tick? ==> op.time < x.due)
  }

  lemma SparedByAdd(s: State, task: Task, due: int, x: Timer)
    requires Inv(s) && x in s.tasks
    ensures x in Do(s, AddAt(task, due)).tasks
  {
    var k := InsertAt(s.tasks, Timer(due, s.counter + 1, task, false));
  }

  lemma SparedByTick(s: State, t: int, x: Timer)
    requires x in s.tasks && t < x.due
    ensures x in Do(s, Tick(t)).tasks
  {
    hide UpperBound;
    var n := UpperBound(s.tasks, t);
    var i :| 0 <= i < |s.tasks| && s.tasks[i] == x;
    UpperBoundAt(s.tasks, t, i);
    assert s.tasks[n..][i - n] == x;
  }

  lemma SparedByCancel(s: State, id: nat, x: Timer)
    requires Inv(s) && x in s.tasks && x.id != id
    ensures x in Do(s, Cancel(id)).tasks
  {
    if id in s.index {
      assert Pending(s.tasks, id);
      var k :| 0 <= k < |s.tasks| && s.tasks[k].id == id && !s.tasks[k].aborted;
      AbortAt(s.tasks, k);
      var i :| 0 <= i < |s.tasks| && s.tasks[i] == x;
      assert s.tasks[k := s.tasks[k].(aborted := true)][i] == x;
    }
  }

  lemma SparedStays(s: State, op: Op, x: Timer)
    requires Inv(s) && x in s.tasks && !x.aborted && Spares(op, x)
    ensures x in Do(s, op).tasks
  {
    hide Inv;
    match op
    case AddNow(task) =>
    case AddAt(task, due) => SparedByAdd(s, task, due, x);
    case Tick(t) => SparedByTick(s, t, x);
    case Cancel(id) => SparedByCancel(s, id, x);
  }

  lemma UpperBoundAt(tasks: seq<Timer>, t: int, i: nat)
    requires i < |tasks| && tasks[i].due > t
    ensures UpperBound(tasks, t) <= i
  {
  }

  lemma {:induction false} SparedWaits(s: State, ops: seq<Op>, j: nat, k: nat, x: Timer)
    requires Inv(s) && j <= k <= |ops| && x in Exec(s, ops[..j]).tasks && !x.aborted
    requires forall m :: j <= m < k ==> Spares(ops[m], x)
    ensures x in Exec(s, ops[..k]).tasks
  {
    hide Inv, Do, Spares;
    if j < k {
      SparedWaits(s, ops, j, k - 1, x);
      ExecKeeps(s, ops[..k - 1]);
      ExecNext(s, ops, k - 1);
      SparedStays(Exec(s, ops[..k - 1]), ops[k - 1], x);
    }
  }

  lemma DueFires(s: State, t: int, x: Timer)
    requires Inv(s) && x in s.tasks && !x.aborted && x.due <= t
    ensures x in Fired(s, t)
  {
    var n := UpperBound(s.tasks, t);
    var i :| 0 <= i < |s.tasks| && s.tasks[i] == x;
    if n <= i {
      OrderedDue(s.tasks, n, i);
    }
    assert s.tasks[..n][i] == x;
    KeptElements(s.tasks[..n], x);
  }

  lemma OrderedDue(tasks: seq<Timer>, i: nat, j: nat)
    requires Ordered(tasks) && i <= j < |tasks|
    ensures tasks[i].due <= tasks[j].due
  {
    assert i < j ==> Before(tasks[i], tasks[j]);
  }

  /** Unless it is cancelled, a timer is returned by the first tick at or after its due time. */
  lemma FirstTickFires(s: State, ops: seq<Op>, j: nat, k: nat)
    requires Inv(s) && j < k < |ops| && ops[j].AddAt? && ops[k].Tick? && ops[j].due <= ops[k].time
    requires var x := Timer(ops[j].due, Exec(s, ops[..j]).counter + 1, ops[j].task, false);
             forall m :: j < m < k ==> Spares(ops[m], x)
    ensures Timer(ops[j].due, Exec(s, ops[..j]).counter + 1, ops[j].task, false) in FiredAt(s, ops, k)
  {
    var before := Exec(s, ops[..j]);
    var x := Timer(ops[j].due, before.counter + 1, ops[j].task, false);
    ExecNext(s, ops, j);
    ExecKeeps(s, ops[..j]);
    AddedIsThere(before, x);
    hide Inv, Do, Spares, Exec;
    SparedWaits(s, ops, j + 1, k, x);
    ExecKeeps(s, ops[..k]);
    DueFires(Exec(s, ops[..k]), ops[k].time, x);
  }

  lemma AddedIsThere(s: State, x: Timer)
    requires Inv(s) && x.id == s.counter + 1 && !x.aborted
    ensures x in Do(s, AddAt(x.task, x.due)).tasks
  {
    var k := InsertAt(s.tasks, x);
  }

  /** What operation `k` of a run returns to its caller: the immediate tasks and then those of the timers. */
  function Returned(s: State, ops: seq<Op>, k: nat): seq<Task>
    requires k < |ops|
  {
    if ops[k].Tick? then Exec(s, ops[..k]).current + TasksOf(FiredAt(s, ops, k)) else []
  }

  /** The immediate tasks of a run, in the order in which they were added. */
  function Immediate(ops: seq<Op>): seq<Task> {
    if ops == [] then []
    else Immediate(ops[..|ops| - 1]) + if ops[|ops| - 1].AddNow? then [ops[|ops| - 1].task] else []
  }

  /** The immediate tasks that the ticks of a run return, in order: from each, what comes before its timers. */
  function HandedOver(s: State, ops: seq<Op>): seq<Task> {
    if ops == [] then []
    else
      HandedOver(s, ops[..|ops| - 1]) + if ops[|ops| - 1].Tick? then Exec(s, ops[..|ops| - 1]).current else []
  }

  /** First in, first out, and each exactly once: what the ticks have returned and what still waits are together the
      immediate tasks in their order. */
  lemma {:induction false} ImmediateInOrder(s: State, ops: seq<Op>)
    ensures HandedOver(s, ops) + Exec(s, ops).current == s.current + Immediate(ops)
  {
    hide Insert, UpperBound, Abort, Ids;
    if ops == [] {
      assert [] + s.current == s.current + [];
    } else {
      var (front, op) := (ops[..|ops| - 1], ops[|ops| - 1]);
      ImmediateInOrder(s, front);
      var more := if op.AddNow? then [op.task] else [];
      Joined(HandedOver(s, front), Exec(s, front).current, s.current, Immediate(front), more);
    }
  }

  lemma Joined(handed: seq<Task>, waiting: seq<Task>, before: seq<Task>, added: seq<Task>, more: seq<Task>)
    requires handed + waiting == before + added
    ensures handed + [] + (waiting + more) == before + (added + more)
    ensures handed + [] + waiting == before + (added + []) && handed + waiting + [] == before + (added + [])
  {
    assert handed + [] == handed && added + [] == added && handed + waiting + [] == handed + waiting;
    assert handed + (waiting + more) == handed + waiting + more;
    assert before + (added + more) == before + added + more;
  }

  /** A tick leaves no immediate task waiting, so each is returned by the first tick after it was added. */
  lemma NextTickEmpties(s: State, ops: seq<Op>, k: nat)
    requires k < |ops| && ops[k].Tick?
    ensures HandedOver(s, ops[..k + 1]) == s.current + Immediate(ops[..k + 1])
  {
    ExecNext(s, ops, k);
    ImmediateInOrder(s, ops[..k + 1]);
    assert Exec(s, ops[..k + 1]).current == [];
    assert HandedOver(s, ops[..k + 1]) + [] == HandedOver(s, ops[..k + 1]);
  }

  // ---- The class ----

  class FTimeQueue {
    var tasks: seq<Timer>
    var index: map<nat, int>
    var current: seq<Task>
    var counter: nat

    /** The counter is not initialised by the source: it starts anywhere. */
    constructor (start: nat)
      ensures Snapshot() == State([], map[], [], start) && Inv(Snapshot())
    {
      tasks, index, current, counter := [], map[], [], start;
    }

    function Snapshot(): State
      reads this
    {
      State(tasks, index, current, counter)
    }

    /** `AddTask` without a time. */
    method AddTask(task: Task)
      requires Inv(Snapshot())
      modifies this
      ensures Snapshot() == Do(old(Snapshot()), AddNow(task)) && Inv(Snapshot())
    {
      DoKeeps(Snapshot(), AddNow(task));
      current := current + [task];
    }

    /** `AddTask` with a time. */
    method AddTimer(task: Task, time: int) returns (id: nat)
      requires Inv(Snapshot())
      modifies this
      ensures Snapshot() == Do(old(Snapshot()), AddAt(task, time)) && Inv(Snapshot()) && id == counter
    {
      hide Inv, Insert;
      DoKeeps(Snapshot(), AddAt(task, time));
      counter := counter + 1;
      id := counter;
      tasks := Insert(tasks, Timer(time, id, task, false));
      index := index[id := time];
    }

    /** `Tick`: the immediate tasks in the order in which they were added, then the timers that are due. */
    method DoTick(t: int) returns (ret: seq<Task>)
      requires Inv(Snapshot())
      modifies this
      ensures Snapshot() == Do(old(Snapshot()), Tick(t)) && Inv(Snapshot())
      ensures ret == old(current) + TasksOf(Fired(old(Snapshot()), t))
      ensures var fired := Fired(old(Snapshot()), t);
              |ret| == |old(current)| + |fired|
                && forall i :: 0 <= i < |fired| ==> ret[|old(current)| + i] == fired[i].task
    {
      hide Inv, UpperBound, Ids, Kept, TasksOf;
      ghost var s := Snapshot();
      DoKeeps(s, Tick(t));
      var n := UpperBound(tasks, t);
      ret, current := current, [];
      NothingYet(s, t);
      TasksAre(Fired(s, t));
      for i := 0 to n
        invariant tasks == s.tasks[i..] && index == s.index - Ids(s.tasks[..i]) && current == [] && counter == s.counter
        invariant ret == s.current + TasksOf(Kept(s.tasks[..i]))
      {
        var first := tasks[0];
        OneMore(s.tasks, i);
        if !first.aborted {
          ret := ret + [first.task];
        }
        index := index - {first.id};
        tasks := tasks[1..];
      }
    }

    /** `CancelTask`; its assertion holds. */
    method CancelTask(id: nat)
      requires Inv(Snapshot())
      modifies this
      ensures Snapshot() == Do(old(Snapshot()), Cancel(id)) && Inv(Snapshot())
    {
      hide Ordered, Distinct, Abort;
      DoKeeps(Snapshot(), Cancel(id));
      if id !in index {
        return;
      }
      var due := index[id];
      var first, last := EqualRange(due);
      ghost var k := IndexOf(id);
      assert first != last;
      for i := first to last
        invariant Snapshot() == old(Snapshot()) && forall j :: first <= j < i ==> tasks[j].id != id
      {
        if tasks[i].id == id {
          FirstWithId(tasks, i);
          tasks := tasks[i := tasks[i].(aborted := true)];
          index := index - {id};
          return;
        }
      }
    }

    /** Where a pending timer is. */
    lemma IndexOf(id: nat) returns (k: nat)
      requires Inv(Snapshot()) && id in index
      ensures k < |tasks| && tasks[k].id == id && tasks[k].due == index[id]
    {
      assert Pending(tasks, id);
      k :| 0 <= k < |tasks| && tasks[k].id == id && !tasks[k].aborted;
    }

    /** `multimap::equal_range` */
    method EqualRange(due: int) returns (first: nat, last: nat)
      requires Ordered(tasks)
      ensures first <= last <= |tasks|
      ensures forall i :: 0 <= i < |tasks| ==> (tasks[i].due == due <==> first <= i < last)
    {
      first := UpperBound(tasks, due - 1);
      last := UpperBound(tasks, due);
      forall i, j | 0 <= i <= j < |tasks| ensures tasks[i].due <= tasks[j].due {
        OrderedDue(tasks, i, j);
      }
    }
  }

  /** Any run on the object is a run of the specification. */
  method Perform(q: FTimeQueue, ops: seq<Op>) returns (outs: seq<seq<Task>>)
    requires Inv(q.Snapshot())
    modifies q
    ensures Inv(q.Snapshot()) && q.Snapshot() == Exec(old(q.Snapshot()), ops)
    ensures |outs| == |ops| && forall k :: 0 <= k < |ops| ==> outs[k] == Returned(old(q.Snapshot()), ops, k)
  {
    hide Inv, Do, Fired, Exec;
    ghost var s := q.Snapshot();
    outs := [];
    NoneDone(s, ops);
    for i := 0 to |ops|
      invariant Inv(q.Snapshot()) && q.Snapshot() == Exec(s, ops[..i])
      invariant |outs| == i && forall k :: 0 <= k < i ==> outs[k] == Returned(s, ops, k)
    {
      ExecNext(s, ops, i);
      var out := [];
      match ops[i] {
        case AddNow(task) => q.AddTask(task);
        case AddAt(task, due) => var id := q.AddTimer(task, due);
        case Tick(t) => out := q.DoTick(t);
        case Cancel(id) => q.CancelTask(id);
      }
      outs := outs + [out];
    }
    assert ops[..|ops|] == ops;
  }

  lemma NoneDone(s: State, ops: seq<Op>)
    ensures Exec(s, ops[..0]) == s
  {
  }

  lemma {:induction false} TasksAre(q: seq<Timer>)
    ensures |TasksOf(q)| == |q| && forall i :: 0 <= i < |q| ==> TasksOf(q)[i] == q[i].task
  {
    if q != [] {
      TasksAre(q[..|q| - 1]);
    }
  }

  lemma FirstWithId(tasks: seq<Timer>, i: nat)
    requires Distinct(tasks) && i < |tasks|
    ensures Abort(tasks, tasks[i].id) == tasks[i := tasks[i].(aborted := true)]
  {
    AbortAt(tasks, i);
  }

  lemma NothingYet(s: State, t: int)
    ensures s.tasks[0..] == s.tasks && s.index - Ids(s.tasks[..0]) == s.index
    ensures s.current + TasksOf(Kept(s.tasks[..0])) == s.current
  {
    assert s.tasks[..0] == [];
  }

  lemma OneMore(tasks: seq<Timer>, i: nat)
    requires i < |tasks|
    ensures Ids(tasks[..i + 1]) == Ids(tasks[..i]) + {tasks[i].id}
    ensures Kept(tasks[..i + 1]) == Kept(tasks[..i]) + if tasks[i].aborted then [] else [tasks[i]]
    ensures TasksOf(Kept(tasks[..i + 1])) ==
            TasksOf(Kept(tasks[..i])) + if tasks[i].aborted then [] else [tasks[i].task]
  {
    assert tasks[..i + 1] == tasks[..i] + [tasks[i]];
    assert tasks[..i + 1][..i] == tasks[..i];
    var k := Kept(tasks[..i]);
    assert (k + [tasks[i]])[..|k|] == k && k + [] == k;
  }
}
