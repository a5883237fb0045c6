/** The reader/writer lock of `FConcurrentMap`, as interleaved steps of any number of threads: two counters and
    two mutexes. Who holds a mutex is read off where the threads are. */
module RwLock {
  import opened Counting

  /** Where a thread is. `R`, `W` and `L` mark the sections under `mWriteMutex` of locking for reading, locking
      for writing and unlocking from writing. */
  datatype Pc =
    | Idle
    | WantRead | RLocked | RMayAdmit | RRefused | RAdmitted | Reading
    | WantWrite | WLocked | WAnnounced | Spinning | WantModify | Writing
    | Leaving | LLocked | LDone

  predicate HoldsMutex(pc: Pc) {
    pc in {RLocked, RMayAdmit, RRefused, RAdmitted, WLocked, WAnnounced, LLocked, LDone}
  }

  /** Counted in `mReadingCounts`. */
  predicate InRead(pc: Pc) {
    pc == RAdmitted || pc == Reading
  }

  /** Counted in `mWriteLock`. */
  predicate Announced(pc: Pc) {
    pc in {WAnnounced, Spinning, WantModify, Writing, Leaving, LLocked}
  }

  predicate IsWriting(pc: Pc) {
    pc == Writing
  }

  /** Past the spin loop. */
  predicate Passed(pc: Pc) {
    pc in {WantModify, Writing, Leaving, LLocked}
  }

  datatype World = World(pcs: seq<Pc>, readingCounts: int, writeLock: int)

  datatype Action =
    | AskRead | AskWrite
    | LockMutex | TestWriters | Admit | UnlockMutex
    | EndRead | Announce | Spin | LockModify | UnlockModify | Withdraw

  predicate Enabled(w: World, t: nat, a: Action) {
    t < |w.pcs|
    && var pc := w.pcs[t];
       match a
       case AskRead => pc == Idle
       case AskWrite => pc == Idle
       case LockMutex => pc in {WantRead, WantWrite, Leaving} && Count(w.pcs, HoldsMutex) == 0
       case TestWriters => pc == RLocked
       case Admit => pc == RMayAdmit
       case UnlockMutex => pc in {RRefused, RAdmitted, WAnnounced, LDone}
       case EndRead => pc == Reading
       case Announce => pc == WLocked
       case Spin => pc == Spinning
       case LockModify => pc == WantModify && Count(w.pcs, IsWriting) == 0
       case UnlockModify => pc == Writing
       case Withdraw => pc == LLocked
  }

  /** Where the thread goes. */
  function Target(w: World, t: nat, a: Action): Pc
    requires Enabled(w, t, a)
  {
    var pc := w.pcs[t];
    match a
    case AskRead => WantRead
    case AskWrite => WantWrite
    case LockMutex => if pc == WantRead then RLocked else if pc == WantWrite then WLocked else LLocked
    case TestWriters => if w.writeLock == 0 then RMayAdmit else RRefused
    case Admit => RAdmitted
    case UnlockMutex =>
      if pc == RRefused then WantRead
      else if pc == RAdmitted then Reading
      else if pc == WAnnounced then Spinning
      else Idle
    case EndRead => Idle
    case Announce => WAnnounced
    case Spin => if w.readingCounts > 0 then Spinning else WantModify
    case LockModify => Writing
    case UnlockModify => Leaving
    case Withdraw => LDone
  }

  function Step(w: World, t: nat, a: Action): World
    requires Enabled(w, t, a)
  {
    World(w.pcs[t := Target(w, t, a)],
          w.readingCounts + (if a == Admit then 1 else if a == EndRead then -1 else 0),
          w.writeLock + (if a == Announce then 1 else if a == Withdraw then -1 else 0))
  }

  ghost predicate Inv(w: World) {
    && w.readingCounts == Count(w.pcs, InRead)
    && w.writeLock == Count(w.pcs, Announced)
    && Count(w.pcs, HoldsMutex) <= 1
    && Count(w.pcs, IsWriting) <= 1
    && (forall t :: 0 <= t < |w.pcs| && w.pcs[t] == RMayAdmit ==> w.writeLock == 0)
    && (Count(w.pcs, Passed) > 0 ==> w.readingCounts == 0)
  }

  ghost predicate CountsMove(pcs: seq<Pc>, pcs': seq<Pc>, was: Pc, pc: Pc) {
    && Count(pcs', InRead) == Count(pcs, InRead) - One(InRead(was)) + One(InRead(pc))
    && Count(pcs', Announced) == Count(pcs, Announced) - One(Announced(was)) + One(Announced(pc))
    && Count(pcs', HoldsMutex) == Count(pcs, HoldsMutex) - One(HoldsMutex(was)) + One(HoldsMutex(pc))
    && Count(pcs', IsWriting) == Count(pcs, IsWriting) - One(IsWriting(was)) + One(IsWriting(pc))
    && Count(pcs', Passed) == Count(pcs, Passed) - One(Passed(was)) + One(Passed(pc))
  }

  lemma Moves(pcs: seq<Pc>, t: nat, pc: Pc)
    requires t < |pcs|
    ensures CountsMove(pcs, pcs[t := pc], pcs[t], pc)
  {
    hide Count, One;
    CountUpdate(pcs, t, pc, InRead);
    CountUpdate(pcs, t, pc, Announced);
    CountUpdate(pcs, t, pc, HoldsMutex);
    CountUpdate(pcs, t, pc, IsWriting);
    CountUpdate(pcs, t, pc, Passed);
  }

  /** A writer past the spin loop is an announced one. */
  lemma {:induction false} PassedAnnounced(pcs: seq<Pc>)
    ensures Count(pcs, Passed) <= Count(pcs, Announced)
  {
    if pcs != [] {
      PassedAnnounced(pcs[1..]);
    }
  }

  /** At most one thread is under the mutex. */
  lemma OneHolder(w: World, t: nat, u: nat)
    requires Inv(w) && t < |w.pcs| && u < |w.pcs| && HoldsMutex(w.pcs[t]) && HoldsMutex(w.pcs[u])
    ensures t == u
  {
    if t < u {
      CountTwo(w.pcs, t, u, HoldsMutex);
    } else if u < t {
      CountTwo(w.pcs, u, t, HoldsMutex);
    }
  }

  lemma StepKeeps(w: World, t: nat, a: Action)
    requires Inv(w) && Enabled(w, t, a)
    ensures Inv(Step(w, t, a))
    ensures Step(w, t, a).readingCounts >= 0 && Step(w, t, a).writeLock >= 0
  {
    hide Count;
    var w' := Step(w, t, a);
    Moves(w.pcs, t, w'.pcs[t]);
    PassedAnnounced(w.pcs);
    PassedAnnounced(w'.pcs);
    forall u | 0 <= u < |w'.pcs| && w'.pcs[u] == RMayAdmit ensures w'.writeLock == 0 {
      if u != t {
        assert w.pcs[u] == RMayAdmit;
        if HoldsMutex(w.pcs[t]) {
          OneHolder(w, t, u);
        }
      }
    }
  }

  // ---- What the invariant means ----

  /** A writer inside is alone: no reader is inside or being admitted, and no other writer. */
  lemma WriterAlone(w: World, t: nat, u: nat)
    requires Inv(w) && t < |w.pcs| && u < |w.pcs| && u != t && w.pcs[t] == Writing
    ensures !InRead(w.pcs[u]) && w.pcs[u] != RMayAdmit && w.pcs[u] != Writing
    ensures w.readingCounts == 0
  {
    CountOne(w.pcs, t, Passed);
    CountOne(w.pcs, t, Announced);
    if InRead(w.pcs[u]) {
      CountOne(w.pcs, u, InRead);
    }
    if w.pcs[u] == Writing {
      if t < u {
        CountTwo(w.pcs, t, u, IsWriting);
      } else {
        CountTwo(w.pcs, u, t, IsWriting);
      }
    }
  }

  /** No reader is admitted while a writer is announced. */
  lemma AnnouncedKeepsOut(w: World, t: nat, u: nat)
    requires Inv(w) && t < |w.pcs| && Announced(w.pcs[t])
    ensures !Enabled(w, u, Admit)
  {
    CountOne(w.pcs, t, Announced);
  }

  // ---- Whole runs ----

  ghost predicate Initial(w: World) {
    (forall t :: 0 <= t < |w.pcs| ==> w.pcs[t] == Idle) && w.readingCounts == 0 && w.writeLock == 0
  }

  lemma InitialInv(w: World)
    requires Initial(w)
    ensures Inv(w)
  {
    CountNone(w.pcs, InRead);
    CountNone(w.pcs, Announced);
    CountNone(w.pcs, HoldsMutex);
    CountNone(w.pcs, IsWriting);
    CountNone(w.pcs, Passed);
  }

  datatype Move = Move(thread: nat, action: Action)

  ghost predicate CanRun(w: World, moves: seq<Move>)
    decreases |moves|
  {
    moves == []
    || (Enabled(w, moves[0].thread, moves[0].action) && CanRun(Step(w, moves[0].thread, moves[0].action), moves[1..]))
  }

  ghost function After(w: World, moves: seq<Move>): World
    requires CanRun(w, moves)
    decreases |moves|
  {
    if moves == [] then w else After(Step(w, moves[0].thread, moves[0].action), moves[1..])
  }

  /** Safety under every interleaving. */
  lemma {:induction false} RunKeeps(w: World, moves: seq<Move>)
    requires Inv(w) && CanRun(w, moves)
    ensures Inv(After(w, moves))
    decreases |moves|
  {
    hide Inv, Step, Enabled;
    if moves != [] {
      StepKeeps(w, moves[0].thread, moves[0].action);
      RunKeeps(Step(w, moves[0].thread, moves[0].action), moves[1..]);
    }
  }

  lemma RunSafe(w: World, moves: seq<Move>)
    requires Initial(w) && CanRun(w, moves)
    ensures Inv(After(w, moves))
  {
    InitialInv(w);
    RunKeeps(w, moves);
  }

  // ---- Every request can be finished ----

  /** How far a thread is from being idle again. */
  function Rank(pc: Pc): nat {
    match pc
    case Idle => 0
    case Reading => 1
    case RAdmitted => 2
    case RMayAdmit => 3
    case WantRead => 6
    case RRefused => 7
    case RLocked => 8
    case LDone => 1
    case LLocked => 2
    case Leaving => 3
    case Writing => 4
    case WantModify => 5
    case Spinning => 6
    case WAnnounced => 7
    case WLocked => 8
    case WantWrite => 9
  }

  function Work(pcs: seq<Pc>): nat {
    if pcs == [] then 0 else Rank(pcs[0]) + Work(pcs[1..])
  }

  lemma {:induction false} WorkUpdate(pcs: seq<Pc>, t: nat, pc: Pc)
    requires t < |pcs|
    ensures Work(pcs[t := pc]) == Work(pcs) - Rank(pcs[t]) + Rank(pc)
  {
    if t > 0 {
      WorkUpdate(pcs[1..], t - 1, pc);
      assert pcs[t := pc][1..] == pcs[1..][t - 1 := pc];
    }
  }

  lemma {:induction false} WorkLeft(pcs: seq<Pc>)
    ensures Work(pcs) == 0 <==> forall t :: 0 <= t < |pcs| ==> pcs[t] == Idle
  {
    if pcs != [] {
      WorkLeft(pcs[1..]);
      assert forall t :: 0 <= t < |pcs| - 1 ==> pcs[1..][t] == pcs[t + 1];
    }
  }

  /** One step that brings the end nearer. */
  ghost predicate Helps(w: World, t: nat, a: Action) {
    Enabled(w, t, a) && a != AskRead && a != AskWrite && Work(Step(w, t, a).pcs) < Work(w.pcs)
  }

  /** A thread under the mutex goes on. */
  lemma HolderMoves(w: World, t: nat) returns (a: Action)
    requires Inv(w) && t < |w.pcs| && HoldsMutex(w.pcs[t])
    ensures Helps(w, t, a)
  {
    hide Count, Inv;
    a := match w.pcs[t]
         case RLocked => TestWriters
         case RMayAdmit => Admit
         case WLocked => Announce
         case LLocked => Withdraw
         case _ => UnlockMutex;
    WorkUpdate(w.pcs, t, Target(w, t, a));
  }

  /** With the mutex free, whoever is furthest on can move. */
  lemma OtherMoves(w: World, t: nat) returns (u: nat, a: Action)
    requires Inv(w) && t < |w.pcs| && Count(w.pcs, HoldsMutex) == 0 && w.pcs[t] != Idle && w.pcs[t] != WantRead
    ensures Helps(w, u, a)
  {
    hide Count;
    u := t;
    if HoldsMutex(w.pcs[t]) {
      CountOne(w.pcs, t, HoldsMutex);
    }
    if w.pcs[t] == Spinning && w.readingCounts > 0 {
      u := CountSome(w.pcs, InRead);
      if w.pcs[u] == RAdmitted {
        CountOne(w.pcs, u, HoldsMutex);
      }
      a := EndRead;
    } else if w.pcs[t] == WantModify && Count(w.pcs, IsWriting) > 0 {
      u := CountSome(w.pcs, IsWriting);
      a := UnlockModify;
    } else {
      a := match w.pcs[t]
           case Reading => EndRead
           case WantWrite => LockMutex
           case Spinning => Spin
           case WantModify => LockModify
           case Writing => UnlockModify
           case _ => LockMutex;
    }
    WorkUpdate(w.pcs, u, Target(w, u, a));
  }

  ghost predicate NoneAsked(moves: seq<Move>) {
    forall i :: 0 <= i < |moves| ==> moves[i].action != AskRead && moves[i].action != AskWrite
  }

  /** Only readers are waiting: one of them gets in. */
  lemma ReaderEnters(w: World, t: nat) returns (w': World)
    requires Inv(w) && t < |w.pcs| && w.pcs[t] == WantRead
    requires forall u :: 0 <= u < |w.pcs| ==> w.pcs[u] == Idle || w.pcs[u] == WantRead
    ensures Enabled(w, t, LockMutex) && Enabled(Step(w, t, LockMutex), t, TestWriters)
    ensures w' == Step(Step(w, t, LockMutex), t, TestWriters) && Inv(w') && Work(w'.pcs) < Work(w.pcs)
  {
    hide Count;
    CountNone(w.pcs, HoldsMutex);
    CountNone(w.pcs, Announced);
    StepKeeps(w, t, LockMutex);
    var w1 := Step(w, t, LockMutex);
    StepKeeps(w1, t, TestWriters);
    WorkUpdate(w.pcs, t, RLocked);
    WorkUpdate(w1.pcs, t, RMayAdmit);
    w' := Step(w1, t, TestWriters);
  }

  /** From every reachable state all requests can be brought to their end: there is no deadlock, and no state in
      which all that is left is spinning. */
  lemma {:induction false} CanFinish(w: World) returns (moves: seq<Move>)
    requires Inv(w)
    ensures CanRun(w, moves) && NoneAsked(moves)
    ensures |After(w, moves).pcs| == |w.pcs|
    ensures forall t :: 0 <= t < |w.pcs| ==> After(w, moves).pcs[t] == Idle
    decreases Work(w.pcs), 1
  {
    hide Inv, Step, Enabled, Count, Helps;
    WorkLeft(w.pcs);
    if Work(w.pcs) == 0 {
      moves := [];
    } else {
      var t, a;
      if Count(w.pcs, HoldsMutex) > 0 {
        t := CountSome(w.pcs, HoldsMutex);
        a := HolderMoves(w, t);
        moves := Continue(w, t, a);
      } else if exists u :: 0 <= u < |w.pcs| && w.pcs[u] != Idle && w.pcs[u] != WantRead {
        var u :| 0 <= u < |w.pcs| && w.pcs[u] != Idle && w.pcs[u] != WantRead;
        t, a := OtherMoves(w, u);
        moves := Continue(w, t, a);
      } else {
        t :| 0 <= t < |w.pcs| && w.pcs[t] != Idle;
        var w' := ReaderEnters(w, t);
        var rest := CanFinish(w');
        var more := [Move(t, TestWriters)] + rest;
        moves := [Move(t, LockMutex)] + more;
        assert moves[1..] == more && more[1..] == rest;
        StepSize(w, t, LockMutex);
        StepSize(Step(w, t, LockMutex), t, TestWriters);
      }
    }
  }

  /** The step, and then the rest. */
  lemma {:induction false} Continue(w: World, t: nat, a: Action) returns (moves: seq<Move>)
    requires Inv(w) && Helps(w, t, a)
    ensures CanRun(w, moves) && NoneAsked(moves)
    ensures |After(w, moves).pcs| == |w.pcs|
    ensures forall t :: 0 <= t < |w.pcs| ==> After(w, moves).pcs[t] == Idle
    decreases Work(w.pcs), 0
  {
    StepKeeps(w, t, a);
    StepSize(w, t, a);
    hide Inv, Step, Enabled;
    var rest := CanFinish(Step(w, t, a));
    moves := [Move(t, a)] + rest;
    assert moves[1..] == rest;
  }

  lemma StepSize(w: World, t: nat, a: Action)
    requires Enabled(w, t, a)
    ensures |Step(w, t, a).pcs| == |w.pcs|
  {
  }

  // ---- Every request is served ----

  /** On the way to being admitted as a reader, or to being let in as a writer. */
  predicate Unserved(pc: Pc, reading: bool) {
    if reading then pc in {WantRead, RLocked, RMayAdmit, RRefused, RAdmitted}
    else pc in {WantWrite, WLocked, WAnnounced, Spinning, WantModify}
  }

  function Served(reading: bool): Pc {
    if reading then Reading else Writing
  }

  /** Thread `t` is at `pc` in some state of the run. */
  ghost predicate Visits(w: World, moves: seq<Move>, t: nat, pc: Pc)
    requires CanRun(w, moves) && t < |w.pcs|
    decreases |moves|
  {
    || w.pcs[t] == pc
    || (moves != [] && Visits(Step(w, moves[0].thread, moves[0].action), moves[1..], t, pc))
  }

  /** A thread that has asked goes on waiting or is let in, whoever takes the step. */
  lemma StillUnserved(w: World, t: nat, u: nat, a: Action, reading: bool)
    requires t < |w.pcs| && Unserved(w.pcs[t], reading) && Enabled(w, u, a)
    ensures |Step(w, u, a).pcs| == |w.pcs|
    ensures Unserved(Step(w, u, a).pcs[t], reading) || Step(w, u, a).pcs[t] == Served(reading)
  {
  }

  /** No request ends without having been served: a thread that has asked is idle again only after it has been
      inside. */
  lemma {:induction false} ServedFirst(w: World, moves: seq<Move>, t: nat, reading: bool)
    requires t < |w.pcs| && Unserved(w.pcs[t], reading) && CanRun(w, moves)
    requires |After(w, moves).pcs| == |w.pcs| && After(w, moves).pcs[t] == Idle
    ensures Visits(w, moves, t, Served(reading))
    decreases |moves|
  {
    hide Step, Enabled;
    if moves != [] {
      var w' := Step(w, moves[0].thread, moves[0].action);
      StillUnserved(w, t, moves[0].thread, moves[0].action, reading);
      if Unserved(w'.pcs[t], reading) {
        ServedFirst(w', moves[1..], t, reading);
      }
    }
  }

  /** A thread asks by becoming one that has not been served. */
  lemma Asking(w: World, t: nat, reading: bool)
    requires t < |w.pcs| && w.pcs[t] == Idle
    ensures Enabled(w, t, if reading then AskRead else AskWrite)
    ensures Unserved(Step(w, t, if reading then AskRead else AskWrite).pcs[t], reading)
  {
  }

  /** From every reachable state every request that has been made can still be served. */
  lemma CanServe(w: World, t: nat, reading: bool) returns (moves: seq<Move>)
    requires Inv(w) && t < |w.pcs| && Unserved(w.pcs[t], reading)
    ensures CanRun(w, moves) && NoneAsked(moves) && Visits(w, moves, t, Served(reading))
  {
    moves := CanFinish(w);
    ServedFirst(w, moves, t, reading);
  }
}
