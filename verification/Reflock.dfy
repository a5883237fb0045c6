/** wepoll's reference lock on one node of the handle tree, under every interleaving of any number of threads:
    `reflock_*` and the `ts_tree_*` operations around it. The two locking modes of the tree's SRW lock are read
    off where the threads are; a keyed event is a rendezvous. */
module Reflock {
  import opened Counting

  const REF_LIMIT: int := 0x1000_0000
  const DESTROY: int := 0x1000_0000
  const POISON: int := 0x300d_ead0

  /** Where a thread is with respect to the node. */
  datatype Pc =
    | Outside
    | Searching      // ts_tree_find_and_ref: shared lock taken
    | Found          // the node has been found, but not referenced
    | Missed         // it was not there
    | Referenced     // reference taken, shared lock still held
    | Using          // find_and_ref has returned
    | Signalling     // reflock_unref has seen the last reference go, and signals
    | Deleting       // ts_tree_del_and_ref: exclusive lock taken
    | DeleteMissed   // it was not there
    | Deleted        // out of the tree, not yet referenced
    | DeleteRef      // reference taken, exclusive lock still held
    | Owning         // del_and_ref has returned
    | Awaiting       // reflock_unref_and_destroy waits for the event
    | Swapping       // about to poison the lock
    | Destroyed      // unref_and_destroy has returned

  predicate HasRef(pc: Pc) {
    pc == Referenced || pc == Using || pc == DeleteRef || pc == Owning
  }

  predicate HasShared(pc: Pc) {
    pc == Searching || pc == Found || pc == Missed || pc == Referenced
  }

  predicate HasExclusive(pc: Pc) {
    pc == Deleting || pc == DeleteMissed || pc == Deleted || pc == DeleteRef
  }

  /** Past the removal from the tree. */
  predicate IsOwner(pc: Pc) {
    pc == Deleted || pc == DeleteRef || pc == Owning || pc == Awaiting || pc == Swapping || pc == Destroyed
  }

  predicate IsSignalling(pc: Pc) {
    pc == Signalling
  }

  predicate IsFound(pc: Pc) {
    pc == Found
  }

  /** Past the point where `DESTROY` is added. */
  predicate IsDestroying(pc: Pc) {
    pc == Awaiting || pc == Swapping || pc == Destroyed
  }

  /** All threads, whether the node is in the tree, and the lock's counter. */
  datatype World = World(pcs: seq<Pc>, inTree: bool, state: int)

  datatype Action =
    | TakeShared | Find | Ref | GiveShared
    | Unref | Signal(waiter: nat)
    | TakeExclusive | Remove | OwnRef | GiveExclusive
    | UnrefAndDestroy | Swap

  predicate Enabled(w: World, t: nat, a: Action) {
    t < |w.pcs|
    && match a
       case TakeShared => w.pcs[t] == Outside && Count(w.pcs, HasExclusive) == 0
       case Find => w.pcs[t] == Searching
       case Ref => w.pcs[t] == Found
       case GiveShared => w.pcs[t] == Missed || w.pcs[t] == Referenced
       case Unref => w.pcs[t] == Using
       case Signal(u) => w.pcs[t] == Signalling && u < |w.pcs| && w.pcs[u] == Awaiting
       case TakeExclusive => w.pcs[t] == Outside && Count(w.pcs, HasExclusive) == 0 && Count(w.pcs, HasShared) == 0
       case Remove => w.pcs[t] == Deleting
       case OwnRef => w.pcs[t] == Deleted
       case GiveExclusive => w.pcs[t] == DeleteMissed || w.pcs[t] == DeleteRef
       case UnrefAndDestroy => w.pcs[t] == Owning
       case Swap => w.pcs[t] == Swapping
  }

  function Step(w: World, t: nat, a: Action): World
    requires Enabled(w, t, a)
  {
    match a
    case TakeShared => w.(pcs := w.pcs[t := Searching])
    case Find => w.(pcs := w.pcs[t := if w.inTree then Found else Missed])
    case Ref => World(w.pcs[t := Referenced], w.inTree, w.state + 1)
    case GiveShared => w.(pcs := w.pcs[t := if w.pcs[t] == Referenced then Using else Outside])
    case Unref => World(w.pcs[t := if w.state - 1 == DESTROY then Signalling else Outside], w.inTree, w.state - 1)
    case Signal(u) => w.(pcs := w.pcs[t := Outside][u := Swapping])
    case TakeExclusive => w.(pcs := w.pcs[t := Deleting])
    case Remove => World(w.pcs[t := if w.inTree then Deleted else DeleteMissed], false, w.state)
    case OwnRef => World(w.pcs[t := DeleteRef], w.inTree, w.state + 1)
    case GiveExclusive => w.(pcs := w.pcs[t := if w.pcs[t] == DeleteRef then Owning else Outside])
    case UnrefAndDestroy =>
      var s := w.state + DESTROY - 1;
      World(w.pcs[t := if s % REF_LIMIT != 0 then Awaiting else Swapping], w.inTree, s)
    case Swap => World(w.pcs[t := Destroyed], w.inTree, POISON)
  }

  /** What the assertions of the source check at this step; the counter is a non-negative 32-bit number. */
  ghost predicate Asserted(w: World, t: nat, a: Action) {
    match a
    case Ref => 0 <= w.state + 1 < REF_LIMIT
    case OwnRef => 0 <= w.state + 1 < REF_LIMIT
    case Unref => 0 <= w.state - 1 < 2 * DESTROY
    case UnrefAndDestroy => DESTROY <= w.state + DESTROY - 1 < 2 * DESTROY
    case Swap => w.state == DESTROY
    case _ => true
  }

  function Refs(w: World): nat { Count(w.pcs, HasRef) }

  ghost predicate Inv(w: World) {
    var (refs, owners, signals) := (Refs(w), Count(w.pcs, IsOwner), Count(w.pcs, IsSignalling));
    && |w.pcs| < REF_LIMIT
    && owners == (if w.inTree then 0 else 1)
    && Count(w.pcs, HasExclusive) <= 1
    && (Count(w.pcs, HasExclusive) == 1 ==> Count(w.pcs, HasShared) == 0)
    && (!w.inTree ==> Count(w.pcs, IsFound) == 0)
    && signals <= 1
    && (forall t :: 0 <= t < |w.pcs| ==> Fits(w, t, refs, signals))
    && (Count(w.pcs, IsDestroying) == 0 ==> w.state == refs && signals == 0)
  }

  /** The counter, seen from a thread that takes the node down. */
  ghost predicate Fits(w: World, t: nat, refs: nat, signals: nat)
    requires t < |w.pcs|
  {
    match w.pcs[t]
    case Awaiting => w.state == refs + DESTROY && (signals == 1 <==> refs == 0)
    case Swapping => w.state == DESTROY && refs == 0 && signals == 0
    case Destroyed => w.state == POISON && refs == 0 && signals == 0
    case _ => true
  }

  /** What happens to the counts when one thread moves. */
  ghost predicate CountsMove(pcs: seq<Pc>, pcs': seq<Pc>, was: Pc, pc: Pc) {
    && Count(pcs', HasRef) == Count(pcs, HasRef) - One(HasRef(was)) + One(HasRef(pc))
    && Count(pcs', IsOwner) == Count(pcs, IsOwner) - One(IsOwner(was)) + One(IsOwner(pc))
    && Count(pcs', IsSignalling) == Count(pcs, IsSignalling) - One(IsSignalling(was)) + One(IsSignalling(pc))
    && Count(pcs', HasExclusive) == Count(pcs, HasExclusive) - One(HasExclusive(was)) + One(HasExclusive(pc))
    && Count(pcs', HasShared) == Count(pcs, HasShared) - One(HasShared(was)) + One(HasShared(pc))
    && Count(pcs', IsFound) == Count(pcs, IsFound) - One(IsFound(was)) + One(IsFound(pc))
    && Count(pcs', IsDestroying) == Count(pcs, IsDestroying) - One(IsDestroying(was)) + One(IsDestroying(pc))
  }

  lemma Moves(pcs: seq<Pc>, t: nat, pc: Pc)
    requires t < |pcs|
    ensures CountsMove(pcs, pcs[t := pc], pcs[t], pc)
  {
    hide Count, One;
    CountUpdate(pcs, t, pc, HasRef);
    CountUpdate(pcs, t, pc, IsOwner);
    CountUpdate(pcs, t, pc, IsSignalling);
    CountUpdate(pcs, t, pc, HasExclusive);
    CountUpdate(pcs, t, pc, HasShared);
    CountUpdate(pcs, t, pc, IsFound);
    CountUpdate(pcs, t, pc, IsDestroying);
  }

  /** Only one thread takes the node down. */
  lemma OnlyOwner(w: World, t: nat, u: nat)
    requires Inv(w) && t < |w.pcs| && u < |w.pcs| && IsOwner(w.pcs[t]) && IsOwner(w.pcs[u])
    ensures t == u && !w.inTree
  {
    CountOne(w.pcs, t, IsOwner);
    if t < u {
      CountTwo(w.pcs, t, u, IsOwner);
    } else if u < t {
      CountTwo(w.pcs, u, t, IsOwner);
    }
  }

  /** No thread but `t` is past `DESTROY`, and neither is `t`. */
  lemma NotYetDestroying(w: World, t: nat)
    requires Inv(w) && t < |w.pcs| && (w.inTree || (IsOwner(w.pcs[t]) && !IsDestroying(w.pcs[t])))
    ensures Count(w.pcs, IsDestroying) == 0
  {
    if Count(w.pcs, IsDestroying) > 0 {
      var u := CountSome(w.pcs, IsDestroying);
      CountOne(w.pcs, u, IsOwner);
      if IsOwner(w.pcs[t]) {
        OnlyOwner(w, t, u);
      }
    }
  }

  /** Steps that touch neither the counter nor a reference nor the tree. */
  lemma QuietStep(w: World, t: nat, a: Action)
    requires Inv(w) && Enabled(w, t, a)
    requires a in {TakeShared, Find, GiveShared, TakeExclusive, GiveExclusive}
    ensures Inv(Step(w, t, a))
  {
    hide Count;
    var w' := Step(w, t, a);
    Moves(w.pcs, t, w'.pcs[t]);
    if a == Find && w.inTree {
    } else if a == GiveExclusive {
      CountOne(w.pcs, t, HasExclusive);
    } else if a == GiveShared {
      CountOne(w.pcs, t, HasShared);
    } else if a == Find {
      CountOne(w.pcs, t, HasShared);
    }
    forall u | 0 <= u < |w'.pcs| ensures Fits(w', u, Refs(w'), Count(w'.pcs, IsSignalling)) {
      assert Fits(w, u, Refs(w), Count(w.pcs, IsSignalling));
    }
  }

  /** A reference taken by a reader. */
  lemma RefStep(w: World, t: nat)
    requires Inv(w) && Enabled(w, t, Ref)
    ensures Inv(Step(w, t, Ref)) && Asserted(w, t, Ref)
  {
    hide Count;
    var w' := Step(w, t, Ref);
    Moves(w.pcs, t, Referenced);
    CountOne(w.pcs, t, IsFound);
    CountBound(w'.pcs, HasRef);
    NotYetDestroying(w, t);
    forall u | 0 <= u < |w'.pcs| ensures Fits(w', u, Refs(w'), Count(w'.pcs, IsSignalling)) {
      NotDestroying(w', u);
    }
  }

  lemma NotDestroying(w: World, u: nat)
    requires u < |w.pcs| && Count(w.pcs, IsDestroying) == 0
    ensures !IsDestroying(w.pcs[u])
  {
    if IsDestroying(w.pcs[u]) {
      CountOne(w.pcs, u, IsDestroying);
    }
  }

  /** The node leaves the tree. */
  lemma RemoveStep(w: World, t: nat)
    requires Inv(w) && Enabled(w, t, Remove)
    ensures Inv(Step(w, t, Remove))
  {
    hide Count;
    var w' := Step(w, t, Remove);
    Moves(w.pcs, t, w'.pcs[t]);
    CountOne(w.pcs, t, HasExclusive);
    FoundIsShared(w.pcs);
    forall u | 0 <= u < |w'.pcs| ensures Fits(w', u, Refs(w'), Count(w'.pcs, IsSignalling)) {
      assert Fits(w, u, Refs(w), Count(w.pcs, IsSignalling));
    }
  }

  lemma {:induction false} FoundIsShared(pcs: seq<Pc>)
    ensures Count(pcs, IsFound) <= Count(pcs, HasShared)
  {
    if pcs != [] {
      FoundIsShared(pcs[1..]);
    }
  }

  /** The reference of the thread that has removed the node. */
  lemma OwnRefStep(w: World, t: nat)
    requires Inv(w) && Enabled(w, t, OwnRef)
    ensures Inv(Step(w, t, OwnRef)) && Asserted(w, t, OwnRef)
  {
    hide Count;
    var w' := Step(w, t, OwnRef);
    Moves(w.pcs, t, DeleteRef);
    CountBound(w'.pcs, HasRef);
    NotYetDestroying(w, t);
    forall u | 0 <= u < |w'.pcs| ensures Fits(w', u, Refs(w'), Count(w'.pcs, IsSignalling)) {
      NotDestroying(w', u);
    }
  }

  /** A reference is given back; the last one to go after `DESTROY` signals. */
  lemma UnrefStep(w: World, t: nat)
    requires Inv(w) && Enabled(w, t, Unref)
    ensures Inv(Step(w, t, Unref)) && Asserted(w, t, Unref)
  {
    hide Count;
    var w' := Step(w, t, Unref);
    Moves(w.pcs, t, w'.pcs[t]);
    CountOne(w.pcs, t, HasRef);
    CountBound(w.pcs, HasRef);
    if Count(w.pcs, IsDestroying) == 0 {
      forall u | 0 <= u < |w'.pcs| ensures Fits(w', u, Refs(w'), Count(w'.pcs, IsSignalling)) {
        NotDestroying(w', u);
      }
    } else {
      var d := CountSome(w.pcs, IsDestroying);
      assert Fits(w, d, Refs(w), Count(w.pcs, IsSignalling));
      forall u | 0 <= u < |w'.pcs| ensures Fits(w', u, Refs(w'), Count(w'.pcs, IsSignalling)) {
        if IsDestroying(w'.pcs[u]) {
          OnlyOwner(w, d, u);
        }
      }
    }
  }

  /** `DESTROY` is added: wait for the others, or go on at once when there are none. */
  lemma DestroyStep(w: World, t: nat)
    requires Inv(w) && Enabled(w, t, UnrefAndDestroy)
    ensures Inv(Step(w, t, UnrefAndDestroy)) && Asserted(w, t, UnrefAndDestroy)
  {
    hide Count;
    var w' := Step(w, t, UnrefAndDestroy);
    Moves(w.pcs, t, w'.pcs[t]);
    CountOne(w.pcs, t, HasRef);
    CountBound(w.pcs, HasRef);
    NotYetDestroying(w, t);
    assert (w.state - 1 + DESTROY) % REF_LIMIT == w.state - 1;
    forall u | 0 <= u < |w'.pcs| ensures Fits(w', u, Refs(w'), Count(w'.pcs, IsSignalling)) {
      if u != t {
        NotDestroying(w, u);
      }
    }
  }

  /** Signal and await meet. */
  lemma SignalStep(w: World, t: nat, u: nat)
    requires Inv(w) && Enabled(w, t, Signal(u))
    ensures Inv(Step(w, t, Signal(u)))
  {
    hide Count;
    var w' := Step(w, t, Signal(u));
    Moves(w.pcs, t, Outside);
    Moves(w.pcs[t := Outside], u, Swapping);
    CountOne(w.pcs, t, IsSignalling);
    CountOne(w'.pcs, u, IsDestroying);
    assert Fits(w, u, Refs(w), Count(w.pcs, IsSignalling));
    forall v | 0 <= v < |w'.pcs| ensures Fits(w', v, Refs(w'), Count(w'.pcs, IsSignalling)) {
      if v != u && IsDestroying(w'.pcs[v]) {
        OnlyOwner(w, u, v);
      }
    }
  }

  /** The lock is poisoned. */
  lemma SwapStep(w: World, t: nat)
    requires Inv(w) && Enabled(w, t, Swap)
    ensures Inv(Step(w, t, Swap)) && Asserted(w, t, Swap)
  {
    hide Count;
    var w' := Step(w, t, Swap);
    Moves(w.pcs, t, Destroyed);
    CountOne(w'.pcs, t, IsDestroying);
    assert Fits(w, t, Refs(w), Count(w.pcs, IsSignalling));
    forall v | 0 <= v < |w'.pcs| ensures Fits(w', v, Refs(w'), Count(w'.pcs, IsSignalling)) {
      if v != t && IsDestroying(w'.pcs[v]) {
        OnlyOwner(w, t, v);
      }
    }
  }

  lemma StepKeeps(w: World, t: nat, a: Action)
    requires Inv(w) && Enabled(w, t, a)
    ensures Inv(Step(w, t, a)) && Asserted(w, t, a)
  {
    hide Inv, Step, Enabled;
    match a
    case Ref => RefStep(w, t);
    case Unref => UnrefStep(w, t);
    case Signal(u) => SignalStep(w, t, u);
    case Remove => RemoveStep(w, t);
    case OwnRef => OwnRefStep(w, t);
    case UnrefAndDestroy => DestroyStep(w, t);
    case Swap => SwapStep(w, t);
    case _ => QuietStep(w, t, a);
  }

  // ---- Whole runs ----

  /** The node has been added to the tree and nobody uses it yet. */
  ghost predicate Initial(w: World) {
    |w.pcs| < REF_LIMIT && (forall t :: 0 <= t < |w.pcs| ==> w.pcs[t] == Outside) && w.inTree && w.state == 0
  }

  lemma InitialInv(w: World)
    requires Initial(w)
    ensures Inv(w)
  {
    hide Count;
    CountNone(w.pcs, HasRef);
    CountNone(w.pcs, IsOwner);
    CountNone(w.pcs, IsSignalling);
    CountNone(w.pcs, HasExclusive);
    CountNone(w.pcs, IsFound);
  }

  datatype Move = Move(thread: nat, action: Action)

  ghost predicate CanRun(w: World, moves: seq<Move>)
    decreases |moves|
  {
    moves == []
    || (Enabled(w, moves[0].thread, moves[0].action) && CanRun(Step(w, moves[0].thread, moves[0].action), moves[1..]))
  }

  ghost function After(w: World, moves: seq<Move>): World
    requires CanRun(w, moves)
    decreases |moves|
  {
    if moves == [] then w else After(Step(w, moves[0].thread, moves[0].action), moves[1..])
  }

  /** Every assertion along the run. */
  ghost predicate AllAsserted(w: World, moves: seq<Move>)
    requires CanRun(w, moves)
    decreases |moves|
  {
    moves == []
    || (Asserted(w, moves[0].thread, moves[0].action)
        && AllAsserted(Step(w, moves[0].thread, moves[0].action), moves[1..]))
  }

  lemma {:induction false} RunKeeps(w: World, moves: seq<Move>)
    requires Inv(w) && CanRun(w, moves)
    ensures Inv(After(w, moves)) && AllAsserted(w, moves)
    decreases |moves|
  {
    hide Inv, Step, Enabled, Asserted;
    if moves != [] {
      StepKeeps(w, moves[0].thread, moves[0].action);
      RunKeeps(Step(w, moves[0].thread, moves[0].action), moves[1..]);
    }
  }

  /** From the start, under every interleaving, the assertions of the source hold. */
  lemma RunSafe(w: World, moves: seq<Move>)
    requires Initial(w) && CanRun(w, moves)
    ensures Inv(After(w, moves)) && AllAsserted(w, moves)
  {
    InitialInv(w);
    RunKeeps(w, moves);
  }

  /** Once the node is out of the tree it stays out, and no reader can take a reference any more. */
  lemma NoNewReference(w: World, t: nat, a: Action)
    requires Inv(w) && !w.inTree && Enabled(w, t, a)
    ensures a != Ref && !Step(w, t, a).inTree
  {
    hide Count;
    if a == Ref {
      CountOne(w.pcs, t, IsFound);
    }
  }

  /** When the lock is destroyed nobody else has a reference, is about to take one, or still signals; and the
      state swapped out is exactly `DESTROY`. */
  lemma DestroyedAlone(w: World, t: nat)
    requires Inv(w) && t < |w.pcs| && w.pcs[t] in {Swapping, Destroyed}
    ensures forall u :: 0 <= u < |w.pcs| ==> !HasRef(w.pcs[u]) && w.pcs[u] != Found && w.pcs[u] != Signalling
    ensures forall u :: 0 <= u < |w.pcs| && u != t ==> !IsOwner(w.pcs[u])
    ensures w.state == if w.pcs[t] == Swapping then DESTROY else POISON
  {
    hide Count;
    assert Fits(w, t, Refs(w), Count(w.pcs, IsSignalling));
    OnlyOwner(w, t, t);
    forall u | 0 <= u < |w.pcs|
      ensures !HasRef(w.pcs[u]) && w.pcs[u] != Found && w.pcs[u] != Signalling && (u != t ==> !IsOwner(w.pcs[u]))
    {
      if HasRef(w.pcs[u]) {
        CountOne(w.pcs, u, HasRef);
      }
      if w.pcs[u] == Found {
        CountOne(w.pcs, u, IsFound);
      }
      if w.pcs[u] == Signalling {
        CountOne(w.pcs, u, IsSignalling);
      }
      if IsOwner(w.pcs[u]) {
        OnlyOwner(w, t, u);
      }
    }
  }

  /** A signal never lacks a thread that waits for it. */
  lemma SignalAwaited(w: World, t: nat) returns (u: nat)
    requires Inv(w) && t < |w.pcs| && w.pcs[t] == Signalling
    ensures Enabled(w, t, Signal(u))
  {
    hide Count;
    CountOne(w.pcs, t, IsSignalling);
    u := CountSome(w.pcs, IsDestroying);
    assert Fits(w, u, Refs(w), Count(w.pcs, IsSignalling));
  }

  function Signals(moves: seq<Move>): nat {
    if moves == [] then 0 else (if moves[0].action.Signal? then 1 else 0) + Signals(moves[1..])
  }

  ghost predicate PastAwait(w: World) {
    exists t :: 0 <= t < |w.pcs| && w.pcs[t] in {Swapping, Destroyed}
  }

  lemma PastStays(w: World, t: nat, a: Action)
    requires Inv(w) && PastAwait(w) && Enabled(w, t, a)
    ensures PastAwait(Step(w, t, a)) && !a.Signal?
  {
    hide Inv;
    var u :| 0 <= u < |w.pcs| && w.pcs[u] in {Swapping, Destroyed};
    DestroyedAlone(w, u);
    var w' := Step(w, t, a);
    assert w'.pcs[u] in {Swapping, Destroyed};
  }

  lemma {:induction false} NoSignalAfter(w: World, moves: seq<Move>)
    requires Inv(w) && PastAwait(w) && CanRun(w, moves)
    ensures Signals(moves) == 0
    decreases |moves|
  {
    hide Inv, Step, Enabled, PastAwait;
    if moves != [] {
      PastStays(w, moves[0].thread, moves[0].action);
      StepKeeps(w, moves[0].thread, moves[0].action);
      NoSignalAfter(Step(w, moves[0].thread, moves[0].action), moves[1..]);
    }
  }

  /** Signal and await are paired once in a run, or not at all. */
  lemma {:induction false} PairedOnce(w: World, moves: seq<Move>)
    requires Inv(w) && CanRun(w, moves)
    ensures Signals(moves) <= 1
    decreases |moves|
  {
    hide Inv;
    if moves != [] {
      var w' := Step(w, moves[0].thread, moves[0].action);
      StepKeeps(w, moves[0].thread, moves[0].action);
      if moves[0].action.Signal? {
        assert w'.pcs[moves[0].action.waiter] == Swapping;
        NoSignalAfter(w', moves[1..]);
      } else {
        PairedOnce(w', moves[1..]);
      }
    }
  }

  /** Nobody waits for ever: while a thread is on its way, some thread can take a step. */
  lemma Progress(w: World, t: nat) returns (u: nat, a: Action)
    requires Inv(w) && t < |w.pcs| && w.pcs[t] !in {Outside, Destroyed}
    ensures Enabled(w, u, a) && a !in {TakeShared, TakeExclusive}
  {
    hide Count;
    if w.pcs[t] == Awaiting {
      assert Fits(w, t, Refs(w), Count(w.pcs, IsSignalling));
      if Refs(w) == 0 {
        u := CountSome(w.pcs, IsSignalling);
        a := Signal(t);
      } else {
        u := CountSome(w.pcs, HasRef);
        if IsOwner(w.pcs[u]) {
          OnlyOwner(w, t, u);
        }
        a := if w.pcs[u] == Referenced then GiveShared else Unref;
      }
    } else if w.pcs[t] == Signalling {
      u := t;
      var v := SignalAwaited(w, t);
      a := Signal(v);
    } else {
      u := t;
      a := match w.pcs[t]
           case Searching => Find
           case Found => Ref
           case Missed => GiveShared
           case Referenced => GiveShared
           case Using => Unref
           case Deleting => Remove
           case DeleteMissed => GiveExclusive
           case Deleted => OwnRef
           case DeleteRef => GiveExclusive
           case Owning => UnrefAndDestroy
           case _ => Swap;
    }
  }

  // ---- Every operation does what it is for ----

  /** All moves are by thread `t`. */
  ghost predicate Alone(moves: seq<Move>, t: nat) {
    forall i :: 0 <= i < |moves| ==> moves[i].thread == t
  }

  lemma RunOne(w: World, t: nat, a: Action, rest: seq<Move>)
    requires Enabled(w, t, a) && CanRun(Step(w, t, a), rest)
    ensures CanRun(w, [Move(t, a)] + rest) && After(w, [Move(t, a)] + rest) == After(Step(w, t, a), rest)
  {
    hide Enabled, Step;
    assert ([Move(t, a)] + rest)[1..] == rest;
  }

  /** Three steps of one thread. */
  lemma RunThree(w: World, t: nat, a: Action, b: Action, c: Action) returns (moves: seq<Move>)
    requires Enabled(w, t, a) && Enabled(Step(w, t, a), t, b) && Enabled(Step(Step(w, t, a), t, b), t, c)
    ensures moves == [Move(t, a)] + ([Move(t, b)] + ([Move(t, c)] + [])) && CanRun(w, moves) && Alone(moves, t)
    ensures After(w, moves) == Step(Step(Step(w, t, a), t, b), t, c)
  {
    hide Enabled, Step;
    var (w1, w2) := (Step(w, t, a), Step(Step(w, t, a), t, b));
    RunOne(w2, t, c, []);
    RunOne(w1, t, b, [Move(t, c)] + []);
    RunOne(w, t, a, [Move(t, b)] + ([Move(t, c)] + []));
    moves := [Move(t, a)] + ([Move(t, b)] + ([Move(t, c)] + []));
  }

  /** A reader that looks for a node in the tree needs nobody else to come to use it, with one reference more. */
  lemma ReaderServed(w: World, t: nat) returns (moves: seq<Move>)
    requires Inv(w) && w.inTree && t < |w.pcs| && w.pcs[t] == Searching
    ensures CanRun(w, moves) && Alone(moves, t)
    ensures After(w, moves) == World(w.pcs[t := Using], true, w.state + 1)
  {
    hide Inv;
    moves := RunThree(w, t, Find, Ref, GiveShared);
    assert w.pcs[t := Found][t := Referenced][t := Using] == w.pcs[t := Using];
  }

  /** The thread that takes the node out of the tree comes to own it in the same way. */
  lemma DeleterServed(w: World, t: nat) returns (moves: seq<Move>)
    requires Inv(w) && w.inTree && t < |w.pcs| && w.pcs[t] == Deleting
    ensures CanRun(w, moves) && Alone(moves, t)
    ensures After(w, moves) == World(w.pcs[t := Owning], false, w.state + 1)
  {
    hide Inv;
    moves := RunThree(w, t, Remove, OwnRef, GiveExclusive);
    assert w.pcs[t := Deleted][t := DeleteRef][t := Owning] == w.pcs[t := Owning];
  }

  ghost predicate NoneRemoves(moves: seq<Move>) {
    forall i :: 0 <= i < |moves| ==> moves[i].action != Remove
  }

  ghost predicate NoneMissed(w: World) {
    forall t :: 0 <= t < |w.pcs| ==> w.pcs[t] != Missed && w.pcs[t] != DeleteMissed
  }

  /** As long as nobody removes the node, everybody who looks for it finds it. */
  lemma {:induction false} FoundUntilRemoved(w: World, moves: seq<Move>)
    requires w.inTree && NoneMissed(w) && CanRun(w, moves) && NoneRemoves(moves)
    ensures After(w, moves).inTree && NoneMissed(After(w, moves))
    decreases |moves|
  {
    if moves != [] {
      var w' := Step(w, moves[0].thread, moves[0].action);
      assert moves[0].action != Remove;
      FoundUntilRemoved(w', moves[1..]);
    }
  }

  /** In a run in which a thread has missed the node, it has been removed before. */
  lemma MissedAfterRemoval(w: World, moves: seq<Move>, t: nat) returns (i: nat)
    requires Initial(w) && CanRun(w, moves)
    requires t < |After(w, moves).pcs| && After(w, moves).pcs[t] in {Missed, DeleteMissed}
    ensures i < |moves| && moves[i].action == Remove
  {
    if NoneRemoves(moves) {
      FoundUntilRemoved(w, moves);
    }
    i :| 0 <= i < |moves| && moves[i].action == Remove;
  }

  // ---- Every operation ends ----

  /** How far a thread is from the end of its operation. */
  function Rank(pc: Pc): nat {
    match pc
    case Outside => 0
    case Destroyed => 0
    case Missed => 1
    case DeleteMissed => 1
    case Signalling => 1
    case Swapping => 1
    case Using => 2
    case Awaiting => 2
    case Referenced => 3
    case Owning => 3
    case Found => 4
    case DeleteRef => 4
    case Searching => 5
    case Deleted => 5
    case Deleting => 6
  }

  function Work(pcs: seq<Pc>): nat {
    if pcs == [] then 0 else Rank(pcs[0]) + Work(pcs[1..])
  }

  lemma {:induction false} WorkUpdate(pcs: seq<Pc>, t: nat, pc: Pc)
    requires t < |pcs|
    ensures Work(pcs[t := pc]) == Work(pcs) - Rank(pcs[t]) + Rank(pc)
  {
    if t > 0 {
      WorkUpdate(pcs[1..], t - 1, pc);
      assert pcs[t := pc][1..] == pcs[1..][t - 1 := pc];
    }
  }

  lemma LessWork(w: World, t: nat, a: Action)
    requires Enabled(w, t, a) && a !in {TakeShared, TakeExclusive}
    ensures Work(Step(w, t, a).pcs) < Work(w.pcs) && |Step(w, t, a).pcs| == |w.pcs|
    ensures forall u :: 0 <= u < |w.pcs| && IsOwner(w.pcs[u]) ==> IsOwner(Step(w, t, a).pcs[u])
  {
    hide Work, Count;
    var w' := Step(w, t, a);
    WorkUpdate(w.pcs, t, w'.pcs[t]);
    if a.Signal? {
      WorkUpdate(w.pcs[t := Outside], a.waiter, Swapping);
    }
  }

  /** From every reachable state all operations can be brought to their end without any new one: readers have given back
      their references, and the thread that has removed the node has destroyed its lock. */
  lemma {:induction false} CanFinish(w: World) returns (moves: seq<Move>)
    requires Inv(w)
    ensures CanRun(w, moves) && |After(w, moves).pcs| == |w.pcs|
    ensures forall t :: 0 <= t < |w.pcs| ==> After(w, moves).pcs[t] in {Outside, Destroyed}
    ensures forall t :: 0 <= t < |w.pcs| && IsOwner(w.pcs[t]) ==> After(w, moves).pcs[t] == Destroyed
    decreases Work(w.pcs)
  {
    hide Inv, Step, Enabled, Work;
    if t :| 0 <= t < |w.pcs| && w.pcs[t] !in {Outside, Destroyed} {
      var u, a := Progress(w, t);
      StepKeeps(w, u, a);
      LessWork(w, u, a);
      var rest := CanFinish(Step(w, u, a));
      RunOne(w, u, a, rest);
      moves := [Move(u, a)] + rest;
    } else {
      moves := [];
    }
  }
}
