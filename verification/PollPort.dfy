/** wepoll's port: the state machine of every registered socket, spread over one tree and two queues, and the
    groups of sockets that share an AFD device handle. */
module PollPort {

  datatype PollStatus = Idle | Pending | Cancelled

  const EPOLLERR: bv32 := 0x0000_0008
  const EPOLLHUP: bv32 := 0x0000_0010
  const EPOLLONESHOT: bv32 := 0x8000_0000
  /** `SOCK__KNOWN_EPOLL_EVENTS` */
  const KNOWN: bv32 := 0x0000_27df

  /** A poll for `pending` watches for everything that `user` asks for. */
  predicate Covered(user: bv32, pending: bv32) {
    user & KNOWN & !pending == 0
  }

  lemma CoveredBits(user: bv32, pending: bv32)
    ensures Covered(user, pending) <==> user & KNOWN & !pending == 0
  {
  }

  /** Only what the user asked for is reported. */
  function Asked(events: bv32, user: bv32): bv32 {
    events & user
  }

  lemma NothingAsked(user: bv32)
    ensures Asked(0, user) == 0
  {
  }

  predicate OneShot(user: bv32) {
    user & EPOLLONESHOT != 0
  }

  lemma SelfCovered(user: bv32)
    ensures Covered(user, user)
  {
  }

  lemma ErrorsAsked(events: bv32)
    ensures !Covered(events | EPOLLERR | EPOLLHUP, 0)
  {
  }

  /** What AFD answers to a poll request. */
  datatype AfdResult = Accepted | InvalidHandle | OtherError

  /** What the kernel answers during an operation, for each socket: to a poll request, and to a request to cancel. */
  datatype Kernel = Kernel(poll: nat -> AfdResult, cancels: nat -> bool)

  /** What `sock_new` depends on: that the socket is one, that a group can be made, and that there is memory. */
  datatype Means = Means(valid: bool, group: bool, memory: bool)

  /** How a poll completes; events are already mapped to epoll's. */
  datatype Completion = WasCancelled | Failed | NoHandles | LocalClose | Events(events: bv32)

  /** The events that a completion brings. */
  function Happened(c: Completion): bv32 {
    if c.Events? then c.events else if c.Failed? then EPOLLERR else 0
  }

  /** No event is reported that was not asked for or did not happen, and all others are; a failed poll counts as the
      error event, and of a socket that is being deleted nothing is reported. */
  ghost predicate Filtered(user: bv32, gone: bool, c: Completion, reported: bv32) {
    && reported & !user == 0
    && (c.Events? && !gone ==> reported & !c.events == 0 && c.events & user & !reported == 0)
    && (c.Failed? && !gone ==> reported == 0x0000_0008 & user)
    && (gone || !(c.Events? || c.Failed?) ==> reported == 0)
  }

  lemma FilteredBits(user: bv32, gone: bool, c: Completion)
    ensures Filtered(user, gone, c, if gone then 0 else Asked(Happened(c), user))
  {
  }

  /** Once something has been reported, a one-shot socket asks for nothing any more. */
  ghost predicate Disarmed(user: bv32, reported: bv32, user': bv32) {
    user' == if reported != 0 && user & 0x8000_0000 != 0 then 0 else user
  }

  lemma DisarmedBits(user: bv32, reported: bv32)
    ensures Disarmed(user, reported, if reported != 0 && OneShot(user) then 0 else user)
  {
  }

  /** What can happen to a port: `epoll_ctl`, the two locked halves of `epoll_wait`, and in between the completion of
      some poll, which a waiting thread dequeues. */
  datatype Step =
    | Control(op: int, socket: nat, events: bv32, data: int, m: Means, k: Kernel)
    | Begin(k: Kernel)
    | Complete(thread: nat, c: Completion)
    | End(thread: nat)

  class PollGroup {
    var size: nat

    constructor ()
      ensures size == 0
    {
      size := 0;
    }
  }

  const MAX_GROUP_SIZE: nat := 32

  class SockState {
    const socket: nat
    const group: PollGroup
    var userData: int
    var userEvents: bv32
    var pendingEvents: bv32
    var status: PollStatus
    var deletePending: bool

    constructor (s: nat, g: PollGroup)
      ensures socket == s && group == g && userEvents == 0 && pendingEvents == 0 && status == Idle && !deletePending
    {
      socket, group := s, g;
      userData, userEvents, pendingEvents, status, deletePending := 0, 0, 0, Idle, false;
    }
  }

  ghost predicate NoDup<T>(q: seq<T>) {
    forall i, j :: 0 <= i < j < |q| ==> q[i] != q[j]
  }

  /** A queue without one of its members. */
  function Without<T(==)>(q: seq<T>, x: T): (r: seq<T>)
    ensures forall y | y in r :: y in q
    ensures forall y | y in q :: y != x ==> y in r
    ensures x in q ==> |r| < |q|
    ensures x !in q ==> r == q
  {
    if q == [] then [] else if q[0] == x then q[1..] else [q[0]] + Without(q[1..], x)
  }

  lemma {:induction false} WithoutAt<T>(q: seq<T>, k: nat)
    requires NoDup(q) && k < |q|
    ensures Without(q, q[k]) == q[..k] + q[k + 1..]
  {
    if k > 0 {
      assert q[1..][k - 1] == q[k];
      WithoutAt(q[1..], k - 1);
    }
  }

  lemma WithoutNoDup<T>(q: seq<T>, x: T)
    requires NoDup(q)
    ensures NoDup(Without(q, x)) && x !in Without(q, x)
  {
    if x in q {
      var k :| 0 <= k < |q| && q[k] == x;
      WithoutAt(q, k);
    }
  }

  lemma AppendNoDup<T>(q: seq<T>, x: T)
    requires NoDup(q) && x !in q
    ensures NoDup(q + [x])
  {
  }

  ghost function Members(live: set<SockState>, g: PollGroup): set<SockState> {
    set s | s in live && s.group == g
  }

  lemma MembersAdd(live: set<SockState>, s: SockState, g: PollGroup)
    requires s !in live
    ensures |Members(live + {s}, g)| == |Members(live, g)| + if s.group == g then 1 else 0
  {
    if s.group == g {
      assert Members(live + {s}, g) == Members(live, g) + {s};
    } else {
      assert Members(live + {s}, g) == Members(live, g);
    }
  }

  lemma MembersRemove(live: set<SockState>, s: SockState, g: PollGroup)
    requires s in live
    ensures |Members(live, g)| == |Members(live - {s}, g)| + if s.group == g then 1 else 0
  {
    assert live == (live - {s}) + {s};
    MembersAdd(live - {s}, s, g);
  }

  /** Full groups come first. */
  ghost predicate FullFirst(groups: seq<PollGroup>)
    reads set g | g in groups
  {
    forall i, j :: 0 <= i < j < |groups| && groups[j].size == MAX_GROUP_SIZE ==> groups[i].size == MAX_GROUP_SIZE
  }

  /** The size of a group is the number of its live sockets; `extra` counts one that is not there. */
  ghost predicate Sizes(groups: set<PollGroup>, live: set<SockState>, extra: PollGroup?)
    reads groups
  {
    && (forall g :: g in groups ==> g.size <= MAX_GROUP_SIZE)
    && (forall g :: g in groups ==> g.size == |Members(live, g)| + if g == extra then 1 else 0)
    && (forall s :: s in live ==> s.group in groups)
    && (extra != null ==> extra in groups)
  }

  class Port {
    var tree: map<nat, SockState>
    var updateQueue: seq<SockState>
    var deletedQueue: seq<SockState>
    var groups: seq<PollGroup>
    var activePolls: nat
    ghost var live: set<SockState>
    /** AFD's side: the polls it has accepted and whose completion has not been fed back, with the events they
        watch for. */
    var inFlight: map<SockState, bv32>

    constructor ()
      ensures Valid() && live == {} && groups == [] && activePolls == 0 && inFlight == map[]
    {
      tree, updateQueue, deletedQueue, groups, activePolls := map[], [], [], [], 0;
      live, inFlight := {}, map[];
    }

    ghost predicate InTree(s: SockState)
      reads `tree
    {
      s.socket in tree && tree[s.socket] == s
    }

    /** The sizes are those of the groups of live sockets, but for one more in `extra`. */
    ghost predicate Counted(extra: PollGroup?)
      reads `groups, `live, set g | g in groups
    {
      NoDup(groups) && FullFirst(groups) && Sizes(GroupSet(), live, extra)
    }

    ghost function GroupSet(): set<PollGroup>
      reads `groups
    {
      set g | g in groups
    }

    ghost predicate Linked()
      reads `tree, `updateQueue, `deletedQueue, `live
    {
      && NoDup(updateQueue) && NoDup(deletedQueue)
      && (forall s :: s in updateQueue ==> s in live)
      && (forall s :: s in deletedQueue ==> s in live)
      && (forall k :: k in tree ==> tree[k] in live && tree[k].socket == k)
    }

    /** The socket's own account of its poll agrees with AFD's. */
    ghost predicate Tracked(s: SockState)
      reads `inFlight, s
    {
      && (s in inFlight <==> s.status != Idle)
      && (s.status == Pending ==> s.pendingEvents == inFlight[s])
      && (s.status != Pending ==> s.pendingEvents == 0)
    }

    /** Where a socket is, by its state. */
    ghost predicate SockOk(s: SockState)
      reads `tree, `updateQueue, `deletedQueue, `inFlight, s
    {
      && Tracked(s)
      && (InTree(s) <==> !s.deletePending)
      && (s in deletedQueue <==> s.deletePending)
      && (s.deletePending ==> s.status != Idle && s !in updateQueue)
      && (!s.deletePending && s.status == Idle ==> s in updateQueue)
      && (!s.deletePending && s.status == Pending && s !in updateQueue ==> Covered(s.userEvents, s.pendingEvents))
    }

    /** No completion can reach a socket that has been freed. */
    ghost predicate NoneDangling()
      reads `inFlight, `live
    {
      inFlight.Keys <= live
    }

    ghost predicate Valid()
      reads this, live, set g | g in groups
    {
      Consistent() && NoneDangling()
    }

    /** What holds even while the port is closed and sockets are freed by force. */
    ghost predicate Consistent()
      reads this, live, set g | g in groups
    {
      Linked() && Counted(null) && forall s :: s in live ==> SockOk(s)
    }

    /** All sockets but one. */
    ghost predicate ConsistentBut(x: SockState)
      reads this, live, set g | g in groups
    {
      Linked() && Counted(null) && forall s :: s in live && s != x ==> SockOk(s)
    }

    /** Every poll in flight in `before` still is, and watches for the same events. */
    ghost predicate Keeps(before: map<SockState, bv32>)
      reads `inFlight
    {
      forall s :: s in before ==> s in inFlight && inFlight[s] == before[s]
    }

    // ---- Groups ----

    /** `poll_group__new`, when there is memory and the device can be opened: an empty group at the end. */
    method NewGroup() returns (g: PollGroup)
      requires Counted(null)
      modifies this`groups
      ensures Counted(null) && fresh(g) && g.size == 0 && groups == old(groups) + [g]
    {
      g := new PollGroup();
      assert Members(live, g) == {};
      groups := groups + [g];
    }

    /** Some group is not full. */
    ghost predicate HasRoom()
      reads `groups, set g | g in groups
    {
      exists i :: 0 <= i < |groups| && groups[i].size < MAX_GROUP_SIZE
    }

    /** If the last group is full, all are. */
    lemma AllFull()
      requires Counted(null)
      ensures HasRoom() <==> groups != [] && groups[|groups| - 1].size < MAX_GROUP_SIZE
    {
      hide Sizes, NoDup;
      if groups != [] {
        var n := |groups| - 1;
        forall i | 0 <= i < |groups| && groups[n].size == MAX_GROUP_SIZE ensures groups[i].size == MAX_GROUP_SIZE {
          assert i < n ==> groups[i].size == MAX_GROUP_SIZE;
        }
        GroupLimit(groups[n]);
      }
    }

    lemma GroupLimit(g: PollGroup)
      requires Counted(null) && g in groups
      ensures g.size <= MAX_GROUP_SIZE
    {
      assert g in GroupSet();
    }

    /** `poll_group_acquire`: the last group of the queue has room unless all are full. */
    method AcquireGroup(canMake: bool) returns (g: PollGroup?)
      requires Counted(null)
      modifies this`groups, set g | g in groups
      ensures g != null <==> canMake || old(HasRoom())
      ensures g == null ==> groups == old(groups) && Counted(null)
      ensures g != null ==> Counted(g)
      ensures g != null && g !in old(groups) ==>
                fresh(g) && forall h :: h in old(groups) ==> old(h.size) == MAX_GROUP_SIZE
      ensures GroupSet() == old(GroupSet()) + if g == null then {} else {g}
    {
      g := null;
      if groups != [] {
        g := groups[|groups| - 1];
      }
      if g == null || g.size >= MAX_GROUP_SIZE {
        AllFull();
        if !canMake {
          return null;
        }
        g := NewGroup();
      }
      Enlarge(g);
    }

    /** One more socket in the last group; a group that is full goes to the start. */
    method Enlarge(g: PollGroup)
      requires Counted(null) && groups != [] && g == groups[|groups| - 1] && g.size < MAX_GROUP_SIZE
      modifies this`groups, g
      ensures Counted(g) && g.size == old(g.size) + 1 && GroupSet() == old(GroupSet())
    {
      g.size := g.size + 1;
      if g.size == MAX_GROUP_SIZE {
        MoveToStart(groups);
        groups := [g] + groups[..|groups| - 1];
      }
    }

    /** `poll_group_release`: the group has room again and goes to the end. */
    method ReleaseGroup(g: PollGroup)
      requires Counted(g)
      modifies this`groups, g
      ensures Counted(null) && GroupSet() == old(GroupSet())
      ensures groups == Without(old(groups), g) + [g] && g.size == old(g.size) - 1
    {
      Positive(g);
      ghost var k :| 0 <= k < |groups| && groups[k] == g;
      ToEnd(groups, k);
      hide Without, Members, NoDup;
      ghost var was := groups;
      assert FullFirstBut(groups, g);
      g.size := g.size - 1;
      assert FullFirstBut(was, g);
      LessToEnd(was, k);
      groups := Without(groups, g) + [g];
    }

    lemma Positive(g: PollGroup)
      requires Counted(g)
      ensures 0 < g.size <= MAX_GROUP_SIZE && g in groups
    {
    }

    // ---- The update queue and the deleted queue ----

    /** `queue_is_enqueued` on the one queue node that a socket has. */
    predicate Enqueued(s: SockState)
      reads this
    {
      s in updateQueue || s in deletedQueue
    }

    /** `port_request_socket_update` */
    method RequestUpdate(s: SockState)
      requires Linked() && s in live
      modifies this`updateQueue
      ensures Linked() && updateQueue == if old(Enqueued(s)) then old(updateQueue) else old(updateQueue) + [s]
    {
      if Enqueued(s) {
        return;
      }
      AppendNoDup(updateQueue, s);
      updateQueue := updateQueue + [s];
    }

    /** `port_cancel_socket_update`: takes the node out of the queue it is in. */
    method CancelUpdate(s: SockState)
      requires Linked() && s !in deletedQueue
      modifies this`updateQueue
      ensures Linked() && updateQueue == Without(old(updateQueue), s) && s !in updateQueue
    {
      if !Enqueued(s) {
        return;
      }
      WithoutNoDup(updateQueue, s);
      updateQueue := Without(updateQueue, s);
    }

    /** `port_add_deleted_socket` */
    method AddDeleted(s: SockState)
      requires Linked() && s in live && s !in updateQueue
      modifies this`deletedQueue
      ensures Linked() && deletedQueue == if s in old(deletedQueue) then old(deletedQueue) else old(deletedQueue) + [s]
    {
      if Enqueued(s) {
        return;
      }
      AppendNoDup(deletedQueue, s);
      deletedQueue := deletedQueue + [s];
    }

    /** `port_remove_deleted_socket` */
    method RemoveDeleted(s: SockState)
      requires Linked() && s !in updateQueue
      modifies this`deletedQueue
      ensures Linked() && deletedQueue == Without(old(deletedQueue), s) && s !in deletedQueue
    {
      if !Enqueued(s) {
        return;
      }
      WithoutNoDup(deletedQueue, s);
      deletedQueue := Without(deletedQueue, s);
    }

    // ---- Sockets ----

    /** A socket in the tree, whether or not it is queued as it should be. */
    ghost predicate Registered(s: SockState)
      reads this, s
    {
      s in live && Tracked(s) && InTree(s) && !s.deletePending && s !in deletedQueue
    }

    /** A socket that is gone from the tree, whether or not its poll has completed. */
    ghost predicate Doomed(s: SockState)
      reads this, s
    {
      s in live && Tracked(s) && !InTree(s) && s.deletePending && s !in updateQueue
    }

    /** `sock__cancel_poll` */
    method CancelPoll(s: SockState, cancels: bool) returns (ok: bool)
      requires s.status == Pending
      modifies s`status, s`pendingEvents
      ensures ok == cancels
      ensures if ok then s.status == Cancelled && s.pendingEvents == 0
              else s.status == Pending && s.pendingEvents == old(s.pendingEvents)
    {
      ok := cancels;
      if ok {
        s.status := Cancelled;
        s.pendingEvents := 0;
      }
    }

    /** `sock_new`: the error exits give the group back. */
    method New(socket: nat, m: Means) returns (s: SockState?)
      requires Valid()
      modifies this`groups, this`tree, this`live, GroupSet()
      ensures s != null <==> m.valid && (m.group || old(HasRoom())) && m.memory && socket !in old(tree)
      ensures s == null ==> Valid() && live == old(live) && tree == old(tree)
      ensures s != null ==> fresh(s) && ConsistentBut(s) && NoneDangling() && Registered(s)
      ensures s != null ==> s.socket == socket && s.status == Idle && s.userEvents == 0
      ensures s != null ==> socket !in old(tree) && live == old(live) + {s} && tree == old(tree)[socket := s]
      ensures fresh(GroupSet() - old(GroupSet()))
    {
      hide Counted, Linked, SockOk;
      if !m.valid {
        return null;
      }
      var g := AcquireGroup(m.group);
      if g == null {
        return null;
      }
      s := Register(socket, g, m.memory);
    }

    /** The part of `sock_new` that follows `poll_group_acquire`. */
    method Register(socket: nat, g: PollGroup, enoughMemory: bool) returns (s: SockState?)
      requires Linked() && Counted(g) && NoneDangling() && forall t :: t in live ==> SockOk(t)
      modifies this`groups, this`tree, this`live, g
      ensures s != null <==> enoughMemory && socket !in old(tree)
      ensures s == null ==> Valid() && live == old(live) && tree == old(tree)
      ensures s != null ==> fresh(s) && ConsistentBut(s) && NoneDangling() && Registered(s)
      ensures s != null ==> s.socket == socket && s.status == Idle && s.userEvents == 0
      ensures s != null ==> socket !in old(tree) && live == old(live) + {s} && tree == old(tree)[socket := s]
      ensures GroupSet() == old(GroupSet())
    {
      hide FullFirst, Sizes, NoDup, Linked;
      if !enoughMemory {
        ReleaseGroup(g);
        return null;
      }
      s := new SockState(socket, g);
      if socket in tree {
        ReleaseGroup(g);
        return null;
      }
      Enrol(s);
    }

    method Enrol(s: SockState)
      requires Linked() && Counted(s.group) && NoneDangling() && forall t :: t in live ==> SockOk(t)
      requires s !in live && s.socket !in tree && s.status == Idle && s.pendingEvents == 0 && !s.deletePending
      modifies this`tree, this`live
      ensures ConsistentBut(s) && NoneDangling() && Registered(s)
      ensures live == old(live) + {s} && tree == old(tree)[s.socket := s]
    {
      hide FullFirst, Sizes, NoDup;
      tree := tree[s.socket := s];
      SizesAdd(GroupSet(), live, s);
      live := live + {s};
    }

    /** The end of `sock__delete`, once nothing refers to the socket any more. */
    method Free(s: SockState, ghost force: bool)
      requires ConsistentBut(s) && Doomed(s) && (force || s.status == Idle)
      modifies this`deletedQueue, this`groups, this`live, s.group
      ensures Consistent() && live == old(live) - {s} && GroupSet() == old(GroupSet())
    {
      hide FullFirst, Sizes, NoDup, Without;
      RemoveDeleted(s);
      SizesRemove(GroupSet(), live, s);
      live := live - {s};
      ReleaseGroup(s.group);
    }

    /** The first half of `sock__delete`: the socket leaves the tree and the update queue. */
    method Unregister(s: SockState, cancels: bool)
      requires ConsistentBut(s) && Registered(s)
      modifies this`updateQueue, this`tree, s`status, s`pendingEvents, s`deletePending
      ensures ConsistentBut(s) && Doomed(s) && s !in deletedQueue && (s.status == Idle <==> old(s.status) == Idle)
      ensures s.status == if old(s.status) == Pending && cancels then Cancelled else old(s.status)
      ensures tree == old(tree) - {s.socket} && updateQueue == Without(old(updateQueue), s)
    {
      hide Counted, NoDup, Without;
      if s.status == Pending {
        var ok := CancelPoll(s, cancels);
      }
      CancelUpdate(s);
      tree := tree - {s.socket};
      s.deletePending := true;
    }

    /** `sock__delete`: the state is freed only when no poll is in flight, or by force. */
    method DeleteSocket(s: SockState, force: bool, cancels: bool)
      requires ConsistentBut(s) && (Registered(s) || Doomed(s))
      modifies this`updateQueue, this`deletedQueue, this`tree, this`groups, this`live, s.group
      modifies s`status, s`pendingEvents, s`deletePending
      ensures Consistent() && GroupSet() == old(GroupSet())
      ensures live == if force || s !in inFlight then old(live) - {s} else old(live)
      ensures tree == if old(s.deletePending) then old(tree) else old(tree) - {s.socket}
      ensures s.status == Idle <==> old(s.status) == Idle
      ensures !old(s.deletePending) && old(s.status) == Pending ==> s.status == if cancels then Cancelled else Pending
      ensures s in live ==> s.deletePending
      ensures updateQueue == Without(old(updateQueue), s)
    {
      hide Counted, NoDup, Without, Linked;
      if !s.deletePending {
        Unregister(s, cancels);
      }
      if force || s.status == Idle {
        Free(s, force);
      } else {
        AddDeleted(s);
      }
    }

    /** `sock_set_event` */
    method SetEvent(s: SockState, events: bv32, data: int)
      requires ConsistentBut(s) && NoneDangling() && Registered(s)
      modifies this`updateQueue, s`userEvents, s`userData
      ensures Valid() && s.userEvents == events | EPOLLERR | EPOLLHUP && s.userData == data
      ensures s in updateQueue || Covered(s.userEvents, s.pendingEvents)
      ensures forall t :: t in old(updateQueue) ==> t in updateQueue
    {
      hide Counted, Covered;
      ErrorsAsked(events);
      var e := events | EPOLLERR | EPOLLHUP;
      s.userEvents := e;
      s.userData := data;
      if !Covered(e, s.pendingEvents) {
        RequestUpdate(s);
      }
    }

    /** AFD has accepted a poll of `s` for the events asked for. */
    method Submitted(s: SockState)
      requires Valid() && s in updateQueue && s in live && s.status == Idle
      modifies this`inFlight, s`status, s`pendingEvents
      ensures Valid() && s.status == Pending && Covered(s.userEvents, s.pendingEvents)
      ensures inFlight == old(inFlight)[s := s.userEvents]
    {
      hide Counted, Covered, NoDup;
      SelfCovered(s.userEvents);
      s.status := Pending;
      s.pendingEvents := s.userEvents;
      inFlight := inFlight[s := s.userEvents];
    }

    /** A socket whose poll need not be submitted anew leaves the update queue. */
    method Settle(s: SockState)
      requires Valid() && s in updateQueue && s in live && s.status != Idle
      requires s.status == Pending ==> Covered(s.userEvents, s.pendingEvents)
      modifies this`updateQueue
      ensures Valid() && updateQueue == Without(old(updateQueue), s)
    {
      hide Counted, Covered, NoDup, Without;
      CancelUpdate(s);
    }

    /** The update of `s` fails: its poll cannot be cancelled, or AFD refuses a new one. */
    ghost predicate Fails(s: SockState, k: Kernel)
      reads s
    {
      || (s.status == Pending && !Covered(s.userEvents, s.pendingEvents) && !k.cancels(s.socket))
      || (s.status == Idle && k.poll(s.socket).OtherError?)
    }

    /** `sock_update`: takes a socket off the update queue, with a poll under way that will bring it back. */
    method UpdateSocket(s: SockState, k: Kernel) returns (ok: bool)
      requires Valid() && s in updateQueue && s in live
      modifies this`updateQueue, this`deletedQueue, this`tree, this`groups, this`live, this`inFlight, s, s.group
      ensures Valid() && GroupSet() == old(GroupSet()) && Keeps(old(inFlight)) && ok == !old(Fails(s, k))
      ensures ok ==> updateQueue == Without(old(updateQueue), s)
      ensures !ok ==> updateQueue == old(updateQueue) && live == old(live) && inFlight == old(inFlight)
      ensures live == if s !in old(inFlight) && k.poll(s.socket).InvalidHandle? then old(live) - {s} else old(live)
      ensures tree == if s in live then old(tree) else old(tree) - {s.socket}
      ensures ok && s in live && s !in old(inFlight) ==> inFlight == old(inFlight)[s := s.userEvents]
      ensures s in old(inFlight) || s !in live ==> inFlight == old(inFlight)
      ensures s.userEvents == old(s.userEvents) && s.userData == old(s.userData)
    {
      hide Counted, Covered, NoDup, Without, Linked;
      if s.status == Pending && Covered(s.userEvents, s.pendingEvents) {
      } else if s.status == Pending {
        ok := CancelPoll(s, k.cancels(s.socket));
        if !ok {
          return;
        }
      } else if s.status == Idle {
        match k.poll(s.socket) {
          case Accepted =>
          case InvalidHandle =>
            DeleteSocket(s, false, k.cancels(s.socket));
            return true;
          case OtherError =>
            return false;
        }
        Submitted(s);
      }
      Settle(s);
      ok := true;
    }

    /** What the caller gets to see of the completion `c`: nothing, or the user's data and the events. */
    function Report(s: SockState, c: Completion): (r: seq<(int, bv32)>)
      reads s
      ensures |r| <= 1
    {
      var reported := if s.deletePending then 0 else Asked(Happened(c), s.userEvents);
      if reported == 0 then [] else [(s.userData, reported)]
    }

    lemma ReportBits(s: SockState, c: Completion)
      ensures forall r :: r in Report(s, c) ==>
                r.0 == s.userData && r.1 != 0 && Filtered(s.userEvents, s.deletePending, c, r.1)
      ensures Report(s, c) == [] ==> Filtered(s.userEvents, s.deletePending, c, 0)
    {
      FilteredBits(s.userEvents, s.deletePending, c);
      hide Asked, Filtered;
    }

    /** The poll of `s` is over. */
    method Completed(s: SockState)
      requires Valid() && s in inFlight
      modifies this`inFlight, s`status, s`pendingEvents
      ensures ConsistentBut(s) && NoneDangling() && s.status == Idle && inFlight == old(inFlight) - {s}
      ensures if s.deletePending then Doomed(s) else Registered(s)
    {
      hide Counted, Covered, NoDup;
      s.status := Idle;
      s.pendingEvents := 0;
      inFlight := inFlight - {s};
    }

    /** `sock_feed_event`: the poll of `s` has completed. `reported` is zero when there is nothing to report. */
    method FeedEvent(s: SockState, c: Completion) returns (reported: bv32, data: int)
      requires Valid() && s in inFlight
      modifies this`updateQueue, this`deletedQueue, this`tree, this`groups, this`live, this`inFlight, s, s.group
      ensures Valid() && GroupSet() == old(GroupSet()) && inFlight == old(inFlight) - {s}
      ensures live == if old(s.deletePending) || c.LocalClose? then old(live) - {s} else old(live)
      ensures s in live ==> s.status == Idle && s in updateQueue
      ensures old(Report(s, c)) == if reported == 0 then [] else [(data, reported)]
      ensures Filtered(old(s.userEvents), old(s.deletePending), c, reported)
      ensures s in live ==> Disarmed(old(s.userEvents), reported, s.userEvents)
      ensures data == s.userData == old(s.userData)
    {
      hide Counted, Covered, NoDup, Without, Asked, OneShot, Filtered, Disarmed, Linked, SockOk;
      FilteredBits(s.userEvents, s.deletePending, c);
      NothingAsked(s.userEvents);
      Completed(s);
      reported, data := 0, s.userData;
      if s.deletePending {
        DeleteSocket(s, false, false);
        return;
      }
      match c {
        case WasCancelled =>
        case Failed => reported := EPOLLERR;
        case NoHandles =>
        case LocalClose =>
          DeleteSocket(s, false, false);
          return;
        case Events(e) => reported := e;
      }
      reported := Requeue(s, reported);
    }

    /** The end of `sock_feed_event`. */
    method Requeue(s: SockState, happened: bv32) returns (reported: bv32)
      requires ConsistentBut(s) && NoneDangling() && Registered(s) && s.status == Idle
      modifies this`updateQueue, s`userEvents
      ensures Valid() && s in updateQueue && reported == Asked(happened, old(s.userEvents))
      ensures Disarmed(old(s.userEvents), reported, s.userEvents)
    {
      hide Counted, Covered, NoDup, Without, Asked, OneShot, Disarmed;
      RequestUpdate(s);
      reported := Asked(happened, s.userEvents);
      DisarmedBits(s.userEvents, reported);
      if reported == 0 {
        return;
      }
      if OneShot(s.userEvents) {
        s.userEvents := 0;
      }
    }

    // ---- Whole operations on the port ----

    /** `port__update_events`: it succeeds exactly if no update fails, and then every socket is being polled for what is
        asked. */
    method UpdateEvents(k: Kernel) returns (ok: bool)
      requires Valid()
      modifies this`updateQueue, this`deletedQueue, this`tree, this`groups, this`live, this`inFlight, live, GroupSet()
      ensures Valid() && GroupSet() == old(GroupSet()) && live <= old(live) && Keeps(old(inFlight))
      ensures ok <==> old(NoneFails(k))
      ensures ok ==> updateQueue == []
      ensures forall k :: k in tree ==> k in old(tree) && tree[k] == old(tree)[k]
      ensures forall s :: s in old(live) ==> s.userEvents == old(s.userEvents) && s.userData == old(s.userData)
    {
      hide Counted, NoDup, Without, SockOk, Linked, Fails;
      while updateQueue != []
        invariant Valid() && GroupSet() == old(GroupSet()) && live <= old(live) && Keeps(old(inFlight))
        invariant forall k :: k in tree ==> k in old(tree) && tree[k] == old(tree)[k]
        invariant forall s :: s in old(live) ==> s.userEvents == old(s.userEvents) && s.userData == old(s.userData)
        invariant forall s :: s in updateQueue ==> s in old(updateQueue) && Fails(s, k) == old(Fails(s, k))
        invariant forall s :: s in old(updateQueue) && s !in updateQueue ==> !old(Fails(s, k))
        decreases |updateQueue|
      {
        var s := updateQueue[0];
        QueuedLive(s);
        FirstGoes(s);
        ok := UpdateSocket(s, k);
        if !ok {
          return;
        }
      }
      ok := true;
    }

    /** No update of a queued socket will fail. */
    ghost predicate NoneFails(k: Kernel)
      reads `updateQueue, set s | s in updateQueue
    {
      forall s :: s in updateQueue ==> !Fails(s, k)
    }

    /** The first socket of the queue is in it once. */
    lemma FirstGoes(s: SockState)
      requires Linked() && updateQueue != [] && s == updateQueue[0]
      ensures s !in Without(updateQueue, s) && forall t :: t in Without(updateQueue, s) ==> t in updateQueue && t != s
    {
      WithoutNoDup(updateQueue, s);
    }

    lemma QueuedLive(s: SockState)
      requires Valid() && s in updateQueue
      ensures s in live && s.group in GroupSet()
    {
    }

    method UpdateEventsIfPolling(k: Kernel)
      requires Valid()
      modifies this`updateQueue, this`deletedQueue, this`tree, this`groups, this`live, this`inFlight, live, GroupSet()
      ensures Valid() && GroupSet() == old(GroupSet()) && live <= old(live) && Keeps(old(inFlight))
      ensures activePolls == 0 ==> tree == old(tree) && live == old(live)
      ensures forall k :: k in tree ==> k in old(tree) && tree[k] == old(tree)[k]
      ensures forall s :: s in old(live) ==> s.userEvents == old(s.userEvents) && s.userData == old(s.userData)
    {
      if activePolls > 0 {
        var ok := UpdateEvents(k);
      }
    }

    /** No event that was asked for can be missed: with nothing left to update, every registered socket has a poll in
        flight, and AFD watches for all of it unless the poll has been cancelled and will be submitted anew. */
    ghost predicate AllPolled()
      reads this, tree.Values
    {
      forall k :: k in tree ==>
        var s := tree[k];
        s in inFlight && (s.status == Cancelled || s.userEvents & KNOWN & !inFlight[s] == 0)
    }

    lemma NothingMissed()
      requires Valid() && updateQueue == []
      ensures AllPolled()
    {
      hide Counted, Covered;
      forall k | k in tree
        ensures var s := tree[k];
                s in inFlight && (s.status == Cancelled || s.userEvents & KNOWN & !inFlight[s] == 0)
      {
        var s := tree[k];
        assert s in live && !s.deletePending && SockOk(s);
        CoveredBits(s.userEvents, inFlight[s]);
      }
    }

    /** `port__ctl_add`: the socket is registered, unless an update finds at once that AFD does not know it. */
    method CtlAdd(socket: nat, events: bv32, data: int, m: Means, k: Kernel) returns (ok: bool)
      requires Valid()
      modifies this`updateQueue, this`deletedQueue, this`tree, this`groups, this`live, this`inFlight, live, GroupSet()
      ensures Valid() && Keeps(old(inFlight))
      ensures fresh(live - old(live)) && fresh(GroupSet() - old(GroupSet()))
      ensures ok <==> m.valid && (m.group || old(HasRoom())) && m.memory && socket !in old(tree)
      ensures ok && activePolls == 0 ==> tree.Keys == old(tree.Keys) + {socket}
      ensures ok && socket in tree ==> var s := tree[socket];
        fresh(s) && s.userEvents == events | EPOLLERR | EPOLLHUP && s.userData == data
      ensures ok ==> forall k :: k in tree && k != socket ==> k in old(tree) && tree[k] == old(tree)[k]
      ensures !ok ==> live == old(live) && tree == old(tree)
    {
      hide Counted, Linked, SockOk, NoDup;
      var s := New(socket, m);
      if s == null {
        return false;
      }
      SetEvent(s, events, data);
      UpdateEventsIfPolling(k);
      ok := true;
    }

    /** `port__ctl_mod` */
    method CtlMod(socket: nat, events: bv32, data: int, k: Kernel) returns (ok: bool)
      requires Valid()
      modifies this`updateQueue, this`deletedQueue, this`tree, this`groups, this`live, this`inFlight, live, GroupSet()
      ensures Valid() && ok == (socket in old(tree)) && Keeps(old(inFlight))
      ensures live <= old(live) && GroupSet() == old(GroupSet())
      ensures ok ==> var s := old(tree[socket]); s.userEvents == events | EPOLLERR | EPOLLHUP && s.userData == data
      ensures forall k :: k in tree ==> k in old(tree) && tree[k] == old(tree)[k]
    {
      hide Counted, NoDup;
      if socket !in tree {
        return false;
      }
      SetEvent(tree[socket], events, data);
      UpdateEventsIfPolling(k);
      ok := true;
    }

    /** `port__ctl_del` */
    method CtlDel(socket: nat, k: Kernel) returns (ok: bool)
      requires Valid()
      modifies this`updateQueue, this`deletedQueue, this`tree, this`groups, this`live, this`inFlight, live, GroupSet()
      ensures Valid() && ok == (socket in old(tree)) && tree == old(tree) - {socket}
      ensures live <= old(live) && GroupSet() == old(GroupSet()) && inFlight == old(inFlight)
    {
      hide Counted, NoDup;
      if socket !in tree {
        return false;
      }
      var s := tree[socket];
      GroupOf(s);
      DeleteSocket(s, false, k.cancels(socket));
      ok := true;
    }

    /** `port_ctl`, between taking the lock and giving it back. `op` is 1, 2 or 3 for add, modify and delete. */
    method Ctl(op: int, socket: nat, events: bv32, data: int, m: Means, k: Kernel) returns (ok: bool)
      requires Valid()
      modifies this`updateQueue, this`deletedQueue, this`tree, this`groups, this`live, this`inFlight, live, GroupSet()
      ensures Valid() && Keeps(old(inFlight))
      ensures ok <==>
                || (op == 1 && m.valid && (m.group || old(HasRoom())) && m.memory && socket !in old(tree))
                || (op in {2, 3} && socket in old(tree))
      ensures fresh(live - old(live)) && fresh(GroupSet() - old(GroupSet()))
    {
      hide Counted, NoDup, Linked, SockOk;
      if op == 1 {
        ok := CtlAdd(socket, events, data, m, k);
      } else if op == 2 {
        ok := CtlMod(socket, events, data, k);
      } else if op == 3 {
        ok := CtlDel(socket, k);
      } else {
        ok := false;
      }
    }

    /** Completions that have been dequeued but not fed back: of polls in flight, no two of one socket. */
    ghost predicate Batch(b: seq<(SockState, Completion)>)
      reads `inFlight
    {
      && (forall i :: 0 <= i < |b| ==> b[i].0 in inFlight)
      && (forall i, j :: 0 <= i < j < |b| ==> b[i].0 != b[j].0)
    }

    function Sockets(b: seq<(SockState, Completion)>): set<SockState> {
      set i | 0 <= i < |b| :: b[i].0
    }

    /** What the caller gets to see of a batch, in its order. */
    function Reports(b: seq<(SockState, Completion)>): seq<(int, bv32)>
      reads Sockets(b)
    {
      if b == [] then [] else Reports(b[..|b| - 1]) + Report(b[|b| - 1].0, b[|b| - 1].1)
    }

    /** A report is of some completion in the batch: it carries the data of the socket, and of the events that happened
        exactly those that were asked for. */
    ghost predicate Explained(r: (int, bv32), b: seq<(SockState, Completion)>)
      reads Sockets(b)
    {
      exists i :: 0 <= i < |b| && r.0 == b[i].0.userData && r.1 != 0
        && Filtered(b[i].0.userEvents, b[i].0.deletePending, b[i].1, r.1)
    }

    ghost predicate AllExplained(b: seq<(SockState, Completion)>)
      reads Sockets(b)
    {
      forall j :: 0 <= j < |Reports(b)| ==> Explained(Reports(b)[j], b)
    }

    lemma {:induction false} ReportsExplained(b: seq<(SockState, Completion)>)
      ensures AllExplained(b)
    {
      hide Report, Filtered;
      if b != [] {
        var n := |b| - 1;
        ReportsExplained(b[..n]);
        forall j | 0 <= j < |Reports(b)| ensures Explained(Reports(b)[j], b) {
          if j < |Reports(b[..n])| {
            var i :| 0 <= i < n && Reports(b)[j].0 == b[..n][i].0.userData && Reports(b)[j].1 != 0
              && Filtered(b[..n][i].0.userEvents, b[..n][i].0.deletePending, b[..n][i].1, Reports(b)[j].1);
            assert b[i] == b[..n][i];
          } else {
            assert Reports(b)[j] == Report(b[n].0, b[n].1)[j - |Reports(b[..n])|];
            ReportBits(b[n].0, b[n].1);
          }
        }
      }
    }

    /** `port__feed_events`. `out` is what the caller of `epoll_wait` gets to see. */
    method FeedEvents(b: seq<(SockState, Completion)>) returns (out: seq<(int, bv32)>)
      requires Valid() && Batch(b)
      modifies this`updateQueue, this`deletedQueue, this`tree, this`groups, this`live, this`inFlight, live, GroupSet()
      ensures Valid() && GroupSet() == old(GroupSet()) && live <= old(live)
      ensures inFlight == old(inFlight) - Sockets(b) && out == old(Reports(b))
      ensures forall s :: s in old(live) && s !in Sockets(b) ==> unchanged(s)
      ensures old(AllExplained(b))
    {
      hide Counted, NoDup, Linked, SockOk, Asked, OneShot, Report, Filtered, Disarmed, AllExplained;
      ReportsExplained(b);
      out := [];
      for i := 0 to |b|
        invariant Valid() && GroupSet() == old(GroupSet()) && live <= old(live)
        invariant inFlight == old(inFlight) - Sockets(b[..i]) && out == old(Reports(b[..i]))
        invariant forall s :: s in old(live) && s !in Sockets(b[..i]) ==> unchanged(s)
      {
        GroupOf(b[i].0);
        assert b[..i + 1][..i] == b[..i];
        var reported, data := FeedEvent(b[i].0, b[i].1);
        if reported != 0 {
          out := out + [(data, reported)];
        }
      }
      assert b[..|b|] == b;
    }

    /** `port__poll` up to the point where the lock is given up. */
    method BeginPoll(k: Kernel) returns (ok: bool)
      requires Valid()
      modifies this, live, GroupSet()
      ensures Valid() && (ok <==> old(NoneFails(k))) && (ok ==> updateQueue == [] && AllPolled())
      ensures activePolls == old(activePolls) + if ok then 1 else 0
      ensures live <= old(live) && GroupSet() == old(GroupSet()) && Keeps(old(inFlight))
    {
      hide Counted, NoDup, Linked, SockOk;
      ok := UpdateEvents(k);
      if ok {
        activePolls := activePolls + 1;
        NothingMissed();
      }
    }

    /** `port__poll` once it has the lock again; in between, other operations may have run. */
    method EndPoll(b: seq<(SockState, Completion)>) returns (out: seq<(int, bv32)>)
      requires Valid() && Batch(b) && activePolls > 0
      modifies this, live, GroupSet()
      ensures Valid() && activePolls == old(activePolls) - 1
      ensures live <= old(live) && GroupSet() == old(GroupSet())
      ensures inFlight == old(inFlight) - Sockets(b) && out == old(Reports(b))
      ensures forall s :: s in old(live) && s !in Sockets(b) ==> unchanged(s)
    {
      hide Counted, NoDup, Linked, SockOk;
      activePolls := activePolls - 1;
      out := FeedEvents(b);
    }

    lemma {:induction false} ReportsAppend(a: seq<(SockState, Completion)>, b: seq<(SockState, Completion)>)
      ensures Reports(a + b) == Reports(a) + Reports(b) && Sockets(a + b) == Sockets(a) + Sockets(b)
    {
      hide Report;
      forall s | s in Sockets(b) ensures s in Sockets(a + b) {
        var i :| 0 <= i < |b| && b[i].0 == s;
        assert (a + b)[|a| + i].0 == s;
      }
      forall s | s in Sockets(a) ensures s in Sockets(a + b) {
        var i :| 0 <= i < |a| && a[i].0 == s;
        assert (a + b)[i].0 == s;
      }
      if b == [] {
        assert a + b == a;
      } else {
        ReportsAppend(a, b[..|b| - 1]);
        assert (a + b)[..|a + b| - 1] == a + b[..|b| - 1];
      }
    }

    /** Two threads that wait on the port feed what they have dequeued one after the other. The first leaves the
        second one's sockets as they are, so together they report what one batch would have. */
    method EndTwoPolls(a: seq<(SockState, Completion)>, b: seq<(SockState, Completion)>)
      returns (outA: seq<(int, bv32)>, outB: seq<(int, bv32)>)
      requires Valid() && Batch(a + b) && activePolls >= 2
      modifies this, live, GroupSet()
      ensures Valid() && activePolls == old(activePolls) - 2
      ensures inFlight == old(inFlight) - Sockets(a + b) && outA + outB == old(Reports(a + b))
    {
      hide Counted, NoDup, Linked, SockOk, Reports;
      ReportsAppend(a, b);
      BatchParts(a, b);
      outA := EndPoll(a);
      assert Reports(b) == old(Reports(b));
      outB := EndPoll(b);
    }

    lemma BatchParts(a: seq<(SockState, Completion)>, b: seq<(SockState, Completion)>)
      requires Batch(a + b)
      ensures Batch(a) && Batch(b) && Sockets(a) !! Sockets(b)
    {
      assert a == (a + b)[..|a|] && b == (a + b)[|a|..];
      forall i, j | 0 <= i < |a| && 0 <= j < |b| ensures a[i].0 != b[j].0 {
        assert (a + b)[i] == a[i] && (a + b)[|a| + j] == b[j];
      }
    }

    // ---- Whole runs ----

    /** The batches of all threads that have given up the lock in `port__poll`, while the polls in `flying` are in
        flight. */
    ghost predicate Waiting(flying: map<SockState, bv32>, batches: seq<seq<(SockState, Completion)>>) {
      && (forall i, j :: 0 <= i < |batches| && 0 <= j < |batches[i]| ==> batches[i][j].0 in flying)
      && (forall i, j, k :: 0 <= i < |batches| && 0 <= j < k < |batches[i]| ==> batches[i][j].0 != batches[i][k].0)
      && (forall i, j :: 0 <= i < j < |batches| ==> Sockets(batches[i]) !! Sockets(batches[j]))
    }

    /** A batch that has been fed leaves the others as they were. */
    lemma EndedOne(before: map<SockState, bv32>, batches: seq<seq<(SockState, Completion)>>, k: nat)
      requires Waiting(before, batches) && k < |batches|
      ensures Waiting(before - Sockets(batches[k]), batches[..k] + batches[k + 1..])
    {
      var rest: seq<seq<(SockState, Completion)>> := batches[..k] + batches[k + 1..];
      var after := before - Sockets(batches[k]);
      forall i: nat, j: nat | i < |rest| && j < |rest[i]| ensures rest[i][j].0 in after {
        var h := if i < k then i else i + 1;
        assert rest[i] == batches[h] && batches[h][j].0 in Sockets(batches[h]);
        assert Sockets(batches[h]) !! Sockets(batches[k]);
      }
    }

    lemma KeptWaiting(before: map<SockState, bv32>, batches: seq<seq<(SockState, Completion)>>)
      requires Waiting(before, batches) && Keeps(before)
      ensures Waiting(inFlight, batches)
    {
    }

    lemma BatchOf(batches: seq<seq<(SockState, Completion)>>, k: nat)
      requires Waiting(inFlight, batches) && k < |batches|
      ensures Batch(batches[k])
    {
    }

    lemma DequeueOne(batches: seq<seq<(SockState, Completion)>>, k: nat, s: SockState, c: Completion)
      requires Waiting(inFlight, batches) && k < |batches| && s in inFlight
      requires forall i :: 0 <= i < |batches| ==> s !in Sockets(batches[i])
      ensures Waiting(inFlight, batches[k := batches[k] + [(s, c)]])
    {
      var more := batches[k] + [(s, c)];
      forall i | 0 <= i < |batches[k]| ensures batches[k][i].0 != s {
        assert batches[k][i].0 in Sockets(batches[k]);
      }
      assert Sockets(more) == Sockets(batches[k]) + {s} by {
        assert more[|batches[k]|].0 == s;
        forall t | t in Sockets(batches[k]) ensures t in Sockets(more) {
          var i :| 0 <= i < |batches[k]| && batches[k][i].0 == t;
          assert more[i].0 == t;
        }
      }
    }

    /** Any run of any number of threads: operations on the port come in any order, and AFD completes any poll in
        flight at any time, to any thread that waits. Completions are always safe to feed, and the port stays valid. */
    method Serve(steps: seq<Step>)
      requires Valid() && activePolls == 0
      modifies this, live, GroupSet()
      ensures Valid()
    {
      hide Counted, NoDup, Linked, SockOk, Consistent, NoneDangling, Waiting, Keeps, Batch;
      var batches: seq<seq<(SockState, Completion)>> := [];
      NoneWaiting(inFlight);
      for n := 0 to |steps|
        invariant Valid() && activePolls == |batches| && Waiting(inFlight, batches)
        invariant fresh(live - old(live)) && fresh(GroupSet() - old(GroupSet()))
      {
        ghost var before := inFlight;
        match steps[n] {
          case Control(op, socket, events, data, m, k) =>
            var ok := Ctl(op, socket, events, data, m, k);
            KeptWaiting(before, batches);
          case Begin(k) =>
            var ok := BeginPoll(k);
            KeptWaiting(before, batches);
            if ok {
              OneMoreWaits(inFlight, batches);
              batches := batches + [[]];
            }
          case Complete(thread, c) =>
            var s: SockState? := *;
            if thread < |batches| && s in inFlight && forall i :: 0 <= i < |batches| ==> s !in Sockets(batches[i]) {
              DequeueOne(batches, thread, s, c);
              batches := batches[thread := batches[thread] + [(s, c)]];
            }
          case End(thread) =>
            if thread < |batches| {
              BatchOf(batches, thread);
              var out := EndPoll(batches[thread]);
              EndedOne(before, batches, thread);
              batches := batches[..thread] + batches[thread + 1..];
            }
        }
      }
    }

    lemma NoneWaiting(flying: map<SockState, bv32>)
      ensures Waiting(flying, [])
    {
    }

    lemma OneMoreWaits(flying: map<SockState, bv32>, batches: seq<seq<(SockState, Completion)>>)
      requires Waiting(flying, batches)
      ensures Waiting(flying, batches + [[]])
    {
      assert Sockets([]) == {};
    }

    // ---- The end of the port ----

    /** `port_delete`: everything is freed by force, and its assertions hold. */
    method Delete(k: Kernel)
      requires Valid()
      modifies this, live, GroupSet()
      ensures live == {} && groups == [] && tree == map[] && updateQueue == [] && deletedQueue == []
    {
      hide NoDup, Without, FullFirst;
      DeleteTree(k);
      DeleteRest(k);
      NoneLeft();
      while groups != []
        invariant live == {} && tree == map[] && updateQueue == [] && deletedQueue == []
        invariant forall g :: g in groups ==> g.size == 0
      {
        assert groups[0].size == 0;
        groups := groups[1..];
      }
      assert updateQueue == [];
    }

    method DeleteTree(k: Kernel)
      requires Consistent()
      modifies this`updateQueue, this`deletedQueue, this`tree, this`groups, this`live, live, GroupSet()
      ensures Consistent() && GroupSet() == old(GroupSet()) && live <= old(live) && tree == map[]
    {
      hide Counted, NoDup, Without;
      while tree != map[]
        invariant Consistent() && GroupSet() == old(GroupSet()) && live <= old(live)
        decreases |tree|
      {
        var socket :| socket in tree;
        var s := tree[socket];
        GroupOf(s);
        ghost var before := tree;
        DeleteSocket(s, true, k.cancels(s.socket));
        SmallerMap(before, socket);
      }
    }

    method DeleteRest(k: Kernel)
      requires Consistent() && tree == map[]
      modifies this`updateQueue, this`deletedQueue, this`tree, this`groups, this`live, live, GroupSet()
      ensures Consistent() && GroupSet() == old(GroupSet()) && live <= old(live) && tree == map[] && deletedQueue == []
    {
      hide Counted, NoDup, Without;
      while deletedQueue != []
        invariant Consistent() && GroupSet() == old(GroupSet()) && live <= old(live) && tree == map[]
        decreases |live|
      {
        var s := deletedQueue[0];
        GroupOf(s);
        DeleteSocket(s, true, k.cancels(s.socket));
      }
    }

    /** Without a tree and a deleted queue there are no sockets, so the groups are empty. */
    lemma NoneLeft()
      requires Consistent() && tree == map[] && deletedQueue == []
      ensures live == {} && updateQueue == [] && forall g :: g in groups ==> g.size == 0
    {
      assert |updateQueue| > 0 ==> updateQueue[0] in updateQueue && updateQueue[0] in live;
      forall s | s in live ensures s.socket in tree || s in deletedQueue {
        assert SockOk(s);
      }
      assert live == {};
      forall g | g in groups ensures g.size == 0 {
        assert g in GroupSet() && Members(live, g) == {};
      }
    }

    /** The groups together hold exactly the sockets that have not been freed. */
    lemma GroupsHoldAll()
      requires Valid()
      ensures TotalSize(groups) == |live|
    {
      hide SockOk, FullFirst;
      forall g | g in groups ensures g in GroupSet() && g.size == |Members(live, g)| {
      }
      forall s | s in live ensures s.group in groups {
        GroupOf(s);
      }
      SumOfMembers(groups, live);
    }

    lemma GroupOf(s: SockState)
      requires Consistent() && s in live
      ensures s.group in GroupSet()
    {
    }
  }

  ghost function TotalSize(groups: seq<PollGroup>): nat
    reads set g | g in groups
  {
    if groups == [] then 0 else groups[0].size + TotalSize(groups[1..])
  }

  lemma {:induction false} SumOfMembers(groups: seq<PollGroup>, live: set<SockState>)
    requires NoDup(groups) && forall s :: s in live ==> s.group in groups
    requires forall g :: g in groups ==> g.size == |Members(live, g)|
    ensures TotalSize(groups) == |live|
  {
    if groups == [] {
      assert live == {};
    } else {
      var (g, rest) := (groups[0], groups[1..]);
      var others := live - Members(live, g);
      forall h | h in rest ensures Members(others, h) == Members(live, h) {
      }
      SumOfMembers(rest, others);
      assert live == Members(live, g) + others;
    }
  }

  lemma SmallerMap(m: map<nat, SockState>, k: nat)
    requires k in m
    ensures |m - {k}| < |m|
  {
    assert m == (m - {k})[k := m[k]];
  }

  lemma SizesAdd(groups: set<PollGroup>, live: set<SockState>, s: SockState)
    requires Sizes(groups, live, s.group) && s !in live
    ensures Sizes(groups, live + {s}, null)
  {
    hide Members;
    forall g | g in groups ensures g.size == |Members(live + {s}, g)| {
      MembersAdd(live, s, g);
    }
  }

  lemma SizesRemove(groups: set<PollGroup>, live: set<SockState>, s: SockState)
    requires Sizes(groups, live, null) && s in live
    ensures Sizes(groups, live - {s}, s.group)
  {
    hide Members;
    forall g | g in groups ensures g.size == |Members(live - {s}, g)| + if g == s.group then 1 else 0 {
      MembersRemove(live, s, g);
    }
  }

  /** The same, not looking at `g`. */
  ghost predicate FullFirstBut(groups: seq<PollGroup>, g: PollGroup)
    reads set h | h in groups
  {
    forall i, j :: 0 <= i < j < |groups| && groups[j].size == MAX_GROUP_SIZE && groups[i] != g && groups[j] != g
      ==> groups[i].size == MAX_GROUP_SIZE
  }

  lemma LessToEnd(groups: seq<PollGroup>, k: nat)
    requires k < |groups| && FullFirstBut(groups, groups[k]) && groups[k].size < MAX_GROUP_SIZE && NoDup(groups)
    ensures FullFirst(groups[..k] + groups[k + 1..] + [groups[k]])
  {
    var q := groups[..k] + groups[k + 1..] + [groups[k]];
    forall i, j | 0 <= i < j < |q| && q[j].size == MAX_GROUP_SIZE
      ensures q[i].size == MAX_GROUP_SIZE
    {
      var (a, b) := (if i < k then i else i + 1, if j < k then j else j + 1);
      assert q[i] == groups[a] && q[j] == groups[b];
    }
  }

  lemma ToEnd(groups: seq<PollGroup>, k: nat)
    requires NoDup(groups) && k < |groups|
    ensures Without(groups, groups[k]) == groups[..k] + groups[k + 1..]
    ensures var q := groups[..k] + groups[k + 1..] + [groups[k]]; NoDup(q) && (set h | h in q) == set h | h in groups
  {
    WithoutAt(groups, k);
    hide Without;
    var q := groups[..k] + groups[k + 1..] + [groups[k]];
    forall i, j | 0 <= i < j < |q|
      ensures q[i] != q[j]
    {
      var a := if i < k then i else if i < |q| - 1 then i + 1 else k;
      var b := if j < k then j else if j < |q| - 1 then j + 1 else k;
      assert q[i] == groups[a] && q[j] == groups[b] && a != b;
    }
    hide NoDup;
    assert groups == groups[..k] + [groups[k]] + groups[k + 1..];
  }

  lemma MoveToStart(groups: seq<PollGroup>)
    requires NoDup(groups) && groups != []
    ensures var n := |groups| - 1; NoDup([groups[n]] + groups[..n])
    ensures var n := |groups| - 1; (set h | h in [groups[n]] + groups[..n]) == set h | h in groups
  {
    var n := |groups| - 1;
    assert groups == groups[..n] + [groups[n]];
  }
}
