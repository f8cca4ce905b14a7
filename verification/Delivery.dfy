/** The delivery pipeline of `logic/dispatch.rs` and `logic/network.rs`: items are stored, peeked into a
    pending slot, handed over through the upload queue, sent, and confirmed; a drain barrier reports
    when everything handed in before it has been delivered.

    The dispatch task, the network task and the producers interleave at their awaits and polls; the
    network task makes the steps of the loop in `Connection`; the store keeps to the contract of the
    `DispatchStore` trait. Dropping an upload that was not confirmed gives its item back to the store. */
module Delivery {
  import opened Options
  import opened Connection

  datatype Kind = Event | Data

  /** A stored item waits to be peeked, is held by an upload, or is done with. */
  datatype Mark = Waiting | Busy | Confirmed
  type Store = map<Id, Mark>

  /** In front of the store: the kinds of all items ever handed in, indexed by item, the items not yet
      received, and those sitting in the serializer. */
  datatype Front = Front(kinds: seq<Kind>, incoming: set<Id>, buffered: set<Id>)

  /** The two pending slots, the upload queue and the network task's `pending_upload`. */
  datatype Uploads = Uploads(
    event: Option<Upload>, data: Option<Upload>, queue: seq<Upload>, inFlight: Option<Upload>)
  {
    function Slot(k: Kind): Option<Upload> { if k.Event? then event else data }

    function SetSlot(k: Kind, u: Option<Upload>): Uploads {
      if k.Event? then this.(event := u) else this.(data := u)
    }

    /** The items whose handle some upload carries, wherever it is. */
    function Handles(): multiset<Id> {
      Held(event) + Held(data) + HeldInQueue(queue) + Held(inFlight)
    }
  }

  /** Where the dispatch loop is: anywhere else, inside `select3` between finding nothing incoming and
      looking for a barrier request, emptying the serializer, or about to ask the store whether it is
      drained. */
  datatype Place = Looping | Polling | Flushing(flushed: bool) | Checking

  datatype Barrier = Barrier(requested: bool, active: bool, place: Place)

  /** History: the items some send of which returned Ok, those that never made it into the store, the
      number of `DispatchDrained` signals, and the items they answered for. */
  datatype Log = Log(sent: set<Id>, failed: set<Id>, replies: nat, answered: set<Id>)

  datatype System = System(
    front: Front, store: Store, up: Uploads, capacity: nat, loop: Loop, barrier: Barrier, log: Log)

  datatype Outcome = StoredOk | StoreFailed | NotSerializable

  const OFFLINE := Loop(Closed(Error), false, 20)

  /** The network task: its loop and its `pending_upload`. */
  function NetOf(s: System): Net { Net(s.loop, s.up.inFlight) }

  function Init(capacity: nat): System {
    System(Front([], {}, {}), map[], Uploads(None, None, [], None), capacity, OFFLINE,
           Barrier(false, false, Looping), Log({}, {}, 0, {}))
  }

  /** Dropping an upload: the handle, if any, aborts the peek. */
  function Release(store: Store, u: Option<Upload>): Store {
    if u.Some? && u.value.handle then store[u.value.id := Waiting] else store
  }

  datatype Action =
    | Arrive(kind: Kind)
    | Request
    // dispatch task
    | Peek(kind: Kind, id: Id)
    | Receive(id: Id, outcome: Outcome)
    | Absorb(id: Id)
    | FindNothing
    | TakeBarrier
    | FindNoRequest
    | Transmit(kind: Kind)
    | EnterBarrier
    | Flush(id: Id, outcome: Outcome)
    | FlushDone
    | ReplyDrained
    | NotDrained
    // network task
    | Connect
    | ChooseOp(offer: Offer)
    | PerformOp(result: OpResult)
    | ConcludeOp
    | NetworkExit

  /** Whether an action can happen. The biased select looks for a barrier request only after it found
      nothing incoming. The receiver of the upload queue has no background channels. */
  predicate Enabled(s: System, a: Action) {
    match a
    case Arrive(_) => true
    case Request => true
    case Peek(k, i) =>
      && s.barrier.place.Looping? && s.up.Slot(k).None? && (k.Data? ==> s.up.event.None?)
      && i < |s.front.kinds| && s.front.kinds[i] == k && i in s.store && s.store[i].Waiting?
    case Receive(i, o) => s.barrier.place.Looping? && i < |s.front.kinds| && i in s.front.incoming + s.front.buffered
    case Absorb(i) => s.barrier.place.Looping? && i < |s.front.kinds| && i in s.front.incoming && s.front.kinds[i].Data?
    case FindNothing => s.barrier.place.Looping? && s.front.incoming == {}
    case TakeBarrier => s.barrier.place.Polling? && s.barrier.requested
    case FindNoRequest => s.barrier.place.Polling?
    case Transmit(k) => s.barrier.place.Looping? && s.up.Slot(k).Some? && |s.up.queue| < s.capacity
    case EnterBarrier => s.barrier.place.Looping? && s.barrier.active && s.up.event.None? && s.up.data.None?
    case Flush(i, o) => s.barrier.place.Flushing? && i < |s.front.kinds| && i in s.front.buffered && !o.NotSerializable?
    case FlushDone => s.barrier.place.Flushing? && s.front.buffered == {}
    case ReplyDrained => s.barrier.place.Checking? && Drained(s.store)
    case NotDrained => s.barrier.place.Checking?
    case Connect => s.loop.pc.Closed?
    case ChooseOp(o) =>
      && s.loop.pc.AtHead? && o.background.None?
      && (o.happening.Message? ==> s.up.queue != [] && o.happening.upload == s.up.queue[0])
    case PerformOp(_) => s.loop.pc.Performing?
    case ConcludeOp => s.loop.pc.Concluding?
    case NetworkExit => true
  }

  /** `is_drained`: every stored item has been confirmed. */
  predicate Drained(store: Store) {
    forall i | i in store :: store[i].Confirmed?
  }

  /** `process_event` and `process_sensor_data`: store the item, or put it in the pending slot without a
      handle, dropping what was there. */
  function Process(s: System, i: Id, o: Outcome): System
    requires i < |s.front.kinds|
  {
    var k := s.front.kinds[i];
    match o
    case StoredOk => s.(store := s.store[i := Waiting])
    case StoreFailed =>
      s.(store := Release(s.store, s.up.Slot(k)),
         up := s.up.SetSlot(k, Some(Upload(i, false))),
         log := s.log.(failed := s.log.failed + {i}))
    case NotSerializable => s.(log := s.log.(failed := s.log.failed + {i}))
  }

  /** Everything handed to dispatch so far. */
  function Arrived(s: System): set<Id> {
    s.front.incoming + s.front.buffered + s.store.Keys + s.log.failed
  }

  function Step(s: System, a: Action): System
    requires Enabled(s, a)
  {
    match a
    case Arrive(k) =>
      s.(front := s.front.(kinds := s.front.kinds + [k], incoming := s.front.incoming + {|s.front.kinds|}))
    case Request => s.(barrier := s.barrier.(requested := true))
    case Peek(k, i) => s.(store := s.store[i := Busy], up := s.up.SetSlot(k, Some(Upload(i, true))))
    case Receive(i, o) =>
      Process(s.(front := s.front.(incoming := s.front.incoming - {i}, buffered := s.front.buffered - {i})), i, o)
    case Absorb(i) => s.(front := s.front.(incoming := s.front.incoming - {i}, buffered := s.front.buffered + {i}))
    case FindNothing => s.(barrier := s.barrier.(place := Polling))
    case TakeBarrier => s.(barrier := Barrier(false, true, Looping))
    case FindNoRequest => s.(barrier := s.barrier.(place := Looping))
    case Transmit(k) => s.(up := s.up.(queue := s.up.queue + [s.up.Slot(k).value]).SetSlot(k, None))
    case EnterBarrier => s.(barrier := s.barrier.(place := Flushing(false)))
    case Flush(i, o) =>
      var flushed := s.(front := s.front.(buffered := s.front.buffered - {i}));
      Process(flushed.(barrier := s.barrier.(place := Flushing(true))), i, o)
    case FlushDone => s.(barrier := s.barrier.(place := if s.barrier.place.flushed then Looping else Checking))
    case ReplyDrained =>
      s.(barrier := s.barrier.(place := Looping, active := false),
         log := s.log.(replies := s.log.replies + 1, answered := s.log.answered + (Arrived(s) - s.front.incoming)))
    case NotDrained => s.(barrier := s.barrier.(place := Looping))
    case Connect => s.(loop := Open(NetOf(s)).loop)
    case ChooseOp(o) =>
      var n := Choose(NetOf(s), o);
      var queue := if Receives(NetOf(s), o) then s.up.queue[1..] else s.up.queue;
      s.(loop := n.loop, up := s.up.(inFlight := n.pending, queue := queue))
    case PerformOp(r) =>
      s.(loop := Perform(NetOf(s), r).loop,
         log := if s.loop.pc.op.Send? && r.Ok? then s.log.(sent := s.log.sent + {s.loop.pc.op.upload.id}) else s.log)
    case ConcludeOp =>
      var n, u := Conclude(NetOf(s)), Confirms(NetOf(s));
      s.(store := if u.Some? && u.value.handle then s.store[u.value.id := Confirmed] else s.store,
         loop := n.loop, up := s.up.(inFlight := n.pending))
    case NetworkExit => s.(store := Release(s.store, s.up.inFlight), up := s.up.(inFlight := None), loop := OFFLINE)
  }

  /** Whether choosing takes the next upload from the queue. */
  predicate Receives(n: Net, o: Offer) {
    n.pending.None? && !n.loop.disconnectPending && o.happening.Message?
  }

  ghost predicate Succ(s: System, s': System) {
    exists a :: Enabled(s, a) && s' == Step(s, a)
  }

  ghost predicate Run(run: seq<System>) {
    && run != [] && run[0] == Init(run[0].capacity)
    && (forall k | 0 <= k < |run| - 1 :: Succ(run[k], run[k + 1]))
  }

  // ---------------------------------------------------------------- the invariant

  function Held(u: Option<Upload>): multiset<Id> {
    if u.Some? && u.value.handle then multiset{u.value.id} else multiset{}
  }

  function HeldInQueue(q: seq<Upload>): multiset<Id> {
    if q == [] then multiset{} else Held(Some(q[0])) + HeldInQueue(q[1..])
  }

  function BusyItems(store: Store): set<Id> {
    set i | i in store && store[i].Busy?
  }

  /** Every item handed in is in exactly one place: still incoming, in the serializer, in the store, or
      known to have failed to be stored. */
  ghost predicate Partition(f: Front, stored: set<Id>, failed: set<Id>) {
    && (forall i: Id :: i in f.incoming + f.buffered + stored + failed <==> i < |f.kinds|)
    && f.incoming !! f.buffered && f.incoming !! stored && f.incoming !! failed
    && f.buffered !! stored && f.buffered !! failed && stored !! failed
  }

  /** Exactly the busy items are carried, each by one upload: none is lost, none is doubled. */
  ghost predicate HandlesMatch(store: Store, up: Uploads) {
    up.Handles() == multiset(BusyItems(store))
  }

  ghost predicate ConfirmedWereSent(store: Store, sent: set<Id>) {
    forall i | i in store && store[i].Confirmed? :: i in sent
  }

  /** What the active barrier covers has left the queues it could hide in. */
  ghost predicate BarrierTracks(f: Front, b: Barrier) {
    && (b.place.Flushing? || b.place.Checking? ==> b.active)
    && (b.place.Checking? ==> f.buffered == {})
  }

  ghost predicate Delivered(store: Store, log: Log, i: Id) {
    i in log.failed || (i in store && store[i].Confirmed? && i in log.sent)
  }

  ghost predicate RepliesKept(store: Store, log: Log) {
    forall i | i in log.answered :: Delivered(store, log, i)
  }

  /** The operation in progress: a send is a send of the pending upload and known as one; when it is
      over with result Ok, that upload was sent. */
  ghost predicate LoopOk(loop: Loop, pending: Option<Upload>, sent: set<Id>) {
    match loop.pc
    case Performing(op, isUpload) => isUpload == op.Send? && (op.Send? ==> pending == Some(op.upload))
    case Concluding(result, isUpload) => isUpload ==> pending.Some? && (result.Ok? ==> pending.value.id in sent)
    case _ => true
  }

  ghost predicate Inv(s: System) {
    && Partition(s.front, s.store.Keys, s.log.failed)
    && HandlesMatch(s.store, s.up)
    && ConfirmedWereSent(s.store, s.log.sent)
    && LoopOk(s.loop, s.up.inFlight, s.log.sent)
    && BarrierTracks(s.front, s.barrier)
    && RepliesKept(s.store, s.log)
  }

  // ---------------------------------------------------------------- handles

  lemma {:induction false} HeldAppend(q: seq<Upload>, u: Upload)
    ensures HeldInQueue(q + [u]) == HeldInQueue(q) + Held(Some(u))
    decreases |q|
  {
    if q == [] {
      assert q + [u] == [u];
    } else {
      HeldAppend(q[1..], u);
      assert (q + [u])[1..] == q[1..] + [u];
    }
  }

  /** Emptying a slot, or refilling it with an upload that has no handle. */
  lemma SlotHandles(up: Uploads, k: Kind, u: Option<Upload>)
    requires Held(u) == multiset{}
    ensures up.Handles() == up.SetSlot(k, u).Handles() + Held(up.Slot(k))
  {
    var rest := HeldInQueue(up.queue) + Held(up.inFlight);
    if k.Event? {
      assert up.Handles() == Held(up.event) + (Held(up.data) + rest);
    } else {
      assert up.Handles() == Held(up.data) + (Held(up.event) + rest);
    }
  }

  lemma TransmitHandles(up: Uploads, k: Kind)
    requires up.Slot(k).Some?
    ensures up.(queue := up.queue + [up.Slot(k).value]).SetSlot(k, None).Handles() == up.Handles()
  {
    HeldAppend(up.queue, up.Slot(k).value);
    SlotHandles(up, k, None);
  }

  /** Taking away one handle takes away one busy mark; every other mark stays. */
  lemma DropMark(store: Store, handles: multiset<Id>, rest: multiset<Id>, i: Id, m: Mark)
    requires handles == multiset(BusyItems(store)) && handles == rest + multiset{i} && !m.Busy?
    ensures i in store && store[i].Busy? && rest == multiset(BusyItems(store[i := m]))
  {
    assert i in handles;
    assert i in BusyItems(store);
    assert BusyItems(store[i := m]) == BusyItems(store) - {i};
    assert multiset(BusyItems(store)) == multiset(BusyItems(store) - {i}) + multiset{i};
    Cancel(rest, multiset(BusyItems(store) - {i}), multiset{i});
  }

  /** An upload that is dropped or confirmed takes its handle and its busy mark with it; every mark but
      that one stays. */
  lemma DropHandle(store: Store, up: Uploads, u: Option<Upload>, up': Uploads, m: Mark)
    requires HandlesMatch(store, up) && up.Handles() == up'.Handles() + Held(u) && !m.Busy?
    ensures
      var store' := if u.Some? && u.value.handle then store[u.value.id := m] else store;
      && HandlesMatch(store', up') && store'.Keys == store.Keys
      && (forall i | i in store && !store[i].Busy? :: store'[i] == store[i])
      && (forall i | i in store && store'[i] != store[i] :: u.Some? && i == u.value.id)
  {
    hide BusyItems, HeldInQueue;
    if u.Some? && u.value.handle {
      DropMark(store, up.Handles(), up'.Handles(), u.value.id, m);
    }
  }

  lemma Cancel(a: multiset<Id>, b: multiset<Id>, c: multiset<Id>)
    requires a + c == b + c
    ensures a == b
  {
    assert a + c - c == a;
  }

  // ---------------------------------------------------------------- preservation

  /** Marks change only from and to Waiting or Busy: what was confirmed stays delivered. */
  lemma KeepDelivered(store: Store, store': Store, log: Log, log': Log)
    requires ConfirmedWereSent(store, log.sent) && RepliesKept(store, log)
    requires store.Keys <= store'.Keys
    requires forall i | i in store && store[i].Confirmed? :: store'[i].Confirmed?
    requires forall i | i in store' && store'[i].Confirmed? :: i in log'.sent
    requires log.sent <= log'.sent && log.failed <= log'.failed && log'.answered == log.answered
    ensures ConfirmedWereSent(store', log'.sent) && RepliesKept(store', log')
  {
  }

  lemma ArriveInv(s: System, k: Kind)
    requires Inv(s)
    ensures Inv(Step(s, Arrive(k)))
  {
    var f := s.front;
    var f' := Step(s, Arrive(k)).front;
    assert |f.kinds| !in f.incoming + f.buffered + s.store.Keys + s.log.failed;
    assert f'.incoming + f'.buffered + s.store.Keys + s.log.failed
        == f.incoming + f.buffered + s.store.Keys + s.log.failed + {|f.kinds|};
  }

  lemma BusyGrows(store: Store, i: Id)
    requires i in store && store[i].Waiting?
    ensures multiset(BusyItems(store[i := Busy])) == multiset(BusyItems(store)) + multiset{i}
  {
    assert BusyItems(store[i := Busy]) == BusyItems(store) + {i};
  }

  lemma SlotTakesHandle(up: Uploads, k: Kind, i: Id)
    requires up.Slot(k).None?
    ensures up.SetSlot(k, Some(Upload(i, true))).Handles() == up.Handles() + multiset{i}
  {
    var filled := up.SetSlot(k, Some(Upload(i, true)));
    SlotHandles(filled, k, None);
    assert filled.SetSlot(k, None) == up;
    hide HeldInQueue;
  }

  /** A peek adds one busy mark and one handle. */
  lemma PeekHandles(store: Store, up: Uploads, k: Kind, i: Id)
    requires HandlesMatch(store, up) && up.Slot(k).None? && i in store && store[i].Waiting?
    ensures HandlesMatch(store[i := Busy], up.SetSlot(k, Some(Upload(i, true))))
  {
    hide BusyItems, HeldInQueue;
    SlotTakesHandle(up, k, i);
    BusyGrows(store, i);
  }

  lemma PeekInv(s: System, k: Kind, i: Id)
    requires Inv(s) && Enabled(s, Peek(k, i))
    ensures Inv(Step(s, Peek(k, i)))
  {
    PeekHandles(s.store, s.up, k, i);
    hide HandlesMatch;
    var s' := Step(s, Peek(k, i));
    assert s'.store.Keys == s.store.Keys;
    KeepDelivered(s.store, s'.store, s.log, s'.log);
  }

  /** Putting an unstored item into a slot drops what was there. */
  lemma Overwrite(store: Store, up: Uploads, k: Kind, i: Id, log: Log)
    requires HandlesMatch(store, up) && ConfirmedWereSent(store, log.sent) && RepliesKept(store, log)
    ensures
      var store', up' := Release(store, up.Slot(k)), up.SetSlot(k, Some(Upload(i, false)));
      && HandlesMatch(store', up') && ConfirmedWereSent(store', log.sent)
      && RepliesKept(store', log.(failed := log.failed + {i})) && store'.Keys == store.Keys
  {
    SlotHandles(up, k, Some(Upload(i, false)));
    DropHandle(store, up, up.Slot(k), up.SetSlot(k, Some(Upload(i, false))), Waiting);
    KeepDelivered(store, Release(store, up.Slot(k)), log, log.(failed := log.failed + {i}));
  }

  /** Processing an item from the front: the parts of the invariant behind the front. */
  lemma ProcessInv(s: System, i: Id, o: Outcome)
    requires i < |s.front.kinds| && i !in s.store
    requires HandlesMatch(s.store, s.up) && ConfirmedWereSent(s.store, s.log.sent) && RepliesKept(s.store, s.log)
    requires LoopOk(s.loop, s.up.inFlight, s.log.sent)
    ensures
      var s' := Process(s, i, o);
      && HandlesMatch(s'.store, s'.up) && ConfirmedWereSent(s'.store, s'.log.sent) && RepliesKept(s'.store, s'.log)
      && LoopOk(s'.loop, s'.up.inFlight, s'.log.sent)
      && s'.front == s.front && s'.barrier == s.barrier
      && s'.store.Keys == (if o.StoredOk? then s.store.Keys + {i} else s.store.Keys)
      && s'.log.failed == (if o.StoredOk? then s.log.failed else s.log.failed + {i})
  {
    var s' := Process(s, i, o);
    match o
    case StoredOk =>
      assert BusyItems(s'.store) == BusyItems(s.store);
      hide BusyItems, HeldInQueue, Uploads.Handles;
      KeepDelivered(s.store, s'.store, s.log, s'.log);
    case StoreFailed =>
      Overwrite(s.store, s.up, s.front.kinds[i], i, s.log);
      hide HandlesMatch, ConfirmedWereSent, RepliesKept;
    case NotSerializable =>
      KeepDelivered(s.store, s'.store, s.log, s'.log);
      hide HandlesMatch, ConfirmedWereSent, RepliesKept;
  }

  /** Moving one item out of the front keeps the partition. */
  lemma MoveOut(f: Front, stored: set<Id>, failed: set<Id>, i: Id, o: Outcome)
    requires Partition(f, stored, failed) && i in f.incoming + f.buffered
    ensures i !in stored && i < |f.kinds|
    ensures Partition(f.(incoming := f.incoming - {i}, buffered := f.buffered - {i}),
                      if o.StoredOk? then stored + {i} else stored,
                      if o.StoredOk? then failed else failed + {i})
  {
    var f' := f.(incoming := f.incoming - {i}, buffered := f.buffered - {i});
    assert f'.incoming + f'.buffered + (stored + {i}) + failed == f.incoming + f.buffered + stored + failed;
    assert f'.incoming + f'.buffered + stored + (failed + {i}) == f.incoming + f.buffered + stored + failed;
    assert i in f.incoming + f.buffered + stored + failed;
  }

  lemma ReceiveInv(s: System, i: Id, o: Outcome)
    requires Inv(s) && Enabled(s, Receive(i, o))
    ensures Inv(Step(s, Receive(i, o)))
  {
    MoveOut(s.front, s.store.Keys, s.log.failed, i, o);
    var f := s.front.(incoming := s.front.incoming - {i}, buffered := s.front.buffered - {i});
    assert BarrierTracks(f, s.barrier);
    hide HandlesMatch, ConfirmedWereSent, RepliesKept, Process, Partition, BarrierTracks;
    ProcessInv(s.(front := f), i, o);
  }

  lemma FlushInv(s: System, i: Id, o: Outcome)
    requires Inv(s) && Enabled(s, Flush(i, o))
    ensures Inv(Step(s, Flush(i, o)))
  {
    MoveOut(s.front, s.store.Keys, s.log.failed, i, o);
    var f := s.front.(buffered := s.front.buffered - {i});
    var b := s.barrier.(place := Flushing(true));
    assert f == s.front.(incoming := s.front.incoming - {i}, buffered := s.front.buffered - {i});
    assert BarrierTracks(f, b);
    hide HandlesMatch, ConfirmedWereSent, RepliesKept, Process, Partition, BarrierTracks;
    ProcessInv(s.(front := f, barrier := b), i, o);
  }

  /** A reply answers for every received item: it left the queues, so it is in the store, and the store
      is drained, or it failed. */
  lemma ReplyInv(s: System)
    requires Inv(s) && Enabled(s, ReplyDrained)
    ensures Inv(Step(s, ReplyDrained))
  {
    forall i | i in Arrived(s) - s.front.incoming ensures Delivered(s.store, s.log, i) {
    }
  }

  /** The pending upload goes, confirmed or dropped. */
  lemma DropInFlight(store: Store, up: Uploads, m: Mark, log: Log)
    requires HandlesMatch(store, up) && ConfirmedWereSent(store, log.sent) && RepliesKept(store, log) && !m.Busy?
    requires m.Confirmed? ==> up.inFlight.Some? && up.inFlight.value.id in log.sent
    ensures
      var store' := if up.inFlight.Some? && up.inFlight.value.handle then store[up.inFlight.value.id := m] else store;
      && HandlesMatch(store', up.(inFlight := None)) && ConfirmedWereSent(store', log.sent) && RepliesKept(store', log)
      && store'.Keys == store.Keys
  {
    var store' := if up.inFlight.Some? && up.inFlight.value.handle then store[up.inFlight.value.id := m] else store;
    InFlightHandles(up);
    hide BusyItems, HeldInQueue, Uploads.Handles;
    DropHandle(store, up, up.inFlight, up.(inFlight := None), m);
    hide HandlesMatch;
    KeepDelivered(store, store', log, log);
  }

  lemma NetworkDropInv(s: System, a: Action)
    requires Inv(s) && Enabled(s, a)
    requires a == NetworkExit || (a == ConcludeOp && Confirms(NetOf(s)).Some?)
    ensures Inv(Step(s, a))
  {
    hide HandlesMatch, ConfirmedWereSent, RepliesKept, Partition, BarrierTracks;
    DropInFlight(s.store, s.up, if a == ConcludeOp then Confirmed else Waiting, s.log);
  }

  lemma AbsorbInv(s: System, i: Id)
    requires Inv(s) && Enabled(s, Absorb(i))
    ensures Inv(Step(s, Absorb(i)))
  {
    var f, f' := s.front, Step(s, Absorb(i)).front;
    assert f'.incoming + f'.buffered + s.store.Keys + s.log.failed
        == f.incoming + f.buffered + s.store.Keys + s.log.failed;
  }

  /** Moves of the dispatch loop that touch nothing but the barrier. */
  lemma BarrierInv(s: System, a: Action)
    requires Inv(s) && Enabled(s, a)
    requires a.Request? || a.FindNothing? || a.TakeBarrier? || a.FindNoRequest? || a.EnterBarrier?
             || a.FlushDone? || a.NotDrained?
    ensures Inv(Step(s, a))
  {
    assert BarrierTracks(s.front, Step(s, a).barrier);
    hide HandlesMatch, ConfirmedWereSent, RepliesKept, Partition, BarrierTracks;
  }

  lemma RecvHandles(up: Uploads)
    requires up.queue != [] && up.inFlight.None?
    ensures up.(inFlight := Some(up.queue[0]), queue := up.queue[1..]).Handles() == up.Handles()
  {
  }

  lemma HandOverInv(s: System, a: Action)
    requires Inv(s) && Enabled(s, a) && (a.Transmit? || a.ChooseOp?)
    ensures Inv(Step(s, a))
  {
    hide HeldInQueue, BusyItems, ConfirmedWereSent, RepliesKept, Partition, BarrierTracks, Uploads.Handles;
    if a.Transmit? {
      TransmitHandles(s.up, a.kind);
    } else {
      ChooseLoop(NetOf(s), a.offer, s.log.sent);
      if Receives(NetOf(s), a.offer) {
        RecvHandles(s.up);
      }
    }
  }

  /** Choosing starts a send only of what is then pending, and changes what is pending only by receiving. */
  lemma ChooseLoop(n: Net, o: Offer, sent: set<Id>)
    requires n.loop.pc.AtHead? && o.background.None?
    ensures LoopOk(Choose(n, o).loop, Choose(n, o).pending, sent)
    ensures Choose(n, o).pending == if Receives(n, o) then Some(o.happening.upload) else n.pending
  {
  }

  lemma PerformInv(s: System, r: OpResult)
    requires Inv(s) && Enabled(s, PerformOp(r))
    ensures Inv(Step(s, PerformOp(r)))
  {
    var s' := Step(s, PerformOp(r));
    assert LoopOk(s'.loop, s'.up.inFlight, s'.log.sent);
    hide HandlesMatch, Partition, BarrierTracks, LoopOk;
    KeepDelivered(s.store, s'.store, s.log, s'.log);
  }

  lemma ConcludeInv(s: System, a: Action)
    requires Inv(s) && Enabled(s, a) && (a.ConcludeOp? || a.Connect?)
    ensures Inv(Step(s, a))
  {
    if a.ConcludeOp? && Confirms(NetOf(s)).Some? {
      NetworkDropInv(s, a);
    } else {
      assert Step(s, a) == s.(loop := Step(s, a).loop);
      hide HandlesMatch, Partition, BarrierTracks, ConfirmedWereSent, RepliesKept;
    }
  }

  lemma StepInv(s: System, a: Action)
    requires Inv(s) && Enabled(s, a)
    ensures Inv(Step(s, a))
  {
    hide Inv, Step;
    match a
    case Arrive(k) => ArriveInv(s, k);
    case Request => BarrierInv(s, a);
    case Peek(k, i) => PeekInv(s, k, i);
    case Receive(i, o) => ReceiveInv(s, i, o);
    case Absorb(i) => AbsorbInv(s, i);
    case FindNothing => BarrierInv(s, a);
    case TakeBarrier => BarrierInv(s, a);
    case FindNoRequest => BarrierInv(s, a);
    case Transmit(k) => HandOverInv(s, a);
    case EnterBarrier => BarrierInv(s, a);
    case Flush(i, o) => FlushInv(s, i, o);
    case FlushDone => BarrierInv(s, a);
    case ReplyDrained => ReplyInv(s);
    case NotDrained => BarrierInv(s, a);
    case Connect => ConcludeInv(s, a);
    case ChooseOp(o) => HandOverInv(s, a);
    case PerformOp(r) => PerformInv(s, r);
    case ConcludeOp => ConcludeInv(s, a);
    case NetworkExit => NetworkDropInv(s, a);
  }

  lemma {:induction false} RunInv(run: seq<System>, k: nat)
    requires Run(run) && k < |run|
    ensures Inv(run[k])
  {
    if k > 0 {
      RunInv(run, k - 1);
      assert Succ(run[k - 1], run[k - 1 + 1]);
      var a :| Enabled(run[k - 1], a) && run[k] == Step(run[k - 1], a);
      StepInv(run[k - 1], a);
    }
  }

  // ---------------------------------------------------------------- what every run guarantees

  /** In every reachable state: each item is in one place; a stored item that is not confirmed either
      waits in the store or is carried by exactly one upload; and confirmed items were sent. */
  lemma NothingIsLost(run: seq<System>, k: nat, i: Id)
    requires Run(run) && k < |run| && i < |run[k].front.kinds|
    ensures
      var s := run[k];
      && (i in s.front.incoming || i in s.front.buffered || i in s.store || i in s.log.failed)
      && (i in s.store ==>
            && s.up.Handles()[i] == (if s.store[i].Busy? then 1 else 0)
            && (s.store[i].Confirmed? ==> i in s.log.sent))
  {
    RunInv(run, k);
    assert i in run[k].front.incoming + run[k].front.buffered + run[k].store.Keys + run[k].log.failed;
    assert i in run[k].store ==> (i in BusyItems(run[k].store) <==> run[k].store[i].Busy?);
  }

  /** An item that could not be stored travels without a handle, somewhere between slot and network. */
  ghost predicate Travels(up: Uploads, i: Id) {
    var u := Upload(i, false);
    up.event == Some(u) || up.data == Some(u) || u in up.queue || up.inFlight == Some(u)
  }

  /** An item whose store call failed is put on its way. */
  lemma FailedItemTravels(s: System, a: Action, i: Id)
    requires Enabled(s, a) && (a == Receive(i, StoreFailed) || a == Flush(i, StoreFailed))
    ensures Travels(Step(s, a).up, i)
  {
  }

  lemma HandOverTravels(s: System, a: Action, i: Id)
    requires Enabled(s, a) && (a.Transmit? || a.ChooseOp?) && Travels(s.up, i)
    ensures Travels(Step(s, a).up, i)
  {
    var u, up, up' := Upload(i, false), s.up, Step(s, a).up;
    if a.Transmit? {
      assert u in up.queue ==> u in up'.queue;
    } else {
      ChooseLoop(NetOf(s), a.offer, {});
      hide Choose;
      assert u in up.queue && u != up.queue[0] ==> u in up.queue[1..];
    }
  }

  lemma ProcessTravels(s: System, i: Id, j: Id, o: Outcome)
    requires j < |s.front.kinds| && Travels(s.up, i)
    ensures Travels(Process(s, j, o).up, i) || (o.StoreFailed? && s.up.Slot(s.front.kinds[j]) == Some(Upload(i, false)))
  {
  }

  /** And stays on it, until a send of it returned Ok and it is taken off, another item of its kind that
      could not be stored takes its place in the slot, or the network task ends with it pending. */
  lemma FailedItemTravelsOn(s: System, a: Action, i: Id)
    requires Inv(s) && Enabled(s, a) && Travels(s.up, i)
    ensures
      || Travels(Step(s, a).up, i)
      || (a == ConcludeOp && SendIsOver(s, i) && i in s.log.sent)
      || (a == NetworkExit && s.up.inFlight == Some(Upload(i, false)))
      || ((a.Receive? || a.Flush?) && a.outcome.StoreFailed? && a.id < |s.front.kinds|
          && s.up.Slot(s.front.kinds[a.id]) == Some(Upload(i, false)))
  {
    assert LoopOk(s.loop, s.up.inFlight, s.log.sent);
    hide Inv, Process, Choose, Perform;
    if a.Transmit? || a.ChooseOp? {
      HandOverTravels(s, a, i);
    } else if a.Receive? {
      var f := s.front.(incoming := s.front.incoming - {a.id}, buffered := s.front.buffered - {a.id});
      ProcessTravels(s.(front := f), i, a.id, a.outcome);
    } else if a.Flush? {
      var f := s.front.(buffered := s.front.buffered - {a.id});
      ProcessTravels(s.(front := f, barrier := s.barrier.(place := Flushing(true))), i, a.id, a.outcome);
    }
  }

  lemma StepSucceeds(s: System, a: Action)
    requires Enabled(s, a)
    ensures Succ(s, Step(s, a))
  {
  }

  /** The way of a stored item, when everything is ready for it: the network task connects, and the item is
      peeked, handed over, received, sent and confirmed, each step possible after the one before. */
  lemma WaitingItemCanBeDelivered(s: System, i: Id) returns (run: seq<System>)
    requires i < |s.front.kinds| && i in s.store && s.store[i].Waiting?
    requires s.barrier.place.Looping? && s.up == Uploads(None, None, [], None) && s.capacity > 0
    requires s.loop.pc.Closed?
    ensures |run| == 7 && run[0] == s && forall k | 0 <= k < 6 :: Succ(run[k], run[k + 1])
    ensures run[6].store == s.store[i := Confirmed] && run[6].up == s.up && run[6].loop.pc.AtHead?
    ensures run[6].log.sent == s.log.sent + {i}
  {
    var s0 := Step(s, Connect);
    StepSucceeds(s, Connect);
    var s1, s2 := ItemIsHandedOver(s0, i);
    var s3, s4, s5 := ItemIsConfirmed(s2, i);
    hide Succ;
    run := [s, s0, s1, s2, s3, s4, s5];
    assert s.store[i := Busy][i := Confirmed] == s.store[i := Confirmed];
  }

  lemma ItemIsHandedOver(s: System, i: Id) returns (s1: System, s2: System)
    requires i < |s.front.kinds| && i in s.store && s.store[i].Waiting?
    requires s.barrier.place.Looping? && s.up == Uploads(None, None, [], None) && s.capacity > 0
    ensures Succ(s, s1) && Succ(s1, s2)
    ensures s2 == s.(store := s.store[i := Busy], up := s.up.(queue := [Upload(i, true)]))
  {
    var k := s.front.kinds[i];
    s1 := Step(s, Peek(k, i));
    s2 := Step(s1, Transmit(k));
    StepSucceeds(s, Peek(k, i));
    StepSucceeds(s1, Transmit(k));
    assert [] + [Upload(i, true)] == [Upload(i, true)];
    hide Succ;
  }

  lemma ItemIsConfirmed(s: System, i: Id) returns (s1: System, s2: System, s3: System)
    requires s.up == Uploads(None, None, [Upload(i, true)], None) && s.loop.pc.AtHead? && !s.loop.disconnectPending
    ensures Succ(s, s1) && Succ(s1, s2) && Succ(s2, s3)
    ensures s1.loop.pc == Performing(Send(Upload(i, true)), true)
    ensures s3.store == s.store[i := Confirmed] && s3.up == s.up.(queue := []) && s3.loop.pc.AtHead?
    ensures s3.log.sent == s.log.sent + {i}
  {
    var o := Offer(None, None, Message(Upload(i, true)));
    s1 := Step(s, ChooseOp(o));
    s2 := Step(s1, PerformOp(Ok));
    s3 := Step(s2, ConcludeOp);
    StepSucceeds(s, ChooseOp(o));
    StepSucceeds(s1, PerformOp(Ok));
    StepSucceeds(s2, ConcludeOp);
    assert s.up.queue[1..] == [];
    hide Succ;
  }

  /** The way of incoming data: into the serializer and from there into the store. */
  lemma IncomingDataCanBeStored(s: System, i: Id) returns (t: System, u: System)
    requires i < |s.front.kinds| && s.front.kinds[i].Data? && i in s.front.incoming && s.barrier.place.Looping?
    ensures Succ(s, t) && t.front.incoming == s.front.incoming - {i} && t.front.buffered == s.front.buffered + {i}
    ensures Succ(t, u) && u.store == s.store[i := Waiting] && i !in u.front.incoming + u.front.buffered
  {
    t := Step(s, Absorb(i));
    u := Step(t, Receive(i, StoredOk));
    StepSucceeds(s, Absorb(i));
    StepSucceeds(t, Receive(i, StoredOk));
    hide Succ;
  }

  /** A barrier that was taken stays active until it is answered. */
  lemma BarrierStaysActive(s: System, a: Action)
    requires Enabled(s, a) && s.barrier.active
    ensures Step(s, a).barrier.active <==> a != ReplyDrained
    ensures Step(s, a).log.replies == s.log.replies + if a == ReplyDrained then 1 else 0
  {
  }

  /** And of a barrier request with everything delivered: it is taken, the serializer is flushed, and it is
      answered. */
  lemma BarrierCanBeAnswered(s: System) returns (run: seq<System>)
    requires s.barrier == Barrier(true, false, Looping) && s.front.incoming == {} && s.front.buffered == {}
    requires s.up.event.None? && s.up.data.None? && Drained(s.store)
    ensures |run| == 6 && run[0] == s && forall k | 0 <= k < 5 :: Succ(run[k], run[k + 1])
    ensures run[5].log.replies == s.log.replies + 1 && run[5].barrier == Barrier(false, false, Looping)
  {
    var s1 := Step(s, FindNothing);
    var s2 := Step(s1, TakeBarrier);
    StepSucceeds(s, FindNothing);
    StepSucceeds(s1, TakeBarrier);
    var s3, s4, s5 := ActiveBarrierIsAnswered(s2);
    hide Succ, Step, Enabled, Drained;
    run := [s, s1, s2, s3, s4, s5];
  }

  lemma ActiveBarrierIsAnswered(s: System) returns (s1: System, s2: System, s3: System)
    requires s.barrier == Barrier(false, true, Looping) && s.front.buffered == {}
    requires s.up.event.None? && s.up.data.None? && Drained(s.store)
    ensures Succ(s, s1) && Succ(s1, s2) && Succ(s2, s3)
    ensures s3.log.replies == s.log.replies + 1 && s3.barrier == Barrier(false, false, Looping)
  {
    s1 := Step(s, EnterBarrier);
    s2 := Step(s1, FlushDone);
    s3 := Step(s2, ReplyDrained);
    StepSucceeds(s, EnterBarrier);
    StepSucceeds(s1, FlushDone);
    StepSucceeds(s2, ReplyDrained);
    hide Succ;
  }

  /** An upload that is dropped unconfirmed gives its item back to be sent again. */
  lemma DroppedUploadWaitsAgain(s: System, i: Id)
    requires Inv(s) && s.up.inFlight == Some(Upload(i, true))
    ensures
      var s' := Step(s, NetworkExit);
      i in s.store && s.store[i].Busy? && i in s'.store && s'.store[i].Waiting? && s'.up.inFlight.None?
  {
    InFlightHandles(s.up);
    assert i in s.up.Handles();
    assert i in multiset(BusyItems(s.store));
    hide HandlesMatch;
  }

  /** What a single step can and cannot take back. */
  ghost predicate Forward(s: System, s': System) {
    && |s.front.kinds| <= |s'.front.kinds|
    && s.log.failed <= s'.log.failed && s.log.sent <= s'.log.sent && s.log.answered <= s'.log.answered
    && (s.log.replies < s'.log.replies ==> Arrived(s') - s'.front.incoming <= s'.log.answered)
  }

  lemma StepForward(s: System, a: Action)
    requires Inv(s) && Enabled(s, a)
    ensures Forward(s, Step(s, a))
  {
  }

  lemma RunForward(run: seq<System>, k: nat)
    requires Run(run) && k + 1 < |run|
    ensures Forward(run[k], run[k + 1])
  {
    RunInv(run, k);
    assert Succ(run[k], run[k + 1]);
    var a :| Enabled(run[k], a) && run[k + 1] == Step(run[k], a);
    StepForward(run[k], a);
  }

  /** Between a send of item `i` that returned Ok and the decision about it. */
  predicate SendIsOver(s: System, i: Id) {
    s.loop.pc == Concluding(Ok, true) && s.up.inFlight.Some? && s.up.inFlight.value.id == i
  }

  /** Step `j` is the return of a send of item `i` with result Ok. */
  ghost predicate SendReturns(run: seq<System>, j: nat, i: Id) {
    && j + 1 < |run| && run[j].loop.pc.Performing? && run[j].loop.pc.op.Send? && run[j].loop.pc.op.upload.id == i
    && run[j + 1] == Step(run[j], PerformOp(Ok))
  }

  lemma StepConfirms(s: System, a: Action, i: Id)
    requires Enabled(s, a) && i in Step(s, a).store && Step(s, a).store[i].Confirmed?
    requires !(i in s.store && s.store[i].Confirmed?)
    ensures SendIsOver(s, i)
  {
  }

  lemma StepEndsSend(s: System, a: Action, i: Id)
    requires LoopOk(s.loop, s.up.inFlight, s.log.sent) && Enabled(s, a) && SendIsOver(Step(s, a), i)
    ensures SendIsOver(s, i) ||
            (a == PerformOp(Ok) && s.loop.pc.Performing? && s.loop.pc.op.Send? && s.loop.pc.op.upload.id == i)
  {
  }

  lemma InitialIsClosed(run: seq<System>, i: Id)
    requires Run(run)
    ensures !SendIsOver(run[0], i)
  {
  }

  lemma {:induction false} SendWasMade(run: seq<System>, k: nat, i: Id) returns (j: nat)
    requires Run(run) && 0 < k < |run| && SendIsOver(run[k], i)
    ensures j < k && SendReturns(run, j, i) && forall x | j < x <= k :: SendIsOver(run[x], i)
  {
    hide Step, Enabled;
    assert Succ(run[k - 1], run[k - 1 + 1]);
    var a :| Enabled(run[k - 1], a) && run[k] == Step(run[k - 1], a);
    RunInv(run, k - 1);
    StepEndsSend(run[k - 1], a, i);
    InitialIsClosed(run, i);
    hide Inv, Succ;
    if SendIsOver(run[k - 1], i) {
      j := SendWasMade(run, k - 1, i);
    } else {
      j := k - 1;
    }
  }

  /** Confirmation needs a successful send of the same item in the same iteration of the network loop:
      a step that confirms an item is preceded by the return of a send of it with result Ok, and the
      loop does nothing else between the two. */
  lemma ConfirmedOnlyAfterSend(run: seq<System>, k: nat, i: Id)
    requires Run(run) && k + 1 < |run|
    requires i in run[k + 1].store && run[k + 1].store[i].Confirmed?
    requires !(i in run[k].store && run[k].store[i].Confirmed?)
    ensures exists j: nat :: j < k && SendReturns(run, j, i) && forall x | j < x <= k :: SendIsOver(run[x], i)
  {
    assert Succ(run[k], run[k + 1]);
    var a :| Enabled(run[k], a) && run[k + 1] == Step(run[k], a);
    StepConfirms(run[k], a, i);
    assert k > 0;
    hide Step, Enabled, Succ;
    var j := SendWasMade(run, k, i);
  }

  lemma InFlightHandles(up: Uploads)
    ensures up.Handles() == up.(inFlight := None).Handles() + Held(up.inFlight)
  {
  }

  lemma {:induction false} ItemsGrow(run: seq<System>, a: nat, k: nat)
    requires Run(run) && a <= k < |run|
    ensures |run[a].front.kinds| <= |run[k].front.kinds| && run[a].log.answered <= run[k].log.answered
  {
    hide Succ;
    if a < k {
      ItemsGrow(run, a, k - 1);
      RunForward(run, k - 1);
    }
  }

  lemma StepReplies(s: System, a: Action)
    requires Inv(s) && Enabled(s, a) && s.log.replies < Step(s, a).log.replies
    ensures Drained(s.store) && s.front.buffered == {}
    ensures Step(s, a).store == s.store && Step(s, a).front == s.front && Step(s, a).log.failed == s.log.failed
            && Step(s, a).log.sent == s.log.sent
  {
  }

  /** What a reply stands for. In every run, the items a `DispatchDrained` has been delivered for are
      exactly those not still incoming when it is sent. */
  lemma ReplyLeavesOutWhatIsIncoming(run: seq<System>, c: nat, i: Id)
    requires Run(run) && c + 1 < |run| && i < |run[c + 1].front.kinds|
    requires run[c].log.replies < run[c + 1].log.replies
    ensures Delivered(run[c + 1].store, run[c + 1].log, i) <==> i !in run[c + 1].front.incoming
  {
    RunInv(run, c);
    assert Succ(run[c], run[c + 1]);
    var a :| Enabled(run[c], a) && run[c + 1] == Step(run[c], a);
    StepReplies(run[c], a);
    hide Step, Enabled, Succ, HandlesMatch, LoopOk;
    var s := run[c + 1];
    assert i in s.front.incoming + s.front.buffered + s.store.Keys + s.log.failed;
  }

  /** A reply is never taken back: what it stood for stays delivered. */
  lemma ReplyStands(run: seq<System>, c: nat, k: nat, i: Id)
    requires Run(run) && c < k < |run| && i < |run[c + 1].front.kinds|
    requires run[c].log.replies < run[c + 1].log.replies && i !in run[c + 1].front.incoming
    ensures Delivered(run[k].store, run[k].log, i)
  {
    hide Step, Enabled, Succ, HandlesMatch, LoopOk;
    RunForward(run, c);
    RunInv(run, c + 1);
    assert i in Arrived(run[c + 1]) - run[c + 1].front.incoming;
    ItemsGrow(run, c + 1, k);
    RunInv(run, k);
  }

  lemma StepIncoming(s: System, a: Action, i: Id)
    requires Enabled(s, a) && i < |s.front.kinds| && i !in s.front.incoming
    ensures i < |Step(s, a).front.kinds| && i !in Step(s, a).front.incoming
  {
  }

  /** What was received is not incoming again. */
  lemma {:induction false} ReceivedStays(run: seq<System>, a: nat, k: nat, i: Id)
    requires Run(run) && a <= k < |run| && i < |run[a].front.kinds| && i !in run[a].front.incoming
    ensures i < |run[k].front.kinds| && i !in run[k].front.incoming
  {
    hide Step, Enabled;
    if a < k {
      ReceivedStays(run, a, k - 1, i);
      assert Succ(run[k - 1], run[k - 1 + 1]);
      var b :| Enabled(run[k - 1], b) && run[k] == Step(run[k - 1], b);
      StepIncoming(run[k - 1], b, i);
    }
  }

  /** The barrier guarantee. Take any point `a` (say, where a request was made), a later poll `p` that
      finds nothing incoming, and a reply at a later step `c`: every item handed in before `a` has been
      sent and confirmed, unless it could not be stored. */
  lemma DrainedCoversRequest(run: seq<System>, a: nat, p: nat, c: nat, i: Id)
    requires Run(run) && a <= p <= c < |run| - 1 && i < |run[a].front.kinds|
    requires Enabled(run[p], FindNothing)
    requires run[c].log.replies < run[c + 1].log.replies
    ensures Delivered(run[c + 1].store, run[c + 1].log, i)
  {
    ItemsGrow(run, a, p);
    ReceivedStays(run, p, c + 1, i);
    ReplyLeavesOutWhatIsIncoming(run, c, i);
  }

  /** Everything among the first `n` items has been delivered. */
  ghost predicate AllDelivered(s: System, n: nat) {
    forall i: Id | i < n :: Delivered(s.store, s.log, i)
  }

  ghost predicate AllReceived(s: System, n: nat) {
    forall i | i in s.front.incoming :: i >= n
  }

  /** A request is covered by the next reply exactly if what was handed in before it has been received
      by then. That is certain if nothing is incoming when it is made. */
  lemma RequestIsCoveredIff(run: seq<System>, a: nat, c: nat)
    requires Run(run) && a <= c < |run| - 1
    requires Enabled(run[a], Request) && run[a + 1] == Step(run[a], Request)
    requires run[c].log.replies < run[c + 1].log.replies
    ensures AllDelivered(run[c + 1], |run[a].front.kinds|) <==> AllReceived(run[c + 1], |run[a].front.kinds|)
    ensures run[a].front.incoming == {} ==> AllDelivered(run[c + 1], |run[a].front.kinds|)
  {
    ItemsGrow(run, a, c + 1);
    var s := run[c + 1];
    forall i: Id | i < |run[a].front.kinds|
      ensures Delivered(s.store, s.log, i) <==> i !in s.front.incoming
      ensures run[a].front.incoming == {} ==> i !in s.front.incoming
    {
      ReplyLeavesOutWhatIsIncoming(run, c, i);
      if run[a].front.incoming == {} {
        ReceivedStays(run, a, c + 1, i);
      }
    }
  }

  lemma StepActivates(s: System, a: Action)
    requires Enabled(s, a)
    ensures !s.barrier.active && Step(s, a).barrier.active ==> s.barrier.place.Polling?
    ensures !s.barrier.place.Polling? && Step(s, a).barrier.place.Polling? ==> Enabled(s, FindNothing)
  {
  }

  lemma RunActivates(run: seq<System>, k: nat)
    requires Run(run) && k + 1 < |run|
    ensures !run[k].barrier.active && run[k + 1].barrier.active ==> run[k].barrier.place.Polling?
    ensures !run[k].barrier.place.Polling? && run[k + 1].barrier.place.Polling? ==> Enabled(run[k], FindNothing)
  {
    hide Step, Enabled;
    assert Succ(run[k], run[k + 1]);
    var a :| Enabled(run[k], a) && run[k + 1] == Step(run[k], a);
    StepActivates(run[k], a);
  }

  /** A dispatch task that has looked for a request since `a` found nothing incoming before it. */
  lemma {:induction false} PollBefore(run: seq<System>, a: nat, b: nat) returns (p: nat)
    requires Run(run) && a <= b < |run| && !run[a].barrier.place.Polling? && run[b].barrier.place.Polling?
    ensures a <= p < b && Enabled(run[p], FindNothing)
    decreases b
  {
    hide Step, Enabled, Succ;
    RunActivates(run, b - 1);
    p := b - 1;
    if run[b - 1].barrier.place.Polling? {
      p := PollBefore(run, a, b - 1);
    }
  }

  /** A barrier that has become active since `a` was taken after such a poll. */
  lemma {:induction false} PollBeforeBarrier(run: seq<System>, a: nat, c: nat) returns (p: nat)
    requires Run(run) && a <= c < |run| && run[c].barrier.active
    requires !run[a].barrier.active && !run[a].barrier.place.Polling?
    ensures a <= p < c && Enabled(run[p], FindNothing)
    decreases c
  {
    hide Step, Enabled, Succ;
    RunActivates(run, c - 1);
    if run[c - 1].barrier.active {
      p := PollBeforeBarrier(run, a, c - 1);
    } else {
      p := PollBefore(run, a, c - 1);
    }
  }

  /** What a requester can check: a request made while no barrier is outstanding and the dispatch task is
      not between its two polls is covered by every later reply. */
  lemma QuietRequestIsCovered(run: seq<System>, a: nat, c: nat)
    requires Run(run) && a <= c < |run| - 1 && !run[a].barrier.active && !run[a].barrier.place.Polling?
    requires run[c].log.replies < run[c + 1].log.replies
    ensures AllDelivered(run[c + 1], |run[a].front.kinds|)
  {
    RepliesWhenActive(run, c);
    hide Step, Enabled, Succ, Delivered;
    var p := PollBeforeBarrier(run, a, c);
    var s := run[c + 1];
    forall i: Id | i < |run[a].front.kinds| ensures Delivered(s.store, s.log, i) {
      DrainedCoversRequest(run, a, p, c, i);
    }
  }

  lemma RepliesWhenActive(run: seq<System>, c: nat)
    requires Run(run) && c + 1 < |run| && run[c].log.replies < run[c + 1].log.replies
    ensures run[c].barrier.active
  {
    RunInv(run, c);
    assert Succ(run[c], run[c + 1]);
    var a :| Enabled(run[c], a) && run[c + 1] == Step(run[c], a);
    StepRepliesWhenActive(run[c], a);
  }

  lemma StepRepliesWhenActive(s: System, a: Action)
    requires BarrierTracks(s.front, s.barrier) && Enabled(s, a) && s.log.replies < Step(s, a).log.replies
    ensures s.barrier.active
  {
  }

  /** The two polls of one `select3`: step `p` finds nothing incoming, step `b` takes a request. */
  ghost predicate Taken(run: seq<System>, p: nat, b: nat) {
    && p < b < |run| - 1 && Enabled(run[p], FindNothing) && run[p + 1] == Step(run[p], FindNothing)
    && Enabled(run[b], TakeBarrier) && run[b + 1] == Step(run[b], TakeBarrier)
    && forall x | p < x <= b :: run[x].barrier.place.Polling?
  }

  /** A request made before the first of the two polls that take it is always covered. */
  lemma EarlyRequestIsCovered(run: seq<System>, a: nat, p: nat, b: nat, c: nat)
    requires Run(run) && a <= p && Taken(run, p, b) && b < c < |run| - 1
    requires run[c].log.replies < run[c + 1].log.replies
    ensures AllDelivered(run[c + 1], |run[a].front.kinds|)
  {
    var s := run[c + 1];
    forall i: Id | i < |run[a].front.kinds| ensures Delivered(s.store, s.log, i) {
      DrainedCoversRequest(run, a, p, c, i);
    }
  }

  /** A request made while a barrier is outstanding is not always covered by that barrier's reply,
      although the documentation says it is answered by it: here an event arrives, the second request
      is made, and the next step replies with the event still in the queue. The request stays pending,
      so a second reply will follow. */
  lemma LateRequestIsNotCovered()
    ensures exists run: seq<System> ::
              && Run(run) && |run| == 9
              && run[6].front.incoming == {0} && run[6].barrier.active
              && run[7] == Step(run[6], Request)
              && run[7].log.replies == 0 && run[8].log.replies == 1
              && 0 in run[8].front.incoming && run[8].barrier.requested
  {
    hide Step, Enabled;
    var run := [Late(0), Late(1), Late(2), Late(3), Late(4), Late(5), Late(6), Late(7), Late(8)];
    forall k | 0 <= k < |run| - 1 ensures Succ(run[k], run[k + 1]) {
      LateStep(k);
    }
    LateStep(6);
    hide Succ;
    assert Run(run);
  }

  function Late(k: nat): System {
    System(if k < 6 then Front([], {}, {}) else Front([Event], {0}, {}),
           map[], Uploads(None, None, [], None), 1, OFFLINE,
           Barrier(k == 1 || k == 2 || k >= 7, 3 <= k <= 7,
                   if k == 2 then Polling else if k == 4 then Flushing(false)
                   else if 5 <= k <= 7 then Checking else Looping),
           Log({}, {}, if k < 8 then 0 else 1, {}))
  }

  function LateAction(k: nat): Action {
    if k == 0 then Request else if k == 1 then FindNothing else if k == 2 then TakeBarrier
    else if k == 3 then EnterBarrier else if k == 4 then FlushDone else if k == 5 then Arrive(Event)
    else if k == 6 then Request else ReplyDrained
  }

  lemma LateStep(k: nat)
    requires k < 8
    ensures Enabled(Late(k), LateAction(k)) && Late(k + 1) == Step(Late(k), LateAction(k)) && Succ(Late(k), Late(k + 1))
  {
    assert Enabled(Late(k), LateAction(k));
    assert Late(k + 1) == Step(Late(k), LateAction(k));
  }

  /** Nor is one made between the two polls of a single `select3`, by a producer that preempts the
      dispatch task: the request is taken with the event in front of it still in the queue. */
  lemma RequestBetweenPollsIsNotCovered()
    ensures exists run: seq<System> ::
              && Run(run) && |run| == 8 && Taken(run, 0, 3)
              && run[2].front.incoming == {0} && run[3] == Step(run[2], Request)
              && run[6].log.replies == 0 && run[7].log.replies == 1
              && 0 in run[7].front.incoming && !run[7].barrier.requested
  {
    hide Step, Enabled;
    var run := [Race(0), Race(1), Race(2), Race(3), Race(4), Race(5), Race(6), Race(7)];
    forall k | 0 <= k < |run| - 1 ensures Succ(run[k], run[k + 1]) {
      RaceStep(k);
    }
    RaceStep(0);
    RaceStep(2);
    RaceStep(3);
    hide Succ;
    assert Taken(run, 0, 3);
    assert Run(run);
  }

  function Race(k: nat): System {
    System(if k < 2 then Front([], {}, {}) else Front([Event], {0}, {}),
           map[], Uploads(None, None, [], None), 1, OFFLINE,
           Barrier(k == 3, 4 <= k <= 6,
                   if 1 <= k <= 3 then Polling else if k == 5 then Flushing(false)
                   else if k == 6 then Checking else Looping),
           Log({}, {}, if k < 7 then 0 else 1, {}))
  }

  function RaceAction(k: nat): Action {
    if k == 0 then FindNothing else if k == 1 then Arrive(Event) else if k == 2 then Request
    else if k == 3 then TakeBarrier else if k == 4 then EnterBarrier else if k == 5 then FlushDone else ReplyDrained
  }

  lemma RaceStep(k: nat)
    requires k < 7
    ensures Enabled(Race(k), RaceAction(k)) && Race(k + 1) == Step(Race(k), RaceAction(k)) && Succ(Race(k), Race(k + 1))
  {
    assert Enabled(Race(k), RaceAction(k));
    assert Race(k + 1) == Step(Race(k), RaceAction(k));
  }
}
