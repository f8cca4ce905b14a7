/** The reserving channel of `sync/reserving_sender.rs` with the notifier of `utils/sync.rs`: one sender
    that waits for room before it sends, and receivers whose pop and notify are separate steps.

    The sender may give up at any await; any number of receivers may stand between pop and notify. */
module ReservingChannel {
  datatype Pc =
    | Idle
    | Checking  // about to evaluate is_ready
    | SawFull   // is_ready was false, await_change not polled yet
    | Waiting   // parked in await_change
    | Granted   // holding a reservation

  /** `notified` is the notification not consumed yet; `notifying` counts the receivers that popped an
      item and have not notified yet; `sent` and `received` are the items that went in and came out. */
  datatype State<T> = State(
    queue: seq<T>, notified: bool, notifying: nat, pc: Pc, sent: seq<T>, received: seq<T>)

  datatype Action<T> =
    | StartReserve
    | Check
    | Park
    | Wake
    | GiveUp
    | ReservedSend(value: T)
    | DirectSend(value: T)
    | Pop
    | Notify

  function Init<T>(): State<T> { State([], false, 0, Idle, [], []) }

  predicate Enabled<T>(s: State<T>, a: Action<T>) {
    match a
    case StartReserve => s.pc == Idle
    case Check => s.pc == Checking
    case Park => s.pc == SawFull
    case Wake => (s.pc == Waiting || s.pc == SawFull) && s.notified
    case GiveUp => s.pc != Idle
    case ReservedSend(_) => s.pc == Granted
    case DirectSend(_) => s.pc == Idle
    case Pop => s.queue != []
    case Notify => s.notifying > 0
  }

  /** The queue takes an item when it has room. */
  function TrySend<T>(s: State<T>, capacity: nat, value: T): State<T> {
    if |s.queue| < capacity then s.(queue := s.queue + [value], sent := s.sent + [value]) else s
  }

  /** One step. `sticky` tells whether a notification nobody waits for yet is kept, as the watch channel
      of `utils/sync.rs` does. */
  function Step<T>(s: State<T>, a: Action<T>, capacity: nat, sticky: bool): State<T> {
    if !Enabled(s, a) then s else
    match a
    case StartReserve => s.(pc := Checking)
    case Check => s.(pc := if |s.queue| < capacity then Granted else SawFull)
    case Park => s.(pc := Waiting)
    case Wake => s.(pc := Checking, notified := false)
    case GiveUp => s.(pc := Idle)
    case ReservedSend(v) => TrySend(s, capacity, v).(pc := Idle)
    case DirectSend(v) => TrySend(s, capacity, v)
    case Pop => s.(queue := s.queue[1..], received := s.received + [s.queue[0]], notifying := s.notifying + 1)
    case Notify => s.(notifying := s.notifying - 1, notified := s.notified || sticky || s.pc == Waiting)
  }

  function Run<T>(actions: seq<Action<T>>, capacity: nat, sticky: bool): State<T> {
    if actions == [] then Init()
    else Step(Run(actions[..|actions| - 1], capacity, sticky), actions[|actions| - 1], capacity, sticky)
  }

  /** No wake-up is lost: a sender that saw a full queue has a full queue, a notification, or a receiver
      about to notify; a reservation has room; items come out in the order they went in. */
  ghost predicate Inv<T>(s: State<T>, capacity: nat) {
    && |s.queue| <= capacity
    && (s.pc == SawFull || s.pc == Waiting ==> |s.queue| == capacity || s.notified || s.notifying > 0)
    && (s.pc == Granted ==> |s.queue| < capacity)
    && s.sent == s.received + s.queue
  }

  lemma StepInv<T>(s: State<T>, a: Action<T>, capacity: nat)
    requires Inv(s, capacity)
    ensures Inv(Step(s, a, capacity, true), capacity)
  {
    if a.Pop? && s.queue != [] {
      assert s.received + s.queue == s.received + [s.queue[0]] + s.queue[1..];
    } else if a.ReservedSend? || a.DirectSend? {
      assert s.received + s.queue + [a.value] == s.received + (s.queue + [a.value]);
    }
  }

  lemma {:induction false} RunInv<T>(actions: seq<Action<T>>, capacity: nat)
    ensures Inv(Run(actions, capacity, true), capacity)
    decreases |actions|
  {
    if actions != [] {
      var init := actions[..|actions| - 1];
      RunInv(init, capacity);
      hide Inv, Step;
      StepInv(Run(init, capacity, true), actions[|actions| - 1], capacity);
    }
  }

  /** Giving up, at an await or with a reservation in hand, has no effect but on the sender itself. */
  lemma GivingUpIsFree<T>(s: State<T>, capacity: nat, sticky: bool)
    ensures Step(s, GiveUp, capacity, sticky) == s.(pc := Idle)
  {
  }

  /** `Reservation::try_send` never hands the item back. */
  lemma {:induction false} ReservedSendSucceeds<T>(actions: seq<Action<T>>, capacity: nat, value: T)
    requires Run(actions, capacity, true).pc == Granted
    ensures var s := Run(actions, capacity, true);
            Step(s, ReservedSend(value), capacity, true).queue == s.queue + [value]
  {
    RunInv(actions, capacity);
  }

  /** A parked sender with room in the queue gets its reservation by its own two steps once the receivers
      that popped have notified, in whatever order other actions came before. */
  lemma {:induction false} WaiterIsGranted<T>(actions: seq<Action<T>>, capacity: nat)
    requires var s := Run(actions, capacity, true); s.pc == Waiting && |s.queue| < capacity
    ensures var s := Run(actions, capacity, true);
            && (s.notified || s.notifying > 0)
            && var t := if s.notified then s else Step(s, Notify, capacity, true);
               Enabled(t, Wake) && Step(Step(t, Wake, capacity, true), Check, capacity, true).pc == Granted
  {
    RunInv(actions, capacity);
  }

  lemma RunSnoc<T>(actions: seq<Action<T>>, a: Action<T>, capacity: nat, sticky: bool)
    ensures Run(actions + [a], capacity, sticky) == Step(Run(actions, capacity, sticky), a, capacity, sticky)
  {
    assert (actions + [a])[..|actions|] == actions;
  }

  /** With a notifier that forgets notifications nobody waits for, the sender ends up parked beside an
      empty queue with nobody left to wake it. */
  lemma StickinessIsNeeded()
    ensures exists actions: seq<Action<int>> ::
              var s := Run(actions, 1, false); s.pc == Waiting && s.queue == [] && !s.notified && s.notifying == 0
  {
    var a: seq<Action<int>> := [];
    RunSnoc(a, DirectSend(7), 1, false);
    a := a + [DirectSend(7)];
    RunSnoc(a, StartReserve, 1, false);
    a := a + [StartReserve];
    RunSnoc(a, Check, 1, false);
    a := a + [Check];
    RunSnoc(a, Pop, 1, false);
    a := a + [Pop];
    RunSnoc(a, Notify, 1, false);
    a := a + [Notify];
    RunSnoc(a, Park, 1, false);
    a := a + [Park];
  }
}
