/** `handle_connection` of `logic/network.rs`: the loop that serves an open connection.

    Every iteration chooses one operation, performs it, and decides from its result whether to go on and
    whether to confirm the pending upload. What the loop finds when it chooses, and what the operation
    returns, is given by a list of rounds; every list is possible. */
module Connection {
  import opened Options

  const MINIMUM_TIMEOUT_S: nat := 5

  type Id = nat

  /** A `Confirmable`; without a handle its item was never stored. */
  datatype Upload = Upload(id: Id, handle: bool)

  datatype NetworkAction = Disconnect | SetTimeout(seconds: nat) | SendDeviceInfo | SendStatus | DownloadUpdate

  datatype Failure = InvalidSIM | ClientFailure | TimeOut | MQTT | Serialize | SerializeTopic {
    predicate Fatal() { !Serialize? && !SerializeTopic? }
  }

  datatype OpResult = Ok | Err(failure: Failure)

  datatype Op = Act(action: NetworkAction) | Send(upload: Upload) | Read | Nothing | Stop

  datatype SessionEnd = Success | Unexpected | Error

  /** What `select3` yields when nothing is pending. */
  datatype Happening = Response | NoResponse | Command(action: NetworkAction) | Message(upload: Upload) | QueueError

  /** What the loop finds when it chooses: the next action and background upload, if any, and what
      happens when it waits. */
  datatype Offer = Offer(action: Option<NetworkAction>, background: Option<Upload>, happening: Happening)

  /** Between two awaits: outside the loop, at its head, in an operation, or past it. */
  datatype Pc =
    | Closed(end: SessionEnd)
    | AtHead
    | Performing(op: Op, isUpload: bool)
    | Concluding(result: OpResult, isUpload: bool)

  datatype Loop = Loop(pc: Pc, disconnectPending: bool, timeoutS: nat)

  datatype Net = Net(loop: Loop, pending: Option<Upload>) {
    function At(pc: Pc): Net { this.(loop := loop.(pc := pc)) }
  }

  /** Entering `handle_connection`; the state outlives the connection, the disconnect hint does not. */
  function Open(n: Net): Net { n.(loop := Loop(AtHead, false, n.loop.timeoutS)) }

  function Begin(n: Net, op: Op): Net { n.At(Performing(op, op.Send?)) }

  function Choose(n: Net, o: Offer): Net {
    if n.pending.Some? then
      if o.action.Some? then Begin(n, Act(o.action.value)) else Begin(n, Send(n.pending.value))
    else if n.loop.disconnectPending then
      if o.action.Some? then Begin(n, Act(o.action.value))
      else if o.background.Some? then Begin(n.(pending := o.background), Send(o.background.value))
      else n.At(Closed(Success))
    else
      match o.happening
      case Response => Begin(n, Read)
      case NoResponse => Begin(n, Stop)
      case Command(a) => Begin(n, Act(a))
      case Message(u) => Begin(n.(pending := Some(u)), Send(u))
      case QueueError => Begin(n, Nothing)
  }

  /** The operation returns: `result` is what its call returned, where it makes one. */
  function Perform(n: Net, result: OpResult): Net
    requires n.loop.pc.Performing?
  {
    var Performing(op, isUpload) := n.loop.pc;
    match op
    case Read => if result.Ok? then n.At(Concluding(Ok, isUpload)) else n.At(Closed(Unexpected))
    case Act(Disconnect) => n.(loop := n.loop.(pc := Concluding(Ok, isUpload), disconnectPending := true))
    case Act(SetTimeout(s)) =>
      var timeoutS := if s < MINIMUM_TIMEOUT_S then MINIMUM_TIMEOUT_S else s;
      n.(loop := n.loop.(pc := Concluding(Ok, isUpload), timeoutS := timeoutS))
    case Act(SendDeviceInfo) => n.At(Concluding(result, isUpload))
    case Act(SendStatus) => n.At(Concluding(result, isUpload))
    case Act(DownloadUpdate) => if result.Ok? then n.At(Concluding(Ok, isUpload)) else n.At(Closed(Error))
    case Send(_) => n.At(Concluding(result, isUpload))
    case Nothing => n.At(Concluding(Ok, isUpload))
    case Stop => n.At(Closed(Success))
  }

  /** The upload that concluding would confirm. */
  function Confirms(n: Net): Option<Upload> {
    if n.loop.pc.Concluding? && n.loop.pc.result.Ok? && n.loop.pc.isUpload then n.pending else None
  }

  function Conclude(n: Net): Net
    requires n.loop.pc.Concluding?
  {
    match n.loop.pc.result
    case Err(e) => if e.Fatal() then n.At(Closed(Error)) else n.At(AtHead)
    case Ok => if n.loop.pc.isUpload then n.At(AtHead).(pending := None) else n.At(AtHead)
  }

  // ---------------------------------------------------------------- a whole connection

  datatype Round = Round(offer: Offer, result: OpResult)

  /** One operation performed: what it was, what its call returned, and what was confirmed after it. */
  datatype Entry = Entry(op: Op, result: OpResult, confirmed: Option<Upload>)

  datatype Served = Served(net: Net, log: seq<Entry>)

  datatype Turn = Turn(net: Net, entry: Option<Entry>)

  /** One iteration. */
  function TakeTurn(n: Net, r: Round): Turn {
    var chosen := Choose(n, r.offer);
    if chosen.loop.pc.Closed? then Turn(chosen, None)
    else
      var performed := Perform(chosen, r.result);
      Turn(if performed.loop.pc.Closed? then performed else Conclude(performed),
           Some(Entry(chosen.loop.pc.op, r.result, Confirms(performed))))
  }

  function Iterate(s: Served, r: Round): Served {
    var t := TakeTurn(s.net, r);
    Served(t.net, if t.entry.Some? then s.log + [t.entry.value] else s.log)
  }

  function Serve(n: Net, rounds: seq<Round>): Served {
    if rounds == [] then Served(Open(n), [])
    else
      var s := Serve(n, rounds[..|rounds| - 1]);
      if s.net.loop.pc.AtHead? then Iterate(s, rounds[|rounds| - 1]) else s
  }

  /** The network task's `State`, which outlives a connection. */
  class State {
    var timeoutS: nat
    var pendingUpload: Option<Upload>

    constructor (timeoutS: nat)
      ensures this.timeoutS == timeoutS && pendingUpload == None
    {
      this.timeoutS, pendingUpload := timeoutS, None;
    }

    function View(pc: Pc, disconnectPending: bool): Net
      reads this
    {
      Net(Loop(pc, disconnectPending, timeoutS), pendingUpload)
    }

    /** The choice at the head of the loop; no operation means the connection is done. */
    method NextOp(offer: Offer, disconnectPending: bool) returns (op: Option<Op>)
      modifies this`pendingUpload
      ensures View(if op.Some? then Performing(op.value, op.value.Send?) else Closed(Success), disconnectPending)
              == Choose(old(View(AtHead, disconnectPending)), offer)
      ensures op.Some? && op.value.Send? ==> pendingUpload == Some(op.value.upload)
    {
      if pendingUpload.Some? {
        return Some(if offer.action.Some? then Act(offer.action.value) else Send(pendingUpload.value));
      }
      if disconnectPending {
        if offer.action.Some? {
          return Some(Act(offer.action.value));
        }
        if offer.background.None? {
          return None;
        }
        pendingUpload := offer.background;
        return Some(Send(pendingUpload.value));
      }
      match offer.happening
      case Response => return Some(Read);
      case NoResponse => return Some(Stop);
      case Command(a) => return Some(Act(a));
      case Message(u) =>
        pendingUpload := Some(u);
        return Some(Send(u));
      case QueueError => return Some(Nothing);
    }

    /** The operation itself: its result is Ok unless its call returned something else, and some
        operations break out of the loop. */
    method PerformOp(op: Op, isUpload: bool, result: OpResult, hint: bool)
      returns (end: Option<SessionEnd>, opResult: OpResult, disconnectPending: bool)
      modifies this`timeoutS
      ensures View(if end.Some? then Closed(end.value) else Concluding(opResult, isUpload), disconnectPending)
              == Perform(old(View(Performing(op, isUpload), hint)), result)
      ensures op.Send? ==> end.None? && opResult == result
    {
      end, opResult, disconnectPending := None, Ok, hint;
      match op {
        case Read => if result.Err? { end := Some(Unexpected); }
        case Act(Disconnect) => disconnectPending := true;
        case Act(SetTimeout(s)) => timeoutS := if s < MINIMUM_TIMEOUT_S then MINIMUM_TIMEOUT_S else s;
        case Act(SendDeviceInfo) => opResult := result;
        case Act(SendStatus) => opResult := result;
        case Act(DownloadUpdate) => if result.Err? { end := Some(Error); }
        case Send(_) => opResult := result;
        case Nothing =>
        case Stop => end := Some(Success);
      }
    }

    /** The decision after the operation. */
    method ConcludeOp(opResult: OpResult, isUpload: bool, ghost hint: bool)
      returns (end: Option<SessionEnd>, confirmed: Option<Upload>)
      modifies this`pendingUpload
      ensures View(if end.Some? then Closed(end.value) else AtHead, hint)
              == Conclude(old(View(Concluding(opResult, isUpload), hint)))
      ensures confirmed == Confirms(old(View(Concluding(opResult, isUpload), hint)))
    {
      end, confirmed := None, None;
      match opResult
      case Err(e) =>
        if e.Fatal() {
          end := Some(Error);
        }
      case Ok =>
        if isUpload {
          confirmed := pendingUpload;
          pendingUpload := None;
        }
    }

    /** One iteration of `handle_connection`. */
    method Iteration(r: Round, hint: bool)
      returns (end: Option<SessionEnd>, disconnectPending: bool, entry: Option<Entry>)
      modifies this
      ensures Turn(View(if end.Some? then Closed(end.value) else AtHead, disconnectPending), entry)
              == TakeTurn(old(View(AtHead, hint)), r)
      ensures entry.Some? ==> ConfirmsItsSend(entry.value)
    {
      hide Choose, Perform, Conclude;
      var op := NextOp(r.offer, hint);
      if op.None? {
        return Some(Success), hint, None;
      }
      var isUpload := op.value.Send?;
      var opResult, confirmed := Ok, None;
      end, opResult, disconnectPending := PerformOp(op.value, isUpload, r.result, hint);
      if end.None? {
        end, confirmed := ConcludeOp(opResult, isUpload, disconnectPending);
      }
      entry := Some(Entry(op.value, r.result, confirmed));
    }

    /** `handle_connection`. An upload is confirmed exactly in the iterations that sent that upload and
        got Ok, whatever other operations returned in between. */
    method HandleConnection(rounds: seq<Round>)
      returns (end: Option<SessionEnd>, disconnectPending: bool, log: seq<Entry>)
      modifies this
      ensures Served(View(if end.Some? then Closed(end.value) else AtHead, disconnectPending), log)
              == Serve(old(View(AtHead, false)), rounds)
      ensures forall e <- log :: ConfirmsItsSend(e)
    {
      ghost var start := View(AtHead, false);
      disconnectPending, log, end := false, [], None;
      var i := 0;
      assert Serve(start, rounds[..0]) == Served(start, []);
      hide Serve, TakeTurn;
      while i < |rounds| && end.None?
        invariant i <= |rounds|
        invariant Served(View(if end.Some? then Closed(end.value) else AtHead, disconnectPending), log)
                  == Serve(start, rounds[..i])
        invariant forall e <- log :: ConfirmsItsSend(e)
      {
        ServeNext(start, rounds, i);
        var entry: Option<Entry>;
        end, disconnectPending, entry := Iteration(rounds[i], disconnectPending);
        if entry.Some? {
          log := log + [entry.value];
        }
        i := i + 1;
      }
      ServeStopped(start, rounds, i);
    }
  }

  /** What is confirmed after an operation is what the operation sent with result Ok, if it did. */
  predicate ConfirmsItsSend(e: Entry) {
    e.confirmed == if e.op.Send? && e.result.Ok? then Some(e.op.upload) else None
  }

  lemma ServeNext(n: Net, rounds: seq<Round>, i: nat)
    requires i < |rounds|
    ensures var s := Serve(n, rounds[..i]);
            Serve(n, rounds[..i + 1]) == if s.net.loop.pc.AtHead? then Iterate(s, rounds[i]) else s
  {
    assert rounds[..i + 1][..i] == rounds[..i];
  }

  lemma {:induction false} ServeStopped(n: Net, rounds: seq<Round>, i: nat)
    requires i <= |rounds| && (i < |rounds| ==> !Serve(n, rounds[..i]).net.loop.pc.AtHead?)
    ensures Serve(n, rounds) == Serve(n, rounds[..i])
    decreases |rounds| - i
  {
    if i < |rounds| {
      ServeNext(n, rounds, i);
      ServeStopped(n, rounds, i + 1);
    } else {
      assert rounds[..i] == rounds;
    }
  }

  lemma TurnConfirmsItsSend(n: Net, r: Round)
    ensures TakeTurn(n, r).entry.Some? ==> ConfirmsItsSend(TakeTurn(n, r).entry.value)
  {
  }

  /** In every connection, whatever is offered and whatever the operations return. */
  lemma {:induction false} ConfirmedInItsOwnIteration(n: Net, rounds: seq<Round>)
    ensures forall e <- Serve(n, rounds).log :: ConfirmsItsSend(e)
    decreases |rounds|
  {
    if rounds != [] {
      hide TakeTurn, ConfirmsItsSend;
      var init := rounds[..|rounds| - 1];
      ConfirmedInItsOwnIteration(n, init);
      TurnConfirmsItsSend(Serve(n, init).net, rounds[|rounds| - 1]);
    }
  }

  // ---------------------------------------------------------------- what the log tells

  /** The upload that is pending after a log, from the one pending before it: a send makes its upload
      pending, and success ends that. */
  function PendingAfter(before: Option<Upload>, log: seq<Entry>): Option<Upload> {
    if log == [] then before
    else
      var e := log[|log| - 1];
      if e.op.Send? then if e.result.Ok? then None else Some(e.op.upload)
      else PendingAfter(before, log[..|log| - 1])
  }

  /** A disconnect hint was acted on. */
  predicate Hinted(log: seq<Entry>) { exists e <- log :: e.op == Act(Disconnect) }

  function TimeoutAfter(before: nat, log: seq<Entry>): nat {
    if log == [] then before
    else
      var e := log[|log| - 1];
      if e.op.Act? && e.op.action.SetTimeout? then
        if e.op.action.seconds < MINIMUM_TIMEOUT_S then MINIMUM_TIMEOUT_S else e.op.action.seconds
      else TimeoutAfter(before, log[..|log| - 1])
  }

  /** What one iteration changes. */
  lemma TurnChanges(n: Net, r: Round)
    ensures
      var t := TakeTurn(n, r);
      if t.entry.None? then t.net == n.At(t.net.loop.pc)
      else
        var op := t.entry.value.op;
        && t.entry.value.result == r.result
        && t.net.pending == (if op.Send? then if r.result.Ok? then None else Some(op.upload) else n.pending)
        && t.net.loop.disconnectPending == (n.loop.disconnectPending || op == Act(Disconnect))
        && t.net.loop.timeoutS ==
           if op.Act? && op.action.SetTimeout? then
             if op.action.seconds < MINIMUM_TIMEOUT_S then MINIMUM_TIMEOUT_S else op.action.seconds
           else n.loop.timeoutS
  {
  }

  lemma Logged(log: seq<Entry>, e: Entry, pending: Option<Upload>, timeoutS: nat)
    ensures PendingAfter(pending, log + [e]) ==
            if e.op.Send? then if e.result.Ok? then None else Some(e.op.upload) else PendingAfter(pending, log)
    ensures Hinted(log + [e]) == (Hinted(log) || e.op == Act(Disconnect))
    ensures TimeoutAfter(timeoutS, log + [e]) ==
            if e.op.Act? && e.op.action.SetTimeout? then
              if e.op.action.seconds < MINIMUM_TIMEOUT_S then MINIMUM_TIMEOUT_S else e.op.action.seconds
            else TimeoutAfter(timeoutS, log)
  {
    assert (log + [e])[..|log|] == log;
  }

  lemma TurnTells(s: Served, r: Round, before: Net)
    requires s.net.pending == PendingAfter(before.pending, s.log)
    requires s.net.loop.disconnectPending == Hinted(s.log)
    requires s.net.loop.timeoutS == TimeoutAfter(before.loop.timeoutS, s.log)
    ensures
      var t := Iterate(s, r);
      && t.net.pending == PendingAfter(before.pending, t.log)
      && t.net.loop.disconnectPending == Hinted(t.log)
      && t.net.loop.timeoutS == TimeoutAfter(before.loop.timeoutS, t.log)
  {
    var turn := TakeTurn(s.net, r);
    TurnChanges(s.net, r);
    hide TakeTurn, PendingAfter, Hinted, TimeoutAfter;
    if turn.entry.Some? {
      Logged(s.log, turn.entry.value, before.pending, before.loop.timeoutS);
    }
  }

  /** In every run the state of the loop is what the operations performed so far have made of it: what is
      pending, whether a disconnect hint was taken, and the timeout. */
  lemma {:induction false} LogTellsState(n: Net, rounds: seq<Round>)
    ensures
      var s := Serve(n, rounds);
      && s.net.pending == PendingAfter(n.pending, s.log)
      && s.net.loop.disconnectPending == Hinted(s.log)
      && s.net.loop.timeoutS == TimeoutAfter(n.loop.timeoutS, s.log)
    decreases |rounds|
  {
    if rounds != [] {
      LogTellsState(n, rounds[..|rounds| - 1]);
      hide Iterate, PendingAfter, Hinted, TimeoutAfter;
      TurnTells(Serve(n, rounds[..|rounds| - 1]), rounds[|rounds| - 1], n);
    }
  }

  lemma ServeMore(n: Net, rounds: seq<Round>, r: Round)
    requires Serve(n, rounds).net.loop.pc.AtHead?
    ensures Serve(n, rounds + [r]) == Iterate(Serve(n, rounds), r)
  {
    assert (rounds + [r])[..|rounds|] == rounds;
  }

  /** What a round performs, after any run that is still open, in terms of the operations before it.
      Idle, the loop does what happened: it reads a response, stops on a timeout, acts on a command,
      sends a message, and passes over a queue error. Otherwise actions come first, then the pending
      upload; once a disconnect hint was taken, background uploads are left and then nothing. */
  lemma RoundPerforms(n: Net, rounds: seq<Round>, r: Round)
    requires Serve(n, rounds).net.loop.pc.AtHead?
    ensures
      var log, more := Serve(n, rounds).log, Serve(n, rounds + [r]).log;
      var pending, hinted := PendingAfter(n.pending, log), Hinted(log);
      if pending.None? && hinted && r.offer.action.None? && r.offer.background.None? then more == log
      else
        && |more| == |log| + 1 && more[..|log|] == log && more[|log|].result == r.result
        && var op := more[|log|].op;
           && (pending.None? && !hinted ==>
                 && (r.offer.happening.Response? <==> op.Read?) && (r.offer.happening.NoResponse? <==> op.Stop?)
                 && (r.offer.happening.Command? <==> op.Act?) && (op.Act? ==> op.action == r.offer.happening.action)
                 && (r.offer.happening.Message? <==> op.Send?) && (op.Send? ==> op.upload == r.offer.happening.upload)
                 && (r.offer.happening.QueueError? <==> op.Nothing?))
           && (pending.Some? || hinted ==>
                 && (r.offer.action.Some? ==> op == Act(r.offer.action.value))
                 && (r.offer.action.None? && pending.Some? ==> op == Send(pending.value))
                 && (r.offer.action.None? && pending.None? ==> op == Send(r.offer.background.value)))
  {
    LogTellsState(n, rounds);
    ServeMore(n, rounds, r);
    hide Serve, PendingAfter, Hinted;
  }

  /** The end of one iteration that was chosen at the head. */
  lemma TurnEnds(n: Net, r: Round)
    ensures
      var t := TakeTurn(n, r);
      && (t.net.loop.pc.Closed? || t.net.loop.pc.AtHead?)
      && (t.net.loop.pc == Closed(Success) <==> t.entry.None? || t.entry.value.op.Stop?)
      && (t.net.loop.pc == Closed(Unexpected) <==> t.entry.Some? && t.entry.value.op.Read? && r.result.Err?)
      && (t.net.loop.pc == Closed(Error) <==>
            && t.entry.Some? && r.result.Err?
            && var op := t.entry.value.op;
               || op == Act(DownloadUpdate)
               || ((op.Send? || op == Act(SendDeviceInfo) || op == Act(SendStatus)) && r.result.failure.Fatal()))
  {
    hide Choose;
    ChooseBegins(n, r.offer);
  }

  lemma ChooseBegins(n: Net, o: Offer)
    ensures
      var c := Choose(n, o);
      c.loop.pc == Closed(Success) || (c.loop.pc.Performing? && c.loop.pc.isUpload == c.loop.pc.op.Send?)
  {
  }

  /** When and how a connection ends: with Success exactly if a wait timed out, or a disconnect hint was
      taken and nothing is pending and neither an action nor a background upload is left; with
      Unexpected exactly after a failed read; with Error exactly after a failed download start or a send
      that failed other than in serialization. */
  lemma EndsIff(n: Net, rounds: seq<Round>, r: Round)
    requires Serve(n, rounds).net.loop.pc.AtHead?
    ensures
      var log, t := Serve(n, rounds).log, Serve(n, rounds + [r]);
      var pending, hinted, pc := PendingAfter(n.pending, log), Hinted(log), t.net.loop.pc;
      && (pc == Closed(Success) <==>
            && pending.None?
            && if hinted then r.offer.action.None? && r.offer.background.None? else r.offer.happening.NoResponse?)
      && (pc == Closed(Unexpected) <==> pending.None? && !hinted && r.offer.happening.Response? && r.result.Err?)
      && (pc == Closed(Error) <==>
            && |t.log| == |log| + 1 && r.result.Err?
            && var op := t.log[|log|].op;
               || op == Act(DownloadUpdate)
               || ((op.Send? || op == Act(SendDeviceInfo) || op == Act(SendStatus)) && r.result.failure.Fatal()))
      && (pc.Closed? || pc.AtHead?)
  {
    RoundPerforms(n, rounds, r);
    ServeMore(n, rounds, r);
    TurnEnds(Serve(n, rounds).net, r);
    hide Serve, PendingAfter, Hinted, TakeTurn;
  }

  // ---------------------------------------------------------------- an upload that cannot be sent

  /** Nothing but actions and failing sends of one upload. */
  predicate Blocked(u: Upload, log: seq<Entry>) {
    forall e <- log :: e.op.Act? || (e.op == Send(u) && e.result.Err?)
  }

  /** A round after which a connection with a pending upload goes on with the same upload: an action
      that does not end it, or a send that fails with a serialization error. */
  predicate Keeps(r: Round) {
    match r.offer.action
    case None => r.result.Err? && !r.result.failure.Fatal()
    case Some(Disconnect) => true
    case Some(SetTimeout(_)) => true
    case Some(DownloadUpdate) => r.result.Ok?
    case Some(SendDeviceInfo) => r.result.Ok? || !r.result.failure.Fatal()
    case Some(SendStatus) => r.result.Ok? || !r.result.failure.Fatal()
  }

  lemma KeepsMeans(s: Served, r: Round, u: Upload)
    requires s.net.loop.pc.AtHead? && s.net.pending == Some(u)
    ensures
      var t := Iterate(s, r);
      && |t.log| == |s.log| + 1 && t.log[..|s.log|] == s.log
      && t.log[|s.log|].op == (if r.offer.action.Some? then Act(r.offer.action.value) else Send(u))
      && t.log[|s.log|].result == r.result
      && ((t.net.loop.pc.AtHead? && t.net.pending == Some(u)) <==> Keeps(r))
      && ((r.offer.action.None? && r.result.Ok?) ||
          (t.net.pending == Some(u) && (t.net.loop.pc.AtHead? || t.net.loop.pc == Closed(Error))))
  {
  }

  /** As long as no send succeeds, a pending upload shuts out everything but actions: no other upload
      is received, no response is read, and the connection cannot end as the disconnect hint asks. */
  lemma {:induction false} PendingUploadBlocks(n: Net, rounds: seq<Round>, u: Upload)
    requires n.pending == Some(u)
    ensures
      var s := Serve(n, rounds);
      (forall e <- s.log :: e.op.Send? ==> e.result.Err?) ==>
        Blocked(u, s.log) && s.net.pending == Some(u) && (s.net.loop.pc.AtHead? || s.net.loop.pc == Closed(Error))
    decreases |rounds|
  {
    if rounds != [] {
      var init, r := rounds[..|rounds| - 1], rounds[|rounds| - 1];
      PendingUploadBlocks(n, init, u);
      var s, t := Serve(n, init), Serve(n, rounds);
      if s.net.loop.pc.AtHead? && forall e <- t.log :: e.op.Send? ==> e.result.Err? {
        IterateKeepsLog(s, r);
        assert forall e <- s.log :: e in t.log;
        KeepsMeans(s, r, u);
        assert t.log[|s.log|] in t.log;
        assert t.log == s.log + [t.log[|s.log|]];
      }
    }
  }

  lemma IterateKeepsLog(s: Served, r: Round)
    ensures s.log <= Iterate(s, r).log
  {
  }

  /** The exact condition under which one upload holds the connection: the loop is still open with
      that upload, having received no other, if and only if every round kept it. With an upload whose
      serialization always fails that is every run in which no action fails. */
  lemma {:induction false} HeldIff(n: Net, rounds: seq<Round>, u: Upload)
    requires n.pending == Some(u)
    ensures
      var s := Serve(n, rounds);
      (s.net.loop.pc.AtHead? && s.net.pending == Some(u) && Blocked(u, s.log)) <==> forall r <- rounds :: Keeps(r)
    decreases |rounds|
  {
    if rounds != [] {
      var init, r := rounds[..|rounds| - 1], rounds[|rounds| - 1];
      HeldIff(n, init, u);
      var s, t := Serve(n, init), Serve(n, rounds);
      assert rounds == init + [r];
      if s.net.loop.pc.AtHead? {
        assert t == Iterate(s, r);
        IterateKeepsLog(s, r);
        hide Serve, Iterate, Keeps;
        assert Blocked(u, t.log) ==> Blocked(u, s.log) by {
          assert forall e <- s.log :: e in t.log;
        }
        if s.net.pending == Some(u) {
          KeepsMeans(s, r, u);
          assert t.log == s.log + [t.log[|s.log|]];
        } else if Blocked(u, s.log) {
          BlockedHolds(n, init, u);
        }
      }
    }
  }

  lemma BlockedHolds(n: Net, rounds: seq<Round>, u: Upload)
    requires n.pending == Some(u) && Blocked(u, Serve(n, rounds).log)
    ensures Serve(n, rounds).net.pending == Some(u)
  {
    PendingUploadBlocks(n, rounds, u);
  }
}
