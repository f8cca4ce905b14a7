/** The reconnect loop of `logic/network.rs`: connect, serve, disconnect, decide whether to retry, wait.

    Times are milliseconds on one clock. How long each step takes and how it ends is given by a list of
    rounds; every list is a possible run. */
module Backoff {
  import opened Options
  import opened Numbers
  import Connection

  const MIN_RETRY_DELAY_SEC: nat := 3
  const NETWORK_CONNECTING_TIMEOUT_MS: nat := 660_000
  const RETRY_TIMEOUT_SEC: nat := 300
  const NETWORK_DISCONNECTED_TIMEOUT_MS: nat := 960_000

  datatype Outcome = Refused | TimedOut | Session(ms: nat, end: Connection.SessionEnd)

  /** One round: the connect call, its outcome, then disconnecting and signalling. */
  datatype Round = Round(connectMs: nat, outcome: Outcome, disconnectMs: nat, signalMs: nat) {
    /** The connect call is cut off by its timeout. */
    predicate Lawful() {
      connectMs <= NETWORK_CONNECTING_TIMEOUT_MS && (outcome.TimedOut? ==> connectMs == NETWORK_CONNECTING_TIMEOUT_MS)
    }
  }

  /** A connect attempt: when it began and ended, since when the device was offline, the signalling
      time of the round before, and the delay that would follow it. */
  datatype Attempt = Attempt(start: nat, end: nat, offlineSince: nat, slack: nat, backoff: nat, connected: bool)

  datatype Task = Task(now: nat, offlineSince: nat, slack: nat, next: nat, running: bool, log: seq<Attempt>)

  /** The time after the connect call, the session and the disconnect. */
  function Back(t: Task, r: Round): nat {
    t.now + r.connectMs + (if r.outcome.Session? then r.outcome.ms else 0) + r.disconnectMs
  }

  predicate WillRetry(t: Task, r: Round)
    requires t.offlineSince <= t.now
  {
    match r.outcome
    case Refused => WithinLimit(Back(t, r) - t.offlineSince, t.next)
    case TimedOut => false
    case Session(_, end) => !end.Success?
  }

  /** Whole seconds offline and the delay are within the limit. */
  predicate WithinLimit(elapsed: nat, delay: nat) { elapsed / 1000 % U32 + delay <= RETRY_TIMEOUT_SEC }

  /** What one round makes of the task. */
  function Play(t: Task, r: Round): Task
    requires t.offlineSince <= t.now
  {
    var back := Back(t, r);
    var retry := WillRetry(t, r);
    Task(
      back + r.signalMs + (if retry then 1000 * t.next else 0),
      if r.outcome.Session? then back else t.offlineSince,
      r.signalMs,
      if retry then Min(2 * t.next, RETRY_TIMEOUT_SEC) else t.next,
      retry,
      t.log + [Made(t, r)])
  }

  function Run(rounds: seq<Round>): (t: Task)
    ensures t.offlineSince <= t.now
  {
    if rounds == [] then Task(0, 0, 0, MIN_RETRY_DELAY_SEC, true, [])
    else
      var t := Run(rounds[..|rounds| - 1]);
      if t.running then Play(t, rounds[|rounds| - 1]) else t
  }

  /** The end of a round: whether to retry, and since when the device is offline. */
  method DecideRetry(r: Round, now: nat, next: nat, offlineSince: Option<nat>) returns (willRetry: bool, since: nat)
    requires offlineSince.Some? ==> offlineSince.value <= now
    requires r.outcome.Session? <==> offlineSince.None?
    ensures since == if offlineSince.Some? then offlineSince.value else now
    ensures willRetry ==
            match r.outcome
            case Refused => (now - since) / 1000 % U32 + next <= RETRY_TIMEOUT_SEC
            case TimedOut => false
            case Session(_, end) => !end.Success?
  {
    if offlineSince.None? {
      since := now;
      willRetry := true;
    } else {
      since := offlineSince.value;
      willRetry := (now - since) / 1000 % U32 + next <= RETRY_TIMEOUT_SEC;
    }
    match r.outcome {
      case Refused =>
      case TimedOut => willRetry := false;
      case Session(_, end) => if end.Success? { willRetry := false; }
    }
  }

  /** One round of the loop: connect, serve, disconnect, decide, signal, wait. */
  method PlayRound(t: Task, r: Round) returns (u: Task)
    requires t.offlineSince <= t.now
    ensures u == Play(t, r)
  {
    var now, next := t.now + r.connectMs, t.next;
    var offlineSince := Some(t.offlineSince);
    var log := t.log + [Attempt(t.now, now, t.offlineSince, t.slack, next, r.outcome.Session?)];
    if r.outcome.Session? {
      offlineSince := None;
      now := now + r.outcome.ms;
    }
    now := now + r.disconnectMs;
    var willRetry, since := DecideRetry(r, now, next, offlineSince);
    now := now + r.signalMs;
    if willRetry {
      now := now + next * 1000;
      next := next * 2;
      if next > RETRY_TIMEOUT_SEC {
        next := RETRY_TIMEOUT_SEC;
      }
    }
    u := Task(now, since, r.signalMs, next, willRetry, log);
  }

  /** `network_task`: the loop itself. */
  method NetworkTask(rounds: seq<Round>) returns (t: Task)
    ensures t == Run(rounds)
  {
    t := Task(0, 0, 0, MIN_RETRY_DELAY_SEC, true, []);
    var i := 0;
    assert t == Run(rounds[..0]);
    hide Run, Play;
    while i < |rounds| && t.running
      invariant i <= |rounds| && t == Run(rounds[..i])
    {
      RunSnoc(rounds[..i], rounds[i]);
      assert rounds[..i] + [rounds[i]] == rounds[..i + 1];
      t := PlayRound(t, rounds[i]);
      i := i + 1;
    }
    Stopped(rounds, i);
  }

  lemma {:induction false} Stopped(rounds: seq<Round>, i: nat)
    requires i <= |rounds| && (i < |rounds| ==> !Run(rounds[..i]).running)
    ensures Run(rounds) == Run(rounds[..i])
    decreases |rounds| - i
  {
    if i < |rounds| {
      assert rounds[..i + 1][..i] == rounds[..i];
      Stopped(rounds, i + 1);
    } else {
      assert rounds[..i] == rounds;
    }
  }

  lemma RunSnoc(rounds: seq<Round>, r: Round)
    ensures Run(rounds + [r]) == if Run(rounds).running then Play(Run(rounds), r) else Run(rounds)
  {
    assert (rounds + [r])[..|rounds|] == rounds;
  }

  /** The delay after `k` attempts, whether or not they succeeded. */
  function Delay(k: nat): nat { if k >= 7 then RETRY_TIMEOUT_SEC else MIN_RETRY_DELAY_SEC * Pow2(k) }

  lemma DelayDoubles(k: nat)
    ensures MIN_RETRY_DELAY_SEC <= Delay(k) <= RETRY_TIMEOUT_SEC
    ensures Delay(k + 1) == Min(2 * Delay(k), RETRY_TIMEOUT_SEC)
  {
    assert Pow2(0) == 1 && Pow2(1) == 2 && Pow2(2) == 4;
    assert Pow2(3) == 8 && Pow2(4) == 16 && Pow2(5) == 32 && Pow2(6) == 64;
  }

  /** The attempts at the end of the log that did not connect. */
  function Streak(log: seq<Attempt>): (n: nat)
    ensures n <= |log|
  {
    if log == [] || log[|log| - 1].connected then 0 else 1 + Streak(log[..|log| - 1])
  }

  /** An attempt that the loop may make. */
  predicate InTime(a: Attempt) {
    && a.offlineSince <= a.start
    && a.start - a.offlineSince < (RETRY_TIMEOUT_SEC + 1) * 1000 + a.slack
    && a.end <= a.start + NETWORK_CONNECTING_TIMEOUT_MS
    && MIN_RETRY_DELAY_SEC <= a.backoff <= RETRY_TIMEOUT_SEC
  }

  /** What holds between rounds of a running task. */
  predicate Inv(t: Task) {
    var k := Streak(t.log);
    && t.offlineSince <= t.now
    && (forall i | 0 <= i < |t.log| :: InTime(t.log[i]) && t.log[i].backoff == Delay(i))
    && (t.running ==> OnTime(t, k))
  }

  lemma StreakGrows(log: seq<Attempt>, a: Attempt)
    ensures Streak(log + [a]) == if a.connected then 0 else 1 + Streak(log)
  {
    assert (log + [a])[..|log|] == log;
  }

  /** The attempt a round adds to the log. */
  function Made(t: Task, r: Round): Attempt {
    Attempt(t.now, t.now + r.connectMs, t.offlineSince, t.slack, t.next, r.outcome.Session?)
  }

  lemma LogInv(t: Task, r: Round)
    requires Inv(t) && t.running && r.Lawful()
    ensures forall i | 0 <= i < |Play(t, r).log| :: InTime(Play(t, r).log[i]) && Play(t, r).log[i].backoff == Delay(i)
  {
    DelayDoubles(|t.log|);
    hide Pow2, Delay, WillRetry, Streak;
    assert Play(t, r).log == t.log + [Made(t, r)];
    assert InTime(Made(t, r));
  }

  /** The part of the invariant about a running task. */
  predicate OnTime(t: Task, k: nat) {
    && t.next == Delay(|t.log|)
    && k <= 6 && MIN_RETRY_DELAY_SEC * Pow2(k) <= t.next
    && 1000 * MIN_RETRY_DELAY_SEC * (Pow2(k) - 1) <= t.now - t.offlineSince < (RETRY_TIMEOUT_SEC + 1) * 1000 + t.slack
    && (|t.log| >= 8 ==> t.now - t.offlineSince >= 1000 * RETRY_TIMEOUT_SEC)
  }

  lemma PlayInv(t: Task, r: Round)
    requires Inv(t) && t.running && r.Lawful() && Back(t, r) < 1000 * U32
    ensures Inv(Play(t, r))
  {
    LogInv(t, r);
    StreakGrows(t.log, Made(t, r));
    hide Pow2, Delay, Streak, InTime;
    assert Play(t, r).log == t.log + [Made(t, r)];
    if WillRetry(t, r) {
      if r.outcome.Refused? {
        RefusedOnTime(t, r, Streak(t.log));
      } else {
        SessionOnTime(t, r, Streak(t.log));
      }
      hide OnTime;
    }
  }

  lemma RefusedOnTime(t: Task, r: Round, k: nat)
    requires t.offlineSince <= t.now && OnTime(t, k) && r.outcome.Refused? && WillRetry(t, r) && Back(t, r) < 1000 * U32
    ensures OnTime(Play(t, r), k + 1)
  {
    DelayDoubles(|t.log|);
    assert |t.log| >= 7 ==> t.next == RETRY_TIMEOUT_SEC;
    RetryFits(Back(t, r) - t.offlineSince, t.next, k);
    hide Pow2, Delay;
  }

  lemma SessionOnTime(t: Task, r: Round, k: nat)
    requires t.offlineSince <= t.now && OnTime(t, k) && r.outcome.Session? && WillRetry(t, r)
    ensures OnTime(Play(t, r), 0)
  {
    DelayDoubles(|t.log|);
    assert Pow2(0) == 1;
    assert |t.log| >= 7 ==> t.next == RETRY_TIMEOUT_SEC;
    hide Pow2, Delay;
  }

  /** A retry is granted only while it begins within the timeout, which leaves room for six of them. */
  lemma RetryFits(elapsed: nat, next: nat, k: nat)
    requires elapsed < 1000 * U32 && elapsed / 1000 % U32 + next <= RETRY_TIMEOUT_SEC
    requires k <= 6 && MIN_RETRY_DELAY_SEC * Pow2(k) <= next && 1000 * MIN_RETRY_DELAY_SEC * (Pow2(k) - 1) <= elapsed
    ensures k < 6 && elapsed + 1000 * next < (RETRY_TIMEOUT_SEC + 1) * 1000
    ensures MIN_RETRY_DELAY_SEC * Pow2(k + 1) <= Min(2 * next, RETRY_TIMEOUT_SEC)
    ensures 1000 * MIN_RETRY_DELAY_SEC * (Pow2(k + 1) - 1) <= elapsed + 1000 * next
  {
    assert Pow2(0) == 1 && Pow2(1) == 2 && Pow2(2) == 4;
    assert Pow2(3) == 8 && Pow2(4) == 16 && Pow2(5) == 32 && Pow2(6) == 64;
  }

  lemma {:induction false} RunInv(rounds: seq<Round>)
    requires (forall r <- rounds :: r.Lawful()) && Run(rounds).now < 1000 * U32
    ensures Inv(Run(rounds))
    decreases |rounds|
  {
    if rounds == [] {
      assert Pow2(0) == 1;
    } else {
      var init, r := rounds[..|rounds| - 1], rounds[|rounds| - 1];
      RunInv(init);
      if Run(init).running {
        PlayInv(Run(init), r);
      }
    }
  }

  /** Every attempt starts less than 301 s, plus the signalling time before it, after the device went
      offline; the delay after the k-th attempt is 3 s doubled k times up to 300 s, successes included. */
  lemma AttemptsStartInTime(rounds: seq<Round>, i: nat)
    requires (forall r <- rounds :: r.Lawful()) && Run(rounds).now < 1000 * U32 && i < |Run(rounds).log|
    ensures InTime(Run(rounds).log[i]) && Run(rounds).log[i].backoff == Delay(i)
  {
    RunInv(rounds);
  }

  lemma {:induction false} StreakCovers(log: seq<Attempt>, i: nat)
    requires i <= |log| && forall k | i <= k < |log| :: !log[k].connected
    ensures Streak(log) >= |log| - i
    decreases |log|
  {
    if i < |log| {
      StreakCovers(log[..|log| - 1], i);
    }
  }

  lemma {:induction false} StreakBounded(rounds: seq<Round>, j: nat)
    requires (forall r <- rounds :: r.Lawful()) && Run(rounds).now < 1000 * U32 && j < |Run(rounds).log|
    ensures Streak(Run(rounds).log[..j]) <= 6
    decreases |rounds|
  {
    var init := rounds[..|rounds| - 1];
    var t := Run(init);
    if t.running && j == |t.log| {
      RunInv(init);
      assert Run(rounds).log[..j] == t.log;
    } else {
      StreakBounded(init, j);
      assert Run(rounds).log[..j] == t.log[..j];
    }
  }

  /** At most seven attempts follow each other without a success before the last of them. */
  lemma AtMostSevenAttempts(rounds: seq<Round>, i: nat, j: nat)
    requires (forall r <- rounds :: r.Lawful()) && Run(rounds).now < 1000 * U32
    requires i < j <= |Run(rounds).log| && forall k | i <= k < j - 1 :: !Run(rounds).log[k].connected
    ensures j - i <= 7
  {
    StreakBounded(rounds, j - 1);
    StreakCovers(Run(rounds).log[..j - 1], i);
  }

  function Repeated(r: Round, n: nat): (s: seq<Round>)
    ensures forall q <- s :: q == r
  {
    if n == 0 then [] else Repeated(r, n - 1) + [r]
  }

  lemma RefusedOnceMore(t: Task, p: nat)
    requires t.running && t.offlineSince == 0 && 1 <= p <= 32
    requires t.next == 3 * p && t.now == 3000 * (p - 1)
    ensures var u := Play(t, Round(0, Refused, 0, 0));
            && u.running && u.offlineSince == 0 && u.log == t.log + [Made(t, Round(0, Refused, 0, 0))]
            && u.next == 6 * p && u.now == 3000 * (2 * p - 1)
  {
    assert t.now / 1000 == 3 * (p - 1);
  }

  lemma {:induction false} RefusedAtOnce(n: nat)
    requires n <= 6
    ensures var t := Run(Repeated(Round(0, Refused, 0, 0), n));
            && t.running && t.offlineSince == 0 && |t.log| == n && (forall a <- t.log :: !a.connected)
            && t.next == MIN_RETRY_DELAY_SEC * Pow2(n) && t.now == 1000 * MIN_RETRY_DELAY_SEC * (Pow2(n) - 1)
  {
    assert Pow2(0) == 1;
    if n > 0 {
      RefusedAtOnce(n - 1);
      Pow2Small(n);
      RefusedOnceMore(Run(Repeated(Round(0, Refused, 0, 0), n - 1)), Pow2(n - 1));
      hide Play, Run;
      RunSnoc(Repeated(Round(0, Refused, 0, 0), n - 1), Round(0, Refused, 0, 0));
    }
  }

  lemma Pow2Small(n: nat)
    requires n <= 6
    ensures Pow2(n) <= 64
  {
    if n > 0 {
      assert Pow2(5) == 32 by { assert Pow2(2) == 4; }
    }
  }

  /** Seven do occur. */
  lemma SevenAttemptsHappen()
    ensures exists rounds: seq<Round> :: (forall r <- rounds :: r.Lawful()) && |Run(rounds).log| == 7 &&
              forall a <- Run(rounds).log :: !a.connected
  {
    var r := Round(0, Refused, 0, 0);
    RefusedAtOnce(6);
    RunSnoc(Repeated(r, 6), r);
    assert r.Lawful();
    assert |Run(Repeated(r, 6) + [r]).log| == 7;
  }

  /** The delay is never set back after a success: from the ninth attempt on, one refused connect ends
      the task, however long it was connected before. */
  lemma NoSecondChance(rounds: seq<Round>, r: Round)
    requires (forall q <- rounds :: q.Lawful()) && Run(rounds).now < 1000 * U32
    requires Run(rounds).running && |Run(rounds).log| >= 8
    requires r.outcome.Refused? && Back(Run(rounds), r) < 1000 * U32
    ensures !Run(rounds + [r]).running
  {
    RunInv(rounds);
    RunSnoc(rounds, r);
  }

  lemma NextIsDelay(rounds: seq<Round>)
    requires (forall x <- rounds :: x.Lawful()) && Run(rounds).running && Run(rounds).now < 1000 * U32
    ensures Run(rounds).next == Delay(|Run(rounds).log|)
  {
    RunInv(rounds);
  }

  /** When a run stops. From any running task, a round is the last one exactly if its session ended as
      intended, its connect timed out, or its connect was refused with the whole seconds offline and the
      delay beyond the limit. Otherwise the delay of its turn is waited. */
  lemma StopsIff(rounds: seq<Round>, r: Round)
    requires (forall x <- rounds :: x.Lawful()) && Run(rounds).running && Run(rounds).now < 1000 * U32
    ensures
      var t, u := Run(rounds), Run(rounds + [r]);
      var end := t.now + r.connectMs + (if r.outcome.Session? then r.outcome.ms else 0) + r.disconnectMs;
      var delay := Delay(|t.log|);
      && (!u.running <==>
            || r.outcome.TimedOut?
            || (r.outcome.Session? && r.outcome.end.Success?)
            || (r.outcome.Refused? && !WithinLimit(end - t.offlineSince, delay)))
      && u.offlineSince == (if r.outcome.Session? then end else t.offlineSince)
      && (u.running ==> u.now == end + r.signalMs + 1000 * delay)
  {
    RunSnoc(rounds, r);
    NextIsDelay(rounds);
    hide Run, Delay, Play, WithinLimit;
    PlayMeans(Run(rounds), r);
  }

  /** A session that ends unexpectedly or in an error is followed by another attempt. */
  lemma LostConnectionIsRetried(rounds: seq<Round>, r: Round, q: Round)
    requires Run(rounds).running && r.outcome.Session? && !r.outcome.end.Success?
    ensures
      var t, u, v := Run(rounds), Run(rounds + [r]), Run(rounds + [r] + [q]);
      && u.running && |u.log| == |t.log| + 1 && u.log[|t.log|].connected
      && |v.log| == |t.log| + 2 && v.log[|t.log| + 1].start == u.now
  {
    RunSnoc(rounds, r);
    RunSnoc(rounds + [r], q);
    hide Run, Play;
    PlayMeans(Run(rounds), r);
    PlayMeans(Run(rounds + [r]), q);
  }

  lemma PlayMeans(t: Task, r: Round)
    requires t.offlineSince <= t.now
    ensures
      var u := Play(t, r);
      && u.log == t.log + [Made(t, r)] && u.running == WillRetry(t, r)
      && u.offlineSince == (if r.outcome.Session? then Back(t, r) else t.offlineSince)
      && (u.running ==> u.now == Back(t, r) + r.signalMs + 1000 * t.next)
  {
  }

  /** After the last round no attempt is ever added, whatever rounds follow. */
  lemma {:induction false} StoppedForGood(rounds: seq<Round>, more: seq<Round>)
    requires !Run(rounds).running
    ensures Run(rounds + more) == Run(rounds)
    decreases |more|
  {
    if more == [] {
      assert rounds + more == rounds;
    } else {
      var init, r := more[..|more| - 1], more[|more| - 1];
      StoppedForGood(rounds, init);
      RunSnoc(rounds + init, r);
      assert rounds + init + [r] == rounds + more;
    }
  }

  /** How long the device has been offline when the retry after a round is decided. */
  function Waited(t: Task, r: Round): nat
    requires t.offlineSince <= t.now
  {
    if r.outcome.Session? then 0 else Back(t, r) - t.offlineSince
  }

  /** The documented promise: the offline time stays below `NETWORK_DISCONNECTED_TIMEOUT_MS` for every
      connect that may come next. */
  ghost predicate KeepsBound(t: Task) {
    forall q: Round | q.Lawful() :: Made(t, q).end - Made(t, q).offlineSince < NETWORK_DISCONNECTED_TIMEOUT_MS
  }

  /** Which granted retries keep it. After any run and any round that is followed by a retry, the bound
      is kept if and only if the whole seconds waited and the delay add up to less than
      `RETRY_TIMEOUT_SEC`. Without signalling time that is the code's own guard with a strict
      comparison, so the bound is missed exactly when the guard holds with equality. */
  lemma RetryKeepsBoundIff(rounds: seq<Round>, r: Round)
    requires (forall q <- rounds :: q.Lawful()) && r.Lawful() && Run(rounds).running && Run(rounds + [r]).running
    requires Run(rounds + [r]).now < 1000 * U32
    ensures
      var t := Run(rounds);
      && (KeepsBound(Run(rounds + [r])) <==> (Waited(t, r) + r.signalMs) / 1000 + t.next < RETRY_TIMEOUT_SEC)
      && (r.signalMs == 0 ==> (!KeepsBound(Run(rounds + [r])) <==> Waited(t, r) / 1000 + t.next == RETRY_TIMEOUT_SEC))
  {
    RunSnoc(rounds, r);
    RunInv(rounds);
    NextInBounds(Run(rounds));
    hide Run, Inv, KeepsBound;
    GrantedRetry(Run(rounds), r);
  }

  lemma NextInBounds(t: Task)
    requires Inv(t) && t.running
    ensures t.next <= RETRY_TIMEOUT_SEC
  {
    DelayDoubles(|t.log|);
  }

  lemma GrantedRetry(t: Task, r: Round)
    requires t.offlineSince <= t.now && t.next <= RETRY_TIMEOUT_SEC && WillRetry(t, r) && Back(t, r) < 1000 * U32
    ensures KeepsBound(Play(t, r)) <==> (Waited(t, r) + r.signalMs) / 1000 + t.next < RETRY_TIMEOUT_SEC
    ensures Waited(t, r) / 1000 + t.next <= RETRY_TIMEOUT_SEC
  {
    var u := Play(t, r);
    SlowestDecides(u);
    hide KeepsBound;
    assert u.now - u.offlineSince == Waited(t, r) + r.signalMs + 1000 * t.next;
    WholeSeconds(Waited(t, r) + r.signalMs, t.next);
  }

  lemma WholeSeconds(ms: nat, next: nat)
    ensures ms + 1000 * next < 1000 * RETRY_TIMEOUT_SEC <==> ms / 1000 + next < RETRY_TIMEOUT_SEC
  {
  }

  /** Among the connects that may follow, the one that times out takes longest. */
  lemma SlowestDecides(u: Task)
    requires u.offlineSince <= u.now
    ensures KeepsBound(u) <==> u.now - u.offlineSince < 1000 * RETRY_TIMEOUT_SEC
  {
    var slowest := Round(NETWORK_CONNECTING_TIMEOUT_MS, TimedOut, 0, 0);
    assert slowest.Lawful() && Made(u, slowest).end == u.now + NETWORK_CONNECTING_TIMEOUT_MS;
  }

  /** Whole seconds are compared, so the start can be 0.999 s late and the bound is missed. */
  lemma OfflineTimeExceedsBound()
    ensures exists rounds: seq<Round> ::
              (forall r <- rounds :: r.Lawful() && r.signalMs == 0) && |Run(rounds).log| == 2 &&
              var a := Run(rounds).log[1]; a.end - a.offlineSince == NETWORK_DISCONNECTED_TIMEOUT_MS + 999
  {
    var first := Round(297_999, Refused, 0, 0);
    var second := Round(NETWORK_CONNECTING_TIMEOUT_MS, TimedOut, 0, 0);
    var t := Run([first]);
    assert t.running && t.now == 300_999 && t.offlineSince == 0 && |t.log| == 1 by {
      RunSnoc([], first);
      assert [] + [first] == [first];
      assert 297_999 / 1000 == 297;
    }
    RunSnoc([first], second);
    hide Run;
    var rounds := [first] + [second];
    assert Run(rounds).log == t.log + [Made(t, second)];
    assert forall r <- rounds :: r.Lawful() && r.signalMs == 0;
  }
}
