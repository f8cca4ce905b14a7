/** The lock-free ping-pong buffer of `sync/mod.rs`, as an interleaving transition system.

    Any number of threads call `read` and `try_write`. Every atomic access is one step, and so is
    every word of the two non-atomic copies. A schedule is a sequence of (thread, action) pairs, so a
    statement about every schedule is a statement about every interleaving under sequential
    consistency. */
module DoubleBuffer {

  type Word = int
  type Value = seq<Word>
  type Tid = nat

  const VERSIONS: nat := 0x1_0000_0000

  datatype Index = Zero | One

  /** The `state` word; it advances in declaration order, cyclically. */
  datatype LockState = WriteIdleRead0 | Writing1Read0 | WriteIdleRead1 | Writing0Read1 {
    function Next(): LockState {
      match this
      case WriteIdleRead0 => Writing1Read0
      case Writing1Read0 => WriteIdleRead1
      case WriteIdleRead1 => Writing0Read1
      case Writing0Read1 => WriteIdleRead0
    }

    function ReadIndex(): Index {
      if WriteIdleRead0? || Writing1Read0? then Zero else One
    }

    predicate Writing() { Writing1Read0? || Writing0Read1? }

    function WriteIndex(): Index
      requires Writing()
    {
      if Writing0Read1? then Zero else One
    }

    static function FromWriteIndex(w: Index): LockState {
      if w.Zero? then Writing0Read1 else Writing1Read0
    }
  }

  /** One assignment through the guard: word `at` becomes `word`. */
  datatype Edit = Edit(at: nat, word: Word)

  /** Why a `read` runs: for its caller, or inside `try_write` to fill the buffer about to be written. */
  datatype Role = Caller | Guard(w: Index)

  /** Where a thread is inside `read`. `bumps` counts the version increments made before the version
      was loaded and `seen` is the newest commit at the second state load; both are history
      variables, no decision depends on them. */
  datatype Stage =
    | LoadState
    | LoadVersion(first: LockState)
    | Copying(first: LockState, version: nat, bumps: nat, got: Value)
    | CheckVersion(first: LockState, version: nat, bumps: nat, got: Value, second: LockState, seen: nat)

  datatype Thread =
    | Idle
    | Reading(stage: Stage, role: Role)
    | Returned(value: Value, seen: nat, between: nat)
    | FirstCas
    | SecondCas
    | Filling(w: Index, init: Value, filled: nat)
    | Editing(w: Index, edits: seq<Edit>)
    | Committing(w: Index, edits: seq<Edit>)
  {
    /** The thread owns the `WriteLockGuard` (from the successful exchange to the end of its drop). */
    predicate Holding() {
      (Reading? && role.Guard?) || Filling? || Editing? || Committing?
    }

    function GuardIndex(): Index
      requires Holding()
    {
      match this
      case Reading(_, role) => role.w
      case Filling(w, _, _) => w
      case Editing(w, _) => w
      case Committing(w, _) => w
    }
  }

  datatype Action = Read | TryWrite | Write(edit: Edit) | Drop | Tick

  /** `history` lists the committed values, oldest first, `log` the edits behind each commit but the
      first value, and `bumps` counts version increments without wrapping: history variables. */
  datatype System = System(
    state: LockState,
    version: nat,
    buffers: map<Index, Value>,
    threads: map<Tid, Thread>,
    bumps: nat,
    history: seq<Value>,
    log: seq<seq<Edit>>)
  {
    function Buffer(i: Index): Value {
      if i in buffers then buffers[i] else []
    }

    /** The value every read that starts now should return. */
    function Committed(): Value {
      if history == [] then [] else history[|history| - 1]
    }

    function Set(t: Tid, th: Thread): System {
      this.(threads := threads[t := th])
    }
  }

  function ApplyEdit(v: Value, e: Edit): Value {
    if e.at < |v| then v[e.at := e.word] else v
  }

  function ApplyEdits(v: Value, es: seq<Edit>): (r: Value)
    ensures |r| == |v|
  {
    if es == [] then v else ApplyEdit(ApplyEdits(v, es[..|es| - 1]), es[|es| - 1])
  }

  /** `new`: both cells hold the initial value. */
  function Init(value: Value, ids: set<Tid>): System {
    System(WriteIdleRead0, 0, map[Zero := value, One := value],
           map t | t in ids :: Idle, 0, [value], [])
  }

  /** One step of `read`. */
  function ReadStep(s: System, t: Tid, stage: Stage, role: Role): System {
    match stage
    case LoadState =>
      s.Set(t, Reading(LoadVersion(s.state), role))
    case LoadVersion(first) =>
      s.Set(t, Reading(Copying(first, s.version, s.bumps, []), role))
    case Copying(first, v, b, got) =>
      var source := s.Buffer(first.ReadIndex());
      if |got| < |source| then
        s.Set(t, Reading(Copying(first, v, b, got + [source[|got|]]), role))
      else
        s.Set(t, Reading(CheckVersion(first, v, b, got, s.state, if s.history == [] then 0 else |s.history| - 1), role))
    case CheckVersion(first, v, b, got, second, seen) =>
      if first.ReadIndex() == second.ReadIndex() && v == s.version then
        match role
        case Caller => s.Set(t, Returned(got, seen, if b <= s.bumps then s.bumps - b else 0))
        case Guard(w) => s.Set(t, Filling(w, got, 0))
      else
        s.Set(t, Reading(LoadState, role))
  }

  /** Thread `t` takes one step; an action that does not fit its position changes nothing. */
  function Step(s: System, t: Tid, a: Action): System
    requires t in s.threads
  {
    match (s.threads[t], a)
    case (Idle, Read) => s.Set(t, Reading(LoadState, Caller))
    case (Idle, TryWrite) => s.Set(t, FirstCas)
    case (FirstCas, Tick) => TryLock(s, t, WriteIdleRead0, SecondCas)
    case (SecondCas, Tick) => TryLock(s, t, WriteIdleRead1, Idle)
    case (Reading(stage, role), Tick) => ReadStep(s, t, stage, role)
    case (Returned(_, _, _), Tick) => s.Set(t, Idle)
    case (Filling(w, init, n), Tick) =>
      if n < |init| then
        s.(buffers := s.buffers[w := ApplyEdit(s.Buffer(w), Edit(n, init[n]))]).Set(t, Filling(w, init, n + 1))
      else
        s.Set(t, Editing(w, []))
    case (Editing(w, es), Write(e)) =>
      s.(buffers := s.buffers[w := ApplyEdit(s.Buffer(w), e)]).Set(t, Editing(w, es + [e]))
    case (Editing(w, es), Drop) =>
      s.(version := (s.version + 1) % VERSIONS, bumps := s.bumps + 1).Set(t, Committing(w, es))
    case (Committing(w, es), Tick) =>
      s.(state := LockState.FromWriteIndex(w).Next(), history := s.history + [s.Buffer(w)], log := s.log + [es])
       .Set(t, Idle)
    case _ => s
  }

  /** `compare_exchange(from, from.next())`, entering the guard on success. */
  function TryLock(s: System, t: Tid, from: LockState, otherwise: Thread): System {
    if s.state == from && from.Next().Writing() then
      s.(state := from.Next()).Set(t, Reading(LoadState, Guard(from.Next().WriteIndex())))
    else
      s.Set(t, otherwise)
  }

  /** Some thread takes one step. */
  ghost predicate Succ(s: System, s': System) {
    exists t, a :: t in s.threads && s' == Step(s, t, a)
  }

  /** An interleaving: a sequence of systems, each one step after the one before. */
  ghost predicate Interleaving(run: seq<System>) {
    && run != []
    && (exists value, ids :: run[0] == Init(value, ids))
    && (forall k | 0 <= k < |run| - 1 :: Succ(run[k], run[k + 1]))
  }

  // ---------------------------------------------------------------- the invariant

  /** Nothing may write buffer `i` before the next version increment. */
  predicate Stable(s: System, i: Index) {
    s.state.ReadIndex() == i || s.bumps == |s.history|
  }

  ghost predicate Shape(s: System) {
    && s.buffers.Keys == {Zero, One}
    && |s.history| == |s.log| + 1
    && |s.buffers[Zero]| == |s.history[0]| == |s.buffers[One]|
    && |s.Committed()| == |s.history[0]|
    && s.version == s.bumps % VERSIONS
    && |s.history| - 1 <= s.bumps <= |s.history|
    && s.Buffer(s.state.ReadIndex()) == s.Committed()
    && (!s.state.Writing() ==> s.bumps == |s.history| - 1)
  }

  /** Exclusion: a guard is live exactly while the state is a Writing state, and there is one. */
  ghost predicate Exclusive(s: System) {
    && (forall t | t in s.threads && s.threads[t].Holding() ::
          s.state.Writing() && s.threads[t].GuardIndex() == s.state.WriteIndex())
    && (forall t, u | t in s.threads && u in s.threads && s.threads[t].Holding() && s.threads[u].Holding() :: t == u)
    && (s.state.Writing() ==> exists t :: t in s.threads && s.threads[t].Holding())
  }

  ghost predicate StageOk(s: System, stage: Stage)
    requires Shape(s)
  {
    match stage
    case LoadState => true
    case LoadVersion(_) => true
    case Copying(first, v, b, got) =>
      && b <= s.bumps && v == b % VERSIONS && |got| <= |s.Buffer(first.ReadIndex())|
      && (b == s.bumps && Stable(s, first.ReadIndex()) ==> got == s.Buffer(first.ReadIndex())[..|got|])
    case CheckVersion(first, v, b, got, second, seen) =>
      && b <= s.bumps && v == b % VERSIONS && seen < |s.history|
      && (b == s.bumps && first.ReadIndex() == second.ReadIndex() ==> got == s.history[seen])
  }

  /** The read inside `try_write` sees no other writer. */
  ghost predicate GuardStageOk(s: System, stage: Stage) {
    match stage
    case LoadState => true
    case LoadVersion(first) => first.ReadIndex() == s.state.ReadIndex()
    case Copying(first, _, b, _) => b == s.bumps && first.ReadIndex() == s.state.ReadIndex()
    case CheckVersion(first, _, b, _, second, seen) =>
      b == s.bumps && first.ReadIndex() == second.ReadIndex() && seen == |s.history| - 1
  }

  ghost predicate ThreadOk(s: System, th: Thread)
    requires Shape(s)
  {
    match th
    case Idle => true
    case FirstCas => true
    case SecondCas => true
    case Reading(stage, role) =>
      StageOk(s, stage) && (role.Guard? ==> GuardStageOk(s, stage) && s.bumps == |s.history| - 1)
    case Returned(value, seen, between) =>
      seen < |s.history| && (between < VERSIONS ==> value == s.history[seen])
    case Filling(w, init, n) =>
      && init == s.Committed() && |s.Buffer(w)| == |init| && n <= |init| && s.Buffer(w)[..n] == init[..n]
      && s.bumps == |s.history| - 1
    case Editing(w, es) =>
      s.Buffer(w) == ApplyEdits(s.Committed(), es) && s.bumps == |s.history| - 1
    case Committing(w, es) =>
      s.Buffer(w) == ApplyEdits(s.Committed(), es) && s.bumps == |s.history|
  }

  /** Every committed value is its writer's edits applied to the value committed just before. */
  ghost predicate NoLostUpdate(s: System) {
    |s.history| == |s.log| + 1 &&
    forall k | 0 <= k < |s.log| :: s.history[k + 1] == ApplyEdits(s.history[k], s.log[k])
  }

  ghost predicate Inv(s: System) {
    && Shape(s)
    && Exclusive(s)
    && (forall t | t in s.threads :: ThreadOk(s, s.threads[t]))
    && NoLostUpdate(s)
  }

  lemma InitInv(value: Value, ids: set<Tid>)
    ensures Inv(Init(value, ids))
  {
  }

  // ---------------------------------------------------------------- preservation, by kind of step

  /** What a thread relies on is in the shared words only. */
  lemma ThreadSame(s: System, t: Tid, th: Thread, x: Thread)
    requires Shape(s)
    ensures Shape(s.Set(t, th)) && (ThreadOk(s.Set(t, th), x) <==> ThreadOk(s, x))
  {
  }

  /** Exclusion depends on the state and on who holds the guard. */
  lemma ExclusiveSame(s: System, s': System, t: Tid)
    requires Exclusive(s) && t in s.threads && t in s'.threads
    requires s'.state == s.state && s'.threads == s.threads[t := s'.threads[t]]
    requires s'.threads[t].Holding() == s.threads[t].Holding()
    requires s.threads[t].Holding() ==> s'.threads[t].GuardIndex() == s.threads[t].GuardIndex()
    ensures Exclusive(s')
  {
    if s'.state.Writing() {
      var u :| u in s.threads && s.threads[u].Holding();
      assert u in s'.threads && s'.threads[u].Holding();
    }
  }

  /** A step that leaves the shared words alone only has to keep its own thread in order. */
  lemma LocalStep(s: System, t: Tid, th: Thread)
    requires Inv(s) && t in s.threads
    requires th.Holding() == s.threads[t].Holding()
    requires th.Holding() ==> th.GuardIndex() == s.threads[t].GuardIndex()
    requires ThreadOk(s, th)
    ensures Inv(s.Set(t, th))
  {
    var s' := s.Set(t, th);
    ThreadSame(s, t, th, th);
    ExclusiveSame(s, s', t);
    hide Shape, Exclusive, ThreadOk;
    forall u | u in s'.threads ensures ThreadOk(s', s'.threads[u]) {
      assert u in s.threads;
      ThreadSame(s, t, th, s'.threads[u]);
    }
  }

  lemma ReadStepInv(s: System, t: Tid, stage: Stage, role: Role)
    requires Inv(s) && t in s.threads && s.threads[t] == Reading(stage, role)
    ensures Inv(ReadStep(s, t, stage, role))
  {
    assert ThreadOk(s, s.threads[t]);
    hide NoLostUpdate, Exclusive;
    match stage
    case LoadState => LocalStep(s, t, Reading(LoadVersion(s.state), role));
    case LoadVersion(first) => LocalStep(s, t, Reading(Copying(first, s.version, s.bumps, []), role));
    case Copying(first, v, b, got) =>
      var source := s.Buffer(first.ReadIndex());
      if |got| < |source| {
        var more := got + [source[|got|]];
        if got == source[..|got|] {
          assert more == source[..|more|];
        }
        LocalStep(s, t, Reading(Copying(first, v, b, more), role));
      } else {
        assert source[..|got|] == source;
        LocalStep(s, t, Reading(CheckVersion(first, v, b, got, s.state, |s.history| - 1), role));
      }
    case CheckVersion(first, v, b, got, second, seen) => CheckStepInv(s, t, stage, role);
  }

  lemma CheckStepInv(s: System, t: Tid, stage: Stage, role: Role)
    requires Inv(s) && t in s.threads && s.threads[t] == Reading(stage, role) && stage.CheckVersion?
    ensures Inv(ReadStep(s, t, stage, role))
  {
    var CheckVersion(first, v, b, got, second, seen) := stage;
    assert ThreadOk(s, s.threads[t]);
    hide NoLostUpdate;
    if first.ReadIndex() == second.ReadIndex() && v == s.version {
      SameVersion(b, s.bumps);
      match role
      case Caller => LocalStep(s, t, Returned(got, seen, s.bumps - b));
      case Guard(w) =>
        assert s.Buffer(w)[..0] == got[..0];
        LocalStep(s, t, Filling(w, got, 0));
    } else {
      LocalStep(s, t, Reading(LoadState, role));
    }
  }

  /** Equal versions with fewer than 2^32 increments between mean no increment at all. */
  lemma SameVersion(b: nat, now: nat)
    requires b <= now && b % VERSIONS == now % VERSIONS
    ensures now - b < VERSIONS ==> b == now
  {
    assert (now - b) % VERSIONS == 0;
  }

  /** A successful exchange: the state becomes a Writing state with the same read index. */
  lemma LockInv(s: System, t: Tid)
    requires Inv(s) && t in s.threads && !s.threads[t].Holding()
    requires !s.state.Writing()
    ensures Inv(s.(state := s.state.Next()).Set(t, Reading(LoadState, Guard(s.state.Next().WriteIndex()))))
  {
    var s' := s.(state := s.state.Next()).Set(t, Reading(LoadState, Guard(s.state.Next().WriteIndex())));
    assert s'.threads[t].Holding();
    forall u | u in s'.threads ensures ThreadOk(s', s'.threads[u]) {
      assert u in s.threads && ThreadOk(s, s.threads[u]);
    }
  }

  /** Words written through the guard never hit a buffer some reader relies on. */
  lemma BufferWriteInv(s: System, t: Tid, e: Edit, th: Thread)
    requires Inv(s) && t in s.threads
    requires s.threads[t].Holding() && th.Holding() && th.GuardIndex() == s.threads[t].GuardIndex()
    requires s.bumps == |s.history| - 1
    requires
      var w := s.threads[t].GuardIndex();
      var s' := s.(buffers := s.buffers[w := ApplyEdit(s.Buffer(w), e)]);
      Shape(s') ==> ThreadOk(s', th)
    ensures
      var w := s.threads[t].GuardIndex();
      Inv(s.(buffers := s.buffers[w := ApplyEdit(s.Buffer(w), e)]).Set(t, th))
  {
    var w := s.threads[t].GuardIndex();
    var s1 := s.(buffers := s.buffers[w := ApplyEdit(s.Buffer(w), e)]);
    var s' := s1.Set(t, th);
    assert w != s.state.ReadIndex();
    assert Shape(s1) && Shape(s');
    forall u | u in s'.threads ensures ThreadOk(s', s'.threads[u]) {
      if u != t {
        assert u in s.threads && ThreadOk(s, s.threads[u]) && !s.threads[u].Holding();
      } else {
        assert ThreadOk(s1, th);
      }
    }
    assert s'.threads[t].Holding();
  }

  /** First half of `finish_writing`. */
  lemma BumpInv(s: System, t: Tid, w: Index, es: seq<Edit>)
    requires Inv(s) && t in s.threads && s.threads[t] == Editing(w, es)
    ensures Inv(Step(s, t, Drop))
  {
    var s' := Step(s, t, Drop);
    assert ThreadOk(s, s.threads[t]);
    BumpShape(s, s', t);
    ExclusiveSame(s, s', t);
    assert forall u | u in s.threads && u != t :: !s.threads[u].Holding();
    assert ThreadOk(s', s'.threads[t]);
    hide Shape, Exclusive, ThreadOk;
    forall u | u in s'.threads ensures ThreadOk(s', s'.threads[u]) {
      if u != t {
        assert u in s.threads && ThreadOk(s, s.threads[u]);
        BumpThread(s, s', s.threads[u]);
      }
    }
  }

  /** `s'` is `s` with one more version increment. */
  predicate Bumped(s: System, s': System) {
    && s'.state == s.state && s'.buffers == s.buffers && s'.history == s.history && s'.log == s.log
    && s'.bumps == s.bumps + 1 && s'.version == (s.version + 1) % VERSIONS
  }

  lemma BumpShape(s: System, s': System, t: Tid)
    requires Shape(s) && Bumped(s, s') && s.state.Writing() && s.bumps == |s.history| - 1
    ensures Shape(s')
  {
  }

  lemma BumpThread(s: System, s': System, th: Thread)
    requires Shape(s) && Shape(s') && Bumped(s, s') && !th.Holding() && ThreadOk(s, th)
    ensures ThreadOk(s', th)
  {
  }

  /** Second half of `finish_writing`: the written buffer becomes the read buffer. */
  lemma CommitInv(s: System, t: Tid, w: Index, es: seq<Edit>)
    requires Inv(s) && t in s.threads && s.threads[t] == Committing(w, es)
    ensures Inv(Step(s, t, Tick))
  {
    var s' := Step(s, t, Tick);
    assert ThreadOk(s, s.threads[t]);
    assert s'.Committed() == s.Buffer(w);
    assert Shape(s');
    forall u | u in s'.threads ensures ThreadOk(s', s'.threads[u]) {
      if u != t {
        assert u in s.threads && ThreadOk(s, s.threads[u]) && !s.threads[u].Holding();
      }
    }
    forall u | u in s'.threads ensures !s'.threads[u].Holding() {
      if u != t {
        assert u in s.threads;
      }
    }
  }

  lemma FillInv(s: System, t: Tid, w: Index, init: Value, n: nat)
    requires Inv(s) && t in s.threads && s.threads[t] == Filling(w, init, n)
    ensures Inv(Step(s, t, Tick))
  {
    assert ThreadOk(s, s.threads[t]);
    if n < |init| {
      FillWord(s, w, init, n);
      hide Shape, NoLostUpdate, Exclusive, ThreadOk, ApplyEdit;
      BufferWriteInv(s, t, Edit(n, init[n]), Filling(w, init, n + 1));
    } else {
      assert init[..n] == init && s.Buffer(w)[..n] == s.Buffer(w);
      assert ThreadOk(s, Editing(w, []));
      hide Shape, NoLostUpdate, Exclusive, ThreadOk, ApplyEdit;
      LocalStep(s, t, Editing(w, []));
    }
  }

  lemma FillWord(s: System, w: Index, init: Value, n: nat)
    requires Shape(s) && n < |init| && ThreadOk(s, Filling(w, init, n)) && w != s.state.ReadIndex()
    ensures
      var s' := s.(buffers := s.buffers[w := ApplyEdit(s.Buffer(w), Edit(n, init[n]))]);
      Shape(s') ==> ThreadOk(s', Filling(w, init, n + 1))
  {
    assert ApplyEdit(s.Buffer(w), Edit(n, init[n]))[..n + 1] == s.Buffer(w)[..n] + [init[n]] == init[..n + 1];
  }

  lemma EditInv(s: System, t: Tid, w: Index, es: seq<Edit>, e: Edit)
    requires Inv(s) && t in s.threads && s.threads[t] == Editing(w, es)
    ensures Inv(Step(s, t, Write(e)))
  {
    assert ThreadOk(s, s.threads[t]);
    hide NoLostUpdate;
    assert (es + [e])[..|es|] == es;
    BufferWriteInv(s, t, e, Editing(w, es + [e]));
  }

  /** Calls, exchanges and returns. */
  lemma CallInv(s: System, t: Tid, a: Action)
    requires Inv(s) && t in s.threads
    requires var th := s.threads[t]; th.Idle? || th.FirstCas? || th.SecondCas? || th.Returned?
    ensures Inv(Step(s, t, a))
  {
    hide NoLostUpdate, Exclusive;
    match (s.threads[t], a)
    case (Idle, Read) => LocalStep(s, t, Reading(LoadState, Caller));
    case (Idle, TryWrite) => LocalStep(s, t, FirstCas);
    case (FirstCas, Tick) => if s.state.WriteIdleRead0? { LockInv(s, t); } else { LocalStep(s, t, SecondCas); }
    case (SecondCas, Tick) => if s.state.WriteIdleRead1? { LockInv(s, t); } else { LocalStep(s, t, Idle); }
    case (Returned(_, _, _), Tick) => LocalStep(s, t, Idle);
    case _ =>
  }

  lemma StepInv(s: System, t: Tid, a: Action)
    requires Inv(s) && t in s.threads
    ensures Inv(Step(s, t, a))
  {
    hide Inv, ReadStep, TryLock, ApplyEdit;
    match (s.threads[t], a)
    case (Idle, _) => CallInv(s, t, a);
    case (FirstCas, _) => CallInv(s, t, a);
    case (SecondCas, _) => CallInv(s, t, a);
    case (Returned(_, _, _), _) => CallInv(s, t, a);
    case (Reading(stage, role), Tick) => ReadStepInv(s, t, stage, role);
    case (Filling(w, init, n), Tick) => FillInv(s, t, w, init, n);
    case (Editing(w, es), Write(e)) => EditInv(s, t, w, es, e);
    case (Editing(w, es), Drop) => BumpInv(s, t, w, es);
    case (Committing(w, es), Tick) => CommitInv(s, t, w, es);
    case _ =>
  }

  lemma {:induction false} RunInv(run: seq<System>, k: nat)
    requires Interleaving(run) && k < |run|
    ensures Inv(run[k])
  {
    if k == 0 {
      var value, ids :| run[0] == Init(value, ids);
      InitInv(value, ids);
    } else {
      RunInv(run, k - 1);
      assert Succ(run[k - 1], run[k - 1 + 1]);
      var t, a :| t in run[k - 1].threads && run[k] == Step(run[k - 1], t, a);
      StepInv(run[k - 1], t, a);
    }
  }

  // ---------------------------------------------------------------- what every interleaving guarantees

  predicate InLoadVersion(s: System, t: Tid) {
    t in s.threads && s.threads[t].Reading? && s.threads[t].stage.LoadVersion?
  }

  predicate InCopying(s: System, t: Tid) {
    t in s.threads && s.threads[t].Reading? && s.threads[t].stage.Copying?
  }

  predicate InCheckVersion(s: System, t: Tid) {
    t in s.threads && s.threads[t].Reading? && s.threads[t].stage.CheckVersion?
  }

  predicate HasReturned(s: System, t: Tid) {
    t in s.threads && s.threads[t].Returned?
  }

  /** What a step from `s` to `s'` lets thread `t` remember of its `read`. */
  predicate Remembers(s: System, s': System, t: Tid) {
    && s.history != [] && s.history <= s'.history
    && (InLoadVersion(s, t) && InCopying(s', t) ==> s'.threads[t].stage.bumps == s.bumps)
    && (InCopying(s, t) && InCopying(s', t) ==> s'.threads[t].stage.bumps == s.threads[t].stage.bumps)
    && (InCopying(s, t) && InCheckVersion(s', t) ==>
          s'.threads[t].stage.bumps == s.threads[t].stage.bumps && s'.threads[t].stage.seen == |s.history| - 1)
    && (InCheckVersion(s, t) && InCheckVersion(s', t) ==> s'.threads[t] == s.threads[t])
    && (InCheckVersion(s, t) && HasReturned(s', t) ==>
          && s'.threads[t].seen == s.threads[t].stage.seen
          && (s.threads[t].stage.bumps <= s.bumps ==> s'.threads[t].between == s.bumps - s.threads[t].stage.bumps))
  }

  lemma StepRemembers(s: System, u: Tid, a: Action, t: Tid)
    requires u in s.threads && s.history != []
    ensures Remembers(s, Step(s, u, a), t)
  {
    if u != t && t in s.threads {
      OthersStay(s, u, a, t);
    }
  }

  lemma RunRemembers(run: seq<System>, k: nat, t: Tid)
    requires Interleaving(run) && k + 1 < |run|
    ensures Remembers(run[k], run[k + 1], t)
  {
    RunInv(run, k);
    assert Succ(run[k], run[k + 1]);
    var u, a :| u in run[k].threads && run[k + 1] == Step(run[k], u, a);
    StepRemembers(run[k], u, a, t);
  }

  lemma OthersStay(s: System, u: Tid, a: Action, t: Tid)
    requires u in s.threads && t in s.threads && t != u
    ensures t in Step(s, u, a).threads && Step(s, u, a).threads[t] == s.threads[t]
  {
    hide ApplyEdit, System.Buffer;
  }

  /** Commits are never taken back. */
  lemma {:induction false} HistoryGrows(run: seq<System>, j: nat, k: nat)
    requires Interleaving(run) && j <= k < |run|
    ensures run[j].history <= run[k].history
  {
    hide Succ;
    if j < k {
      HistoryGrows(run, j, k - 1);
      RunRemembers(run, k - 1, 0);
    }
  }

  /** While a thread copies, it remembers how many increments preceded its version load. */
  lemma {:induction false} CopyRemembers(run: seq<System>, t: Tid, i: nat, m: nat)
    requires Interleaving(run) && i < m < |run|
    requires InLoadVersion(run[i], t)
    requires forall x | i < x <= m :: InCopying(run[x], t)
    ensures InCopying(run[m], t) && run[m].threads[t].stage.bumps == run[i].bumps
    decreases m
  {
    hide Succ;
    RunRemembers(run, m - 1, t);
    if m > i + 1 {
      CopyRemembers(run, t, i, m - 1);
    }
  }

  /** The second state load is remembered until the version check. */
  lemma {:induction false} CheckRemembers(run: seq<System>, t: Tid, j: nat, m: nat)
    requires Interleaving(run) && j < m < |run|
    requires InCopying(run[j], t)
    requires forall x | j < x <= m :: InCheckVersion(run[x], t)
    ensures InCheckVersion(run[m], t)
    ensures run[m].threads[t].stage.bumps == run[j].threads[t].stage.bumps
    ensures run[m].threads[t].stage.seen == |run[j].history| - 1
    decreases m
  {
    hide Succ;
    RunRemembers(run, m - 1, t);
    if m > j + 1 {
      CheckRemembers(run, t, j, m - 1);
    }
  }

  /** The read guarantee. In any interleaving, a `read` that loads the version in `run[i]`, loads the
      state a second time in `run[j]` and checks the version in `run[k]` before returning returns
      exactly the value committed in `run[j]`, provided fewer than 2^32 version increments fall
      between its two version loads. */
  lemma ReadReturnsCommittedValue(run: seq<System>, t: Tid, i: nat, j: nat, k: nat)
    requires Interleaving(run) && i < j < k < |run| - 1
    requires InLoadVersion(run[i], t)
    requires forall x | i < x <= j :: InCopying(run[x], t)
    requires forall x | j < x <= k :: InCheckVersion(run[x], t)
    requires HasReturned(run[k + 1], t)
    requires run[k].bumps - run[i].bumps < VERSIONS
    ensures run[k + 1].threads[t].value == run[j].Committed()
  {
    hide Succ, Exclusive, NoLostUpdate;
    CopyRemembers(run, t, i, j);
    CheckRemembers(run, t, j, k);
    RunInv(run, j);
    RunInv(run, k);
    RunInv(run, k + 1);
    RunRemembers(run, k, t);
    assert ThreadOk(run[k], run[k].threads[t]);
    assert ThreadOk(run[k + 1], run[k + 1].threads[t]);
    HistoryGrows(run, j, k + 1);
  }

  /** A caller's read that was not disturbed returns, and a disturbed one starts over: it returns exactly
      if the version and the read index at its second loads are those at its first. With no version
      increment since the first load and the same buffer still being read, it does. */
  lemma ReadReturnsIff(run: seq<System>, k: nat, t: Tid)
    requires Interleaving(run) && k < |run| && InCheckVersion(run[k], t) && run[k].threads[t].role.Caller?
    ensures
      var stage, next := run[k].threads[t].stage, Step(run[k], t, Tick).threads[t];
      && (stage.first.ReadIndex() == stage.second.ReadIndex() && stage.version == run[k].version ==>
            next.Returned? && next.value == stage.got)
      && (stage.first.ReadIndex() != stage.second.ReadIndex() || stage.version != run[k].version ==>
            next == Reading(LoadState, Caller))
      && (stage.first.ReadIndex() == stage.second.ReadIndex() && stage.bumps == run[k].bumps ==>
            stage.seen < |run[k].history| && next.Returned? && next.value == run[k].history[stage.seen])
  {
    RunInv(run, k);
    assert ThreadOk(run[k], run[k].threads[t]);
  }

  /** A write through the guard is recorded and applied behind the writes before it, unseen by readers. */
  lemma WriteIsApplied(s: System, t: Tid, w: Index, es: seq<Edit>, e: Edit)
    requires Inv(s) && t in s.threads && s.threads[t] == Editing(w, es)
    ensures
      var s' := Step(s, t, Write(e));
      && s'.threads[t] == Editing(w, es + [e]) && s'.Committed() == s.Committed()
      && s'.Buffer(w) == ApplyEdit(ApplyEdits(s.Committed(), es), e)
      && s'.Buffer(s.state.ReadIndex()) == s.Committed()
  {
    assert ThreadOk(s, s.threads[t]);
    hide NoLostUpdate;
  }

  /** Dropping the guard publishes exactly its writes: the version is bumped, and then the last commit with
      all of them applied is what readers are pointed at, and the lock is free. */
  lemma DropPublishesWrites(s: System, t: Tid, w: Index, es: seq<Edit>)
    requires Inv(s) && t in s.threads
    ensures s.threads[t] == Editing(w, es) ==>
              var s' := Step(s, t, Drop);
              s'.threads[t] == Committing(w, es) && s'.bumps == s.bumps + 1 && s'.Committed() == s.Committed()
    ensures s.threads[t] == Committing(w, es) ==>
              var s' := Step(s, t, Tick);
              && s'.Committed() == ApplyEdits(s.Committed(), es) && s'.log == s.log + [es]
              && s'.Buffer(s'.state.ReadIndex()) == s'.Committed() && !s'.state.Writing() && s'.threads[t] == Idle
  {
    assert ThreadOk(s, s.threads[t]);
    hide NoLostUpdate;
  }

  /** Mutual exclusion: at most one guard is live, and one is live exactly while the state is a
      Writing state. */
  lemma GuardsAreExclusive(run: seq<System>, k: nat)
    requires Interleaving(run) && k < |run|
    ensures forall t, u | t in run[k].threads && u in run[k].threads
                          && run[k].threads[t].Holding() && run[k].threads[u].Holding() :: t == u
    ensures run[k].state.Writing() <==> exists t :: t in run[k].threads && run[k].threads[t].Holding()
  {
    RunInv(run, k);
  }

  /** No update is lost: each commit is its writer's edits on top of the commit just before it, and
      readers are pointed at the last one. */
  lemma CommitsBuildOnEachOther(run: seq<System>, k: nat)
    requires Interleaving(run) && k < |run|
    ensures
      var s := run[k];
      && |s.history| == |s.log| + 1
      && run[0].history == [s.history[0]]
      && (forall c | 0 <= c < |s.log| :: s.history[c + 1] == ApplyEdits(s.history[c], s.log[c]))
      && s.Buffer(s.state.ReadIndex()) == s.history[|s.log|]
  {
    RunInv(run, k);
    HistoryGrows(run, 0, k);
  }

  /** The read inside `try_write` never loops: its version check always passes, whatever the readers
      do, and the buffer to be written starts as a copy of the last commit. */
  lemma GuardReadNeverRetries(run: seq<System>, k: nat, t: Tid)
    requires Interleaving(run) && k < |run|
    requires InCheckVersion(run[k], t) && run[k].threads[t].role.Guard?
    ensures run[k].state.Writing()
    ensures Step(run[k], t, Tick).threads[t] == Filling(run[k].state.WriteIndex(), run[k].Committed(), 0)
  {
    RunInv(run, k);
    assert ThreadOk(run[k], run[k].threads[t]);
  }

  // ---------------------------------------------------------------- when `try_write` refuses

  /** The read index tells the parity of the number of commits. */
  predicate Parity(s: System) {
    s.state.ReadIndex().Zero? <==> |s.history| % 2 == 1
  }

  lemma StepParity(s: System, t: Tid, a: Action)
    requires Inv(s) && Parity(s) && t in s.threads
    ensures Parity(Step(s, t, a))
  {
    hide NoLostUpdate, Shape, ThreadOk;
    assert s.threads[t].Holding() ==> s.state.Writing() && s.threads[t].GuardIndex() == s.state.WriteIndex();
  }

  lemma {:induction false} RunParity(run: seq<System>, k: nat)
    requires Interleaving(run) && k < |run|
    ensures Parity(run[k])
  {
    if k > 0 {
      RunParity(run, k - 1);
      RunInv(run, k - 1);
      hide Inv;
      assert Succ(run[k - 1], run[k - 1 + 1]);
      var t, a :| t in run[k - 1].threads && run[k] == Step(run[k - 1], t, a);
      StepParity(run[k - 1], t, a);
    }
  }

  /** Thread `t` fails its first exchange in `run[i]` and makes its second in `run[j]`. */
  predicate Tried(run: seq<System>, t: Tid, i: nat, j: nat) {
    && i < j < |run|
    && t in run[i].threads && run[i].threads[t] == FirstCas && !run[i].state.WriteIdleRead0?
    && t in run[j].threads && run[j].threads[t] == SecondCas
  }

  predicate Refused(run: seq<System>, t: Tid, i: nat, j: nat) {
    Tried(run, t, i, j) && !run[j].state.WriteIdleRead1?
  }

  /** `try_write` refuses exactly when a guard is live at its second exchange or the read index is Zero
      there, which the index at the first exchange and the parity of the commits between the two decide;
      with no guard live at either, it takes an odd number of commits in between. */
  lemma RefusedIff(run: seq<System>, t: Tid, i: nat, j: nat)
    requires Interleaving(run) && Tried(run, t, i, j)
    ensures Refused(run, t, i, j) <==>
              || run[j].state.Writing()
              || (run[i].state.ReadIndex().Zero? && (|run[j].history| - |run[i].history|) % 2 == 0)
              || (run[i].state.ReadIndex().One? && (|run[j].history| - |run[i].history|) % 2 == 1)
    ensures Refused(run, t, i, j) && !run[i].state.Writing() && !run[j].state.Writing() ==>
              (|run[j].history| - |run[i].history|) % 2 == 1
  {
    RunParity(run, i);
    RunParity(run, j);
    HistoryGrows(run, i, j);
  }

  function Last(run: seq<System>): System
    requires run != []
  {
    run[|run| - 1]
  }

  lemma Extend(run: seq<System>, t: Tid, a: Action) returns (longer: seq<System>)
    requires Interleaving(run) && t in Last(run).threads
    ensures Interleaving(longer) && longer == run + [Step(Last(run), t, a)]
    ensures Last(longer) == Step(Last(run), t, a)
  {
    longer := run + [Step(Last(run), t, a)];
    forall k | 0 <= k < |longer| - 1 ensures Succ(longer[k], longer[k + 1]) {
      if k < |run| - 1 {
        assert Succ(run[k], run[k + 1]);
      }
    }
  }

  /** Thread `t` takes the guard while `u` stands still. */
  lemma Locked(run: seq<System>, t: Tid, u: Tid) returns (longer: seq<System>)
    requires Interleaving(run) && t != u && t in Last(run).threads && u in Last(run).threads
    requires Last(run).threads[t] == Idle && !Last(run).state.Writing()
    ensures Interleaving(longer) && run <= longer && t in Last(longer).threads && u in Last(longer).threads
    ensures Last(longer).state == Last(run).state.Next() && Last(longer).threads[u] == Last(run).threads[u]
    ensures Last(longer).threads[t] == Reading(LoadState, Guard(Last(longer).state.WriteIndex()))
    ensures Last(longer).history == Last(run).history
  {
    assert run != [];
    hide Interleaving;
    longer := Extend(run, t, TryWrite);
    longer := Extend(longer, t, Tick);
    if Last(run).state.WriteIdleRead1? {
      longer := Extend(longer, t, Tick);
    }
  }

  /** The guard reads an empty value while `u` stands still. */
  lemma Filled(run: seq<System>, t: Tid, u: Tid) returns (longer: seq<System>)
    requires Interleaving(run) && t != u && t in Last(run).threads && u in Last(run).threads
    requires Last(run).state.Writing()
    requires Last(run).threads[t] == Reading(LoadState, Guard(Last(run).state.WriteIndex()))
    requires run[0].history == [[]]
    ensures Interleaving(longer) && run <= longer && t in Last(longer).threads && u in Last(longer).threads
    ensures Last(longer).state == Last(run).state && Last(longer).threads[u] == Last(run).threads[u]
    ensures Last(longer).threads[t] == Filling(Last(run).state.WriteIndex(), [], 0)
  {
    longer := Extend(run, t, Tick);
    longer := Extend(longer, t, Tick);
    EmptyBuffers(longer);
    longer := Extend(longer, t, Tick);
    GuardReadNeverRetries(longer, |longer| - 1, t);
    EmptyBuffers(longer);
    hide Interleaving;
    longer := Extend(longer, t, Tick);
  }

  /** The guard is dropped unedited while `u` stands still. */
  lemma Dropped(run: seq<System>, t: Tid, u: Tid) returns (longer: seq<System>)
    requires Interleaving(run) && t != u && t in Last(run).threads && u in Last(run).threads
    requires Last(run).state.Writing() && Last(run).threads[t] == Filling(Last(run).state.WriteIndex(), [], 0)
    ensures Interleaving(longer) && run <= longer && t in Last(longer).threads && u in Last(longer).threads
    ensures Last(longer).state == Last(run).state.Next() && Last(longer).threads[u] == Last(run).threads[u]
    ensures Last(longer).threads[t] == Idle
  {
    assert run != [];
    hide Interleaving;
    longer := Extend(run, t, Tick);
    longer := Extend(longer, t, Drop);
    longer := Extend(longer, t, Tick);
  }

  lemma EmptyBuffers(run: seq<System>)
    requires Interleaving(run) && run[0].history == [[]]
    ensures Last(run).Buffer(Zero) == [] == Last(run).Buffer(One) && Last(run).Committed() == []
  {
    RunInv(run, |run| - 1);
    HistoryGrows(run, 0, |run| - 1);
  }

  /** Thread `t` writes from start to end while `u` stands still. */
  lemma Wrote(run: seq<System>, t: Tid, u: Tid) returns (longer: seq<System>)
    requires Interleaving(run) && run[0].history == [[]]
    requires t != u && t in Last(run).threads && u in Last(run).threads
    requires Last(run).threads[t] == Idle && !Last(run).state.Writing()
    ensures Interleaving(longer) && run <= longer && t in Last(longer).threads && u in Last(longer).threads
    ensures Last(longer).state == Last(run).state.Next().Next() && Last(longer).threads[u] == Last(run).threads[u]
    ensures Last(longer).threads[t] == Idle
  {
    assert run != [];
    hide Interleaving;
    longer := Locked(run, t, u);
    longer := Filled(longer, t, u);
    longer := Dropped(longer, t, u);
  }

  lemma StartOfRun(s: System)
    requires s == Init([], {0, 1})
    ensures Interleaving([s]) && s.history == [[]] && 0 in s.threads && 1 in s.threads
    ensures s.threads[0] == Idle == s.threads[1] && s.state == WriteIdleRead0
  {
  }

  /** A read that nobody disturbs: thread `t` alone takes the steps of one `read`, one per atomic access and
      per word, and returns the committed value; the shared words stay as they are. */
  lemma UndisturbedRead(run: seq<System>, t: Tid) returns (longer: seq<System>)
    requires Interleaving(run) && t in Last(run).threads && Last(run).threads[t] == Idle
    ensures Interleaving(longer) && run <= longer && |longer| == |run| + 5 + |Last(run).Committed()|
    ensures t in Last(longer).threads && Last(longer).threads[t].Returned?
    ensures Last(longer).threads[t].value == Last(run).Committed() && Last(longer).threads[t].between == 0
    ensures Last(longer) == Last(run).Set(t, Last(longer).threads[t])
  {
    var s := Last(run);
    RunInv(run, |run| - 1);
    assert s.Buffer(s.state.ReadIndex()) == s.Committed() && s.history != [];
    hide Interleaving, Inv;
    longer := Began(run, t);
    longer := Copied(longer, t, s, []);
    longer := Extend(longer, t, Tick);
    longer := Extend(longer, t, Tick);
    hide Step;
  }

  lemma Began(run: seq<System>, t: Tid) returns (longer: seq<System>)
    requires Interleaving(run) && run != [] && t in Last(run).threads && Last(run).threads[t] == Idle
    ensures Interleaving(longer) && longer != [] && run <= longer && |longer| == |run| + 3
    ensures Last(longer) ==
            Last(run).Set(t, Reading(Copying(Last(run).state, Last(run).version, Last(run).bumps, []), Caller))
  {
    hide Interleaving;
    longer := Extend(run, t, Read);
    longer := Extend(longer, t, Tick);
    longer := Extend(longer, t, Tick);
    assert Last(longer).threads ==
           Last(run).threads[t := Reading(Copying(Last(run).state, Last(run).version, Last(run).bumps, []), Caller)];
  }

  lemma {:induction false} Copied(run: seq<System>, t: Tid, s: System, got: Value) returns (longer: seq<System>)
    requires Interleaving(run) && run != [] && t in s.threads && Inv(s) && got <= s.Committed()
    requires Last(run) == s.Set(t, Reading(Copying(s.state, s.version, s.bumps, got), Caller))
    ensures Interleaving(longer) && longer != [] && run <= longer && |longer| == |run| + |s.Committed()| - |got|
    ensures Last(longer) == s.Set(t, Reading(Copying(s.state, s.version, s.bumps, s.Committed()), Caller))
    decreases |s.Committed()| - |got|
  {
    longer := run;
    assert s.Buffer(s.state.ReadIndex()) == s.Committed();
    hide Interleaving, Inv;
    if |got| < |s.Committed()| {
      longer := Extend(run, t, Tick);
      longer := Copied(longer, t, s, got + [s.Committed()[|got|]]);
    } else {
      assert got == s.Committed();
    }
  }

  /** `try_write` may refuse although no guard is live at either of its exchanges. */
  lemma SpuriousRefusal()
    ensures exists run: seq<System>, t: Tid, i: nat, j: nat :: Interleaving(run) && Refused(run, t, i, j) &&
              !run[i].state.Writing() && !run[j].state.Writing()
  {
    hide Interleaving, Init;
    var run := [Init([], {0, 1})];
    StartOfRun(run[0]);
    run := Wrote(run, 1, 0);
    run := Extend(run, 0, TryWrite);
    var i, atFirst := |run| - 1, Last(run);
    assert atFirst.threads[0] == FirstCas && atFirst.state.WriteIdleRead1?;
    run := Extend(run, 0, Tick);
    assert Last(run).threads[0] == SecondCas && Last(run).state == atFirst.state;
    hide Step;
    run := Wrote(run, 1, 0);
    var j := |run| - 1;
    run := Extend(run, 0, Tick);
    assert run[i] == atFirst;
    assert Refused(run, 0, i, j);
  }
}
