/** The shared configuration of `logic/active_config.rs`: an active value pinned by counted bindings, and
    a pending value promoted when the last binding is dropped. */
module ActiveConfig {
  import opened Options

  // ----- What callers may rely on -----

  datatype Op<T> = Acquire | Clone | Drop | SetPending(cfg: Option<T>)

  /** The contract in terms of history only: the last value published, the value that was the last one
      published when no binding was live most recently, and the number of live bindings. */
  datatype Promise<T> = Promise(latest: Option<T>, settled: Option<T>, bindings: nat)

  /** Cloning and dropping need a binding; without one they do not occur. */
  function Apply<T>(p: Promise<T>, op: Op<T>): Promise<T> {
    var q :=
      match op
      case Acquire => if p.settled.Some? then p.(bindings := p.bindings + 1) else p
      case Clone => if p.bindings > 0 then p.(bindings := p.bindings + 1) else p
      case Drop => if p.bindings > 0 then p.(bindings := p.bindings - 1) else p
      case SetPending(cfg) => p.(latest := cfg);
    if q.bindings == 0 then q.(settled := q.latest) else q
  }

  function After<T>(ops: seq<Op<T>>): Promise<T> {
    if ops == [] then Promise(None, None, 0) else Apply(After(ops[..|ops| - 1]), ops[|ops| - 1])
  }

  /** The last value published. */
  function Published<T>(ops: seq<Op<T>>): Option<T> {
    if ops == [] then None
    else if ops[|ops| - 1].SetPending? then ops[|ops| - 1].cfg
    else Published(ops[..|ops| - 1])
  }

  /** The length of the longest history prefix after which no binding was live. */
  function LastIdle<T>(ops: seq<Op<T>>): (n: nat)
    ensures n <= |ops| && After(ops[..n]).bindings == 0
    ensures forall m | n < m <= |ops| :: After(ops[..m]).bindings > 0
  {
    assert ops[..|ops|] == ops;
    if ops == [] || After(ops).bindings == 0 then |ops|
    else
      var init := ops[..|ops| - 1];
      assert forall m | 0 <= m <= |init| :: init[..m] == ops[..m];
      LastIdle(init)
  }

  /** While bindings are live, readers keep the value published last before the first of them was made;
      once none is, they get the value published last of all. */
  lemma {:induction false} SettledIsPublishedWhenIdle<T>(ops: seq<Op<T>>)
    ensures After(ops).latest == Published(ops)
    ensures After(ops).settled == Published(ops[..LastIdle(ops)])
    ensures After(ops).bindings == 0 ==> After(ops).settled == Published(ops)
    decreases |ops|
  {
    if ops != [] {
      var init := ops[..|ops| - 1];
      SettledIsPublishedWhenIdle(init);
      if After(ops).bindings == 0 {
        assert ops[..LastIdle(ops)] == ops;
      } else {
        assert ops[..LastIdle(init)] == init[..LastIdle(init)];
      }
    }
  }

  // ----- The implementation -----

  /** A binding: the holder's active value, copied. */
  class ConfigInUse<T> {
    const holder: ActiveConfig<T>
    const cfg: T

    constructor (holder: ActiveConfig<T>, cfg: T)
      ensures this.holder == holder && this.cfg == cfg
    {
      this.holder, this.cfg := holder, cfg;
    }
  }

  class ActiveConfig<T> {
    var active: Option<T>
    var pending: Option<T>
    var pendingSet: bool
    var inUseCount: nat

    ghost var live: set<ConfigInUse<T>>
    ghost var history: seq<Op<T>>

    /** The count is the number of live bindings, each of which holds the active value; a pending value
        exists only while a binding is live; what the history promises is what the fields hold. */
    ghost predicate Valid()
      reads this
    {
      && inUseCount == |live|
      && (forall b <- live :: b.holder == this && active == Some(b.cfg))
      && (pendingSet ==> live != {})
      && (!pendingSet ==> pending == None)
      && After(history) == Promise(if pendingSet then pending else active, active, |live|)
    }

    constructor ()
      ensures Valid() && live == {} && history == [] && active == None
    {
      active, pending, pendingSet, inUseCount := None, None, false, 0;
      live, history := {}, [];
    }

    ghost method Record(op: Op<T>)
      modifies this`history
      ensures history == old(history) + [op]
      ensures After(history) == Apply(After(old(history)), op)
    {
      history := history + [op];
      assert history[..|history| - 1] == old(history);
    }

    method TryPromote()
      requires !pendingSet ==> pending == None
      modifies this`active, this`pending, this`pendingSet
      ensures if inUseCount == 0 && old(pendingSet) then active == old(pending) && !pendingSet && pending == None
              else active == old(active) && pendingSet == old(pendingSet) && pending == old(pending)
    {
      if inUseCount == 0 && pendingSet {
        active := pending;
        pending := None;
        pendingSet := false;
      }
    }

    method Acquire() returns (b: Option<ConfigInUse<T>>)
      requires Valid()
      modifies this
      ensures Valid() && history == old(history) + [Op.Acquire]
      ensures active == old(active) && pending == old(pending) && pendingSet == old(pendingSet)
      ensures b.None? <==> active.None?
      ensures b.None? ==> live == old(live)
      ensures b.Some? ==> fresh(b.value) && b.value.cfg == active.value && live == old(live) + {b.value}
    {
      Record(Op.Acquire);
      if active.None? {
        return None;
      }
      inUseCount := inUseCount + 1;
      var binding := new ConfigInUse(this, active.value);
      live := live + {binding};
      return Some(binding);
    }

    /** `ConfigInUse::clone` */
    method Clone(b: ConfigInUse<T>) returns (c: ConfigInUse<T>)
      requires Valid() && b in live
      modifies this
      ensures Valid() && history == old(history) + [Op.Clone]
      ensures active == old(active) && pending == old(pending) && pendingSet == old(pendingSet)
      ensures fresh(c) && c.cfg == b.cfg && live == old(live) + {c}
    {
      Record(Op.Clone);
      inUseCount := inUseCount + 1;
      c := new ConfigInUse(this, b.cfg);
      live := live + {c};
    }

    /** `ConfigInUse::drop`: the last one to go lets the pending value in. */
    method Drop(b: ConfigInUse<T>)
      requires Valid() && b in live
      modifies this
      ensures Valid() && history == old(history) + [Op.Drop]
      ensures live == old(live) - {b}
      ensures live == {} && old(pendingSet) ==> active == old(pending)
      ensures live != {} || !old(pendingSet) ==> active == old(active)
      ensures live != {} ==> pending == old(pending) && pendingSet == old(pendingSet)
      ensures live == {} ==> !pendingSet
    {
      Record(Op.Drop);
      inUseCount := inUseCount - 1;
      live := live - {b};
      TryPromote();
    }

    method SetPending(cfg: Option<T>)
      requires Valid()
      modifies this
      ensures Valid() && history == old(history) + [Op.SetPending(cfg)]
      ensures live == old(live)
      ensures if live == {} then active == cfg && !pendingSet
              else active == old(active) && pendingSet && pending == cfg
    {
      Record(Op.SetPending(cfg));
      pending := cfg;
      pendingSet := true;
      TryPromote();
    }
  }
}
