/** Boot statistics in battery-backed registers, `drivers/boot_stats.rs`: 28 bits of count and 4 bits of
    flag per register, updated in place at every boot. */
module BootStats {
  import opened Options
  import opened Numbers

  type u32 = n: nat | n < 0x1_0000_0000

  /** One more than `COUNT_MASK`. */
  const COUNTS: nat := 0x1000_0000
  const FLAG: u32 := 0xB000_0000

  // Register numbers, the enum `Stat`
  const UPTIME_TOTAL: nat := 0
  const UPTIME_CURRENT: nat := 1
  const BOOT: nat := 2
  const POR: nat := 3
  const WDT: nat := 4
  const PANIC: nat := 5
  const FAULT: nat := 6
  const STATS: nat := 7

  datatype BootReason = Unknown | PowerOn | Software | HardFault | Watchdog | Panic | Loop

  datatype Stats = Stats(
    bootReason: BootReason, uptimeTotal: nat, bootTotal: nat,
    porTotal: nat, wdtTotal: nat, panicTotal: nat, faultTotal: nat)

  /** `raw & COUNT_MASK` */
  function Count(raw: u32): nat { raw % COUNTS }

  /** `raw & FLAG_MASK` */
  function FlagBits(raw: u32): nat { raw / COUNTS * COUNTS }

  predicate Flagged(raw: u32) { FlagBits(raw) != 0 }

  function WithFlag(raw: u32): u32 { Count(raw) + FLAG }

  function Incremented(raw: u32, delta: u32): u32 { Min(Count(raw) + delta, COUNTS - 1) + FlagBits(raw) }

  // ----- The registers, in place -----

  method SetFlag(regs: array<u32>, stat: nat)
    requires stat < regs.Length
    modifies regs
    ensures regs[..] == old(regs[..])[stat := WithFlag(old(regs[stat]))]
    ensures Flagged(regs[stat]) && Count(regs[stat]) == Count(old(regs[stat]))
  {
    var prev := regs[stat];
    regs[stat] := prev % COUNTS + FLAG;
  }

  method IncrementBy(regs: array<u32>, stat: nat, delta: u32) returns (count: nat)
    requires stat < regs.Length
    modifies regs
    ensures regs[..] == old(regs[..])[stat := Incremented(old(regs[stat]), delta)]
    ensures count == Count(regs[stat]) == Min(Count(old(regs[stat])) + delta, COUNTS - 1)
    ensures FlagBits(regs[stat]) == FlagBits(old(regs[stat]))
  {
    var prev := regs[stat];
    var sum := prev % COUNTS + delta;
    count := if sum > COUNTS - 1 then COUNTS - 1 else sum;
    regs[stat] := count + prev / COUNTS * COUNTS;
  }

  type Registers = s: seq<u32> | |s| >= STATS witness seq(STATS, _ => 0)

  const ZEROED: seq<u32> := [FLAG, FLAG, 0, 0, 0, 0, 0]

  function ResetOf(regs: Registers): Registers { ZEROED + regs[STATS..] }

  method Reset(regs: array<u32>) returns (ok: bool)
    modifies regs
    ensures ok <==> regs.Length >= STATS
    ensures ok ==> regs[..] == ResetOf(old(regs[..]))
    ensures !ok ==> regs[..] == old(regs[..])
  {
    if regs.Length < STATS {
      return false;
    }
    for i := 0 to STATS
      invariant forall k | 0 <= k < i :: regs[k] == 0
      invariant forall k | i <= k < regs.Length :: regs[k] == old(regs[k])
    {
      regs[i] := 0;
    }
    regs[UPTIME_TOTAL] := FLAG;
    regs[UPTIME_CURRENT] := FLAG;
    return true;
  }

  // ----- One boot, as a function of the registers -----

  /** The registers after the check of the uptime markers. */
  function Checked(regs: Registers): Registers {
    var current, total := FlagBits(regs[UPTIME_CURRENT]) == FLAG, FlagBits(regs[UPTIME_TOTAL]) == FLAG;
    if !current && !total then ResetOf(regs)
    else if !current then regs[UPTIME_CURRENT := FLAG]
    else if !total then regs[UPTIME_TOTAL := FLAG]
    else regs
  }

  function Detected(regs: Registers, default: BootReason): BootReason {
    if Flagged(regs[FAULT]) then HardFault
    else if Flagged(regs[PANIC]) then Panic
    else if Flagged(regs[WDT]) then Watchdog
    else if Flagged(regs[POR]) then PowerOn
    else default
  }

  /** The register that counts a reason; reasons without one of their own share the boot counter. */
  function Counter(reason: BootReason): nat {
    match reason
    case PowerOn => POR
    case Watchdog => WDT
    case Panic => PANIC
    case HardFault => FAULT
    case _ => BOOT
  }

  /** How often a reason may occur before it counts as a boot loop. */
  function Threshold(reason: BootReason): nat {
    match reason
    case PowerOn => 20
    case Software => 30
    case Unknown => 10
    case _ => 5
  }

  /** The registers once the previous session is added to the total and the boot counted. */
  function Tallied(regs: Registers): Registers {
    var r := Checked(regs);
    r[UPTIME_TOTAL := Incremented(r[UPTIME_TOTAL], Count(r[UPTIME_CURRENT]))]
     [UPTIME_CURRENT := FLAG]
     [BOOT := Incremented(r[BOOT], 1)]
  }

  /** The registers with the boot also counted under its reason, whose flag is cleared. */
  function Attributed(r: Registers, reason: BootReason): Registers {
    var c := Counter(reason);
    if c == BOOT then r else r[c := Min(Count(r[c]) + 1, COUNTS - 1)]
  }

  predicate LoopFound(r: Registers, reason: BootReason) {
    reason.Loop? || Count(r[Counter(reason)]) > Threshold(reason)
  }

  function Report(r: Registers, reason: BootReason): Stats {
    Stats(reason, Count(r[UPTIME_TOTAL]), Count(r[BOOT]),
          Count(r[POR]), Count(r[WDT]), Count(r[PANIC]), Count(r[FAULT]))
  }

  datatype Booted = Booted(regs: Registers, stats: Stats)

  function Boot(regs: Registers, default: BootReason): Booted {
    var r := Tallied(regs);
    var reason := Detected(r, default);
    var counted := Attributed(r, reason);
    if Count(r[UPTIME_TOTAL]) >= 1800 then Booted(ResetOf(r), Report(r, reason))
    else if LoopFound(counted, reason) then Booted(ResetOf(counted), Report(counted, Loop))
    else Booted(counted, Report(counted, reason))
  }

  /** The first half of `try_from_registers_or`: check the markers, move the session's uptime to the
      total, count the boot. */
  method Tally(regs: array<u32>) returns (uptimeTotal: nat, bootTotal: nat)
    requires regs.Length >= STATS
    modifies regs
    ensures regs[..] == Tallied(old(regs[..]))
    ensures uptimeTotal == Count(regs[UPTIME_TOTAL]) && bootTotal == Count(regs[BOOT])
  {
    var uptimePrevFlag := FlagBits(regs[UPTIME_CURRENT]);
    var uptimeTotalFlag := FlagBits(regs[UPTIME_TOTAL]);
    var corruptFields := 0;
    if uptimePrevFlag != FLAG {
      corruptFields := corruptFields + 1;
      regs[UPTIME_CURRENT] := FLAG;
    }
    if uptimeTotalFlag != FLAG {
      corruptFields := corruptFields + 1;
      regs[UPTIME_TOTAL] := FLAG;
    }
    if corruptFields > 1 {
      var _ := Reset(regs);
    }
    ghost var r := Checked(old(regs[..]));
    assert regs[..] == r;
    var uptimePrev := Count(regs[UPTIME_CURRENT]);
    uptimeTotal := IncrementBy(regs, UPTIME_TOTAL, uptimePrev);
    regs[UPTIME_CURRENT] := FLAG;
    bootTotal := IncrementBy(regs, BOOT, 1);
  }

  /** The `match` of `try_from_registers_or`: count the boot under its reason and look for a loop. */
  method Attribute(regs: array<u32>, reason: BootReason, bootTotal: nat) returns (loopFound: bool)
    requires regs.Length >= STATS && bootTotal == Count(regs[BOOT])
    modifies regs
    ensures regs[..] == Attributed(old(regs[..]), reason)
    ensures loopFound == LoopFound(regs[..], reason)
  {
    match reason {
      case PowerOn =>
        var porTotal := Min(Count(regs[POR]) + 1, COUNTS - 1);
        regs[POR] := porTotal;
        loopFound := porTotal > 20;
      case Software => loopFound := bootTotal > 30;
      case HardFault =>
        var faultTotal := Min(Count(regs[FAULT]) + 1, COUNTS - 1);
        regs[FAULT] := faultTotal;
        loopFound := faultTotal > 5;
      case Watchdog =>
        var wdtTotal := Min(Count(regs[WDT]) + 1, COUNTS - 1);
        regs[WDT] := wdtTotal;
        loopFound := wdtTotal > 5;
      case Panic =>
        var panicTotal := Min(Count(regs[PANIC]) + 1, COUNTS - 1);
        regs[PANIC] := panicTotal;
        loopFound := panicTotal > 5;
      case Unknown => loopFound := bootTotal > 10;
      case Loop => loopFound := true;
    }
  }

  /** `try_from_registers_or` */
  method TryFromRegistersOr(regs: array<u32>, default: BootReason) returns (stats: Option<Stats>)
    modifies regs
    ensures stats.None? <==> regs.Length < STATS
    ensures stats.None? ==> regs[..] == old(regs[..])
    ensures stats.Some? ==> Booted(regs[..], stats.value) == Boot(old(regs[..]), default)
  {
    if regs.Length < STATS {
      return None;
    }
    hide Tallied, Attributed, LoopFound, Count, FlagBits, ResetOf;
    var uptimeTotal, bootTotal := Tally(regs);
    var bootReason :=
      if Flagged(regs[FAULT]) then HardFault
      else if Flagged(regs[PANIC]) then Panic
      else if Flagged(regs[WDT]) then Watchdog
      else if Flagged(regs[POR]) then PowerOn
      else default;
    ghost var r := regs[..];
    assert bootReason == Detected(r, default);
    var loopFound := false;
    if uptimeTotal < 1800 {
      loopFound := Attribute(regs, bootReason, bootTotal);
    }
    if loopFound {
      bootReason := Loop;
    }
    stats := Some(Stats(bootReason, Count(regs[UPTIME_TOTAL]), Count(regs[BOOT]),
                        Count(regs[POR]), Count(regs[WDT]), Count(regs[PANIC]), Count(regs[FAULT])));
    assert stats.value == Report(regs[..], bootReason);
    if uptimeTotal >= 1800 || loopFound {
      var _ := Reset(regs);
    }
  }

  // ----- The ledger: what the registers stand for -----

  /** What happens between two boots: uptime is added, a cause of reboot is marked. */
  datatype Event = Tick(delta: u32) | Mark(reason: BootReason)

  predicate HasFlag(reason: BootReason) { Counter(reason) != BOOT }

  /** A session that ends in a boot, with the reason that boot falls back on. */
  datatype Session = Session(events: seq<Event>, default: BootReason) {
    predicate Lawful() { forall e <- events :: e.Mark? ==> HasFlag(e.reason) }
  }

  /** The reports since the last reset, the uptime since then, and the marks not reported yet. */
  datatype Ledger = Ledger(reports: seq<BootReason>, uptime: nat, marks: set<BootReason>)

  const BLANK := Ledger([], 0, {})

  function Uptime(events: seq<Event>): nat {
    if events == [] then 0
    else
      var e := events[|events| - 1];
      Uptime(events[..|events| - 1]) + if e.Tick? then e.delta else 0
  }

  function Marked(events: seq<Event>): set<BootReason> {
    if events == [] then {}
    else
      var e := events[|events| - 1];
      Marked(events[..|events| - 1]) + if e.Mark? then {e.reason} else {}
  }

  function Highest(marks: set<BootReason>, default: BootReason): BootReason {
    if HardFault in marks then HardFault
    else if Panic in marks then Panic
    else if Watchdog in marks then Watchdog
    else if PowerOn in marks then PowerOn
    else default
  }

  /** How many of the reports count towards a loop of `reason`. */
  function Occurrences(reports: seq<BootReason>, reason: BootReason): nat {
    if HasFlag(reason) then multiset(reports)[reason] else |reports|
  }

  function Told(reports: seq<BootReason>, reason: BootReason, uptime: nat, boots: nat): Stats {
    var m := multiset(reports);
    Stats(reason, Min(uptime, COUNTS - 1), boots, m[PowerOn], m[Watchdog], m[Panic], m[HardFault])
  }

  datatype Entry = Entry(ledger: Ledger, stats: Stats)

  /** One session and its boot, in the ledger's terms. */
  function Enter(l: Ledger, s: Session): Entry {
    var uptime := l.uptime + Uptime(s.events);
    var marks := l.marks + Marked(s.events);
    var reason := Highest(marks, s.default);
    var reports := l.reports + [reason];
    if uptime >= 1800 then Entry(BLANK, Told(l.reports, reason, uptime, |reports|))
    else if reason.Loop? || Occurrences(reports, reason) > Threshold(reason) then
      Entry(BLANK, Told(reports, Loop, uptime, |reports|))
    else Entry(Ledger(reports, uptime, marks - {reason}), Told(reports, reason, uptime, |reports|))
  }

  /** A flag register holding a count and perhaps a mark. */
  predicate Holds(raw: u32, count: nat, mark: bool) {
    raw == count + if mark then FLAG else 0
  }

  /** The registers during a session that was up for `current`. */
  predicate Represents(regs: Registers, l: Ledger, current: nat) {
    var m := multiset(l.reports);
    && regs[UPTIME_TOTAL] == FLAG + l.uptime && l.uptime < 1800
    && regs[UPTIME_CURRENT] == FLAG + Min(current, COUNTS - 1)
    && regs[BOOT] == |l.reports| <= 30 + m[PowerOn] + m[Watchdog] + m[Panic] + m[HardFault]
    && Holds(regs[POR], m[PowerOn], PowerOn in l.marks) && m[PowerOn] <= 20
    && Holds(regs[WDT], m[Watchdog], Watchdog in l.marks) && m[Watchdog] <= 5
    && Holds(regs[PANIC], m[Panic], Panic in l.marks) && m[Panic] <= 5
    && Holds(regs[FAULT], m[HardFault], HardFault in l.marks) && m[HardFault] <= 5
  }

  function React(regs: Registers, e: Event): Registers {
    match e
    case Tick(delta) => regs[UPTIME_CURRENT := Incremented(regs[UPTIME_CURRENT], delta)]
    case Mark(reason) => regs[Counter(reason) := WithFlag(regs[Counter(reason)])]
  }

  function Reacted(regs: Registers, events: seq<Event>): Registers {
    if events == [] then regs else React(Reacted(regs, events[..|events| - 1]), events[|events| - 1])
  }

  lemma {:induction false} SessionRefines(regs: Registers, l: Ledger, events: seq<Event>)
    requires Represents(regs, l, 0) && forall e <- events :: e.Mark? ==> HasFlag(e.reason)
    ensures Represents(Reacted(regs, events), l.(marks := l.marks + Marked(events)), Uptime(events))
    decreases |events|
  {
    if events == [] {
      assert l.marks + Marked(events) == l.marks;
    } else {
      var init, e := events[..|events| - 1], events[|events| - 1];
      SessionRefines(regs, l, init);
      EventRefines(Reacted(regs, init), l.(marks := l.marks + Marked(init)), Uptime(init), e);
      assert l.marks + Marked(events) == l.marks + Marked(init) + if e.Mark? then {e.reason} else {};
    }
  }

  lemma EventRefines(regs: Registers, l: Ledger, current: nat, e: Event)
    requires Represents(regs, l, current) && (e.Mark? ==> HasFlag(e.reason))
    ensures Represents(React(regs, e), l.(marks := l.marks + if e.Mark? then {e.reason} else {}),
                       current + if e.Tick? then e.delta else 0)
  {
    match e
    case Tick(delta) =>
      TickAdds(regs[UPTIME_CURRENT], current, delta);
      assert l.marks + {} == l.marks;
      hide Incremented, Holds;
    case Mark(reason) => MarkRefines(regs, l, current, reason);
  }

  lemma TickAdds(raw: u32, current: nat, delta: u32)
    requires raw == FLAG + Min(current, COUNTS - 1)
    ensures Incremented(raw, delta) == FLAG + Min(current + delta, COUNTS - 1)
  {
  }

  lemma MarkSets(raw: u32, count: nat, mark: bool)
    requires Holds(raw, count, mark) && count < COUNTS
    ensures Holds(WithFlag(raw), count, true)
  {
  }

  lemma MarkRefines(regs: Registers, l: Ledger, current: nat, reason: BootReason)
    requires Represents(regs, l, current) && HasFlag(reason)
    ensures Represents(React(regs, Mark(reason)), l.(marks := l.marks + {reason}), current)
  {
    var m := multiset(l.reports);
    MarkSets(regs[Counter(reason)], m[reason], reason in l.marks);
    hide Holds, WithFlag;
  }

  lemma TalliedMeans(regs: Registers, l: Ledger, current: nat)
    requires Represents(regs, l, current)
    ensures var r := Tallied(regs);
            && |r| == |regs| && forall k | POR <= k < |r| :: r[k] == regs[k]
    ensures var r := Tallied(regs);
            && r[UPTIME_TOTAL] == FLAG + Min(l.uptime + current, COUNTS - 1)
            && r[UPTIME_CURRENT] == FLAG && r[BOOT] == |l.reports| + 1
  {
  }

  lemma HoldsMeans(raw: u32, count: nat, mark: bool)
    requires Holds(raw, count, mark) && count < COUNTS
    ensures Count(raw) == count && (Flagged(raw) <==> mark)
  {
  }

  lemma CountOfFlagged(n: nat)
    requires n < COUNTS
    ensures Count(FLAG + n) == n == Count(n)
  {
  }

  /** What the flag registers hold, in the ledger's terms. */
  predicate FlagsHold(r: Registers, m: multiset<BootReason>, marks: set<BootReason>) {
    && Holds(r[POR], m[PowerOn], PowerOn in marks) && m[PowerOn] <= 21
    && Holds(r[WDT], m[Watchdog], Watchdog in marks) && m[Watchdog] <= 6
    && Holds(r[PANIC], m[Panic], Panic in marks) && m[Panic] <= 6
    && Holds(r[FAULT], m[HardFault], HardFault in marks) && m[HardFault] <= 6
  }

  lemma FlagsMean(r: Registers, m: multiset<BootReason>, marks: set<BootReason>, default: BootReason)
    requires FlagsHold(r, m, marks)
    ensures Detected(r, default) == Highest(marks, default)
    ensures Count(r[POR]) == m[PowerOn] && Count(r[WDT]) == m[Watchdog]
    ensures Count(r[PANIC]) == m[Panic] && Count(r[FAULT]) == m[HardFault]
  {
    HoldsMeans(r[POR], m[PowerOn], PowerOn in marks);
    HoldsMeans(r[WDT], m[Watchdog], Watchdog in marks);
    HoldsMeans(r[PANIC], m[Panic], Panic in marks);
    HoldsMeans(r[FAULT], m[HardFault], HardFault in marks);
  }

  lemma AttributedMeans(r: Registers, m: multiset<BootReason>, marks: set<BootReason>, reason: BootReason)
    requires FlagsHold(r, m, marks) && m[PowerOn] <= 20 && m[Watchdog] <= 5 && m[Panic] <= 5 && m[HardFault] <= 5
    ensures FlagsHold(Attributed(r, reason), m[reason := m[reason] + 1], marks - {reason})
  {
    FlagsMean(r, m, marks, Unknown);
    hide Count;
  }

  /** The time registers and the boot counter after the tally. */
  predicate TimesHold(r: Registers, uptime: nat, boots: nat) {
    && r[UPTIME_TOTAL] == FLAG + Min(uptime, COUNTS - 1)
    && r[UPTIME_CURRENT] == FLAG && r[BOOT] == boots < COUNTS
  }

  lemma ReportMeans(
    r: Registers, reports: seq<BootReason>, marks: set<BootReason>, reason: BootReason, uptime: nat, boots: nat)
    requires TimesHold(r, uptime, boots) && FlagsHold(r, multiset(reports), marks)
    ensures Report(r, reason) == Told(reports, reason, uptime, boots)
    ensures Count(r[UPTIME_TOTAL]) == Min(uptime, COUNTS - 1) && Count(r[BOOT]) == boots
  {
    FlagsMean(r, multiset(reports), marks, Unknown);
    CountOfFlagged(Min(uptime, COUNTS - 1));
    CountOfFlagged(boots);
    hide Count, FlagsHold;
  }

  lemma LoopMeans(r: Registers, reports: seq<BootReason>, marks: set<BootReason>, reason: BootReason, uptime: nat)
    requires TimesHold(r, uptime, |reports|) && FlagsHold(r, multiset(reports), marks)
    ensures LoopFound(r, reason) <==> reason.Loop? || Occurrences(reports, reason) > Threshold(reason)
  {
    FlagsMean(r, multiset(reports), marks, Unknown);
    CountOfFlagged(|reports|);
    hide Count, FlagsHold, Threshold;
  }

  lemma BlankIsRepresented(r: Registers)
    ensures Represents(ResetOf(r), BLANK, 0)
  {
  }

  /** Without a loop the thresholds bound every counter. */
  lemma CountsStayBounded(r: Registers, l: Ledger, marks: set<BootReason>, reason: BootReason, uptime: nat)
    requires var m := multiset(l.reports);
             && |l.reports| <= 30 + m[PowerOn] + m[Watchdog] + m[Panic] + m[HardFault]
             && m[PowerOn] <= 20 && m[Watchdog] <= 5 && m[Panic] <= 5 && m[HardFault] <= 5
    requires TimesHold(r, uptime, |l.reports| + 1) && uptime < 1800
    requires FlagsHold(r, multiset(l.reports + [reason]), marks)
    requires !reason.Loop? && Occurrences(l.reports + [reason], reason) <= Threshold(reason)
    ensures Represents(r, Ledger(l.reports + [reason], uptime, marks), 0)
  {
    var m := multiset(l.reports);
    assert multiset(l.reports + [reason]) == m[reason := m[reason] + 1];
    hide Holds;
  }

  /** The registers before and after the boot is attributed to its reason. */
  lemma StagesHold(regs: Registers, l: Ledger, marks: set<BootReason>, current: nat, reason: BootReason)
    requires Represents(regs, l.(marks := marks), current)
    ensures FlagsHold(Tallied(regs), multiset(l.reports), marks)
    ensures TimesHold(Tallied(regs), l.uptime + current, |l.reports| + 1)
    ensures FlagsHold(Attributed(Tallied(regs), reason), multiset(l.reports + [reason]), marks - {reason})
    ensures TimesHold(Attributed(Tallied(regs), reason), l.uptime + current, |l.reports| + 1)
  {
    var r, m := Tallied(regs), multiset(l.reports);
    TalliedMeans(regs, l.(marks := marks), current);
    hide Tallied, Holds;
    assert FlagsHold(r, m, marks) && TimesHold(r, l.uptime + current, |l.reports| + 1);
    AttributedMeans(r, m, marks, reason);
    assert multiset(l.reports + [reason]) == m[reason := m[reason] + 1];
    hide FlagsHold;
  }

  /** A boot does to the registers what it does to the ledger. */
  lemma BootRefines(regs: Registers, l: Ledger, s: Session, marks: set<BootReason>)
    requires marks == l.marks + Marked(s.events)
    requires Represents(regs, l.(marks := marks), Uptime(s.events))
    ensures Represents(Boot(regs, s.default).regs, Enter(l, s).ledger, 0)
    ensures Boot(regs, s.default).stats == Enter(l, s).stats
  {
    hide Tallied, Attributed, Count, Highest, Detected, FlagsHold, TimesHold, LoopFound, Occurrences,
         Report, Told, ResetOf, Uptime, Marked, Holds;
    var r, uptime := Tallied(regs), l.uptime + Uptime(s.events);
    var reason := Highest(marks, s.default);
    var reports, counted := l.reports + [reason], Attributed(r, reason);
    StagesHold(regs, l, marks, Uptime(s.events), reason);
    FlagsMean(r, multiset(l.reports), marks, s.default);
    ReportMeans(r, l.reports, marks, reason, uptime, |reports|);
    BlankIsRepresented(r);
    if uptime < 1800 {
      ReportMeans(counted, reports, marks - {reason}, reason, uptime, |reports|);
      ReportMeans(counted, reports, marks - {reason}, Loop, uptime, |reports|);
      LoopMeans(counted, reports, marks - {reason}, reason, uptime);
      BlankIsRepresented(counted);
      if !LoopFound(counted, reason) {
        CountsStayBounded(counted, l, marks - {reason}, reason, uptime);
      }
    }
  }

  datatype World = World(regs: Registers, stats: seq<Stats>)

  /** The registers and the reports after a number of sessions. */
  function Run(regs: Registers, sessions: seq<Session>): World {
    if sessions == [] then World(regs, [])
    else
      var w, s := Run(regs, sessions[..|sessions| - 1]), sessions[|sessions| - 1];
      var b := Boot(Reacted(w.regs, s.events), s.default);
      World(b.regs, w.stats + [b.stats])
  }

  datatype Account = Account(ledger: Ledger, stats: seq<Stats>)

  function Kept(sessions: seq<Session>): Account {
    if sessions == [] then Account(BLANK, [])
    else
      var a := Kept(sessions[..|sessions| - 1]);
      var e := Enter(a.ledger, sessions[|sessions| - 1]);
      Account(e.ledger, a.stats + [e.stats])
  }

  /** Neither uptime register carries the marker: the registers were never written, or lost power. */
  predicate Unmarked(regs: Registers) {
    FlagBits(regs[UPTIME_CURRENT]) != FLAG && FlagBits(regs[UPTIME_TOTAL]) != FLAG
  }

  function One(reason: BootReason, counted: BootReason): nat { if reason == counted then 1 else 0 }

  /** A boot on unmarked registers is a boot on reset ones, whatever they hold. */
  lemma UnmarkedBoot(regs: Registers, default: BootReason)
    requires Unmarked(regs)
    ensures Boot(regs, default) == Boot(ResetOf(regs), default)
  {
    var zeroed := ResetOf(regs);
    assert FlagBits(FLAG) == FLAG;
    assert Checked(regs) == zeroed == Checked(zeroed);
    assert Tallied(regs) == Tallied(zeroed);
    hide Tallied, ResetOf;
  }

  /** So it reports the reason it falls back on as the first boot, with no uptime and nothing else
      counted. */
  lemma UnmarkedBootReports(regs: Registers, default: BootReason)
    requires Unmarked(regs)
    ensures
      Boot(regs, default).stats ==
      Stats(default, 0, 1, One(default, PowerOn), One(default, Watchdog), One(default, Panic), One(default, HardFault))
  {
    var s := Session([], default);
    BlankIsRepresented(regs);
    FirstEntry(default);
    assert BLANK.marks + Marked(s.events) == {} && Uptime(s.events) == 0;
    hide Boot, Represents, Enter, ResetOf, Marked, Uptime;
    UnmarkedBoot(regs, default);
    BootRefines(ResetOf(regs), BLANK, s, {});
  }

  lemma FirstEntry(default: BootReason)
    ensures
      Enter(BLANK, Session([], default)).stats
      == Stats(default, 0, 1,
               One(default, PowerOn), One(default, Watchdog), One(default, Panic), One(default, HardFault))
  {
    assert BLANK.marks + Marked([]) == {} && Uptime([]) == 0;
    assert BLANK.reports + [default] == [default];
  }

  /** With one marker invalid only that uptime is lost: the boot is the one on the same registers with
      that one restarted, and reports the uptime in the other. */
  lemma OneMarkerInvalid(regs: Registers, default: BootReason)
    requires (FlagBits(regs[UPTIME_CURRENT]) == FLAG) != (FlagBits(regs[UPTIME_TOTAL]) == FLAG)
    ensures
      var current := FlagBits(regs[UPTIME_CURRENT]) == FLAG;
      var lost := if current then UPTIME_TOTAL else UPTIME_CURRENT;
      var kept := if current then UPTIME_CURRENT else UPTIME_TOTAL;
      && Boot(regs, default) == Boot(regs[lost := FLAG], default)
      && Boot(regs, default).stats.uptimeTotal == Count(regs[kept])
      && Boot(regs, default).stats.bootTotal == Min(Count(regs[BOOT]) + 1, COUNTS - 1)
  {
    var lost := if FlagBits(regs[UPTIME_CURRENT]) == FLAG then UPTIME_TOTAL else UPTIME_CURRENT;
    var mended := regs[lost := FLAG];
    assert FlagBits(FLAG) == FLAG && Count(FLAG) == 0;
    assert Checked(regs) == mended == Checked(mended);
    assert Tallied(regs) == Tallied(mended);
    TalliedCounts(mended);
    AttributedKeepsTimes(Tallied(regs), Detected(Tallied(regs), default));
    hide Tallied, Checked, Attributed, ResetOf, Count, FlagBits, Detected, LoopFound;
  }

  lemma TalliedCounts(regs: Registers)
    requires FlagBits(regs[UPTIME_CURRENT]) == FLAG && FlagBits(regs[UPTIME_TOTAL]) == FLAG
    ensures Count(Tallied(regs)[UPTIME_TOTAL]) ==
            Min(Count(regs[UPTIME_TOTAL]) + Count(regs[UPTIME_CURRENT]), COUNTS - 1)
    ensures Count(Tallied(regs)[BOOT]) == Min(Count(regs[BOOT]) + 1, COUNTS - 1)
  {
    IncrementCounts(regs[UPTIME_TOTAL], Count(regs[UPTIME_CURRENT]));
    IncrementCounts(regs[BOOT], 1);
    hide Incremented, Count;
  }

  lemma IncrementCounts(raw: u32, delta: u32)
    ensures Count(Incremented(raw, delta)) == Min(Count(raw) + delta, COUNTS - 1)
  {
  }

  lemma AttributedKeepsTimes(r: Registers, reason: BootReason)
    ensures Attributed(r, reason)[UPTIME_TOTAL] == r[UPTIME_TOTAL] && Attributed(r, reason)[BOOT] == r[BOOT]
  {
  }

  /** Over any number of boots, from a reset or from registers never written, the registers hold the
      ledger and report what the ledger tells. */
  lemma {:induction false} RunRefines(regs: Registers, sessions: seq<Session>)
    requires forall s <- sessions :: s.Lawful()
    requires regs == ResetOf(regs) || (Unmarked(regs) && sessions != [] && sessions[0].events == [])
    ensures Represents(Run(regs, sessions).regs, Kept(sessions).ledger, 0)
    ensures Run(regs, sessions).stats == Kept(sessions).stats
    decreases |sessions|
  {
    BlankIsRepresented(regs);
    hide Represents, Boot, Enter, ResetOf;
    if sessions != [] {
      var init, s := sessions[..|sessions| - 1], sessions[|sessions| - 1];
      assert s.Lawful();
      if init == [] {
        SessionRefines(ResetOf(regs), BLANK, s.events);
        BootRefines(Reacted(ResetOf(regs), s.events), BLANK, s, BLANK.marks + Marked(s.events));
        if regs != ResetOf(regs) {
          UnmarkedBoot(regs, s.default);
        }
      } else {
        assert init[0] == sessions[0];
        RunRefines(regs, init);
        var w, l := Run(regs, init), Kept(init).ledger;
        SessionRefines(w.regs, l, s.events);
        BootRefines(Reacted(w.regs, s.events), l, s, l.marks + Marked(s.events));
      }
    }
  }

  /** A boot that finds the total uptime unmarked goes on as if the ledger had none; every count and mark is
      kept. */
  lemma LostTotalRefines(regs: Registers, l: Ledger, s: Session, marks: set<BootReason>, x: u32)
    requires marks == l.marks + Marked(s.events) && FlagBits(x) != FLAG
    requires Represents(regs, l.(marks := marks), Uptime(s.events))
    ensures
      var b, e := Boot(regs[UPTIME_TOTAL := x], s.default), Enter(l.(uptime := 0), s);
      b.stats == e.stats && Represents(b.regs, e.ledger, 0)
  {
    var lost, mended := regs[UPTIME_TOTAL := x], regs[UPTIME_TOTAL := FLAG];
    RepresentedIsMarked(regs, l.(marks := marks), Uptime(s.events));
    assert Represents(mended, l.(marks := marks, uptime := 0), Uptime(s.events));
    hide Boot, Enter, Represents, FlagBits, Marked, Uptime;
    OneMarkerInvalid(lost, s.default);
    assert lost[UPTIME_TOTAL := FLAG] == mended;
    BootRefines(mended, l.(uptime := 0), s, marks);
  }

  /** One that finds the current uptime unmarked goes on as if the session had none. */
  lemma LostCurrentRefines(regs: Registers, l: Ledger, current: nat, default: BootReason, x: u32)
    requires Represents(regs, l, current) && FlagBits(x) != FLAG
    ensures
      var b, e := Boot(regs[UPTIME_CURRENT := x], default), Enter(l, Session([], default));
      b.stats == e.stats && Represents(b.regs, e.ledger, 0)
  {
    var lost, mended := regs[UPTIME_CURRENT := x], regs[UPTIME_CURRENT := FLAG];
    RepresentedIsMarked(regs, l, current);
    assert Represents(mended, l, 0);
    assert l.marks + Marked([]) == l.marks && Uptime([]) == 0;
    assert l.(marks := l.marks) == l;
    hide Boot, Enter, Represents, FlagBits, Marked, Uptime;
    OneMarkerInvalid(lost, default);
    assert lost[UPTIME_CURRENT := FLAG] == mended;
    BootRefines(mended, l, Session([], default), l.marks);
  }

  lemma RepresentedIsMarked(regs: Registers, l: Ledger, current: nat)
    requires Represents(regs, l, current)
    ensures FlagBits(regs[UPTIME_TOTAL]) == FLAG && FlagBits(regs[UPTIME_CURRENT]) == FLAG
  {
  }

  function TotalUptime(sessions: seq<Session>): nat {
    if sessions == [] then 0
    else TotalUptime(sessions[..|sessions| - 1]) + Uptime(sessions[|sessions| - 1].events)
  }

  function Reasons(stats: seq<Stats>): seq<BootReason> {
    seq(|stats|, i requires 0 <= i < |stats| => stats[i].bootReason)
  }

  /** Whether a boot cleared the statistics: a loop was found or the interval had passed. */
  predicate Clears(s: Stats) { s.bootReason.Loop? || s.uptimeTotal >= 1800 }

  /** The ledger is about the boots since the last one that cleared the statistics: its reports are theirs,
      its uptime is the sum of their sessions. */
  predicate Recent(sessions: seq<Session>, stats: seq<Stats>, l: Ledger) {
    && |l.reports| <= |sessions| == |stats|
    && var from := |sessions| - |l.reports|;
       && l.reports == Reasons(stats[from..])
       && l.uptime == TotalUptime(sessions[from..])
       && (forall i | from <= i < |stats| :: !Clears(stats[i]))
       && (from > 0 ==> Clears(stats[from - 1]))
  }

  lemma RecentGrows(sessions: seq<Session>, stats: seq<Stats>, l: Ledger, s: Session, t: Stats, next: Ledger)
    requires Recent(sessions, stats, l) && !Clears(t)
    requires next.reports == l.reports + [t.bootReason] && next.uptime == l.uptime + Uptime(s.events)
    ensures Recent(sessions + [s], stats + [t], next)
  {
    var from := |sessions| - |l.reports|;
    SuffixGrows(sessions, s, from);
    SuffixGrows(stats, t, from);
    TotalGrows(sessions[from..], s);
    ReasonsGrow(stats[from..], t);
    hide Clears, Uptime, TotalUptime, Reasons;
    var ss, ts := sessions + [s], stats + [t];
    assert |next.reports| == |l.reports| + 1 && |ss| - |next.reports| == from;
    forall i | from <= i < |ts| ensures !Clears(ts[i]) {
      assert i < |stats| ==> ts[i] == stats[i];
    }
    assert from > 0 ==> ts[from - 1] == stats[from - 1];
  }

  lemma SuffixGrows<T>(xs: seq<T>, x: T, from: nat)
    requires from <= |xs|
    ensures (xs + [x])[from..] == xs[from..] + [x]
  {
  }

  lemma TotalGrows(sessions: seq<Session>, s: Session)
    ensures TotalUptime(sessions + [s]) == TotalUptime(sessions) + Uptime(s.events)
  {
    assert (sessions + [s])[..|sessions|] == sessions;
  }

  lemma ReasonsGrow(stats: seq<Stats>, t: Stats)
    ensures Reasons(stats + [t]) == Reasons(stats) + [t.bootReason]
  {
  }

  lemma RecentHasEqualLengths(sessions: seq<Session>, stats: seq<Stats>, l: Ledger)
    requires Recent(sessions, stats, l)
    ensures |sessions| == |stats|
  {
  }

  lemma RecentStartsOver(sessions: seq<Session>, stats: seq<Stats>, l: Ledger)
    requires |sessions| == |stats| > 0 && Clears(stats[|stats| - 1]) && l.reports == [] && l.uptime == 0
    ensures Recent(sessions, stats, l)
  {
    assert sessions[|sessions|..] == [] && stats[|stats|..] == [];
  }

  lemma KeptStep(sessions: seq<Session>)
    ensures sessions == [] ==> Kept(sessions) == Account(BLANK, []) && Recent([], [], BLANK)
    ensures sessions != [] ==>
              var a, s := Kept(sessions[..|sessions| - 1]), sessions[|sessions| - 1];
              var e := Enter(a.ledger, s);
              Kept(sessions) == Account(e.ledger, a.stats + [e.stats])
  {
    hide Enter;
  }

  lemma {:induction false} LedgerIsRecent(sessions: seq<Session>)
    ensures Recent(sessions, Kept(sessions).stats, Kept(sessions).ledger)
    decreases |sessions|
  {
    hide Enter, Clears, Uptime, Recent, Kept;
    KeptStep(sessions);
    if sessions != [] {
      var init, s := sessions[..|sessions| - 1], sessions[|sessions| - 1];
      LedgerIsRecent(init);
      var a := Kept(init);
      var e := Enter(a.ledger, s);
      RecentHasEqualLengths(init, a.stats, a.ledger);
      LedgerGrows(a.ledger, s);
      if e.ledger.reports != [] {
        RecentGrows(init, a.stats, a.ledger, s, e.stats, e.ledger);
        assert init + [s] == sessions;
      } else {
        RecentStartsOver(sessions, a.stats + [e.stats], e.ledger);
      }
    }
  }

  lemma LedgerGrows(l: Ledger, s: Session)
    ensures var e := Enter(l, s);
            if e.ledger.reports == [] then Clears(e.stats) && e.ledger.uptime == 0
            else !Clears(e.stats) && e.ledger.reports == l.reports + [e.stats.bootReason] &&
                 e.ledger.uptime == l.uptime + Uptime(s.events)
  {
  }

  // ----- Marks left for a later boot -----

  predicate AllFlagged(marks: set<BootReason>) { forall m <- marks :: HasFlag(m) }

  lemma {:induction false} MarkedAreFlagged(events: seq<Event>)
    requires forall e <- events :: e.Mark? ==> HasFlag(e.reason)
    ensures AllFlagged(Marked(events))
    decreases |events|
  {
    if events != [] {
      MarkedAreFlagged(events[..|events| - 1]);
    }
  }

  lemma HighestIsMarked(marks: set<BootReason>, default: BootReason)
    requires AllFlagged(marks)
    ensures marks != {} ==> Highest(marks, default) in marks
    ensures marks == {} ==> Highest(marks, default) == default
  {
    if m :| m in marks {
      assert HasFlag(m);
    }
  }

  lemma RemovalLeaves(marks: set<BootReason>, r: BootReason)
    requires marks != {} ==> r in marks
    ensures marks - {r} != {} <==> |marks| >= 2
  {
    if marks != {} {
      assert |marks - {r}| == |marks| - 1;
      assert marks - {r} == {} <==> |marks - {r}| == 0;
    }
  }

  /** Whether the boot after a session clears the statistics, from the ledger and the session alone. */
  predicate WillClear(l: Ledger, s: Session) {
    var reason := Highest(l.marks + Marked(s.events), s.default);
    || l.uptime + Uptime(s.events) >= 1800
    || reason.Loop?
    || Occurrences(l.reports + [reason], reason) > Threshold(reason)
  }

  lemma ClearsIff(l: Ledger, s: Session)
    ensures Clears(Enter(l, s).stats) <==> WillClear(l, s)
  {
    hide Highest, Marked, Uptime, Occurrences, Threshold;
  }

  /** Exactly when a boot leaves a mark behind: the interval has not passed, no loop is found, and two or
      more marks were pending. What is left is every pending mark but the one reported. */
  lemma MarkIsLeftIff(l: Ledger, s: Session)
    requires AllFlagged(l.marks) && s.Lawful()
    ensures
      var e, marks := Enter(l, s), l.marks + Marked(s.events);
      && (e.ledger.marks != {} <==> !WillClear(l, s) && |marks| >= 2)
      && (!WillClear(l, s) ==>
            e.ledger.marks == marks - {e.stats.bootReason} && (marks != {} ==> e.stats.bootReason in marks))
      && AllFlagged(e.ledger.marks)
  {
    var marks := l.marks + Marked(s.events);
    MarkedAreFlagged(s.events);
    HighestIsMarked(marks, s.default);
    RemovalLeaves(marks, Highest(marks, s.default));
    ClearsIff(l, s);
    EnterMeans(l, s);
    hide Highest, Occurrences, Uptime, WillClear, Enter, Marked, Clears;
  }

  lemma EnterMeans(l: Ledger, s: Session)
    ensures
      var e, marks := Enter(l, s), l.marks + Marked(s.events);
      if Clears(e.stats) then e.ledger == BLANK
      else e.stats.bootReason == Highest(marks, s.default) && e.ledger.marks == marks - {e.stats.bootReason}
  {
    hide Highest, Marked, Uptime, Occurrences;
  }

  /** In every run from a reset only causes that have a flag are marked, so the condition above is the
      one for every boot of every run. */
  lemma {:induction false} KeptMarksAreFlagged(sessions: seq<Session>)
    requires forall s <- sessions :: s.Lawful()
    ensures AllFlagged(Kept(sessions).ledger.marks)
    decreases |sessions|
  {
    if sessions != [] {
      var init, s := sessions[..|sessions| - 1], sessions[|sessions| - 1];
      KeptMarksAreFlagged(init);
      assert s.Lawful();
      MarkIsLeftIff(Kept(init).ledger, s);
    }
  }

  /** The marks in the order boots report them. */
  function Ranked(marks: set<BootReason>): seq<BootReason> {
    (if HardFault in marks then [HardFault] else []) + (if Panic in marks then [Panic] else [])
    + (if Watchdog in marks then [Watchdog] else []) + (if PowerOn in marks then [PowerOn] else [])
  }

  lemma RankedStep(marks: set<BootReason>, default: BootReason)
    requires AllFlagged(marks) && marks != {}
    ensures Ranked(marks) == [Highest(marks, default)] + Ranked(marks - {Highest(marks, default)})
  {
    HighestIsMarked(marks, default);
  }

  /** The reports of the boots that follow a ledger. */
  function Following(l: Ledger, sessions: seq<Session>): (stats: seq<Stats>)
    ensures |stats| == |sessions|
    decreases |sessions|
  {
    if sessions == [] then []
    else
      var e := Enter(l, sessions[0]);
      [e.stats] + Following(e.ledger, sessions[1..])
  }

  lemma ReportsHighestRank(l: Ledger, s: Session)
    requires AllFlagged(l.marks) && s.Lawful() && Marked(s.events) == {} && l.marks != {}
    requires !Clears(Enter(l, s).stats)
    ensures var e := Enter(l, s);
            Ranked(l.marks) == [e.stats.bootReason] + Ranked(e.ledger.marks) && AllFlagged(e.ledger.marks)
  {
    assert l.marks + Marked(s.events) == l.marks;
    EnterMeans(l, s);
    hide Enter, Clears, Highest;
    RankedStep(l.marks, s.default);
  }

  /** Which boot reports a leftover mark: with nothing newly marked and nothing cleared, the marks are
      reported one per boot in order of rank, the mark of rank `j` by the boot number `j`. */
  lemma {:induction false} LeftoverMarksAreReportedInOrder(l: Ledger, sessions: seq<Session>, j: nat)
    requires AllFlagged(l.marks) && j < |Ranked(l.marks)| && j < |sessions|
    requires forall s <- sessions :: s.Lawful() && Marked(s.events) == {}
    requires forall t <- Following(l, sessions) :: !Clears(t)
    ensures Following(l, sessions)[j].bootReason == Ranked(l.marks)[j]
    decreases j
  {
    hide Enter, Clears, Ranked, AllFlagged, Marked;
    NoneRanked();
    var s, rest := sessions[0], sessions[1..];
    var e := Enter(l, s);
    var stats, later := Following(l, sessions), Following(e.ledger, rest);
    assert stats == [e.stats] + later;
    assert stats[0] in stats && s in sessions;
    ReportsHighestRank(l, s);
    if j > 0 {
      assert forall t <- later :: t in stats;
      LeftoverMarksAreReportedInOrder(e.ledger, rest, j - 1);
    }
  }

  lemma NoneRanked()
    ensures Ranked({}) == []
  {
  }

  /** In particular, of a fault and a panic marked at once the panic is reported by the next boot,
      although nothing was marked before that one. */
  lemma StaleMarkIsReported(l: Ledger, s: Session, t: Session)
    requires l.marks + Marked(s.events) == {HardFault, Panic} && !Clears(Enter(l, s).stats)
    requires Marked(t.events) == {}
    ensures Enter(l, s).stats.bootReason == HardFault
    ensures var r := Enter(Enter(l, s).ledger, t).stats.bootReason; r == Panic || r == Loop
  {
    var next := Enter(l, s).ledger;
    assert next.marks == {Panic};
    assert next.marks + Marked(t.events) == {Panic};
  }
}
