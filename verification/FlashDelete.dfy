/** Deleting an object under a persistent lock, `delete_object` of `storage/flash_db.rs` in mode
    `EraseLockSpare`, over the block layer's contract for interrupted operations.

    Every state the flash can be found in after a power cut is recorded in `trace`; `faults` counts the
    operations that failed. */
module FlashDelete {
  import opened Options
  import opened Numbers

  const MAX_FRAGMENTS_PER_OBJECT: nat := 0x7FFF_FFFF

  type u8 = n: nat | n < 256

  datatype FragmentStatus = Empty | Valid | Invalid | Obsolete

  datatype BlockHeader = BlockHeader(objectId: nat, version: u8, fragmentSize: nat, firstFragment: nat)

  /** A block reads as invalid without a header; otherwise it has a first fragment and some more, whose
      statuses are summarised, and some content. */
  datatype Block = Block(header: Option<BlockHeader>, first: FragmentStatus, othersEmpty: bool, content: nat) {
    /** `block_is_empty` */
    predicate IsEmpty() { header.Some? && first.Empty? && othersEmpty }
  }

  type Blocks = seq<Block>

  function Formatted(header: BlockHeader): Block { Block(Some(header), Empty, true, 0) }

  const UNREADABLE := Block(None, Invalid, false, 0)

  /** `delete_fragment` on the first fragment: invalid and obsolete fragments stay as they are. */
  function Marked(b: Block): Block {
    if b.first.Empty? || b.first.Valid? then b.(first := Obsolete) else b
  }

  function Times(a: nat, b: nat): nat { a * b }

  datatype Object = Object(id: nat, fragmentSize: nat, start: nat, end: nat, fragmentsPerBlock: nat) {
    function Spare(): int { end - 1 }

    /** `ObjectExt::fragment_count` */
    function FragmentCount(): nat
      requires start < end
    {
      var n := Times(fragmentsPerBlock, end - start - 1);
      if n < MAX_FRAGMENTS_PER_OBJECT then n else MAX_FRAGMENTS_PER_OBJECT
    }

    /** The fragment number the delete expects a block to start at. */
    function FirstFragment(block: nat): nat { Times(block, fragmentsPerBlock) }

    predicate FitsIn(blocks: Blocks) { start < end <= |blocks| }

    predicate Owns(b: nat) { start <= b < end }
  }

  datatype LockStatus = Unlocked(version: u8) | Locked | Corrupt

  /** `lock_status`: what a reader sees. */
  function Status(o: Object, blocks: Blocks): LockStatus
    requires o.FitsIn(blocks)
  {
    var spare := blocks[o.Spare()];
    if spare.header.None? then Locked
    else if spare.header.value.objectId != o.id then Corrupt
    else if spare.first.Empty? then Unlocked(spare.header.value.version) else Locked
  }

  /** A block that belongs to the object and holds nothing. */
  predicate Cleared(o: Object, b: Block) {
    b.IsEmpty() && b.header.value.objectId == o.id
  }

  predicate DataCleared(o: Object, blocks: Blocks)
    requires o.FitsIn(blocks)
  {
    forall b | o.start <= b < o.Spare() :: Cleared(o, blocks[b])
  }

  /** What a reader sees, told by the spare block: unlocked exactly if it is the object's own and its first
      fragment is empty, corrupt exactly if it is another object's, locked otherwise. */
  lemma StatusMeans(o: Object, blocks: Blocks)
    requires o.FitsIn(blocks)
    ensures
      var spare := blocks[o.Spare()];
      var own := spare.header.Some? && spare.header.value.objectId == o.id;
      && (Status(o, blocks).Unlocked? <==> own && spare.first == Empty)
      && (Status(o, blocks) == Corrupt <==> spare.header.Some? && !own)
      && (Status(o, blocks) == Locked <==> spare.header.None? || (own && spare.first != Empty))
      && (Status(o, blocks).Unlocked? ==> Status(o, blocks).version == spare.header.value.version)
  {
  }

  /** What may be found in a state left behind by deletes of `o` that started from `before`. */
  predicate CrashSafe(o: Object, before: Blocks, now: Blocks)
    requires o.FitsIn(before)
  {
    && |now| == |before|
    && (forall b | 0 <= b < |now| && !o.Owns(b) :: now[b] == before[b])
    && (Status(o, now).Unlocked? ==> now == before || DataCleared(o, now))
    && (Status(o, now).Corrupt? ==> Status(o, before).Corrupt?)
  }

  /** Whether the delete formats a block: it is skipped when it is the object's, starts at the expected
      fragment and is empty. */
  predicate NeedsFormat(o: Object, block: nat, b: Block)
    requires o.start < o.end && o.FragmentCount() > 0
  {
    !(&& Cleared(o, b)
      && b.header.value.fragmentSize == o.fragmentSize
      && b.header.value.firstFragment % o.FragmentCount() == o.FirstFragment(block))
  }

  /** Fragment numbers keep growing: a block at `n` times the object's fragments was erased `n` times. */
  function EraseCount(o: Object, b: Block): nat
    requires o.start < o.end && o.FragmentCount() > 0
  {
    if b.header.Some? && b.header.value.objectId == o.id then b.header.value.firstFragment / o.FragmentCount() else 0
  }

  /** The header a formatted block gets, one erase further than the one it had. */
  function NewHeader(o: Object, block: nat, b: Block, version: u8): (h: BlockHeader)
    requires o.start < o.end && o.FragmentCount() > 0
    ensures h.objectId == o.id && h.version == version
  {
    BlockHeader(o.id, version, o.fragmentSize,
                (o.FirstFragment(block) + Times(EraseCount(o, b) + 1, o.FragmentCount())) % U32)
  }

  /** The version given to formatted blocks. Both headers go through slot 0 of `versions`, the other slot
      keeping its initial 0xFF, and a distance over 128 counts as wrapped. */
  function NextVersion(first: Option<BlockHeader>, spare: Option<BlockHeader>): u8 {
    var seen := if spare.Some? then spare.value.version else if first.Some? then first.value.version else 0xFF;
    var existing := if 0xFF - seen > 128 then seen else 0xFF;
    (existing + 1) % 256
  }

  /** Versions run from 0 to 127 and start over, so a delete always changes the version. */
  function Successor(version: u8): (next: u8)
    ensures next != version
  {
    if version < 127 then version + 1 else 0
  }

  lemma SkippedIsCleared(o: Object, block: nat, b: Block)
    requires o.start < o.end && o.FragmentCount() > 0
    ensures NeedsFormat(o, block, b) || Cleared(o, b)
  {
  }

  lemma TimesMono(a: nat, b: nat, c: nat)
    requires b <= c
    ensures Times(a, b) <= Times(c, a)
  {
  }

  /** No remainder by the fragment count reaches the number expected of the spare block, so the spare is
      formatted by every delete, empty or not. */
  lemma SpareIsAlwaysFormatted(o: Object, b: Block)
    requires o.start < o.end && o.FragmentCount() > 0
    ensures NeedsFormat(o, o.Spare(), b)
  {
    TimesMono(o.fragmentsPerBlock, o.end - o.start - 1, o.Spare());
  }

  lemma AddMultiple(f: nat, k: nat, total: nat)
    requires total > 0
    ensures (f + Times(k, total)) % total == f % total && (f + Times(k, total)) / total == f / total + k
  {
    var n := f + Times(k, total);
    var z := n / total - f / total - k;
    assert n == total * (n / total) + n % total && f == total * (f / total) + f % total;
    assert total * z == f % total - n % total;
    SmallMultiple(total, z);
  }

  /** As long as fragment numbers do not wrap, the next delete leaves a formatted block alone exactly if
      the number it is expected to start at is one of the object's. Only then is its erase count up by
      one; block numbers are not relative to the object, and every whole multiple of the object's size
      below the expected number counts as one more erase. */
  lemma FormattedIsSkippedNextTimeIff(o: Object, block: nat, b: Block, version: u8)
    requires o.start < o.end && o.FragmentCount() > 0
    requires o.FirstFragment(block) + Times(EraseCount(o, b) + 1, o.FragmentCount()) < U32
    ensures
      var now := Formatted(NewHeader(o, block, b, version));
      && (NeedsFormat(o, block, now) <==> o.FirstFragment(block) >= o.FragmentCount())
      && EraseCount(o, now) == EraseCount(o, b) + 1 + o.FirstFragment(block) / o.FragmentCount()
  {
    var f, total := o.FirstFragment(block), o.FragmentCount();
    AddMultiple(f, EraseCount(o, b) + 1, total);
    hide Times, Object.FragmentCount, Object.FirstFragment;
    assert NewHeader(o, block, b, version).firstFragment == f + Times(EraseCount(o, b) + 1, total);
    SmallRemainder(f, total);
  }

  lemma SmallRemainder(f: nat, total: nat)
    requires total > 0
    ensures f % total == f <==> f < total
  {
  }

  /** Interrupted deletes compose: any number of them, one after the other, leaves what one may leave. */
  lemma {:induction false} InterruptedDeletes(o: Object, states: seq<Blocks>)
    requires |states| > 0 && forall s <- states :: o.FitsIn(s)
    requires forall i | 0 < i < |states| :: CrashSafe(o, states[i - 1], states[i])
    ensures CrashSafe(o, states[0], states[|states| - 1])
    decreases |states|
  {
    if |states| > 1 {
      var init := states[..|states| - 1];
      InterruptedDeletes(o, init);
      var mid, now := init[|init| - 1], states[|states| - 1];
      assert CrashSafe(o, mid, now) && CrashSafe(o, states[0], mid);
    }
  }

  datatype DeleteResult = Deleted | InvalidObject | FlashError

  class FlashDb {
    var blocks: Blocks
    ghost var trace: seq<Blocks>
    ghost var faults: nat

    constructor (blocks: Blocks)
      ensures this.blocks == blocks && trace == [] && faults == 0
    {
      this.blocks := blocks;
      trace, faults := [], 0;
    }

    /** `block_header` and `block_is_empty`: reading may fail and changes nothing. */
    method Read(b: nat) returns (block: Option<Block>)
      requires b < |blocks|
      modifies this`faults
      ensures faults == old(faults) + if block.None? then 1 else 0
      ensures block.Some? ==> block.value == blocks[b]
    {
      var ok: bool := *;
      if ok {
        block := Some(blocks[b]);
      } else {
        block := None;
        faults := faults + 1;
      }
    }

    /** `format_block`: interrupted or not, the block is as it was, invalid, or formatted. */
    method FormatBlock(b: nat, header: BlockHeader) returns (ok: bool)
      requires b < |blocks|
      modifies this
      ensures trace == old(trace) + [old(blocks), old(blocks)[b := UNREADABLE], blocks]
      ensures || blocks == old(blocks) || blocks == old(blocks)[b := UNREADABLE]
              || blocks == old(blocks)[b := Formatted(header)]
      ensures ok ==> blocks == old(blocks)[b := Formatted(header)]
      ensures faults == old(faults) + if ok then 0 else 1
    {
      ok := *;
      var reached: int := *;
      trace := trace + [blocks, blocks[b := UNREADABLE]];
      if ok || reached == 2 {
        blocks := blocks[b := Formatted(header)];
      } else if reached == 1 {
        blocks := blocks[b := UNREADABLE];
      }
      trace := trace + [blocks];
      faults := faults + if ok then 0 else 1;
    }

    /** `delete_fragment` on the first fragment of a block: it happened or it did not. */
    method DeleteFirstFragment(b: nat) returns (ok: bool)
      requires b < |blocks|
      modifies this
      ensures trace == old(trace) + [blocks]
      ensures blocks == old(blocks) || blocks == old(blocks)[b := Marked(old(blocks)[b])]
      ensures ok ==> blocks == old(blocks)[b := Marked(old(blocks)[b])]
      ensures faults == old(faults) + if ok then 0 else 1
    {
      ok := *;
      var happened: bool := *;
      if ok || happened {
        blocks := blocks[b := Marked(blocks[b])];
      }
      trace := trace + [blocks];
      faults := faults + if ok then 0 else 1;
    }

    /** `lock`: an invalid spare block already counts as locked. Only the spare block changes, and
        if it does, readers find the object locked (or another object's spare, which is no lock but
        an error to them). */
    method Lock(o: Object) returns (ok: bool)
      requires o.FitsIn(blocks)
      modifies this
      ensures |blocks| == old(|blocks|)
      ensures forall b | 0 <= b < |blocks| && b != o.Spare() :: blocks[b] == old(blocks)[b]
      ensures ok ==> Status(o, blocks) == if Status(o, old(blocks)).Corrupt? then Corrupt else Locked
      ensures Status(o, blocks).Corrupt? <==> Status(o, old(blocks)).Corrupt?
      ensures blocks == old(blocks) || !Status(o, blocks).Unlocked?
      ensures trace == old(trace) || trace == old(trace) + [blocks]
      ensures faults == old(faults) + if ok then 0 else 1
    {
      var spare := Read(o.Spare());
      if spare.None? {
        return false;
      }
      ok := true;
      if spare.value.header.Some? {
        ok := DeleteFirstFragment(o.Spare());
      }
    }

    /** One round of the loop of `delete_object`. */
    method ClearBlock(o: Object, block: nat, version: u8, first: bool, ghost before: Blocks)
      returns (ok: bool, formatted: bool)
      requires o.FitsIn(blocks) && o.FitsIn(before) && o.FragmentCount() > 0 && o.Owns(block)
      requires Progress(o, before, blocks, block, first)
      modifies this
      ensures |blocks| == |before|
      ensures old(trace) <= trace && forall i | old(|trace|) <= i < |trace| :: CrashSafe(o, before, trace[i])
      ensures CrashSafe(o, before, blocks)
      ensures ok ==> Progress(o, before, blocks, block + 1, first && !formatted)
      ensures ok && formatted ==> blocks[block].header.Some? && blocks[block].header.value.version == version
      ensures ok ==> (formatted <==> NeedsFormat(o, block, old(blocks)[block]))
      ensures faults >= old(faults) && (!ok ==> faults > old(faults))
    {
      hide NeedsFormat, NewHeader, Object.FragmentCount, Object.FirstFragment, Times;
      SkippedIsCleared(o, block, blocks[block]);
      var b := Read(block);
      if b.None? {
        return false, false;
      }
      formatted := NeedsFormat(o, block, b.value);
      if !formatted {
        return true, false;
      }
      if first {
        ok := Lock(o);
        if !ok {
          return;
        }
      }
      LockedIsSafe(o, before, blocks);
      FormatIsSafe(o, before, blocks, block, NewHeader(o, block, b.value, version));
      hide CrashSafe, Progress, Status;
      ok := FormatBlock(block, NewHeader(o, block, b.value, version));
    }

    /** `delete_object` in mode `EraseLockSpare`. At every crash point a reader that sees the object
        unlocked sees it untouched or cleared; from any state, a delete that returns normally leaves it
        unlocked, empty and under the next version, and it does so unless an operation failed. */
    method DeleteObject(o: Object) returns (r: DeleteResult)
      requires o.FitsIn(blocks)
      modifies this
      ensures old(trace) <= trace && |blocks| == old(|blocks|)
      ensures forall i | old(|trace|) <= i < |trace| :: CrashSafe(o, old(blocks), trace[i])
      ensures CrashSafe(o, old(blocks), blocks)
      ensures r == InvalidObject <==> o.FragmentCount() == 0
      ensures r == InvalidObject ==> blocks == old(blocks)
      ensures r == Deleted ==> DataCleared(o, blocks) && Cleared(o, blocks[o.Spare()]) && Status(o, blocks).Unlocked?
      ensures r == Deleted && faults == old(faults) && Status(o, old(blocks)).Unlocked? ==>
                Status(o, blocks).version == Successor(Status(o, old(blocks)).version)
      ensures r == FlashError ==> faults > old(faults)
    {
      if o.FragmentCount() == 0 {
        return InvalidObject;
      }
      var firstBlock := Read(o.start);
      var spareBlock := Read(o.Spare());
      var version := NextVersion(HeaderOf(firstBlock), HeaderOf(spareBlock));
      var block, formatCount := o.start, 0;
      ghost var before, log := blocks, trace;
      NextIsSuccessor(HeaderOf(firstBlock), HeaderOf(spareBlock));
      StatusMeans(o, blocks);
      hide CrashSafe, Progress, NextVersion, Successor, NeedsFormat, Object.FragmentCount, Cleared, Status, DataCleared;
      NothingDone(o, blocks);
      while block < o.end
        invariant o.start <= block <= o.end && |blocks| == |before|
        invariant log <= trace && forall i | |log| <= i < |trace| :: CrashSafe(o, before, trace[i])
        invariant CrashSafe(o, before, blocks)
        invariant Progress(o, before, blocks, block, formatCount == 0)
        invariant block == o.end ==> blocks[o.Spare()].header.Some? && blocks[o.Spare()].header.value.version == version
        invariant faults >= old(faults)
        invariant faults == old(faults) ==> spareBlock == Some(before[o.Spare()])
      {
        SpareIsAlwaysFormatted(o, blocks[block]);
        var ok, formatted := ClearBlock(o, block, version, formatCount == 0, before);
        if !ok {
          return FlashError;
        }
        formatCount := if formatted then formatCount + 1 else formatCount;
        block := block + 1;
      }
      EverythingDone(o, before, blocks, formatCount == 0);
      return Deleted;
    }
  }

  lemma NextIsSuccessor(first: Option<BlockHeader>, spare: Option<BlockHeader>)
    ensures spare.Some? ==> NextVersion(first, spare) == Successor(spare.value.version)
  {
  }

  lemma NothingDone(o: Object, blocks: Blocks)
    requires o.FitsIn(blocks)
    ensures CrashSafe(o, blocks, blocks) && Progress(o, blocks, blocks, o.start, true)
  {
  }

  lemma EverythingDone(o: Object, before: Blocks, now: Blocks, untouched: bool)
    requires o.FitsIn(before) && Progress(o, before, now, o.end, untouched)
    ensures |now| == |before| && DataCleared(o, now) && Cleared(o, now[o.Spare()])
    ensures Status(o, now) == Unlocked(now[o.Spare()].header.value.version)
  {
  }

  lemma LockedIsSafe(o: Object, before: Blocks, now: Blocks)
    requires o.FitsIn(before) && |now| == |before| && !Status(o, now).Unlocked?
    requires Status(o, now).Corrupt? ==> Status(o, before).Corrupt?
    requires forall b | 0 <= b < |now| && !o.Owns(b) :: now[b] == before[b]
    ensures CrashSafe(o, before, now)
  {
  }

  /** Formatting the next block of a locked object: each state on the way is safe, and the block is done. */
  lemma FormatIsSafe(o: Object, before: Blocks, now: Blocks, block: nat, header: BlockHeader)
    requires o.FitsIn(before) && |now| == |before| && o.Owns(block) && header.objectId == o.id
    requires !Status(o, now).Unlocked? && (Status(o, now).Corrupt? ==> Status(o, before).Corrupt?)
    requires forall b | 0 <= b < |now| && !o.Owns(b) :: now[b] == before[b]
    requires forall b | o.start <= b < block :: Cleared(o, now[b])
    ensures CrashSafe(o, before, now[block := UNREADABLE])
    ensures CrashSafe(o, before, now[block := Formatted(header)])
    ensures Progress(o, before, now[block := Formatted(header)], block + 1, false)
  {
  }

  function HeaderOf(b: Option<Block>): Option<BlockHeader> {
    if b.Some? then b.value.header else None
  }

  /** Where a delete stands before block `next`: the earlier blocks are cleared, nothing was changed
      before the first format, and from then on the object is locked until its spare is done. */
  predicate Progress(o: Object, before: Blocks, now: Blocks, next: nat, untouched: bool)
    requires o.FitsIn(before)
  {
    && |now| == |before|
    && (forall b | 0 <= b < |now| && !o.Owns(b) :: now[b] == before[b])
    && (forall b | o.start <= b < next <= o.end :: Cleared(o, now[b]))
    && (Status(o, now).Corrupt? ==> Status(o, before).Corrupt?)
    && (if untouched then now == before else next < o.end ==> !Status(o, now).Unlocked?)
  }
}
