/** The NOR flash driver of `drivers/spi_flash.rs`, against a chip that decodes the driver's frames
    itself: programming only clears bits and wraps inside a page, erasing works on whole sectors, writes
    need the write-enable latch, and a sleeping chip ignores everything but a wake-up. */
module SpiFlash {
  import opened Numbers

  const B24_LIMIT: nat := 0x100_0000

  const WAKEUP: Byte := 0xAB
  const SLEEP: Byte := 0xB9
  const ENTER_4_BYTE: Byte := 0xB7
  const WRITE_ENABLE: Byte := 0x06
  const ERASE_SECTOR: Byte := 0x20
  const ERASE_SECTOR_4B: Byte := 0x21
  const PROGRAM_PAGE: Byte := 0x02

  datatype Error = SPI | OutOfBounds | Alignment | Write
  datatype Result<T> = Ok(value: T) | Err(error: Error)

  // ----- The descriptor -----

  datatype Descriptor = Descriptor(pageSize: nat, eraseSize: nat, totalSize: nat)

  datatype DescriptorError =
    PageSizeInvalid | EraseSizeNotMultipleOfPage | TotalSizeNotMultipleOfErase | EraseSizeNotMultipleMaxEraseSize

  /** `is_multiple_of`: only zero is a multiple of zero. */
  predicate MultipleOf(n: nat, d: nat) { if d == 0 then n == 0 else n % d == 0 }

  predicate PowerOfTwo(n: nat) { n == 1 || (n > 1 && n % 2 == 0 && PowerOfTwo(n / 2)) }

  /** `FlashDescriptor::validate` */
  function Validate(d: Descriptor, maxEraseSize: nat): (e: DescriptorErrorOrValid)
    ensures e.Valid? && maxEraseSize > 0 ==> Sound(d)
  {
    if d.pageSize < 1 || !PowerOfTwo(d.pageSize) then Invalid(PageSizeInvalid)
    else if !MultipleOf(d.eraseSize, d.pageSize) then Invalid(EraseSizeNotMultipleOfPage)
    else if !MultipleOf(d.totalSize, d.eraseSize) then Invalid(TotalSizeNotMultipleOfErase)
    else if !MultipleOf(maxEraseSize, d.eraseSize) then Invalid(EraseSizeNotMultipleMaxEraseSize)
    else Valid
  }

  /** Exactly the descriptors whose page is a power of two and divides the sector, whose sector divides the
      chip and the largest sector, are accepted; the first of these that fails is the error. */
  lemma ValidateMeans(d: Descriptor, maxEraseSize: nat)
    ensures
      var page := exists k: nat :: d.pageSize == Pow2(k);
      var sector := exists q: nat :: d.eraseSize == Product(q, d.pageSize);
      var chip := exists q: nat :: d.totalSize == Product(q, d.eraseSize);
      var largest := exists q: nat :: maxEraseSize == Product(q, d.eraseSize);
      Validate(d, maxEraseSize) ==
        if !page then Invalid(PageSizeInvalid)
        else if !sector then Invalid(EraseSizeNotMultipleOfPage)
        else if !chip then Invalid(TotalSizeNotMultipleOfErase)
        else if !largest then Invalid(EraseSizeNotMultipleMaxEraseSize)
        else Valid
  {
    PowerOfTwoMeans(d.pageSize);
    MultipleMeans(d.eraseSize, d.pageSize);
    MultipleMeans(d.totalSize, d.eraseSize);
    MultipleMeans(maxEraseSize, d.eraseSize);
    hide MultipleOf, Product, Pow2, PowerOfTwo;
    PageIsPositive(d.pageSize);
  }

  function Product(q: nat, d: nat): nat { q * d }

  lemma PageIsPositive(n: nat)
    ensures PowerOfTwo(n) ==> n >= 1
  {
  }

  lemma MultipleMeans(n: nat, d: nat)
    ensures MultipleOf(n, d) <==> exists q: nat :: n == Product(q, d)
  {
    if d == 0 {
      assert Product(0, 0) == 0;
    } else if MultipleOf(n, d) {
      assert n == Product(n / d, d);
    } else if q: nat :| n == Product(q, d) {
      SmallMultiple(d, q - n / d);
    }
  }

  lemma PowerOfTwoMeans(n: nat)
    ensures PowerOfTwo(n) <==> exists k: nat :: n == Pow2(k)
  {
    if PowerOfTwo(n) {
      var k := Exponent(n);
    } else if k: nat :| n == Pow2(k) {
      Pow2IsPowerOfTwo(k);
    }
  }

  lemma {:induction false} Exponent(n: nat) returns (k: nat)
    requires PowerOfTwo(n)
    ensures n == Pow2(k)
  {
    k := 0;
    if n > 1 {
      k := Exponent(n / 2);
      k := k + 1;
    }
  }

  lemma {:induction false} Pow2IsPowerOfTwo(k: nat)
    ensures PowerOfTwo(Pow2(k))
  {
    if k > 0 {
      Pow2IsPowerOfTwo(k - 1);
      assert Pow2(k) == 2 * Pow2(k - 1) && Pow2(k) / 2 == Pow2(k - 1);
    }
  }

  datatype DescriptorErrorOrValid = Valid | Invalid(error: DescriptorError)

  /** What the driver relies on in a validated descriptor. */
  predicate Sound(d: Descriptor) {
    d.pageSize > 0 && d.eraseSize > 0 && d.eraseSize % d.pageSize == 0 && d.totalSize % d.eraseSize == 0
  }

  // ----- The chip -----

  /** Bitwise and of two bytes: programming can turn ones into zeroes only. */
  function And(a: nat, b: nat): (r: nat)
    ensures r <= a && r <= b
  {
    if a == 0 || b == 0 then 0 else (if a % 2 == 1 && b % 2 == 1 then 1 else 0) + 2 * And(a / 2, b / 2)
  }

  lemma {:induction false} AllOnes(bits: nat, ones: nat, d: nat)
    requires ones + 1 == Pow2(bits) && d <= ones
    ensures And(ones, d) == d
  {
    if d > 0 && bits > 0 {
      AllOnes(bits - 1, ones / 2, d / 2);
    }
  }

  /** An erased byte takes any value. */
  lemma ErasedTakesAnything(d: Byte)
    ensures And(0xFF, d) == d
  {
    assert Pow2(4) == 16;
    assert Pow2(8) == 256;
    AllOnes(8, 0xFF, d);
  }

  type Memory = Bytes

  datatype Chip = Chip(mem: Memory, asleep: bool, fourByte: bool, latch: bool)

  /** Where the chip puts byte `i` of a program command at `addr`. */
  function Wrap(page: nat, addr: nat, i: nat): nat
    requires page > 0
  {
    addr - addr % page + (addr % page + i) % page
  }

  function Programmed(mem: Memory, page: nat, addr: nat, data: Bytes): (r: Memory)
    requires page > 0
    ensures |r| == |mem|
  {
    if data == [] then mem
    else
      var last := |data| - 1;
      var m, k := Programmed(mem, page, addr, data[..last]), Wrap(page, addr, last);
      if k < |m| then m[k := And(m[k], data[last])] else m
  }

  function Sector(d: Descriptor, addr: nat): nat
    requires Sound(d)
  {
    addr - addr % d.eraseSize
  }

  function SectorErased(d: Descriptor, mem: Memory, addr: nat): (r: Memory)
    requires Sound(d)
    ensures |r| == |mem|
  {
    var base := Sector(d, addr);
    seq(|mem|, k requires 0 <= k < |mem| => if base <= k < base + d.eraseSize then 0xFF else mem[k])
  }

  function BigEndian(bytes: Bytes): nat {
    if bytes == [] then 0 else 256 * BigEndian(bytes[..|bytes| - 1]) + bytes[|bytes| - 1]
  }

  /** The number of address bytes the chip expects after an opcode. */
  function AddressBytes(c: Chip, opcode: Byte): nat {
    if c.fourByte || opcode == ERASE_SECTOR_4B then 4 else 3
  }

  predicate IsErase(opcode: Byte) { opcode == ERASE_SECTOR || opcode == ERASE_SECTOR_4B }

  predicate IsWrite(opcode: Byte) { opcode == PROGRAM_PAGE || IsErase(opcode) }

  /** The memory after one complete write command. */
  function WriteResult(d: Descriptor, c: Chip, tx: Bytes): (m: Memory)
    requires Sound(d)
    ensures |m| == |c.mem|
  {
    if |tx| == 0 || !IsWrite(tx[0]) || !c.latch || c.asleep || |tx| <= AddressBytes(c, tx[0]) then c.mem
    else
      var n := AddressBytes(c, tx[0]);
      var addr := BigEndian(tx[1..n + 1]);
      if IsErase(tx[0]) then SectorErased(d, c.mem, addr) else Programmed(c.mem, d.pageSize, addr, tx[n + 1..])
  }

  /** The chip's reaction to one complete transaction. */
  function Exec(d: Descriptor, c: Chip, tx: Bytes): Chip
    requires Sound(d)
  {
    if tx == [] then c
    else if c.asleep then if tx[0] == WAKEUP then c.(asleep := false) else c
    else if tx[0] == SLEEP then c.(asleep := true)
    else if tx[0] == ENTER_4_BYTE then c.(fourByte := true)
    else if tx[0] == WRITE_ENABLE then c.(latch := true)
    else if IsWrite(tx[0]) then c.(mem := WriteResult(d, c, tx), latch := false)
    else c
  }

  /** The bytes a write command may have spoiled when it failed half-way. */
  predicate Targets(d: Descriptor, c: Chip, tx: Bytes, k: nat)
    requires Sound(d)
  {
    && |tx| > 0 && IsWrite(tx[0]) && |tx| > AddressBytes(c, tx[0])
    && var n := AddressBytes(c, tx[0]);
       var addr := BigEndian(tx[1..n + 1]);
       if IsErase(tx[0]) then Sector(d, addr) <= k < Sector(d, addr) + d.eraseSize
       else exists i | 0 <= i < |tx| - n - 1 :: k == Wrap(d.pageSize, addr, i)
  }

  // ----- Frames -----

  datatype Mode = B24 | B32

  function ToBeBytes(addr: nat): (s: Bytes)
    ensures |s| == 4
  {
    [addr / 0x100_0000 % 256, addr / 0x1_0000 % 256, addr / 0x100 % 256, addr % 256]
  }

  /** `cmd_and_addr` */
  function CmdAndAddr(cmd: Byte, addr: nat, mode: Mode): Bytes {
    if mode == B24 then [cmd] + ToBeBytes(addr)[1..] else [cmd] + ToBeBytes(addr)
  }

  function Weighed(a: int, b: int, c: int, e: int): int { 0x100_0000 * a + 0x1_0000 * b + 0x100 * c + e }

  lemma BigEndianOfThree(a: Byte, b: Byte, c: Byte)
    ensures BigEndian([a, b, c]) == Weighed(0, a, b, c)
  {
    var s := [a, b, c];
    assert s[..2] == [a, b] && [a, b][..1] == [a] && [a][..0] == [];
    assert BigEndian([]) == 0;
    assert BigEndian([a]) == a;
    assert BigEndian([a, b]) == 0x100 * a + b;
  }

  lemma BigEndianOfFour(a: Byte, b: Byte, c: Byte, e: Byte)
    ensures BigEndian([a, b, c, e]) == Weighed(a, b, c, e)
  {
    assert [a, b, c, e][..3] == [a, b, c];
    BigEndianOfThree(a, b, c);
  }

  lemma Digits(addr: nat)
    requires addr < U32
    ensures var s := ToBeBytes(addr);
            addr == Weighed(s[0], s[1], s[2], s[3]) && (s[0] == 0 <==> addr < B24_LIMIT)
  {
    var q1 := addr / 0x100;
    var q2, q3 := q1 / 0x100, q1 / 0x100 / 0x100;
    assert addr / 0x1_0000 == q2 && addr / 0x100_0000 == q3;
  }

  /** A frame sent in the chip's mode is read back as the address it was made from; three address
      bytes suffice exactly below 16 MB. */
  lemma FrameRoundTrip(cmd: Byte, addr: nat, mode: Mode, payload: Bytes)
    requires addr < U32
    ensures var n := if mode == B24 then 3 else 4;
            var tx := CmdAndAddr(cmd, addr, mode) + payload;
            && |tx| == n + 1 + |payload| && tx[0] == cmd && tx[n + 1..] == payload
            && (BigEndian(tx[1..n + 1]) == addr <==> mode == B32 || addr < B24_LIMIT)
  {
    var n := if mode == B24 then 3 else 4;
    var tx := CmdAndAddr(cmd, addr, mode) + payload;
    var s := ToBeBytes(addr);
    Digits(addr);
    hide ToBeBytes;
    if mode == B24 {
      assert tx[1..4] == [s[1], s[2], s[3]];
      BigEndianOfThree(s[1], s[2], s[3]);
    } else {
      assert tx[1..5] == [s[0], s[1], s[2], s[3]];
      BigEndianOfFour(s[0], s[1], s[2], s[3]);
    }
  }

  /** The frames on the wire, opcode first and the address most significant byte first. */
  lemma FramesOnTheWire()
    ensures CmdAndAddr(PROGRAM_PAGE, 0x5000, B24) == [0x02, 0x00, 0x50, 0x00]
    ensures CmdAndAddr(ERASE_SECTOR, 0x6000, B24) == [0x20, 0x00, 0x60, 0x00]
    ensures CmdAndAddr(ERASE_SECTOR_4B, 0x100_0000, B32) == [0x21, 0x01, 0x00, 0x00, 0x00]
    ensures [WAKEUP, SLEEP, ENTER_4_BYTE, WRITE_ENABLE] == [0xAB, 0xB9, 0xB7, 0x06]
  {
  }

  // ----- What programming amounts to -----

  /** The data laid over the memory, each byte clearing bits. */
  function Overlaid(mem: Memory, addr: nat, data: Bytes): (r: Memory)
    ensures |r| == |mem|
  {
    seq(|mem|, k requires 0 <= k < |mem| =>
      if addr <= k < addr + |data| then And(mem[k], data[k - addr]) else mem[k])
  }

  lemma WrapWithinPage(page: nat, addr: nat, i: nat)
    requires page > 0 && addr % page + i < page
    ensures Wrap(page, addr, i) == addr + i
  {
  }

  /** A command that stays within its page does what was asked of it. */
  lemma {:induction false} ProgramWithinPage(mem: Memory, page: nat, addr: nat, data: Bytes)
    requires page > 0 && addr % page + |data| <= page && addr + |data| <= |mem|
    ensures Programmed(mem, page, addr, data) == Overlaid(mem, addr, data)
    decreases |data|
  {
    if data != [] {
      var last := |data| - 1;
      ProgramWithinPage(mem, page, addr, data[..last]);
      WrapWithinPage(page, addr, last);
    }
  }

  /** A command that leaves its page damages the page's start instead of reaching the next page. */
  lemma ProgramAcrossPageWraps(mem: Memory, addr: nat, d: Byte)
    requires addr % 256 == 255 && addr + 1 < |mem| && mem[addr - 255] == 0xFF && mem[addr + 1] == 0xFF
    ensures Programmed(mem, 256, addr, [0xFF, d])[addr - 255] == d
    ensures Programmed(mem, 256, addr, [0xFF, d])[addr + 1] == 0xFF
  {
    assert Wrap(256, addr, 0) == addr && Wrap(256, addr, 1) == addr - 255;
    ProgramOneMore(mem, 256, addr, [], 0xFF);
    ProgramOneMore(mem, 256, addr, [0xFF], d);
    ErasedTakesAnything(d);
    assert [] + [0xFF] == [0xFF] && [0xFF] + [d] == [0xFF, d];
    assert Programmed(mem, 256, addr, []) == mem;
    hide Programmed, Wrap, And;
  }

  lemma ProgramOneMore(mem: Memory, page: nat, addr: nat, data: Bytes, x: Byte)
    requires page > 0
    ensures
      var m, k := Programmed(mem, page, addr, data), Wrap(page, addr, |data|);
      Programmed(mem, page, addr, data + [x]) == if k < |m| then m[k := And(m[k], x)] else m
  {
    assert (data + [x])[..|data|] == data;
    hide Wrap, And;
  }

  lemma OverlaidInTwo(mem: Memory, addr: nat, data: Bytes, i: nat, j: nat)
    requires i <= j <= |data|
    ensures Overlaid(Overlaid(mem, addr, data[..i]), addr + i, data[i..j]) == Overlaid(mem, addr, data[..j])
  {
  }

  lemma MultiplesAdd(a: nat, b: nat, d: nat)
    requires d > 0 && a % d == 0 && b % d == 0
    ensures (a + b) % d == 0
    ensures a < b ==> a + d <= b
  {
    var x, y, q, r := a / d, b / d, (a + b) / d, (a + b) % d;
    SumOfMultiples(d, x, y, q, r);
    if a < b < a + d {
      assert b - a == d * (y - x);
      SmallMultiple(d, y - x);
    }
  }

  lemma SumOfMultiples(d: nat, x: nat, y: nat, q: nat, r: nat)
    requires d * x + d * y == d * q + r && r < d
    ensures r == 0
  {
    assert r == d * (x + y - q);
    SmallMultiple(d, x + y - q);
  }

  /** `bounds_check`. The room left is cast to 32 bits: nothing out of bounds passes, and nothing in
      bounds is refused as long as the room fits. */
  function BoundsCheck(address: nat, len: nat, minAddr: nat, maxLen: nat): (r: Result<nat>)
    ensures r.Ok? ==> r.value == address && minAddr <= address && address + len <= minAddr + maxLen
    ensures r.Err? ==> r.error == OutOfBounds
    ensures maxLen < U32 ==> (r.Ok? <==> minAddr <= address && address + len <= minAddr + maxLen)
  {
    if address < minAddr then Err(OutOfBounds)
    else if len > maxLen then Err(OutOfBounds)
    else if address - minAddr > (maxLen - len) % U32 then Err(OutOfBounds)
    else Ok(address)
  }

  // ----- The driver -----

  class SPIFlash {
    const d: Descriptor
    var chip: Chip
    var awake: bool
    var mode: Mode
    ghost var programs: seq<(nat, nat)> // every program command sent: address, length
    ghost var faults: nat // transactions that failed and write enables that did not take

    ghost predicate Valid()
      reads this
    {
      && Sound(d) && d.totalSize < U32 && |chip.mem| == d.totalSize
      && (awake ==> !chip.asleep)
      && (mode == B32 ==> chip.fourByte)
      && (mode == B24 && d.totalSize <= B24_LIMIT ==> !chip.fourByte)
      && forall p <- programs :: p.0 % d.pageSize + p.1 <= d.pageSize
    }

    /** Ready for commands: awake and agreeing on the address length. */
    ghost predicate Ready()
      reads this
    {
      Valid() && awake && (mode == B32 <==> chip.fourByte) && (mode == B24 ==> d.totalSize <= B24_LIMIT)
    }

    lemma ReadyMeans()
      requires Ready()
      ensures Valid() && awake
    {
    }

    /** `SPIFlash::new`; only a chip too large for three address bytes may already be in four-byte mode. */
    constructor (d: Descriptor, maxEraseSize: nat, chip: Chip)
      requires Validate(d, maxEraseSize).Valid? && maxEraseSize > 0 && d.totalSize < U32
      requires |chip.mem| == d.totalSize && (d.totalSize <= B24_LIMIT ==> !chip.fourByte)
      ensures Valid() && this.chip == chip && this.d == d && programs == []
    {
      this.d := d;
      this.chip := chip;
      awake, mode, programs, faults := false, B24, [], 0;
    }

    /** One transaction on the bus and, for a write, the wait for its end. When it fails it may have
        taken effect, in part or not at all, but only where it was directed. */
    method Transact(tx: Bytes) returns (ok: bool)
      requires Sound(d)
      modifies this`chip, this`faults
      ensures |chip.mem| == |old(chip).mem|
      ensures faults == old(faults) + if ok then 0 else 1
      ensures ok ==> chip == Exec(d, old(chip), tx)
      ensures forall k | 0 <= k < |chip.mem| && !Targets(d, old(chip), tx, k) :: chip.mem[k] == old(chip).mem[k]
      ensures chip.asleep == old(chip).asleep || chip.asleep == Exec(d, old(chip), tx).asleep
      ensures chip.fourByte == old(chip).fourByte || chip.fourByte == Exec(d, old(chip), tx).fourByte
    {
      var after := Exec(d, chip, tx);
      ExecStaysOnTarget(d, chip, tx);
      ok := *;
      if ok {
        chip := after;
        return;
      }
      faults := faults + 1;
      var mem: Memory, done: bool, latch: bool := *, *, *;
      if |mem| == |chip.mem| {
        var spoiled := Merge(d, chip, tx, mem);
        chip := Chip(spoiled, if done then after.asleep else chip.asleep,
                     if done then after.fourByte else chip.fourByte, latch);
      }
    }

    /** `write_enable`: sets the latch and reads it back. */
    method WriteEnable() returns (e: Result<()>)
      requires Ready()
      modifies this`chip, this`faults
      ensures Ready() && chip.mem == old(chip).mem
      ensures e.Ok? ==> chip.latch
      ensures e.Err? ==> e.error == SPI || e.error == Write
      ensures faults == old(faults) + if e.Ok? then 0 else 1
    {
      NoTargets(d, chip, [WRITE_ENABLE]);
      var ok := Transact([WRITE_ENABLE]);
      var latched: bool := *;
      faults := if ok && !latched then faults + 1 else faults;
      return if !ok then Err(SPI) else if latched then Ok(()) else Err(Write);
    }

    /** `Sleepy::sleep`, best effort. */
    method Sleep()
      requires Valid()
      modifies this`awake, this`chip, this`faults
      ensures Valid() && chip.mem == old(chip).mem && chip.fourByte == old(chip).fourByte
      ensures faults >= old(faults) && !awake
    {
      awake := false;
      for i := 0 to 2
        invariant Valid() && chip.mem == old(chip).mem && chip.fourByte == old(chip).fourByte && !awake
        invariant faults >= old(faults)
      {
        NoTargets(d, chip, [SLEEP]);
        var ok := Transact([SLEEP]);
        if ok {
          break;
        }
      }
    }

    /** `Sleepy::wakeup`, five attempts. */
    method Wakeup() returns (ok: bool)
      requires Valid()
      modifies this`awake, this`chip, this`faults
      ensures Valid() && chip.mem == old(chip).mem && chip.fourByte == old(chip).fourByte
      ensures ok ==> awake
      ensures faults >= old(faults) && (!ok ==> faults >= old(faults) + 5)
    {
      if awake {
        return true;
      }
      var attempt := 0;
      while true
        invariant Valid() && chip.mem == old(chip).mem && chip.fourByte == old(chip).fourByte
        invariant attempt < 5 && !awake && faults >= old(faults) + attempt
        decreases 5 - attempt
      {
        NoTargets(d, chip, [WAKEUP]);
        var sent := Transact([WAKEUP]);
        if sent {
          break;
        }
        attempt := attempt + 1;
        if attempt >= 5 {
          Sleep();
          return false;
        }
      }
      awake := true;
      return true;
    }

    /** `init_and_check_addr`: afterwards driver and chip agree on the address length, also when an
        earlier attempt to enter four-byte mode took effect although it reported failure. */
    method InitAndCheckAddr(address: nat, len: nat) returns (r: Result<nat>)
      requires Valid()
      modifies this`awake, this`chip, this`mode, this`faults
      ensures Valid() && chip.mem == old(chip).mem
      ensures faults >= old(faults) && (r == Err(SPI) ==> faults > old(faults))
      ensures r.Ok? ==> Ready() && r.value == address && address + len <= d.totalSize
      ensures r == Err(OutOfBounds) <==> address + len > d.totalSize
      ensures r.Err? ==> r.error == OutOfBounds || r.error == SPI
    {
      r := BoundsCheck(address, len, 0, d.totalSize);
      if r.Err? {
        return;
      }
      if mode == B24 && d.totalSize > B24_LIMIT {
        var ok := Wakeup();
        if !ok {
          return Err(SPI);
        }
        NoTargets(d, chip, [ENTER_4_BYTE]);
        ok := Transact([ENTER_4_BYTE]);
        if !ok {
          Sleep();
          return Err(SPI);
        }
        mode := B32;
      }
      var ok := Wakeup();
      if !ok {
        return Err(SPI);
      }
    }

    /** One round of `erase`: the sector at `addr`. */
    method EraseSector(addr: nat) returns (e: Result<()>)
      requires Ready() && addr % d.eraseSize == 0 && addr + d.eraseSize <= d.totalSize
      modifies this`chip, this`faults
      ensures Ready()
      ensures faults >= old(faults) && (e.Err? ==> faults > old(faults))
      ensures forall k | 0 <= k < |chip.mem| && !(addr <= k < addr + d.eraseSize) :: chip.mem[k] == old(chip).mem[k]
      ensures e.Ok? ==> forall k | addr <= k < addr + d.eraseSize :: chip.mem[k] == 0xFF
      ensures e.Err? ==> e.error == SPI || e.error == Write
    {
      e := WriteEnable();
      if e.Err? {
        return;
      }
      var cmd := if mode == B24 then ERASE_SECTOR else ERASE_SECTOR_4B;
      FrameRoundTrip(cmd, addr, mode, []);
      var tx := CmdAndAddr(cmd, addr, mode);
      assert tx + [] == tx;
      var ok := Transact(tx);
      return if ok then Ok(()) else Err(SPI);
    }

    /** `erase`: on success the range is erased; in every case the rest is as it was. */
    method Erase(address: nat, len: nat) returns (r: Result<ErasedRange>)
      requires Valid()
      modifies this
      ensures Valid() && |chip.mem| == |old(chip).mem|
      ensures forall k | 0 <= k < |chip.mem| && !(address <= k < address + len) :: chip.mem[k] == old(chip).mem[k]
      ensures r.Ok? ==> fresh(r.value) && r.value.flash == this && r.value.Valid() && r.value.written == {}
      ensures r.Ok? ==> r.value.start == address && r.value.maxLen == len
      ensures r == Err(OutOfBounds) <==> address + len > d.totalSize
      ensures r == Err(Alignment) ==> address % d.eraseSize != 0 || len % d.eraseSize != 0
      ensures r.Ok? ==> address % d.eraseSize == 0 && len % d.eraseSize == 0
      ensures faults >= old(faults) && (r == Err(SPI) || r == Err(Write) ==> faults > old(faults))
      ensures r.Err? && r.error != SPI && r.error != Write ==> chip.mem == old(chip).mem
    {
      var a := InitAndCheckAddr(address, len);
      if a.Err? {
        return Err(a.error);
      }
      var addr := a.value;
      if addr % d.eraseSize != 0 || len % d.eraseSize != 0 {
        Sleep();
        return Err(Alignment);
      }
      var error: Result<()> := Ok(());
      var offset := 0;
      while offset < len
        invariant Ready() && error.Ok? && offset <= len && offset % d.eraseSize == 0 && faults >= old(faults)
        invariant forall k | 0 <= k < |chip.mem| && !(addr <= k < addr + len) :: chip.mem[k] == old(chip).mem[k]
        invariant forall k | addr <= k < addr + offset :: chip.mem[k] == 0xFF
      {
        MultiplesAdd(addr, offset, d.eraseSize);
        MultiplesAdd(offset, len, d.eraseSize);
        error := EraseSector(addr + offset);
        if error.Err? {
          break;
        }
        MultiplesAdd(offset, d.eraseSize, d.eraseSize);
        offset := offset + d.eraseSize;
      }
      Sleep();
      if error.Err? {
        return Err(error.error);
      }
      var range := new ErasedRange(this, addr, len);
      return Ok(range);
    }

    /** `program_page` with the frame the driver builds, for data that stays in one page. */
    method ProgramPage(addr: nat, data: Bytes) returns (e: Result<()>)
      requires Ready() && addr + |data| <= d.totalSize && data != []
      requires addr % d.pageSize + |data| <= d.pageSize
      modifies this`chip, this`programs, this`faults
      ensures faults >= old(faults) && (e.Err? ==> faults > old(faults))
      ensures Ready() && SameOutside(old(chip).mem, chip.mem, addr, |data|)
      ensures e.Ok? ==> chip.mem == Overlaid(old(chip).mem, addr, data)
      ensures e.Err? ==> e.error == SPI || e.error == Write
    {
      e := WriteEnable();
      if e.Err? {
        return;
      }
      var tx := CmdAndAddr(PROGRAM_PAGE, addr, mode) + data;
      FrameRoundTrip(PROGRAM_PAGE, addr, mode, data);
      ProgramWithinPage(chip.mem, d.pageSize, addr, data);
      ProgramTargets(d, chip, tx, addr, data);
      programs := programs + [(addr, |data|)];
      var ok := Transact(tx);
      return if ok then Ok(()) else Err(SPI);
    }

    /** One round of `program`: as much as fits into the page at hand, nothing if nothing is left. */
    method ProgramNext(addr: nat, bytes: Bytes, blockOffset: nat, ghost before: Memory)
      returns (e: Result<()>, next: nat)
      requires Ready() && blockOffset <= |bytes| && addr + |bytes| <= d.totalSize
      requires chip.mem == Overlaid(before, addr, bytes[..blockOffset]) && SameOutside(before, chip.mem, addr, |bytes|)
      modifies this`chip, this`programs, this`faults
      ensures Ready() && SameOutside(before, chip.mem, addr, |bytes|)
      ensures faults >= old(faults) && (e.Err? ==> faults > old(faults) && (e.error == SPI || e.error == Write))
      ensures blockOffset <= next <= |bytes| && (next == blockOffset <==> blockOffset == |bytes|)
      ensures e.Ok? ==> chip.mem == Overlaid(before, addr, bytes[..next])
    {
      var blockAddress := addr + blockOffset;
      var blockMaxLen := d.pageSize - blockAddress % d.pageSize;
      var left := |bytes| - blockOffset;
      var toProgram := if left < blockMaxLen then left else blockMaxLen;
      next := blockOffset + toProgram;
      if toProgram == 0 {
        return Ok(()), next;
      }
      ghost var mem := chip.mem;
      OverlaidInTwo(before, addr, bytes, blockOffset, next);
      hide Overlaid, SameOutside;
      e := ProgramPage(blockAddress, bytes[blockOffset..next]);
      SameOutsideBoth(before, mem, chip.mem, addr, |bytes|, blockAddress, toProgram);
    }

    /** `program`: splits the data at page boundaries. On success the memory is the data laid over the
        old content; in every case nothing outside the addressed bytes changes. */
    method Program(address: nat, bytes: Bytes) returns (e: Result<()>)
      requires Valid()
      modifies this
      ensures Valid() && SameOutside(old(chip).mem, chip.mem, address, |bytes|)
      ensures e.Ok? ==> chip.mem == Overlaid(old(chip).mem, address, bytes)
      ensures e == Err(OutOfBounds) <==> address + |bytes| > d.totalSize
      ensures e == Err(OutOfBounds) ==> chip.mem == old(chip).mem
      ensures faults >= old(faults) && (e.Err? && e != Err(OutOfBounds) ==> faults > old(faults))
    {
      var a := InitAndCheckAddr(address, |bytes|);
      if a.Err? {
        return Err(a.error);
      }
      var addr, blockOffset := a.value, 0;
      assert Overlaid(chip.mem, addr, bytes[..0]) == chip.mem;
      assert SameOutside(old(chip).mem, chip.mem, addr, |bytes|);
      hide Overlaid, Valid, Ready, SameOutside;
      while true
        invariant Ready() && blockOffset <= |bytes| && faults >= old(faults)
        invariant chip.mem == Overlaid(old(chip).mem, addr, bytes[..blockOffset])
        invariant SameOutside(old(chip).mem, chip.mem, addr, |bytes|)
        decreases |bytes| - blockOffset
      {
        var next;
        e, next := ProgramNext(addr, bytes, blockOffset, old(chip).mem);
        if e.Err? || next == blockOffset {
          break;
        }
        blockOffset := next;
      }
      assert e.Ok? ==> bytes[..blockOffset] == bytes;
      ReadyMeans();
      Sleep();
    }
  }

  lemma SameOutsideBoth(a: Memory, b: Memory, c: Memory, at: nat, n: nat, inner: nat, m: nat)
    requires SameOutside(a, b, at, n) && SameOutside(b, c, inner, m) && at <= inner && inner + m <= at + n
    ensures SameOutside(a, c, at, n)
  {
  }

  /** Nothing outside `n` bytes at `at` differs. */
  ghost predicate SameOutside(before: Memory, after: Memory, at: nat, n: nat) {
    |after| == |before| && forall k | 0 <= k < |after| && !(at <= k < at + n) :: after[k] == before[k]
  }

  /** The data is in memory: as it is where nothing was written before, and clearing bits elsewhere. */
  ghost predicate Landed(before: Memory, after: Memory, written: set<nat>, at: nat, bytes: Bytes) {
    && |after| == |before| && at + |bytes| <= |after|
    && (forall k | at <= k < at + |bytes| && k !in written :: after[k] == bytes[k - at])
    && (forall k | at <= k < at + |bytes| && k in written :: after[k] == And(before[k], bytes[k - at]))
  }

  /** Data laid over bytes that are erased where nothing was written before. */
  lemma OverlayLands(before: Memory, written: set<nat>, at: nat, bytes: Bytes)
    requires at + |bytes| <= |before|
    requires forall k | at <= k < at + |bytes| && k !in written :: before[k] == 0xFF
    ensures Landed(before, Overlaid(before, at, bytes), written, at, bytes)
  {
    var after := Overlaid(before, at, bytes);
    forall k | at <= k < at + |bytes| && k !in written ensures after[k] == bytes[k - at] {
      ErasedTakesAnything(bytes[k - at]);
    }
    hide And;
  }

  function Span(start: nat, n: nat): (s: set<nat>)
    ensures forall k :: k in s <==> start <= k < start + n
  {
    if n == 0 then {} else Span(start, n - 1) + {start + n - 1}
  }

  /** A range handed out by `erase`; `written` remembers which of its bytes were addressed since. */
  class ErasedRange {
    const flash: SPIFlash
    const start: nat
    const maxLen: nat
    ghost var written: set<nat>

    ghost predicate Valid()
      reads this, flash
    {
      && flash.Valid() && start + maxLen <= flash.d.totalSize
      && forall k | start <= k < start + maxLen && k !in written :: flash.chip.mem[k] == 0xFF
    }

    constructor (flash: SPIFlash, start: nat, maxLen: nat)
      requires flash.Valid() && start + maxLen <= flash.d.totalSize
      requires forall k | start <= k < start + maxLen :: flash.chip.mem[k] == 0xFF
      ensures Valid() && written == {} && this.flash == flash && this.start == start && this.maxLen == maxLen
    {
      this.flash, this.start, this.maxLen := flash, start, maxLen;
      written := {};
    }

    /** `ErasedRange::write`: bytes that were not addressed before come out equal to the data, the
        others lose bits; bytes of the range not yet addressed stay erased, even when the write fails. */
    method Write(address: nat, bytes: Bytes) returns (e: Result<()>)
      requires Valid()
      modifies flash, this`written
      ensures Valid()
      ensures e != Err(OutOfBounds) ==> written == old(written) + Span(address, |bytes|)
      ensures SameOutside(old(flash.chip).mem, flash.chip.mem, address, |bytes|)
      ensures e.Ok? ==> Landed(old(flash.chip).mem, flash.chip.mem, old(written), address, bytes)
      ensures e == Err(OutOfBounds) <==> !(start <= address && address + |bytes| <= start + maxLen)
      ensures e == Err(OutOfBounds) ==> flash.chip.mem == old(flash.chip).mem && written == old(written)
      ensures e.Err? && e != Err(OutOfBounds) ==> flash.faults > old(flash.faults)
    {
      var a := BoundsCheck(address, |bytes|, start, maxLen);
      if a.Err? {
        return Err(OutOfBounds);
      }
      hide Overlaid, And, Landed;
      e := flash.Program(a.value, bytes);
      if e.Ok? {
        OverlayLands(old(flash.chip).mem, written, address, bytes);
      }
      written := written + Span(address, |bytes|);
    }

    /** `ErasedRange::write_relative`. Even an empty write is refused at the end of the range, where
        `Write` accepts it. */
    method WriteRelative(offset: nat, bytes: Bytes) returns (e: Result<()>)
      requires Valid()
      modifies flash, this`written
      ensures Valid()
      ensures e != Err(OutOfBounds) ==> written == old(written) + Span(start + offset, |bytes|)
      ensures SameOutside(old(flash.chip).mem, flash.chip.mem, start + offset, |bytes|)
      ensures e.Ok? ==> Landed(old(flash.chip).mem, flash.chip.mem, old(written), start + offset, bytes)
      ensures e == Err(OutOfBounds) <==> offset >= maxLen || offset + |bytes| > maxLen
      ensures e == Err(OutOfBounds) ==> flash.chip.mem == old(flash.chip).mem && written == old(written)
      ensures e.Err? && e != Err(OutOfBounds) ==> flash.faults > old(flash.faults)
    {
      if offset >= maxLen {
        return Err(OutOfBounds);
      }
      assert offset % U32 == offset;
      hide Landed, SameOutside;
      e := Write(offset % U32 + start, bytes);
    }
  }

  // ----- Where commands reach -----

  /** Spoiled memory: anything where the command was directed, the old content elsewhere. */
  function Merge(d: Descriptor, c: Chip, tx: Bytes, mem: Memory): (m: Memory)
    requires Sound(d) && |mem| == |c.mem|
    ensures |m| == |c.mem| && forall k | 0 <= k < |m| && !Targets(d, c, tx, k) :: m[k] == c.mem[k]
  {
    seq(|mem|, k requires 0 <= k < |mem| => if Targets(d, c, tx, k) then mem[k] else c.mem[k])
  }

  lemma ExecStaysOnTarget(d: Descriptor, c: Chip, tx: Bytes)
    requires Sound(d)
    ensures |Exec(d, c, tx).mem| == |c.mem|
    ensures forall k | 0 <= k < |c.mem| && !Targets(d, c, tx, k) :: Exec(d, c, tx).mem[k] == c.mem[k]
  {
    if |tx| > 0 && tx[0] == PROGRAM_PAGE && |tx| > AddressBytes(c, tx[0]) {
      var n := AddressBytes(c, tx[0]);
      var addr, data := BigEndian(tx[1..n + 1]), tx[n + 1..];
      forall k | 0 <= k < |c.mem| && !Targets(d, c, tx, k) {
        ProgrammedElsewhere(c.mem, d.pageSize, addr, data, k);
      }
    }
  }

  lemma {:induction false} ProgrammedElsewhere(mem: Memory, page: nat, addr: nat, data: Bytes, k: nat)
    requires page > 0 && k < |mem| && forall i | 0 <= i < |data| :: k != Wrap(page, addr, i)
    ensures Programmed(mem, page, addr, data)[k] == mem[k]
    decreases |data|
  {
    if data != [] {
      ProgrammedElsewhere(mem, page, addr, data[..|data| - 1], k);
    }
  }

  lemma NoTargets(d: Descriptor, c: Chip, tx: Bytes)
    requires Sound(d) && |tx| > 0 && !IsWrite(tx[0])
    ensures forall k: nat :: !Targets(d, c, tx, k)
  {
  }

  lemma ProgramTargets(d: Descriptor, c: Chip, tx: Bytes, addr: nat, data: Bytes)
    requires Sound(d) && |tx| > 0 && tx[0] == PROGRAM_PAGE
    requires var n := AddressBytes(c, tx[0]); |tx| == n + 1 + |data| && BigEndian(tx[1..n + 1]) == addr
    requires addr % d.pageSize + |data| <= d.pageSize
    ensures forall k: nat | Targets(d, c, tx, k) :: addr <= k < addr + |data|
  {
    forall i: nat | i < |data| {
      WrapWithinPage(d.pageSize, addr, i);
    }
  }
}
