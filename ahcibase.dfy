/**
 * The AHCI host bus adapter driver (Serial ATA AHCI 1.3.1): the decode of
 * the host capabilities, the choice of the ports that carry an ATA drive,
 * the per-port command list with its 32-bit `commandsInUse` mask, the
 * construction of a command (header, register FIS and physical region
 * descriptor table), and the interrupt that reads the identify data or
 * completes commands.
 *
 * The `commandsInUse` mask is the set of the slot numbers whose bit is
 * set; a port's command list, command tables and requests are values in
 * its `PortInfo`. Registers the device changes on its own (PxSSTS, PxSIG,
 * PxCI, IS) are parameters read when the driver reads them; the registers
 * the driver writes are fields. Handlers are numbers, with 0 for the null
 * pointer, and a call is recorded, not made.
 */
module Ahci {
  import opened Machine
  import PhysAlloc

  const PageSize: nat := PhysAlloc.PageSize

  /* ---------------------------------------------------------------------- */
  /* Host capabilities and the ABAR                                         */
  /* ---------------------------------------------------------------------- */

  /** The ABAR's physical address: BAR5 with bits 12:0 cleared. */
  function AbarAddress(bar5: nat): (r: nat)
    ensures r % 0x2000 == 0 && r <= bar5 < r + 0x2000
  {
    bar5 - bar5 % 0x2000
  }

  datatype Capabilities = Capabilities(ports: nat, slots: nat, supports64Bit: bool, staggeredSpinUp: bool)

  /** CAP: bits 4:0 are the ports less one, 12:8 the command slots less one, 27 staggered spin-up, 31 64-bit addressing. */
  function DecodeCapabilities(cap: nat): (r: Capabilities)
    ensures 1 <= r.ports <= 32 && 1 <= r.slots <= 32
  {
    Capabilities(cap % 32 + 1, cap / 0x100 % 32 + 1, cap / 0x8000_0000 % 2 == 1, cap / 0x800_0000 % 2 == 1)
  }

  /** The CAP value with exactly the given fields and every other bit clear. */
  function EncodeCapabilities(c: Capabilities): (cap: nat)
    requires 1 <= c.ports <= 32 && 1 <= c.slots <= 32
    ensures IsU32(cap)
  {
    (c.ports - 1) + 0x100 * (c.slots - 1)
      + (if c.staggeredSpinUp then 0x800_0000 else 0) + (if c.supports64Bit then 0x8000_0000 else 0)
  }

  /** Each field is read back from the bits it occupies. */
  lemma DecodeEncode(c: Capabilities)
    requires 1 <= c.ports <= 32 && 1 <= c.slots <= 32
    ensures DecodeCapabilities(EncodeCapabilities(c)) == c
  {
    var cap := EncodeCapabilities(c);
    var s := if c.staggeredSpinUp then 1 else 0;
    var w := if c.supports64Bit then 1 else 0;
    DivModUnique(cap, 32, 8 * (c.slots - 1) + 0x40_0000 * s + 0x400_0000 * w, c.ports - 1);
    var q := (c.slots - 1) + 0x8_0000 * s + 0x80_0000 * w;
    DivModUnique(cap, 0x100, q, c.ports - 1);
    DivModUnique(q, 32, 0x4000 * s + 0x4_0000 * w, c.slots - 1);
    DivModUnique(cap, 0x800_0000, 16 * w + s, (c.ports - 1) + 0x100 * (c.slots - 1));
    DivModUnique(16 * w + s, 2, 8 * w, s);
    DivModUnique(cap, 0x8000_0000, w, (c.ports - 1) + 0x100 * (c.slots - 1) + 0x800_0000 * s);
  }

  /** Setup goes on only with 64-bit addressing and without staggered spin-up. */
  predicate Usable(c: Capabilities)
  {
    c.supports64Bit && !c.staggeredSpinUp
  }

  /* ---------------------------------------------------------------------- */
  /* Ports                                                                  */
  /* ---------------------------------------------------------------------- */

  /** What a port shows once COMRESET is over: PxSSTS and PxSIG. */
  datatype PortStatus = PortStatus(sataStatus: nat, signature: nat)

  /** PxSSTS.DET: a device is present and communication is established. */
  const DetectionEstablished: nat := 3
  /** PxSIG of an ATA drive. */
  const AtaSignature: nat := 0x0000_0101

  /** A port carries a drive the driver uses: implemented, communicating and with the ATA signature. */
  predicate Accepted(implemented: set<nat>, i: nat, s: PortStatus)
  {
    i in implemented && s.sataStatus % 16 == DetectionEstablished && s.signature == AtaSignature
  }

  /** The list of drives after the port loop over ports `0 .. n - 1`. */
  function Drives(n: nat, implemented: set<nat>, statuses: seq<PortStatus>): (r: seq<nat>)
    requires n <= |statuses|
    ensures |r| <= n
    ensures forall i: nat :: i in r <==> i < n && Accepted(implemented, i, statuses[i])
    ensures forall k :: 0 <= k < |r| ==> r[k] < n
    ensures forall a, b :: 0 <= a < b < |r| ==> r[a] < r[b]
  {
    if n == 0 then []
    else Drives(n - 1, implemented, statuses) + (if Accepted(implemented, n - 1, statuses[n - 1]) then [n - 1] else [])
  }

  /* ---------------------------------------------------------------------- */
  /* Command slots                                                          */
  /* ---------------------------------------------------------------------- */

  /** Bits of `commandsInUse`. */
  const SlotBits: nat := 32

  /** A bit number of the mask. */
  predicate IsSlot(j: nat)
  {
    j < SlotBits
  }

  /** The bits from `i` up to 31. */
  function SlotsFrom(i: nat): (r: set<nat>)
    ensures forall j :: j in r <==> i <= j < SlotBits
  {
    set j: nat | i <= j < SlotBits && IsSlot(j)
  }

  /** The mask with every bit set, `0xffffffff`. */
  function AllSlots(): set<nat>
  {
    SlotsFrom(0)
  }

  /** The bits of the slots the controller does not have. */
  function HighSlots(slots: nat): set<nat>
  {
    SlotsFrom(slots)
  }

  /** The free-slot loop of port setup: bit `j` is set exactly when `j` is not a slot of the controller. */
  method ReservedSlots(slots: nat) returns (inUse: set<nat>)
    ensures forall j :: j in inUse <==> slots <= j < SlotBits
    ensures inUse == HighSlots(slots)
  {
    inUse := {};
    for i := 0 to SlotBits
      invariant forall j :: j in inUse <==> slots <= j < i
    {
      if i >= slots {
        inUse := inUse + {i};
      }
    }
  }

  /** The lowest slot from `i` up to `slots - 1` whose bit is clear. */
  function LowestFree(inUse: set<nat>, slots: nat, i: nat): (r: Option<nat>)
    requires i <= slots
    ensures r.Some? ==> i <= r.value < slots && r.value !in inUse && forall j :: i <= j < r.value ==> j in inUse
    ensures r.None? ==> forall j :: i <= j < slots ==> j in inUse
    decreases slots - i
  {
    if i == slots then None
    else if i !in inUse then Some(i)
    else LowestFree(inUse, slots, i + 1)
  }

  /** The slot search of `issueCommand`. */
  method FindFreeSlot(inUse: set<nat>, slots: nat) returns (slot: nat, found: bool)
    ensures found <==> LowestFree(inUse, slots, 0).Some?
    ensures found ==> slot == LowestFree(inUse, slots, 0).value
  {
    slot, found := 0, false;
    var i := 0;
    while i < slots
      invariant i <= slots && LowestFree(inUse, slots, 0) == LowestFree(inUse, slots, i)
    {
      if i !in inUse {
        return i, true;
      }
      i := i + 1;
    }
  }

  /**
   * With the slots the controller lacks marked in use, a mask that is not
   * all ones has a clear bit below the slot count: the halt after the
   * slot search cannot be reached.
   */
  lemma FreeSlotExists(inUse: set<nat>, slots: nat)
    requires slots <= SlotBits && HighSlots(slots) <= inUse <= AllSlots() && inUse != AllSlots()
    ensures LowestFree(inUse, slots, 0).Some?
  {
    assert !(AllSlots() <= inUse);
    var j :| j in AllSlots() && j !in inUse;
    assert j < slots;
  }

  /* ---------------------------------------------------------------------- */
  /* Commands                                                               */
  /* ---------------------------------------------------------------------- */

  /** The arguments of `issueCommand`; `pages` are the physical pages of the data object. */
  datatype Command = Command(command: nat, sectors: nat, sector: nat, mediaAccess: bool, write: bool,
                             pages: seq<nat>, handler: nat, handlerData: nat)

  datatype Request = Request(sector: nat, count: nat, write: bool, handler: nat, handlerData: nat)

  datatype CommandHeader = CommandHeader(fisLength: nat, write: bool, prdtLength: nat, tableLow: nat, tableHigh: nat)

  /** One physical region descriptor: the page, its byte count less one and the interrupt bit. */
  datatype Region = Region(addressLow: nat, addressHigh: nat, byteCount: nat, interrupt: bool)

  /** The fields of the host-to-device register FIS that the driver writes. */
  datatype CommandFis = CommandFis(fisType: nat, isCommand: bool, command: nat, lba: seq<Byte>,
                                   device: nat, countLow: nat, countHigh: nat)

  datatype CommandTable = CommandTable(fis: CommandFis, regions: seq<Region>)

  /** What the driver keeps about one port. */
  datatype PortInfo = PortInfo(portNumber: nat, identifyBuffer: Option<nat>, identified: bool, inUse: set<nat>,
                               requests: seq<Request>, sectorSize: nat, sectorCount: nat,
                               headers: seq<CommandHeader>, tables: seq<CommandTable>)

  const CommandFisLength: nat := 5
  const RegisterHostToDevice: nat := 0x27
  /** The device register with the LBA bit (bit 6) set. */
  const LbaMode: nat := 0x40
  /** Entries of a command table; each covers one page. */
  const MaxRegions: nat := 128
  const SectorSize: nat := 512
  const IdentifyCommand: nat := 0xec
  const ReadDmaExtCommand: nat := 0x25

  function ZeroHeader(): CommandHeader
  {
    CommandHeader(0, false, 0, 0, 0)
  }

  function ZeroTable(): (t: CommandTable)
    ensures |t.regions| == MaxRegions
  {
    CommandTable(CommandFis(0, false, 0, [0, 0, 0, 0, 0, 0], 0, 0, 0), seq(MaxRegions, _ => Region(0, 0, 0, false)))
  }

  /** A `PortInfo` as `new PortInfo[n]` leaves it: not identified, no slot in use. */
  function EmptyPort(): PortInfo
  {
    PortInfo(0, None, false, {}, seq(SlotBits, _ => Request(0, 0, false, 0, 0)), 0, 0,
             seq(SlotBits, _ => ZeroHeader()), seq(SlotBits, _ => ZeroTable()))
  }

  /** The shape every `PortInfo` keeps: 32 slots, each table with 128 descriptors. */
  predicate WellFormed(p: PortInfo)
  {
    |p.requests| == SlotBits && |p.headers| == SlotBits && |p.tables| == SlotBits
    && (forall j :: 0 <= j < SlotBits ==> |p.tables[j].regions| == MaxRegions)
    && p.inUse <= AllSlots()
  }

  /** A port right after a successful setup. */
  predicate Ready(p: PortInfo, slots: nat)
  {
    WellFormed(p) && p.inUse == HighSlots(slots) && p.sectorSize == SectorSize && !p.identified
  }

  function Low32(x: nat): nat
  {
    x % U32Modulus
  }

  function High32(x: nat): nat
  {
    x / U32Modulus % U32Modulus
  }

  /** A 64-bit address is the two 32-bit fields it is split into. */
  lemma SplitJoins(x: nat)
    requires IsU64(x)
    ensures IsU32(Low32(x)) && IsU32(High32(x)) && High32(x) * U32Modulus + Low32(x) == x
  {
    DivModUnique(x / U32Modulus, U32Modulus, 0, x / U32Modulus);
  }

  /** `prdtLength`: one descriptor per started page of the transfer. */
  function RegionCount(bytes: nat): (n: nat)
    ensures n * PageSize >= bytes && (n == 0 || (n - 1) * PageSize < bytes)
    ensures bytes <= MaxRegions * PageSize ==> n <= MaxRegions
  {
    var t := bytes + (PageSize - 1);
    assert t == t / PageSize * PageSize + t % PageSize;
    t / PageSize
  }

  /** LBA bytes 0 to 5: byte `k` of the sector number, `(sector >> 8k) & 0xff`. */
  function LbaBytes(sector: nat): (r: seq<Byte>)
    ensures |r| == 6 && LoadLE(r, 0, 6) == sector % ByteRange(6)
  {
    var r := seq(6, k requires 0 <= k < 6 => sector / ByteRange(k) % 0x100);
    LoadLEDigits(r, sector, 0, 6);
    r
  }

  /** The register FIS of a command. */
  function FisFor(c: Command): CommandFis
  {
    if c.mediaAccess then
      CommandFis(RegisterHostToDevice, true, c.command, LbaBytes(c.sector), LbaMode, c.sectors % 0x100, c.sectors / 0x100 % 0x100)
    else
      CommandFis(RegisterHostToDevice, true, c.command, [0, 0, 0, 0, 0, 0], 0, 0, 0)
  }

  /**
   * A register FIS from host to device carrying the command byte; for a
   * media access the LBA bytes are the little-endian sector number, the
   * device register selects LBA mode and the count bytes are the sector
   * count, otherwise all of those are zero.
   */
  lemma FisFields(c: Command)
    requires IsU16(c.sectors)
    ensures var f := FisFor(c);
      f.fisType == RegisterHostToDevice && f.isCommand && f.command == c.command && |f.lba| == 6
      && (c.mediaAccess ==>
            LoadLE(f.lba, 0, 6) == c.sector % ByteRange(6) && f.device == LbaMode
            && IsU8(f.countLow) && IsU8(f.countHigh) && f.countLow + 0x100 * f.countHigh == c.sectors)
      && (!c.mediaAccess ==> (forall k :: 0 <= k < 6 ==> f.lba[k] == 0) && f.device == 0 && f.countLow == 0 && f.countHigh == 0)
  {
    if c.mediaAccess {
      DivModUnique(c.sectors / 0x100, 0x100, 0, c.sectors / 0x100);
    }
  }

  /** The PRDT after its loop: entry `i < n` describes page `i`, the rest are left as they were. */
  function Regions(regions: seq<Region>, pages: seq<nat>, n: nat): (r: seq<Region>)
    requires |regions| == MaxRegions && n <= |pages| && n <= MaxRegions
    ensures |r| == MaxRegions
  {
    seq(MaxRegions, i requires 0 <= i < MaxRegions =>
      if i < n then Region(Low32(pages[i]), High32(pages[i]), PageSize - 1, true) else regions[i])
  }

  /** Each of the first `n` descriptors covers a whole page at that page's address and raises an interrupt. */
  lemma RegionsCoverPages(regions: seq<Region>, pages: seq<nat>, n: nat, i: nat)
    requires |regions| == MaxRegions && n <= |pages| && n <= MaxRegions && i < MaxRegions
    ensures var r := Regions(regions, pages, n)[i];
      i < n && IsU64(pages[i]) ==> r.byteCount + 1 == PageSize && r.interrupt && IsU32(r.addressLow) && IsU32(r.addressHigh)
                                   && r.addressHigh * U32Modulus + r.addressLow == pages[i]
    ensures n <= i ==> Regions(regions, pages, n)[i] == regions[i]
  {
    if i < n && IsU64(pages[i]) {
      SplitJoins(pages[i]);
    }
  }

  /** The PRDT loop; a page index past the end of the data object's page list halts, as the list's `get` does. */
  method FillRegions(regions: seq<Region>, pages: seq<nat>, n: nat) returns (r: Outcome<seq<Region>>)
    requires |regions| == MaxRegions && n <= MaxRegions
    ensures r.Hang? <==> n > |pages|
    ensures r.Ok? ==> r.value == Regions(regions, pages, n)
  {
    var table := regions;
    for i := 0 to n
      invariant i <= |pages| || i == 0
      invariant i <= |pages| ==> table == Regions(regions, pages, i)
    {
      if i >= |pages| {
        return Hang;
      }
      table := table[i := Region(Low32(pages[i]), High32(pages[i]), PageSize - 1, true)];
    }
    if n > |pages| {
      return Hang;
    }
    return Ok(table);
  }

  /** What `issueCommand` leaves behind. */
  datatype Issued = Refused | Issued(slot: nat, port: PortInfo)

  /** The port after the command is written into `slot`, its request recorded and its bit set. */
  function Fill(p: PortInfo, slot: nat, c: Command, n: nat): PortInfo
    requires WellFormed(p) && slot < SlotBits && n <= |c.pages| && n <= MaxRegions
  {
    p.(headers := p.headers[slot := p.headers[slot].(fisLength := CommandFisLength, write := c.write, prdtLength := n)],
       tables := p.tables[slot := CommandTable(FisFor(c), Regions(p.tables[slot].regions, c.pages, n))],
       requests := p.requests[slot := Request(c.sector, c.sectors, c.write, c.handler, c.handlerData)],
       inUse := p.inUse + {slot})
  }

  /** `issueCommand` on one port of a controller with `slots` command slots. */
  function Issue(p: PortInfo, slots: nat, c: Command): (r: Outcome<Issued>)
    requires WellFormed(p) && slots <= SlotBits
    ensures r.Ok? && r.value.Issued? ==> r.value.slot < slots && WellFormed(r.value.port)
  {
    if p.inUse == AllSlots() then Ok(Refused)
    else if c.sectors * p.sectorSize > MaxRegions * PageSize then Ok(Refused)
    else match LowestFree(p.inUse, slots, 0)
      case None => Hang
      case Some(slot) =>
        var n := RegionCount(c.sectors * p.sectorSize);
        if n > |c.pages| then Hang else Ok(Issued(slot, Fill(p, slot, c, n)))
  }

  /** A command is refused exactly when every bit is in use or it needs more than 128 pages; a refusal changes nothing. */
  lemma IssueRefuses(p: PortInfo, slots: nat, c: Command)
    requires WellFormed(p) && slots <= SlotBits
    ensures Issue(p, slots, c) == Ok(Refused)
        <==> p.inUse == AllSlots() || c.sectors * p.sectorSize > MaxRegions * PageSize
  {
    match Issue(p, slots, c) {
      case Hang =>
      case Ok(i) =>
        if i.Issued? {
          assert LowestFree(p.inUse, slots, 0).Some?;
        }
    }
  }

  /**
   * On a port that holds its missing slots in use, a command that fits and
   * whose data object has the pages the transfer needs is issued: into the
   * lowest free slot, with its request recorded and its bit set, the
   * header holding the FIS length, the direction and one descriptor per
   * started page, and the table holding its FIS and descriptors. Nothing
   * outside the slot changes.
   */
  lemma IssueTakesLowestSlot(p: PortInfo, slots: nat, c: Command)
    requires WellFormed(p) && 1 <= slots <= SlotBits && HighSlots(slots) <= p.inUse && p.inUse != AllSlots()
    requires c.sectors * p.sectorSize <= MaxRegions * PageSize && RegionCount(c.sectors * p.sectorSize) <= |c.pages|
    ensures Issue(p, slots, c).Ok? && Issue(p, slots, c).value.Issued?
    ensures var Issued(s, q) := Issue(p, slots, c).value;
      var n := RegionCount(c.sectors * p.sectorSize);
      s < slots && s !in p.inUse && (forall j :: 0 <= j < s ==> j in p.inUse)
      && WellFormed(q) && q.inUse == p.inUse + {s}
      && q.requests[s] == Request(c.sector, c.sectors, c.write, c.handler, c.handlerData)
      && q.headers[s].fisLength == CommandFisLength && q.headers[s].write == c.write && q.headers[s].prdtLength == n
      && n * PageSize >= c.sectors * p.sectorSize && (n == 0 || (n - 1) * PageSize < c.sectors * p.sectorSize)
      && q.tables[s] == CommandTable(FisFor(c), Regions(p.tables[s].regions, c.pages, n))
      && (forall j :: 0 <= j < SlotBits && j != s ==>
            q.requests[j] == p.requests[j] && q.headers[j] == p.headers[j] && q.tables[j] == p.tables[j])
      && q.identified == p.identified && q.identifyBuffer == p.identifyBuffer && q.portNumber == p.portNumber
      && q.sectorSize == p.sectorSize && q.sectorCount == p.sectorCount
  {
    FreeSlotExists(p.inUse, slots);
  }

  /* ---------------------------------------------------------------------- */
  /* Port setup                                                             */
  /* ---------------------------------------------------------------------- */

  /** Physical pages allocated for a port: the command list, the received-FIS area and one table per slot. */
  datatype PortPages = PortPages(commandList: nat, receivedFis: nat, commandTables: seq<nat>)

  /** The port registers the driver writes: PxCLB/PxCLBU, PxFB/PxFBU and PxCI. */
  datatype PortControl = PortControl(listLow: nat, listHigh: nat, fisLow: nat, fisHigh: nat, commandIssue: set<nat>)

  /** The zeroed command list after its header loop: slot `i < slots` points at its table and allows 128 descriptors. */
  function HeadersFor(slots: nat, tables: seq<nat>): (r: seq<CommandHeader>)
    requires slots <= |tables|
    ensures |r| == SlotBits
  {
    seq(SlotBits, i requires 0 <= i < SlotBits =>
      if i < slots then ZeroHeader().(prdtLength := MaxRegions, tableLow := Low32(tables[i]), tableHigh := High32(tables[i]))
      else ZeroHeader())
  }

  /** The header loop of port setup. */
  method FillHeaders(slots: nat, tables: seq<nat>) returns (headers: seq<CommandHeader>)
    requires slots <= SlotBits && slots <= |tables|
    ensures headers == HeadersFor(slots, tables)
  {
    headers := seq(SlotBits, _ => ZeroHeader());
    for i := 0 to slots
      invariant |headers| == SlotBits
      invariant forall j :: 0 <= j < SlotBits ==> headers[j] == if j < i then HeadersFor(slots, tables)[j] else ZeroHeader()
    {
      headers := headers[i := headers[i].(prdtLength := MaxRegions, tableLow := Low32(tables[i]), tableHigh := High32(tables[i]))];
    }
  }

  /** A port entry after `initializePort`, successful or not. */
  function PortAfterSetup(q: PortInfo, port: nat, slots: nat, pages: PortPages, ok: bool): PortInfo
    requires WellFormed(q) && slots <= SlotBits && slots <= |pages.commandTables|
  {
    var q' := q.(portNumber := port, headers := HeadersFor(slots, pages.commandTables),
                 tables := seq(SlotBits, i requires 0 <= i < SlotBits => if i < slots then ZeroTable() else q.tables[i]));
    if ok then q'.(inUse := HighSlots(slots), sectorSize := SectorSize) else q'
  }

  /**
   * After a successful setup the port is ready: exactly the bits of the
   * missing slots are in use and sectors are 512 bytes; every slot's
   * header points at its own command table and allows 128 descriptors.
   */
  lemma SetupReadiesPort(q: PortInfo, port: nat, slots: nat, pages: PortPages)
    requires WellFormed(q) && !q.identified && slots <= SlotBits && slots <= |pages.commandTables|
    requires forall i :: 0 <= i < slots ==> IsU64(pages.commandTables[i])
    ensures WellFormed(PortAfterSetup(q, port, slots, pages, true))
    ensures var p := PortAfterSetup(q, port, slots, pages, true);
      Ready(p, slots) && p.portNumber == port && p.identifyBuffer == q.identifyBuffer
    ensures var p := PortAfterSetup(q, port, slots, pages, true);
      forall j :: j in p.inUse <==> slots <= j < SlotBits
    ensures var p := PortAfterSetup(q, port, slots, pages, true);
      forall i :: 0 <= i < slots ==>
           p.headers[i].prdtLength == MaxRegions
           && p.headers[i].tableHigh * U32Modulus + p.headers[i].tableLow == pages.commandTables[i]
  {
    var p := PortAfterSetup(q, port, slots, pages, true);
    assert p.inUse <= AllSlots();
    assert |p.headers| == SlotBits && |p.tables| == SlotBits;
    forall j | 0 <= j < SlotBits ensures |p.tables[j].regions| == MaxRegions {
      if j < slots {
        assert p.tables[j] == ZeroTable();
      } else {
        assert p.tables[j] == q.tables[j];
      }
    }
    forall i | 0 <= i < slots {
      SplitJoins(pages.commandTables[i]);
    }
  }

  /* ---------------------------------------------------------------------- */
  /* Identification and completion                                          */
  /* ---------------------------------------------------------------------- */

  /** The port's identify buffer holds a whole page of physical memory. */
  predicate Readable(p: PortInfo, memory: Bytes)
  {
    p.identifyBuffer.Some? && p.identifyBuffer.value + PageSize <= |memory|
  }

  /** Word `k` of the identify data at `a`. */
  function IdentifyWord(memory: Bytes, a: nat, k: nat): nat
    requires a + 2 * k + 2 <= |memory|
  {
    LoadLE(memory, a + 2 * k, 2)
  }

  /** The sector count from identify words 100 to 103, least significant first; the words occupy disjoint bits, so the ORs are sums. */
  function IdentifiedSectors(memory: Bytes, a: nat): nat
    requires a + 208 <= |memory|
  {
    IdentifyWord(memory, a, 100) + IdentifyWord(memory, a, 101) * 0x1_0000
      + IdentifyWord(memory, a, 102) * 0x1_0000_0000 + IdentifyWord(memory, a, 103) * 0x1_0000_0000_0000
  }

  /** The sector count is the 64-bit little-endian number at byte 200 of the identify data. */
  lemma IdentifiedSectorsLE(memory: Bytes, a: nat)
    requires a + 208 <= |memory|
    ensures IdentifiedSectors(memory, a) == LoadLE(memory, a + 200, 8)
    ensures IsU64(IdentifiedSectors(memory, a))
  {
    LoadLESplit(memory, a + 200, 6);
    LoadLESplit(memory, a + 202, 4);
    LoadLESplit(memory, a + 204, 2);
    LoadLESplit(memory, a + 206, 0);
    LoadLEBelow(memory, a + 200, 8);
    assert ByteRange(8) == U64Modulus;
  }

  /** A load of `2 + width` bytes is the first 16-bit word plus the rest shifted by 16. */
  lemma LoadLESplit(m: Bytes, at: nat, width: nat)
    requires at + 2 + width <= |m|
    ensures LoadLE(m, at, 2 + width) == LoadLE(m, at, 2) + 0x1_0000 * LoadLE(m, at + 2, width)
  {
    assert LoadLE(m, at, 2 + width) == m[at] + 0x100 * (m[at + 1] + 0x100 * LoadLE(m, at + 2, width));
  }

  datatype Callback = Callback(handler: nat, data: nat)

  /** The slots below `n` that are in use and whose command the device has completed, lowest first. */
  function Completed(inUse: set<nat>, commandIssue: set<nat>, n: nat): (r: seq<nat>)
    ensures forall k :: 0 <= k < |r| ==> r[k] < n
    ensures forall a, b :: 0 <= a < b < |r| ==> r[a] < r[b]
  {
    if n == 0 then []
    else Completed(inUse, commandIssue, n - 1) + (if n - 1 in inUse && n - 1 !in commandIssue then [n - 1] else [])
  }

  /** The scan yields exactly the slots below `n` that are in use and finished. */
  lemma {:induction false} CompletedMembers(inUse: set<nat>, commandIssue: set<nat>, n: nat)
    ensures forall j: nat :: j in Completed(inUse, commandIssue, n) <==> j < n && j in inUse && j !in commandIssue
  {
    if n > 0 {
      CompletedMembers(inUse, commandIssue, n - 1);
    }
  }

  /** The handlers of the given slots' requests, in order. */
  function Calls(requests: seq<Request>, slots: seq<nat>): seq<Callback>
    requires forall k :: 0 <= k < |slots| ==> slots[k] < |requests|
  {
    if |slots| == 0 then []
    else
      var j := slots[|slots| - 1];
      Calls(requests, slots[..|slots| - 1]) + [Callback(requests[j].handler, requests[j].handlerData)]
  }

  /** The slots still in use after a completion scan of slots `0 .. n - 1`. */
  function Kept(inUse: set<nat>, commandIssue: set<nat>, n: nat): (r: set<nat>)
    ensures forall j :: j in r <==> j in inUse && (n <= j || j in commandIssue)
  {
    set j | j in inUse && (n <= j || j in commandIssue)
  }

  /**
   * The completion loop over slots `0 .. n - 1`: every finished slot is
   * released and its request's handler called once, in slot order;
   * nothing else changes.
   */
  method CompleteCommands(p: PortInfo, commandIssue: set<nat>, n: nat) returns (q: PortInfo, calls: seq<Callback>)
    requires WellFormed(p) && n <= SlotBits
    ensures q == p.(inUse := Kept(p.inUse, commandIssue, n))
    ensures calls == Calls(p.requests, Completed(p.inUse, commandIssue, n))
  {
    var inUse := p.inUse;
    calls := [];
    for j := 0 to n
      invariant inUse == Kept(p.inUse, commandIssue, j)
      invariant calls == Calls(p.requests, Completed(p.inUse, commandIssue, j))
    {
      CompletionStep(p, commandIssue, j);
      if j !in commandIssue && j in inUse {
        inUse := inUse - {j};
        calls := calls + [Callback(p.requests[j].handler, p.requests[j].handlerData)];
      }
    }
    q := p.(inUse := inUse);
  }

  /** One step of the completion scan: slot `j` is released and called exactly when it is in use and finished. */
  lemma CompletionStep(p: PortInfo, commandIssue: set<nat>, j: nat)
    requires WellFormed(p) && j < SlotBits
    ensures j in Kept(p.inUse, commandIssue, j) <==> j in p.inUse
    ensures var done := Completed(p.inUse, commandIssue, j);
      if j in p.inUse && j !in commandIssue then
        Kept(p.inUse, commandIssue, j + 1) == Kept(p.inUse, commandIssue, j) - {j}
        && Calls(p.requests, Completed(p.inUse, commandIssue, j + 1))
           == Calls(p.requests, done) + [Callback(p.requests[j].handler, p.requests[j].handlerData)]
      else
        Kept(p.inUse, commandIssue, j + 1) == Kept(p.inUse, commandIssue, j)
        && Completed(p.inUse, commandIssue, j + 1) == done
  {
    var done := Completed(p.inUse, commandIssue, j);
    if j in p.inUse && j !in commandIssue {
      assert Completed(p.inUse, commandIssue, j + 1) == done + [j];
      assert (done + [j])[..|done|] == done;
    }
  }

  /** Calls of the given slots' handlers: one per slot, in the order of the slots. */
  lemma {:induction false} CallsExactly(requests: seq<Request>, slots: seq<nat>)
    requires forall k :: 0 <= k < |slots| ==> slots[k] < |requests|
    ensures |Calls(requests, slots)| == |slots|
    ensures forall k :: 0 <= k < |slots| ==>
      Calls(requests, slots)[k] == Callback(requests[slots[k]].handler, requests[slots[k]].handlerData)
  {
    if |slots| > 0 {
      CallsExactly(requests, slots[..|slots| - 1]);
    }
  }

  /* ---------------------------------------------------------------------- */
  /* The interrupt                                                          */
  /* ---------------------------------------------------------------------- */

  /**
   * `handleInterrupt` for one port whose IS bit is set. A port not yet
   * identified takes its sector count from its identify data and becomes
   * identified, leaving `commandsInUse` as it is; an identified port scans
   * all 32 bits, releasing each bit in use whose PxCI bit is clear and
   * calling the handler of that slot's request.
   */
  function Service(p: PortInfo, commandIssue: set<nat>, memory: Bytes): (PortInfo, seq<Callback>)
    requires WellFormed(p) && (!p.identified ==> Readable(p, memory))
  {
    if !p.identified then
      (p.(sectorCount := IdentifiedSectors(memory, p.identifyBuffer.value), identified := true), [])
    else
      (p.(inUse := Kept(p.inUse, commandIssue, SlotBits)), Calls(p.requests, Completed(p.inUse, commandIssue, SlotBits)))
  }

  /** The first interrupt of a port reads the 64-bit sector count at byte 200 of its identify buffer, calls nothing and frees nothing. */
  lemma ServiceIdentifies(p: PortInfo, commandIssue: set<nat>, memory: Bytes)
    requires WellFormed(p) && !p.identified && Readable(p, memory)
    ensures var (q, calls) := Service(p, commandIssue, memory);
      q.identified && q.sectorCount == LoadLE(memory, p.identifyBuffer.value + 200, 8) && IsU64(q.sectorCount)
      && calls == [] && q == p.(sectorCount := q.sectorCount, identified := true) && WellFormed(q)
  {
    IdentifiedSectorsLE(memory, p.identifyBuffer.value);
  }

  /**
   * An interrupt of an identified port keeps exactly the bits in use whose
   * PxCI bit is still set, and calls the handler of every other bit in
   * use once, lowest bit first; the rest of the port is unchanged.
   */
  lemma ServiceCompletes(p: PortInfo, commandIssue: set<nat>, memory: Bytes)
    requires WellFormed(p) && p.identified
    ensures var (q, calls) := Service(p, commandIssue, memory);
      var done := Completed(p.inUse, commandIssue, SlotBits);
      (forall j :: j in q.inUse <==> j in p.inUse && j in commandIssue)
      && (forall j: nat :: j in done <==> j in p.inUse && j !in commandIssue)
      && (forall a, b :: 0 <= a < b < |done| ==> done[a] < done[b])
      && q == p.(inUse := q.inUse) && WellFormed(q) && |calls| == |done|
      && forall k :: 0 <= k < |done| ==>
           calls[k] == Callback(p.requests[done[k]].handler, p.requests[done[k]].handlerData)
  {
    CallsExactly(p.requests, Completed(p.inUse, commandIssue, SlotBits));
    CompletedMembers(p.inUse, commandIssue, SlotBits);
  }

  /**
   * The first interrupt of port `p` has no identify data to read: the
   * entry holds no buffer, or one outside memory. The source reads through
   * `mappedIdentifyData` all the same, which nothing has set for such an
   * entry; the model takes that read as a fault that stops the machine.
   */
  predicate IdentifyFaults(p: PortInfo, memory: Bytes)
  {
    !p.identified && !Readable(p, memory)
  }

  /**
   * The interrupt of one port, proved against `Service`: `halted` exactly
   * when its identify read faults, and then nothing changes and nothing
   * is called.
   */
  method ServicePort(p: PortInfo, commandIssue: set<nat>, memory: Bytes) returns (q: PortInfo, calls: seq<Callback>, halted: bool)
    requires WellFormed(p)
    ensures halted <==> IdentifyFaults(p, memory)
    ensures halted ==> q == p && calls == []
    ensures !halted ==> (q, calls) == Service(p, commandIssue, memory)
  {
    halted := false;
    if !p.identified {
      if !Readable(p, memory) {
        return p, [], true;
      }
      var count := IdentifiedSectors(memory, p.identifyBuffer.value);
      q, calls := p.(sectorCount := count, identified := true), [];
    } else {
      q, calls := CompleteCommands(p, commandIssue, SlotBits);
    }
  }

  /** Every entry the interrupt may read is well formed. */
  predicate Serviceable(infos: seq<PortInfo>, status: set<nat>, memory: Bytes)
  {
    forall i :: 0 <= i < |infos| ==> WellFormed(infos[i])
  }

  /** No port before `n` has its IS bit set and an identify read that faults. */
  predicate NoFaultBefore(infos: seq<PortInfo>, status: set<nat>, memory: Bytes, n: nat)
    requires n <= |infos|
  {
    forall j :: 0 <= j < n ==> !(j in status && IdentifyFaults(infos[j], memory))
  }

  /**
   * The interrupt loop over the ports stops at `stop`: the first port
   * whose IS bit is set and whose identify read faults, or the number of
   * ports when there is none.
   */
  predicate StopsAt(infos: seq<PortInfo>, status: set<nat>, memory: Bytes, stop: nat)
  {
    stop <= |infos| && NoFaultBefore(infos, status, memory, stop)
    && (stop < |infos| ==> stop in status && IdentifyFaults(infos[stop], memory))
  }

  /** The loop has one place to stop. */
  lemma StopUnique(infos: seq<PortInfo>, status: set<nat>, memory: Bytes, s: nat, t: nat)
    requires StopsAt(infos, status, memory, s) && StopsAt(infos, status, memory, t)
    ensures s == t
  {
  }

  /**
   * The port entries once the interrupt loop has passed the ports before
   * `n`, none of which faulted: those whose IS bit is set are served, every
   * other entry is as it was.
   */
  function Serviced(infos: seq<PortInfo>, status: set<nat>, commandIssue: seq<set<nat>>, memory: Bytes, n: nat): (r: seq<PortInfo>)
    requires Serviceable(infos, status, memory) && |commandIssue| >= |infos| && n <= |infos| && NoFaultBefore(infos, status, memory, n)
    ensures |r| == |infos|
    ensures forall i :: 0 <= i < |infos| ==> WellFormed(r[i])
  {
    seq(|infos|, i requires 0 <= i < |infos| =>
      if i < n && i in status then Service(infos[i], commandIssue[i], memory).0 else infos[i])
  }

  /** Passing one more port serves it when its IS bit is set and changes no other entry. */
  lemma ServicedStep(infos: seq<PortInfo>, status: set<nat>, commandIssue: seq<set<nat>>, memory: Bytes, n: nat)
    requires Serviceable(infos, status, memory) && |commandIssue| >= |infos| && n < |infos| && NoFaultBefore(infos, status, memory, n + 1)
    ensures NoFaultBefore(infos, status, memory, n)
    ensures Serviced(infos, status, commandIssue, memory, n + 1) ==
      if n in status then Serviced(infos, status, commandIssue, memory, n)[n := Service(infos[n], commandIssue[n], memory).0]
      else Serviced(infos, status, commandIssue, memory, n)
  {
    var before := Serviced(infos, status, commandIssue, memory, n);
    var after := Serviced(infos, status, commandIssue, memory, n + 1);
    assert !(n in status && IdentifyFaults(infos[n], memory));
    if n in status {
      var q := Service(infos[n], commandIssue[n], memory).0;
      assert after == before[n := q] by {
        forall i | 0 <= i < |infos|
          ensures after[i] == before[n := q][i]
        {
        }
      }
    } else {
      assert after == before by {
        forall i | 0 <= i < |infos|
          ensures after[i] == before[i]
        {
        }
      }
    }
  }

  /** The handler calls of the interrupt over ports `0 .. n - 1`, none of which faulted, in port order. */
  function ServiceCalls(infos: seq<PortInfo>, status: set<nat>, commandIssue: seq<set<nat>>, memory: Bytes, n: nat): seq<Callback>
    requires Serviceable(infos, status, memory) && |commandIssue| >= |infos| && n <= |infos| && NoFaultBefore(infos, status, memory, n)
  {
    if n == 0 then []
    else
      assert !(n - 1 in status && IdentifyFaults(infos[n - 1], memory));
      ServiceCalls(infos, status, commandIssue, memory, n - 1)
      + (if n - 1 in status then Service(infos[n - 1], commandIssue[n - 1], memory).1 else [])
  }

  /* ---------------------------------------------------------------------- */
  /* Identification                                                         */
  /* ---------------------------------------------------------------------- */

  /** The IDENTIFY DEVICE command of `identifyDevices`: one sector into the one-page buffer, no handler. */
  function IdentifyRequest(buffer: nat): Command
  {
    Command(IdentifyCommand, 1, 0, false, false, [buffer], 0, 0)
  }

  /** A ready port once its identify buffer is recorded and the identify command is in slot 0. */
  function IdentifyPort(p: PortInfo, buffer: nat): PortInfo
    requires WellFormed(p)
  {
    IdentifyInto(p.(identifyBuffer := Some(buffer)), buffer)
  }

  /** On a ready port the identify command is issued, into slot 0. */
  lemma IdentifyIssues(p: PortInfo, slots: nat, buffer: nat)
    requires Ready(p, slots) && 1 <= slots <= SlotBits
    ensures Issue(p, slots, IdentifyRequest(buffer)) == Ok(Issued(0, IdentifyInto(p, buffer)))
  {
    assert 0 !in p.inUse;
    assert RegionCount(SectorSize) == 1;
  }

  /**
   * Issued into a ready port that holds its own buffer, the identify
   * command's only descriptor points at that buffer, so the interrupt
   * reads the data the drive wrote; slot 0 holds the identify request.
   */
  lemma IdentifyReadsOwnBuffer(p: PortInfo, slots: nat, buffer: nat)
    requires Ready(p, slots) && 1 <= slots <= SlotBits && IsU64(buffer)
    ensures var q := IdentifyPort(p, buffer);
      var r := q.tables[0].regions[0];
      WellFormed(q) && q.identifyBuffer == Some(buffer) && !q.identified
      && q.headers[0].prdtLength == 1 && r.addressHigh * U32Modulus + r.addressLow == buffer && r.byteCount + 1 == PageSize
      && q.tables[0].fis.command == IdentifyCommand
      && q.requests[0] == Request(0, 1, false, 0, 0) && q.inUse == HighSlots(slots) + {0}
  {
    RegionsCoverPages(p.tables[0].regions, [buffer], 1, 0);
    var q := IdentifyPort(p, buffer);
    assert q.inUse <= AllSlots();
  }

  /** The port entries and the port command registers of the controller. */
  datatype Host = Host(infos: seq<PortInfo>, controls: seq<PortControl>)

  /** At most 32 well-formed port entries and the registers of 32 ports. */
  predicate Shaped(h: Host)
  {
    |h.infos| <= SlotBits && |h.controls| == SlotBits && forall i :: 0 <= i < |h.infos| ==> WellFormed(h.infos[i])
  }

  /** `issueCommand` on one port: an issued command's entry is replaced and only its slot's bit is written to PxCI. */
  function IssueOnHost(h: Host, port: nat, slots: nat, c: Command): (r: Outcome<Host>)
    requires Shaped(h) && port < |h.infos| && slots <= SlotBits
    ensures r.Ok? ==> Shaped(r.value) && |r.value.infos| == |h.infos|
  {
    match Issue(h.infos[port], slots, c)
    case Hang => Hang
    case Ok(Refused) => Ok(h)
    case Ok(Issued(s, q)) => Ok(Host(h.infos[port := q], h.controls[port := h.controls[port].(commandIssue := {s})]))
  }

  /** The drive list: increasing ports of the entry array, at most one per entry. */
  predicate DriveList(drives: seq<nat>, n: nat)
  {
    |drives| <= n && (forall k :: 0 <= k < |drives| ==> drives[k] < n)
    && forall a, b :: 0 <= a < b < |drives| ==> drives[a] < drives[b]
  }

  /** A strictly increasing list of ports below `n` has at most `n` of them. */
  lemma DriveListFits(drives: seq<nat>, n: nat)
    requires (forall k :: 0 <= k < |drives| ==> drives[k] < n) && forall a, b :: 0 <= a < b < |drives| ==> drives[a] < drives[b]
    ensures DriveList(drives, n)
  {
    if |drives| > 0 {
      AtLeastIndex(drives, |drives| - 1);
    }
  }

  /**
   * `identifyDevices` as written, over drive positions `0 .. n - 1`: the
   * `i`-th drive's identify page is stored in entry `i` of
   * `portInformation` and the identify command is issued on the drive's
   * own port; a page that could not be mapped halts.
   */
  function IdentifySteps(h: Host, drives: seq<nat>, buffers: seq<Option<nat>>, slots: nat, n: nat): (r: Outcome<Host>)
    requires Shaped(h) && DriveList(drives, |h.infos|) && slots <= SlotBits && n <= |drives| <= |buffers|
    ensures r.Ok? ==> Shaped(r.value) && |r.value.infos| == |h.infos|
  {
    if n == 0 then Ok(h)
    else match IdentifySteps(h, drives, buffers, slots, n - 1)
      case Hang => Hang
      case Ok(g) =>
        if buffers[n - 1].None? then Hang
        else
          var e := g.infos[n - 1].(identifyBuffer := buffers[n - 1]);
          IssueOnHost(g.(infos := g.infos[n - 1 := e]), drives[n - 1], slots, IdentifyRequest(buffers[n - 1].value))
  }

  /** The first position below `n` of port `j` in the drive list. */
  function PositionOf(drives: seq<nat>, j: nat, n: nat): (r: Option<nat>)
    requires n <= |drives|
    ensures r.Some? ==> r.value < n && drives[r.value] == j
    ensures r.None? ==> forall k :: 0 <= k < n ==> drives[k] != j
  {
    if n == 0 then None
    else match PositionOf(drives, j, n - 1)
      case Some(k) => Some(k)
      case None => if drives[n - 1] == j then Some(n - 1) else None
  }

  /** In the increasing drive list the port of the `k`-th drive is found at position `k`. */
  lemma {:induction false} PositionOfDrive(drives: seq<nat>, k: nat, n: nat)
    requires (forall a, b :: 0 <= a < b < |drives| ==> drives[a] < drives[b]) && k < n <= |drives|
    ensures PositionOf(drives, drives[k], n) == Some(k)
  {
    if k < n - 1 {
      PositionOfDrive(drives, k, n - 1);
    }
  }

  /**
   * The entries after `n` steps of `identifyDevices` as written when every
   * drive's port is ready: entry `j < n` holds the `j`-th drive's page,
   * and the port of the `k`-th drive has the identify command of the
   * `k`-th page in slot 0.
   */
  function IdentifiedEntries(infos: seq<PortInfo>, drives: seq<nat>, buffers: seq<Option<nat>>, n: nat): (r: seq<PortInfo>)
    requires (forall i :: 0 <= i < |infos| ==> WellFormed(infos[i])) && n <= |drives| && n <= |buffers|
    requires forall k :: 0 <= k < n ==> buffers[k].Some?
    ensures |r| == |infos|
    ensures forall j :: 0 <= j < |infos| ==> r[j] == EntryAfter(infos, drives, buffers, n, j)
  {
    seq(|infos|, j requires 0 <= j < |infos| => EntryAfter(infos, drives, buffers, n, j))
  }

  /** Entry `j` after `n` steps of `identifyDevices` as written on ready ports. */
  function EntryAfter(infos: seq<PortInfo>, drives: seq<nat>, buffers: seq<Option<nat>>, n: nat, j: nat): (r: PortInfo)
    requires (forall i :: 0 <= i < |infos| ==> WellFormed(infos[i])) && n <= |drives| && n <= |buffers|
    requires (forall k :: 0 <= k < n ==> buffers[k].Some?) && j < |infos|
    ensures WellFormed(r)
  {
    assert WellFormed(infos[j]);
    var e := if j < n then infos[j].(identifyBuffer := buffers[j]) else infos[j];
    assert WellFormed(e);
    match PositionOf(drives, j, n)
    case None => e
    case Some(k) => IdentifyInto(e, buffers[k].value)
  }

  /** The port once the identify command into `buffer` is in slot 0. */
  function IdentifyInto(p: PortInfo, buffer: nat): (r: PortInfo)
    requires WellFormed(p)
    ensures WellFormed(r)
  {
    Fill(p, 0, IdentifyRequest(buffer), 1)
  }

  /** The registers after `n` steps: each drive's port had its slot 0 issued. */
  function IdentifiedControls(controls: seq<PortControl>, drives: seq<nat>, n: nat): (r: seq<PortControl>)
    requires n <= |drives|
    ensures |r| == |controls|
  {
    seq(|controls|, j requires 0 <= j < |controls| =>
      if PositionOf(drives, j, n).Some? then controls[j].(commandIssue := {0}) else controls[j])
  }

  /** The preconditions under which `identifyDevices` meets only ready ports and mapped pages. */
  predicate IdentifyReady(h: Host, drives: seq<nat>, buffers: seq<Option<nat>>, slots: nat)
  {
    Shaped(h) && DriveList(drives, |h.infos|) && 1 <= slots <= SlotBits && |drives| <= |buffers|
    && (forall k :: 0 <= k < |drives| ==> buffers[k].Some?)
    && forall k :: 0 <= k < |drives| ==> Ready(h.infos[drives[k]], slots)
  }

  /** With ready ports and mapped pages every step issues into slot 0, and the steps end in `IdentifiedEntries`. */
  lemma {:induction false} IdentifyStepsReady(h: Host, drives: seq<nat>, buffers: seq<Option<nat>>, slots: nat, n: nat)
    requires IdentifyReady(h, drives, buffers, slots) && n <= |drives|
    ensures IdentifySteps(h, drives, buffers, slots, n)
         == Ok(Host(IdentifiedEntries(h.infos, drives, buffers, n), IdentifiedControls(h.controls, drives, n)))
  {
    if n > 0 {
      IdentifyStepsReady(h, drives, buffers, slots, n - 1);
      IdentifyStep(h, drives, buffers, slots, n);
    } else {
      assert IdentifiedEntries(h.infos, drives, buffers, 0) == h.infos;
      assert IdentifiedControls(h.controls, drives, 0) == h.controls;
    }
  }

  /** One step of `identifyDevices` as written on ready ports. */
  lemma IdentifyStep(h: Host, drives: seq<nat>, buffers: seq<Option<nat>>, slots: nat, n: nat)
    requires IdentifyReady(h, drives, buffers, slots) && 0 < n <= |drives|
    ensures var g := Host(IdentifiedEntries(h.infos, drives, buffers, n - 1), IdentifiedControls(h.controls, drives, n - 1));
      var e := g.infos[n - 1].(identifyBuffer := buffers[n - 1]);
      Shaped(g.(infos := g.infos[n - 1 := e]))
      && IssueOnHost(g.(infos := g.infos[n - 1 := e]), drives[n - 1], slots, IdentifyRequest(buffers[n - 1].value))
         == Ok(Host(IdentifiedEntries(h.infos, drives, buffers, n), IdentifiedControls(h.controls, drives, n)))
  {
    var prev := IdentifiedEntries(h.infos, drives, buffers, n - 1);
    var g := prev[n - 1 := prev[n - 1].(identifyBuffer := buffers[n - 1])];
    var d := drives[n - 1];
    EntriesStep(h.infos, drives, buffers, n);
    ControlsStep(h.controls, drives, n);
    assert Ready(g[d], slots);
    IdentifyIssues(g[d], slots, buffers[n - 1].value);
  }

  /** The entries step: the new page goes into entry `n - 1`, then the command into the port of drive `n - 1`. */
  lemma EntriesStep(infos: seq<PortInfo>, drives: seq<nat>, buffers: seq<Option<nat>>, n: nat)
    requires (forall i :: 0 <= i < |infos| ==> WellFormed(infos[i])) && DriveList(drives, |infos|)
    requires 0 < n <= |drives| <= |buffers| && forall k :: 0 <= k < n ==> buffers[k].Some?
    ensures var prev := IdentifiedEntries(infos, drives, buffers, n - 1);
      var d := drives[n - 1];
      var g := prev[n - 1 := prev[n - 1].(identifyBuffer := buffers[n - 1])];
      WellFormed(g[d]) && g[d] == (if d < n then infos[d].(identifyBuffer := buffers[d]) else infos[d])
      && g[d := IdentifyInto(g[d], buffers[n - 1].value)] == IdentifiedEntries(infos, drives, buffers, n)
  {
    var prev := IdentifiedEntries(infos, drives, buffers, n - 1);
    var d := drives[n - 1];
    var g := prev[n - 1 := prev[n - 1].(identifyBuffer := buffers[n - 1])];
    AtLeastIndex(drives, n - 1);
    EntryStepAtDrive(infos, drives, buffers, n);
    forall j | 0 <= j < |infos| && j != d
      ensures g[j] == IdentifiedEntries(infos, drives, buffers, n)[j]
    {
      EntryStepAtOther(infos, drives, buffers, n, j);
    }
  }

  /** The entries step at the entry of drive `n - 1`'s port, which no earlier step touched. */
  lemma EntryStepAtDrive(infos: seq<PortInfo>, drives: seq<nat>, buffers: seq<Option<nat>>, n: nat)
    requires (forall i :: 0 <= i < |infos| ==> WellFormed(infos[i])) && DriveList(drives, |infos|)
    requires 0 < n <= |drives| <= |buffers| && (forall k :: 0 <= k < n ==> buffers[k].Some?)
    ensures var d := drives[n - 1];
      var e := EntryAfter(infos, drives, buffers, n - 1, d);
      var g := if d == n - 1 then e.(identifyBuffer := buffers[n - 1]) else e;
      g == (if d < n then infos[d].(identifyBuffer := buffers[d]) else infos[d])
      && IdentifyInto(g, buffers[n - 1].value) == EntryAfter(infos, drives, buffers, n, d)
  {
    AtLeastIndex(drives, n - 1);
    assert PositionOf(drives, drives[n - 1], n - 1).None?;
    PositionOfDrive(drives, n - 1, n);
  }

  /** The entries step at any other entry: only entry `n - 1` gets its page. */
  lemma EntryStepAtOther(infos: seq<PortInfo>, drives: seq<nat>, buffers: seq<Option<nat>>, n: nat, j: nat)
    requires (forall i :: 0 <= i < |infos| ==> WellFormed(infos[i])) && DriveList(drives, |infos|)
    requires 0 < n <= |drives| <= |buffers| && (forall k :: 0 <= k < n ==> buffers[k].Some?) && j < |infos|
    requires j != drives[n - 1]
    ensures var e := EntryAfter(infos, drives, buffers, n - 1, j);
      (if j == n - 1 then e.(identifyBuffer := buffers[n - 1]) else e) == EntryAfter(infos, drives, buffers, n, j)
  {
    assert PositionOf(drives, j, n) == PositionOf(drives, j, n - 1);
    if j == n - 1 {
      match PositionOf(drives, j, n - 1)
      case None =>
      case Some(k) =>
        var x := infos[j];
        assert IdentifyInto(x, buffers[k].value).(identifyBuffer := buffers[j])
            == IdentifyInto(x.(identifyBuffer := buffers[j]), buffers[k].value);
    }
  }

  /** The registers step: the port of drive `n - 1` has its slot 0 written to PxCI. */
  lemma ControlsStep(controls: seq<PortControl>, drives: seq<nat>, n: nat)
    requires (forall a, b :: 0 <= a < b < |drives| ==> drives[a] < drives[b]) && 0 < n <= |drives| && drives[n - 1] < |controls|
    ensures var prev := IdentifiedControls(controls, drives, n - 1);
      var d := drives[n - 1];
      prev[d := prev[d].(commandIssue := {0})] == IdentifiedControls(controls, drives, n)
  {
    var prev := IdentifiedControls(controls, drives, n - 1);
    var d := drives[n - 1];
    PositionOfDrive(drives, n - 1, n);
    forall j | 0 <= j < |controls|
      ensures prev[d := prev[d].(commandIssue := {0})][j] == IdentifiedControls(controls, drives, n)[j]
    {
      if j != d {
        assert PositionOf(drives, j, n) == PositionOf(drives, j, n - 1);
      }
    }
  }

  /**
   * As written, with every drive's port ready, every page mapped, the
   * pages distinct and no entry holding a page before, the `k`-th drive's
   * identify data is written into the `k`-th page, while the entry of its
   * port, which its interrupt reads, holds the page of the drive at
   * position `drives[k]`: its own page exactly when `drives[k] == k`, and
   * none at all when `drives[k]` is not a drive position.
   */
  lemma IdentifyBufferMisplaced(h: Host, drives: seq<nat>, buffers: seq<Option<nat>>, slots: nat, k: nat)
    requires IdentifyReady(h, drives, buffers, slots) && k < |drives|
    requires forall a, b :: 0 <= a < b < |drives| ==> buffers[a] != buffers[b]
    requires forall i :: 0 <= i < |h.infos| ==> h.infos[i].identifyBuffer.None?
    ensures IdentifySteps(h, drives, buffers, slots, |drives|).Ok?
    ensures var e := IdentifySteps(h, drives, buffers, slots, |drives|).value.infos[drives[k]];
      e.tables[0].regions == Regions(h.infos[drives[k]].tables[0].regions, [buffers[k].value], 1)
      && (e.identifyBuffer == buffers[k] <==> drives[k] == k)
      && (drives[k] >= |drives| ==> e.identifyBuffer.None?)
  {
    IdentifyStepsReady(h, drives, buffers, slots, |drives|);
    var d := drives[k];
    PositionOfDrive(drives, k, |drives|);
    if d < |drives| && d != k {
      assert buffers[d] != buffers[k] by {
        if d < k {
          assert buffers[d] != buffers[k];
        } else {
          assert buffers[k] != buffers[d];
        }
      }
    }
  }

  /**
   * `identifyDevices` corrected: the `k`-th drive's page is stored in the
   * entry of its own port, where the identify command is issued.
   */
  function CorrectedIdentified(infos: seq<PortInfo>, drives: seq<nat>, buffers: seq<Option<nat>>): (r: seq<PortInfo>)
    requires (forall i :: 0 <= i < |infos| ==> WellFormed(infos[i])) && |drives| <= |buffers|
    requires forall k :: 0 <= k < |drives| ==> buffers[k].Some?
    ensures |r| == |infos|
  {
    seq(|infos|, j requires 0 <= j < |infos| =>
      match PositionOf(drives, j, |drives|)
      case None => infos[j]
      case Some(k) => IdentifyPort(infos[j], buffers[k].value))
  }

  /**
   * Corrected, every drive's entry holds its own page and the command
   * into it, so the interrupt reads the drive's own identify data; the
   * entries of the other ports are unchanged.
   */
  lemma CorrectedIdentifyOwnBuffer(h: Host, drives: seq<nat>, buffers: seq<Option<nat>>, slots: nat, k: nat)
    requires IdentifyReady(h, drives, buffers, slots) && k < |drives|
    ensures var r := CorrectedIdentified(h.infos, drives, buffers);
      r[drives[k]] == IdentifyPort(h.infos[drives[k]], buffers[k].value)
      && r[drives[k]].identifyBuffer == buffers[k]
      && forall j :: 0 <= j < |h.infos| && j !in drives ==> r[j] == h.infos[j]
  {
    PositionOfDrive(drives, k, |drives|);
  }

  /* ---------------------------------------------------------------------- */
  /* The interrupt as written against its correction                        */
  /* ---------------------------------------------------------------------- */

  /**
   * `handleInterrupt` corrected: the scan covers only the controller's
   * `slots` command slots, and the identification also releases the
   * finished slots, among them that of the identify command, whose
   * request carries no handler.
   */
  function CorrectedService(p: PortInfo, commandIssue: set<nat>, slots: nat, memory: Bytes): (PortInfo, seq<Callback>)
    requires WellFormed(p) && slots <= SlotBits && (!p.identified ==> Readable(p, memory))
  {
    if !p.identified then
      (p.(sectorCount := IdentifiedSectors(memory, p.identifyBuffer.value), identified := true,
          inUse := Kept(p.inUse, commandIssue, slots)), [])
    else
      (p.(inUse := Kept(p.inUse, commandIssue, slots)), Calls(p.requests, Completed(p.inUse, commandIssue, slots)))
  }

  /** Corrected, an identified port releases and calls exactly the finished slots below `slots`, lowest first. */
  lemma CorrectedServiceCompletes(p: PortInfo, commandIssue: set<nat>, slots: nat, memory: Bytes)
    requires WellFormed(p) && p.identified && slots <= SlotBits
    ensures var (q, calls) := CorrectedService(p, commandIssue, slots, memory);
      var done := Completed(p.inUse, commandIssue, slots);
      (forall j :: j in q.inUse <==> j in p.inUse && (slots <= j || j in commandIssue))
      && (forall j: nat :: j in done <==> j < slots && j in p.inUse && j !in commandIssue)
      && q == p.(inUse := q.inUse) && |calls| == |done|
      && forall k :: 0 <= k < |done| ==>
           done[k] < slots && calls[k] == Callback(p.requests[done[k]].handler, p.requests[done[k]].handlerData)
  {
    CallsExactly(p.requests, Completed(p.inUse, commandIssue, slots));
    CompletedMembers(p.inUse, commandIssue, slots);
  }

  /**
   * As written the identify command's slot stays in use after the
   * identification: no later command gets slot 0, and on a controller
   * with one command slot every later command is refused.
   */
  lemma IdentifySlotNeverFreed(p: PortInfo, slots: nat, buffer: nat, commandIssue: set<nat>, memory: Bytes, c: Command)
    requires Ready(p, slots) && 1 <= slots <= SlotBits && IsU64(buffer)
    requires Readable(IdentifyPort(p, buffer), memory)
    ensures var q := Service(IdentifyPort(p, buffer), commandIssue, memory).0;
      q.identified && WellFormed(q) && q.inUse == HighSlots(slots) + {0}
      && (Issue(q, slots, c).Ok? && Issue(q, slots, c).value.Issued? ==> Issue(q, slots, c).value.slot != 0)
      && (slots == 1 ==> Issue(q, slots, c) == Ok(Refused))
  {
    IdentifyReadsOwnBuffer(p, slots, buffer);
    var q := Service(IdentifyPort(p, buffer), commandIssue, memory).0;
    if slots == 1 {
      assert q.inUse == AllSlots();
    }
  }

  /**
   * Corrected, the identification releases the identify command's slot:
   * the port returns to its ready mask and the next command takes slot 0,
   * whose completion calls only that command's handler.
   */
  lemma IdentifyFreesSlot(p: PortInfo, slots: nat, buffer: nat, commandIssue: set<nat>, memory: Bytes, c: Command)
    requires Ready(p, slots) && 1 <= slots <= SlotBits && IsU64(buffer) && Readable(IdentifyPort(p, buffer), memory)
    requires 0 !in commandIssue
    requires c.sectors * SectorSize <= MaxRegions * PageSize && RegionCount(c.sectors * SectorSize) <= |c.pages|
    ensures var q := CorrectedService(IdentifyPort(p, buffer), commandIssue, slots, memory).0;
      q.identified && q.inUse == HighSlots(slots)
      && Issue(q, slots, c).Ok? && Issue(q, slots, c).value.Issued? && Issue(q, slots, c).value.slot == 0
      && CorrectedService(Issue(q, slots, c).value.port, {}, slots, memory).1 == [Callback(c.handler, c.handlerData)]
  {
    IdentifyReadsOwnBuffer(p, slots, buffer);
    var q := CorrectedService(IdentifyPort(p, buffer), commandIssue, slots, memory).0;
    assert q.inUse == HighSlots(slots);
    assert 0 !in q.inUse;
    IssueTakesLowestSlot(q, slots, c);
    var q' := Issue(q, slots, c).value.port;
    assert q'.inUse == HighSlots(slots) + {0};
    var done := Completed(q'.inUse, {}, slots);
    CorrectedServiceCompletes(q', {}, slots, memory);
    assert forall j: nat :: j in done <==> j == 0;
    ExactlyZero(done);
  }

  /** The consecutive slots `lo .. hi - 1`. */
  function Range(lo: nat, hi: nat): (r: seq<nat>)
    ensures |r| == if lo <= hi then hi - lo else 0
    ensures forall k :: 0 <= k < |r| ==> r[k] == lo + k
  {
    if hi <= lo then [] else Range(lo, hi - 1) + [hi - 1]
  }

  /** Past the controller's slots, where every bit is in use and no PxCI bit is set, the scan yields every slot in order. */
  lemma {:induction false} CompletedPastSlots(inUse: set<nat>, commandIssue: set<nat>, slots: nat, n: nat)
    requires slots <= n && forall j :: slots <= j < n ==> j in inUse && j !in commandIssue
    ensures Completed(inUse, commandIssue, n) == Completed(inUse, commandIssue, slots) + Range(slots, n)
  {
    if n > slots {
      CompletedPastSlots(inUse, commandIssue, slots, n - 1);
      var c := Completed(inUse, commandIssue, slots);
      assert Completed(inUse, commandIssue, n) == Completed(inUse, commandIssue, n - 1) + [n - 1];
      assert Range(slots, n) == Range(slots, n - 1) + [n - 1];
      assert c + Range(slots, n - 1) + [n - 1] == c + (Range(slots, n - 1) + [n - 1]);
    }
  }

  /** The calls of two runs of slots one after the other. */
  lemma {:induction false} CallsAppend(requests: seq<Request>, a: seq<nat>, b: seq<nat>)
    requires forall k :: 0 <= k < |a| ==> a[k] < |requests|
    requires forall k :: 0 <= k < |b| ==> b[k] < |requests|
    ensures Calls(requests, a + b) == Calls(requests, a) + Calls(requests, b)
  {
    if |b| > 0 {
      var b' := b[..|b| - 1];
      var j := b[|b| - 1];
      var call := [Callback(requests[j].handler, requests[j].handlerData)];
      assert (a + b)[..|a + b| - 1] == a + b' && (a + b)[|a + b| - 1] == j;
      CallsAppend(requests, a, b');
      assert Calls(requests, a + b) == Calls(requests, a + b') + call;
      assert Calls(requests, b) == Calls(requests, b') + call;
      assert Calls(requests, a) + Calls(requests, b') + call == Calls(requests, a) + (Calls(requests, b') + call);
    } else {
      assert a + b == a;
    }
  }

  /**
   * As written, on an identified port whose missing slots are held in
   * use (and whose PxCI bits for those slots, which do not exist, read
   * clear) an interrupt releases the missing slots too, and after the
   * calls the corrected interrupt makes it calls the never-set handlers of
   * their requests, one per missing slot in order; everything else agrees
   * with the corrected interrupt.
   */
  lemma ReservedSlotsCompleted(p: PortInfo, commandIssue: set<nat>, slots: nat, memory: Bytes)
    requires WellFormed(p) && p.identified && slots <= SlotBits && HighSlots(slots) <= p.inUse
    requires forall j :: slots <= j < SlotBits ==> j !in commandIssue
    ensures var (q, calls) := Service(p, commandIssue, memory);
      var (q', calls') := CorrectedService(p, commandIssue, slots, memory);
      var extra := Calls(p.requests, Range(slots, SlotBits));
      (forall j :: slots <= j < SlotBits ==> j !in q.inUse)
      && q == q'.(inUse := q'.inUse - HighSlots(slots))
      && calls == calls' + extra && |extra| == SlotBits - slots
      && forall k :: 0 <= k < SlotBits - slots ==>
           extra[k] == Callback(p.requests[slots + k].handler, p.requests[slots + k].handlerData)
  {
    ReservedCalls(p.requests, p.inUse, commandIssue, slots);
    ReservedFreed(p.inUse, commandIssue, slots);
  }

  /** The full scan's calls are the short scan's followed by those of every missing slot. */
  lemma ReservedCalls(requests: seq<Request>, inUse: set<nat>, commandIssue: set<nat>, slots: nat)
    requires |requests| == SlotBits && slots <= SlotBits && HighSlots(slots) <= inUse
    requires forall j :: slots <= j < SlotBits ==> j !in commandIssue
    ensures var extra := Calls(requests, Range(slots, SlotBits));
      Calls(requests, Completed(inUse, commandIssue, SlotBits)) == Calls(requests, Completed(inUse, commandIssue, slots)) + extra
      && |extra| == SlotBits - slots
      && forall k :: 0 <= k < SlotBits - slots ==>
           extra[k] == Callback(requests[slots + k].handler, requests[slots + k].handlerData)
  {
    CompletedPastSlots(inUse, commandIssue, slots, SlotBits);
    CallsAppend(requests, Completed(inUse, commandIssue, slots), Range(slots, SlotBits));
    CallsExactly(requests, Range(slots, SlotBits));
  }

  /** The full scan keeps what the short scan keeps, less the missing slots. */
  lemma ReservedFreed(inUse: set<nat>, commandIssue: set<nat>, slots: nat)
    requires inUse <= AllSlots() && slots <= SlotBits && forall j :: slots <= j < SlotBits ==> j !in commandIssue
    ensures Kept(inUse, commandIssue, SlotBits) == Kept(inUse, commandIssue, slots) - HighSlots(slots)
  {
    assert forall j :: j in Kept(inUse, commandIssue, SlotBits) <==> j in Kept(inUse, commandIssue, slots) - HighSlots(slots);
  }

  /**
   * Corrected, the missing slots stay in use whatever the register reads,
   * and only handlers of slots the controller has are called.
   */
  lemma ReservedSlotsKept(p: PortInfo, commandIssue: set<nat>, slots: nat, memory: Bytes)
    requires WellFormed(p) && p.identified && slots <= SlotBits && HighSlots(slots) <= p.inUse
    ensures var (q, calls) := CorrectedService(p, commandIssue, slots, memory);
      var done := Completed(p.inUse, commandIssue, slots);
      HighSlots(slots) <= q.inUse && |calls| == |done|
      && forall k :: 0 <= k < |done| ==>
           done[k] < slots && calls[k] == Callback(p.requests[done[k]].handler, p.requests[done[k]].handlerData)
  {
    CorrectedServiceCompletes(p, commandIssue, slots, memory);
  }

  /** In a strictly increasing sequence of naturals each element is at least its index. */
  lemma {:induction false} AtLeastIndex(s: seq<nat>, i: nat)
    requires (forall a, b :: 0 <= a < b < |s| ==> s[a] < s[b]) && i < |s|
    ensures i <= s[i]
  {
    if i > 0 {
      AtLeastIndex(s, i - 1);
    }
  }

  /** A strictly increasing sequence holding exactly 0 is `[0]`. */
  lemma ExactlyZero(done: seq<nat>)
    requires (forall j: nat :: j in done <==> j == 0) && forall a, b :: 0 <= a < b < |done| ==> done[a] < done[b]
    ensures done == [0]
  {
    assert 0 in done;
    var k :| 0 <= k < |done| && done[k] == 0;
    AtLeastIndex(done, k);
    assert done[|done| - 1] in done;
    AtLeastIndex(done, |done| - 1);
  }

  /* ---------------------------------------------------------------------- */
  /* Reading sectors                                                        */
  /* ---------------------------------------------------------------------- */

  /** `readSectors`: the count is narrowed to the 16-bit sector count of `issueCommand`. */
  function Read(p: PortInfo, slots: nat, start: nat, count: nat, pages: seq<nat>, handler: nat, data: nat): Outcome<Issued>
    requires WellFormed(p) && slots <= SlotBits
  {
    Issue(p, slots, Command(ReadDmaExtCommand, count % U16Modulus, start, true, false, pages, handler, data))
  }

  /** A read of 512-byte sectors is refused exactly when every bit is in use or the narrowed count needs more than 128 pages. */
  lemma ReadRefuses(p: PortInfo, slots: nat, start: nat, count: nat, pages: seq<nat>, handler: nat, data: nat)
    requires WellFormed(p) && slots <= SlotBits && p.sectorSize == SectorSize
    ensures Read(p, slots, start, count, pages, handler, data) == Ok(Refused)
        <==> p.inUse == AllSlots() || count % U16Modulus * SectorSize > MaxRegions * PageSize
  {
    IssueRefuses(p, slots, Command(ReadDmaExtCommand, count % U16Modulus, start, true, false, pages, handler, data));
  }

  /**
   * As written a request for 65536 sectors or more whose count modulo
   * 65536 fits is issued, for the narrowed count, with descriptors that
   * cover less than the request, where the corrected read refuses it.
   */
  lemma ReadTruncatesCount(p: PortInfo, slots: nat, start: nat, count: nat, pages: seq<nat>, handler: nat, data: nat)
    requires WellFormed(p) && 1 <= slots <= SlotBits && HighSlots(slots) <= p.inUse && p.inUse != AllSlots()
    requires p.sectorSize == SectorSize && count >= U16Modulus
    requires count % U16Modulus * SectorSize <= MaxRegions * PageSize
    requires RegionCount(count % U16Modulus * SectorSize) <= |pages|
    ensures var r := Read(p, slots, start, count, pages, handler, data);
      r.Ok? && r.value.Issued? && r.value.port.requests[r.value.slot].count == count % U16Modulus < count
      && r.value.port.headers[r.value.slot].prdtLength * PageSize < count * SectorSize
      && CorrectedRead(p, slots, start, count, pages, handler, data) == Ok(Refused)
  {
    IssueTakesLowestSlot(p, slots, Command(ReadDmaExtCommand, count % U16Modulus, start, true, false, pages, handler, data));
  }

  /** `readSectors` corrected: a count that does not fit the 16-bit parameter is refused. */
  function CorrectedRead(p: PortInfo, slots: nat, start: nat, count: nat, pages: seq<nat>, handler: nat, data: nat): Outcome<Issued>
    requires WellFormed(p) && slots <= SlotBits
  {
    if count >= U16Modulus then Ok(Refused)
    else Issue(p, slots, Command(ReadDmaExtCommand, count, start, true, false, pages, handler, data))
  }

  /** Corrected, a read of 512-byte sectors is refused exactly when every bit is in use or it needs more than 128 pages. */
  lemma CorrectedReadRefuses(p: PortInfo, slots: nat, start: nat, count: nat, pages: seq<nat>, handler: nat, data: nat)
    requires WellFormed(p) && slots <= SlotBits && p.sectorSize == SectorSize
    ensures CorrectedRead(p, slots, start, count, pages, handler, data) == Ok(Refused)
        <==> p.inUse == AllSlots() || count * SectorSize > MaxRegions * PageSize
  {
    IssueRefuses(p, slots, Command(ReadDmaExtCommand, count, start, true, false, pages, handler, data));
  }
}
