/**
 * The AHCI driver object: the controller's decoded capabilities, one
 * `PortInfo` per port in an array, the list of ports with a drive, the
 * per-port command registers the driver writes, and the handler calls
 * it has made. Each method is proved against the functions of `Ahci`.
 */
module AhciHost {
  import opened Machine
  import opened Ahci

  /** What `issueCommand` returns: `true` when the command went out. */
  function IssueResult(o: Outcome<Issued>): (r: Outcome<bool>)
    ensures r == Hang <==> o == Hang
    ensures r == Ok(true) <==> o.Ok? && o.value.Issued?
  {
    match o
    case Hang => Hang
    case Ok(Refused) => Ok(false)
    case Ok(Issued(_, _)) => Ok(true)
  }

  /** The command registers of a port before the driver writes them. */
  function IdleControl(): PortControl
  {
    PortControl(0, 0, 0, 0, {})
  }

  /**
   * `issueCommand` on one port entry: refused when every bit of
   * `commandsInUse` is set or the transfer needs more than 128 pages;
   * otherwise the command goes into the lowest free slot.
   */
  method IssueOn(p: PortInfo, slots: nat, c: Command) returns (o: Outcome<Issued>)
    requires WellFormed(p) && slots <= SlotBits
    ensures o == Issue(p, slots, c)
  {
    if p.inUse == AllSlots() {
      return Ok(Refused);
    }
    if c.sectors * p.sectorSize > MaxRegions * PageSize {
      return Ok(Refused);
    }
    var slot, found := FindFreeSlot(p.inUse, slots);
    if !found {
      return Hang;
    }
    var n := (c.sectors * p.sectorSize + PageSize - 1) / PageSize;
    assert n == RegionCount(c.sectors * p.sectorSize);
    var regions := FillRegions(p.tables[slot].regions, c.pages, n);
    if regions.Hang? {
      return Hang;
    }
    var q := p.(headers := p.headers[slot := p.headers[slot].(fisLength := CommandFisLength, write := c.write, prdtLength := n)]);
    q := q.(tables := q.tables[slot := CommandTable(FisFor(c), regions.value)]);
    q := q.(requests := q.requests[slot := Request(c.sector, c.sectors, c.write, c.handler, c.handlerData)]);
    q := q.(inUse := q.inUse + {slot});
    assert q == Fill(p, slot, c, n);
    o := Ok(Issued(slot, q));
  }

  /** PxSSTS.DET shows an established device and PxSIG an ATA drive. */
  predicate AtaDrive(status: PortStatus)
  {
    status.sataStatus % 16 == DetectionEstablished && status.signature == AtaSignature
  }

  /**
   * `initializePort` on one port entry: the entry gets its number, zeroed
   * command tables and headers pointing at them; when the port carries an
   * ATA drive only the missing slots are marked in use and sectors are
   * 512 bytes.
   */
  method SetupPort(p: PortInfo, port: nat, slots: nat, pages: PortPages, status: PortStatus) returns (q: PortInfo, ok: bool)
    requires WellFormed(p) && slots <= SlotBits && slots <= |pages.commandTables|
    ensures ok <==> AtaDrive(status)
    ensures q == PortAfterSetup(p, port, slots, pages, ok) && WellFormed(q)
  {
    q := p.(tables := seq(SlotBits, i requires 0 <= i < SlotBits => if i < slots then ZeroTable() else p.tables[i]));
    q := q.(portNumber := port);
    var headers := FillHeaders(slots, pages.commandTables);
    q := q.(headers := headers);
    ok := AtaDrive(status);
    if ok {
      var inUse := ReservedSlots(slots);
      q := q.(inUse := inUse, sectorSize := SectorSize);
    }
    assert q == PortAfterSetup(p, port, slots, pages, ok);
    SetupKeepsShape(p, port, slots, pages, ok);
  }

  /** A port entry stays well formed through setup. */
  lemma SetupKeepsShape(p: PortInfo, port: nat, slots: nat, pages: PortPages, ok: bool)
    requires WellFormed(p) && slots <= SlotBits && slots <= |pages.commandTables|
    ensures WellFormed(PortAfterSetup(p, port, slots, pages, ok))
  {
    var q := PortAfterSetup(p, port, slots, pages, ok);
    forall j | 0 <= j < SlotBits ensures |q.tables[j].regions| == MaxRegions {
      if j < slots {
        assert q.tables[j] == ZeroTable();
      } else {
        assert q.tables[j] == p.tables[j];
      }
    }
  }

  /** The port registers after `initializePort`: PxCLB and PxFB hold the command list and received-FIS pages. */
  function ControlAfterSetup(r: PortControl, pages: PortPages): PortControl
  {
    r.(listLow := Low32(pages.commandList), listHigh := High32(pages.commandList),
       fisLow := Low32(pages.receivedFis), fisHigh := High32(pages.receivedFis))
  }

  /** The entry of port `i` after the constructor's port loop. */
  function EntryAfterLoop(i: nat, slots: nat, implemented: set<nat>, statuses: seq<PortStatus>, pages: seq<PortPages>): (r: PortInfo)
    requires slots <= SlotBits && i < |statuses| && i < |pages| && slots <= |pages[i].commandTables|
    ensures WellFormed(r)
  {
    assert WellFormed(EmptyPort());
    if i in implemented then
      SetupKeepsShape(EmptyPort(), i, slots, pages[i], AtaDrive(statuses[i]));
      PortAfterSetup(EmptyPort(), i, slots, pages[i], AtaDrive(statuses[i]))
    else EmptyPort()
  }

  /** The registers of port `k` after the port loop over ports `0 .. n - 1`. */
  function ControlAfterLoop(controls: seq<PortControl>, n: nat, implemented: set<nat>, pages: seq<PortPages>, k: nat): PortControl
    requires k < |controls| && k < |pages|
  {
    if k < n && k in implemented then ControlAfterSetup(controls[k], pages[k]) else controls[k]
  }

  /** The shape the constructor's inputs need: the status and pages of 32 ports, each with a table per slot. */
  predicate SetupInputs(statuses: seq<PortStatus>, pages: seq<PortPages>)
  {
    |statuses| >= SlotBits && |pages| >= SlotBits && forall i :: 0 <= i < |pages| ==> |pages[i].commandTables| >= SlotBits
  }

  /** The entries and registers after the constructor's port loop over all `ports`. */
  function HostAfterLoop(controls: seq<PortControl>, ports: nat, slots: nat, implemented: set<nat>,
                         statuses: seq<PortStatus>, pages: seq<PortPages>): (h: Host)
    requires SetupInputs(statuses, pages) && ports <= SlotBits && slots <= SlotBits && |controls| == SlotBits
    ensures Shaped(h) && |h.infos| == ports
  {
    Host(seq(ports, i requires 0 <= i < ports => EntryAfterLoop(i, slots, implemented, statuses, pages)),
         seq(SlotBits, k requires 0 <= k < SlotBits => ControlAfterLoop(controls, ports, implemented, pages, k)))
  }

  class Controller {
    var abarAddress: nat
    var ports: nat
    var slots: nat
    var supports64Bit: bool
    var staggeredSpinUp: bool
    var initialized: bool
    var portInformation: array<PortInfo>
    var drives: seq<nat>
    var controls: seq<PortControl>

    /** The port entries and the port registers. */
    ghost function HostState(): Host
      reads this, portInformation
    {
      Host(portInformation[..], controls)
    }

    /**
     * At most 32 ports and slots; every port entry is well formed; the
     * drives are distinct entries, in increasing order.
     */
    ghost predicate Valid()
      reads this, portInformation
    {
      ports <= SlotBits && slots <= SlotBits && Shaped(HostState()) && DriveList(drives, portInformation.Length)
    }

    /** The object before its constructor body runs: no ports, no drives. */
    constructor ()
      ensures Valid() && !initialized && ports == 0 && slots == 0 && portInformation.Length == 0
      ensures drives == [] && controls == seq(SlotBits, _ => IdleControl())
    {
      abarAddress := 0;
      ports, slots := 0, 0;
      supports64Bit, staggeredSpinUp, initialized := false, false, false;
      portInformation := new PortInfo[0];
      drives := [];
      controls := seq(SlotBits, _ => IdleControl());
    }

    /**
     * The body of the `AHCI` constructor. The ABAR is BAR5 with its low 13
     * bits cleared; CAP is decoded; without 64-bit addressing or with
     * staggered spin-up setup ends there. A zero MSI vector halts.
     * Otherwise every implemented port is set up, those with an ATA drive
     * form the drive list, the drives are identified and the controller
     * is marked initialized.
     */
    method Setup(bar5: nat, cap: nat, implemented: set<nat>, vector: nat, statuses: seq<PortStatus>,
                 pages: seq<PortPages>, buffers: seq<Option<nat>>) returns (r: Outcome<()>)
      requires Valid() && !initialized && drives == [] && portInformation.Length == 0
      requires SetupInputs(statuses, pages) && |buffers| >= SlotBits
      modifies this
      ensures Valid() && abarAddress == AbarAddress(bar5) && Caps() == DecodeCapabilities(cap)
      ensures !Usable(DecodeCapabilities(cap)) ==>
        r == Ok(()) && !initialized && drives == [] && portInformation == old(portInformation) && controls == old(controls)
      ensures Usable(DecodeCapabilities(cap)) && vector == 0 ==> r == Hang
      ensures Usable(DecodeCapabilities(cap)) && vector != 0 ==>
        var h := HostAfterLoop(old(controls), ports, slots, implemented, statuses, pages);
        var o := IdentifySteps(h, Drives(ports, implemented, statuses), buffers, slots, |Drives(ports, implemented, statuses)|);
        fresh(portInformation) && drives == Drives(ports, implemented, statuses)
        && (r.Hang? <==> o.Hang?) && (r.Ok? ==> initialized && HostState() == o.value)
    {
      abarAddress := AbarAddress(bar5);
      var caps := DecodeCapabilities(cap);
      ports, slots, supports64Bit, staggeredSpinUp := caps.ports, caps.slots, caps.supports64Bit, caps.staggeredSpinUp;
      if !supports64Bit || staggeredSpinUp {
        return Ok(());
      }
      if vector == 0 {
        return Hang;
      }
      r := Populate(implemented, statuses, pages, buffers);
    }

    /** The capabilities decoded from CAP. */
    function Caps(): Capabilities
      reads this
    {
      Capabilities(ports, slots, supports64Bit, staggeredSpinUp)
    }

    /**
     * The rest of the constructor once the controller is usable: the
     * entry array is allocated, the ports are set up, the drives are
     * identified and the controller is marked initialized.
     */
    method Populate(implemented: set<nat>, statuses: seq<PortStatus>, pages: seq<PortPages>, buffers: seq<Option<nat>>)
      returns (r: Outcome<()>)
      requires ports <= SlotBits && slots <= SlotBits && |controls| == SlotBits
      requires SetupInputs(statuses, pages) && |buffers| >= SlotBits
      modifies this
      ensures Valid() && abarAddress == old(abarAddress) && Caps() == old(Caps())
      ensures var h := HostAfterLoop(old(controls), ports, slots, implemented, statuses, pages);
        var o := IdentifySteps(h, Drives(ports, implemented, statuses), buffers, slots, |Drives(ports, implemented, statuses)|);
        fresh(portInformation) && drives == Drives(ports, implemented, statuses)
        && (r.Hang? <==> o.Hang?) && (r.Ok? ==> initialized && HostState() == o.value)
    {
      portInformation := new PortInfo[ports](_ => EmptyPort());
      controls, drives := SetupPorts(portInformation, controls, slots, implemented, statuses, pages);
      DriveListFits(drives, ports);
      r, controls := IdentifyAll(portInformation, controls, drives, buffers, slots);
      if r.Hang? {
        return;
      }
      initialized := true;
    }

    /** `initializedCorrectly`. */
    function InitializedCorrectly(): (r: bool)
      reads this
      ensures r <==> initialized
    {
      initialized
    }

    /** `getSectorCount`: the identified size of a port, 0 before identification. */
    function GetSectorCount(port: nat): (r: nat)
      reads this, portInformation
      requires port < portInformation.Length
      ensures !portInformation[port].identified ==> r == 0
      ensures portInformation[port].identified ==> r == portInformation[port].sectorCount
    {
      if portInformation[port].identified then portInformation[port].sectorCount else 0
    }

    /**
     * `issueCommand`: the port entry changes as `Issue` says and, when the
     * command went out, only its slot's bit is written to the port's PxCI.
     */
    method IssueCommand(port: nat, c: Command) returns (r: Outcome<bool>)
      requires Valid() && port < portInformation.Length
      modifies this, portInformation
      ensures Valid() && portInformation == old(portInformation)
      ensures ports == old(ports) && slots == old(slots) && drives == old(drives) && initialized == old(initialized)
      ensures r == IssueResult(Issue(old(portInformation[port]), slots, c))
      ensures var o := IssueOnHost(old(HostState()), port, slots, c); r.Ok? ==> o.Ok? && HostState() == o.value
    {
      r, controls := IssueAt(portInformation, controls, port, slots, c);
    }

    /**
     * `readSectors`: a READ DMA EXT command whose count is narrowed to
     * the 16-bit sector count parameter of `issueCommand`.
     */
    method ReadSectors(port: nat, start: nat, count: nat, pages: seq<nat>, handler: nat, data: nat) returns (r: Outcome<bool>)
      requires Valid() && port < portInformation.Length
      modifies this, portInformation
      ensures Valid() && portInformation == old(portInformation)
      ensures ports == old(ports) && slots == old(slots) && drives == old(drives) && initialized == old(initialized)
      ensures r == IssueResult(Read(old(portInformation[port]), slots, start, count, pages, handler, data))
      ensures var c := Command(ReadDmaExtCommand, count % U16Modulus, start, true, false, pages, handler, data);
        var o := IssueOnHost(old(HostState()), port, slots, c); r.Ok? ==> o.Ok? && HostState() == o.value
    {
      r := IssueCommand(port, Command(ReadDmaExtCommand, count % U16Modulus, start, true, false, pages, handler, data));
    }

    /**
     * `initializePort`: the entry is set up as `PortAfterSetup` says, the
     * port accepted when it carries an ATA drive, and PxCLB and PxFB get
     * the command list and received-FIS pages.
     */
    method InitializePort(port: nat, status: PortStatus, pages: PortPages) returns (ok: bool)
      requires Valid() && port < portInformation.Length && slots <= |pages.commandTables|
      modifies this, portInformation
      ensures Valid() && portInformation == old(portInformation)
      ensures ports == old(ports) && slots == old(slots) && drives == old(drives) && initialized == old(initialized)
      ensures ok <==> AtaDrive(status)
      ensures portInformation[..] == old(portInformation[..])[port := PortAfterSetup(old(portInformation[port]), port, slots, pages, ok)]
      ensures controls == old(controls)[port := ControlAfterSetup(old(controls[port]), pages)]
    {
      var q;
      q, ok := SetupPort(portInformation[port], port, slots, pages, status);
      portInformation[port] := q;
      controls := controls[port := ControlAfterSetup(controls[port], pages)];
    }

    /**
     * `identifyDevices` as `IdentifySteps` says: the `i`-th drive's page
     * goes into entry `i` and the identify command to the drive's port;
     * an unmapped page halts.
     */
    method IdentifyDevices(buffers: seq<Option<nat>>) returns (r: Outcome<()>)
      requires Valid() && |buffers| >= |drives|
      modifies this, portInformation
      ensures Valid() && portInformation == old(portInformation)
      ensures ports == old(ports) && slots == old(slots) && drives == old(drives) && initialized == old(initialized)
      ensures var o := IdentifySteps(old(HostState()), drives, buffers, slots, |drives|);
        (r.Hang? <==> o.Hang?) && (r.Ok? ==> HostState() == o.value)
    {
      r, controls := IdentifyAll(portInformation, controls, drives, buffers, slots);
    }

    /**
     * `handleInterrupt`: every port whose bit is set in the global IS
     * register is served as `Service` says, in port order; `calls` are the
     * handler calls it makes, in order. An unidentified port with no
     * identify data to read stops the machine there: `stop` is that port,
     * or `ports` when the loop runs to the end.
     */
    method HandleInterrupt(status: set<nat>, commandIssue: seq<set<nat>>, memory: Bytes) returns (calls: seq<Callback>, stop: nat)
      requires Valid() && portInformation.Length == ports && |commandIssue| >= ports
      modifies portInformation
      ensures Valid()
      ensures StopsAt(old(portInformation[..]), status, memory, stop)
      ensures portInformation[..] == Serviced(old(portInformation[..]), status, commandIssue, memory, stop)
      ensures calls == ServiceCalls(old(portInformation[..]), status, commandIssue, memory, stop)
    {
      calls, stop := ServeAll(portInformation, ports, status, commandIssue, memory);
      ServicedShaped(old(portInformation[..]), status, commandIssue, memory, stop, drives, controls);
    }
  }

  /** The port loop of `handleInterrupt` over the `ports` entries of `a`, up to the first port whose identify read faults. */
  method ServeAll(a: array<PortInfo>, ports: nat, status: set<nat>, commandIssue: seq<set<nat>>, memory: Bytes)
    returns (calls: seq<Callback>, stop: nat)
    requires a.Length == ports && |commandIssue| >= ports && Serviceable(a[..], status, memory)
    modifies a
    ensures StopsAt(old(a[..]), status, memory, stop)
    ensures a[..] == Serviced(old(a[..]), status, commandIssue, memory, stop)
    ensures calls == ServiceCalls(old(a[..]), status, commandIssue, memory, stop)
  {
    ghost var infos := a[..];
    calls := [];
    var i := 0;
    while i < ports
      invariant i <= ports && NoFaultBefore(infos, status, memory, i)
      invariant a[..] == Serviced(infos, status, commandIssue, memory, i)
      invariant calls == ServiceCalls(infos, status, commandIssue, memory, i)
    {
      var more, halted := ServeOne(a, i, status, commandIssue, memory, infos);
      if halted {
        return calls, i;
      }
      calls := calls + more;
      i := i + 1;
    }
    stop := i;
  }

  /** The entries after the interrupt keep the controller's invariant. */
  lemma ServicedShaped(infos: seq<PortInfo>, status: set<nat>, commandIssue: seq<set<nat>>, memory: Bytes, stop: nat,
                       drives: seq<nat>, controls: seq<PortControl>)
    requires Serviceable(infos, status, memory) && |commandIssue| >= |infos| && StopsAt(infos, status, memory, stop)
    requires Shaped(Host(infos, controls))
    ensures Shaped(Host(Serviced(infos, status, commandIssue, memory, stop), controls))
  {
  }

  /**
   * `issueCommand` on entry `port` of `a` with the port registers
   * `controls`: the entry changes as `Issue` says, and only an issued
   * command's slot bit is written to the port's PxCI.
   */
  method IssueAt(a: array<PortInfo>, controls: seq<PortControl>, port: nat, slots: nat, c: Command)
    returns (r: Outcome<bool>, controls': seq<PortControl>)
    requires Shaped(Host(a[..], controls)) && port < a.Length && slots <= SlotBits
    modifies a
    ensures r == IssueResult(Issue(old(a[port]), slots, c))
    ensures var o := IssueOnHost(Host(old(a[..]), controls), port, slots, c);
      r.Ok? ==> o.Ok? && Host(a[..], controls') == o.value
    ensures Shaped(Host(a[..], controls'))
  {
    controls' := controls;
    var o := IssueOn(a[port], slots, c);
    match o
    case Hang => return Hang, controls';
    case Ok(Refused) => return Ok(false), controls';
    case Ok(Issued(slot, q)) =>
      a[port] := q;
      controls' := controls[port := controls[port].(commandIssue := {slot})];
      return Ok(true), controls';
  }

  /**
   * The loop of `identifyDevices` over the entries `a` and registers
   * `controls`, as `IdentifySteps` says.
   */
  method IdentifyAll(a: array<PortInfo>, controls: seq<PortControl>, drives: seq<nat>, buffers: seq<Option<nat>>, slots: nat)
    returns (r: Outcome<()>, controls': seq<PortControl>)
    requires Shaped(Host(a[..], controls)) && DriveList(drives, a.Length) && slots <= SlotBits && |drives| <= |buffers|
    modifies a
    ensures var o := IdentifySteps(Host(old(a[..]), controls), drives, buffers, slots, |drives|);
      (r.Hang? <==> o.Hang?) && (r.Ok? ==> Host(a[..], controls') == o.value)
    ensures Shaped(Host(a[..], controls'))
  {
    ghost var h := Host(a[..], controls);
    controls' := controls;
    for i := 0 to |drives|
      invariant IdentifySteps(h, drives, buffers, slots, i) == Ok(Host(a[..], controls'))
    {
      var ok;
      ok, controls' := IdentifyOne(a, controls', drives, buffers, slots, i, h);
      if !ok {
        IdentifyHangStays(h, drives, buffers, slots, i + 1, |drives|);
        return Hang, controls';
      }
    }
    r := Ok(());
  }

  /** The body of the loop of `identifyDevices` for the `i`-th drive. */
  method IdentifyOne(a: array<PortInfo>, controls: seq<PortControl>, drives: seq<nat>, buffers: seq<Option<nat>>, slots: nat,
                     i: nat, ghost h: Host) returns (ok: bool, controls': seq<PortControl>)
    requires StepsDefined(h, drives, buffers, slots) && i < |drives| && |h.infos| == a.Length
    requires IdentifySteps(h, drives, buffers, slots, i) == Ok(Host(a[..], controls))
    modifies a
    ensures ok ==> IdentifySteps(h, drives, buffers, slots, i + 1) == Ok(Host(a[..], controls'))
    ensures !ok ==> IdentifySteps(h, drives, buffers, slots, i + 1).Hang?
    ensures Shaped(Host(a[..], controls'))
  {
    ghost var g := Host(a[..], controls);
    controls' := controls;
    if buffers[i].None? {
      return false, controls';
    }
    a[i] := a[i].(identifyBuffer := buffers[i]);
    assert Host(a[..], controls) == g.(infos := g.infos[i := g.infos[i].(identifyBuffer := buffers[i])]);
    IdentifyStepUnfolds(h, drives, buffers, slots, i, g);
    var issued;
    issued, controls' := IssueAt(a, controls, drives[i], slots, IdentifyRequest(buffers[i].value));
    ok := !issued.Hang?;
  }

  /**
   * The loop body of `handleInterrupt` for port `i`, reached when no
   * earlier port faulted: served when its IS bit is set, or `halted`, with
   * nothing changed, when that port's identify read faults.
   */
  method ServeOne(a: array<PortInfo>, i: nat, status: set<nat>, commandIssue: seq<set<nat>>, memory: Bytes, ghost infos: seq<PortInfo>)
    returns (more: seq<Callback>, halted: bool)
    requires Serviceable(infos, status, memory) && |commandIssue| >= |infos| && i < |infos| == a.Length
    requires NoFaultBefore(infos, status, memory, i)
    requires a[..] == Serviced(infos, status, commandIssue, memory, i)
    modifies a
    ensures halted <==> i in status && IdentifyFaults(infos[i], memory)
    ensures halted ==> a[..] == old(a[..]) && more == []
    ensures !halted ==> NoFaultBefore(infos, status, memory, i + 1)
    ensures !halted ==> a[..] == Serviced(infos, status, commandIssue, memory, i + 1)
    ensures !halted ==> ServiceCalls(infos, status, commandIssue, memory, i) + more == ServiceCalls(infos, status, commandIssue, memory, i + 1)
  {
    assert a[i] == infos[i];
    more, halted := [], false;
    if i in status {
      var q;
      q, more, halted := ServicePort(a[i], commandIssue[i], memory);
      if !halted {
        a[i] := q;
      }
    }
    if !halted {
      assert NoFaultBefore(infos, status, memory, i + 1);
      ServicedStep(infos, status, commandIssue, memory, i);
    }
  }

  /** What `IdentifySteps` needs of its arguments. */
  predicate StepsDefined(h: Host, drives: seq<nat>, buffers: seq<Option<nat>>, slots: nat)
  {
    Shaped(h) && DriveList(drives, |h.infos|) && slots <= SlotBits && |drives| <= |buffers|
  }

  /**
   * The port loop of the `AHCI` constructor over the fresh entries `a`:
   * every implemented port is set up and its registers written, and the
   * ports with an ATA drive form the drive list, in port order.
   */
  method SetupPorts(a: array<PortInfo>, controls: seq<PortControl>, slots: nat, implemented: set<nat>,
                    statuses: seq<PortStatus>, pages: seq<PortPages>) returns (controls': seq<PortControl>, drives: seq<nat>)
    requires SetupInputs(statuses, pages) && a.Length <= SlotBits && slots <= SlotBits && |controls| == SlotBits
    requires forall k :: 0 <= k < a.Length ==> a[k] == EmptyPort()
    modifies a
    ensures Host(a[..], controls') == HostAfterLoop(controls, a.Length, slots, implemented, statuses, pages)
    ensures drives == Drives(a.Length, implemented, statuses)
  {
    controls', drives := controls, [];
    for i := 0 to a.Length
      invariant forall k :: 0 <= k < a.Length ==>
        a[k] == if k < i then EntryAfterLoop(k, slots, implemented, statuses, pages) else EmptyPort()
      invariant |controls'| == SlotBits
      invariant forall k :: 0 <= k < SlotBits ==> controls'[k] == ControlAfterLoop(controls, i, implemented, pages, k)
      invariant drives == Drives(i, implemented, statuses)
    {
      controls', drives := SetupOne(a, controls', drives, i, slots, implemented, statuses, pages);
    }
    LoopHost(a[..], controls', controls, slots, implemented, statuses, pages);
  }

  /** The entries and registers the port loop leaves are those of `HostAfterLoop`. */
  lemma LoopHost(infos: seq<PortInfo>, controls': seq<PortControl>, controls: seq<PortControl>, slots: nat, implemented: set<nat>,
                 statuses: seq<PortStatus>, pages: seq<PortPages>)
    requires SetupInputs(statuses, pages) && |infos| <= SlotBits && slots <= SlotBits && |controls| == SlotBits
    requires forall k :: 0 <= k < |infos| ==> infos[k] == EntryAfterLoop(k, slots, implemented, statuses, pages)
    requires |controls'| == SlotBits
    requires forall k :: 0 <= k < SlotBits ==> controls'[k] == ControlAfterLoop(controls, |infos|, implemented, pages, k)
    ensures Host(infos, controls') == HostAfterLoop(controls, |infos|, slots, implemented, statuses, pages)
  {
  }

  /** One turn of the constructor's port loop, for port `i`. */
  method SetupOne(a: array<PortInfo>, controls: seq<PortControl>, drives: seq<nat>, i: nat, slots: nat, implemented: set<nat>,
                  statuses: seq<PortStatus>, pages: seq<PortPages>) returns (controls': seq<PortControl>, drives': seq<nat>)
    requires SetupInputs(statuses, pages) && slots <= SlotBits && i < a.Length <= SlotBits && i < |controls| && a[i] == EmptyPort()
    modifies a
    ensures a[..] == old(a[..])[i := EntryAfterLoop(i, slots, implemented, statuses, pages)]
    ensures controls' == controls[i := if i in implemented then ControlAfterSetup(controls[i], pages[i]) else controls[i]]
    ensures drives' == drives + if Accepted(implemented, i, statuses[i]) then [i] else []
  {
    controls', drives' := controls, drives;
    if i in implemented {
      assert WellFormed(EmptyPort());
      var q, ok := SetupPort(a[i], i, slots, pages[i], statuses[i]);
      a[i] := q;
      controls' := controls[i := ControlAfterSetup(controls[i], pages[i])];
      if ok {
        drives' := drives + [i];
      }
    }
  }

  /** A step of `identifyDevices` after steps that succeeded with `g`. */
  lemma IdentifyStepUnfolds(h: Host, drives: seq<nat>, buffers: seq<Option<nat>>, slots: nat, i: nat, g: Host)
    requires StepsDefined(h, drives, buffers, slots) && i < |drives|
    requires IdentifySteps(h, drives, buffers, slots, i) == Ok(g) && buffers[i].Some?
    ensures Shaped(g) && |g.infos| == |h.infos|
    ensures IdentifySteps(h, drives, buffers, slots, i + 1)
         == IssueOnHost(g.(infos := g.infos[i := g.infos[i].(identifyBuffer := buffers[i])]), drives[i], slots,
                        IdentifyRequest(buffers[i].value))
  {
  }

  /** Once a step of `identifyDevices` halts, so does the whole loop. */
  lemma {:induction false} IdentifyHangStays(h: Host, drives: seq<nat>, buffers: seq<Option<nat>>, slots: nat, n: nat, m: nat)
    requires StepsDefined(h, drives, buffers, slots) && n <= m <= |drives|
    requires IdentifySteps(h, drives, buffers, slots, n).Hang?
    ensures IdentifySteps(h, drives, buffers, slots, m).Hang?
  {
    if m > n {
      IdentifyHangStays(h, drives, buffers, slots, n, m - 1);
    }
  }

  /**
   * After the constructor's port loop the drives' ports are ready and
   * hold no identify page, so with distinct mapped pages `identifyDevices`
   * as written succeeds, and the entry of the `k`-th drive's port holds
   * that drive's page exactly when the drive's port number is `k`.
   */
  lemma SetupIdentifiesByPosition(controls: seq<PortControl>, ports: nat, slots: nat, implemented: set<nat>,
                                  statuses: seq<PortStatus>, pages: seq<PortPages>, buffers: seq<Option<nat>>, k: nat)
    requires SetupInputs(statuses, pages) && ports <= SlotBits && 1 <= slots <= SlotBits && |controls| == SlotBits
    requires forall i :: 0 <= i < |pages| ==> forall t :: 0 <= t < |pages[i].commandTables| ==> IsU64(pages[i].commandTables[t])
    requires |buffers| >= SlotBits && (forall t :: 0 <= t < |buffers| ==> buffers[t].Some?)
    requires forall a, b :: 0 <= a < b < |buffers| ==> buffers[a] != buffers[b]
    requires k < |Drives(ports, implemented, statuses)|
    ensures var h := HostAfterLoop(controls, ports, slots, implemented, statuses, pages);
      var drives := Drives(ports, implemented, statuses);
      var o := IdentifySteps(h, drives, buffers, slots, |drives|);
      o.Ok? && (o.value.infos[drives[k]].identifyBuffer == buffers[k] <==> drives[k] == k)
  {
    var h := HostAfterLoop(controls, ports, slots, implemented, statuses, pages);
    var drives := Drives(ports, implemented, statuses);
    DriveListFits(drives, ports);
    forall t | 0 <= t < |drives| ensures Ready(h.infos[drives[t]], slots) {
      var i := drives[t];
      assert Accepted(implemented, i, statuses[i]);
      SetupReadiesPort(EmptyPort(), i, slots, pages[i]);
    }
    IdentifyBufferMisplaced(h, drives, buffers, slots, k);
  }
}
