/** What the controls do to the registers: which value a transfer moves, and what the process controls leave
    behind, told by register fields, numbers and bits. */
module Datapath {
  import opened Wrappers
  import opened Bits
  import opened Hdl
  import opened Validators
  import opened AluUnit
  import opened Simulator
  import opened BusSafety
  import opened StepRuns
  import opened Deduplication

  // ---------------------------------------------------------------- one writer, one reader

  ghost predicate Apart(children: seq<Component>) {
    forall i, j | 0 <= i < j < |children| :: children[i] != children[j]
  }

  lemma RestApart(children: seq<Component>)
    requires children != [] && Apart(children)
    ensures Apart(children[1..]) && children[0] !in children[1..]
  {
    var rest := children[1..];
    forall i, j | 0 <= i < j < |rest| ensures rest[i] != rest[j] {
      assert rest[i] == children[i + 1] && rest[j] == children[j + 1];
    }
    forall i | 0 <= i < |rest| ensures rest[i] != children[0] {
      assert rest[i] == children[i + 1];
    }
  }

  /** With one writer, the write phase is that component's write. */
  lemma {:induction false} SoleWriter(r: Registers, on: set<Control>, b: Buses, children: seq<Component>, c: Component)
    requires (forall d: Component | d != c :: !On(on, d, Write)) && Apart(children)
    ensures TickWrite(r, on, WritePhase, b, children)
         == if c in children then TickWriteOne(r, on, WritePhase, b, c) else Ok(b)
    decreases |children|
  {
    if children != [] {
      RestApart(children);
      match TickWriteOne(r, on, WritePhase, b, children[0])
      case Err(e) =>
      case Ok(b1) => SoleWriter(r, on, b1, children[1..], c);
    }
  }

  lemma {:induction false} SoleReader(r: Registers, on: set<Control>, b: Buses, children: seq<Component>, c: Component)
    requires (forall d: Component | d != c :: !On(on, d, Read)) && Apart(children)
    ensures TickRead(r, on, ReadPhase, b, children)
         == if c in children then TickReadOne(r, on, ReadPhase, b, c) else Ok(r)
    decreases |children|
  {
    if children != [] {
      RestApart(children);
      match TickReadOne(r, on, ReadPhase, b, children[0])
      case Err(e) =>
      case Ok(r1) => SoleReader(r1, on, b, children[1..], c);
    }
  }

  // ---------------------------------------------------------------- what the ports show

  /** The byte at an address: RAM in the lowest 8 KiB, the cartridge in the upper half, $FF between. */
  function Contents(r: Registers, address: word): byte {
    if address >= 0x8000 then r.rom[address - 0x8000] else if address < 0x2000 then r.ram[address] else 0xFF
  }

  /** The value of a component that has a bus port. */
  function Holds(r: Registers, c: Component): word {
    match c
    case A => r.a
    case X => r.x
    case Y => r.y
    case Sp => r.sp
    case Tmp => r.tmp
    case AluLhs => r.lhs
    case AluRhs => r.rhs
    case AluResult => r.result
    case Pc => r.pc
    case PcHigh => r.pc / 256
    case PcLow => r.pc % 256
    case PcOffset => r.pcOffset
    case Status => r.status
    case Analyzer => r.analyzer
    case Ir => r.ir
    case Memory => Contents(r, r.mar)
    case Mar => r.mar
    case MarHigh => r.mar / 256
    case MarLow => r.mar % 256
    case MarOffset => r.marOffset
    case _ => 0
  }

  /** The two byte ports of a word register are its halves. */
  lemma BytesMakeTheWord(r: Registers)
    ensures 256 * Holds(r, PcHigh) + Holds(r, PcLow) == Holds(r, Pc)
    ensures 256 * Holds(r, MarHigh) + Holds(r, MarLow) == Holds(r, Mar)
  {
  }

  /** The value on a bus, if it has been written. */
  function OnBus(b: Buses, bus: BusType): Option<word> {
    match bus
    case DataBus => if b.data.value.Some? then Some(b.data.value.value) else None
    case AddressBus => b.address.value
    case NoBus => None
  }

  /** Reading `e` may change what `d` shows: they share a register, or `e` moves the address that `d` is at. */
  predicate Disturbs(e: Component, d: Component) {
    || (e.Pc? && (d.PcLow? || d.PcHigh?)) || (d.Pc? && (e.PcLow? || e.PcHigh?))
    || (e.Mar? && (d.MarLow? || d.MarHigh?)) || (d.Mar? && (e.MarLow? || e.MarHigh?))
    || (d.Memory? && (e.Mar? || e.MarLow? || e.MarHigh?))
    || (d.Status? && e.Analyzer?)
  }

  lemma WriteShows(r: Registers, on: set<Control>, b: Buses, c: Component)
    requires On(on, c, Write) && TickWriteOne(r, on, WritePhase, b, c).Ok?
    ensures PortOf(c) != NoBus ==> OnBus(TickWriteOne(r, on, WritePhase, b, c).value, PortOf(c)) == Some(Holds(r, c))
  {
  }

  lemma WriteElsewhere(r: Registers, on: set<Control>, b: Buses, c: Component, bus: BusType)
    requires (On(on, c, Write) ==> PortOf(c) != bus) && TickWriteOne(r, on, WritePhase, b, c).Ok?
    ensures OnBus(TickWriteOne(r, on, WritePhase, b, c).value, bus) == OnBus(b, bus)
  {
  }

  lemma {:induction false} WritesElsewhere(r: Registers, on: set<Control>, b: Buses, children: seq<Component>, bus: BusType)
    requires TickWrite(r, on, WritePhase, b, children).Ok?
    requires forall e | e in children && On(on, e, Write) :: PortOf(e) != bus
    ensures OnBus(TickWrite(r, on, WritePhase, b, children).value, bus) == OnBus(b, bus)
    decreases |children|
  {
    if children != [] {
      WriteElsewhere(r, on, b, children[0], bus);
      WritesElsewhere(r, on, TickWriteOne(r, on, WritePhase, b, children[0]).value, children[1..], bus);
    }
  }

  /** After the write phase a bus carries the value of its one writer. */
  lemma {:induction false} WriterShows(r: Registers, on: set<Control>, b: Buses, children: seq<Component>, c: Component)
    requires Apart(children) && c in children && On(on, c, Write) && PortOf(c) != NoBus
    requires forall e: Component | e != c && On(on, e, Write) :: PortOf(e) != PortOf(c)
    requires TickWrite(r, on, WritePhase, b, children).Ok?
    ensures OnBus(TickWrite(r, on, WritePhase, b, children).value, PortOf(c)) == Some(Holds(r, c))
    decreases |children|
  {
    RestApart(children);
    var b1 := TickWriteOne(r, on, WritePhase, b, children[0]).value;
    if children[0] == c {
      WriteShows(r, on, b, c);
      WritesElsewhere(r, on, b1, children[1..], PortOf(c));
    } else {
      WriterShows(r, on, b1, children[1..], c);
    }
  }

  lemma ReadTakes(r: Registers, on: set<Control>, b: Buses, d: Component)
    requires On(on, d, Read) && PortOf(d) != NoBus && TickReadOne(r, on, ReadPhase, b, d).Ok?
    ensures OnBus(b, PortOf(d)) == Some(Holds(TickReadOne(r, on, ReadPhase, b, d).value, d))
  {
    var v := OnBus(b, PortOf(d)).value;
    match d
    case PcLow => HalvesOf(High(r.pc), v);
    case PcHigh => HalvesOf(v, Low(r.pc));
    case MarLow => HalvesOf(High(r.mar), v);
    case MarHigh => HalvesOf(v, Low(r.mar));
    case _ =>
  }

  lemma HalvesOf(high: byte, low: byte)
    ensures MakeWord(high, low) / 256 == high && MakeWord(high, low) % 256 == low
  {
  }

  lemma ReadLeavesOther(r: Registers, on: set<Control>, b: Buses, e: Component, d: Component)
    requires e != d && (On(on, e, Read) ==> !Disturbs(e, d)) && TickReadOne(r, on, ReadPhase, b, e).Ok?
    requires PortOf(d) != NoBus
    ensures Holds(TickReadOne(r, on, ReadPhase, b, e).value, d) == Holds(r, d)
  {
    if On(on, e, Read) && OnBus(b, PortOf(e)).Some? {
      if e.PcLow? || e.PcHigh? || e.MarLow? || e.MarHigh? {
        HalfLeavesOther(r, e, d, OnBus(b, PortOf(e)).value);
      }
    }
  }

  /** Storing one half of a word register leaves the other half and all other registers. */
  lemma HalfLeavesOther(r: Registers, e: Component, d: Component, v: byte)
    requires e != d && !Disturbs(e, d) && (e.PcLow? || e.PcHigh? || e.MarLow? || e.MarHigh?)
    ensures StoreData(r, e, v).Ok? && Holds(StoreData(r, e, v).value, d) == Holds(r, d)
  {
    match e
    case PcLow => HalvesOf(High(r.pc), v);
    case PcHigh => HalvesOf(v, Low(r.pc));
    case MarLow => HalvesOf(High(r.mar), v);
    case MarHigh => HalvesOf(v, Low(r.mar));
  }

  lemma {:induction false} OthersLeave(r: Registers, on: set<Control>, b: Buses, children: seq<Component>, d: Component)
    requires d !in children && PortOf(d) != NoBus && TickRead(r, on, ReadPhase, b, children).Ok?
    requires forall e: Component | On(on, e, Read) :: !Disturbs(e, d)
    ensures Holds(TickRead(r, on, ReadPhase, b, children).value, d) == Holds(r, d)
    decreases |children|
  {
    if children != [] {
      ReadLeavesOther(r, on, b, children[0], d);
      OthersLeave(TickReadOne(r, on, ReadPhase, b, children[0]).value, on, b, children[1..], d);
    }
  }

  /** After the read phase every undisturbed reader shows what its bus carried. */
  lemma {:induction false} ReaderTakes(r: Registers, on: set<Control>, b: Buses, children: seq<Component>, d: Component)
    requires Apart(children) && d in children && On(on, d, Read) && PortOf(d) != NoBus
    requires forall e: Component | On(on, e, Read) :: !Disturbs(e, d)
    requires TickRead(r, on, ReadPhase, b, children).Ok?
    ensures OnBus(b, PortOf(d)) == Some(Holds(TickRead(r, on, ReadPhase, b, children).value, d))
    decreases |children|
  {
    RestApart(children);
    var r1 := TickReadOne(r, on, ReadPhase, b, children[0]).value;
    if children[0] == d {
      ReadTakes(r, on, b, d);
      OthersLeave(r1, on, b, children[1..], d);
    } else {
      ReaderTakes(r1, on, b, children[1..], d);
    }
  }

  // ---------------------------------------------------------------- transfers

  /** In the step `c` writes the bus that `d` reads, and no other reader disturbs `d`. */
  ghost predicate Feeds(controls: seq<Control>, c: Component, d: Component) {
    && PortOf(c) == PortOf(d) != NoBus
    && On(AsSet(controls), c, Write) && On(AsSet(controls), d, Read)
    && forall e: Component | On(AsSet(controls), e, Read) :: !Disturbs(e, d)
  }

  lemma OnlyWriter(controls: seq<Control>, c: Component, e: Component)
    requires OneWriter(controls) && PortOf(c) == PortOf(e) != NoBus
    requires On(AsSet(controls), c, Write) && On(AsSet(controls), e, Write)
    ensures c == e
  {
    var x: Control, y: Control := ControlInfo(c, Write), ControlInfo(e, Write);
    var i, j :| 0 <= i < |controls| && 0 <= j < |controls| && controls[i] == x && controls[j] == y;
    assert WritesBus(x, PortOf(c)) && WritesBus(y, PortOf(c));
    assert OneWriterOn(controls, PortOf(c));
  }

  /** Over the buses of a valid step, whatever else it transfers or processes, every reader receives the value
      that its writer showed before the step. */
  lemma ReaderGetsWriter(children: seq<Component>, m: Machine, controls: seq<Control>, c: Component, d: Component)
    requires ChildrenOk(children) && Idle(m) && BusOk(controls) && Feeds(controls, c, d)
    requires Transfers(children, m, AsSet(controls)).Ok?
    ensures Holds(Transfers(children, m, AsSet(controls)).value, d) == Holds(m.regs, c)
  {
    var s := AsSet(controls);
    var write, read := OfPhase(s, WritePhase), OfPhase(s, ReadPhase);
    assert HasTick(c) && HasTick(d);
    forall e: Component | e != c && On(write, e, Write) ensures PortOf(e) != PortOf(c) {
      if PortOf(e) == PortOf(c) { OnlyWriter(controls, c, e); }
    }
    WriterShows(m.regs, write, m.buses, children, c);
    var b := TickWrite(m.regs, write, WritePhase, m.buses, children).value;
    ReaderTakes(m.regs, read, b, children, d);
  }

  /** The tick of a step of transfers: every reader ends with the value its writer had, and every part of the
      machine that the step does not name stays. */
  lemma TransferMoves(children: seq<Component>, m: Machine, controls: seq<Control>)
    requires ChildrenOk(children) && Idle(m) && !m.halted && BusOk(controls) && OnlyTransfers(AsSet(controls))
    requires Tick(children, m, AsSet(controls), None).Ok?
    ensures var x := Tick(children, m, AsSet(controls), None).value.regs;
            && (forall c, d | Feeds(controls, c, d) :: Holds(x, d) == Holds(m.regs, c))
            && (forall p | Unchanged(AsSet(controls), p) :: SamePart(m.regs, x, p))
  {
    var s := AsSet(controls);
    TransferTick(children, m, s);
    var x := Transfers(children, m, s).value;
    var b := TickWrite(m.regs, OfPhase(s, WritePhase), WritePhase, m.buses, children).value;
    forall c, d | Feeds(controls, c, d) ensures Holds(x, d) == Holds(m.regs, c) {
      ReaderGetsWriter(children, m, controls, c, d);
    }
    forall p | Unchanged(s, p) ensures SamePart(m.regs, x, p) {
      ReadFrame(s, m.regs, OfPhase(s, ReadPhase), ReadPhase, b, children, p);
    }
  }

  // ---------------------------------------------------------------- one value over a bus

  lemma StepOfTwo(c: Component, d: Component, controls: seq<Control>)
    requires PortOf(c) == PortOf(d) != NoBus && controls == [ControlInfo(c, Write), ControlInfo(d, Read)]
    ensures BusOk(controls) && OnlyTransfers(AsSet(controls)) && Feeds(controls, c, d)
  {
    var write: Control, read: Control := controls[0], controls[1];
    assert write in controls && read in controls && WritesBus(write, PortOf(c)) && ReadsBus(read, PortOf(c));
    assert forall x | x in controls :: x == write || x == read;
    assert forall e: Component | On(AsSet(controls), e, Read) :: e == d;
  }

  /** The write and read phases when one component writes and one reads. */
  lemma OneTransfer(children: seq<Component>, m: Machine, c: Component, d: Component, controls: seq<Control>) returns (b: Buses)
    requires ChildrenOk(children) && Idle(m)
    requires PortOf(c) == PortOf(d) != NoBus && controls == [ControlInfo(c, Write), ControlInfo(d, Read)]
    ensures OnBus(b, PortOf(c)) == Some(Holds(m.regs, c)) && Consistent(b)
    ensures On(OfPhase(AsSet(controls), ReadPhase), d, Read)
    ensures Transfers(children, m, AsSet(controls)) == TickReadOne(m.regs, OfPhase(AsSet(controls), ReadPhase), ReadPhase, b, d)
  {
    var s := AsSet(controls);
    StepOfTwo(c, d, controls);
    assert HasTick(c) && HasTick(d);
    b := WritePhaseOfStep(children, m.regs, controls);
    WriterShows(m.regs, OfPhase(s, WritePhase), m.buses, children, c);
    SoleReader(m.regs, OfPhase(s, ReadPhase), b, children, d);
  }

  /** A step that moves one value over a bus: the reader ends with what the writer had, and every other port
      shows what it showed. The step fails exactly if it stores outside RAM. */
  lemma OneTransferMoves(children: seq<Component>, m: Machine, c: Component, d: Component, controls: seq<Control>)
    requires ChildrenOk(children) && Idle(m) && !m.halted
    requires PortOf(c) == PortOf(d) != NoBus && controls == [ControlInfo(c, Write), ControlInfo(d, Read)]
    ensures var r := Tick(children, m, AsSet(controls), None);
            && (r.Ok? <==> (d.Memory? ==> m.regs.mar < 0x2000))
            && (r.Ok? ==>
                  && Idle(r.value) && !r.value.halted && Holds(r.value.regs, d) == Holds(m.regs, c)
                  && forall e: Component | e != d && PortOf(e) != NoBus && !Disturbs(d, e) ::
                       Holds(r.value.regs, e) == Holds(m.regs, e))
            && (r.Err? ==> r.error == if m.regs.mar < 0x8000 then UnmappedWrite else RomWrite)
  {
    var s := AsSet(controls);
    StepOfTwo(c, d, controls);
    var b := OneTransfer(children, m, c, d, controls);
    var read := OfPhase(s, ReadPhase);
    TransferTick(children, m, s);
    TickEndsIdle(children, m, s);
    OneReadOk(m.regs, read, b, d);
    if Transfers(children, m, s).Ok? {
      ReadTakes(m.regs, read, b, d);
      forall e: Component | e != d && PortOf(e) != NoBus && !Disturbs(d, e)
        ensures Holds(Transfers(children, m, s).value, e) == Holds(m.regs, e)
      {
        ReadLeavesOther(m.regs, read, b, d, e);
      }
    }
  }

  lemma OneReadOk(r: Registers, on: set<Control>, b: Buses, d: Component)
    requires On(on, d, Read) && Consistent(b) && PortOf(d) != NoBus && OnBus(b, PortOf(d)).Some?
    ensures var x := TickReadOne(r, on, ReadPhase, b, d);
            && (x.Ok? <==> (d.Memory? ==> r.mar < 0x2000))
            && (x.Err? ==> x.error == if r.mar < 0x8000 then UnmappedWrite else RomWrite)
  {
  }

  lemma OneStore(r: Registers, on: set<Control>, b: Buses, v: byte)
    requires On(on, Memory, Read) && Consistent(b) && OnBus(b, DataBus) == Some(v) && r.mar < 0x2000
    ensures var x := TickReadOne(r, on, ReadPhase, b, Memory);
            x.Ok? && forall address: word :: Contents(x.value, address) == if address == r.mar then v else Contents(r, address)
  {
  }

  // ---------------------------------------------------------------- memory

  /** A store changes RAM at the address register and nowhere else. */
  lemma StoreChangesOneByte(children: seq<Component>, m: Machine, c: Component, controls: seq<Control>)
    requires ChildrenOk(children) && Idle(m) && !m.halted && m.regs.mar < 0x2000
    requires PortOf(c) == DataBus && controls == [ControlInfo(c, Write), ControlInfo(Memory, Read)]
    ensures var r := Tick(children, m, AsSet(controls), None);
            && r.Ok?
            && forall address: word :: Contents(r.value.regs, address) ==
                 if address == m.regs.mar then Holds(m.regs, c) else Contents(m.regs, address)
  {
    var s := AsSet(controls);
    StepOfTwo(c, Memory, controls);
    var b := OneTransfer(children, m, c, Memory, controls);
    OneStore(m.regs, OfPhase(s, ReadPhase), b, Holds(m.regs, c));
    TransferTick(children, m, s);
  }

  /** What is stored is loaded: after storing from one byte port, loading into another at the same address gives
      the value back. */
  lemma LoadGivesStored(children: seq<Component>, m: Machine, c: Component, d: Component, store: seq<Control>, load: seq<Control>)
    requires ChildrenOk(children) && Idle(m) && !m.halted && m.regs.mar < 0x2000
    requires PortOf(c) == PortOf(d) == DataBus && !d.Memory?
    requires store == [ControlInfo(c, Write), ControlInfo(Memory, Read)] && load == [ControlInfo(Memory, Write), ControlInfo(d, Read)]
    ensures var r := TickTwice(children, m, AsSet(store), AsSet(load)); r.Ok? && Holds(r.value.regs, d) == Holds(m.regs, c)
  {
    OneTransferMoves(children, m, c, Memory, store);
    var m1 := Tick(children, m, AsSet(store), None).value;
    OneTransferMoves(children, m1, Memory, d, load);
  }

  // ---------------------------------------------------------------- the status analyzer

  ghost predicate OtherFlagsStay(before: byte, after: byte, i: nat, j: nat) {
    forall k: nat | k != i && k != j :: Bit(after, k) == Bit(before, k)
  }

  lemma AnalyzerFlags(status: byte, v: byte)
    ensures var after := WithFlag(WithFlag(status, ZERO, v == 0), NEGATIVE, v >= 0x80);
            && (Bit(after, 1) <==> v == 0) && (Bit(after, 7) <==> v >= 0x80) && OtherFlagsStay(status, after, 1, 7)
  {
    var s1 := WithFlag(status, ZERO, v == 0);
    var after := WithFlag(s1, NEGATIVE, v >= 0x80);
    FlagBits(status, ZERO, v == 0, 1);
    FlagBits(s1, NEGATIVE, v >= 0x80, 1);
    FlagBits(s1, NEGATIVE, v >= 0x80, 7);
    forall k: nat | k != 1 && k != 7 ensures Bit(after, k) == Bit(status, k) {
      FlagBits(status, ZERO, v == 0, k);
      FlagBits(s1, NEGATIVE, v >= 0x80, k);
    }
  }

  lemma FlagBits(status: byte, i: nat, value: bool, k: nat)
    requires i < 8
    ensures Bit(WithFlag(status, i, value), k) == if k == i then value else Bit(status, k)
  {
    BitOfWithBit(status, i, value, k);
  }

  /** Reads outside the status register and its analyzer leave the flags. */
  lemma {:induction false} ReadLeavesStatus(r: Registers, on: set<Control>, b: Buses, children: seq<Component>)
    requires !On(on, Status, Read) && TickRead(r, on, ReadPhase, b, children).Ok?
    requires Analyzer in children ==> !On(on, Analyzer, Read)
    ensures TickRead(r, on, ReadPhase, b, children).value.status == r.status
    decreases |children|
  {
    if children != [] {
      ReadLeavesStatus(TickReadOne(r, on, ReadPhase, b, children[0]).value, on, b, children[1..]);
    }
  }

  lemma {:induction false} AnalyzerSets(r: Registers, on: set<Control>, b: Buses, children: seq<Component>, v: byte)
    requires Apart(children) && Analyzer in children && On(on, Analyzer, Read) && !On(on, Status, Read)
    requires OnBus(b, DataBus) == Some(v) && TickRead(r, on, ReadPhase, b, children).Ok?
    ensures TickRead(r, on, ReadPhase, b, children).value.status
         == WithFlag(WithFlag(r.status, ZERO, v == 0), NEGATIVE, v >= 0x80)
    decreases |children|
  {
    RestApart(children);
    var r1 := TickReadOne(r, on, ReadPhase, b, children[0]).value;
    if children[0].Analyzer? {
      ReadLeavesStatus(r1, on, b, children[1..]);
    } else {
      AnalyzerSets(r1, on, b, children[1..], v);
    }
  }

  /** When a value reaches the analyzer, on a step that does not load the flags, bit 1 of the flags says whether
      it is zero and bit 7 whether it is negative; the other flags stay. */
  lemma AnalyzerTells(children: seq<Component>, m: Machine, controls: seq<Control>, c: Component)
    requires ChildrenOk(children) && Idle(m) && BusOk(controls) && Feeds(controls, c, Analyzer)
    requires !On(AsSet(controls), Status, Read) && Transfers(children, m, AsSet(controls)).Ok?
    ensures var v, status := Holds(m.regs, c), Transfers(children, m, AsSet(controls)).value.status;
            (Bit(status, 1) <==> v == 0) && (Bit(status, 7) <==> v >= 0x80) && OtherFlagsStay(m.regs.status, status, 1, 7)
  {
    var s := AsSet(controls);
    assert HasTick(c) && HasTick(Analyzer);
    var write := OfPhase(s, WritePhase);
    forall e: Component | e != c && On(write, e, Write) ensures PortOf(e) != PortOf(c) {
      if PortOf(e) == PortOf(c) { OnlyWriter(controls, c, e); }
    }
    WriterShows(m.regs, write, m.buses, children, c);
    var b := TickWrite(m.regs, write, WritePhase, m.buses, children).value;
    AnalyzerSets(m.regs, OfPhase(s, ReadPhase), b, children, Holds(m.regs, c));
    AnalyzerFlags(m.regs.status, Holds(m.regs, c));
  }

  /** The tick of such a step, if it only transfers. */
  lemma AnalyzerTick(children: seq<Component>, m: Machine, controls: seq<Control>, c: Component)
    requires ChildrenOk(children) && Idle(m) && !m.halted && BusOk(controls) && OnlyTransfers(AsSet(controls))
    requires Feeds(controls, c, Analyzer) && !On(AsSet(controls), Status, Read)
    requires Tick(children, m, AsSet(controls), None).Ok?
    ensures var v, status := Holds(m.regs, c), Tick(children, m, AsSet(controls), None).value.regs.status;
            (Bit(status, 1) <==> v == 0) && (Bit(status, 7) <==> v >= 0x80) && OtherFlagsStay(m.regs.status, status, 1, 7)
  {
    TransferTick(children, m, AsSet(controls));
    AnalyzerTells(children, m, controls, c);
  }

  // ---------------------------------------------------------------- process controls of one component

  /** All controls of the step are process controls of one component that acts alone. */
  ghost predicate Tells(s: set<Control>, c: Component) {
    && !c.Controller? && !c.Halt? && !c.Crash? && !c.IrqLine?
    && forall x | x in s :: x.component == c && x.Phase() == ProcessPhase
  }

  lemma UntoldComputes(r: Registers, on: set<Control>, c: Component, d: Component)
    requires Tells(on, c) && d != c
    ensures ProcessComputed(r, on, d) == r
  {
    forall x: Component, op: Operation | x != c ensures !On(on, x, op) {
    }
    assert d.Alu? ==> AluOpcode(on) == 0;
  }

  lemma UntoldStays(r: Registers, on: set<Control>, irqLine: bool, c: Component, d: Component)
    requires Tells(on, c) && d != c
    ensures ProcessSimple(r, on, irqLine, d) == r
  {
    forall x: Component, op: Operation | x != c ensures !On(on, x, op) {
    }
  }

  lemma {:induction false} OnlyToldActs(r: Registers, on: set<Control>, irqLine: bool, children: seq<Component>, c: Component)
    requires Tells(on, c) && Apart(children)
    ensures TickProcess(r, on, irqLine, children) == if c in children then ProcessOne(r, on, irqLine, c) else r
    decreases |children|
  {
    if children != [] {
      RestApart(children);
      var d := children[0];
      if d != c {
        UntoldComputes(r, on, c, d);
        UntoldStays(r, on, irqLine, c, d);
      }
      OnlyToldActs(ProcessOne(r, on, irqLine, d), on, irqLine, children[1..], c);
    }
  }

  /** A tick of process controls that leaves the registers `x`. */
  lemma OnlyProcessTick(children: seq<Component>, m: Machine, s: set<Control>, irq: Option<bool>, x: Registers)
    requires Idle(m) && !m.halted && OnlyProcess(s)
    requires x == TickProcess(m.regs, s, AssertControls(m, s, irq).irqLine, children)
    ensures Tick(children, m, s, irq) == Ok(ClearTick(FinishProcess(AssertControls(m, s, irq).(phase := ProcessPhase, regs := x), s)))
  {
    assert OfPhase(s, WritePhase) == {} && OfPhase(s, ReadPhase) == {} && OfPhase(s, ProcessPhase) == s;
    assert AssertControls(m, s, irq).asserted == s;
    WriteNothing(m.regs, WritePhase, m.buses, children);
    ReadNothing(m.regs, ReadPhase, m.buses, children);
  }

  /** The tick of such a step is that component's process phase. */
  lemma ToldTick(children: seq<Component>, m: Machine, s: set<Control>, c: Component, x: Registers)
    requires ChildrenOk(children) && Idle(m) && !m.halted && Tells(s, c) && HasTick(c)
    requires x == ProcessOne(m.regs, s, m.irqLine, c)
    ensures Tick(children, m, s, None) == Ok(m.(regs := x, cycles := m.cycles + 1))
  {
    var raise: Control := ControlInfo(IrqLine, Raise);
    assert raise !in s;
    assert AssertControls(m, s, None) == m.(phase := ControlPhase, asserted := s);
    OnlyToldActs(m.regs, s, m.irqLine, children, c);
    OnlyProcessTick(children, m, s, None, x);
    ToldFinish(m, s, c, x);
  }

  lemma ToldFinish(m: Machine, s: set<Control>, c: Component, x: Registers)
    requires Idle(m) && Tells(s, c)
    ensures ClearTick(FinishProcess(m.(phase := ControlPhase, asserted := s).(phase := ProcessPhase, regs := x), s))
         == m.(regs := x, cycles := m.cycles + 1)
  {
    assert !On(s, Halt, Raise) && !On(s, Crash, Raise) && !On(s, Controller, InstructionStart);
  }

  /** The tick of a step with a single control. */
  ghost predicate OneControl(s: set<Control>, c: Component, op: Operation) {
    s == {ControlInfo(c, op)} && !op.Write? && !op.Read?
  }

  /** Setting a flag makes its bit 1 and clearing it makes it 0; no other bit changes. */
  lemma FlagTick(children: seq<Component>, m: Machine, s: set<Control>, i: nat)
    requires ChildrenOk(children) && Idle(m) && !m.halted && i < 8
    requires OneControl(s, Flag(i), Set) || OneControl(s, Flag(i), Clear)
    ensures var r := Tick(children, m, s, None);
            && r.Ok?
            && Bit(r.value.regs.status, i) == (s == {ControlInfo(Flag(i), Set)})
            && OtherFlagsStay(m.regs.status, r.value.regs.status, i, i)
            && r.value.regs == m.regs.(status := r.value.regs.status)
  {
    var value := On(s, Flag(i), Set);
    FlagOne(m.regs.status, i, value);
    ToldTick(children, m, s, Flag(i), m.regs.(status := WithFlag(m.regs.status, i, value)));
  }

  lemma FlagOne(status: byte, i: nat, value: bool)
    requires i < 8
    ensures Bit(WithFlag(status, i, value), i) == value && OtherFlagsStay(status, WithFlag(status, i, value), i, i)
  {
    FlagBits(status, i, value, i);
    forall k: nat | k != i ensures Bit(WithFlag(status, i, value), k) == Bit(status, k) {
      FlagBits(status, i, value, k);
    }
  }

  /** Components whose reset clears what their port shows. */
  predicate Clearable(c: Component) {
    PortOf(c) != NoBus && !c.Memory? && !c.Mar?
  }

  /** Resetting a register makes it 0 and leaves every port that is not part of it. */
  lemma ResetTick(children: seq<Component>, m: Machine, s: set<Control>, c: Component)
    requires ChildrenOk(children) && Idle(m) && !m.halted && Clearable(c) && OneControl(s, c, Reset)
    ensures var r := Tick(children, m, s, None);
            && r.Ok? && Holds(r.value.regs, c) == 0
            && forall d: Component | d != c && PortOf(d) != NoBus && !Disturbs(c, d) :: Holds(r.value.regs, d) == Holds(m.regs, d)
  {
    var x := ProcessOne(m.regs, s, m.irqLine, c);
    ToldTick(children, m, s, c, x);
    forall d: Component | d != c && PortOf(d) != NoBus && !Disturbs(c, d) ensures Holds(x, d) == Holds(m.regs, d) {
      ResetOne(m.regs, s, m.irqLine, c, d);
    }
    ResetOne(m.regs, s, m.irqLine, c, if c.A? then X else A);
  }

  lemma ResetOne(r: Registers, s: set<Control>, irqLine: bool, c: Component, d: Component)
    requires Clearable(c) && OneControl(s, c, Reset) && d != c && !Disturbs(c, d) && PortOf(d) != NoBus
    ensures Holds(ProcessOne(r, s, irqLine, c), c) == 0 && Holds(ProcessOne(r, s, irqLine, c), d) == Holds(r, d)
  {
    assert On(s, c, Reset);
    match c
    case PcLow => HalvesOf(High(r.pc), 0);
    case PcHigh => HalvesOf(0, Low(r.pc));
    case MarLow => HalvesOf(High(r.mar), 0);
    case MarHigh => HalvesOf(0, Low(r.mar));
    case _ =>
  }

  /** What the address register makes of its own controls: the interrupt vector, the stack page with the low
      byte kept, the next address, and the sum with the offset, wrapping at 16 bits. */
  lemma MarTick(children: seq<Component>, m: Machine, s: set<Control>, op: Operation)
    requires ChildrenOk(children) && Idle(m) && !m.halted && OneControl(s, Mar, op)
    ensures var r := Tick(children, m, s, None);
            && r.Ok? && r.value.regs == m.regs.(mar := r.value.regs.mar)
            && (op.InterruptVector? ==> r.value.regs.mar == 0xFFFE)
            && (op.StackPage? ==> r.value.regs.mar == 0x0100 + m.regs.mar % 256)
            && (op.Increment? ==> r.value.regs.mar == if m.regs.mar == 0xFFFF then 0 else m.regs.mar + 1)
            && (op.AddOffset? ==> r.value.regs.mar == SumWrapped(m.regs.mar, m.regs.marOffset))
  {
    MarOne(m.regs, s, op);
    ToldTick(children, m, s, Mar, ProcessMar(m.regs, s));
  }

  function SumWrapped(w: word, offset: byte): word {
    if w + offset > 0xFFFF then w + offset - 0x1_0000 else w + offset
  }

  lemma MarOne(r: Registers, s: set<Control>, op: Operation)
    requires OneControl(s, Mar, op)
    ensures var x := ProcessMar(r, s);
            && x == r.(mar := x.mar)
            && (op.InterruptVector? ==> x.mar == 0xFFFE)
            && (op.StackPage? ==> x.mar == 0x0100 + r.mar % 256)
            && (op.Increment? ==> x.mar == if r.mar == 0xFFFF then 0 else r.mar + 1)
            && (op.AddOffset? ==> x.mar == SumWrapped(r.mar, r.marOffset))
  {
    forall o: Operation ensures On(s, Mar, o) <==> o == op {
    }
    if op.AddOffset? { CarryIsSum(r.mar, r.marOffset); }
  }

  lemma CarryIsSum(w: word, offset: byte)
    ensures AddWithCarry(w, offset) == SumWrapped(w, offset)
  {
    var low, high := w % 0x100, w / 0x100;
    var sum := low + offset;
    var carry := if sum > 0xFF then 1 else 0;
    assert sum % 0x100 == sum - 0x100 * carry;
    assert w + offset == 0x100 * (high + carry) + (sum - 0x100 * carry);
  }

  /** The program counter: next address, and back to 0. */
  lemma PcTicks(children: seq<Component>, m: Machine, s: set<Control>, op: Operation)
    requires ChildrenOk(children) && Idle(m) && !m.halted && OneControl(s, Pc, op) && (op.Increment? || op.AddSignedOffset?)
    ensures var r := Tick(children, m, s, None);
            && r.Ok? && r.value.regs == m.regs.(pc := r.value.regs.pc)
            && (op.Increment? ==> r.value.regs.pc == if m.regs.pc == 0xFFFF then 0 else m.regs.pc + 1)
            && (op.AddSignedOffset? ==> r.value.regs.pc == (m.regs.pc + SignedByte(m.regs.pcOffset)) % 0x1_0000)
  {
    PcOne(m.regs, s, op);
    ToldTick(children, m, s, Pc, ProcessPc(m.regs, s));
  }

  lemma PcOne(r: Registers, s: set<Control>, op: Operation)
    requires OneControl(s, Pc, op) && (op.Increment? || op.AddSignedOffset?)
    ensures var x := ProcessPc(r, s);
            && x == r.(pc := x.pc)
            && (op.Increment? ==> x.pc == if r.pc == 0xFFFF then 0 else r.pc + 1)
            && (op.AddSignedOffset? ==> x.pc == (r.pc + SignedByte(r.pcOffset)) % 0x1_0000)
  {
    forall o: Operation ensures On(s, Pc, o) <==> o == op {
    }
  }

  /** The interrupted program counter is latched. */
  lemma LatchTick(children: seq<Component>, m: Machine, s: set<Control>)
    requires ChildrenOk(children) && Idle(m) && !m.halted && OneControl(s, Ipc, Latch)
    ensures Tick(children, m, s, None) == Ok(m.(regs := m.regs.(ipc := m.regs.pc), cycles := m.cycles + 1))
  {
    ToldTick(children, m, s, Ipc, m.regs.(ipc := m.regs.pc));
  }

  /** The opcode bits of an ALU operation. */
  ghost function OpcodeBits(opcode: nat): set<Control> {
    set i | 0 <= i < 4 && Bit(opcode, i) :: ControlInfo(Component.Alu, OpcodeBit(i))
  }

  lemma OpcodeOfBits(opcode: nat)
    requires opcode < 16
    ensures AluOpcode(OpcodeBits(opcode)) == opcode
  {
    var on := OpcodeBits(opcode);
    forall i: nat | i < 4 ensures On(on, Component.Alu, OpcodeBit(i)) <==> Bit(opcode, i) {
    }
    FourBits(opcode);
  }

  lemma FourBits(n: nat)
    requires n < 16
    ensures (if Bit(n, 0) then 1 else 0) + (if Bit(n, 1) then 2 else 0) + (if Bit(n, 2) then 4 else 0) + (if Bit(n, 3) then 8 else 0) == n
  {
    assert Bit(n, 1) == Bit(n / 2, 0);
    assert Bit(n, 2) == Bit(n / 2, 1) == Bit(n / 2 / 2, 0);
    assert Bit(n, 3) == Bit(n / 2, 2) == Bit(n / 2 / 2, 1) == Bit(n / 2 / 2 / 2, 0);
  }

  /** An ALU operation on the machine: operands and flags 0 and 6 go in, result and the same flags come out,
      nothing else changes. */
  lemma AluTick(children: seq<Component>, m: Machine, opcode: nat)
    requires ChildrenOk(children) && Idle(m) && !m.halted && 0 < opcode < 16
    ensures var r := Tick(children, m, OpcodeBits(opcode), None);
            var u := Operate(Alu.Alu(m.regs.lhs, m.regs.rhs, m.regs.result, Bit(m.regs.status, 0), Bit(m.regs.status, 6)), opcode);
            && r.Ok? && r.value.regs == m.regs.(result := u.result, status := r.value.regs.status)
            && Bit(r.value.regs.status, 0) == u.carry && Bit(r.value.regs.status, 6) == u.overflow
            && OtherFlagsStay(m.regs.status, r.value.regs.status, 0, 6)
  {
    var s := OpcodeBits(opcode);
    ToldTick(children, m, s, Component.Alu, ProcessAlu(m.regs, s));
    OpcodeOfBits(opcode);
    var u := Operate(Alu.Alu(m.regs.lhs, m.regs.rhs, m.regs.result, Bit(m.regs.status, 0), Bit(m.regs.status, 6)), opcode);
    ResultFlags(m.regs.status, u.carry, u.overflow);
  }

  lemma ResultFlags(status: byte, carry: bool, overflow: bool)
    ensures var after := WithFlag(WithFlag(status, CARRY, carry), OVERFLOW, overflow);
            Bit(after, 0) == carry && Bit(after, 6) == overflow && OtherFlagsStay(status, after, 0, 6)
  {
    var s1 := WithFlag(status, CARRY, carry);
    FlagBits(status, CARRY, carry, 0);
    FlagBits(s1, OVERFLOW, overflow, 0);
    FlagBits(s1, OVERFLOW, overflow, 6);
    forall k: nat | k != 0 && k != 6 ensures Bit(WithFlag(s1, OVERFLOW, overflow), k) == Bit(status, k) {
      FlagBits(status, CARRY, carry, k);
      FlagBits(s1, OVERFLOW, overflow, k);
    }
  }

  // ---------------------------------------------------------------- instruction start, halt and crash

  lemma {:induction false} StartProcesses(r: Registers, on: set<Control>, irqLine: bool, children: seq<Component>)
    requires on == {ControlInfo(Controller, InstructionStart)}
    ensures TickProcess(r, on, irqLine, children)
         == r.(ipc := if Controller in children then r.pc else r.ipc,
               inject := if Ir in children then irqLine && !Bit(r.status, 2) else r.inject)
    decreases |children|
  {
    if children != [] {
      StartOne(r, on, irqLine, children[0]);
      StartProcesses(ProcessOne(r, on, irqLine, children[0]), on, irqLine, children[1..]);
    }
  }

  lemma StartOne(r: Registers, on: set<Control>, irqLine: bool, c: Component)
    requires on == {ControlInfo(Controller, InstructionStart)}
    ensures ProcessOne(r, on, irqLine, c)
         == r.(ipc := if c.Controller? then r.pc else r.ipc, inject := if c.Ir? then irqLine && !Bit(r.status, 2) else r.inject)
  {
    forall x: Component, op: Operation ensures On(on, x, op) <==> x.Controller? && op.InstructionStart? {
    }
    if Computes(c) {
      StartComputes(r, on, c);
    } else {
      StartSimple(r, on, irqLine, c);
    }
  }

  lemma StartComputes(r: Registers, on: set<Control>, c: Component)
    requires forall x: Component, op: Operation :: On(on, x, op) <==> x.Controller? && op.InstructionStart?
    ensures ProcessComputed(r, on, c) == r
  {
    assert AluOpcode(on) == 0;
  }

  lemma StartSimple(r: Registers, on: set<Control>, irqLine: bool, c: Component)
    requires forall x: Component, op: Operation :: On(on, x, op) <==> x.Controller? && op.InstructionStart?
    requires !Computes(c)
    ensures ProcessSimple(r, on, irqLine, c)
         == r.(ipc := if c.Controller? then r.pc else r.ipc, inject := if c.Ir? then irqLine && !Bit(r.status, 2) else r.inject)
  {
  }

  /** At instruction start the address of the instruction is latched, and an interrupt is injected exactly when
      the interrupt line is raised and the interrupt-disable flag, bit 2, is clear. */
  lemma InstructionStartTick(children: seq<Component>, m: Machine, s: set<Control>, irq: Option<bool>)
    requires ChildrenOk(children) && Idle(m) && !m.halted && OneControl(s, Controller, InstructionStart)
    ensures var line := if irq.Some? then irq.value else m.irqLine;
            Tick(children, m, s, irq)
            == Ok(m.(regs := m.regs.(ipc := m.regs.pc, inject := line && !Bit(m.regs.status, 2)), irqLine := line,
                     ipcValid := true, cycles := m.cycles + 1))
  {
    var m0 := AssertControls(m, s, irq);
    var raise: Control := ControlInfo(IrqLine, Raise);
    assert raise !in s && m0 == m.(phase := ControlPhase, asserted := s, irqLine := m0.irqLine);
    assert HasTick(Controller) && HasTick(Ir);
    StartProcesses(m.regs, s, m0.irqLine, children);
    var x := m.regs.(ipc := m.regs.pc, inject := m0.irqLine && !Bit(m.regs.status, 2));
    OnlyProcessTick(children, m, s, irq, x);
    StartFinish(m, s, m0.irqLine, x);
  }

  lemma StartFinish(m: Machine, s: set<Control>, line: bool, x: Registers)
    requires Idle(m) && OneControl(s, Controller, InstructionStart)
    ensures ClearTick(FinishProcess(m.(phase := ControlPhase, asserted := s, irqLine := line).(phase := ProcessPhase, regs := x), s))
         == m.(regs := x, irqLine := line, ipcValid := true, cycles := m.cycles + 1)
  {
    assert On(s, Controller, InstructionStart) && !On(s, Halt, Raise) && !On(s, Crash, Raise);
  }

  /** Halting stops the machine, crashing stops it as crashed; both change no register. */
  lemma StopTick(children: seq<Component>, m: Machine, s: set<Control>)
    requires ChildrenOk(children) && Idle(m) && !m.halted && (OneControl(s, Halt, Raise) || OneControl(s, Crash, Raise))
    ensures Tick(children, m, s, None)
         == Ok(m.(halted := true, crashed := m.crashed || s == {ControlInfo(Crash, Raise)}, cycles := m.cycles + 1))
  {
    StopProcesses(m.regs, s, AssertControls(m, s, None).irqLine, children);
    OnlyProcessTick(children, m, s, None, m.regs);
  }

  lemma {:induction false} StopProcesses(r: Registers, on: set<Control>, irqLine: bool, children: seq<Component>)
    requires forall x | x in on :: x.component.Halt? || x.component.Crash?
    ensures TickProcess(r, on, irqLine, children) == r
    decreases |children|
  {
    if children != [] {
      assert AluOpcode(on) == 0;
      StopProcesses(r, on, irqLine, children[1..]);
    }
  }

  /** Raising the interrupt line latches it; a device that drives the line has the last word. */
  lemma RaiseTick(children: seq<Component>, m: Machine, s: set<Control>, irq: Option<bool>)
    requires ChildrenOk(children) && Idle(m) && !m.halted && OneControl(s, IrqLine, Raise)
    ensures Tick(children, m, s, irq) == Ok(m.(irqLine := if irq.Some? then irq.value else true, cycles := m.cycles + 1))
  {
    var m0 := AssertControls(m, s, irq);
    assert On(s, IrqLine, Raise) && m0 == m.(phase := ControlPhase, asserted := s, irqLine := m0.irqLine);
    RaiseProcesses(m.regs, s, m0.irqLine, children);
    OnlyProcessTick(children, m, s, irq, m.regs);
    assert !On(s, Halt, Raise) && !On(s, Crash, Raise) && !On(s, Controller, InstructionStart);
  }

  lemma {:induction false} RaiseProcesses(r: Registers, on: set<Control>, irqLine: bool, children: seq<Component>)
    requires forall x | x in on :: x.component.IrqLine?
    ensures TickProcess(r, on, irqLine, children) == r
    decreases |children|
  {
    if children != [] {
      assert AluOpcode(on) == 0;
      RaiseProcesses(r, on, irqLine, children[1..]);
    }
  }

  /** Resetting the instruction register also takes back an injected interrupt. */
  lemma IrResetTick(children: seq<Component>, m: Machine, s: set<Control>)
    requires ChildrenOk(children) && Idle(m) && !m.halted && OneControl(s, Ir, Reset)
    ensures Tick(children, m, s, None) == Ok(m.(regs := m.regs.(ir := 0, inject := false), cycles := m.cycles + 1))
  {
    ToldTick(children, m, s, Ir, m.regs.(ir := 0, inject := false));
  }

  // ---------------------------------------------------------------- opposed controls

  /** The flags are processed behind everything else that sets them in the process phase. */
  ghost predicate FlagsLate(children: seq<Component>) {
    forall k, l, i: nat | 0 <= k < l < |children| && i < 8 && children[k] == Flag(i) :: !children[l].Status? && !children[l].Alu?
  }

  lemma RegistrationFlagsLate(children: seq<Component>)
    requires children == RegistrationOrder()
    ensures FlagsLate(children)
  {
    PositionsRight(children);
    forall k, l, i: nat | 0 <= k < l < |children| && i < 8 && children[k] == Flag(i)
      ensures !children[l].Status? && !children[l].Alu?
    {
      assert Position(children[k]) == k && Position(children[l]) == l;
    }
  }

  lemma OtherKeepsFlag(r: Registers, on: set<Control>, irqLine: bool, c: Component, i: nat)
    requires i < 8 && !c.Status? && !c.Alu? && c != Flag(i)
    ensures Bit(ProcessOne(r, on, irqLine, c).status, i) == Bit(r.status, i)
  {
    if c.Flag? && c.bit < 8 { FlagBits(r.status, c.bit, On(on, c, Set), i); }
  }

  lemma {:induction false} OthersKeepFlag(r: Registers, on: set<Control>, irqLine: bool, children: seq<Component>, i: nat)
    requires i < 8 && Flag(i) !in children && Status !in children && Component.Alu !in children
    ensures Bit(TickProcess(r, on, irqLine, children).status, i) == Bit(r.status, i)
    decreases |children|
  {
    if children != [] {
      OtherKeepsFlag(r, on, irqLine, children[0], i);
      OthersKeepFlag(ProcessOne(r, on, irqLine, children[0]), on, irqLine, children[1..], i);
    }
  }

  /** A flag that is told to be set or cleared ends set if and only if it was told to be set. */
  lemma {:induction false} FlagEnds(r: Registers, on: set<Control>, irqLine: bool, children: seq<Component>, k: nat, i: nat)
    requires Apart(children) && k < |children| && children[k] == Flag(i) && i < 8
    requires forall l | k < l < |children| :: !children[l].Status? && !children[l].Alu?
    requires On(on, Flag(i), Set) || On(on, Flag(i), Clear)
    ensures Bit(TickProcess(r, on, irqLine, children).status, i) == On(on, Flag(i), Set)
    decreases |children|
  {
    RestApart(children);
    var rest, r1 := children[1..], ProcessOne(r, on, irqLine, children[0]);
    assert forall l | 0 <= l < |rest| :: rest[l] == children[l + 1];
    if k == 0 {
      FlagBits(r.status, i, On(on, Flag(i), Set), i);
      OthersKeepFlag(r1, on, irqLine, rest, i);
    } else {
      FlagEnds(r1, on, irqLine, rest, k - 1, i);
    }
  }

  /** In any step at all, whatever else it does: every set and every clear of a flag takes effect if and only
      if the step does not tell the flag to do both, as the conflict check demands. */
  lemma FlagControlsTakeEffect(children: seq<Component>, m: Machine, s: set<Control>, i: nat)
    requires ChildrenOk(children) && FlagsLate(children) && Idle(m) && !m.halted && i < 8
    requires (On(s, Flag(i), Set) || On(s, Flag(i), Clear)) && Tick(children, m, s, None).Ok?
    ensures var after := Bit(Tick(children, m, s, None).value.regs.status, i);
            (On(s, Flag(i), Set) ==> after) && (On(s, Flag(i), Clear) ==> !after)
            <==> !(On(s, Flag(i), Set) && On(s, Flag(i), Clear))
  {
    var r, x, irqLine := TickRegisters(children, m, s);
    var on := OfPhase(s, ProcessPhase);
    assert On(on, Flag(i), Set) == On(s, Flag(i), Set) && On(on, Flag(i), Clear) == On(s, Flag(i), Clear);
    assert HasTick(Flag(i));
    var k :| 0 <= k < |children| && children[k] == Flag(i);
    FlagEnds(r, on, irqLine, children, k, i);
  }

  function CounterOf(r: Registers, c: Component): byte {
    if c.Sp? then r.sp else r.sc
  }

  lemma CounterProcess(r: Registers, on: set<Control>, irqLine: bool, d: Component, c: Component)
    requires c.Sp? || c.Sc?
    ensures CounterOf(ProcessOne(r, on, irqLine, d), c) == if d == c then ProcessCounter(on, c, CounterOf(r, c)) else CounterOf(r, c)
  {
  }

  lemma {:induction false} CounterStays(r: Registers, on: set<Control>, irqLine: bool, children: seq<Component>, c: Component)
    requires (c.Sp? || c.Sc?) && c !in children
    ensures CounterOf(TickProcess(r, on, irqLine, children), c) == CounterOf(r, c)
    decreases |children|
  {
    if children != [] {
      CounterProcess(r, on, irqLine, children[0], c);
      CounterStays(ProcessOne(r, on, irqLine, children[0]), on, irqLine, children[1..], c);
    }
  }

  lemma {:induction false} CounterEnds(r: Registers, on: set<Control>, irqLine: bool, children: seq<Component>, c: Component)
    requires (c.Sp? || c.Sc?) && c in children && Apart(children)
    ensures CounterOf(TickProcess(r, on, irqLine, children), c) == ProcessCounter(on, c, CounterOf(r, c))
    decreases |children|
  {
    RestApart(children);
    var r1 := ProcessOne(r, on, irqLine, children[0]);
    CounterProcess(r, on, irqLine, children[0], c);
    if children[0] == c {
      CounterStays(r1, on, irqLine, children[1..], c);
    } else {
      CounterEnds(r1, on, irqLine, children[1..], c);
    }
  }

  function Up(v: byte): byte {
    if v == 0xFF then 0 else v + 1
  }

  function Down(v: byte): byte {
    if v == 0 then 0xFF else v - 1
  }

  /** Likewise for the counters: in a step that does not reset it, every increment and every decrement of a
      counter takes effect, on the value its transfers leave, if and only if the step does not ask for both. */
  lemma CounterControlsTakeEffect(children: seq<Component>, m: Machine, s: set<Control>, c: Component)
    requires ChildrenOk(children) && Idle(m) && !m.halted && (c.Sp? || c.Sc?) && !On(s, c, Reset)
    requires (On(s, c, Increment) || On(s, c, Decrement)) && Tick(children, m, s, None).Ok?
    ensures Transfers(children, m, s).Ok?
    ensures var before, after := CounterOf(Transfers(children, m, s).value, c), CounterOf(Tick(children, m, s, None).value.regs, c);
            (On(s, c, Increment) ==> after == Up(before)) && (On(s, c, Decrement) ==> after == Down(before))
            <==> !(On(s, c, Increment) && On(s, c, Decrement))
  {
    var r, x, irqLine := TickRegisters(children, m, s);
    var on := OfPhase(s, ProcessPhase);
    assert On(on, c, Increment) == On(s, c, Increment) && On(on, c, Decrement) == On(s, c, Decrement) && !On(on, c, Reset);
    assert HasTick(c);
    CounterEnds(r, on, irqLine, children, c);
    CountOne(on, c, CounterOf(r, c));
  }

  lemma CountOne(on: set<Control>, c: Component, v: byte)
    requires !On(on, c, Reset)
    ensures On(on, c, Increment) ==> ProcessCounter(on, c, v) == Up(v)
    ensures !On(on, c, Increment) && On(on, c, Decrement) ==> ProcessCounter(on, c, v) == Down(v)
  {
  }

  /** In a step without opposed controls every set and clear of a flag, and every increment and decrement of a
      counter it does not reset, takes effect. */
  lemma AcceptedControlsTakeEffect(children: seq<Component>, m: Machine, controls: seq<Control>)
    requires ChildrenOk(children) && FlagsLate(children) && Idle(m) && !m.halted && ConflictFree(controls)
    requires Tick(children, m, AsSet(controls), None).Ok?
    ensures Transfers(children, m, AsSet(controls)).Ok?
    ensures var status := Tick(children, m, AsSet(controls), None).value.regs.status;
            forall i: nat | i < 8 ::
              && (ControlInfo(Flag(i), Set) in controls ==> Bit(status, i))
              && (ControlInfo(Flag(i), Clear) in controls ==> !Bit(status, i))
    ensures var before, after := Transfers(children, m, AsSet(controls)).value, Tick(children, m, AsSet(controls), None).value.regs;
            forall c: Component | (c.Sp? || c.Sc?) && ControlInfo(c, Reset) !in controls ::
              && (ControlInfo(c, Increment) in controls ==> CounterOf(after, c) == Up(CounterOf(before, c)))
              && (ControlInfo(c, Decrement) in controls ==> CounterOf(after, c) == Down(CounterOf(before, c)))
  {
    var s := AsSet(controls);
    var r, x, irqLine := TickRegisters(children, m, s);
    forall i: nat | i < 8
      ensures On(s, Flag(i), Set) ==> Bit(x.status, i)
      ensures On(s, Flag(i), Clear) ==> !Bit(x.status, i)
    {
      var a: Control, b: Control := ControlInfo(Flag(i), Set), ControlInfo(Flag(i), Clear);
      assert a in controls && b in controls ==> !Opposed(a.operation, b.operation);
      if On(s, Flag(i), Set) || On(s, Flag(i), Clear) { FlagControlsTakeEffect(children, m, s, i); }
    }
    forall c: Component | (c.Sp? || c.Sc?) && !On(s, c, Reset)
      ensures On(s, c, Increment) ==> CounterOf(x, c) == Up(CounterOf(r, c))
      ensures On(s, c, Decrement) ==> CounterOf(x, c) == Down(CounterOf(r, c))
    {
      var a: Control, b: Control := ControlInfo(c, Increment), ControlInfo(c, Decrement);
      assert a in controls && b in controls ==> !Opposed(a.operation, b.operation);
      if On(s, c, Increment) || On(s, c, Decrement) { CounterControlsTakeEffect(children, m, s, c); }
    }
  }
}
