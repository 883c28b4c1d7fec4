/** The two passes agree: labels name the next item, every item is written to exactly the range reserved
    for it inside the ROM, nothing else is written, and every byte has its debug record. */
module AssemblerLayout {
  import opened Bits
  import opened Wrappers
  import opened Isa
  import opened Ast
  import opened Assembler

  predicate Places(s: Statement) {
    s.Data? || s.Instruct?
  }

  /** Number of statements that become items. */
  function ItemCount(statements: seq<Statement>): nat {
    if statements == [] then 0 else (if Places(statements[0]) then 1 else 0) + ItemCount(statements[1..])
  }

  lemma {:induction false} PlaceAllSplits(isa: seq<Entry>, origin: word, p: Layout, a: seq<Statement>, b: seq<Statement>)
    ensures var first := PlaceAll(isa, origin, p, a);
            PlaceAll(isa, origin, p, a + b) == if first.None? then None else PlaceAll(isa, origin, first.value, b)
    decreases |a|
  {
    if a == [] {
      assert a + b == b;
    } else {
      assert (a + b)[1..] == a[1..] + b;
      var next := Place(isa, origin, p, a[0]);
      if next.Some? { PlaceAllSplits(isa, origin, next.value, a[1..], b); }
    }
  }

  /** Later statements neither move items nor rebind names, and each `.byte` or instruction adds one item. */
  lemma {:induction false} LayoutGrows(isa: seq<Entry>, origin: word, p: Layout, statements: seq<Statement>)
    requires PlaceAll(isa, origin, p, statements).Some?
    ensures var r := PlaceAll(isa, origin, p, statements).value;
            && p.items <= r.items && |r.items| == |p.items| + ItemCount(statements)
            && (forall name | name in p.symbols :: name in r.symbols && r.symbols[name] == p.symbols[name])
            && (forall name | name in p.constants :: name in r.constants && r.constants[name] == p.constants[name])
            && p.maxAddress <= r.maxAddress
    decreases |statements|
  {
    if statements != [] {
      LayoutGrows(isa, origin, Place(isa, origin, p, statements[0]).value, statements[1..]);
    }
  }

  /** Statements that place nothing and set no origin leave the cursor where it is. */
  lemma {:induction false} CursorStays(isa: seq<Entry>, origin: word, p: Layout, statements: seq<Statement>)
    requires PlaceAll(isa, origin, p, statements).Some?
    requires forall s | s in statements :: !Places(s) && !s.Org?
    ensures var r := PlaceAll(isa, origin, p, statements).value; r.cursor == p.cursor && r.items == p.items
    decreases |statements|
  {
    if statements != [] {
      assert statements[0] in statements;
      CursorStays(isa, origin, Place(isa, origin, p, statements[0]).value, statements[1..]);
    }
  }

  /** A label is the address of the next item, when no `.org` comes between. */
  lemma LabelNamesNextItem(isa: seq<Entry>, origin: word, before: seq<Statement>, name: string,
                           between: seq<Statement>, placed: Statement, after: seq<Statement>)
    requires Places(placed) && forall s | s in between :: !Places(s) && !s.Org?
    requires PlaceAll(isa, origin, Start(origin), before + ([Label(name)] + (between + ([placed] + after)))).Some?
    ensures var r := PlaceAll(isa, origin, Start(origin), before + ([Label(name)] + (between + ([placed] + after)))).value;
            var k := ItemCount(before);
            k < |r.items| && name in r.symbols && r.symbols[name] == r.items[k].address
  {
    var tail3 := [placed] + after;
    var tail2 := between + tail3;
    var tail1 := [Label(name)] + tail2;
    PlaceAllSplits(isa, origin, Start(origin), before, tail1);
    LayoutGrows(isa, origin, Start(origin), before);
    var atLabel := PlaceAll(isa, origin, Start(origin), before).value;
    assert tail1[0] == Label(name) && tail1[1..] == tail2;
    var labelled := Place(isa, origin, atLabel, Label(name)).value;
    PlaceAllSplits(isa, origin, labelled, between, tail3);
    CursorStays(isa, origin, labelled, between);
    LayoutGrows(isa, origin, labelled, between);
    var atItem := PlaceAll(isa, origin, labelled, between).value;
    assert tail3[0] == placed && tail3[1..] == after;
    var done := Place(isa, origin, atItem, placed).value;
    assert done.items[|atItem.items|].address == atItem.cursor;
    LayoutGrows(isa, origin, done, after);
  }

  // ---------------------------------------------------------------- what pass one reserves

  /** An item as pass one leaves it: a non-empty range below the top of memory, with the operand its mode needs. */
  predicate Reserved(item: Item, origin: word, maxAddress: word) {
    && origin <= item.address
    && Size(item) > 0
    && item.address + Size(item) - 1 <= maxAddress
    && (item.content.Instruction? && OperandBytes(item.content.mode) > 0 ==> |item.operands| == 1)
  }

  predicate AllReserved(items: seq<Item>, origin: word, maxAddress: word) {
    forall item | item in items :: Reserved(item, origin, maxAddress)
  }

  predicate LayoutOk(p: Layout, origin: word) {
    && origin <= p.cursor <= 0x1_0000
    && origin <= p.maxAddress
    && AllReserved(p.items, origin, p.maxAddress)
  }

  lemma SelectionHasItsOperand(isa: seq<Entry>, mnemonic: string, operands: seq<Operand>)
    requires SelectInstruction(isa, mnemonic, operands).Some?
    ensures OperandBytes(SelectInstruction(isa, mnemonic, operands).value.mode) > 0 ==> |operands| == 1
    ensures |operands| <= 1
  {
    if operands == [] {
      assert SelectInstruction(isa, mnemonic, operands).value.mode in [IMP];
    }
  }

  lemma PlaceKeepsLayout(isa: seq<Entry>, origin: word, p: Layout, s: Statement)
    requires LayoutOk(p, origin) && Place(isa, origin, p, s).Some?
    ensures LayoutOk(Place(isa, origin, p, s).value, origin)
  {
    var r := Place(isa, origin, p, s).value;
    if s.Instruct? { SelectionHasItsOperand(isa, s.mnemonic, s.operands); }
    forall item | item in r.items ensures Reserved(item, origin, r.maxAddress) {
      if item !in p.items {
        assert Places(s) && item == r.items[|p.items|];
      }
    }
  }

  /** Every item pass one reserves lies between the entry point and the highest address it reports. */
  lemma {:induction false} PassOneReserves(isa: seq<Entry>, origin: word, p: Layout, statements: seq<Statement>)
    requires LayoutOk(p, origin) && PlaceAll(isa, origin, p, statements).Some?
    ensures LayoutOk(PlaceAll(isa, origin, p, statements).value, origin)
    decreases |statements|
  {
    if statements != [] {
      PlaceKeepsLayout(isa, origin, p, statements[0]);
      PassOneReserves(isa, origin, Place(isa, origin, p, statements[0]).value, statements[1..]);
    }
  }

  // ---------------------------------------------------------------- the space check

  /** The highest address is the last byte of some item, or the entry point. */
  predicate HighestIsReached(p: Layout, origin: word) {
    p.maxAddress <= origin || exists item | item in p.items :: item.address + Size(item) - 1 == p.maxAddress
  }

  lemma PlaceReaches(isa: seq<Entry>, origin: word, p: Layout, s: Statement)
    requires HighestIsReached(p, origin) && Place(isa, origin, p, s).Some?
    ensures HighestIsReached(Place(isa, origin, p, s).value, origin)
  {
    var r := Place(isa, origin, p, s).value;
    if r.maxAddress != p.maxAddress {
      assert r.items[|p.items|] in r.items;
    } else if p.maxAddress > origin {
      var item :| item in p.items && item.address + Size(item) - 1 == p.maxAddress;
      assert item in r.items;
    }
  }

  lemma {:induction false} LayoutReaches(isa: seq<Entry>, origin: word, p: Layout, statements: seq<Statement>)
    requires HighestIsReached(p, origin) && PlaceAll(isa, origin, p, statements).Some?
    ensures HighestIsReached(PlaceAll(isa, origin, p, statements).value, origin)
    decreases |statements|
  {
    if statements != [] {
      PlaceReaches(isa, origin, p, statements[0]);
      LayoutReaches(isa, origin, Place(isa, origin, p, statements[0]).value, statements[1..]);
    }
  }

  /** The space check decides nothing: a program whose items can all be placed passes it, so encoding fails
      exactly when some item cannot be placed. */
  lemma SpaceCheckDecidesNothing(isa: seq<Entry>, origin: word, romSize: nat, statements: seq<Statement>)
    requires PlaceAll(isa, origin, Start(origin), statements).Some?
    ensures var p := PlaceAll(isa, origin, Start(origin), statements).value;
            Encodable(p, origin, romSize) <==> AllPlaceable(p.items, p, origin, romSize)
  {
    LayoutReaches(isa, origin, Start(origin), statements);
    var p := PlaceAll(isa, origin, Start(origin), statements).value;
    if AllPlaceable(p.items, p, origin, romSize) && p.maxAddress > origin {
      var item :| item in p.items && item.address + Size(item) - 1 == p.maxAddress;
      assert Placeable(item, p, origin, romSize);
    }
  }

  /** It is off by one besides: a program with one byte more than the ROM has passes it. */
  lemma OneByteTooMany(isa: seq<Entry>, origin: word, romSize: nat, operands: seq<Operand>)
    requires |operands| == romSize + 1 && origin + romSize <= 0xFFFF
    ensures PlaceAll(isa, origin, Start(origin), [Data(operands)]).Some?
    ensures var p := PlaceAll(isa, origin, Start(origin), [Data(operands)]).value;
            FitsCartridge(p, origin, romSize) && !Encodable(p, origin, romSize)
  {
    var p := Place(isa, origin, Start(origin), Data(operands)).value;
    assert [Data(operands)][1..] == [];
    assert PlaceAll(isa, origin, Start(origin), [Data(operands)]) == Some(p);
    var item := Item(origin, Bytes, operands);
    assert item == p.items[0] && !Placeable(item, p, origin, romSize);
  }

  // ---------------------------------------------------------------- what pass two writes

  predicate Covers(item: Item, address: int) {
    item.address <= address < item.address + Size(item)
  }

  /** Item `k` is the last one to cover the address. */
  predicate LastToCover(items: seq<Item>, k: nat, address: int) {
    k < |items| && Covers(items[k], address) && forall l | k < l < |items| :: !Covers(items[l], address)
  }

  /** The byte an item with resolved operands puts at an address it covers. */
  function ByteFor(item: Item, p: Layout, address: int): int {
    var bytes := Emitted(item, p.symbols, p.constants);
    if bytes.Some? && Covers(item, address) then bytes.value[address - item.address] else -1
  }

  lemma OverlayAt(rom: seq<byte>, offset: nat, bytes: seq<byte>, o: nat)
    requires offset + |bytes| <= |rom| && o < |rom|
    ensures Overlay(rom, offset, bytes)[o] == if offset <= o < offset + |bytes| then bytes[o - offset] else rom[o]
  {
  }

  lemma WrittenLast(items: seq<Item>, n: nat, p: Layout, origin: word, romSize: nat, o: nat)
    requires |items| == n + 1 && AllPlaceable(items, p, origin, romSize) && o < romSize
    ensures AllPlaceable(items[..n], p, origin, romSize)
    ensures Written(items, p, origin, romSize)[o] as int
         == if Covers(items[n], origin + o) then ByteFor(items[n], p, origin + o) else Written(items[..n], p, origin, romSize)[o]
  {
    assert Placeable(items[n], p, origin, romSize);
    assert forall item | item in items[..n] :: item in items;
    OverlayAt(Written(items[..n], p, origin, romSize), items[n].address - origin,
              Emitted(items[n], p.symbols, p.constants).value, o);
  }

  /** A ROM byte that no item covers is 0xFF. */
  lemma {:induction false} UncoveredIsBlank(items: seq<Item>, p: Layout, origin: word, romSize: nat, o: nat)
    requires AllPlaceable(items, p, origin, romSize) && o < romSize
    requires forall item | item in items :: !Covers(item, origin + o)
    ensures Written(items, p, origin, romSize)[o] == 0xFF
  {
    if items != [] {
      var n := |items| - 1;
      assert items[n] in items && forall item | item in items[..n] :: item in items;
      WrittenLast(items, n, p, origin, romSize, o);
      UncoveredIsBlank(items[..n], p, origin, romSize, o);
    }
  }

  /** A ROM byte is the byte of the last item covering its address. */
  lemma {:induction false} LastItemWins(items: seq<Item>, p: Layout, origin: word, romSize: nat, o: nat, k: nat)
    requires AllPlaceable(items, p, origin, romSize) && o < romSize && LastToCover(items, k, origin + o)
    ensures Written(items, p, origin, romSize)[o] == ByteFor(items[k], p, origin + o)
  {
    var n := |items| - 1;
    WrittenLast(items, n, p, origin, romSize, o);
    if k < n {
      EarlierLast(items, n, k, origin + o);
      LastItemWins(items[..n], p, origin, romSize, o, k);
    }
  }

  lemma EarlierLast(items: seq<Item>, n: nat, k: nat, address: int)
    requires |items| == n + 1 && k < n && LastToCover(items, k, address)
    ensures LastToCover(items[..n], k, address) && items[..n][k] == items[k] && !Covers(items[n], address)
  {
  }

  /** Position in the record list of the first record of item `k`. */
  function RecordStart(items: seq<Item>, k: nat): nat
    requires k <= |items|
  {
    if k == 0 then 0 else RecordStart(items, k - 1) + Size(items[k - 1])
  }

  lemma {:induction false} RecordStartOfPrefix(items: seq<Item>, m: nat, k: nat)
    requires k <= m <= |items|
    ensures RecordStart(items[..m], k) == RecordStart(items, k)
  {
    if k > 0 { RecordStartOfPrefix(items, m, k - 1); }
  }

  lemma {:induction false} RecordCount(items: seq<Item>, origin: word)
    requires forall item | item in items :: origin <= item.address
    ensures |AllRecords(items, origin)| == RecordStart(items, |items|)
  {
    if items != [] {
      var n := |items| - 1;
      RecordCount(items[..n], origin);
      RecordStartOfPrefix(items, n, n);
    }
  }

  /** The record of byte `j` of item `k` has its address and its distance from the entry point. */
  ghost predicate HasRecord(items: seq<Item>, origin: word, k: nat, j: nat)
    requires forall item | item in items :: origin <= item.address
  {
    && k < |items| && j < Size(items[k]) && items[k].address + j <= 0xFFFF
    && RecordStart(items, k) + j < |AllRecords(items, origin)|
    && AllRecords(items, origin)[RecordStart(items, k) + j] == Record(items[k].address + j, items[k].address + j - origin)
  }

  lemma LastItemRecord(items: seq<Item>, origin: word, n: nat, j: nat)
    requires (forall item | item in items :: origin <= item.address) && |items| == n + 1
    requires j < Size(items[n]) && items[n].address + j <= 0xFFFF
    ensures HasRecord(items, origin, n, j)
  {
    RecordCount(items[..n], origin);
    RecordStartOfPrefix(items, n, n);
    RecordCount(items, origin);
  }

  lemma EarlierItemRecord(items: seq<Item>, origin: word, n: nat, k: nat, j: nat)
    requires (forall item | item in items :: origin <= item.address) && |items| == n + 1 && k < n
    requires (forall item | item in items[..n] :: origin <= item.address) && HasRecord(items[..n], origin, k, j)
    ensures HasRecord(items, origin, k, j)
  {
    RecordStartOfPrefix(items, n, k);
  }

  /** The records are, in order, one for each byte of each item. */
  lemma {:induction false} OneRecordPerByte(items: seq<Item>, origin: word, maxAddress: word, k: nat, j: nat)
    requires AllReserved(items, origin, maxAddress) && k < |items| && j < Size(items[k])
    ensures forall item | item in items :: origin <= item.address
    ensures |AllRecords(items, origin)| == RecordStart(items, |items|) && HasRecord(items, origin, k, j)
  {
    assert Reserved(items[k], origin, maxAddress);
    assert forall item | item in items :: Reserved(item, origin, maxAddress) ==> origin <= item.address;
    RecordCount(items, origin);
    var n := |items| - 1;
    if k < n {
      OneRecordPerByte(items[..n], origin, maxAddress, k, j);
      EarlierItemRecord(items, origin, n, k, j);
    } else {
      LastItemRecord(items, origin, n, j);
    }
  }

  /** Layout agreement of a successful assembly. */
  lemma PassesAgree(isa: seq<Entry>, origin: word, romSize: nat, statements: seq<Statement>)
    requires Assembled(isa, origin, romSize, statements).Some?
    ensures var p := PlaceAll(isa, origin, Start(origin), statements).value;
            var image := Assembled(isa, origin, romSize, statements).value;
            && |image.rom| == romSize
            && AllPlaceable(p.items, p, origin, romSize) && AllReserved(p.items, origin, p.maxAddress)
            && (forall o: nat | o < romSize && (forall item | item in p.items :: !Covers(item, origin + o)) ::
                  image.rom[o] == 0xFF)
            && (forall o: nat, k: nat | o < romSize && LastToCover(p.items, k, origin + o) ::
                  image.rom[o] == ByteFor(p.items[k], p, origin + o))
            && |image.records| == RecordStart(p.items, |p.items|)
            && (forall r | r in image.records :: r.romOffset == r.address - origin && r.romOffset < romSize)
  {
    var p := PlaceAll(isa, origin, Start(origin), statements).value;
    var image := Assembled(isa, origin, romSize, statements).value;
    PassOneReserves(isa, origin, Start(origin), statements);
    forall o: nat | o < romSize && (forall item | item in p.items :: !Covers(item, origin + o)) ensures image.rom[o] == 0xFF {
      UncoveredIsBlank(p.items, p, origin, romSize, o);
    }
    forall o: nat, k: nat | o < romSize && LastToCover(p.items, k, origin + o)
      ensures image.rom[o] == ByteFor(p.items[k], p, origin + o)
    {
      LastItemWins(p.items, p, origin, romSize, o, k);
    }
    RecordsInRom(p.items, p, origin, romSize);
    RecordCount(p.items, origin);
  }

  lemma {:induction false} RecordsInRom(items: seq<Item>, p: Layout, origin: word, romSize: nat)
    requires AllPlaceable(items, p, origin, romSize) && AllReserved(items, origin, p.maxAddress)
    ensures forall item | item in items :: origin <= item.address
    ensures forall r | r in AllRecords(items, origin) :: r.romOffset == r.address - origin && r.romOffset < romSize
  {
    assert forall item | item in items :: Reserved(item, origin, p.maxAddress) ==> origin <= item.address;
    if items != [] {
      var n := |items| - 1;
      assert Placeable(items[n], p, origin, romSize) && Reserved(items[n], origin, p.maxAddress);
      assert forall item | item in items[..n] :: item in items;
      RecordsInRom(items[..n], p, origin, romSize);
      forall r | r in RecordsOf(items[n], origin, Size(items[n]))
        ensures r.romOffset == r.address - origin && r.romOffset < romSize
      {
      }
    }
  }

  // ---------------------------------------------------------------- programs without .org

  /** Items follow one another without a gap from `start` to `end`. */
  predicate Contiguous(items: seq<Item>, start: nat, end: nat) {
    if items == [] then start == end
    else
      var n := |items| - 1;
      items[n].address + Size(items[n]) == end && Contiguous(items[..n], start, items[n].address)
  }

  lemma {:induction false} WithoutOrgContiguous(isa: seq<Entry>, origin: word, p: Layout, statements: seq<Statement>)
    requires PlaceAll(isa, origin, p, statements).Some? && Contiguous(p.items, origin, p.cursor)
    requires forall s | s in statements :: !s.Org?
    ensures var r := PlaceAll(isa, origin, p, statements).value; Contiguous(r.items, origin, r.cursor)
    decreases |statements|
  {
    if statements != [] {
      var s := statements[0];
      assert s in statements;
      var next := Place(isa, origin, p, s).value;
      if Places(s) {
        assert next.items[..|next.items| - 1] == p.items;
      }
      WithoutOrgContiguous(isa, origin, next, statements[1..]);
    }
  }

  predicate AllEmitted(items: seq<Item>, p: Layout) {
    forall item | item in items :: Emitted(item, p.symbols, p.constants).Some?
  }

  /** The emitted bytes of the items, one after the other. */
  function Stream(items: seq<Item>, p: Layout): seq<byte>
    requires AllEmitted(items, p)
  {
    if items == [] then []
    else
      var n := |items| - 1;
      assert items[n] in items;
      Stream(items[..n], p) + Emitted(items[n], p.symbols, p.constants).value
  }

  lemma OverlayAppends(front: seq<byte>, blank: nat, bytes: seq<byte>)
    requires |bytes| <= blank
    ensures Overlay(front + Blank(blank), |front|, bytes) == front + bytes + Blank(blank - |bytes|)
  {
    assert (front + Blank(blank))[..|front|] == front;
    assert (front + Blank(blank))[|front| + |bytes|..] == Blank(blank - |bytes|);
  }

  /** Contiguous items fill the front of the ROM with their bytes and leave the rest blank. */
  lemma {:induction false} ContiguousWritten(items: seq<Item>, p: Layout, origin: word, romSize: nat, end: nat)
    requires AllPlaceable(items, p, origin, romSize) && Contiguous(items, origin, end)
    ensures AllEmitted(items, p)
    ensures origin <= end <= origin + romSize
    ensures |Stream(items, p)| == end - origin
    ensures Written(items, p, origin, romSize) == Stream(items, p) + Blank(romSize - (end - origin))
  {
    assert forall item | item in items :: Placeable(item, p, origin, romSize);
    if items == [] {
      assert Written(items, p, origin, romSize) == [] + Blank(romSize);
    } else {
      var n := |items| - 1;
      assert Placeable(items[n], p, origin, romSize);
      assert forall item | item in items[..n] :: item in items;
      ContiguousWritten(items[..n], p, origin, romSize, items[n].address);
      OverlayAppends(Stream(items[..n], p), romSize - (items[n].address - origin),
                     Emitted(items[n], p.symbols, p.constants).value);
    }
  }

  /** Without `.org` the ROM is the statements' bytes in order, padded with 0xFF. */
  lemma WithoutOrgRomIsStream(isa: seq<Entry>, origin: word, romSize: nat, statements: seq<Statement>)
    requires Assembled(isa, origin, romSize, statements).Some?
    requires forall s | s in statements :: !s.Org?
    ensures var p := PlaceAll(isa, origin, Start(origin), statements).value;
            && AllEmitted(p.items, p)
            && origin <= p.cursor <= origin + romSize
            && Assembled(isa, origin, romSize, statements).value.rom
               == Stream(p.items, p) + Blank(romSize - (p.cursor - origin))
  {
    var p := PlaceAll(isa, origin, Start(origin), statements).value;
    WithoutOrgContiguous(isa, origin, Start(origin), statements);
    ContiguousWritten(p.items, p, origin, romSize, p.cursor);
  }
}
