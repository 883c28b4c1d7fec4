/** The whole debug document: printed by the assembler, loaded by the simulator, nothing lost. */
module DebugPrinter {
  import opened Bits
  import opened Wrappers
  import opened Text
  import opened Json
  import opened JsonText
  import opened DebugSymbols
  import opened DebugJson
  import opened DebugDocument

  // ---------------------------------------------------------------- source files

  function FileTexts(files: seq<string>): seq<string> {
    seq(|files|, i requires 0 <= i < |files| => Quote(files[i]))
  }

  function FileValues(files: seq<string>): seq<Value> {
    seq(|files|, i requires 0 <= i < |files| => String(files[i]))
  }

  lemma FilesRead(files: seq<string>)
    ensures AllRead(FileTexts(files), FileValues(files))
  {
    forall i | 0 <= i < |files| ensures ReadsAs(FileTexts(files)[i], FileValues(files)[i]) {
      QuoteReads(files[i]);
    }
  }

  lemma {:induction false} FilesLoad(files: seq<string>)
    ensures LoadFiles(FileValues(files)) == Some(files)
  {
    if files != [] {
      var n := |files| - 1;
      FilesLoad(files[..n]);
      assert FileValues(files)[..n] == FileValues(files[..n]);
      assert files == files[..n] + [files[n]];
    }
  }

  // ---------------------------------------------------------------- symbols

  /** Byte order of names, as the ordered map keeps them. */
  predicate Less(a: string, b: string) {
    if a == "" then b != ""
    else if b == "" then false
    else a[0] < b[0] || (a[0] == b[0] && Less(a[1..], b[1..]))
  }

  lemma {:induction false} LessTotal(a: string, b: string)
    ensures a != b ==> Less(a, b) || Less(b, a)
  {
    if a != "" && b != "" {
      LessTotal(a[1..], b[1..]);
      assert a == [a[0]] + a[1..] && b == [b[0]] + b[1..];
    }
  }

  lemma {:induction false} LessTransitive(a: string, b: string, c: string)
    requires Less(a, b) && Less(b, c)
    ensures Less(a, c)
  {
    if a != "" && a[0] == b[0] && b[0] == c[0] { LessTransitive(a[1..], b[1..], c[1..]); }
  }

  predicate Sorted(names: seq<string>) {
    forall i, j | 0 <= i < j < |names| :: Less(names[i], names[j])
  }

  lemma {:induction false} LessIrreflexive(a: string)
    ensures !Less(a, a)
  {
    if a != "" { LessIrreflexive(a[1..]); }
  }

  method InsertName(names: seq<string>, name: string) returns (r: seq<string>)
    requires Sorted(names) && name !in names
    ensures Sorted(r) && forall x :: x in r <==> x in names || x == name
  {
    var i := 0;
    while i < |names| && Less(names[i], name)
      invariant 0 <= i <= |names|
      invariant forall k | 0 <= k < i :: Less(names[k], name)
    {
      i := i + 1;
    }
    forall k | i <= k < |names| ensures Less(name, names[k]) {
      LessTotal(name, names[i]);
      assert names[i] in names;
      if i < k { LessTransitive(name, names[i], names[k]); }
    }
    r := names[..i] + [name] + names[i..];
  }

  /** The names of a symbol table in byte order. */
  method SortNames(symbols: map<string, word>) returns (names: seq<string>)
    ensures Sorted(names) && forall x :: x in names <==> x in symbols
  {
    names := [];
    var left := symbols.Keys;
    while left != {}
      invariant left <= symbols.Keys && Sorted(names)
      invariant forall x :: x in names <==> x in symbols && x !in left
      decreases |left|
    {
      var name :| name in left;
      names := InsertName(names, name);
      left := left - {name};
    }
  }

  /** The order lists each symbol once. */
  predicate Enumerates(order: seq<string>, symbols: map<string, word>) {
    && (forall i, j | 0 <= i < j < |order| :: order[i] != order[j])
    && (forall name | name in order :: name in symbols)
    && (forall name | name in symbols :: name in order)
  }

  lemma SortedEnumerates(names: seq<string>, symbols: map<string, word>)
    requires Sorted(names) && forall x :: x in names <==> x in symbols
    ensures Enumerates(names, symbols)
  {
    forall i, j | 0 <= i < j < |names| ensures names[i] != names[j] {
      LessIrreflexive(names[i]);
      assert Less(names[i], names[j]);
    }
  }

  function NameTexts(order: seq<string>, symbols: map<string, word>): seq<string>
    requires forall name | name in order :: name in symbols
  {
    seq(|order|, i requires 0 <= i < |order| => MemberText(order[i], AddressText(symbols[order[i]])))
  }

  function NameMembers(order: seq<string>, symbols: map<string, word>): seq<Member>
    requires forall name | name in order :: name in symbols
  {
    seq(|order|, i requires 0 <= i < |order| => Member(order[i], String(HexWordText(symbols[order[i]]))))
  }

  lemma NamesRead(order: seq<string>, symbols: map<string, word>)
    requires Enumerates(order, symbols)
    ensures AllMembersRead(NameTexts(order, symbols), NameMembers(order, symbols))
    ensures DistinctKeys(NameMembers(order, symbols))
  {
    forall i | 0 <= i < |order| ensures MemberReads(NameTexts(order, symbols)[i], NameMembers(order, symbols)[i]) {
      AddressReads(symbols[order[i]]);
      MemberTextReads(order[i], AddressText(symbols[order[i]]), String(HexWordText(symbols[order[i]])));
    }
  }

  function AddNames(order: seq<string>, symbols: map<string, word>, loaded: map<string, word>): (r: map<string, word>)
    requires forall name | name in order :: name in symbols
    ensures forall name :: name in r <==> name in order || name in loaded
    ensures forall name | name in r :: r[name] == if name in order then symbols[name] else loaded[name]
    decreases |order|
  {
    if order == [] then loaded else AddNames(order[1..], symbols, loaded[order[0] := symbols[order[0]]])
  }

  lemma {:induction false} NamesLoad(order: seq<string>, symbols: map<string, word>, loaded: map<string, word>)
    requires (forall i, j | 0 <= i < j < |order| :: order[i] != order[j]) && forall name | name in order :: name in symbols
    requires forall name | name in order :: name !in loaded
    ensures LoadNames(NameMembers(order, symbols), loaded) == Some(AddNames(order, symbols, loaded))
    decreases |order|
  {
    if order != [] {
      var name, rest := order[0], order[1..];
      assert name in order && NameMembers(order, symbols)[1..] == NameMembers(rest, symbols);
      AddressBack(symbols[name]);
      forall other | other in rest ensures other !in loaded[name := symbols[name]] {
        var i :| 0 <= i < |rest| && rest[i] == other;
        assert order[0] != order[i + 1];
      }
      NamesLoad(rest, symbols, loaded[name := symbols[name]]);
    }
  }

  lemma AllNamesAdded(order: seq<string>, symbols: map<string, word>, added: map<string, word>)
    requires Enumerates(order, symbols) && added == AddNames(order, symbols, map[])
    ensures added == symbols
  {
    assert forall name :: name in added <==> name in symbols;
  }

  lemma AllNamesLoad(order: seq<string>, symbols: map<string, word>)
    requires Enumerates(order, symbols)
    ensures LoadNames(NameMembers(order, symbols), map[]) == Some(symbols)
  {
    NamesLoad(order, symbols, map[]);
    AllNamesAdded(order, symbols, AddNames(order, symbols, map[]));
  }

  // ---------------------------------------------------------------- the document

  function FilesText(files: seq<string>): string {
    ListText('[', FileTexts(files), INLINE, ']')
  }

  lemma FilesTextReads(files: seq<string>)
    ensures ReadsAs(FilesText(files), Array(FileValues(files)))
  {
    FilesRead(files);
    ArrayReads(FileTexts(files), FileValues(files), INLINE);
  }

  function NamesText(order: seq<string>, symbols: map<string, word>): string
    requires forall name | name in order :: name in symbols
  {
    ListText('{', NameTexts(order, symbols), NAMES, '}')
  }

  lemma NamesTextReads(order: seq<string>, symbols: map<string, word>)
    requires Enumerates(order, symbols)
    ensures ReadsAs(NamesText(order, symbols), Object(NameMembers(order, symbols)))
  {
    NamesRead(order, symbols);
    ObjectReads(NameTexts(order, symbols), NameMembers(order, symbols), NAMES);
  }

  function SourcesText(records: seq<Record>): string {
    ListText('{', SourceTexts(EntriesFrom(records, 0)), BLOCK, '}')
  }

  lemma SourcesTextReads(records: seq<Record>)
    ensures ReadsAs(SourcesText(records), Object(SourceMembers(EntriesFrom(records, 0))))
  {
    var entries := EntriesFrom(records, 0);
    SourcesRead(entries);
    EntriesIncrease(records, 0);
    SourceKeys(entries);
    ObjectReads(SourceTexts(entries), SourceMembers(entries), BLOCK);
  }

  function RecordsText(records: seq<Record>): string {
    ListText('[', RecordsTexts(records), BLOCK, ']')
  }

  lemma RecordsTextReads(records: seq<Record>)
    ensures ReadsAs(RecordsText(records), Array(RecordsValues(records)))
  {
    RecordsRead(records);
    ArrayReads(RecordsTexts(records), RecordsValues(records), BLOCK);
  }

  /** The nine members of the document: their keys, their texts and their values. */
  function TopKey(k: nat): string
    requires k < 9
  {
    if k == 0 then "version" else if k == 1 then "cartridge_version" else if k == 2 then "entry"
    else if k == 3 then "rom_size" else if k == 4 then "source_root" else if k == 5 then "source_files"
    else if k == 6 then "symbols" else if k == 7 then "pc_to_source" else "records"
  }

  function TopText(d: Debug, order: seq<string>, k: nat): string
    requires Enumerates(order, d.symbols) && k < 9
  {
    if k == 0 then Quote(d.version) else if k == 1 then IntText(d.cartridgeVersion) else if k == 2 then AddressText(d.entry)
    else if k == 3 then IntText(d.romSize) else if k == 4 then Quote(d.sourceRoot) else if k == 5 then FilesText(d.sourceFiles)
    else if k == 6 then NamesText(order, d.symbols) else if k == 7 then SourcesText(d.records) else RecordsText(d.records)
  }

  function TopValue(d: Debug, order: seq<string>, k: nat): Value
    requires Enumerates(order, d.symbols) && k < 9
  {
    if k == 0 then String(d.version) else if k == 1 then Number(d.cartridgeVersion)
    else if k == 2 then String(HexWordText(d.entry)) else if k == 3 then Number(d.romSize)
    else if k == 4 then String(d.sourceRoot) else if k == 5 then Array(FileValues(d.sourceFiles))
    else if k == 6 then Object(NameMembers(order, d.symbols))
    else if k == 7 then Object(SourceMembers(EntriesFrom(d.records, 0)))
    else Array(RecordsValues(d.records))
  }

  lemma TopReads(d: Debug, order: seq<string>, k: nat)
    requires Enumerates(order, d.symbols) && k < 9
    ensures ReadsAs(TopText(d, order, k), TopValue(d, order, k))
  {
    if k == 0 { QuoteReads(d.version); }
    else if k == 1 { IntReads(d.cartridgeVersion); }
    else if k == 2 { AddressReads(d.entry); }
    else if k == 3 { IntReads(d.romSize); }
    else if k == 4 { QuoteReads(d.sourceRoot); }
    else if k == 5 { FilesTextReads(d.sourceFiles); }
    else if k == 6 { NamesTextReads(order, d.symbols); }
    else if k == 7 { SourcesTextReads(d.records); }
    else { RecordsTextReads(d.records); }
  }

  function TopTexts(d: Debug, order: seq<string>): seq<string>
    requires Enumerates(order, d.symbols)
  {
    seq(9, k requires 0 <= k < 9 => MemberText(TopKey(k), TopText(d, order, k)))
  }

  function TopMembers(d: Debug, order: seq<string>): seq<Member>
    requires Enumerates(order, d.symbols)
  {
    seq(9, k requires 0 <= k < 9 => Member(TopKey(k), TopValue(d, order, k)))
  }

  lemma AllTopRead(d: Debug, order: seq<string>)
    requires Enumerates(order, d.symbols)
    ensures AllMembersRead(TopTexts(d, order), TopMembers(d, order))
  {
    forall k | 0 <= k < 9 ensures MemberReads(TopTexts(d, order)[k], TopMembers(d, order)[k]) {
      TopReads(d, order, k);
      MemberTextReads(TopKey(k), TopText(d, order, k), TopValue(d, order, k));
    }
  }

  /** Two characters, or the length, tell the nine keys apart. */
  lemma TopKeysDiffer(k: nat, l: nat)
    requires k < l < 9
    ensures TopKey(k) != TopKey(l)
  {
    assert |TopKey(k)| != |TopKey(l)| || TopKey(k)[0] != TopKey(l)[0];
  }

  lemma TopKeys(d: Debug, order: seq<string>)
    requires Enumerates(order, d.symbols)
    ensures DistinctKeys(TopMembers(d, order))
  {
    forall k, l | 0 <= k < l < 9 ensures TopMembers(d, order)[k].key != TopMembers(d, order)[l].key {
      TopKeysDiffer(k, l);
    }
  }

  function DebugText(d: Debug, order: seq<string>): string
    requires Enumerates(order, d.symbols)
  {
    ListText('{', TopTexts(d, order), TOP, '}') + "\n"
  }

  /** The printed text is one JSON document. */
  lemma PrintsOneDocument(d: Debug, order: seq<string>)
    requires Enumerates(order, d.symbols)
    ensures Document(DebugText(d, order)) == Some(Object(TopMembers(d, order)))
  {
    AllTopRead(d, order);
    TopKeys(d, order);
    ObjectReads(TopTexts(d, order), TopMembers(d, order), TOP);
    WholeDocument(ListText('{', TopTexts(d, order), TOP, '}'), Object(TopMembers(d, order)));
  }

  lemma WholeDocument(body: string, v: Value)
    requires ReadsAs(body, v) && body != "" && body[0] == '{'
    ensures Document(body + "\n") == Some(v)
  {
    var s := body + "\n";
    assert StandsAt(s, 0, body);
    assert s[|body|] == "\n"[0];
    var end := ReadAt(body, v, s, 0);
    assert SkipSpace(s, 0) == 0;
    assert SkipSpace(s, end) == SkipSpace(s, end + 1) == |s|;
  }

  // ---------------------------------------------------------------- loading it back

  /** Everything but the symbol order, with the first record at each address. */
  function Recovered(d: Debug): Symbols {
    Symbols(d.version, d.entry, d.romSize, d.cartridgeVersion, d.sourceRoot, d.sourceFiles, d.symbols,
            FirstLocations(d.records), d.records)
  }

  lemma FindTop(d: Debug, order: seq<string>, k: nat)
    requires Enumerates(order, d.symbols) && k < 9
    ensures RequireField(Object(TopMembers(d, order)), TopKey(k)) == Some(TopValue(d, order, k))
  {
    TopKeys(d, order);
    FindMember(TopMembers(d, order), k);
  }

  /** A document in which each of the nine members is found. */
  ghost predicate Holds(root: Value, d: Debug, order: seq<string>) {
    Enumerates(order, d.symbols) && forall k: nat | k < 9 :: RequireField(root, TopKey(k)) == Some(TopValue(d, order, k))
  }

  lemma HeadFrom(root: Value, version: string, cartridge: word, entry: word, romSize: uint32, sourceRoot: string)
    requires RequireField(root, "version") == Some(String(version))
    requires RequireField(root, "cartridge_version") == Some(Number(cartridge))
    requires RequireField(root, "entry") == Some(String(HexWordText(entry)))
    requires RequireField(root, "rom_size") == Some(Number(romSize))
    requires RequireField(root, "source_root") == Some(String(sourceRoot))
    ensures LoadHead(root)
         == if romSize > 0 then Some(Symbols(version, entry, romSize, cartridge, sourceRoot, [], map[], map[], [])) else None
  {
    AddressBack(entry);
  }

  lemma HoldsAt(root: Value, d: Debug, order: seq<string>, k: nat)
    requires Holds(root, d, order) && k < 9
    ensures RequireField(root, TopKey(k)) == Some(TopValue(d, order, k))
  {
  }

  lemma HeadLoads(root: Value, d: Debug, order: seq<string>)
    requires Holds(root, d, order)
    ensures LoadHead(root)
         == if d.romSize > 0
            then Some(Symbols(d.version, d.entry, d.romSize, d.cartridgeVersion, d.sourceRoot, [], map[], map[], []))
            else None
  {
    HoldsAt(root, d, order, 0);
    HoldsAt(root, d, order, 1);
    HoldsAt(root, d, order, 2);
    HoldsAt(root, d, order, 3);
    HoldsAt(root, d, order, 4);
    HeadFrom(root, d.version, d.cartridgeVersion, d.entry, d.romSize, d.sourceRoot);
  }

  lemma SourcesOfGoodRecords(records: seq<Record>, romSize: uint32)
    requires GoodRecords(records, romSize)
    ensures LoadSources(SourceMembers(EntriesFrom(records, 0)), map[]) == Some(FirstLocations(records))
  {
    var entries := EntriesFrom(records, 0);
    EntriesIncrease(records, 0);
    assert forall r | r in entries :: GoodRecord(r, romSize);
    SourcesLoad(entries, map[]);
    EntriesGiveFirst(records);
  }

  lemma ListsFrom(root: Value, files: seq<Value>, names: seq<Member>, sources: seq<Member>, records: seq<Value>, head: Symbols)
    requires RequireField(root, "source_files") == Some(Array(files))
    requires RequireField(root, "symbols") == Some(Object(names))
    requires RequireField(root, "pc_to_source") == Some(Object(sources))
    requires RequireField(root, "records") == Some(Array(records))
    requires LoadFiles(files).Some? && LoadNames(names, map[]).Some?
    requires LoadRecords(records, head.romSize).Some? ==> LoadSources(sources, map[]).Some?
    ensures LoadLists(root, head)
         == if LoadRecords(records, head.romSize).None? then None
            else Some(head.(sourceFiles := LoadFiles(files).value, symbols := LoadNames(names, map[]).value,
                            pcToSource := LoadSources(sources, map[]).value,
                            records := LoadRecords(records, head.romSize).value))
  {
  }

  lemma HoldsLists(root: Value, d: Debug, order: seq<string>)
    requires Holds(root, d, order)
    ensures RequireField(root, "source_files") == Some(Array(FileValues(d.sourceFiles)))
    ensures RequireField(root, "symbols") == Some(Object(NameMembers(order, d.symbols)))
    ensures RequireField(root, "pc_to_source") == Some(Object(SourceMembers(EntriesFrom(d.records, 0))))
    ensures RequireField(root, "records") == Some(Array(RecordsValues(d.records)))
  {
    HoldsAt(root, d, order, 5);
    HoldsAt(root, d, order, 6);
    HoldsAt(root, d, order, 7);
    HoldsAt(root, d, order, 8);
  }

  lemma ListsLoad(root: Value, d: Debug, order: seq<string>, head: Symbols)
    requires Holds(root, d, order) && head.romSize == d.romSize
    ensures LoadLists(root, head)
         == if GoodRecords(d.records, d.romSize)
            then Some(head.(sourceFiles := d.sourceFiles, symbols := d.symbols,
                            pcToSource := FirstLocations(d.records), records := d.records))
            else None
  {
    HoldsLists(root, d, order);
    FilesLoad(d.sourceFiles);
    AllNamesLoad(order, d.symbols);
    RecordsLoad(d.records, d.romSize);
    if GoodRecords(d.records, d.romSize) {
      SourcesOfGoodRecords(d.records, d.romSize);
    }
    ListsFrom(root, FileValues(d.sourceFiles), NameMembers(order, d.symbols), SourceMembers(EntriesFrom(d.records, 0)),
              RecordsValues(d.records), head);
  }

  /** Loading printed debug information succeeds exactly when the ROM size is positive and every record has
      an offset inside the ROM and a positive line and column; then it recovers everything that was
      printed, with the first record at each address as the source of that address. */
  lemma DebugRoundTrip(d: Debug, order: seq<string>)
    requires Enumerates(order, d.symbols)
    ensures LoadedText(DebugText(d, order))
         == if d.romSize > 0 && GoodRecords(d.records, d.romSize) then Some(Recovered(d)) else None
  {
    var root := Object(TopMembers(d, order));
    PrintsOneDocument(d, order);
    forall k: nat | k < 9 ensures RequireField(root, TopKey(k)) == Some(TopValue(d, order, k)) {
      FindTop(d, order, k);
    }
    HeadLoads(root, d, order);
    if d.romSize > 0 {
      ListsLoad(root, d, order, LoadHead(root).value);
    }
  }

  // ---------------------------------------------------------------- the printer

  method LocationTextOf(l: Location) returns (out: string)
    ensures out == LocationText(l)
  {
    var file := EscapeJson(l.file);
    var text := EscapeJson(l.text);
    out := PrintList('{', [MemberText("file", "\"" + file + "\""), MemberText("line", IntText(l.line)),
                           MemberText("column", IntText(l.column)), MemberText("text", "\"" + text + "\"")],
                     INLINE, '}');
  }

  method FilesOf(files: seq<string>) returns (texts: seq<string>)
    ensures texts == FileTexts(files)
  {
    texts := [];
    for i := 0 to |files|
      invariant texts == FileTexts(files[..i])
    {
      var escaped := EscapeJson(files[i]);
      texts := texts + ["\"" + escaped + "\""];
    }
    assert files[..|files|] == files;
  }

  method NamesOf(order: seq<string>, symbols: map<string, word>) returns (texts: seq<string>)
    requires forall name | name in order :: name in symbols
    ensures texts == NameTexts(order, symbols)
  {
    texts := [];
    for i := 0 to |order|
      invariant |texts| == i
      invariant forall k | 0 <= k < i :: texts[k] == MemberText(order[k], AddressText(symbols[order[k]]))
    {
      texts := texts + [MemberText(order[i], AddressText(symbols[order[i]]))];
    }
  }

  /** The address map: a record is kept only if its address is new. */
  method FirstRecords(records: seq<Record>) returns (entries: map<word, Record>)
    ensures forall a: word :: a in entries <==> FirstAt(records, a).Some?
    ensures forall a: word | a in entries :: FirstAt(records, a) == Some(entries[a])
  {
    entries := map[];
    for i := 0 to |records|
      invariant forall a: word :: a in entries <==> FirstAt(records[..i], a).Some?
      invariant forall a: word | a in entries :: FirstAt(records[..i], a) == Some(entries[a])
    {
      forall a: word
        ensures FirstAt(records[..i + 1], a)
             == if FirstAt(records[..i], a).Some? then FirstAt(records[..i], a)
                else if records[i].address == a then Some(records[i]) else None
      {
        assert records[..i + 1] == records[..i] + [records[i]];
        FirstAtSnoc(records[..i], records[i], a);
      }
      if records[i].address !in entries {
        entries := entries[records[i].address := records[i]];
      }
    }
    assert records[..|records|] == records;
  }

  lemma {:induction false} FirstAtSnoc(records: seq<Record>, r: Record, a: word)
    ensures FirstAt(records + [r], a)
         == if FirstAt(records, a).Some? then FirstAt(records, a) else if r.address == a then Some(r) else None
  {
    if records == [] {
      assert ([] + [r])[1..] == [];
    } else {
      assert (records + [r])[1..] == records[1..] + [r];
      FirstAtSnoc(records[1..], r, a);
    }
  }

  lemma SourceTextsSnoc(done: seq<Record>, r: Record)
    ensures SourceTexts(done + [r]) == SourceTexts(done) + [MemberText(HexWordText(r.address), LocationText(r.location))]
  {
  }

  lemma NextEntry(records: seq<Record>, done: seq<Record>, a: nat) returns (more: seq<Record>)
    requires a < 0x1_0000
    ensures more == if FirstAt(records, a).Some? then done + [FirstAt(records, a).value] else done
    ensures done + EntriesFrom(records, a) == more + EntriesFrom(records, a + 1)
  {
    var rest := EntriesFrom(records, a + 1);
    if FirstAt(records, a).Some? {
      var r := FirstAt(records, a).value;
      more := done + [r];
      assert done + ([r] + rest) == more + rest;
    } else {
      more := done;
      assert [] + rest == rest;
    }
  }

  method SourcesOf(records: seq<Record>) returns (texts: seq<string>)
    ensures texts == SourceTexts(EntriesFrom(records, 0))
  {
    var entries := FirstRecords(records);
    texts := [];
    ghost var done: seq<Record> := [];
    ghost var whole := EntriesFrom(records, 0);
    var a: nat := 0;
    while a < 0x1_0000
      invariant 0 <= a <= 0x1_0000
      invariant done + EntriesFrom(records, a) == whole
      invariant texts == SourceTexts(done)
    {
      ghost var more := NextEntry(records, done, a);
      if a in entries {
        var location := LocationTextOf(entries[a].location);
        SourceTextsSnoc(done, entries[a]);
        texts := texts + [MemberText(HexWordText(entries[a].address), location)];
      }
      done := more;
      a := a + 1;
    }
    assert done + [] == done;
  }

  method RecordTextOf(r: Record) returns (out: string)
    ensures out == RecordText(r)
  {
    var file := EscapeJson(r.location.file);
    var text := EscapeJson(r.location.text);
    var members := [MemberText("address", AddressText(r.address)), MemberText("rom_offset", IntText(r.romOffset)),
                    MemberText("file", "\"" + file + "\""), MemberText("line", IntText(r.location.line)),
                    MemberText("column", IntText(r.location.column)), MemberText("text", "\"" + text + "\"")];
    RecordTextsListed(r, members);
    out := PrintList('{', members, INLINE, '}');
  }

  lemma RecordTextsListed(r: Record, members: seq<string>)
    requires |members| == 6
    requires members[0] == MemberText("address", AddressText(r.address))
    requires members[1] == MemberText("rom_offset", IntText(r.romOffset))
    requires members[2] == LocationTexts(r.location)[0] && members[3] == LocationTexts(r.location)[1]
    requires members[4] == LocationTexts(r.location)[2] && members[5] == LocationTexts(r.location)[3]
    ensures members == RecordTexts(r)
  {
    forall k | 0 <= k < 6 ensures members[k] == RecordTexts(r)[k] {
    }
  }

  method RecordsOf(records: seq<Record>) returns (texts: seq<string>)
    ensures texts == RecordsTexts(records)
  {
    texts := [];
    for i := 0 to |records|
      invariant texts == RecordsTexts(records[..i])
    {
      var record := RecordTextOf(records[i]);
      MappedSnoc(RecordText, records, i);
      texts := texts + [record];
    }
    assert records[..|records|] == records;
  }

  method QuotedText(s: string) returns (text: string)
    ensures text == Quote(s)
  {
    var escaped := EscapeJson(s);
    text := "\"" + escaped + "\"";
  }

  method ListTextOf(d: Debug, order: seq<string>, k: nat) returns (text: string)
    requires Enumerates(order, d.symbols) && 5 <= k < 9
    ensures text == TopText(d, order, k)
  {
    if k == 5 {
      var files := FilesOf(d.sourceFiles);
      text := PrintList('[', files, INLINE, ']');
    } else if k == 6 {
      var names := NamesOf(order, d.symbols);
      text := PrintList('{', names, NAMES, '}');
    } else if k == 7 {
      var sources := SourcesOf(d.records);
      text := PrintList('{', sources, BLOCK, '}');
    } else {
      var records := RecordsOf(d.records);
      text := PrintList('[', records, BLOCK, ']');
    }
  }

  /** The text of the k-th member. */
  method TextOf(d: Debug, order: seq<string>, k: nat) returns (text: string)
    requires Enumerates(order, d.symbols) && k < 9
    ensures text == TopText(d, order, k)
  {
    if k == 0 {
      text := QuotedText(d.version);
    } else if k == 1 {
      text := IntText(d.cartridgeVersion);
    } else if k == 2 {
      text := AddressText(d.entry);
    } else if k == 3 {
      text := IntText(d.romSize);
    } else if k == 4 {
      text := QuotedText(d.sourceRoot);
    } else {
      text := ListTextOf(d, order, k);
    }
  }

  lemma TakeSnoc(xs: seq<string>, k: nat)
    requires k < |xs|
    ensures xs[..k + 1] == xs[..k] + [xs[k]]
  {
  }

  /** Names sorted, one source entry per address, the records in order. */
  method EncodeDebugJson(d: Debug) returns (out: string, order: seq<string>)
    ensures Sorted(order) && Enumerates(order, d.symbols) && out == DebugText(d, order)
  {
    order := SortNames(d.symbols);
    SortedEnumerates(order, d.symbols);
    var top: seq<string> := [];
    for k := 0 to 9
      invariant top == TopTexts(d, order)[..k]
    {
      var text := TextOf(d, order, k);
      TakeSnoc(TopTexts(d, order), k);
      top := top + [MemberText(TopKey(k), text)];
    }
    assert TopTexts(d, order)[..9] == TopTexts(d, order);
    out := PrintList('{', top, TOP, '}');
    out := out + "\n";
  }
}
