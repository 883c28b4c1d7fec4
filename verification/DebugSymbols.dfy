/** Loading debug symbols from a parsed JSON document. */
module DebugSymbols {
  import opened Bits
  import opened Wrappers
  import opened Text
  import opened Json

  type int32 = x: int | -0x8000_0000 <= x < 0x8000_0000

  type uint32 = x: int | 0 <= x < 0x1_0000_0000

  datatype Location = Location(file: string, line: int32, column: int32, text: string)

  datatype Record = Record(address: word, romOffset: uint32, location: Location)

  datatype Symbols = Symbols(version: string, entry: word, romSize: uint32, cartridgeVersion: uint32,
                             sourceRoot: string, sourceFiles: seq<string>, symbols: map<string, word>,
                             pcToSource: map<word, Location>, records: seq<Record>)

  // ---------------------------------------------------------------- fields

  function Find(members: seq<Member>, key: string): Option<Value> {
    if members == [] then None
    else if members[0].key == key then Some(members[0].value)
    else Find(members[1..], key)
  }

  function RequireField(v: Value, key: string): Option<Value> {
    if v.Object? then Find(v.members, key) else None
  }

  function RequireString(v: Option<Value>): Option<string> {
    if v.Some? && v.value.String? then Some(v.value.text) else None
  }

  function RequireNumber(v: Option<Value>): Option<int> {
    if v.Some? && v.value.Number? then Some(v.value.number) else None
  }

  // ---------------------------------------------------------------- hexadecimal words

  predicate IsCSpace(c: char) {
    c == ' ' || 9 <= c as int <= 13
  }

  function CSpaceEnd(s: string, i: nat): (j: nat)
    requires i <= |s|
    ensures i <= j <= |s|
    decreases |s| - i
  {
    if i < |s| && IsCSpace(s[i]) then CSpaceEnd(s, i + 1) else i
  }

  function HexRunEnd(s: string, i: nat): (j: nat)
    requires i <= |s|
    ensures i <= j <= |s| && forall k | i <= k < j :: 0 <= DigitValue(s[k]) < 16
    decreases |s| - i
  {
    if i < |s| && DigitValue(s[i]) >= 0 then HexRunEnd(s, i + 1) else i
  }

  function HexNumber(digits: string): nat
    requires forall k | 0 <= k < |digits| :: DigitValue(digits[k]) >= 0
  {
    if digits == "" then 0
    else HexNumber(digits[..|digits| - 1]) * 16 + DigitValue(digits[|digits| - 1])
  }

  /** `stoul` in base 16: leading space, a sign and a second `0x` are accepted, anything after the digits is
      ignored; no digits, or more than 64 bits, is an error. */
  function StoulHex(s: string): Option<nat> {
    var start := CSpaceEnd(s, 0);
    var negative := CharAt(s, start) == '-';
    var unsigned := if CharAt(s, start) == '-' || CharAt(s, start) == '+' then start + 1 else start;
    var prefixed := CharAt(s, unsigned) == '0' && (CharAt(s, unsigned + 1) == 'x' || CharAt(s, unsigned + 1) == 'X')
                    && DigitValue(CharAt(s, unsigned + 2)) >= 0;
    var first := if prefixed then unsigned + 2 else unsigned;
    var end := HexRunEnd(s, first);
    if end == first then None
    else
      var value := HexNumber(s[first..end]);
      if value >= 0x1_0000_0000_0000_0000 then None
      else if negative && value > 0 then Some(0x1_0000_0000_0000_0000 - value)
      else Some(value)
  }

  /** A word after a `0x` prefix; the parsed number is cut to 32 bits before the range check. */
  function ParseHexWord(s: string): Option<word> {
    if |s| < 2 || s[0] != '0' || (s[1] != 'x' && s[1] != 'X') then None
    else
      var parsed := StoulHex(s[2..]);
      if parsed.None? || parsed.value % 0x1_0000_0000 > 0xFFFF then None
      else Some(parsed.value % 0x1_0000_0000)
  }

  function RequireHexWord(v: Option<Value>): Option<word> {
    var s := RequireString(v);
    if s.None? then None else ParseHexWord(s.value)
  }

  function ToInt32(n: int): int32 {
    var low := n % 0x1_0000_0000;
    if low >= 0x8000_0000 then low - 0x1_0000_0000 else low
  }

  // ---------------------------------------------------------------- the parts of the document

  function LoadFiles(elements: seq<Value>): (r: Option<seq<string>>)
    ensures r.Some? ==> |r.value| == |elements|
  {
    if elements == [] then Some([])
    else
      var n := |elements| - 1;
      var rest := LoadFiles(elements[..n]);
      if rest.None? || !elements[n].String? then None else Some(rest.value + [elements[n].text])
  }

  function LoadNames(members: seq<Member>, loaded: map<string, word>): Option<map<string, word>>
    decreases |members|
  {
    if members == [] then Some(loaded)
    else
      var address := RequireHexWord(Some(members[0].value));
      if address.None? then None
      else LoadNames(members[1..], if members[0].key in loaded then loaded else loaded[members[0].key := address.value])
  }

  function LoadLocation(v: Value): Option<Location> {
    var file := RequireString(RequireField(v, "file"));
    var line := RequireNumber(RequireField(v, "line"));
    var column := RequireNumber(RequireField(v, "column"));
    var text := RequireString(RequireField(v, "text"));
    if file.None? || line.None? || column.None? || text.None? then None
    else if ToInt32(line.value) < 1 || ToInt32(column.value) < 1 then None
    else Some(Location(file.value, ToInt32(line.value), ToInt32(column.value), text.value))
  }

  /** Two keys for one address are an error. */
  function LoadSources(members: seq<Member>, loaded: map<word, Location>): Option<map<word, Location>>
    decreases |members|
  {
    if members == [] then Some(loaded)
    else
      var location := LoadLocation(members[0].value);
      var address := ParseHexWord(members[0].key);
      if location.None? || address.None? || address.value in loaded then None
      else LoadSources(members[1..], loaded[address.value := location.value])
  }

  function LoadRecord(v: Value, romSize: uint32): Option<Record> {
    var address := RequireHexWord(RequireField(v, "address"));
    var offset := RequireNumber(RequireField(v, "rom_offset"));
    var location := LoadLocation(v);
    if address.None? || offset.None? || location.None? then None
    else if offset.value < 0 || offset.value >= romSize then None
    else Some(Record(address.value, offset.value, location.value))
  }

  function LoadRecords(elements: seq<Value>, romSize: uint32): (r: Option<seq<Record>>)
    ensures r.Some? ==> |r.value| == |elements|
  {
    if elements == [] then Some([])
    else
      var n := |elements| - 1;
      var rest := LoadRecords(elements[..n], romSize);
      var last := LoadRecord(elements[n], romSize);
      if rest.None? || last.None? then None else Some(rest.value + [last.value])
  }

  /** Scalars before the lists: version, entry, ROM size, cartridge version and source root. */
  function LoadHead(root: Value): Option<Symbols> {
    var version := RequireString(RequireField(root, "version"));
    var entry := RequireHexWord(RequireField(root, "entry"));
    var romSize := RequireNumber(RequireField(root, "rom_size"));
    var cartridge := RequireNumber(RequireField(root, "cartridge_version"));
    var sourceRoot := RequireString(RequireField(root, "source_root"));
    if version.None? || entry.None? || romSize.None? || sourceRoot.None? then None
    else if romSize.value <= 0 || (cartridge.Some? && cartridge.value < 0) then None
    else Some(Symbols(version.value, entry.value, romSize.value % 0x1_0000_0000,
                      if cartridge.Some? then cartridge.value % 0x1_0000_0000 else 0,
                      sourceRoot.value, [], map[], map[], []))
  }

  function LoadLists(root: Value, head: Symbols): Option<Symbols> {
    var files := RequireField(root, "source_files");
    var names := RequireField(root, "symbols");
    var sources := RequireField(root, "pc_to_source");
    var records := RequireField(root, "records");
    if files.None? || names.None? || sources.None? || records.None? then None
    else if !files.value.Array? || !names.value.Object? || !sources.value.Object? || !records.value.Array? then None
    else
      var loadedFiles := LoadFiles(files.value.elements);
      var loadedNames := LoadNames(names.value.members, map[]);
      var loadedSources := LoadSources(sources.value.members, map[]);
      var loadedRecords := LoadRecords(records.value.elements, head.romSize);
      if loadedFiles.None? || loadedNames.None? || loadedSources.None? || loadedRecords.None? then None
      else Some(head.(sourceFiles := loadedFiles.value, symbols := loadedNames.value,
                      pcToSource := loadedSources.value, records := loadedRecords.value))
  }

  function Loaded(root: Value): Option<Symbols> {
    var head := LoadHead(root);
    if head.None? then None else LoadLists(root, head.value)
  }

  function LoadedText(content: string): Option<Symbols> {
    var root := Document(content);
    if root.None? then None else Loaded(root.value)
  }

  method LoadDebugSymbols(content: string) returns (r: Option<Symbols>)
    ensures r == LoadedText(content)
  {
    var parser := new JsonParser(content);
    var root := parser.Parse();
    if root.None? {
      return None;
    }
    var head := LoadHead(root.value);
    if head.None? {
      return None;
    }
    r := LoadListsOf(root.value, head.value);
  }

  method LoadListsOf(root: Value, head: Symbols) returns (r: Option<Symbols>)
    ensures r == LoadLists(root, head)
  {
    var files := RequireField(root, "source_files");
    var names := RequireField(root, "symbols");
    var sources := RequireField(root, "pc_to_source");
    var records := RequireField(root, "records");
    if files.None? || names.None? || sources.None? || records.None? {
      return None;
    }
    if !files.value.Array? || !names.value.Object? || !sources.value.Object? || !records.value.Array? {
      return None;
    }
    var sourceFiles := ParseStringArray(files.value.elements);
    var symbols := ReadNames(names.value.members);
    var pcToSource := ReadSources(sources.value.members);
    var loaded := ReadRecords(records.value.elements, head.romSize);
    if sourceFiles.None? || symbols.None? || pcToSource.None? || loaded.None? {
      return None;
    }
    r := Some(head.(sourceFiles := sourceFiles.value, symbols := symbols.value,
                    pcToSource := pcToSource.value, records := loaded.value));
  }

  method ParseStringArray(elements: seq<Value>) returns (r: Option<seq<string>>)
    ensures r == LoadFiles(elements)
  {
    var out: seq<string> := [];
    for i := 0 to |elements|
      invariant LoadFiles(elements[..i]) == Some(out)
    {
      assert elements[..i + 1][..i] == elements[..i];
      if !elements[i].String? {
        FilesPrefix(elements, i + 1);
        return None;
      }
      out := out + [elements[i].text];
    }
    assert elements[..|elements|] == elements;
    r := Some(out);
  }

  lemma {:induction false} FilesPrefix(elements: seq<Value>, n: nat)
    requires n <= |elements| && LoadFiles(elements[..n]).None?
    ensures LoadFiles(elements).None?
    decreases |elements|
  {
    if n < |elements| {
      assert elements[..|elements| - 1][..n] == elements[..n];
      FilesPrefix(elements[..|elements| - 1], n);
    } else {
      assert elements[..n] == elements;
    }
  }

  method ReadNames(members: seq<Member>) returns (r: Option<map<string, word>>)
    ensures r == LoadNames(members, map[])
  {
    var symbols: map<string, word> := map[];
    for i := 0 to |members|
      invariant LoadNames(members, map[]) == LoadNames(members[i..], symbols)
    {
      assert members[i..][0] == members[i] && members[i..][1..] == members[i + 1..];
      var address := RequireHexWord(Some(members[i].value));
      if address.None? {
        return None;
      }
      if members[i].key !in symbols {
        symbols := symbols[members[i].key := address.value];
      }
    }
    r := Some(symbols);
  }

  method ReadSources(members: seq<Member>) returns (r: Option<map<word, Location>>)
    ensures r == LoadSources(members, map[])
  {
    var sources: map<word, Location> := map[];
    for i := 0 to |members|
      invariant LoadSources(members, map[]) == LoadSources(members[i..], sources)
    {
      assert members[i..][0] == members[i] && members[i..][1..] == members[i + 1..];
      var location := LoadLocation(members[i].value);
      var address := ParseHexWord(members[i].key);
      if location.None? || address.None? || address.value in sources {
        return None;
      }
      sources := sources[address.value := location.value];
    }
    r := Some(sources);
  }

  method ReadRecords(elements: seq<Value>, romSize: uint32) returns (r: Option<seq<Record>>)
    ensures r == LoadRecords(elements, romSize)
  {
    var records: seq<Record> := [];
    for i := 0 to |elements|
      invariant LoadRecords(elements[..i], romSize) == Some(records)
    {
      assert elements[..i + 1][..i] == elements[..i];
      var record := LoadRecord(elements[i], romSize);
      if record.None? {
        RecordsPrefix(elements, i + 1, romSize);
        return None;
      }
      records := records + [record.value];
    }
    assert elements[..|elements|] == elements;
    r := Some(records);
  }

  lemma {:induction false} RecordsPrefix(elements: seq<Value>, n: nat, romSize: uint32)
    requires n <= |elements| && LoadRecords(elements[..n], romSize).None?
    ensures LoadRecords(elements, romSize).None?
    decreases |elements|
  {
    if n < |elements| {
      assert elements[..|elements| - 1][..n] == elements[..n];
      RecordsPrefix(elements[..|elements| - 1], n, romSize);
    } else {
      assert elements[..n] == elements;
    }
  }
}
