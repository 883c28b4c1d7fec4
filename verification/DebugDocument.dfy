/** The debug document: what the assembler prints, the JSON value it is, and what the loader gets from it. */
module DebugDocument {
  import opened Bits
  import opened Wrappers
  import opened Text
  import opened Json
  import opened JsonText
  import opened DebugSymbols
  import opened DebugJson

  // ---------------------------------------------------------------- spacing

  const INLINE := Spacing("", " ", "", "")
  const BLOCK := Spacing("\n    ", "\n    ", "\n  ", "\n  ")
  const NAMES := Spacing("\n    ", "\n    ", "\n  ", "")
  const TOP := Spacing("\n  ", "\n  ", "\n", "")

  // ---------------------------------------------------------------- records

  function LocationTexts(l: Location): seq<string> {
    [MemberText("file", Quote(l.file)), MemberText("line", IntText(l.line)),
     MemberText("column", IntText(l.column)), MemberText("text", Quote(l.text))]
  }

  function LocationMembers(l: Location): seq<Member> {
    [Member("file", String(l.file)), Member("line", Number(l.line)),
     Member("column", Number(l.column)), Member("text", String(l.text))]
  }

  function RecordTexts(r: Record): seq<string> {
    [MemberText("address", AddressText(r.address)), MemberText("rom_offset", IntText(r.romOffset))]
    + LocationTexts(r.location)
  }

  function RecordMembers(r: Record): seq<Member> {
    [Member("address", String(HexWordText(r.address))), Member("rom_offset", Number(r.romOffset))]
    + LocationMembers(r.location)
  }

  lemma LocationReads(l: Location)
    ensures AllMembersRead(LocationTexts(l), LocationMembers(l))
  {
    QuoteReads(l.file);
    MemberTextReads("file", Quote(l.file), String(l.file));
    IntReads(l.line);
    MemberTextReads("line", IntText(l.line), Number(l.line));
    IntReads(l.column);
    MemberTextReads("column", IntText(l.column), Number(l.column));
    QuoteReads(l.text);
    MemberTextReads("text", Quote(l.text), String(l.text));
  }

  lemma RecordMembersRead(r: Record)
    ensures AllMembersRead(RecordTexts(r), RecordMembers(r))
  {
    AddressReads(r.address);
    MemberTextReads("address", AddressText(r.address), String(HexWordText(r.address)));
    IntReads(r.romOffset);
    MemberTextReads("rom_offset", IntText(r.romOffset), Number(r.romOffset));
    LocationReads(r.location);
  }

  // ---------------------------------------------------------------- finding members

  /** The keys of a member list, in order. */
  function Keys(members: seq<Member>): seq<string> {
    seq(|members|, k requires 0 <= k < |members| => members[k].key)
  }

  lemma {:induction false} FindMember(members: seq<Member>, k: nat)
    requires DistinctKeys(members) && k < |members|
    ensures Find(members, members[k].key) == Some(members[k].value)
    decreases k
  {
    if k > 0 {
      assert members[0].key != members[k].key;
      assert members[1..][k - 1] == members[k];
      FindMember(members[1..], k - 1);
    }
  }

  lemma LocationKeys(l: Location)
    ensures DistinctKeys(LocationMembers(l))
  {
    var m := LocationMembers(l);
    assert m[0].key[0] == 'f' && m[1].key[0] == 'l' && m[2].key[0] == 'c' && m[3].key[0] == 't';
  }

  lemma RecordKeys(r: Record)
    ensures DistinctKeys(RecordMembers(r))
  {
    var m := RecordMembers(r);
    assert m[0].key[0] == 'a' && m[1].key[0] == 'r';
    assert m[2].key[0] == 'f' && m[3].key[0] == 'l' && m[4].key[0] == 'c' && m[5].key[0] == 't';
  }

  // ---------------------------------------------------------------- loading one record

  predicate GoodLocation(l: Location) {
    l.line >= 1 && l.column >= 1
  }

  lemma LocationLoads(members: seq<Member>, from: nat, l: Location)
    requires DistinctKeys(members) && from + 4 == |members| && members[from..] == LocationMembers(l)
    ensures LoadLocation(Object(members)) == if GoodLocation(l) then Some(l) else None
  {
    assert forall k | 0 <= k < 4 :: members[from + k] == members[from..][k];
    FindMember(members, from);
    FindMember(members, from + 1);
    FindMember(members, from + 2);
    FindMember(members, from + 3);
    assert members[from] == LocationMembers(l)[0];
    assert members[from + 1] == LocationMembers(l)[1];
    assert members[from + 2] == LocationMembers(l)[2];
    assert members[from + 3] == LocationMembers(l)[3];
    Int32Stays(l.line);
    Int32Stays(l.column);
  }

  lemma Int32Stays(n: int32)
    ensures ToInt32(n) == n
  {
    if n < 0 { assert n % 0x1_0000_0000 == n + 0x1_0000_0000; }
  }

  predicate GoodRecord(r: Record, romSize: uint32) {
    r.romOffset < romSize && GoodLocation(r.location)
  }

  lemma RecordLoads(r: Record, romSize: uint32)
    ensures LoadRecord(Object(RecordMembers(r)), romSize) == if GoodRecord(r, romSize) then Some(r) else None
  {
    var members := RecordMembers(r);
    RecordKeys(r);
    assert members[2..] == LocationMembers(r.location);
    LocationLoads(members, 2, r.location);
    FindMember(members, 0);
    FindMember(members, 1);
    assert members[0] == Member("address", String(HexWordText(r.address)));
    assert members[1] == Member("rom_offset", Number(r.romOffset));
    AddressBack(r.address);
  }

  // ---------------------------------------------------------------- lists of records

  function LocationText(l: Location): string {
    ListText('{', LocationTexts(l), INLINE, '}')
  }

  function RecordText(r: Record): string {
    ListText('{', RecordTexts(r), INLINE, '}')
  }

  function Mapped<T, U>(f: T -> U, xs: seq<T>): seq<U> {
    seq(|xs|, i requires 0 <= i < |xs| => f(xs[i]))
  }

  lemma MappedSnoc<T, U>(f: T -> U, xs: seq<T>, i: nat)
    requires i < |xs|
    ensures Mapped(f, xs[..i + 1]) == Mapped(f, xs[..i]) + [f(xs[i])]
  {
  }

  function RecordsTexts(records: seq<Record>): seq<string> {
    Mapped(RecordText, records)
  }

  function RecordsValues(records: seq<Record>): seq<Value> {
    seq(|records|, i requires 0 <= i < |records| => Object(RecordMembers(records[i])))
  }

  lemma RecordReads(r: Record)
    ensures ReadsAs(RecordText(r), Object(RecordMembers(r)))
  {
    RecordMembersRead(r);
    RecordKeys(r);
    ObjectReads(RecordTexts(r), RecordMembers(r), INLINE);
  }

  lemma RecordsRead(records: seq<Record>)
    ensures AllRead(RecordsTexts(records), RecordsValues(records))
  {
    var texts, values := RecordsTexts(records), RecordsValues(records);
    forall i | 0 <= i < |records| ensures ReadsAs(texts[i], values[i]) {
      RecordReads(records[i]);
      assert texts[i] == RecordText(records[i]) && values[i] == Object(RecordMembers(records[i]));
    }
  }

  predicate GoodRecords(records: seq<Record>, romSize: uint32) {
    forall r | r in records :: GoodRecord(r, romSize)
  }

  lemma LoadLast(elements: seq<Value>, v: Value, romSize: uint32)
    ensures var rest, last := LoadRecords(elements, romSize), LoadRecord(v, romSize);
            LoadRecords(elements + [v], romSize)
            == if rest.None? || last.None? then None else Some(rest.value + [last.value])
  {
    assert (elements + [v])[..|elements|] == elements;
  }

  lemma RecordsSplit(records: seq<Record>, n: nat, romSize: uint32)
    requires |records| == n + 1
    ensures RecordsValues(records) == RecordsValues(records[..n]) + [Object(RecordMembers(records[n]))]
    ensures GoodRecords(records, romSize) <==> GoodRecords(records[..n], romSize) && GoodRecord(records[n], romSize)
    ensures records == records[..n] + [records[n]]
  {
    assert forall r | r in records :: r == records[n] || r in records[..n];
  }

  lemma {:induction false} RecordsLoad(records: seq<Record>, romSize: uint32)
    ensures LoadRecords(RecordsValues(records), romSize) == if GoodRecords(records, romSize) then Some(records) else None
  {
    if records != [] {
      var n := |records| - 1;
      RecordsLoad(records[..n], romSize);
      RecordLoads(records[n], romSize);
      RecordsSplit(records, n, romSize);
      LoadLast(RecordsValues(records[..n]), Object(RecordMembers(records[n])), romSize);
    }
  }

  // ---------------------------------------------------------------- first record at each address

  /** The record the address map keeps: the first with this address. */
  function FirstAt(records: seq<Record>, a: word): (r: Option<Record>)
    ensures r.Some? ==> r.value in records && r.value.address == a
    ensures r.None? ==> forall q | q in records :: q.address != a
  {
    if records == [] then None
    else if records[0].address == a then Some(records[0])
    else FirstAt(records[1..], a)
  }

  /** Those records by increasing address, from an address on. */
  function EntriesFrom(records: seq<Record>, a: nat): (r: seq<Record>)
    ensures forall q | q in r :: q in records && q.address >= a
    decreases 0x1_0000 - a
  {
    if a >= 0x1_0000 then []
    else
      var first := FirstAt(records, a);
      (if first.Some? then [first.value] else []) + EntriesFrom(records, a + 1)
  }

  function SourceTexts(entries: seq<Record>): seq<string> {
    seq(|entries|, i requires 0 <= i < |entries| =>
      MemberText(HexWordText(entries[i].address), LocationText(entries[i].location)))
  }

  function SourceMembers(entries: seq<Record>): seq<Member> {
    seq(|entries|, i requires 0 <= i < |entries| =>
      Member(HexWordText(entries[i].address), Object(LocationMembers(entries[i].location))))
  }

  lemma SourcesRead(entries: seq<Record>)
    ensures AllMembersRead(SourceTexts(entries), SourceMembers(entries))
  {
    forall i | 0 <= i < |entries| ensures MemberReads(SourceTexts(entries)[i], SourceMembers(entries)[i]) {
      var l := entries[i].location;
      LocationReads(l);
      LocationKeys(l);
      ObjectReads(LocationTexts(l), LocationMembers(l), INLINE);
      MemberTextReads(HexWordText(entries[i].address), LocationText(l), Object(LocationMembers(l)));
    }
  }

  predicate Increasing(entries: seq<Record>) {
    forall i, j | 0 <= i < j < |entries| :: entries[i].address < entries[j].address
  }

  lemma IncreasingCons(first: Record, rest: seq<Record>)
    requires Increasing(rest) && forall q | q in rest :: first.address < q.address
    ensures Increasing([first] + rest)
  {
    var all := [first] + rest;
    forall i, j | 0 <= i < j < |all| ensures all[i].address < all[j].address {
      assert all[j] == rest[j - 1] && rest[j - 1] in rest;
      if i > 0 { assert all[i] == rest[i - 1]; }
    }
  }

  lemma {:induction false} EntriesIncrease(records: seq<Record>, a: nat)
    ensures Increasing(EntriesFrom(records, a))
    decreases 0x1_0000 - a
  {
    if a < 0x1_0000 {
      EntriesIncrease(records, a + 1);
      var first, rest := FirstAt(records, a), EntriesFrom(records, a + 1);
      if first.Some? {
        IncreasingCons(first.value, rest);
      } else {
        assert [] + rest == rest;
      }
    }
  }

  lemma SourceKeys(entries: seq<Record>)
    requires Increasing(entries)
    ensures DistinctKeys(SourceMembers(entries))
  {
    forall i, j | 0 <= i < j < |entries| ensures SourceMembers(entries)[i].key != SourceMembers(entries)[j].key {
      if HexWordText(entries[i].address) == HexWordText(entries[j].address) {
        AddressInjective(entries[i].address, entries[j].address);
      }
    }
  }

  /** What loading the remaining entries adds to a map. */
  function AddSources(entries: seq<Record>, loaded: map<word, Location>): map<word, Location>
    decreases |entries|
  {
    if entries == [] then loaded
    else AddSources(entries[1..], loaded[entries[0].address := entries[0].location])
  }

  lemma LocationObjectLoads(l: Location)
    requires GoodLocation(l)
    ensures LoadLocation(Object(LocationMembers(l))) == Some(l)
  {
    LocationKeys(l);
    assert LocationMembers(l)[0..] == LocationMembers(l);
    LocationLoads(LocationMembers(l), 0, l);
  }

  lemma {:induction false} SourcesLoad(entries: seq<Record>, loaded: map<word, Location>)
    requires Increasing(entries) && forall r | r in entries :: GoodLocation(r.location)
    requires forall r | r in entries :: r.address !in loaded
    ensures LoadSources(SourceMembers(entries), loaded) == Some(AddSources(entries, loaded))
    decreases |entries|
  {
    if entries != [] {
      var r := entries[0];
      assert r in entries;
      LocationObjectLoads(r.location);
      AddressBack(r.address);
      assert SourceMembers(entries)[0] == Member(HexWordText(r.address), Object(LocationMembers(r.location)));
      assert SourceMembers(entries)[1..] == SourceMembers(entries[1..]);
      forall q | q in entries[1..] ensures q.address !in loaded[r.address := r.location] {
        var i :| 0 <= i < |entries[1..]| && entries[1..][i] == q;
        assert entries[i + 1] == q;
      }
      SourcesLoad(entries[1..], loaded[r.address := r.location]);
    }
  }

  /** The map from each address to the first record there. */
  function FirstLocations(records: seq<Record>): map<word, Location> {
    map a: word | 0 <= a < 0x1_0000 && FirstAt(records, a).Some? :: FirstAt(records, a).value.location
  }

  /** What the map holds at `b` once all entries from `a` on are added. */
  ghost predicate AddedAt(records: seq<Record>, a: nat, loaded: map<word, Location>, m: map<word, Location>, b: word) {
    if b < a then (b in m <==> b in loaded) && (b in m ==> m[b] == loaded[b])
    else (b in m <==> FirstAt(records, b).Some?) && (b in m ==> m[b] == FirstAt(records, b).value.location)
  }

  lemma AddSourcesCons(first: Record, rest: seq<Record>, loaded: map<word, Location>)
    ensures AddSources([first] + rest, loaded) == AddSources(rest, loaded[first.address := first.location])
  {
    assert ([first] + rest)[1..] == rest;
  }

  lemma {:induction false} AddedSources(records: seq<Record>, a: nat, loaded: map<word, Location>, b: word)
    requires forall x | x in loaded :: x < a
    ensures AddedAt(records, a, loaded, AddSources(EntriesFrom(records, a), loaded), b)
    decreases 0x1_0000 - a
  {
    if a < 0x1_0000 {
      var first, rest := FirstAt(records, a), EntriesFrom(records, a + 1);
      if first.Some? {
        AddSourcesCons(first.value, rest, loaded);
        AddedSources(records, a + 1, loaded[a := first.value.location], b);
      } else {
        assert EntriesFrom(records, a) == rest;
        AddedSources(records, a + 1, loaded, b);
      }
    }
  }

  lemma EntriesGiveFirst(records: seq<Record>)
    ensures AddSources(EntriesFrom(records, 0), map[]) == FirstLocations(records)
  {
    var m := AddSources(EntriesFrom(records, 0), map[]);
    forall b: word
      ensures b in m <==> FirstAt(records, b).Some?
      ensures b in m ==> m[b] == FirstAt(records, b).value.location
    {
      AddedSources(records, 0, map[], b);
      assert AddedAt(records, 0, map[], m, b);
    }
  }
}
