/** The cartridge file: the header the assembler writes and the loader of the simulator. */
module Cartridge {
  import opened Bits
  import opened Wrappers

  const HEADER_SIZE := 32

  const MAGIC: seq<byte> := [0x49, 0x52, 0x54, 0x41]

  type dword = v: nat | v < 0x1_0000_0000

  datatype HeaderFields = Fields(magic: seq<byte>, version: word, headerSize: word, entry: word, romSize: dword,
                                 reserved: seq<byte>)

  /** Field widths of the header: 4 bytes of magic and 18 reserved bytes. */
  type Header = h: HeaderFields | |h.magic| == 4 && |h.reserved| == 18
    witness Fields(MAGIC, 1, HEADER_SIZE, 0x8000, 0, seq(18, _ => 0))

  /** What the loader keeps of a file. */
  datatype Loaded = Loaded(version: word, headerSize: word, entry: word, romSize: dword, rom: seq<byte>)

  function Bytes16(v: word): (r: seq<byte>)
    ensures |r| == 2
  {
    [v % 0x100, v / 0x100]
  }

  function Bytes32(v: dword): (r: seq<byte>)
    ensures |r| == 4
  {
    Bytes16(v % 0x1_0000) + Bytes16(v / 0x1_0000)
  }

  function Read16(data: seq<byte>, offset: nat): word
    requires offset + 1 < |data|
  {
    var low: nat, high: nat := data[offset], data[offset + 1];
    low + 0x100 * high
  }

  function Read32(data: seq<byte>, offset: nat): dword
    requires offset + 3 < |data|
  {
    var low: nat, high: nat := Read16(data, offset), Read16(data, offset + 2);
    low + 0x1_0000 * high
  }

  function HeaderBytes(h: Header): (r: seq<byte>)
    ensures |r| == HEADER_SIZE
  {
    h.magic + Bytes16(h.version) + Bytes16(h.headerSize) + Bytes16(h.entry) + Bytes32(h.romSize) + h.reserved
  }

  /** The fields in order fill the header; no padding is left to add. */
  method EncodeHeader(h: Header) returns (out: seq<byte>)
    ensures out == HeaderBytes(h)
  {
    out := [];
    for i := 0 to |h.magic|
      invariant out == h.magic[..i]
    {
      out := out + [h.magic[i]];
    }
    out := out + Bytes16(h.version);
    out := out + Bytes16(h.headerSize);
    out := out + Bytes16(h.entry);
    out := out + Bytes32(h.romSize);
    ghost var fields := out;
    for i := 0 to |h.reserved|
      invariant out == fields + h.reserved[..i]
    {
      out := out + [h.reserved[i]];
    }
    assert h.reserved[..|h.reserved|] == h.reserved;
  }

  /** The loader's checks in order. The end of the ROM is computed in 32 bits, and reading past the file fails. */
  function LoadedFrom(data: seq<byte>): Option<Loaded> {
    if |data| < HEADER_SIZE || data[..4] != MAGIC then None
    else
      var headerSize, romSize := Read16(data, 6), Read32(data, 10);
      if headerSize < HEADER_SIZE || |data| < (headerSize + romSize) % 0x1_0000_0000 || |data| < headerSize + romSize then None
      else Some(Loaded(Read16(data, 4), headerSize, Read16(data, 8), romSize, data[headerSize..headerSize + romSize]))
  }

  method LoadCartridge(data: seq<byte>) returns (r: Option<Loaded>)
    ensures r == LoadedFrom(data)
  {
    if |data| < HEADER_SIZE {
      return None;
    }
    for i := 0 to 4
      invariant data[..i] == MAGIC[..i]
    {
      if data[i] != MAGIC[i] {
        assert data[..4][i] != MAGIC[i];
        return None;
      }
    }
    assert MAGIC[..4] == MAGIC;
    var headerSize, romSize := Read16(data, 6), Read32(data, 10);
    if headerSize < HEADER_SIZE || |data| < (headerSize + romSize) % 0x1_0000_0000 {
      return None;
    }
    var rom: seq<byte> := [];
    for i := 0 to romSize
      invariant i > 0 ==> headerSize + i <= |data|
      invariant rom == if i > 0 then data[headerSize..headerSize + i] else []
    {
      if headerSize + i >= |data| {
        return None;
      }
      rom := rom + [data[headerSize + i]];
    }
    assert romSize == 0 ==> (headerSize + romSize) % 0x1_0000_0000 == headerSize <= |data|;
    assert rom == data[headerSize..headerSize + romSize];
    r := Some(Loaded(Read16(data, 4), headerSize, Read16(data, 8), romSize, rom));
  }

  /** The byte at an index of the header is the byte of its field. */
  lemma HeaderParts(h: Header)
    ensures var b := HeaderBytes(h);
            && b[..4] == h.magic && b[14..] == h.reserved
            && b[4..6] == Bytes16(h.version) && b[6..8] == Bytes16(h.headerSize) && b[8..10] == Bytes16(h.entry)
            && b[10..14] == Bytes32(h.romSize)
  {
  }

  /** The header by its bytes: magic, then version, header size, entry point and ROM size, low bytes first, then
      the reserved bytes. */
  lemma HeaderLayout(h: Header)
    ensures var b: seq<int> := HeaderBytes(h);
            && b[..4] == h.magic && b[14..] == h.reserved
            && b[4] + 256 * b[5] == h.version && b[6] + 256 * b[7] == h.headerSize && b[8] + 256 * b[9] == h.entry
            && b[10] + 256 * b[11] + 65536 * b[12] + 16777216 * b[13] == h.romSize
  {
    HeaderParts(h);
    var b: seq<int> := HeaderBytes(h);
    assert b[4..6][0] == b[4] && b[4..6][1] == b[5] && b[6..8][0] == b[6] && b[6..8][1] == b[7];
    assert b[8..10][0] == b[8] && b[8..10][1] == b[9];
    assert forall k | 0 <= k < 4 :: b[10..14][k] == b[10 + k];
    WordBytes(h.version);
    WordBytes(h.headerSize);
    WordBytes(h.entry);
    WordBytes(h.romSize % 0x1_0000);
    WordBytes(h.romSize / 0x1_0000);
  }

  lemma WordBytes(v: word)
    ensures var b: seq<int> := Bytes16(v); b[0] + 256 * b[1] == v
  {
  }

  lemma Read16Back(data: seq<byte>, offset: nat, v: word)
    requires offset + 1 < |data| && data[offset] == Bytes16(v)[0] && data[offset + 1] == Bytes16(v)[1]
    ensures Read16(data, offset) == v
  {
  }

  /** Every field of a header reads back. */
  lemma HeaderReadsBack(h: Header, data: seq<byte>)
    requires |data| >= HEADER_SIZE && data[..HEADER_SIZE] == HeaderBytes(h)
    ensures data[..4] == h.magic && Read16(data, 4) == h.version && Read16(data, 6) == h.headerSize
    ensures Read16(data, 8) == h.entry && Read32(data, 10) == h.romSize
  {
    var bytes := HeaderBytes(h);
    assert forall k | 0 <= k < HEADER_SIZE :: data[k] == data[..HEADER_SIZE][k];
    assert data[..4] == data[..HEADER_SIZE][..4] && bytes[..4] == h.magic;
    Read16Back(data, 4, h.version);
    Read16Back(data, 6, h.headerSize);
    Read16Back(data, 8, h.entry);
    Read16Back(data, 10, h.romSize % 0x1_0000);
    Read16Back(data, 12, h.romSize / 0x1_0000);
  }

  /** A written cartridge loads as what was written if and only if the header carries the magic, its own size
      and the size of the ROM. */
  lemma CartridgeRoundTrip(h: Header, rom: seq<byte>)
    ensures LoadedFrom(HeaderBytes(h) + rom) == Some(Loaded(h.version, h.headerSize, h.entry, h.romSize, rom))
       <==> h.magic == MAGIC && h.headerSize == HEADER_SIZE && h.romSize == |rom|
  {
    var data := HeaderBytes(h) + rom;
    HeaderReadsBack(h, data);
    assert data[HEADER_SIZE..HEADER_SIZE + |rom|] == rom;
    var back := LoadedFrom(data);
    if back.Some? && back.value.rom == rom {
      assert |back.value.rom| == h.romSize;
    }
  }
}
