/** SaveState and LoadState: PSP memory in two compressed halves, registers and descriptors in one file. */
module SaveState {
  import opened Bytes
  import opened Host
  import opened Lz4Format
  import opened Lz4Checked
  import opened Lz4Compress
  import opened Lz4Decode
  import opened Lz4Incompressible

  /** Half of the 64 MiB of PSP memory, and the size of the temporary buffer. */
  const PART := 0x200_0000
  const ACCELERATION := 8
  const STATE_MAGIC := 0x5453_5653
  const STATE_VERSION := 0x7_0000
  const SCREENSHOT_SIZE := 240 * 136 * 4
  const STATE_HEADER_SIZE := 0x100

  // ----- header

  datatype Header = Header(title: seq<byte>, sp: nat, ra: nat,
    screenshotOffset: nat, screenshotSize: nat, descriptorsOffset: nat, descriptorsSize: nat,
    part1Offset: nat, part1Size: nat, part2Offset: nat, part2Size: nat)

  /** The words of the header that follow the title. */
  function HeaderFields(h: Header): seq<byte> {
    Le32(h.sp) + Le32(h.ra) + Le32(h.screenshotOffset) + Le32(h.screenshotSize)
    + Le32(h.descriptorsOffset) + Le32(h.descriptorsSize)
    + Le32(h.part1Offset) + Le32(h.part1Size) + Le32(h.part2Offset) + Le32(h.part2Size)
  }

  function HeaderBytes(h: Header): (b: seq<byte>)
    requires |h.title| == 0x80
    ensures |b| == STATE_HEADER_SIZE
  {
    Le32(STATE_MAGIC) + Le32(STATE_VERSION) + h.title + HeaderFields(h) + Repeat(0, 0x50)
  }

  function ParseHeader(b: seq<byte>): Header
    requires STATE_HEADER_SIZE <= |b|
  {
    Header(b[8..0x88], Read32(b, 0x88), Read32(b, 0x8C), Read32(b, 0x90), Read32(b, 0x94), Read32(b, 0x98),
      Read32(b, 0x9C), Read32(b, 0xA0), Read32(b, 0xA4), Read32(b, 0xA8), Read32(b, 0xAC))
  }

  predicate FitsWords(h: Header) {
    && |h.title| == 0x80 && h.sp < U32_MODULUS && h.ra < U32_MODULUS
    && h.screenshotOffset < U32_MODULUS && h.screenshotSize < U32_MODULUS
    && h.descriptorsOffset < U32_MODULUS && h.descriptorsSize < U32_MODULUS
    && h.part1Offset < U32_MODULUS && h.part1Size < U32_MODULUS
    && h.part2Offset < U32_MODULUS && h.part2Size < U32_MODULUS
  }

  /** The header is read back field by field. */
  lemma HeaderReads(h: Header, rest: seq<byte>)
    requires FitsWords(h)
    ensures ParseHeader(HeaderBytes(h) + rest) == h
  {
    hide Le32, Read32, HeaderBytes;
    WordsStand(h, rest);
  }

  /** The words of a header, where the structure in states.h has them. */
  predicate HeaderWords(b: seq<byte>, h: Header) {
    && STATE_HEADER_SIZE <= |b| && Read32(b, 0) == 0x5453_5653 && Read32(b, 4) == 0x7_0000 && b[8..0x88] == h.title
    && Read32(b, 0x88) == h.sp && Read32(b, 0x8C) == h.ra
    && Read32(b, 0x90) == h.screenshotOffset && Read32(b, 0x94) == h.screenshotSize
    && Read32(b, 0x98) == h.descriptorsOffset && Read32(b, 0x9C) == h.descriptorsSize
    && Read32(b, 0xA0) == h.part1Offset && Read32(b, 0xA4) == h.part1Size
    && Read32(b, 0xA8) == h.part2Offset && Read32(b, 0xAC) == h.part2Size
  }

  lemma WordsStand(h: Header, rest: seq<byte>)
    requires FitsWords(h)
    ensures HeaderWords(HeaderBytes(h) + rest, h)
  {
    hide Le32, Read32, HeaderFields;
    var b := HeaderBytes(h) + rest;
    var f := HeaderFields(h);
    FieldSlices(h);
    assert b[0x88..0xB0] == f && b[8..0x88] == h.title;
    assert b[0..4] == Le32(STATE_MAGIC) && b[4..8] == Le32(STATE_VERSION);
    Read32OfLe32(b, 0, STATE_MAGIC);
    Read32OfLe32(b, 4, STATE_VERSION);
    FieldReads(b, f, 0, h.sp);
    FieldReads(b, f, 4, h.ra);
    FieldReads(b, f, 8, h.screenshotOffset);
    FieldReads(b, f, 12, h.screenshotSize);
    FieldReads(b, f, 16, h.descriptorsOffset);
    FieldReads(b, f, 20, h.descriptorsSize);
    FieldReads(b, f, 24, h.part1Offset);
    FieldReads(b, f, 28, h.part1Size);
    FieldReads(b, f, 32, h.part2Offset);
    FieldReads(b, f, 36, h.part2Size);
  }

  lemma FieldSlices(h: Header)
    ensures var f := HeaderFields(h);
            && |f| == 40 && f[0..4] == Le32(h.sp) && f[4..8] == Le32(h.ra)
            && f[8..12] == Le32(h.screenshotOffset) && f[12..16] == Le32(h.screenshotSize)
            && f[16..20] == Le32(h.descriptorsOffset) && f[20..24] == Le32(h.descriptorsSize)
            && f[24..28] == Le32(h.part1Offset) && f[28..32] == Le32(h.part1Size)
            && f[32..36] == Le32(h.part2Offset) && f[36..40] == Le32(h.part2Size)
  {
    hide Le32;
  }

  lemma FieldReads(b: seq<byte>, f: seq<byte>, i: nat, v: nat)
    requires |b| >= 0xB0 && |f| == 40 && b[0x88..0xB0] == f && i + 4 <= 40 && f[i..i + 4] == Le32(v) && v < U32_MODULUS
    ensures Read32(b, 0x88 + i) == v
  {
    AtInside(b, 0x88, f, i, Le32(v));
    Read32OfLe32(b, 0x88 + i, v);
  }

  /** Registers and memory that a state holds. */
  datatype Machine = Machine(ram: seq<byte>, sp: nat, ra: nat, descriptors: seq<byte>)

  // ----- transfers at an offset, on a device that stays

  method WriteAt(fd: HostFile, offset: nat, bytes: seq<byte>)
    requires fd.reliable && fd.alive
    modifies fd
    ensures fd.alive && fd.data == Overwritten(old(fd.data), offset, bytes)
  {
    var at := fd.Lseek(offset, Set);
    var written := fd.Write(bytes);
  }

  method ReadAt(fd: HostFile, offset: nat, size: nat) returns (bytes: seq<byte>)
    requires fd.reliable && fd.alive
    modifies fd
    ensures fd.alive && fd.data == old(fd.data) && bytes == Slice(fd.data, offset, size)
  {
    var at := fd.Lseek(offset, Set);
    var read;
    read, bytes := fd.Read(size);
  }

  /** `data` is a state file for the machine: header, descriptors and the blocks of both halves. */
  ghost predicate StateFile(data: seq<byte>, m: Machine) {
    && STATE_HEADER_SIZE <= |data| && |m.ram| == 2 * PART
    && var h := ParseHeader(data);
       && h.sp == m.sp && h.ra == m.ra
       && h.descriptorsSize == |m.descriptors| && At(data, h.descriptorsOffset, m.descriptors)
       && h.part1Size <= PART && h.part1Offset + h.part1Size <= |data|
       && Encodes(Slice(data, h.part1Offset, h.part1Size), m.ram[..PART])
       && h.part2Size <= PART && h.part2Offset + h.part2Size <= |data|
       && Encodes(Slice(data, h.part2Offset, h.part2Size), m.ram[PART..])
  }

  /** A state file determines the machine. */
  lemma StateFileDetermines(data: seq<byte>, m: Machine, m': Machine)
    requires StateFile(data, m) && StateFile(data, m')
    ensures m == m'
  {
    hide Encodes, Decode, ParseHeader;
    var h := ParseHeader(data);
    var a, b := Slice(data, h.part1Offset, h.part1Size), Slice(data, h.part2Offset, h.part2Size);
    EncodesDecodes(a, m.ram[..PART]);
    EncodesDecodes(a, m'.ram[..PART]);
    EncodesDecodes(b, m.ram[PART..]);
    EncodesDecodes(b, m'.ram[PART..]);
    assert m.ram == m.ram[..PART] + m.ram[PART..];
    assert m'.ram == m'.ram[..PART] + m'.ram[PART..];
  }

  /** A half of memory that has a block no longer than itself. */
  ghost predicate Compressible(part: seq<byte>) {
    exists block: seq<byte> :: |block| <= |part| && Encodes(block, part)
  }

  lemma NothingEncodes(data: seq<byte>)
    ensures !Encodes([], data)
  {
  }

  lemma EmptyPiece(data: seq<byte>, offset: nat)
    ensures Slice(data, offset, 0) == []
  {
  }

  /** A half without repeats has no such block. */
  lemma NoiseIncompressible(part: seq<byte>)
    requires NoRepeats(part)
    ensures !Compressible(part)
  {
    hide Encodes, NoRepeats;
    if Compressible(part) {
      var block: seq<byte> :| |block| <= |part| && Encodes(block, part);
      LiteralsOnly(block, part);
    }
  }

  /** A file whose header has a size of zero is the state of no machine. */
  lemma EmptyHalf(data: seq<byte>, m: Machine)
    requires STATE_HEADER_SIZE <= |data| && (ParseHeader(data).part1Size == 0 || ParseHeader(data).part2Size == 0)
    ensures !StateFile(data, m)
  {
    hide Encodes, ParseHeader;
    if |m.ram| == 2 * PART {
      NothingEncodes(m.ram[..PART]);
      NothingEncodes(m.ram[PART..]);
      EmptyPiece(data, ParseHeader(data).part1Offset);
      EmptyPiece(data, ParseHeader(data).part2Offset);
    }
  }

  /** Where the parts of a state file go. */
  function Layout(title: seq<byte>, sp: nat, ra: nat, descriptors: nat, size1: nat, size2: nat): Header {
    var descriptorsOffset := STATE_HEADER_SIZE + SCREENSHOT_SIZE;
    var part1 := descriptorsOffset + descriptors;
    Header(title, sp, ra, STATE_HEADER_SIZE, SCREENSHOT_SIZE, descriptorsOffset, descriptors,
      part1, size1, part1 + size1, size2)
  }

  /** What the header of a state says: magic, version, title, registers, and where screenshot and parts are. */
  predicate Marked(data: seq<byte>, title: seq<byte>, m: Machine) {
    && 0x100 <= |data| && Read32(data, 0) == 0x5453_5653 && Read32(data, 4) == 0x7_0000 && data[8..0x88] == title
    && Read32(data, 0x88) == m.sp && Read32(data, 0x8C) == m.ra
    && Read32(data, 0x90) == 0x100 && Read32(data, 0x94) == 240 * 136 * 4
    && Read32(data, 0x98) == 0x100 + 240 * 136 * 4 && Read32(data, 0x9C) == |m.descriptors|
    && Read32(data, 0xA0) == 0x100 + 240 * 136 * 4 + |m.descriptors|
    && Read32(data, 0xA8) == Read32(data, 0xA0) + Read32(data, 0xA4)
  }

  /** `data` is `before` with a state written over it: header, descriptors and blocks, the screenshot untouched. */
  ghost predicate StateOver(data: seq<byte>, before: seq<byte>, title: seq<byte>, m: Machine) {
    && STATE_HEADER_SIZE <= |data| && Marked(data, title, m)
    && var h := ParseHeader(data);
       && h == Layout(title, m.sp, m.ra, |m.descriptors|, h.part1Size, h.part2Size)
       && (h.part1Size > 0 && h.part2Size > 0 <==> StateFile(data, m))
       && |m.ram| == 2 * PART
       && (h.part1Size > 0 ==> Compressible(m.ram[..PART])) && (h.part2Size > 0 ==> Compressible(m.ram[PART..]))
       && (forall k :: STATE_HEADER_SIZE <= k < STATE_HEADER_SIZE + SCREENSHOT_SIZE && k < |before| ==>
             k < |data| && data[k] == before[k])
       && STATE_HEADER_SIZE + SCREENSHOT_SIZE <= |data|
  }

  /** Compresses one half of memory into the temporary buffer and writes the block at `offset`. */
  method WritePart(fd: HostFile, ram: array<byte>, start: nat, savestateData: array<byte>, offset: nat)
    returns (size: nat, ghost block: seq<byte>)
    requires start + PART <= ram.Length && savestateData.Length == PART && ram != savestateData
    requires fd.reliable && fd.alive
    modifies fd, savestateData
    ensures fd.alive
    ensures size == |block| <= PART
    ensures size > 0 ==> Encodes(block, ram[start..start + PART]) && Compressible(ram[start..start + PART])
    ensures fd.data == Overwritten(old(fd.data), offset, block)
  {
    hide Encodes, EncodesGreedily, Overwritten;
    ghost var past;
    size, past := CompressFast(ram[start..start + PART], savestateData, PART, PART, ACCELERATION);
    var bytes := savestateData[..size];
    block := bytes;
    assert ram[start..start + PART][..PART] == ram[start..start + PART];
    WriteAt(fd, offset, bytes);
  }

  /** The writes of SaveState, in its order: descriptors, both halves, header. */
  method WriteState(fd: HostFile, ram: array<byte>, savestateData: array<byte>, sp: nat, ra: nat, title: seq<byte>,
      descriptors: seq<byte>)
    requires ram.Length == 2 * PART && savestateData.Length == PART && ram != savestateData
    requires sp < U32_MODULUS && ra < U32_MODULUS && |title| == 0x80 && descriptors != []
    requires STATE_HEADER_SIZE + SCREENSHOT_SIZE + |descriptors| + 2 * PART < U32_MODULUS
    requires fd.reliable && fd.alive
    modifies fd, savestateData
    ensures StateOver(fd.data, old(fd.data), title, Machine(ram[..], sp, ra, descriptors))
  {
    hide Encodes, Overwritten, ParseHeader, HeaderBytes, StateFile, Compressible;
    ghost var before := fd.data;
    var descriptorsOffset := STATE_HEADER_SIZE + SCREENSHOT_SIZE;
    WriteAt(fd, descriptorsOffset, descriptors);
    ghost var d1 := fd.data;
    var part1Offset := descriptorsOffset + |descriptors|;
    var size1, block1 := WritePart(fd, ram, 0, savestateData, part1Offset);
    ghost var d2 := fd.data;
    var part2Offset := part1Offset + size1;
    var size2, block2 := WritePart(fd, ram, PART, savestateData, part2Offset);
    ghost var d3 := fd.data;
    var header := Layout(title, sp, ra, |descriptors|, size1, size2);
    WriteAt(fd, 0, HeaderBytes(header));
    StateWritten(before, descriptors, block1, block2, header, d1, d2, d3, fd.data);
    assert ram[0..0 + PART] == ram[..][..PART] && ram[PART..PART + PART] == ram[..][PART..];
    if size1 > 0 && size2 > 0 {
      StateHolds(fd.data, header, Machine(ram[..], sp, ra, descriptors), block1, block2);
    } else {
      EmptyHalf(fd.data, Machine(ram[..], sp, ra, descriptors));
    }
  }

  /** The files of the device, and the savestate path of the current slot with its temporary name. */
  class Device {
    var files: map<string, seq<byte>>
    const path: string

    constructor (files: map<string, seq<byte>>, path: string)
      ensures this.files == files && this.path == path
    {
      this.files := files;
      this.path := path;
    }

    function Tmp(): (t: string)
      ensures t != path
    {
      assert |path + ".tmp"| == |path| + 4;
      path + ".tmp"
    }

    /**
      SaveState. Without a temporary file it fails and changes nothing. Otherwise the state replaces
      any earlier one; if both compressions succeeded, as the sizes in its header tell, it holds the
      machine. The screenshot already in the file stays.
    */
    method SaveState(ram: array<byte>, savestateData: array<byte>, sp: nat, ra: nat, title: seq<byte>,
        descriptors: seq<byte>)
      returns (r: int)
      requires ram.Length == 2 * PART && savestateData.Length == PART && ram != savestateData
      requires sp < U32_MODULUS && ra < U32_MODULUS && |title| == 0x80 && descriptors != []
      requires STATE_HEADER_SIZE + SCREENSHOT_SIZE + |descriptors| + 2 * PART < U32_MODULUS
      modifies this, savestateData
      ensures Tmp() !in old(files) ==> r < 0 && files == old(files)
      ensures Tmp() in old(files) ==>
                && r == 0 && path in files
                && files == (old(files) - {Tmp()})[path := files[path]]
                && StateOver(files[path], old(files[Tmp()]), title, Machine(ram[..], sp, ra, descriptors))
                && Marked(files[path], title, Machine(ram[..], sp, ra, descriptors))
    {
      hide StateOver;
      var tmp := Tmp();
      if tmp !in files {
        return -1;
      }
      var fd := new HostFile(files[tmp], true);
      WriteState(fd, ram, savestateData, sp, ra, title, descriptors);
      OverMarked(fd.data, files[tmp], title, Machine(ram[..], sp, ra, descriptors));
      files := files[tmp := fd.data];
      files := files - {path};
      files := (files - {tmp})[path := files[tmp]];
      r := 0;
    }

    /**
      LoadState. Without a state file it fails and changes nothing. From a state file it restores the
      memory and yields the registers, and the descriptor table if memory for it could be allocated.
    */
    method LoadState(ram: array<byte>, savestateData: array<byte>, tableMemory: bool, ghost m: Machine)
      returns (r: int, sp: nat, ra: nat, descriptors: Option<seq<byte>>)
      requires ram.Length == 2 * PART && savestateData.Length == PART && ram != savestateData
      requires path in files ==> StateFile(files[path], m)
      modifies ram, savestateData
      ensures path !in files ==> r < 0 && ram[..] == old(ram[..])
      ensures path in files ==>
                && r == 0 && ram[..] == m.ram && sp == m.sp && ra == m.ra
                && descriptors == if tableMemory then Some(m.descriptors) else None
    {
      hide Encodes, ParseHeader;
      sp, ra, descriptors := 0, 0, None;
      if path !in files {
        r := -1;
        return;
      }
      var fd := new HostFile(files[path], true);
      ghost var data := fd.data;
      var headerBytes := ReadAt(fd, 0, STATE_HEADER_SIZE);
      var header := ParseHeader(headerBytes);
      HeaderPrefix(data, headerBytes);
      ReadPart(fd, ram, 0, savestateData, header.part1Offset, header.part1Size, m.ram[..PART]);
      ReadPart(fd, ram, PART, savestateData, header.part2Offset, header.part2Size, m.ram[PART..]);
      assert ram[..] == m.ram;
      if tableMemory {
        var bytes := ReadAt(fd, header.descriptorsOffset, header.descriptorsSize);
        descriptors := Some(bytes);
      }
      sp := header.sp;
      ra := header.ra;
      r := 0;
    }

    /** The entry of the states menu for the state in this file: its title and its screenshot, if the magic is there. */
    method ListState() returns (entry: Option<(seq<byte>, seq<byte>)>)
      requires path in files ==> 0x100 <= |files[path]|
      ensures entry == if path in files then Listed(files[path]) else None
    {
      if path !in files {
        return None;
      }
      var fd := new HostFile(files[path], true);
      var header := ReadAt(fd, 0, STATE_HEADER_SIZE);
      HeaderPrefixWords(fd.data, header);
      if Read32(header, 0) != STATE_MAGIC {
        return None;
      }
      var title := NameOf(header[8..0x88]);
      var screenshot := ReadAt(fd, Read32(header, 0x90), Read32(header, 0x94));
      entry := Some((title, screenshot));
    }

    /** Every state that is saved is listed, with its title and the screenshot that the file held before. */
    method SaveAndList(ram: array<byte>, savestateData: array<byte>, sp: nat, ra: nat, title: seq<byte>,
        descriptors: seq<byte>)
      returns (r: int, entry: Option<(seq<byte>, seq<byte>)>)
      requires ram.Length == 2 * PART && savestateData.Length == PART && ram != savestateData
      requires sp < U32_MODULUS && ra < U32_MODULUS && |title| == 0x80 && descriptors != []
      requires STATE_HEADER_SIZE + SCREENSHOT_SIZE + |descriptors| + 2 * PART < U32_MODULUS
      modifies this, savestateData
      ensures r >= 0 <==> Tmp() in old(files)
      ensures r >= 0 ==>
                && entry.Some? && entry.value.0 == NameOf(title) && |entry.value.1| == 240 * 136 * 4
                && var before := old(files[Tmp()]);
                   (0x100 + 240 * 136 * 4 <= |before| ==> entry.value.1 == before[0x100..0x100 + 240 * 136 * 4])
    {
      hide StateFile, ParseHeader, Layout, Compressible;
      r := SaveState(ram, savestateData, sp, ra, title, descriptors);
      entry := None;
      if r >= 0 {
        entry := ListState();
        ghost var before := old(files[Tmp()]);
        ScreenshotStays(files[path], before, title, Machine(ram[..], sp, ra, descriptors));
      }
    }

    /**
      The round trip: what is saved from one memory is loaded into another, whatever that holds, if both
      halves could be compressed, as the sizes in the header of the state file tell.
    */
    method SaveAndLoad(ram: array<byte>, other: array<byte>, savestateData: array<byte>, sp: nat, ra: nat,
        title: seq<byte>, descriptors: seq<byte>)
      returns (r: int, sp': nat, ra': nat, descriptors': Option<seq<byte>>)
      requires ram.Length == other.Length == 2 * PART && savestateData.Length == PART
      requires ram != savestateData && other != savestateData && ram != other
      requires sp < U32_MODULUS && ra < U32_MODULUS && |title| == 0x80 && descriptors != []
      requires STATE_HEADER_SIZE + SCREENSHOT_SIZE + |descriptors| + 2 * PART < U32_MODULUS
      modifies this, other, savestateData
      ensures r >= 0 <==> Tmp() in old(files)
      ensures r >= 0 ==>
                && path in files && STATE_HEADER_SIZE <= |files[path]|
                && var h := ParseHeader(files[path]);
                   h.part1Size > 0 && h.part2Size > 0 ==>
                     other[..] == ram[..] && sp' == sp && ra' == ra && descriptors' == Some(descriptors)
    {
      hide StateFile, ParseHeader, Layout;
      sp', ra', descriptors' := 0, 0, None;
      r := SaveState(ram, savestateData, sp, ra, title, descriptors);
      if r >= 0 {
        var h := ParseHeader(files[path]);
        if h.part1Size > 0 && h.part2Size > 0 {
          r, sp', ra', descriptors' :=
            LoadState(other, savestateData, true, Machine(ram[..], sp, ra, descriptors));
        }
      }
    }
  }

  /**
    Saving a memory without repeats: SaveState reports success and puts the new file in the place of the old
    state, but it is the state of no machine.
  */
  method SaveNoise(savestateData: array<byte>, before: seq<byte>, tmp: seq<byte>, path: string, title: seq<byte>,
      descriptors: seq<byte>)
    returns (d: Device, r: int)
    requires savestateData.Length == PART && |title| == 0x80 && descriptors != []
    requires STATE_HEADER_SIZE + SCREENSHOT_SIZE + |descriptors| + 2 * PART < U32_MODULUS
    modifies savestateData
    ensures r == 0 && d.path == path && path in d.files && forall m: Machine :: !StateFile(d.files[path], m)
  {
    hide StateFile, NoRepeats, NoiseByte, ParseHeader, Layout, Compressible;
    d := new Device(map[path := before, path + ".tmp" := tmp], path);
    var ram := new byte[2 * PART](i requires 0 <= i < 2 * PART => NoiseByte(i));
    assert ram[..][..PART] == Noise(PART);
    NoiseUnrepeated(PART);
    NoiseIncompressible(Noise(PART));
    r := d.SaveState(ram, savestateData, 0, 0, title, descriptors);
    forall m: Machine ensures !StateFile(d.files[path], m) {
      EmptyHalf(d.files[path], m);
    }
  }

  /** The characters before the first zero byte. */
  function NameOf(title: seq<byte>): seq<byte> {
    title[..FirstNul(title, 0)]
  }

  /** What the states menu shows of a file: only a file with the magic is a state. */
  function Listed(data: seq<byte>): Option<(seq<byte>, seq<byte>)>
    requires 0x100 <= |data|
  {
    if Read32(data, 0) == 0x5453_5653 then
      Some((NameOf(data[8..0x88]), Slice(data, Read32(data, 0x90), Read32(data, 0x94))))
    else None
  }

  lemma HeaderPrefixWords(data: seq<byte>, b: seq<byte>)
    requires STATE_HEADER_SIZE <= |data| && b == data[0..STATE_HEADER_SIZE]
    ensures Read32(b, 0) == Read32(data, 0) && b[8..0x88] == data[8..0x88]
    ensures Read32(b, 0x90) == Read32(data, 0x90) && Read32(b, 0x94) == Read32(data, 0x94)
  {
  }

  lemma ScreenshotStays(data: seq<byte>, before: seq<byte>, title: seq<byte>, m: Machine)
    requires StateOver(data, before, title, m)
    ensures var shot := Slice(data, 0x100, 240 * 136 * 4);
            && Listed(data) == Some((NameOf(title), shot)) && |shot| == 240 * 136 * 4
            && (0x100 + 240 * 136 * 4 <= |before| ==> shot == before[0x100..0x100 + 240 * 136 * 4])
  {
    hide StateFile, ParseHeader, Layout, Compressible;
    var shot := Slice(data, 0x100, 240 * 136 * 4);
    if 0x100 + 240 * 136 * 4 <= |before| {
      var b := before[0x100..0x100 + 240 * 136 * 4];
      forall k | 0 <= k < |b| ensures shot[k] == b[k] {
        assert b[k] == before[0x100 + k] == data[0x100 + k];
      }
    }
  }

  lemma OverMarked(data: seq<byte>, before: seq<byte>, title: seq<byte>, m: Machine)
    requires StateOver(data, before, title, m)
    ensures Marked(data, title, m)
  {
    hide Marked;
  }

  /** The four writes leave header, descriptors and both blocks in place, and the screenshot alone. */
  lemma StateWritten(before: seq<byte>, descriptors: seq<byte>, block1: seq<byte>, block2: seq<byte>, h: Header,
      d1: seq<byte>, d2: seq<byte>, d3: seq<byte>, d4: seq<byte>)
    requires FitsWords(h) && descriptors != []
    requires h.descriptorsOffset == STATE_HEADER_SIZE + SCREENSHOT_SIZE
    requires h.part1Offset == h.descriptorsOffset + |descriptors| && h.part2Offset == h.part1Offset + |block1|
    requires d1 == Overwritten(before, h.descriptorsOffset, descriptors)
    requires d2 == Overwritten(d1, h.part1Offset, block1)
    requires d3 == Overwritten(d2, h.part2Offset, block2)
    requires d4 == Overwritten(d3, 0, HeaderBytes(h))
    ensures STATE_HEADER_SIZE <= |d4| && ParseHeader(d4) == h && HeaderWords(d4, h)
    ensures At(d4, h.descriptorsOffset, descriptors)
    ensures block1 != [] ==> At(d4, h.part1Offset, block1)
    ensures block2 != [] ==> At(d4, h.part2Offset, block2)
    ensures forall k :: STATE_HEADER_SIZE <= k < h.descriptorsOffset && k < |before| ==> k < |d4| && d4[k] == before[k]
  {
    hide HeaderBytes, ParseHeader, At, Overwritten, HeaderWords;
    Present(before, h.descriptorsOffset, descriptors);
    Kept(d1, h.part1Offset, block1, h.descriptorsOffset, descriptors);
    Kept(d2, h.part2Offset, block2, h.descriptorsOffset, descriptors);
    Kept(d3, 0, HeaderBytes(h), h.descriptorsOffset, descriptors);
    if block1 != [] {
      Present(d1, h.part1Offset, block1);
      Kept(d2, h.part2Offset, block2, h.part1Offset, block1);
      Kept(d3, 0, HeaderBytes(h), h.part1Offset, block1);
    }
    if block2 != [] {
      Present(d2, h.part2Offset, block2);
      Kept(d3, 0, HeaderBytes(h), h.part2Offset, block2);
    }
    HeaderInPlace(d3, h);
    KeptBetween(before, h.descriptorsOffset, descriptors, STATE_HEADER_SIZE, h.descriptorsOffset);
    KeptBetween(d1, h.part1Offset, block1, STATE_HEADER_SIZE, h.descriptorsOffset);
    KeptBetween(d2, h.part2Offset, block2, STATE_HEADER_SIZE, h.descriptorsOffset);
    KeptBetween(d3, 0, HeaderBytes(h), STATE_HEADER_SIZE, h.descriptorsOffset);
  }

  lemma KeptBetween(data: seq<byte>, i: nat, piece: seq<byte>, lo: nat, hi: nat)
    requires hi <= i || i + |piece| <= lo
    ensures var r := Overwritten(data, i, piece);
            |data| <= |r| && forall k :: lo <= k < hi && k < |data| ==> r[k] == data[k]
  {
    hide Overwritten;
    OverwrittenAt(data, i, piece);
  }

  lemma HeaderInPlace(d: seq<byte>, h: Header)
    requires FitsWords(h)
    ensures var r := Overwritten(d, 0, HeaderBytes(h));
            STATE_HEADER_SIZE <= |r| && ParseHeader(r) == h && HeaderWords(r, h)
  {
    hide HeaderBytes, ParseHeader, HeaderWords;
    var r := Overwritten(d, 0, HeaderBytes(h));
    assert r == HeaderBytes(h) + r[STATE_HEADER_SIZE..];
    HeaderReads(h, r[STATE_HEADER_SIZE..]);
    WordsStand(h, r[STATE_HEADER_SIZE..]);
  }

  lemma StateHolds(d: seq<byte>, h: Header, m: Machine, block1: seq<byte>, block2: seq<byte>)
    requires |m.ram| == 2 * PART && STATE_HEADER_SIZE <= |d| && ParseHeader(d) == h && h.sp == m.sp && h.ra == m.ra
    requires h.descriptorsSize == |m.descriptors| && At(d, h.descriptorsOffset, m.descriptors)
    requires h.part1Size == |block1| <= PART && At(d, h.part1Offset, block1) && Encodes(block1, m.ram[..PART])
    requires h.part2Size == |block2| <= PART && At(d, h.part2Offset, block2) && Encodes(block2, m.ram[PART..])
    ensures StateFile(d, m)
  {
    hide Encodes, ParseHeader;
  }

  // ----- loading

  /** Reads the block of one half into the temporary buffer and expands it at `start`. */
  method ReadPart(fd: HostFile, ram: array<byte>, start: nat, savestateData: array<byte>, offset: nat, size: nat,
      ghost part: seq<byte>)
    requires start + PART <= ram.Length && savestateData.Length == PART && ram != savestateData
    requires size <= PART && offset + size <= |fd.data| && |part| == PART && Encodes(Slice(fd.data, offset, size), part)
    requires fd.reliable && fd.alive
    modifies fd, ram, savestateData
    ensures fd.alive && fd.data == old(fd.data)
    ensures ram[..] == old(ram[..start]) + part + old(ram[start + PART..])
  {
    hide Encodes;
    var bytes := ReadAt(fd, offset, size);
    forall k | 0 <= k < |bytes| {
      savestateData[k] := bytes[k];
    }
    ghost var block := Slice(fd.data, offset, size);
    assert bytes == block && savestateData[..][..size] == block;
    var r := DecompressFast(savestateData[..], ram, start, PART, block, part);
  }

  lemma HeaderPrefix(data: seq<byte>, b: seq<byte>)
    requires STATE_HEADER_SIZE <= |data| && b == data[0..STATE_HEADER_SIZE]
    ensures ParseHeader(b) == ParseHeader(data)
  {
    assert b[8..0x88] == data[8..0x88];
  }
}
