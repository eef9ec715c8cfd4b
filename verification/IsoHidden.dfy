/** Directories as a mastering tool writes them, with files that the driver does not find. */
module IsoHidden {
  import opened Bytes
  import opened Errors
  import opened Iso
  import opened IsoDriver

  /** Four bytes, most significant first. */
  function Be32(v: nat): (s: seq<byte>)
    ensures |s| == 4
  {
    [v / 0x100_0000 % 256, v / 0x1_0000 % 256, v / 256 % 256, v % 256]
  }

  predicate Packable(e: Entry) {
    1 <= |e.id| <= 100 && Ends(e.id)
    && e.record.lba < 0x8000_0000 && e.record.size < U32_MODULUS && e.record.flags < 256
  }

  function RecordSize(e: Entry): nat {
    33 + |e.id| + if |e.id| % 2 == 0 then 1 else 0
  }

  /** A directory record (ECMA-119, section 9.1): both byte orders, no date, a pad byte behind an even identifier. */
  function RecordBytes(e: Entry): (s: seq<byte>)
    requires Packable(e)
    ensures |s| == RecordSize(e)
  {
    [RecordSize(e), 0] + Le32(e.record.lba) + Be32(e.record.lba) + Le32(e.record.size) + Be32(e.record.size)
    + Repeat(0, 7) + [e.record.flags, 0, 0, 1, 0, 0, 1, |e.id|] + e.id
    + (if |e.id| % 2 == 0 then [0] else [])
  }

  lemma RecordParses(d: seq<byte>, p: nat, e: Entry)
    requires Packable(e) && At(d, p, RecordBytes(e)) && p % SECTOR_SIZE + RecordSize(e) <= SECTOR_SIZE
    ensures GoodRecord(d, p) && d[p] == RecordSize(e) && EntryAt(d, p) == e
  {
    hide Le32, Be32, Repeat, Read32;
    var b := RecordBytes(e);
    var slice := d[p..p + |b|];
    assert d[p] == slice[0] && d[p + 32] == slice[32] && d[p + 25] == slice[25];
    RecordFields(e);
    Field(d, p, b, 2, Le32(e.record.lba));
    Field(d, p, b, 10, Le32(e.record.size));
    Field(d, p, b, 33, e.id);
    Read32OfLe32(d, p + 2, e.record.lba);
    Read32OfLe32(d, p + 10, e.record.size);
  }

  lemma RecordFields(e: Entry)
    requires Packable(e)
    ensures var b := RecordBytes(e);
            && b[0] == RecordSize(e) && b[25] == e.record.flags && b[32] == |e.id|
            && At(b, 2, Le32(e.record.lba)) && At(b, 10, Le32(e.record.size)) && At(b, 33, e.id)
  {
    hide Le32, Be32, Repeat;
  }

  lemma Field(d: seq<byte>, p: nat, b: seq<byte>, i: nat, f: seq<byte>)
    requires At(d, p, b) && At(b, i, f)
    ensures At(d, p + i, f)
  {
    AtInside(d, p, b, i, f);
  }

  predicate AllPackable(es: seq<Entry>) {
    forall i :: 0 <= i < |es| ==> Packable(es[i])
  }

  /** Records one after the other. */
  function Pack(es: seq<Entry>): seq<byte>
    requires AllPackable(es)
  {
    if es == [] then [] else RecordBytes(es[0]) + Pack(es[1..])
  }

  function LastSize(es: seq<Entry>, last: nat): nat {
    if es == [] then last else LastSize(es[1..], RecordSize(es[0]))
  }

  /** The bytes at `p` read as the entries and then as what follows them, by the directory as by the scan. */
  ghost predicate ReadsAs(d: seq<byte>, p: nat, es: seq<Entry>, last: nat, lba: nat)
    requires AllPackable(es)
  {
    var q := p + |Pack(es)|;
    && GoodFrom(d, p) && GoodFrom(d, q) && Entries(d, p) == es + Entries(d, q)
    && Reached(d, p, last, lba) == es + Reached(d, q, LastSize(es, last), lba)
  }

  /** Packed records read back. */
  lemma {:induction false} PackedReads(d: seq<byte>, p: nat, es: seq<Entry>, last: nat, lba: nat)
    requires AllPackable(es) && At(d, p, Pack(es)) && p % SECTOR_SIZE + |Pack(es)| <= SECTOR_SIZE
    requires GoodFrom(d, p + |Pack(es)|)
    ensures ReadsAs(d, p, es, last, lba)
    decreases |es|
  {
    hide At, RecordBytes, GoodRecord, EntryAt, GoodFrom, Entries, Reached;
    if es != [] {
      var n := RecordSize(es[0]);
      AtSplit(d, p, RecordBytes(es[0]), Pack(es[1..]));
      AtFits(d, p, Pack(es));
      RecordParses(d, p, es[0]);
      if Pack(es[1..]) != [] {
        SameSector(p, n);
      }
      PackedReads(d, p + n, es[1..], n, lba);
      FirstReads(d, p, es, last, lba);
    }
  }

  lemma FirstReads(d: seq<byte>, p: nat, es: seq<Entry>, last: nat, lba: nat)
    requires es != [] && AllPackable(es) && GoodRecord(d, p) && EntryAt(d, p) == es[0] && d[p] == RecordSize(es[0])
    requires ReadsAs(d, p + RecordSize(es[0]), es[1..], RecordSize(es[0]), lba)
    ensures ReadsAs(d, p, es, last, lba)
  {
    hide RecordBytes, GoodRecord, EntryAt, GoodFrom, Entries, Reached;
    RecordFits(d, p);
    EntriesStep(d, p);
    ReachedStep(d, p, last, lba);
    var q := p + |Pack(es)|;
    assert q == p + RecordSize(es[0]) + |Pack(es[1..])|;
    FirstAndRest(es, Entries(d, q));
    FirstAndRest(es, Reached(d, q, LastSize(es, last), lba));
  }

  lemma FirstAndRest(es: seq<Entry>, more: seq<Entry>)
    requires es != []
    ensures [es[0]] + (es[1..] + more) == es + more
  {
  }

  lemma EntriesStep(d: seq<byte>, p: nat)
    requires GoodRecord(d, p) && d[p] != 0 && GoodFrom(d, p + d[p] as int)
    ensures GoodFrom(d, p) && Entries(d, p) == [EntryAt(d, p)] + Entries(d, p + d[p] as int)
  {
    hide EntryAt;
  }

  lemma RecordFits(d: seq<byte>, p: nat)
    requires GoodRecord(d, p)
    ensures p < |d|
  {
  }

  lemma SameSector(p: nat, n: nat)
    requires p % SECTOR_SIZE + n < SECTOR_SIZE
    ensures (p + n) % SECTOR_SIZE == p % SECTOR_SIZE + n
  {
  }

  // ----- the directory

  const FILE := Record(100, 4096, 0)
  const SELF := Record(20, 2 * SECTOR_SIZE, DIRECTORY_FLAG)

  /** A file name of 31 characters: 29 letters and two digits. */
  function LongName(k: nat): (id: seq<byte>)
    requires k < 100
    ensures |id| == 31 && id[0] == 65
  {
    Repeat(65, 29) + [48 + k / 10, 48 + k % 10]
  }

  function LongNames(n: nat): (es: seq<Entry>)
    requires n <= 100
    ensures |es| == n && forall i :: 0 <= i < n ==> |es[i].id| == 31 && es[i].id[0] == 65 && Packable(es[i])
  {
    seq(n, i requires 0 <= i < n => Entry(FILE, LongName(i)))
  }

  /** The directory itself, its parent, 29 files, one of 7 characters and one of a single one, in order of names. */
  function FirstSector(): (es: seq<Entry>)
    ensures AllPackable(es)
  {
    [Entry(SELF, [0]), Entry(SELF, [1])] + LongNames(29) + [Entry(FILE, Repeat(66, 7)), Entry(FILE, [67])]
  }

  /** The name of the file that comes last; its record does not fit the 50 bytes left of the first sector. */
  const LAST_NAME: seq<byte> := Repeat(68, 31)

  const LAST := Entry(FILE, LAST_NAME)

  lemma {:induction false} LongSize(es: seq<Entry>)
    requires AllPackable(es) && forall i :: 0 <= i < |es| ==> |es[i].id| == 31
    ensures |Pack(es)| == 64 * |es|
  {
    if es != [] {
      LongSize(es[1..]);
    }
  }

  lemma {:induction false} PackConcat(a: seq<Entry>, b: seq<Entry>)
    requires AllPackable(a) && AllPackable(b)
    ensures AllPackable(a + b) && Pack(a + b) == Pack(a) + Pack(b)
  {
    hide RecordBytes, Packable;
    if a == [] {
      assert a + b == b;
    } else {
      PackConcat(a[1..], b);
      assert (a + b)[1..] == a[1..] + b;
    }
  }

  lemma {:induction false} LastConcat(a: seq<Entry>, b: seq<Entry>, last: nat)
    ensures LastSize(a + b, last) == LastSize(b, LastSize(a, last))
  {
    if a == [] {
      assert a + b == b;
    } else {
      LastConcat(a[1..], b, RecordSize(a[0]));
      assert (a + b)[1..] == a[1..] + b;
    }
  }

  lemma PackTwo(x: Entry, y: Entry)
    requires Packable(x) && Packable(y)
    ensures |Pack([x, y])| == RecordSize(x) + RecordSize(y) && LastSize([x, y], 0) == RecordSize(y)
  {
    hide RecordBytes;
    PackOne(y);
    assert [x, y][1..] == [y];
    assert LastSize([y], RecordSize(x)) == LastSize([], RecordSize(y));
  }

  lemma PackOne(y: Entry)
    requires Packable(y)
    ensures Pack([y]) == RecordBytes(y) && |Pack([y])| == RecordSize(y)
  {
    hide RecordBytes;
    assert [y][1..] == [];
    assert Pack([]) == [];
  }

  lemma LastOfTwo(x: Entry, y: Entry, last: nat)
    ensures LastSize([x, y], last) == RecordSize(y)
  {
    assert [x, y][1..] == [y] && [y][1..] == [];
    assert LastSize([y], RecordSize(x)) == LastSize([], RecordSize(y));
  }

  lemma FirstSize()
    ensures |Pack(FirstSector())| == SECTOR_SIZE - 50 && LastSize(FirstSector(), 0) == 34
  {
    hide Pack, RecordBytes, LongNames, LastSize;
    var a: seq<Entry> := [Entry(SELF, [0]), Entry(SELF, [1])];
    var b := LongNames(29);
    var c: seq<Entry> := [Entry(FILE, Repeat(66, 7)), Entry(FILE, [67])];
    PackTwo(a[0], a[1]);
    LongSize(b);
    PackTwo(c[0], c[1]);
    assert a == [a[0], a[1]] && c == [c[0], c[1]];
    PackConcat(a, b);
    PackConcat(a + b, c);
    LastConcat(a + b, c, 0);
    LastOfTwo(c[0], c[1], LastSize(a + b, 0));
  }

  function Directory(): (d: seq<byte>)
  {
    Pack(FirstSector()) + Repeat(0, 50) + RecordBytes(LAST) + Repeat(0, SECTOR_SIZE - 64)
  }

  lemma DirectoryParts()
    ensures var d := Directory();
            && |d| == 2 * SECTOR_SIZE && At(d, 0, Pack(FirstSector())) && d[SECTOR_SIZE - 50] == 0
            && At(d, SECTOR_SIZE, RecordBytes(LAST)) && d[SECTOR_SIZE + 64] == 0
  {
    hide Pack, RecordBytes, FirstSector;
    FirstSize();
  }

  lemma DirectoryReads(lba: nat)
    ensures var d := Directory();
            && GoodFrom(d, 0) && Entries(d, 0) == FirstSector() + [LAST]
            && Reached(d, 0, 0, lba) == FirstSector()
  {
    hide Directory, Pack, RecordBytes, FirstSector, Gap, At;
    var d := Directory();
    DirectoryParts();
    FirstSize();
    SecondSector(d);
    var p := SECTOR_SIZE - 50;
    assert NextSector(p) == SECTOR_SIZE;
    GapExactly(lba, p);
    assert GoodFrom(d, p) && Entries(d, p) == [LAST] && Reached(d, p, 34, lba) == [];
    PackedReads(d, 0, FirstSector(), 0, lba);
  }

  lemma SecondSector(d: seq<byte>)
    requires |d| == 2 * SECTOR_SIZE && At(d, SECTOR_SIZE, RecordBytes(LAST)) && d[SECTOR_SIZE + 64] == 0
    ensures GoodFrom(d, SECTOR_SIZE) && Entries(d, SECTOR_SIZE) == [LAST]
  {
    hide RecordBytes, GoodRecord, EntryAt;
    RecordParses(d, SECTOR_SIZE, LAST);
    assert NextSector(SECTOR_SIZE + 64) == 2 * SECTOR_SIZE;
    assert GoodFrom(d, 2 * SECTOR_SIZE) && Entries(d, 2 * SECTOR_SIZE) == [];
    assert GoodFrom(d, SECTOR_SIZE + 64) && Entries(d, SECTOR_SIZE + 64) == [];
  }

  // ----- lookups

  lemma {:induction false} LookupSkips(es: seq<Entry>, rest: seq<Entry>, name: seq<byte>)
    requires Named(es) && Named(rest) && forall i :: 0 <= i < |es| ==> EntryName(es[i]) != name
    ensures Named(es + rest) && Lookup(es + rest, name, false) == Lookup(rest, name, false)
  {
    if es == [] {
      assert es + rest == rest;
    } else {
      LookupSkips(es[1..], rest, name);
      assert (es + rest)[1..] == es[1..] + rest;
    }
  }

  lemma {:induction false} PlainEnd(id: seq<byte>, i: nat)
    requires i <= |id| && forall k :: i <= k < |id| ==> id[k] != 0 && id[k] != 59
    ensures NameEnd(id, i) == |id|
    decreases |id| - i
  {
    if i < |id| {
      PlainEnd(id, i + 1);
    }
  }

  lemma OtherName(e: Entry)
    requires e.id != [] && e.id[0] != 68
    ensures EntryName(e) != LAST_NAME
  {
    assert LAST_NAME[0] == 68 && |LAST_NAME| == 31;
  }

  /** The file that does not fit the first sector is in the directory, but no search for its name finds it. */
  lemma HiddenRecord(lba: nat)
    ensures var d := Directory();
            && GoodFrom(d, 0) && Named(Entries(d, 0)) && Named(Reached(d, 0, 0, lba))
            && Lookup(Entries(d, 0), LAST_NAME, false) == Found(FILE)
            && Search(Reached(d, 0, 0, lba), LAST_NAME, false) == Error(ENOENT)
  {
    hide Directory, Entries, Reached, GoodFrom, EntryName;
    DirectoryReads(lba);
    var es := FirstSector();
    forall i | 0 <= i < |es| ensures es[i].id != [] && EntryName(es[i]) != LAST_NAME {
      OtherName(es[i]);
    }
    LookupSkips(es, [LAST], LAST_NAME);
    LastFound();
    NoneFound(es, LAST_NAME);
  }

  /** No name of that kind, and none too long: nothing is found. */
  lemma NoneFound(es: seq<Entry>, name: seq<byte>)
    requires Named(es) && NoneLong(es) && forall i :: 0 <= i < |es| ==> EntryName(es[i]) != name
    ensures Search(es, name, false) == Error(ENOENT)
  {
    hide EntryName, Search, Lookup, TooLong;
    SearchExactly(es, es, name, false);
    LookupErrors(es, name, false);
  }

  lemma LastFound()
    ensures Lookup([LAST], LAST_NAME, false) == Found(FILE)
  {
    PlainEnd(LAST_NAME, 0);
    assert EntryName(LAST) == LAST_NAME;
  }

  lemma HiddenLook(disc: seq<byte>, dir: Record)
    requires disc == Directory() && dir == Record(0, 2 * SECTOR_SIZE, DIRECTORY_FLAG)
    ensures Searchable(disc, dir) && Look(disc, dir, LAST_NAME, false, true) == Error(ENOENT)
  {
    hide Directory, Look, Searchable, Entries, Reached, GoodFrom, Lookup, Search;
    HiddenRecord(0);
    DirectoryParts();
    WholeDisc(disc, 2, LAST_NAME);
  }

  /** A disc that is one directory. */
  lemma WholeDisc(disc: seq<byte>, n: nat, name: seq<byte>)
    requires |disc| == n * SECTOR_SIZE && n <= 8 && GoodFrom(disc, 0)
    ensures var dir := Record(0, n * SECTOR_SIZE, DIRECTORY_FLAG);
            && Searchable(disc, dir) && Named(Reached(disc, 0, 0, 0))
            && Look(disc, dir, name, false, true) == Search(Reached(disc, 0, 0, 0), name, false)
  {
    hide Reached, GoodFrom, Search;
    var dir := Record(0, n * SECTOR_SIZE, DIRECTORY_FLAG);
    assert SizeToSectors(dir.size) == n;
    assert DirBytes(disc, dir) == disc;
    ReachedNamed(disc, 0, 0, 0);
  }

  /** The driver on that directory, at sector 0 of a disc: the file is not found. */
  method FindHidden() returns (o: Outcome)
    ensures o == Error(ENOENT)
  {
    hide Directory, Look, Searchable, GoodDirectory;
    var disc, dir := Directory(), Record(0, 2 * SECTOR_SIZE, DIRECTORY_FLAG);
    var driver := new Driver(disc, dir);
    HiddenLook(disc, dir);
    o := driver.FindFile(LAST_NAME, dir, false);
  }

  // ----- an identifier that is too long

  /** A directory of one sector: itself, its parent, a file of 27 + 3 characters, and a file with a short name. */
  function Crowded(): (es: seq<Entry>)
    ensures AllPackable(es) && Named(es)
  {
    [Entry(SELF, [0]), Entry(SELF, [1]), Entry(FILE, Repeat(65, 27) + [46, 66, 66, 66, 59, 49]), Entry(FILE, [67])]
  }

  function CrowdedDirectory(): seq<byte> {
    Pack(Crowded()) + Repeat(0, SECTOR_SIZE - 168)
  }

  lemma CrowdedParts()
    ensures |Pack(Crowded())| == 168 && At(CrowdedDirectory(), 0, Pack(Crowded()))
    ensures |CrowdedDirectory()| == SECTOR_SIZE && CrowdedDirectory()[168] == 0
  {
    hide Pack, RecordBytes;
    var es := Crowded();
    PackTwo(es[0], es[1]);
    PackTwo(es[2], es[3]);
    assert es == [es[0], es[1]] + [es[2], es[3]];
    PackConcat([es[0], es[1]], [es[2], es[3]]);
  }

  lemma CrowdedReads(lba: nat)
    ensures var d := CrowdedDirectory();
            && GoodFrom(d, 0) && Entries(d, 0) == Crowded() && GapsShort(d, 0, 0, lba)
  {
    hide CrowdedDirectory, Crowded, Pack, RecordBytes, At, Gap;
    var d := CrowdedDirectory();
    CrowdedParts();
    assert NextSector(168) == SECTOR_SIZE;
    assert GoodFrom(d, SECTOR_SIZE) && Entries(d, SECTOR_SIZE) == [];
    assert GoodFrom(d, 168) && Entries(d, 168) == [];
    var last := LastSize(Crowded(), 0);
    GapExactly(lba, 168);
    assert Reached(d, 168, last, lba) == [];
    PackedReads(d, 0, Crowded(), 0, lba);
    ReachedEntries(d, 0, 0, lba);
  }

  /** The gaps are short, the file is there, and the driver refuses to look it up. */
  lemma RefusedRecord(lba: nat)
    ensures var d := CrowdedDirectory();
            && GoodFrom(d, 0) && GapsShort(d, 0, 0, lba) && Named(Entries(d, 0)) && Named(Reached(d, 0, 0, lba))
            && Lookup(Entries(d, 0), [67], false) == Found(FILE)
            && Search(Reached(d, 0, 0, lba), [67], false) == Error(EINVAL)
  {
    hide CrowdedDirectory, Entries, Reached, GapsShort, GoodFrom;
    CrowdedReads(lba);
    ReachedEntries(CrowdedDirectory(), 0, 0, lba);
    var es := Crowded();
    assert es[1..][0] == es[1] && es[1..][1..] == es[2..] && es[2..][0] == es[2] && es[2..][1..] == es[3..];
    assert es[3..][0] == es[3];
    PlainEnd([67], 0);
    OtherStart(es[2], [67]);
    assert Lookup(es[3..], [67], false) == Found(FILE);
    assert Lookup(es[2..], [67], false) == Found(FILE);
    assert Lookup(es[1..], [67], false) == Found(FILE);
    assert Search(es[2..], [67], false) == Error(EINVAL);
    assert Search(es[1..], [67], false) == Error(EINVAL);
  }

  lemma OtherStart(e: Entry, name: seq<byte>)
    requires e.id != [] && name != [] && e.id[0] > 1 && e.id[0] != name[0]
    ensures EntryName(e) != name
  {
    var n := NormalName(e.id);
    assert n == [] || n[0] == e.id[0];
  }

  lemma CrowdedLook(disc: seq<byte>, dir: Record)
    requires disc == CrowdedDirectory() && dir == Record(0, SECTOR_SIZE, DIRECTORY_FLAG)
    ensures Searchable(disc, dir) && Look(disc, dir, [67], false, true) == Error(EINVAL)
  {
    hide CrowdedDirectory, Look, Searchable, Entries, Reached, GoodFrom, GapsShort, Lookup, Search;
    RefusedRecord(0);
    CrowdedParts();
    WholeDisc(disc, 1, [67]);
  }

  /** The driver on that directory: EINVAL, for the file behind the long name. */
  method FindBehind() returns (o: Outcome)
    ensures o == Error(EINVAL)
  {
    hide CrowdedDirectory, Look, Searchable, GoodDirectory;
    var disc, dir := CrowdedDirectory(), Record(0, SECTOR_SIZE, DIRECTORY_FLAG);
    var driver := new Driver(disc, dir);
    CrowdedLook(disc, dir);
    o := driver.FindFile([67], dir, false);
  }
}
