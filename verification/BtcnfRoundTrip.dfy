/** Builder, parser and extractor agree on one list of records. */
module BtcnfRoundTrip {
  import opened Bytes
  import opened Btcnf
  import opened BtcnfText
  import opened BtcnfParse
  import opened BtcnfBuild

  // ----- what a built image holds

  /** The attributes the builder gives a module with these flags. */
  function BuiltAttributes(flags: nat): (a: seq<byte>)
    ensures |a| == MODULE_SIZE - 4
  {
    Le32(0) + Le32(flags) + Le32(0) + Repeat(0, 16)
  }

  function BuiltRecord(r: ModuleRecord): Record
    requires IsAscii(r.path)
  {
    Record(Encoded(r.path), BuiltAttributes(Flags(r)))
  }

  predicate NulFreePaths(rs: seq<ModuleRecord>)
    requires AsciiPaths(rs)
  {
    forall i :: 0 <= i < |rs| ==> NulFree(Encoded(rs[i].path))
  }

  /** The name of every record stands at its offset. */
  lemma {:induction false} EntryNames(rs: seq<ModuleRecord>, i: nat)
    requires AsciiPaths(rs) && NulFreePaths(rs) && i < |rs|
    ensures var e := Entries(rs)[i];
            e.offset < |Names(rs)| && Terminated(Names(rs), e.offset)
                && NameAt(Names(rs), e.offset) == Encoded(rs[i].path)
    decreases |rs|
  {
    hide NameAt, Terminated, Encoded;
    var n := |rs| - 1;
    var init, last := rs[..n], Encoded(rs[n].path);
    assert NulFree(last);
    assert NulFreePaths(init) by {
      assert forall k :: 0 <= k < |init| ==> init[k] == rs[k];
    }
    if i < n {
      EntryNames(init, i);
      NameKept(Names(init), last + [0], Entries(init)[i].offset);
    } else {
      NameAppended(Names(init), last, []);
      assert Names(init) + (last + [0]) + [] == Names(rs);
    }
  }

  /** Sorting the entries sorts the records. */
  lemma {:induction false} BucketRecords(es: seq<Entry>, rs: seq<ModuleRecord>, k: nat)
    requires |es| == |rs| && forall i :: 0 <= i < |rs| ==> es[i].record == rs[i]
    ensures |Bucket(es, EntryKey, k)| == |Bucket(rs, RecordKey, k)|
    ensures forall i :: 0 <= i < |Bucket(es, EntryKey, k)| ==>
            Bucket(es, EntryKey, k)[i].record == Bucket(rs, RecordKey, k)[i]
    decreases |rs|
  {
    if rs != [] {
      BucketRecords(es[..|es| - 1], rs[..|rs| - 1], k);
    }
  }

  lemma {:induction false} SortRecords(es: seq<Entry>, rs: seq<ModuleRecord>, k: nat)
    requires |es| == |rs| && forall i :: 0 <= i < |rs| ==> es[i].record == rs[i]
    ensures |SortBelow(es, EntryKey, k)| == |SortBelow(rs, RecordKey, k)|
    ensures forall i :: 0 <= i < |SortBelow(es, EntryKey, k)| ==>
            SortBelow(es, EntryKey, k)[i].record == SortBelow(rs, RecordKey, k)[i]
    decreases k
  {
    hide Bucket, SortBelow, EntryKey, RecordKey;
    SortStep(es, EntryKey, k);
    SortStep(rs, RecordKey, k);
    if k > 0 {
      SortRecords(es, rs, k - 1);
      BucketRecords(es, rs, k - 1);
    }
  }

  /** The records in the order in which the builder emits their entries. */
  function Sorted(rs: seq<ModuleRecord>): seq<ModuleRecord> {
    StableSort(rs, RecordKey)
  }

  lemma SortedEntriesFacts(rs: seq<ModuleRecord>)
    requires AsciiPaths(rs)
    ensures |SortedEntries(rs)| == |rs| == |Sorted(rs)|
    ensures forall i :: 0 <= i < |rs| ==>
              SortedEntries(rs)[i].record == Sorted(rs)[i] && Sorted(rs)[i] in rs && SortedEntries(rs)[i] in Entries(rs)
  {
    SortedLength(rs, RecordKey);
    SortRecords(Entries(rs), rs, 6);
    SortedAscends(Entries(rs), EntryKey, 6);
    SortedAscends(rs, RecordKey, 6);
  }

  lemma ModuleEntryFields(e: Entry)
    requires e.offset < U32_MODULUS
    ensures Read32(ModuleEntry(e), 0) == e.offset && ModuleEntry(e)[4..] == BuiltAttributes(Flags(e.record))
  {
    hide Le32;
    var b := ModuleEntry(e);
    assert b[0..4] == Le32(e.offset);
    Read32OfLe32(b, 0, e.offset);
    assert b[4..] == Le32(0) + Le32(Flags(e.record)) + Le32(0) + Repeat(0, 16);
  }

  lemma HeaderReads(ws: seq<int>, rest: seq<byte>, k: nat)
    requires |ws| == 16 && k < 16 && 0 <= ws[k] < U32_MODULUS
    ensures |Flatten(WordBlocks(ws))| == HEADER_SIZE
    ensures Word(Flatten(WordBlocks(ws)) + rest, k) == ws[k]
  {
    hide Le32, Flatten, Read32;
    var bs := WordBlocks(ws);
    FlattenSize(bs, 4);
    FlattenAt(bs, 4, k, 4 * k);
    var image := Flatten(bs) + rest;
    assert image[4 * k..4 * k + 4] == bs[k];
    Read32OfLe32(image, 4 * k, ws[k]);
  }

  /** The four regions of a built image. */
  lemma BuiltRegions(devkit: int, rs: seq<ModuleRecord>)
    requires AsciiPaths(rs) && Fits(devkit, rs)
    ensures var image := Image(devkit, rs);
            var modes := Flatten(ModeEntries(rs, 8));
            && |modes| == MODE_SIZE * |ModeEntries(rs, 8)|
            && GoodLayout(image) && Word(image, 0) == MAGIC && Word(image, DEVKIT) == devkit
            && Word(image, MODE_START) == HEADER_SIZE && Word(image, MODE_COUNT) == |ModeEntries(rs, 8)|
            && Word(image, MODULE_COUNT) == |rs| && Word(image, NAME_END) == |image|
            && image[HEADER_SIZE..HEADER_SIZE + |modes|] == modes
            && Table(image) == Flatten(ModuleEntries(SortedEntries(rs)))
            && Pool(image) == Names(rs)
  {
    hide Flatten, Read32, ModeEntries, WordBlocks, Names, SortedEntries, ModuleEntries, Word;
    SortedEntriesFacts(rs);
    var modes, table := Flatten(ModeEntries(rs, 8)), Flatten(ModuleEntries(SortedEntries(rs)));
    FlattenSize(ModeEntries(rs, 8), MODE_SIZE);
    FlattenSize(ModuleEntries(SortedEntries(rs)), MODULE_SIZE);
    var ws := HeaderWords(devkit, |ModeEntries(rs, 8)|, |rs|, |Names(rs)|);
    var head := Flatten(WordBlocks(ws));
    var image := head + modes + table + Names(rs);
    assert image == head + (modes + table + Names(rs));
    HeaderReads(ws, modes + table + Names(rs), 0);
    forall k: nat | k < 16 ensures |head| == HEADER_SIZE && Word(image, k) == ws[k] {
      HeaderReads(ws, modes + table + Names(rs), k);
    }
    assert Word(image, 0) == ws[0] && Word(image, DEVKIT) == ws[1] && Word(image, MODE_START) == ws[4];
    assert Word(image, MODE_COUNT) == ws[5] && Word(image, MODULE_START) == ws[8] && Word(image, MODULE_COUNT) == ws[9];
    assert Word(image, NAME_START) == ws[12] && Word(image, NAME_END) == ws[13];
  }

  lemma BuiltModes(devkit: int, rs: seq<ModuleRecord>)
    requires AsciiPaths(rs) && Fits(devkit, rs)
    ensures GoodLayout(Image(devkit, rs)) && ModesSearch(Image(devkit, rs), |rs|)
  {
    hide Flatten, Read32, Read16, Names, SortedEntries, ModuleEntries, Image, ModeEntry, Uses;
    BuiltRegions(devkit, rs);
    var image := Image(devkit, rs);
    var bs := ModeEntries(rs, 8);
    var modes := Flatten(bs);
    forall j: nat | j < Word(image, MODE_COUNT) ensures MaxSearch(image, j) == |rs| {
      FlattenAt(bs, MODE_SIZE, j, MODE_SIZE * j);
      var p := MODE_SIZE * j;
      SliceRead16(image, HEADER_SIZE, modes, p, bs[j]);
      var k: nat :| k < 8 && bs[j] == ModeEntry(|rs|, k);
      ModeEntryCount(|rs|, k);
    }
  }

  lemma SliceRead16(image: seq<byte>, lo: nat, part: seq<byte>, p: nat, b: seq<byte>)
    requires lo + |part| <= |image| && image[lo..lo + |part|] == part
    requires |b| >= 2 && p + |b| <= |part| && part[p..p + |b|] == b
    ensures Read16(image, lo + p) == Read16(b, 0)
  {
    assert image[lo + p] == part[p] == b[0] && image[lo + p + 1] == part[p + 1] == b[1];
  }

  lemma ModeEntryCount(count: nat, k: nat)
    requires count < U16_MODULUS && k < 8
    ensures Read16(ModeEntry(count, k), 0) == count
  {
    hide Le32, Flag;
    assert ModeEntry(count, k)[0..2] == Le16(count);
    Read16OfLe16(ModeEntry(count, k), 0, count);
  }

  /** A built image is well formed, and holds the records sorted by load directive. */
  lemma BuiltImage(devkit: int, rs: seq<ModuleRecord>)
    requires AsciiPaths(rs) && Fits(devkit, rs) && NulFreePaths(rs)
    ensures var image := Image(devkit, rs);
            && WellFormed(image) && Word(image, DEVKIT) == devkit
            && |Records(image)| == |Sorted(rs)| == |rs|
            && forall i :: 0 <= i < |rs| ==> IsAscii(Sorted(rs)[i].path)
                                             && Records(image)[i] == BuiltRecord(Sorted(rs)[i])
  {
    hide Flatten, Read32, Image, SortedEntries, Sorted, NameAt, Terminated, BuiltAttributes, Names, ModuleEntry;
    BuiltRegions(devkit, rs);
    BuiltModes(devkit, rs);
    SortedEntriesFacts(rs);
    var image := Image(devkit, rs);
    var es := SortedEntries(rs);
    var bs := ModuleEntries(es);
    FlattenSize(bs, MODULE_SIZE);
    forall i: nat | i < |rs|
      ensures EntryAt(Table(image), i) == bs[i] && BuiltEntry(rs, es[i], bs[i]) && es[i].record == Sorted(rs)[i]
      ensures IsAscii(Sorted(rs)[i].path)
    {
      FlattenAt(bs, MODULE_SIZE, i, MODULE_SIZE * i);
      OneEntry(devkit, rs, es[i]);
    }
    assert GoodTable(Table(image), Pool(image), |rs|);
    forall i | 0 <= i < |rs| ensures Records(image)[i] == BuiltRecord(Sorted(rs)[i]) {
      assert BuiltEntry(rs, es[i], bs[i]);
      assert EntryAt(Table(image), i) == bs[i];
    }
  }

  predicate BuiltEntry(rs: seq<ModuleRecord>, e: Entry, b: seq<byte>)
    requires AsciiPaths(rs)
  {
    && |b| == MODULE_SIZE && Terminated(Names(rs), Read32(b, 0))
    && IsAscii(e.record.path) && RecordOf(b, Names(rs)) == BuiltRecord(e.record)
  }

  lemma OneEntry(devkit: int, rs: seq<ModuleRecord>, e: Entry)
    requires AsciiPaths(rs) && Fits(devkit, rs) && NulFreePaths(rs) && e in Entries(rs)
    ensures BuiltEntry(rs, e, ModuleEntry(e))
  {
    hide Entries, Names, ModuleEntry, Read32, BuiltAttributes;
    var i :| 0 <= i < |rs| && Entries(rs)[i] == e;
    EntryNames(rs, i);
    ModuleEntryFields(e);
  }
}
