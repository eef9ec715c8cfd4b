/** A built image, field by field: header, modes in use, and modules in the order of their groups. */
module BtcnfLayout {
  import opened Bytes
  import opened Btcnf
  import opened BtcnfText
  import opened BtcnfBuild
  import opened BtcnfRoundTrip

  // ----- tables

  /** The letters of the runlevels and their values. */
  lemma LettersAre(text: string)
    ensures Runlevels(text, 8)
         == (if 'V' in text then 1 else 0) + (if 'G' in text then 2 else 0) + (if 'U' in text then 4 else 0)
            + (if 'P' in text then 8 else 0) + (if 'L' in text then 16 else 0) + (if 'A' in text then 32 else 0)
            + (if 'E' in text then 64 else 0) + (if 'M' in text then 128 else 0)
  {
    assert Runlevels(text, 1) == if 'V' in text then 1 else 0;
    assert Runlevels(text, 2) == Runlevels(text, 1) + if 'G' in text then 2 else 0;
    assert Runlevels(text, 3) == Runlevels(text, 2) + if 'U' in text then 4 else 0;
    assert Runlevels(text, 4) == Runlevels(text, 3) + if 'P' in text then 8 else 0;
    assert Runlevels(text, 5) == Runlevels(text, 4) + if 'L' in text then 16 else 0;
    assert Runlevels(text, 6) == Runlevels(text, 5) + if 'A' in text then 32 else 0;
    assert Runlevels(text, 7) == Runlevels(text, 6) + if 'E' in text then 64 else 0;
    assert Runlevels(text, 8) == Runlevels(text, 7) + if 'M' in text then 128 else 0;
  }

  /** The load mode that a prefix stands for. */
  function ModeOfPrefix(prefix: string): nat {
    if prefix == "" then 1
    else if prefix == "%" then 2
    else if prefix == "%%" then 4
    else if prefix == "$" then 0x8001
    else if prefix == "$%" then 0x8002
    else 0x8004
  }

  /** The group in which modules of a prefix are emitted. */
  function GroupOfPrefix(prefix: string): nat {
    if prefix == "" then 0
    else if prefix == "$" then 1
    else if prefix == "%" then 2
    else if prefix == "$%" then 3
    else if prefix == "%%" then 4
    else 5
  }

  lemma PrefixTables(d: Directive)
    ensures Prefix(d) in {"", "$", "%", "$%", "%%", "$%%"}
    ensures LoadMode(d) == ModeOfPrefix(Prefix(d)) && Order(d) == GroupOfPrefix(Prefix(d))
  {
  }

  // ----- modes

  /** The number of the mode with this flag. */
  function ModeNumber(flag: nat): nat {
    if flag == 1 then 2
    else if flag == 2 then 1
    else if flag == 4 then 3
    else if flag == 8 then 4
    else if flag == 16 then 5
    else if flag == 32 then 6
    else if flag == 64 then 7
    else 8
  }

  predicate ModeFlag(flag: nat) {
    flag in {1, 2, 4, 8, 16, 32, 64, 128}
  }

  predicate Contains(runlevels: nat, flag: nat) {
    ModeFlag(flag) && runlevels / flag % 2 == 1
  }

  /** The mode entry at `p`: the number of modules, flag and number of the mode, and zeros. */
  predicate ModeStands(image: seq<byte>, p: nat, modules: nat) {
    && p + 32 <= |image| && Read16(image, p) == modules && Read16(image, p + 2) == 0
    && ModeFlag(Read32(image, p + 4))
    && Read32(image, p + 8) == ModeNumber(Read32(image, p + 4))
    && forall k :: p + 12 <= k < p + 32 ==> image[k] == 0
  }

  /** The indices of the modes below `k` that are in use. */
  lemma {:induction false} ModesInUse(rs: seq<ModuleRecord>, k: nat) returns (ks: seq<nat>)
    requires k <= 8
    ensures |ks| == |ModeEntries(rs, k)|
    ensures forall j :: 0 <= j < |ks| ==> ks[j] < k && ModeEntries(rs, k)[j] == ModeEntry(|rs|, ks[j])
    ensures forall i, j :: 0 <= i < j < |ks| ==> ks[i] < ks[j]
    ensures forall m: nat :: m < k ==> (m in ks <==> Uses(rs, m))
  {
    hide ModeEntry, Uses;
    ks := [];
    if k > 0 {
      ks := ModesInUse(rs, k - 1);
      if Uses(rs, k - 1) {
        ks := ks + [k - 1];
      }
    }
  }

  lemma FlagContained(v: nat, k: nat)
    requires k < 8
    ensures ModeFlag(Flag(k)) && (Bit(v, k) <==> Contains(v, Flag(k)))
  {
    Parity(v / 256, v % 256, k);
    assert v == 256 * (v / 256) + v % 256;
  }

  /** Bits from the ninth on do not matter to the low ones. */
  lemma Parity(q: nat, low: nat, k: nat)
    requires low < 256 && k < 8
    ensures (256 * q + low) / Flag(k) % 2 == low / Flag(k) % 2
  {
    if k == 0 {
      Quotient1(128 * q, low);
    } else if k == 1 {
      Quotient2(64 * q, low);
    } else if k == 2 {
      Quotient4(32 * q, low);
    } else if k == 3 {
      Quotient8(16 * q, low);
    } else if k == 4 {
      Quotient16(8 * q, low);
    } else if k == 5 {
      Quotient32(4 * q, low);
    } else if k == 6 {
      Quotient64(2 * q, low);
    } else {
      Quotient128(q, low);
    }
  }

  lemma Quotient1(x: nat, low: nat)
    ensures (2 * x + low) / 1 % 2 == low / 1 % 2
  {
    assert (2 * x + low) / 1 == 2 * x + low / 1;
  }

  lemma Quotient2(x: nat, low: nat)
    ensures (4 * x + low) / 2 % 2 == low / 2 % 2
  {
    assert (4 * x + low) / 2 == 2 * x + low / 2;
  }

  lemma Quotient4(x: nat, low: nat)
    ensures (8 * x + low) / 4 % 2 == low / 4 % 2
  {
    assert (8 * x + low) / 4 == 2 * x + low / 4;
  }

  lemma Quotient8(x: nat, low: nat)
    ensures (16 * x + low) / 8 % 2 == low / 8 % 2
  {
    assert (16 * x + low) / 8 == 2 * x + low / 8;
  }

  lemma Quotient16(x: nat, low: nat)
    ensures (32 * x + low) / 16 % 2 == low / 16 % 2
  {
    assert (32 * x + low) / 16 == 2 * x + low / 16;
  }

  lemma Quotient32(x: nat, low: nat)
    ensures (64 * x + low) / 32 % 2 == low / 32 % 2
  {
    assert (64 * x + low) / 32 == 2 * x + low / 32;
  }

  lemma Quotient64(x: nat, low: nat)
    ensures (128 * x + low) / 64 % 2 == low / 64 % 2
  {
    assert (128 * x + low) / 64 == 2 * x + low / 64;
  }

  lemma Quotient128(x: nat, low: nat)
    ensures (256 * x + low) / 128 % 2 == low / 128 % 2
  {
    assert (256 * x + low) / 128 == 2 * x + low / 128;
  }

  lemma FlagIndex(flag: nat) returns (k: nat)
    requires ModeFlag(flag)
    ensures k < 8 && Flag(k) == flag
  {
    k := if flag == 1 then 0 else if flag == 2 then 1 else if flag == 4 then 2 else if flag == 8 then 3
         else if flag == 16 then 4 else if flag == 32 then 5 else if flag == 64 then 6 else 7;
  }

  lemma FlagsAscend(i: nat, j: nat)
    requires i < j < 8
    ensures Flag(i) < Flag(j)
  {
  }

  lemma ModeFields(image: seq<byte>, p: nat, count: nat, k: nat)
    requires k < 8 && count < U16_MODULUS && At(image, p, ModeEntry(count, k))
    ensures ModeStands(image, p, count) && Read32(image, p + 4) == Flag(k)
  {
    hide Le16, Le32, Read16, Read32, Flag, Repeat;
    var b := ModeEntry(count, k);
    var number: nat := [2, 1, 3, 4, 5, 6, 7, 8][k];
    AtInside(image, p, b, 0, Le16(count));
    AtInside(image, p, b, 2, Le16(0));
    AtInside(image, p, b, 4, Le32(Flag(k)));
    AtInside(image, p, b, 8, Le32(number));
    Read16OfLe16(image, p, count);
    Read16OfLe16(image, p + 2, 0);
    FlagContained(0, k);
    Read32OfLe32(image, p + 4, Flag(k));
    Read32OfLe32(image, p + 8, number);
    NumberOfFlag(k);
    forall i | p + 12 <= i < p + 32 ensures image[i] == 0 {
      assert image[i] == b[i - p] == Repeat(0, 20)[i - p - 12];
    }
  }

  lemma NumberOfFlag(k: nat)
    requires k < 8
    ensures ModeNumber(Flag(k)) == [2, 1, 3, 4, 5, 6, 7, 8][k]
  {
  }

  /**
    The modes of a built image: one entry for every flag that some record's runlevels contain, by ascending
    flag, each with the number of its mode.
  */
  lemma ModesStand(devkit: int, rs: seq<ModuleRecord>)
    requires AsciiPaths(rs) && Fits(devkit, rs)
    ensures var image := Image(devkit, rs);
            64 <= |image| &&
            var n := Read32(image, 20);
            && (forall j: nat :: j < n ==> ModeStands(image, 64 + 32 * j, |rs|))
            && (forall i: nat, j: nat :: i < j < n ==>
                  Read32(image, 64 + 32 * i + 4) < Read32(image, 64 + 32 * j + 4))
            && (forall flag: nat :: ModeFlag(flag) ==>
                  ((exists j: nat :: j < n && Read32(image, 64 + 32 * j + 4) == flag)
                   <==> exists r :: r in rs && Contains(r.runlevels, flag)))
  {
    hide Image, ModeEntries, ModeEntry, Read32, Read16, Contains, Flag, Uses, ModeStands, ModeFlag;
    BuiltRegions(devkit, rs);
    var image := Image(devkit, rs);
    var n := |ModeEntries(rs, 8)|;
    var ks := ModesInUse(rs, 8);
    forall j: nat | j < n
      ensures ModeStands(image, 64 + 32 * j, |rs|) && 64 + 32 * j + 32 <= |image|
      ensures Read32(image, 64 + 32 * j + 4) == Flag(ks[j])
    {
      ModeAt(devkit, rs, j);
      ModeFields(image, 64 + 32 * j, |rs|, ks[j]);
    }
    forall i: nat, j: nat | i < j < n ensures Read32(image, 64 + 32 * i + 4) < Read32(image, 64 + 32 * j + 4) {
      FlagsAscend(ks[i], ks[j]);
    }
    forall flag: nat | ModeFlag(flag)
      ensures (exists j: nat :: j < n && Read32(image, 64 + 32 * j + 4) == flag)
              <==> exists r :: r in rs && Contains(r.runlevels, flag)
    {
      var k := FlagIndex(flag);
      UsesContains(rs, k);
      if j: nat :| j < n && Read32(image, 64 + 32 * j + 4) == flag {
        SameFlag(ks[j], k);
        assert ks[j] in ks;
      }
      if k in ks {
        var j: nat :| j < |ks| && ks[j] == k;
        assert Read32(image, 64 + 32 * j + 4) == flag;
      }
    }
  }

  lemma SameFlag(i: nat, j: nat)
    requires i < 8 && j < 8 && Flag(i) == Flag(j)
    ensures i == j
  {
  }

  lemma UsesContains(rs: seq<ModuleRecord>, k: nat)
    requires k < 8
    ensures Uses(rs, k) <==> exists r :: r in rs && Contains(r.runlevels, Flag(k))
  {
    hide Flag, Bit, Contains;
    if Uses(rs, k) {
      var i :| 0 <= i < |rs| && Bit(rs[i].runlevels, k);
      FlagContained(rs[i].runlevels, k);
      assert rs[i] in rs;
    }
    if r :| r in rs && Contains(r.runlevels, Flag(k)) {
      FlagContained(r.runlevels, k);
      var i :| 0 <= i < |rs| && rs[i] == r;
      assert Bit(rs[i].runlevels, k);
    }
  }

  lemma ModeAt(devkit: int, rs: seq<ModuleRecord>, j: nat)
    requires AsciiPaths(rs) && Fits(devkit, rs) && j < |ModeEntries(rs, 8)|
    ensures At(Image(devkit, rs), 64 + 32 * j, ModeEntries(rs, 8)[j]) && |rs| < U16_MODULUS
  {
    hide Image, ModeEntry, Read32, Uses, Flatten, Names, SortedEntries, ModuleEntries, Word;
    BuiltRegions(devkit, rs);
    var bs := ModeEntries(rs, 8);
    var image, modes := Image(devkit, rs), Flatten(bs);
    FlattenAt(bs, MODE_SIZE, j, MODE_SIZE * j);
    SubSlice(image, 64, 64 + |modes|, 32 * j, 32);
  }

  // ----- header

  /** All words of the header. */
  lemma HeaderStands(devkit: int, rs: seq<ModuleRecord>)
    requires AsciiPaths(rs) && Fits(devkit, rs)
    ensures var image := Image(devkit, rs);
            64 <= |image| &&
            var modes, modules, names := Read32(image, 20), Read32(image, 32), Read32(image, 48);
            && Read32(image, 0) == 0x0F80_3001 && Read32(image, 4) == devkit
            && Read32(image, 8) == 0x6B8B_4567 && Read32(image, 12) == 0x327B_23C6
            && Read32(image, 16) == 64
            && Read32(image, 24) == 0x643C_9869 && Read32(image, 28) == 0x6633_4873
            && modules == 64 + 32 * modes && Read32(image, 36) == |rs|
            && Read32(image, 40) == 0x74B0_DC51 && Read32(image, 44) == 0x1949_5CFF
            && names == modules + 32 * |rs| && Read32(image, 52) == |image|
            && Read32(image, 56) == 0x2AE8_944A && Read32(image, 60) == 0x6255_58EC
  {
    hide Flatten, Read32, ModeEntries, WordBlocks, Names, SortedEntries, ModuleEntries;
    BuiltRegions(devkit, rs);
    var image := Image(devkit, rs);
    var ws := HeaderWords(devkit, |ModeEntries(rs, 8)|, |rs|, |Names(rs)|);
    var head := Flatten(WordBlocks(ws));
    var rest := Flatten(ModeEntries(rs, 8)) + Flatten(ModuleEntries(SortedEntries(rs))) + Names(rs);
    assert image == head + rest;
    forall k: nat | k < 16 ensures |head| == 64 && Word(image, k) == ws[k] {
      HeaderReads(ws, rest, k);
    }
    assert Word(image, 2) == ws[2] && Word(image, 3) == ws[3] && Word(image, 6) == ws[6] && Word(image, 7) == ws[7];
    assert Word(image, 10) == ws[10] && Word(image, 11) == ws[11] && Word(image, 14) == ws[14];
    assert Word(image, 15) == ws[15] && Word(image, 4) == ws[4] && Word(image, 5) == ws[5];
    assert Word(image, 8) == ws[8] && Word(image, 9) == ws[9] && Word(image, 12) == ws[12];
    assert Word(image, 13) == ws[13] && Word(image, 0) == ws[0] && Word(image, 1) == ws[1];
  }

  // ----- modules

  /** The module entry at `p` is that of the record, and leads to its path in the pool that starts at `names`. */
  predicate ModuleStands(image: seq<byte>, p: nat, names: nat, r: ModuleRecord)
    requires IsAscii(r.path)
  {
    && p + 32 <= |image| && Read32(image, p + 4) == 0
    && Read32(image, p + 8) == ModeOfPrefix(Prefix(r.directive)) * 0x1_0000 + r.runlevels
    && (forall k :: p + 12 <= k < p + 32 ==> image[k] == 0)
    && At(image, names + Read32(image, p), Encoded(r.path) + [0])
  }

  /** The modules of a built image, in the order in which the builder sorts the records. */
  lemma ModulesStand(devkit: int, rs: seq<ModuleRecord>)
    requires AsciiPaths(rs) && Fits(devkit, rs) && NulFreePaths(rs)
    requires forall i :: 0 <= i < |rs| ==> rs[i].runlevels < 0x1_0000
    ensures var image := Image(devkit, rs);
            && 64 <= |image| && |Sorted(rs)| == |rs|
            && forall i: nat :: i < |rs| ==>
                 IsAscii(Sorted(rs)[i].path)
                 && ModuleStands(image, Read32(image, 32) + 32 * i, Read32(image, 48), Sorted(rs)[i])
  {
    hide Image, Sorted, Read32, ModuleStands, Fits, NulFreePaths;
    BuiltRegions(devkit, rs);
    SortedEntriesFacts(rs);
    forall i: nat | i < |rs|
      ensures IsAscii(Sorted(rs)[i].path)
              && ModuleStands(Image(devkit, rs), Read32(Image(devkit, rs), 32) + 32 * i,
                   Read32(Image(devkit, rs), 48), Sorted(rs)[i])
    {
      ModuleAt(devkit, rs, i);
    }
  }

  /** That order: groups "", "$", "%", "$%", "%%", "$%%", and in a group the records as they came. */
  lemma GroupsStand(rs: seq<ModuleRecord>)
    ensures |Sorted(rs)| == |rs|
    ensures forall i, j :: 0 <= i < j < |rs| ==>
              GroupOfPrefix(Prefix(Sorted(rs)[i].directive)) <= GroupOfPrefix(Prefix(Sorted(rs)[j].directive))
    ensures forall d: Directive :: InGroup(Sorted(rs), d) == InGroup(rs, d)
  {
    hide Sorted, GroupOfPrefix, Prefix, InGroup, Order;
    SortedSize(rs);
    forall i, j | 0 <= i < j < |rs|
      ensures GroupOfPrefix(Prefix(Sorted(rs)[i].directive)) <= GroupOfPrefix(Prefix(Sorted(rs)[j].directive))
    {
      GroupsAscend(rs, i, j);
      PrefixTables(Sorted(rs)[i].directive);
      PrefixTables(Sorted(rs)[j].directive);
    }
    forall d: Directive ensures InGroup(Sorted(rs), d) == InGroup(rs, d) {
      GroupKept(rs, d);
    }
  }

  lemma SortedSize(rs: seq<ModuleRecord>)
    ensures |Sorted(rs)| == |rs|
  {
    hide StableSort;
    SortedLength(rs, RecordKey);
  }

  lemma GroupsAscend(rs: seq<ModuleRecord>, i: nat, j: nat)
    requires i < j < |rs| == |Sorted(rs)|
    ensures Order(Sorted(rs)[i].directive) <= Order(Sorted(rs)[j].directive)
  {
    hide StableSort, Bucket;
    StableSortSpec(rs, RecordKey);
    assert RecordKey(Sorted(rs)[i]) <= RecordKey(Sorted(rs)[j]);
  }

  lemma GroupKept(rs: seq<ModuleRecord>, d: Directive)
    ensures InGroup(Sorted(rs), d) == InGroup(rs, d)
  {
    hide StableSort, Bucket, InGroup;
    GroupIsBucket(rs, d);
    GroupIsBucket(Sorted(rs), d);
    OrderBelow(d);
    StableSortSpec(rs, RecordKey);
  }

  lemma OrderBelow(d: Directive)
    ensures Order(d) < 6
  {
  }

  /** The records of one directive, in order. */
  function InGroup(rs: seq<ModuleRecord>, d: Directive): seq<ModuleRecord> {
    if rs == [] then []
    else InGroup(rs[..|rs| - 1], d) + if rs[|rs| - 1].directive == d then [rs[|rs| - 1]] else []
  }

  lemma {:induction false} GroupIsBucket(rs: seq<ModuleRecord>, d: Directive)
    ensures InGroup(rs, d) == Bucket(rs, RecordKey, Order(d))
  {
    if rs != [] {
      GroupIsBucket(rs[..|rs| - 1], d);
      OrderDistinct(rs[|rs| - 1].directive, d);
    }
  }

  lemma OrderDistinct(a: Directive, b: Directive)
    ensures Order(a) == Order(b) <==> a == b
  {
  }

  lemma ModuleAt(devkit: int, rs: seq<ModuleRecord>, i: nat)
    requires AsciiPaths(rs) && Fits(devkit, rs) && NulFreePaths(rs) && i < |rs|
    requires forall j :: 0 <= j < |rs| ==> rs[j].runlevels < 0x1_0000
    ensures var image := Image(devkit, rs);
            && |Sorted(rs)| == |rs| && IsAscii(Sorted(rs)[i].path) && 64 <= |image|
            && ModuleStands(image, Read32(image, 32) + 32 * i, Read32(image, 48), Sorted(rs)[i])
  {
    hide Image, Sorted, SortedEntries, Entries, Read32, ModuleEntry, Names, Fits, ModeOfPrefix, Prefix, At, Encoded;
    hide NulFreePaths, AsciiPaths, IsAscii, ModeEntries, ModuleEntries, Flatten;
    BuiltRegions(devkit, rs);
    SortedEntriesFacts(rs);
    var image, e := Image(devkit, rs), SortedEntries(rs)[i];
    assert e in Entries(rs);
    EntryBytes(devkit, rs, i);
    NameStands(devkit, rs, e);
    ModuleFields(image, Word(image, MODULE_START) + 32 * i, e);
  }

  lemma EntryBytes(devkit: int, rs: seq<ModuleRecord>, i: nat)
    requires AsciiPaths(rs) && Fits(devkit, rs) && i < |SortedEntries(rs)|
    ensures 64 <= |Image(devkit, rs)|
    ensures At(Image(devkit, rs), Word(Image(devkit, rs), MODULE_START) + 32 * i, ModuleEntry(SortedEntries(rs)[i]))
  {
    hide Image, SortedEntries, Read32, Flatten, ModuleEntry, Names, ModeEntries, Fits;
    BuiltRegions(devkit, rs);
    var image, bs := Image(devkit, rs), ModuleEntries(SortedEntries(rs));
    FlattenSize(bs, MODULE_SIZE);
    FlattenAt(bs, MODULE_SIZE, i, MODULE_SIZE * i);
    SubSlice(image, Word(image, MODULE_START), Word(image, NAME_START), MODULE_SIZE * i, MODULE_SIZE);
  }

  lemma NameInPool(rs: seq<ModuleRecord>, e: Entry)
    requires AsciiPaths(rs) && NulFreePaths(rs) && e in Entries(rs)
    ensures e.record in rs && IsAscii(e.record.path) && e.offset <= |Names(rs)|
    ensures At(Names(rs), e.offset, Encoded(e.record.path) + [0])
  {
    hide Names, NameAt, Terminated, Encoded, Entries, At;
    var k :| 0 <= k < |rs| && Entries(rs)[k] == e;
    assert rs[k] == e.record;
    EntryNames(rs, k);
    NameBytes(Names(rs), e.offset);
  }

  lemma PoolAt(image: seq<byte>)
    requires GoodLayout(image)
    ensures At(image, Word(image, NAME_START), Pool(image))
  {
    hide Word;
  }

  lemma NameStands(devkit: int, rs: seq<ModuleRecord>, e: Entry)
    requires AsciiPaths(rs) && Fits(devkit, rs) && NulFreePaths(rs) && e in Entries(rs)
    ensures 64 <= |Image(devkit, rs)| && IsAscii(e.record.path) && e.offset < U32_MODULUS && e.record in rs
    ensures At(Image(devkit, rs), Word(Image(devkit, rs), NAME_START) + e.offset, Encoded(e.record.path) + [0])
  {
    hide Image, Names, Fits, Encoded, Entries, NulFreePaths, AsciiPaths, IsAscii, At, Word, ModeEntries;
    BuiltRegions(devkit, rs);
    NameInPool(rs, e);
    var image := Image(devkit, rs);
    PoolAt(image);
    AtInside(image, Word(image, NAME_START), Names(rs), e.offset, Encoded(e.record.path) + [0]);
    PoolFits(devkit, rs);
  }

  lemma PoolFits(devkit: int, rs: seq<ModuleRecord>)
    requires AsciiPaths(rs) && Fits(devkit, rs)
    ensures |Names(rs)| < U32_MODULUS
  {
  }

  lemma NameBytes(pool: seq<byte>, i: nat)
    requires Terminated(pool, i)
    ensures At(pool, i, NameAt(pool, i) + [0])
  {
  }

  lemma ModuleFields(image: seq<byte>, p: nat, e: Entry)
    requires At(image, p, ModuleEntry(e)) && e.offset < U32_MODULUS && e.record.runlevels < 0x1_0000
    ensures p + 32 <= |image| && Read32(image, p) == e.offset && Read32(image, p + 4) == 0
    ensures Read32(image, p + 8) == ModeOfPrefix(Prefix(e.record.directive)) * 0x1_0000 + e.record.runlevels
    ensures forall k :: p + 12 <= k < p + 32 ==> image[k] == 0
  {
    hide Le32, Read32, Repeat;
    var b := ModuleEntry(e);
    PrefixTables(e.record.directive);
    AtInside(image, p, b, 0, Le32(e.offset));
    AtInside(image, p, b, 4, Le32(0));
    AtInside(image, p, b, 8, Le32(Flags(e.record)));
    AtInside(image, p, b, 12, Le32(0));
    Read32OfLe32(image, p, e.offset);
    Read32OfLe32(image, p + 4, 0);
    Read32OfLe32(image, p + 8, Flags(e.record));
    ZeroWord(image, p + 12);
    forall i | p + 16 <= i < p + 32 ensures image[i] == 0 {
      assert image[i] == b[i - p] == Repeat(0, 16)[i - p - 16];
    }
  }

  lemma ZeroWord(s: seq<byte>, i: nat)
    requires At(s, i, Le32(0))
    ensures forall k :: i <= k < i + 4 ==> s[k] == 0
  {
    assert Le32(0) == [0, 0, 0, 0];
    forall k | i <= k < i + 4 ensures s[k] == 0 {
      assert s[k] == s[i..i + 4][k - i];
    }
  }
}
