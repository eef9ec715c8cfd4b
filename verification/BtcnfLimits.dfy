/** An image with as many modules as 16 bits count, and what one insertion more does to it. */
module BtcnfLimits {
  import opened Bytes
  import opened Btcnf
  import opened BtcnfInsertion
  import opened BtcnfText
  import opened BtcnfBuild
  import opened BtcnfRoundTrip

  const MOST := U16_MODULUS - 1

  /** The same module any number of times. */
  function Copies(n: nat): (rs: seq<ModuleRecord>)
    ensures |rs| == n && AsciiPaths(rs) && NulFreePaths(rs)
  {
    seq(n, i => ModuleRecord(Plain, "/m", 1))
  }

  /** A built image of that many copies, with room for the name of one module more. */
  function Full(n: nat, name: seq<byte>): (image: seq<byte>) {
    Image(0, Copies(n)) + Repeat(0, |name| + 1 + MODULE_SIZE)
  }

  lemma {:induction false} CopyNames(n: nat)
    ensures |Names(Copies(n))| == 3 * n
  {
    if n > 0 {
      CopyNames(n - 1);
      assert Copies(n)[..n - 1] == Copies(n - 1);
    }
  }

  lemma CopyModes(n: nat)
    requires n > 0
    ensures |ModeEntries(Copies(n), 8)| >= 1
  {
    var rs := Copies(n);
    assert Bit(rs[0].runlevels, 0);
    assert Uses(rs, 0);
    ModesGrow(rs, 1);
  }

  lemma {:induction false} ModesGrow(rs: seq<ModuleRecord>, k: nat)
    requires k <= 8
    ensures |ModeEntries(rs, k)| <= |ModeEntries(rs, 8)|
    decreases 8 - k
  {
    if k < 8 {
      ModesGrow(rs, k + 1);
    }
  }

  /** Bytes behind the regions do not matter. */
  lemma TrailingKept(image: seq<byte>, more: seq<byte>)
    requires WellFormed(image)
    ensures WellFormed(image + more) && forall k: nat :: k < 16 ==> Word(image + more, k) == Word(image, k)
  {
    hide Read32;
    PrefixWords(image + more, image);
    var r := image + more;
    assert GoodLayout(r) && Table(r) == Table(image) && Pool(r) == Pool(image);
    forall j: nat | j < Word(image, MODE_COUNT) ensures MaxSearch(r, j) == MaxSearch(image, j) {
    }
  }

  lemma FullFits(n: nat)
    requires n < U16_MODULUS
    ensures Fits(0, Copies(n))
  {
    CopyNames(n);
  }

  lemma FullSize(n: nat)
    requires n < U16_MODULUS
    ensures |Image(0, Copies(n))| <= HEADER_SIZE + 8 * MODE_SIZE + 35 * n
  {
    hide ModeEntries, Names, Flatten, SortedEntries, ModuleEntries, WordBlocks, HeaderWords;
    var rs := Copies(n);
    CopyNames(n);
    SortedEntriesFacts(rs);
    FlattenSize(WordBlocks(HeaderWords(0, |ModeEntries(rs, 8)|, |rs|, |Names(rs)|)), 4);
    FlattenSize(ModeEntries(rs, 8), MODE_SIZE);
    FlattenSize(ModuleEntries(SortedEntries(rs)), MODULE_SIZE);
  }

  /** Zeros behind an image make room. */
  lemma TrailingRoom(image: seq<byte>, name: seq<byte>)
    requires WellFormed(image) && Word(image, NAME_END) == |image| <= 0x40_0000 && |name| < U16_MODULUS
    ensures var r := image + Repeat(0, |name| + 1 + MODULE_SIZE);
            && WellFormed(r) && Room(r, name)
            && Word(r, MODULE_COUNT) == Word(image, MODULE_COUNT) && Word(r, MODE_COUNT) == Word(image, MODE_COUNT)
  {
    hide GoodTable, ModesSearch, Read32;
    TrailingKept(image, Repeat(0, |name| + 1 + MODULE_SIZE));
    var r := image + Repeat(0, |name| + 1 + MODULE_SIZE);
    assert Word(r, NAME_END) == |image|;
  }

  /** What is built from that many copies. */
  lemma FullImage(n: nat)
    requires 0 < n < U16_MODULUS
    ensures var image := Image(0, Copies(n));
            && WellFormed(image) && Word(image, NAME_END) == |image| <= 0x40_0000
            && Word(image, MODULE_COUNT) == n && Word(image, MODE_COUNT) > 0
  {
    hide Image, ModeEntries, Names, Copies, Fits, Table, Pool, Records, Read32, HasRecords, ModesSearch;
    FullFits(n);
    FullSize(n);
    CopyModes(n);
    BuiltRegions(0, Copies(n));
    BuiltImage(0, Copies(n));
  }

  /** With 65535 modules one insertion more makes an image that is not well-formed, though there is room for it. */
  lemma CountWraps(name: seq<byte>, i: nat, flags: int)
    requires NulFree(name) && |name| < U16_MODULUS && i < MOST
    ensures var image := Full(MOST, name);
            && WellFormed(image) && Room(image, name) && Word(image, MODULE_COUNT) == MOST
            && !WellFormed(Inserted(image, i, name, flags))
  {
    hide Image, Copies, Read32, HasRecords, ModesSearch, Inserted;
    FullImage(MOST);
    TrailingRoom(Image(0, Copies(MOST)), name);
    InsertedWellFormed(Full(MOST, name), i, name, flags);
  }
}
