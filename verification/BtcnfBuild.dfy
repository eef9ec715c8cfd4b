/** Building an image from records and extracting the text of an image. */
module BtcnfBuild {
  import opened Bytes
  import opened Btcnf
  import opened BtcnfText
  import opened BtcnfParse

  // ----- fixed-size blocks

  function Flatten(bs: seq<seq<byte>>): seq<byte> {
    if bs == [] then [] else Flatten(bs[..|bs| - 1]) + bs[|bs| - 1]
  }

  predicate AllSize(bs: seq<seq<byte>>, size: nat) {
    forall i :: 0 <= i < |bs| ==> |bs[i]| == size
  }

  lemma {:induction false} FlattenSize(bs: seq<seq<byte>>, size: nat)
    requires AllSize(bs, size)
    ensures |Flatten(bs)| == size * |bs|
  {
    if bs != [] {
      var n := |bs| - 1;
      FlattenSize(bs[..n], size);
      assert size * n + size == size * |bs|;
    }
  }

  lemma {:induction false} FlattenSplit(bs: seq<seq<byte>>, i: nat)
    requires i <= |bs|
    ensures Flatten(bs) == Flatten(bs[..i]) + Flatten(bs[i..])
    decreases |bs|
  {
    if i == |bs| {
      assert bs[..i] == bs;
    } else {
      var n := |bs| - 1;
      FlattenSplit(bs[..n], i);
      assert bs[..n][..i] == bs[..i] && bs[i..][..n - i] == bs[..n][i..];
    }
  }

  /** Block `i` stands at `lo`, which is `i` blocks in. */
  lemma FlattenAt(bs: seq<seq<byte>>, size: nat, i: nat, lo: nat)
    requires AllSize(bs, size) && i < |bs| && lo == size * i
    ensures lo + size <= |Flatten(bs)| && Flatten(bs)[lo..lo + size] == bs[i]
  {
    FlattenSplit(bs, i);
    FlattenSize(bs[..i], size);
    FlattenSplit(bs[i..], 1);
    assert bs[i..][..1] == [bs[i]];
    assert Flatten([bs[i]]) == Flatten([]) + bs[i];
    var none: seq<seq<byte>> := [];
    assert [bs[i]][..0] == none;
  }

  // ----- stable sort by load directive

  /** The elements of key `k`, in order. */
  function Bucket<T>(es: seq<T>, key: T -> nat, k: nat): seq<T> {
    if es == [] then []
    else Bucket(es[..|es| - 1], key, k) + if key(es[|es| - 1]) == k then [es[|es| - 1]] else []
  }

  /** The elements of keys below `k`, by key and then in order. */
  function SortBelow<T>(es: seq<T>, key: T -> nat, k: nat): seq<T> {
    if k == 0 then [] else SortBelow(es, key, k - 1) + Bucket(es, key, k - 1)
  }

  /** sorted(..., key=...) for the six directives. */
  function StableSort<T>(es: seq<T>, key: T -> nat): seq<T> {
    SortBelow(es, key, 6)
  }

  lemma {:induction false} BucketConcat<T>(a: seq<T>, b: seq<T>, key: T -> nat, k: nat)
    ensures Bucket(a + b, key, k) == Bucket(a, key, k) + Bucket(b, key, k)
    decreases |b|
  {
    if b == [] {
      assert a + b == a;
    } else {
      assert (a + b)[..|a + b| - 1] == a + b[..|b| - 1];
      BucketConcat(a, b[..|b| - 1], key, k);
    }
  }

  lemma {:induction false} BucketKeys<T>(es: seq<T>, key: T -> nat, k: nat)
    ensures forall e :: e in Bucket(es, key, k) ==> key(e) == k && e in es
  {
    if es != [] {
      BucketKeys(es[..|es| - 1], key, k);
    }
  }

  lemma {:induction false} BucketOfUniform<T>(es: seq<T>, key: T -> nat, k: nat, j: nat)
    requires forall e :: e in es ==> key(e) == k
    ensures Bucket(es, key, j) == if j == k then es else []
  {
    if es != [] {
      var init, last := es[..|es| - 1], es[|es| - 1];
      assert last in es && key(last) == k;
      BucketOfUniform(init, key, k, j);
      assert es == init + [last];
    }
  }

  lemma SortStep<T>(es: seq<T>, key: T -> nat, k: nat)
    ensures SortBelow(es, key, k) == if k == 0 then [] else SortBelow(es, key, k - 1) + Bucket(es, key, k - 1)
  {
  }

  lemma EmptyBucket<T>(key: T -> nat, k: nat)
    ensures Bucket([], key, k) == []
  {
  }

  lemma {:induction false} BucketOfSorted<T>(es: seq<T>, key: T -> nat, k: nat, j: nat)
    ensures Bucket(SortBelow(es, key, k), key, j) == if j < k then Bucket(es, key, j) else []
    decreases k
  {
    hide Bucket, SortBelow;
    SortStep(es, key, k);
    if k == 0 {
      EmptyBucket<T>(key, j);
    } else {
      BucketOfSorted(es, key, k - 1, j);
      BucketConcat(SortBelow(es, key, k - 1), Bucket(es, key, k - 1), key, j);
      BucketKeys(es, key, k - 1);
      BucketOfUniform(Bucket(es, key, k - 1), key, k - 1, j);
    }
  }

  lemma {:induction false} SortBelowAgrees<T>(a: seq<T>, b: seq<T>, key: T -> nat, k: nat)
    requires forall j: nat :: j < k ==> Bucket(a, key, j) == Bucket(b, key, j)
    ensures SortBelow(a, key, k) == SortBelow(b, key, k)
  {
    if k > 0 {
      SortBelowAgrees(a, b, key, k - 1);
    }
  }

  /** A stable sort: keys ascend, elements of equal key keep their order, and sorting again changes nothing. */
  lemma StableSortSpec<T>(es: seq<T>, key: T -> nat)
    ensures forall j: nat :: j < 6 ==> Bucket(StableSort(es, key), key, j) == Bucket(es, key, j)
    ensures forall i, j :: 0 <= i < j < |StableSort(es, key)| ==>
            key(StableSort(es, key)[i]) <= key(StableSort(es, key)[j])
    ensures StableSort(StableSort(es, key), key) == StableSort(es, key)
  {
    forall j: nat | j < 6 ensures Bucket(StableSort(es, key), key, j) == Bucket(es, key, j) {
      BucketOfSorted(es, key, 6, j);
    }
    SortedAscends(es, key, 6);
    SortBelowAgrees(StableSort(es, key), es, key, 6);
  }

  lemma {:induction false} SortedAscends<T>(es: seq<T>, key: T -> nat, k: nat)
    ensures forall e :: e in SortBelow(es, key, k) ==> key(e) < k && e in es
    ensures forall i, j :: 0 <= i < j < |SortBelow(es, key, k)| ==>
            key(SortBelow(es, key, k)[i]) <= key(SortBelow(es, key, k)[j])
  {
    if k > 0 {
      SortedAscends(es, key, k - 1);
      BucketKeys(es, key, k - 1);
      var a, b := SortBelow(es, key, k - 1), Bucket(es, key, k - 1);
      forall i, j | 0 <= i < j < |a + b| ensures key((a + b)[i]) <= key((a + b)[j]) {
        assert (a + b)[j] in (if j < |a| then a else b);
        assert (a + b)[i] in (if i < |a| then a else b);
      }
    }
  }

  // Sorting keeps the elements, so it keeps every total.

  function Total<T>(es: seq<T>, weight: T -> nat): nat {
    if es == [] then 0 else Total(es[..|es| - 1], weight) + weight(es[|es| - 1])
  }

  function TotalBelow<T>(es: seq<T>, key: T -> nat, weight: T -> nat, k: nat): nat {
    if es == [] then 0
    else TotalBelow(es[..|es| - 1], key, weight, k) + if key(es[|es| - 1]) < k then weight(es[|es| - 1]) else 0
  }

  lemma {:induction false} TotalConcat<T>(a: seq<T>, b: seq<T>, weight: T -> nat)
    ensures Total(a + b, weight) == Total(a, weight) + Total(b, weight)
    decreases |b|
  {
    if b == [] {
      assert a + b == a;
    } else {
      assert (a + b)[..|a + b| - 1] == a + b[..|b| - 1];
      TotalConcat(a, b[..|b| - 1], weight);
    }
  }

  lemma {:induction false} BelowStep<T>(es: seq<T>, key: T -> nat, weight: T -> nat, k: nat)
    ensures TotalBelow(es, key, weight, k + 1) == TotalBelow(es, key, weight, k) + Total(Bucket(es, key, k), weight)
    ensures TotalBelow(es, key, weight, 0) == 0
  {
    if es != [] {
      BelowStep(es[..|es| - 1], key, weight, k);
      TotalConcat(Bucket(es[..|es| - 1], key, k), if key(es[|es| - 1]) == k then [es[|es| - 1]] else [], weight);
    }
  }

  lemma {:induction false} SortedTotal<T>(es: seq<T>, key: T -> nat, weight: T -> nat, k: nat)
    ensures Total(SortBelow(es, key, k), weight) == TotalBelow(es, key, weight, k)
    decreases k
  {
    hide Bucket, SortBelow, TotalBelow;
    SortStep(es, key, k);
    if k > 0 {
      SortedTotal(es, key, weight, k - 1);
      BelowStep(es, key, weight, k - 1);
      TotalConcat(SortBelow(es, key, k - 1), Bucket(es, key, k - 1), weight);
    } else {
      BelowStep(es, key, weight, 0);
    }
  }

  lemma {:induction false} AllBelow<T>(es: seq<T>, key: T -> nat, weight: T -> nat, k: nat)
    requires forall e :: e in es ==> key(e) < k
    ensures TotalBelow(es, key, weight, k) == Total(es, weight)
  {
    if es != [] {
      AllBelow(es[..|es| - 1], key, weight, k);
    }
  }

  lemma SortKeepsTotal<T>(es: seq<T>, key: T -> nat, weight: T -> nat)
    requires forall e :: e in es ==> key(e) < 6
    ensures Total(StableSort(es, key), weight) == Total(es, weight)
  {
    SortedTotal(es, key, weight, 6);
    AllBelow(es, key, weight, 6);
  }

  lemma {:induction false} TotalOnes<T>(es: seq<T>)
    ensures Total(es, (e: T) => 1) == |es|
  {
    if es != [] {
      TotalOnes(es[..|es| - 1]);
    }
  }

  lemma SortedLength<T>(es: seq<T>, key: T -> nat)
    requires forall e :: e in es ==> key(e) < 6
    ensures |StableSort(es, key)| == |es|
  {
    SortedTotal(es, key, (e: T) => 1, 6);
    AllBelow(es, key, (e: T) => 1, 6);
    TotalOnes(es);
    TotalOnes(StableSort(es, key));
  }

  lemma {:induction false} BucketHolds<T>(es: seq<T>, key: T -> nat, k: nat)
    ensures forall e :: e in es && key(e) == k ==> e in Bucket(es, key, k)
  {
    if es != [] {
      BucketHolds(es[..|es| - 1], key, k);
    }
  }

  lemma {:induction false} SortHolds<T>(es: seq<T>, key: T -> nat, k: nat)
    ensures forall e :: e in es && key(e) < k ==> e in SortBelow(es, key, k)
  {
    if k > 0 {
      SortHolds(es, key, k - 1);
      BucketHolds(es, key, k - 1);
    }
  }

  // ----- the builder

  predicate IsAscii(s: string) {
    forall i :: 0 <= i < |s| ==> s[i] as int < 128
  }

  /** encode("ascii"), on text that allows it. */
  function Encoded(s: string): (b: seq<byte>)
    requires IsAscii(s)
    ensures |b| == |s|
  {
    seq(|s|, i requires 0 <= i < |s| => s[i] as int)
  }

  predicate AsciiPaths(rs: seq<ModuleRecord>) {
    forall i :: 0 <= i < |rs| ==> IsAscii(rs[i].path)
  }

  /** One name for every record, in source order. */
  function Names(rs: seq<ModuleRecord>): seq<byte>
    requires AsciiPaths(rs)
  {
    if rs == [] then [] else Names(rs[..|rs| - 1]) + (Encoded(rs[|rs| - 1].path) + [0])
  }

  datatype Entry = Entry(record: ModuleRecord, offset: nat)

  function Entries(rs: seq<ModuleRecord>): (es: seq<Entry>)
    requires AsciiPaths(rs)
    ensures |es| == |rs| && forall i :: 0 <= i < |rs| ==> es[i].record == rs[i]
  {
    if rs == [] then []
    else Entries(rs[..|rs| - 1]) + [Entry(rs[|rs| - 1], |Names(rs[..|rs| - 1])|)]
  }

  function EntryKey(e: Entry): nat { Order(e.record.directive) }

  function RecordKey(r: ModuleRecord): nat { Order(r.directive) }

  function ModuleEntry(e: Entry): (b: seq<byte>)
    ensures |b| == MODULE_SIZE
  {
    Le32(e.offset) + Le32(0) + Le32(Flags(e.record)) + Le32(0) + Repeat(0, 16)
  }

  function ModeEntry(count: nat, k: nat): (b: seq<byte>)
    requires k < 8
    ensures |b| == MODE_SIZE
  {
    Le16(count) + Le16(0) + Le32(Flag(k)) + Le32([2, 1, 3, 4, 5, 6, 7, 8][k]) + Repeat(0, 20)
  }

  predicate Uses(rs: seq<ModuleRecord>, k: nat)
    requires k < 8
  {
    exists i :: 0 <= i < |rs| && Bit(rs[i].runlevels, k)
  }

  /** Entries of the modes below `k` that some record uses. */
  function ModeEntries(rs: seq<ModuleRecord>, k: nat): (bs: seq<seq<byte>>)
    requires k <= 8
    ensures |bs| <= k && forall i :: 0 <= i < |bs| ==> |bs[i]| == MODE_SIZE
    ensures forall i :: 0 <= i < |bs| ==> exists j: nat :: j < 8 && bs[i] == ModeEntry(|rs|, j)
  {
    if k == 0 then [] else ModeEntries(rs, k - 1) + if Uses(rs, k - 1) then [ModeEntry(|rs|, k - 1)] else []
  }

  function ModuleEntries(es: seq<Entry>): (bs: seq<seq<byte>>)
    ensures |bs| == |es| && AllSize(bs, MODULE_SIZE)
  {
    seq(|es|, i requires 0 <= i < |es| => ModuleEntry(es[i]))
  }

  function HeaderWords(devkit: int, modes: nat, modules: nat, names: nat): (ws: seq<int>)
    ensures |ws| == 16
  {
    var moduleStart := HEADER_SIZE + MODE_SIZE * modes;
    var nameStart := moduleStart + MODULE_SIZE * modules;
    [MAGIC, devkit, 0x6B8B_4567, 0x327B_23C6, HEADER_SIZE, modes, 0x643C_9869, 0x6633_4873,
     moduleStart, modules, 0x74B0_DC51, 0x1949_5CFF, nameStart, nameStart + names, 0x2AE8_944A, 0x6255_58EC]
  }

  function WordBlocks(ws: seq<int>): (bs: seq<seq<byte>>)
    ensures |bs| == |ws| && AllSize(bs, 4)
  {
    seq(|ws|, i requires 0 <= i < |ws| => Le32(ws[i]))
  }

  function SortedEntries(rs: seq<ModuleRecord>): seq<Entry>
    requires AsciiPaths(rs)
  {
    StableSort(Entries(rs), EntryKey)
  }

  /** Whether every field fits the structure it is packed into. */
  predicate Fits(devkit: int, rs: seq<ModuleRecord>)
    requires AsciiPaths(rs)
  {
    var modes := |ModeEntries(rs, 8)|;
    && 0 <= devkit < U32_MODULUS
    && HEADER_SIZE + MODE_SIZE * modes + MODULE_SIZE * |rs| + |Names(rs)| < U32_MODULUS
    && (modes > 0 ==> |rs| < U16_MODULUS)
  }

  /** Header, modes, modules and names. */
  function Image(devkit: int, rs: seq<ModuleRecord>): seq<byte>
    requires AsciiPaths(rs)
  {
    var modes := ModeEntries(rs, 8);
    Flatten(WordBlocks(HeaderWords(devkit, |modes|, |rs|, |Names(rs)|)))
    + Flatten(modes) + Flatten(ModuleEntries(SortedEntries(rs))) + Names(rs)
  }

  /** The image of a devkit word and records; a failure is one of the source's encoding or packing errors. */
  function BuildImage(devkit: int, rs: seq<ModuleRecord>): Result<seq<byte>> {
    if !AsciiPaths(rs) || !Fits(devkit, rs) then Failure else Success(Image(devkit, rs))
  }

  method CollectModes(rs: seq<ModuleRecord>) returns (modes: seq<seq<byte>>)
    ensures modes == ModeEntries(rs, 8)
  {
    modes := [];
    for k := 0 to 8
      invariant modes == ModeEntries(rs, k)
    {
      if exists i :: 0 <= i < |rs| && Bit(rs[i].runlevels, k) {
        modes := modes + [ModeEntry(|rs|, k)];
      }
    }
  }

  /** The name pool and the offset of every name in it; none if a path is not ASCII. */
  method CollectNames(rs: seq<ModuleRecord>) returns (ok: bool, names: seq<byte>, entries: seq<Entry>)
    ensures ok <==> AsciiPaths(rs)
    ensures ok ==> names == Names(rs) && entries == Entries(rs)
  {
    names, entries := [], [];
    for i := 0 to |rs|
      invariant AsciiPaths(rs[..i]) && names == Names(rs[..i]) && entries == Entries(rs[..i])
    {
      assert rs[..i + 1][..i] == rs[..i];
      if !IsAscii(rs[i].path) {
        return false, names, entries;
      }
      entries := entries + [Entry(rs[i], |names|)];
      names := names + (Encoded(rs[i].path) + [0]);
    }
    assert rs[..|rs|] == rs;
    ok := true;
  }

  method Pack(data0: seq<byte>, bs: seq<seq<byte>>) returns (data: seq<byte>)
    ensures data == data0 + Flatten(bs)
  {
    data := data0;
    assert bs[..0] == [];
    for i := 0 to |bs|
      invariant data == data0 + Flatten(bs[..i])
    {
      assert bs[..i + 1][..i] == bs[..i];
      data := data + bs[i];
    }
    assert bs[..|bs|] == bs;
  }

  /** build: used modes, names, then header, mode entries, sorted module entries and names. */
  method BuildRecords(devkit: int, rs: seq<ModuleRecord>) returns (r: Result<seq<byte>>)
    ensures r == BuildImage(devkit, rs)
  {
    hide Flatten, ModeEntries, Names, Entries, HeaderWords, WordBlocks, StableSort;
    var modes := CollectModes(rs);
    var ok, names, entries := CollectNames(rs);
    if !ok {
      return Failure;
    }
    if !(0 <= devkit < U32_MODULUS)
       || HEADER_SIZE + MODE_SIZE * |modes| + MODULE_SIZE * |rs| + |names| >= U32_MODULUS
       || (|modes| > 0 && |rs| >= U16_MODULUS) {
      return Failure;
    }
    var head := WordBlocks(HeaderWords(devkit, |modes|, |rs|, |names|));
    var data := Pack([], head);
    assert data == Flatten(head);
    data := Pack(data, modes);
    var sorted := StableSort(entries, EntryKey);
    data := Pack(data, ModuleEntries(sorted));
    r := Success(data + names);
  }
}
