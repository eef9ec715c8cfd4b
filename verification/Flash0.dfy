/** The flash0 package: headers, names and buffers in three growing regions, and the merge that fills it. */
module Flash0 {
  import opened Bytes

  const PACKAGE_SIZE := 0x92_0000
  const EXTRA_MEMORY := 0x8B00_0000
  const HEADER := 12
  const NAMES := 0x1000
  const BUFFERS := 0x2000
  const ALIGNMENT := 0x40

  datatype FlashFile = FlashFile(name: seq<byte>, bytes: seq<byte>)

  /** Where a file's name and bytes stand. */
  datatype Slot = Slot(name: nat, buffer: nat)

  function Align(x: nat): (r: nat)
    ensures x <= r < x + ALIGNMENT && r % ALIGNMENT == 0
  {
    (x + (ALIGNMENT - 1)) / ALIGNMENT * ALIGNMENT
  }

  /** The slots of files that are added one after the other. */
  function NamePtr(fs: seq<FlashFile>): (p: nat)
    ensures p >= NAMES
  {
    if fs == [] then NAMES else NamePtr(fs[..|fs| - 1]) + |fs[|fs| - 1].name| + 1
  }

  function BufferPtr(fs: seq<FlashFile>): (p: nat)
    ensures p >= BUFFERS
  {
    if fs == [] then BUFFERS else Align(BufferPtr(fs[..|fs| - 1])) + |fs[|fs| - 1].bytes|
  }

  /** Name and bytes of the `i`-th file. */
  function SlotAt(fs: seq<FlashFile>, i: nat): (s: Slot)
    requires i < |fs|
    ensures s.name >= NAMES && s.buffer >= BUFFERS && s.buffer % ALIGNMENT == 0
  {
    Slot(NamePtr(fs[..i]), Align(BufferPtr(fs[..i])))
  }

  /** All regions hold the files, and one header more. */
  predicate Fits(fs: seq<FlashFile>) {
    HEADER * (|fs| + 1) <= NAMES && NamePtr(fs) <= BUFFERS && BufferPtr(fs) <= PACKAGE_SIZE
  }

  lemma {:induction false} PtrsGrow(fs: seq<FlashFile>, i: nat)
    requires i <= |fs|
    ensures NamePtr(fs[..i]) <= NamePtr(fs) && BufferPtr(fs[..i]) <= BufferPtr(fs)
    decreases |fs| - i
  {
    if i < |fs| {
      PtrsGrow(fs, i + 1);
      assert fs[..i + 1][..i] == fs[..i];
    } else {
      assert fs[..i] == fs;
    }
  }

  /** No two files share a byte: the ranges of a later file start where those of an earlier one have ended. */
  lemma SlotsDisjoint(fs: seq<FlashFile>, i: nat, j: nat)
    requires i < j < |fs|
    ensures SlotAt(fs, i).name + |fs[i].name| + 1 <= SlotAt(fs, j).name
    ensures SlotAt(fs, i).buffer + |fs[i].bytes| <= SlotAt(fs, j).buffer
    ensures SlotAt(fs, j).name + |fs[j].name| + 1 <= NamePtr(fs)
            && SlotAt(fs, j).buffer + |fs[j].bytes| <= BufferPtr(fs)
  {
    PtrsGrow(fs[..j], i + 1);
    assert fs[..j][..i + 1] == fs[..i + 1] && fs[..i + 1][..i] == fs[..i];
    PtrsGrow(fs, j + 1);
    assert fs[..j + 1][..j] == fs[..j];
  }

  function HeaderBytes(f: FlashFile, s: Slot): (h: seq<byte>)
    ensures |h| == HEADER
  {
    Le32(EXTRA_MEMORY + s.name) + Le32(EXTRA_MEMORY + s.buffer) + Le32(|f.bytes|)
  }

  /** Header, name and bytes of one file are in place. */
  predicate Holds(data: seq<byte>, i: nat, f: FlashFile, s: Slot) {
    At(data, HEADER * i, HeaderBytes(f, s)) && At(data, s.name, f.name + [0]) && At(data, s.buffer, f.bytes)
  }

  /** The package of the files: all in place, and zeros where no header is yet. */
  ghost predicate Package(data: seq<byte>, fs: seq<FlashFile>) {
    && |data| == PACKAGE_SIZE && HEADER * |fs| <= NAMES
    && (forall i: nat :: i < |fs| ==> NulFree(fs[i].name) && Holds(data, i, fs[i], SlotAt(fs, i)))
    && (forall k :: HEADER * |fs| <= k < NAMES ==> data[k] == 0)
  }

  // ----- building

  /** The bytes after adding a file: buffer, name, header. */
  function Added(data: seq<byte>, fs: seq<FlashFile>, f: FlashFile): (r: seq<byte>)
    requires |data| == PACKAGE_SIZE && Fits(fs + [f])
    ensures |r| == |data|
  {
    AppendFits(fs, f);
    var s := SlotAt(fs + [f], |fs|);
    var named := Overwritten(Overwritten(data, s.buffer, f.bytes), s.name, f.name + [0]);
    Overwritten(named, HEADER * |fs|, HeaderBytes(f, s))
  }

  lemma AppendFits(fs: seq<FlashFile>, f: FlashFile)
    requires Fits(fs + [f])
    ensures var s := SlotAt(fs + [f], |fs|);
            && s == Slot(NamePtr(fs), Align(BufferPtr(fs)))
            && NamePtr(fs + [f]) == s.name + |f.name| + 1 && BufferPtr(fs + [f]) == s.buffer + |f.bytes|
            && s.name + |f.name| + 1 <= BUFFERS && s.buffer + |f.bytes| <= PACKAGE_SIZE
            && HEADER * (|fs| + 1) <= NAMES
  {
    assert (fs + [f])[..|fs|] == fs;
  }

  /** Adding a file keeps every file added before and completes the package for one more. */
  lemma AddKeeps(data: seq<byte>, fs: seq<FlashFile>, f: FlashFile)
    requires Package(data, fs) && Fits(fs + [f]) && NulFree(f.name)
    ensures Package(Added(data, fs, f), fs + [f])
  {
    hide HeaderBytes, Overwritten, At, Align, SlotAt;
    AppendFits(fs, f);
    var all := fs + [f];
    var s := SlotAt(all, |fs|);
    var d1 := Overwritten(data, s.buffer, f.bytes);
    var d2 := Overwritten(d1, s.name, f.name + [0]);
    var r := Overwritten(d2, HEADER * |fs|, HeaderBytes(f, s));
    Present(data, s.buffer, f.bytes);
    Present(d1, s.name, f.name + [0]);
    Present(d2, HEADER * |fs|, HeaderBytes(f, s));
    Kept(d1, s.name, f.name + [0], s.buffer, f.bytes);
    Kept(d2, HEADER * |fs|, HeaderBytes(f, s), s.buffer, f.bytes);
    Kept(d2, HEADER * |fs|, HeaderBytes(f, s), s.name, f.name + [0]);
    forall i: nat | i < |all| ensures NulFree(all[i].name) && Holds(r, i, all[i], SlotAt(all, i)) {
      if i < |fs| {
        SlotsDisjoint(all, i, |fs|);
        SameSlot(fs, f, i);
        assert Holds(data, i, fs[i], SlotAt(fs, i));
        KeptFile(data, i, fs[i], SlotAt(fs, i), |fs|, f, s);
      }
    }
    HeadersZero(data, fs, f);
  }

  lemma SameSlot(fs: seq<FlashFile>, f: FlashFile, i: nat)
    requires i < |fs|
    ensures SlotAt(fs + [f], i) == SlotAt(fs, i)
  {
    assert (fs + [f])[..i] == fs[..i];
  }

  lemma KeptFile(data: seq<byte>, i: nat, g: FlashFile, t: Slot, n: nat, f: FlashFile, s: Slot)
    requires |data| == PACKAGE_SIZE && i < n && HEADER * (n + 1) <= NAMES && Holds(data, i, g, t)
    requires NAMES <= t.name && t.name + |g.name| + 1 <= s.name && s.name + |f.name| + 1 <= BUFFERS
    requires BUFFERS <= t.buffer && t.buffer + |g.bytes| <= s.buffer && s.buffer + |f.bytes| <= PACKAGE_SIZE
    ensures var d1 := Overwritten(data, s.buffer, f.bytes);
            var d2 := Overwritten(d1, s.name, f.name + [0]);
            Holds(Overwritten(d2, HEADER * n, HeaderBytes(f, s)), i, g, t)
  {
    hide HeaderBytes, Overwritten, At;
    var d1 := Overwritten(data, s.buffer, f.bytes);
    var d2 := Overwritten(d1, s.name, f.name + [0]);
    KeptThrice(data, HEADER * i, HeaderBytes(g, t), n, f, s);
    KeptThrice(data, t.name, g.name + [0], n, f, s);
    KeptThrice(data, t.buffer, g.bytes, n, f, s);
  }

  lemma KeptThrice(data: seq<byte>, j: nat, other: seq<byte>, n: nat, f: FlashFile, s: Slot)
    requires |data| == PACKAGE_SIZE && At(data, j, other)
    requires HEADER * (n + 1) <= NAMES <= s.name && s.name + |f.name| + 1 <= BUFFERS <= s.buffer
             && s.buffer + |f.bytes| <= PACKAGE_SIZE
    requires j + |other| <= HEADER * n || (NAMES <= j && j + |other| <= s.name) || (BUFFERS <= j
             && j + |other| <= s.buffer)
    ensures var d1 := Overwritten(data, s.buffer, f.bytes);
            var d2 := Overwritten(d1, s.name, f.name + [0]);
            At(Overwritten(d2, HEADER * n, HeaderBytes(f, s)), j, other)
  {
    hide HeaderBytes, Overwritten, At;
    var d1 := Overwritten(data, s.buffer, f.bytes);
    var d2 := Overwritten(d1, s.name, f.name + [0]);
    Kept(data, s.buffer, f.bytes, j, other);
    Kept(d1, s.name, f.name + [0], j, other);
    Kept(d2, HEADER * n, HeaderBytes(f, s), j, other);
  }

  lemma HeadersZero(data: seq<byte>, fs: seq<FlashFile>, f: FlashFile)
    requires Package(data, fs) && Fits(fs + [f])
    ensures forall k :: HEADER * (|fs| + 1) <= k < NAMES ==> Added(data, fs, f)[k] == 0
  {
    hide HeaderBytes, Holds, Overwritten, SlotAt, At;
    AppendFits(fs, f);
    var s := SlotAt(fs + [f], |fs|);
    var d1 := Overwritten(data, s.buffer, f.bytes);
    var d2 := Overwritten(d1, s.name, f.name + [0]);
    OverwrittenAt(data, s.buffer, f.bytes);
    OverwrittenAt(d1, s.name, f.name + [0]);
    OverwrittenAt(d2, HEADER * |fs|, HeaderBytes(f, s));
  }

  // ----- reading back

  /** The file that the header at `i` points to, if its pointers lead into the package. */
  function Followed(data: seq<byte>, i: nat): Option<FlashFile>
    requires HEADER * (i + 1) <= |data|
  {
    var name := Read32(data, HEADER * i) - EXTRA_MEMORY;
    var buffer := Read32(data, HEADER * i + 4) - EXTRA_MEMORY;
    var size := Read32(data, HEADER * i + 8);
    if 0 <= name <= |data| && 0 <= buffer && buffer + size <= |data| then
      Some(FlashFile(data[name..FirstNul(data, name)], data[buffer..buffer + size]))
    else None
  }

  lemma NameInPlace(data: seq<byte>, i: nat, name: seq<byte>)
    requires At(data, i, name + [0]) && NulFree(name)
    ensures FirstNul(data, i) == i + |name| && data[i..i + |name|] == name
  {
    AtSplit(data, i, name, [0]);
    assert data[i + |name|] == data[i + |name|..i + |name| + 1][0];
    forall k | i <= k < i + |name| ensures data[k] != 0 {
      assert data[k] == data[i..i + |name|][k - i];
    }
    FirstNulUnique(data, i, i + |name|);
  }

  /** Following the header of every file gives back exactly its name and bytes. */
  lemma FollowedBack(data: seq<byte>, fs: seq<FlashFile>, i: nat)
    requires Package(data, fs) && i < |fs| && EXTRA_MEMORY + PACKAGE_SIZE < U32_MODULUS
    ensures HEADER * (i + 1) <= |data| && Followed(data, i) == Some(fs[i])
    ensures Read32(data, HEADER * i + 4) != 0
  {
    hide Le32, Read32, SlotAt, FirstNul;
    var f, s := fs[i], SlotAt(fs, i);
    assert Holds(data, i, f, s);
    var h := HeaderBytes(f, s);
    AtSplit(data, HEADER * i, Le32(EXTRA_MEMORY + s.name) + Le32(EXTRA_MEMORY + s.buffer), Le32(|f.bytes|));
    AtSplit(data, HEADER * i, Le32(EXTRA_MEMORY + s.name), Le32(EXTRA_MEMORY + s.buffer));
    Read32OfLe32(data, HEADER * i, EXTRA_MEMORY + s.name);
    Read32OfLe32(data, HEADER * i + 4, EXTRA_MEMORY + s.buffer);
    Read32OfLe32(data, HEADER * i + 8, |f.bytes|);
    NameInPlace(data, s.name, f.name);
  }

  /**
    A package as its reader sees it: 12 bytes for every file, with the addresses of name and bytes, which start
    at 0x8B000000, and the size; names from 0x1000 on, and bytes from 0x2000 on, at multiples of 64.
  */
  lemma HeaderStands(data: seq<byte>, fs: seq<FlashFile>, i: nat)
    requires Package(data, fs) && i < |fs|
    ensures 12 * i + 12 <= |data|
    ensures var name, bytes := Read32(data, 12 * i) - 0x8B00_0000, Read32(data, 12 * i + 4) - 0x8B00_0000;
            && 0x1000 <= name && At(data, name, fs[i].name + [0])
            && 0x2000 <= bytes && bytes % 64 == 0 && At(data, bytes, fs[i].bytes)
            && Read32(data, 12 * i + 8) == |fs[i].bytes|
  {
    hide Le32, Read32, SlotAt;
    var f, s := fs[i], SlotAt(fs, i);
    assert Holds(data, i, f, s);
    AtSplit(data, HEADER * i, Le32(EXTRA_MEMORY + s.name) + Le32(EXTRA_MEMORY + s.buffer), Le32(|f.bytes|));
    AtSplit(data, HEADER * i, Le32(EXTRA_MEMORY + s.name), Le32(EXTRA_MEMORY + s.buffer));
    Read32OfLe32(data, HEADER * i, EXTRA_MEMORY + s.name);
    Read32OfLe32(data, HEADER * i + 4, EXTRA_MEMORY + s.buffer);
    Read32OfLe32(data, HEADER * i + 8, |f.bytes|);
  }

  lemma NoHeader(data: seq<byte>, fs: seq<FlashFile>)
    requires Package(data, fs) && HEADER * (|fs| + 1) <= NAMES
    ensures Read32(data, HEADER * |fs| + 4) == 0
  {
    hide Holds;
  }

  /** The list of files of a package: headers up to the first without a buffer. */
  method List(data: seq<byte>, ghost fs: seq<FlashFile>) returns (list: seq<FlashFile>)
    requires Package(data, fs) && HEADER * (|fs| + 1) <= NAMES
    ensures list == fs
  {
    hide Holds, Followed, Read32;
    NoHeader(data, fs);
    var i := 0;
    list := [];
    assert fs[..0] == [];
    while Read32(data, HEADER * i + 4) != 0
      invariant i <= |fs| && list == fs[..i]
      decreases |fs| - i
    {
      FollowedBack(data, fs, i);
      list := list + [Followed(data, i).value];
      i := i + 1;
    }
    if i < |fs| {
      FollowedBack(data, fs, i);
    }
  }

  // ----- merging

  /** The first index from `j` on of a file of that name, or the end of the package. */
  function FindFrom(package: seq<FlashFile>, j: nat, name: seq<byte>): (k: nat)
    requires j <= |package|
    ensures j <= k <= |package| && (k < |package| ==> package[k].name == name)
    ensures forall i :: j <= i < k ==> package[i].name != name
    decreases |package| - j
  {
    if j == |package| || package[j].name == name then j else FindFrom(package, j + 1, name)
  }

  /** The files found for `names` by a cursor that starts at `j` and never goes back. */
  function Merge(names: seq<seq<byte>>, package: seq<FlashFile>, j: nat): seq<FlashFile>
    requires j <= |package|
    decreases |names|
  {
    if names == [] then []
    else
      var k := FindFrom(package, j, names[0]);
      if k == |package| then [] else [package[k]] + Merge(names[1..], package, k)
  }

  /** The first `n` names stand in the package from `j` on, in order, at the indices `at`. */
  predicate InOrder(names: seq<seq<byte>>, n: nat, package: seq<FlashFile>, j: nat, at: seq<nat>) {
    && n <= |names| && |at| == n
    && (forall i :: 0 <= i < n ==> j <= at[i] < |package| && package[at[i]].name == names[i])
    && (forall i, l :: 0 <= i < l < n ==> at[i] <= at[l])
  }

  /** The merge finds the longest prefix of the names that stands in the package in order. */
  lemma {:induction false} MergeFinds(names: seq<seq<byte>>, package: seq<FlashFile>, j: nat) returns (at: seq<nat>)
    requires j <= |package|
    ensures InOrder(names, |Merge(names, package, j)|, package, j, at)
    ensures forall i :: 0 <= i < |at| ==> Merge(names, package, j)[i] == package[at[i]]
    decreases |names|
  {
    at := [];
    if names != [] {
      var k := FindFrom(package, j, names[0]);
      if k < |package| {
        var rest := MergeFinds(names[1..], package, k);
        at := [k] + rest;
      }
    }
  }

  lemma {:induction false} MergeLongest(names: seq<seq<byte>>, package: seq<FlashFile>, j: nat, n: nat, at: seq<nat>)
    requires j <= |package| && InOrder(names, n, package, j, at)
    ensures n <= |Merge(names, package, j)|
    decreases |names|
  {
    if n > 0 {
      var k := FindFrom(package, j, names[0]);
      assert k <= at[0] by {
        assert package[at[0]].name == names[0];
      }
      assert InOrder(names[1..], n - 1, package, k, at[1..]) by {
        assert forall i :: 0 <= i < n - 1 ==> at[1..][i] == at[i + 1] && names[1..][i] == names[i + 1];
      }
      MergeLongest(names[1..], package, k, n - 1, at[1..]);
    }
  }

  /** A search that passes over another name finds the same file. */
  lemma FindStays(package: seq<FlashFile>, j: nat, name: seq<byte>)
    requires j < |package| && package[j].name != name
    ensures FindFrom(package, j + 1, name) == FindFrom(package, j, name)
  {
  }

  /** One step of the merge, seen from any cursor that leads to the file at `k`. */
  lemma MergeFrom(names: seq<seq<byte>>, i: nat, package: seq<FlashFile>, j: nat, k: nat)
    requires i < |names| && j <= |package| && k == FindFrom(package, j, names[i])
    ensures Merge(names[i..], package, j)
         == if k == |package| then [] else [package[k]] + Merge(names[i + 1..], package, k)
  {
    assert names[i..][1..] == names[i + 1..];
  }

  lemma MergeNone(package: seq<FlashFile>, j: nat)
    requires j <= |package|
    ensures Merge([], package, j) == []
  {
  }

  lemma MergeAtEnd(names: seq<seq<byte>>, package: seq<FlashFile>)
    ensures Merge(names, package, |package|) == []
  {
  }

  // ----- the builder

  class Builder {
    const data: array<byte>
    var pkgPtr: nat
    var namePtr: nat
    var bufferPtr: nat
    ghost var files: seq<FlashFile>

    /** Cleared package memory. */
    constructor ()
      ensures fresh(data) && Valid() && files == []
    {
      data := new byte[PACKAGE_SIZE](_ => 0);
      pkgPtr := 0;
      namePtr := NAMES;
      bufferPtr := BUFFERS;
      files := [];
    }

    ghost predicate Valid()
      reads this, data
    {
      && Package(data[..], files)
      && pkgPtr == HEADER * |files| && namePtr == NamePtr(files) && bufferPtr == BufferPtr(files)
    }

    /** addFile: buffer, name and header behind those of the files before. */
    method AddFile(f: FlashFile)
      requires Valid() && Fits(files + [f]) && NulFree(f.name)
      modifies this, data
      ensures Valid() && files == old(files) + [f]
      ensures data[..] == Added(old(data[..]), old(files), f)
    {
      hide HeaderBytes, Overwritten, Package, Fits;
      ghost var before, fs := data[..], files;
      AppendFits(fs, f);
      AddKeeps(before, fs, f);
      assert |before| == PACKAGE_SIZE by {
        PackageSize(before, fs);
      }
      bufferPtr := Align(bufferPtr);
      Store(data, bufferPtr, f.bytes);
      Store(data, namePtr, f.name + [0]);
      Store(data, pkgPtr, HeaderBytes(f, Slot(namePtr, bufferPtr)));
      pkgPtr := pkgPtr + HEADER;
      namePtr := namePtr + |f.name| + 1;
      bufferPtr := bufferPtr + |f.bytes|;
      files := files + [f];
    }

    /**
      The merge loops of ScePspemuBuildFlash0: all custom files, then the named files of the package,
      with a cursor that stays on a found file and never goes back.
    */
    method Build(custom: seq<FlashFile>, names: seq<seq<byte>>, package: seq<FlashFile>)
      requires Valid() && files == [] && Fits(custom + Merge(names, package, 0))
      requires (forall i :: 0 <= i < |custom| ==> NulFree(custom[i].name))
      requires (forall i :: 0 <= i < |package| ==> NulFree(package[i].name))
      modifies this, data
      ensures Valid() && files == custom + Merge(names, package, 0)
    {
      hide Package, Fits, NulFree, Merge, Added, FindFrom;
      ghost var all := custom + Merge(names, package, 0);
      for i := 0 to |custom|
        invariant Valid() && files == custom[..i]
      {
        assert all[..i + 1] == custom[..i] + [custom[i]];
        FitsPrefix(all, i + 1);
        AddFile(custom[i]);
      }
      assert custom[..|custom|] == custom && names[0..] == names;
      var j: nat := 0;
      for i := 0 to |names|
        invariant j <= |package| && Valid() && files + Merge(names[i..], package, j) == all
      {
        j := AddNamed(names, i, package, j, all);
      }
      assert names[|names|..] == [];
      MergeNone(package, j);
    }

    /** One round of the merge: the cursor goes on to the file named, if there is one, and the file is added. */
    method AddNamed(names: seq<seq<byte>>, i: nat, package: seq<FlashFile>, start: nat, ghost all: seq<FlashFile>)
      returns (j: nat)
      requires Valid() && i < |names| && start <= |package| && Fits(all)
      requires files + Merge(names[i..], package, start) == all
      requires forall l :: 0 <= l < |package| ==> NulFree(package[l].name)
      modifies this, data
      ensures Valid() && j == FindFrom(package, start, names[i])
      ensures files == old(files) + (if j < |package| then [package[j]] else [])
      ensures files + Merge(names[i + 1..], package, j) == all
    {
      hide Package, Fits, NulFree, Merge, Added, NamePtr, BufferPtr;
      ghost var k := FindFrom(package, start, names[i]);
      MergeFrom(names, i, package, start, k);
      MergeAtEnd(names[i + 1..], package);
      j := start;
      while j < |package|
        invariant j <= k == FindFrom(package, j, names[i]) && Valid() && files == old(files)
      {
        if package[j].name == names[i] {
          FitsNext(files, package[k], Merge(names[i + 1..], package, k));
          assert j == k;
          AddFile(package[j]);
          break;
        }
        FindStays(package, j, names[i]);
        j := j + 1;
      }
    }
  }

  lemma PackageSize(data: seq<byte>, fs: seq<FlashFile>)
    requires Package(data, fs)
    ensures |data| == PACKAGE_SIZE
  {
  }

  lemma FitsNext(fs: seq<FlashFile>, f: FlashFile, rest: seq<FlashFile>)
    requires Fits(fs + ([f] + rest))
    ensures Fits(fs + [f])
  {
    FitsPrefix(fs + ([f] + rest), |fs| + 1);
    assert (fs + ([f] + rest))[..|fs| + 1] == fs + [f];
  }

  lemma FitsPrefix(fs: seq<FlashFile>, n: nat)
    requires Fits(fs) && n <= |fs|
    ensures Fits(fs[..n])
  {
    PtrsGrow(fs, n);
  }
}
