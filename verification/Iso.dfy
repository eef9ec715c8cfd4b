/**
  ISO 9660 directories (ECMA-119, sections 6.8.1 and 9.1): the records of a directory extent, the walk
  along a path, and which records a scan with the driver's gap rule reaches.
*/
module Iso {
  import opened Bytes
  import opened Errors

  const SECTOR_SIZE := 2048
  const DIRECTORY_FLAG := 2

  /** What the driver keeps of a directory record. */
  datatype Record = Record(lba: nat, size: nat, flags: nat)

  /** A directory record with its identifier. */
  datatype Entry = Entry(record: Record, id: seq<byte>)

  function SizeToSectors(size: nat): (n: nat)
    ensures size <= n * SECTOR_SIZE < size + SECTOR_SIZE
  {
    size / SECTOR_SIZE + if size % SECTOR_SIZE != 0 then 1 else 0
  }

  /** The sectors that hold `size` bytes from sector `lba` on. */
  function Sectors(disc: seq<byte>, lba: nat, count: nat): seq<byte>
    requires (lba + count) * SECTOR_SIZE <= |disc|
  {
    disc[lba * SECTOR_SIZE..(lba + count) * SECTOR_SIZE]
  }

  predicate OnDisc(disc: seq<byte>, r: Record) {
    (r.lba + SizeToSectors(r.size)) * SECTOR_SIZE <= |disc|
  }

  function DirBytes(disc: seq<byte>, r: Record): (d: seq<byte>)
    requires OnDisc(disc, r)
    ensures |d| == SizeToSectors(r.size) * SECTOR_SIZE
  {
    Sectors(disc, r.lba, SizeToSectors(r.size))
  }

  // ----- records of a directory

  function RecordAt(d: seq<byte>, p: nat): Record
    requires p + 33 <= |d|
  {
    Record(Read32(d, p + 2), Read32(d, p + 10), d[p + 25])
  }

  function EntryAt(d: seq<byte>, p: nat): Entry
    requires p + 33 <= |d| && p + 33 + d[p + 32] as int <= |d|
  {
    Entry(RecordAt(d, p), d[p + 33..p + 33 + d[p + 32] as int])
  }

  /** The size of the driver's buffer for names. */
  const NAME_SIZE := 32

  /** An identifier that fills the name buffer has to end inside it. */
  predicate Ends(id: seq<byte>) {
    |id| == NAME_SIZE ==> id[0] == 0 || id[0] == 1 || NameEnd(id, 0) < NAME_SIZE
  }

  /** A record inside its sector, with an identifier and an extent the driver can name. */
  predicate GoodRecord(d: seq<byte>, p: nat) {
    && p + 34 <= |d| && p % SECTOR_SIZE + d[p] as int <= SECTOR_SIZE
    && 1 <= d[p + 32] && 33 + d[p + 32] as int <= d[p] as int
    && p + d[p] as int <= |d|
    && Read32(d, p + 2) < 0x8000_0000
    && Ends(EntryAt(d, p).id)
  }

  function NextSector(p: nat): (q: nat)
    ensures q > p && q % SECTOR_SIZE == 0 && q - p <= SECTOR_SIZE
  {
    p + (SECTOR_SIZE - p % SECTOR_SIZE)
  }

  /** From `p` on the directory is records one after the other; a zero byte ends the records of a sector. */
  predicate GoodFrom(d: seq<byte>, p: nat)
    decreases |d| - p
  {
    if p >= |d| then p == |d|
    else if d[p] == 0 then GoodFrom(d, NextSector(p))
    else GoodRecord(d, p) && GoodFrom(d, p + d[p] as int)
  }

  /** All entries from `p` on. */
  function Entries(d: seq<byte>, p: nat): seq<Entry>
    requires GoodFrom(d, p)
    decreases |d| - p
  {
    if p >= |d| then []
    else if d[p] == 0 then Entries(d, NextSector(p))
    else [EntryAt(d, p)] + Entries(d, p + d[p] as int)
  }

  /**
    What is left of the sector at byte `pos` of the device, as the source computes it: `pos` is an int, and
    from sector 2^20 on it wraps to a negative one, whose remainder is negative or zero.
  */
  function Gap(pos: nat): (gap: int)
  {
    SECTOR_SIZE - Remainder(IntCast(pos), SECTOR_SIZE)
  }

  /** The gap is what is left of the sector, unless the position has wrapped: then it is at least a sector. */
  lemma GapExactly(lba: nat, p: nat)
    ensures IntCast(lba * SECTOR_SIZE + p) >= 0 ==> Gap(lba * SECTOR_SIZE + p) == NextSector(p) - p
    ensures IntCast(lba * SECTOR_SIZE + p) < 0 ==> Gap(lba * SECTOR_SIZE + p) >= SECTOR_SIZE
  {
    var pos := lba * SECTOR_SIZE + p;
    WrapKeepsRemainder(pos);
    SectorRemainder(lba, p);
  }

  /** Nothing wraps in a directory of at most 8 sectors that ends before sector 2^20. */
  lemma LowSectors(lba: nat, p: nat)
    requires p <= 8 * SECTOR_SIZE && lba + 8 < 0x10_0000
    ensures Gap(lba * SECTOR_SIZE + p) == NextSector(p) - p
  {
    GapExactly(lba, p);
  }

  lemma WrapKeepsRemainder(pos: nat)
    ensures IntCast(pos) % SECTOR_SIZE == pos % SECTOR_SIZE
  {
    var q := pos / U32_MODULUS;
    assert pos == 0x20_0000 * SECTOR_SIZE * q + pos % U32_MODULUS;
  }

  lemma SectorRemainder(lba: nat, p: nat)
    ensures (lba * SECTOR_SIZE + p) % SECTOR_SIZE == p % SECTOR_SIZE
  {
  }

  /**
    The entries a scan of a directory at sector `lba` reaches that skips to the next sector only when the
    gap is no longer than the record before, `last`, and that stops at a sector without records.
  */
  function Reached(d: seq<byte>, p: nat, last: nat, lba: nat): seq<Entry>
    requires GoodFrom(d, p)
    decreases |d| - p
  {
    if p >= |d| then []
    else if d[p] != 0 then [EntryAt(d, p)] + Reached(d, p + d[p] as int, d[p] as int, lba)
    else if Gap(lba * SECTOR_SIZE + p) <= last && NextSector(p) < |d| && d[NextSector(p)] != 0 then
      Reached(d, NextSector(p), last, lba)
    else []
  }

  /** Every gap that has entries after it is no longer than the record before it and leads to a record. */
  predicate GapsShort(d: seq<byte>, p: nat, last: nat, lba: nat)
    requires GoodFrom(d, p)
    decreases |d| - p
  {
    if p >= |d| then true
    else if d[p] != 0 then GapsShort(d, p + d[p] as int, d[p] as int, lba)
    else
      Entries(d, p) == []
      || (Gap(lba * SECTOR_SIZE + p) <= last && NextSector(p) < |d| && d[NextSector(p)] != 0
          && GapsShort(d, NextSector(p), last, lba))
  }

  /** The scan sees a prefix of the directory, and all of it exactly when the gaps are short. */
  lemma {:induction false} ReachedEntries(d: seq<byte>, p: nat, last: nat, lba: nat)
    requires GoodFrom(d, p)
    ensures Reached(d, p, last, lba) <= Entries(d, p)
    ensures Reached(d, p, last, lba) == Entries(d, p) <==> GapsShort(d, p, last, lba)
    decreases |d| - p
  {
    hide Gap;
    if p < |d| {
      if d[p] != 0 {
        var next := p + d[p] as int;
        ReachedEntries(d, next, d[p] as int, lba);
        assert Entries(d, p)[1..] == Entries(d, next);
        assert Reached(d, p, last, lba)[1..] == Reached(d, next, d[p] as int, lba);
      } else if Gap(lba * SECTOR_SIZE + p) <= last && NextSector(p) < |d| && d[NextSector(p)] != 0 {
        ReachedEntries(d, NextSector(p), last, lba);
      }
    }
  }

  /** Where the position has wrapped to a negative int, no later sector is reached. */
  lemma WrappedEnds(d: seq<byte>, p: nat, last: nat, lba: nat)
    requires GoodFrom(d, p) && p < |d| && d[p] == 0 && last < SECTOR_SIZE
    requires IntCast(lba * SECTOR_SIZE + p) < 0
    ensures Reached(d, p, last, lba) == []
    ensures GapsShort(d, p, last, lba) <==> Entries(d, p) == []
  {
    hide Gap;
    GapExactly(lba, p);
  }

  // ----- lookup

  /** The index of the first zero byte or ";1", whichever cuts the name first; the driver drops both. */
  function NameEnd(id: seq<byte>, i: nat): (e: nat)
    requires i <= |id|
    ensures i <= e <= |id|
    decreases |id| - i
  {
    if i == |id| || id[i] == 0 then i
    else if i + 1 < |id| && id[i] == 59 && id[i + 1] == 49 then i
    else NameEnd(id, i + 1)
  }

  /** A zero byte, or ";1". */
  predicate CutHere(id: seq<byte>, k: nat) {
    k < |id| && (id[k] == 0 || (id[k] == 59 && k + 1 < |id| && id[k + 1] == 49))
  }

  lemma {:induction false} NameEndIs(id: seq<byte>, i: nat)
    requires i <= |id|
    ensures var e := NameEnd(id, i);
            (e < |id| ==> CutHere(id, e)) && forall k :: i <= k < e ==> !CutHere(id, k)
    decreases |id| - i
  {
    if i < |id| && !CutHere(id, i) {
      NameEndIs(id, i + 1);
    }
  }

  function NormalName(id: seq<byte>): seq<byte> {
    id[..NameEnd(id, 0)]
  }

  /** The name of an entry: identifiers that start with byte 0 or 1 are the directory and its parent. */
  function EntryName(e: Entry): seq<byte>
    requires e.id != []
  {
    if e.id[0] == 0 then DOT else if e.id[0] == 1 then DOT_DOT else NormalName(e.id)
  }

  predicate IsSpecial(e: Entry)
    requires e.id != []
  {
    e.id[0] == 0 || e.id[0] == 1
  }

  datatype Outcome = Found(record: Record) | Error(code: int)

  predicate Named(es: seq<Entry>) {
    forall i :: 0 <= i < |es| ==> es[i].id != []
  }

  /** The first entry of that name; where a directory is wanted, a plain file is an error. */
  function Lookup(es: seq<Entry>, name: seq<byte>, isDir: bool): Outcome
    requires Named(es)
  {
    if es == [] then Error(ENOENT)
    else if EntryName(es[0]) != name then Lookup(es[1..], name, isDir)
    else if isDir && !IsSpecial(es[0]) && es[0].record.flags / DIRECTORY_FLAG % 2 == 0 then Error(ENOTDIR)
    else Found(es[0].record)
  }

  /** The driver refuses an identifier longer than its name buffer, whatever name it looks for. */
  predicate TooLong(e: Entry) {
    |e.id| > NAME_SIZE
  }

  /** What the driver makes of entries: the first of that name, or EINVAL when it meets one that is too long. */
  function Search(es: seq<Entry>, name: seq<byte>, isDir: bool): Outcome
    requires Named(es)
  {
    if es == [] then Error(ENOENT)
    else if TooLong(es[0]) then Error(EINVAL)
    else if EntryName(es[0]) != name then Search(es[1..], name, isDir)
    else if isDir && !IsSpecial(es[0]) && es[0].record.flags / DIRECTORY_FLAG % 2 == 0 then Error(ENOTDIR)
    else Found(es[0].record)
  }

  /** The index of the first entry of that name, or the number of entries. */
  function FirstNamed(es: seq<Entry>, name: seq<byte>): (i: nat)
    requires Named(es)
    ensures i <= |es| && (i < |es| ==> EntryName(es[i]) == name) && forall k :: 0 <= k < i ==> EntryName(es[k]) != name
  {
    if es == [] || EntryName(es[0]) == name then 0 else 1 + FirstNamed(es[1..], name)
  }

  /** How many entries come before the first that is too long. */
  function ShortPrefix(es: seq<Entry>): (n: nat)
    ensures n <= |es| && (n < |es| ==> TooLong(es[n])) && forall k :: 0 <= k < n ==> !TooLong(es[k])
  {
    if es == [] || TooLong(es[0]) then 0 else 1 + ShortPrefix(es[1..])
  }

  /**
    A search that sees the entries `seen` answers as a lookup among all entries if and only if it meets no
    identifier that is too long before the first entry of that name, or at all when there is none, and sees
    that entry.
  */
  lemma {:induction false} SearchExactly(seen: seq<Entry>, es: seq<Entry>, name: seq<byte>, isDir: bool)
    requires Named(es) && seen <= es
    ensures Named(seen)
    ensures Search(seen, name, isDir) == Lookup(es, name, isDir) <==>
              if FirstNamed(es, name) < |es| then FirstNamed(es, name) < ShortPrefix(seen)
              else ShortPrefix(seen) == |seen|
    ensures Search(seen, name, isDir).Found? ==> Search(seen, name, isDir) == Lookup(es, name, isDir)
  {
    hide EntryName, IsSpecial;
    LookupErrors(es, name, isDir);
    if seen != [] {
      assert seen[0] == es[0] && seen[1..] <= es[1..];
      SearchExactly(seen[1..], es[1..], name, isDir);
    }
  }

  lemma {:induction false} LookupErrors(es: seq<Entry>, name: seq<byte>, isDir: bool)
    requires Named(es)
    ensures Lookup(es, name, isDir) != Error(EINVAL)
    ensures Lookup(es, name, isDir) == Error(ENOENT) <==> FirstNamed(es, name) == |es|
  {
    if es != [] {
      LookupErrors(es[1..], name, isDir);
    }
  }

  /** What a lookup answers, by the first entry of that name. */
  lemma {:induction false} LookupAnswers(es: seq<Entry>, name: seq<byte>, isDir: bool, i: nat)
    requires Named(es) && i < |es| && EntryName(es[i]) == name
    requires forall k :: 0 <= k < i ==> EntryName(es[k]) != name
    ensures Lookup(es, name, isDir)
         == if isDir && es[i].id[0] > 1 && es[i].record.flags / 2 % 2 == 0 then Error(ENOTDIR) else Found(es[i].record)
  {
    if i > 0 {
      LookupAnswers(es[1..], name, isDir, i - 1);
    }
  }

  predicate NoneLong(es: seq<Entry>) {
    forall i :: 0 <= i < |es| ==> !TooLong(es[i])
  }

  predicate DistinctNames(es: seq<Entry>)
    requires Named(es)
  {
    forall i, j :: 0 <= i < j < |es| ==> EntryName(es[i]) != EntryName(es[j])
  }

  /** Every search that sees the entries `seen` answers as a lookup among all entries. */
  ghost predicate AlwaysFinds(seen: seq<Entry>, es: seq<Entry>)
    requires Named(es) && seen <= es
  {
    forall name: seq<byte>, isDir: bool ::
      Search(seen, name, isDir) == Lookup(es, name, isDir)
  }

  /** A size that no name of an entry has. */
  function Beyond(es: seq<Entry>): (n: nat)
    requires Named(es)
    ensures forall i :: 0 <= i < |es| ==> |EntryName(es[i])| < n
  {
    if es == [] then 1
    else
      var n := Beyond(es[1..]);
      if |EntryName(es[0])| < n then n else |EntryName(es[0])| + 1
  }

  /** Where names are distinct, that holds if and only if all entries are seen and none is too long. */
  lemma FindsExactly(seen: seq<Entry>, es: seq<Entry>)
    requires Named(es) && seen <= es && DistinctNames(es)
    ensures AlwaysFinds(seen, es) <==> seen == es && NoneLong(es)
  {
    hide EntryName, Search, Lookup, Beyond;
    if seen == es && NoneLong(es) {
      forall name: seq<byte>, isDir: bool ensures Search(seen, name, isDir) == Lookup(es, name, isDir) {
        SearchExactly(seen, es, name, isDir);
      }
    }
    if AlwaysFinds(seen, es) {
      var absent := Repeat(65, Beyond(es));
      SearchExactly(seen, es, absent, false);
      if |seen| < |es| {
        var e := es[|seen|];
        SearchExactly(seen, es, EntryName(e), false);
      }
      assert seen == es;
    }
  }

  /** In a directory with distinct names a scan finds all if and only if gaps are short and no name is too long. */
  lemma ScanExactly(d: seq<byte>, p: nat, last: nat, lba: nat)
    requires GoodFrom(d, p) && Named(Entries(d, p)) && DistinctNames(Entries(d, p))
    ensures Reached(d, p, last, lba) <= Entries(d, p)
    ensures AlwaysFinds(Reached(d, p, last, lba), Entries(d, p))
            <==> GapsShort(d, p, last, lba) && NoneLong(Entries(d, p))
  {
    ReachedEntries(d, p, last, lba);
    FindsExactly(Reached(d, p, last, lba), Entries(d, p));
  }

  lemma {:induction false} EntriesNamed(d: seq<byte>, p: nat)
    requires GoodFrom(d, p)
    ensures Named(Entries(d, p))
    decreases |d| - p
  {
    if p < |d| {
      if d[p] == 0 {
        EntriesNamed(d, NextSector(p));
      } else {
        EntriesNamed(d, p + d[p] as int);
      }
    }
  }

  lemma ReachedNamed(d: seq<byte>, p: nat, last: nat, lba: nat)
    requires GoodFrom(d, p)
    ensures Named(Reached(d, p, last, lba))
  {
    EntriesNamed(d, p);
    ReachedEntries(d, p, last, lba);
    assert forall i :: 0 <= i < |Reached(d, p, last, lba)| ==> Reached(d, p, last, lba)[i] == Entries(d, p)[i];
  }

  /** The scan at a record: that entry first, then what follows it. */
  lemma ReachedStep(d: seq<byte>, p: nat, last: nat, lba: nat)
    requires GoodFrom(d, p) && p < |d| && d[p] != 0
    ensures GoodRecord(d, p) && GoodFrom(d, p + d[p] as int)
    ensures Reached(d, p, last, lba) == [EntryAt(d, p)] + Reached(d, p + d[p] as int, d[p] as int, lba)
  {
  }

  /** Where the scan ends or skips to. */
  lemma ReachedGap(d: seq<byte>, p: nat, last: nat, lba: nat)
    requires GoodFrom(d, p) && p <= |d| && |d| % SECTOR_SIZE == 0 && last < SECTOR_SIZE && (p < |d| ==> d[p] == 0)
    ensures var gap, q := Gap(lba * SECTOR_SIZE + p), NextSector(p);
            && (gap <= last ==> p + gap == q <= |d|)
            && if gap <= last && q < |d| && d[q] != 0 then
                 GoodFrom(d, q) && Reached(d, p, last, lba) == Reached(d, q, last, lba)
               else Reached(d, p, last, lba) == []
  {
    hide Gap;
    GapExactly(lba, p);
  }

  /** The components of a path that a slash ends. */
  function Components(path: seq<byte>): seq<seq<byte>> {
    var k := SlashAt(path, 0);
    if k == |path| then [] else [path[..k]] + Components(path[k + 1..])
  }

  const SLASH: byte := 47

  /** Names, each followed by a slash. */
  function Slashed(names: seq<seq<byte>>): seq<byte> {
    if names == [] then [] else names[0] + [47] + Slashed(names[1..])
  }

  predicate NoSlash(name: seq<byte>) {
    forall i :: 0 <= i < |name| ==> name[i] != 47
  }

  predicate Splits(path: seq<byte>, names: seq<seq<byte>>, rest: seq<byte>) {
    path == Slashed(names) + rest && NoSlash(rest) && forall i :: 0 <= i < |names| ==> NoSlash(names[i])
  }

  lemma {:induction false} SlashFirst(path: seq<byte>, i: nat)
    requires i <= |path|
    ensures forall j :: i <= j < SlashAt(path, i) ==> path[j] != 47
    decreases |path| - i
  {
    if i < |path| && path[i] != SLASH {
      SlashFirst(path, i + 1);
    }
  }

  lemma SplitsLonger(name: seq<byte>, path: seq<byte>, names: seq<seq<byte>>, rest: seq<byte>)
    requires Splits(path, names, rest) && NoSlash(name)
    ensures Splits(name + [47] + path, [name] + names, rest)
  {
    hide NoSlash;
    assert ([name] + names)[1..] == names;
    assert name + [47] + (Slashed(names) + rest) == name + [47] + Slashed(names) + rest;
  }

  /** The components are what stands between the slashes, and what follows the last slash is none. */
  lemma {:induction false} ComponentsSplit(path: seq<byte>) returns (rest: seq<byte>)
    ensures Splits(path, Components(path), rest)
    decreases |path|
  {
    hide Splits;
    SlashFirst(path, 0);
    var k := SlashAt(path, 0);
    if k == |path| {
      rest := path;
      NoneToSplit(path);
    } else {
      rest := ComponentsSplit(path[k + 1..]);
      SplitsLonger(path[..k], path[k + 1..], Components(path[k + 1..]), rest);
      assert path == path[..k] + [47] + path[k + 1..];
    }
  }

  lemma NoneToSplit(path: seq<byte>)
    requires NoSlash(path)
    ensures Splits(path, [], path)
  {
    assert Slashed([]) + path == path;
  }

  /** There is no other way to split a path at its slashes. */
  lemma {:induction false} ComponentsUnique(path: seq<byte>, names: seq<seq<byte>>, rest: seq<byte>)
    requires Splits(path, names, rest)
    ensures names == Components(path)
    decreases |names|
  {
    hide Slashed;
    if names == [] {
      SlashedNames([]);
      assert path == rest;
    } else {
      var name, more := names[0], Slashed(names[1..]) + rest;
      SlashedNames(names);
      assert path == name + [47] + more;
      FirstSlash(name, more);
      ComponentsUnique(more, names[1..], rest);
      assert names == [name] + names[1..];
    }
  }

  lemma SlashedNames(names: seq<seq<byte>>)
    ensures Slashed(names) == if names == [] then [] else names[0] + [47] + Slashed(names[1..])
  {
  }

  lemma FirstSlash(name: seq<byte>, more: seq<byte>)
    requires NoSlash(name)
    ensures Components(name + [47] + more) == [name] + Components(more)
  {
    var path := name + [47] + more;
    assert path[|name|] == 47;
    assert forall i :: 0 <= i < |name| ==> path[i] == name[i];
    SlashFirst(path, 0);
    assert SlashAt(path, 0) == |name|;
    assert path[..|name|] == name && path[|name| + 1..] == more;
  }

  /** strchr: the index of the first slash from `i` on, or the end. */
  function SlashAt(path: seq<byte>, i: nat): (k: nat)
    requires i <= |path|
    ensures i <= k <= |path| && (k < |path| ==> path[k] == SLASH)
    decreases |path| - i
  {
    if i == |path| || path[i] == SLASH then i else SlashAt(path, i + 1)
  }

  // ----- volumes

  /** A directory the driver can search: at most 8 sectors of well-formed records. */
  predicate Searchable(disc: seq<byte>, r: Record) {
    OnDisc(disc, r) && SizeToSectors(r.size) <= 8 && GoodFrom(DirBytes(disc, r), 0)
  }

  /** The entries of a directory; with `seen` only those that the driver's scan reaches. */
  function Listing(disc: seq<byte>, r: Record, seen: bool): (es: seq<Entry>)
    requires Searchable(disc, r)
    ensures Named(es)
  {
    var d := DirBytes(disc, r);
    EntriesNamed(d, 0);
    ReachedNamed(d, 0, 0, r.lba);
    if seen then Reached(d, 0, 0, r.lba) else Entries(d, 0)
  }

  /** A name in a directory, as it should be looked up; with `seen` as the driver does. */
  function Look(disc: seq<byte>, r: Record, name: seq<byte>, isDir: bool, seen: bool): Outcome
    requires Searchable(disc, r)
  {
    if seen then Search(Listing(disc, r, true), name, isDir) else Lookup(Listing(disc, r, false), name, isDir)
  }

  /** A directory of which the driver sees everything and refuses nothing. */
  predicate GoodDirectory(disc: seq<byte>, r: Record) {
    && Searchable(disc, r) && GapsShort(DirBytes(disc, r), 0, 0, r.lba)
    && NoneLong(Entries(DirBytes(disc, r), 0))
  }

  /** What the driver finds is there, in every directory it can search; and in a good one it finds all. */
  lemma LookSound(disc: seq<byte>, r: Record, name: seq<byte>, isDir: bool)
    requires Searchable(disc, r)
    ensures Listing(disc, r, true) <= Listing(disc, r, false)
    ensures Look(disc, r, name, isDir, true).Found? ==>
              Look(disc, r, name, isDir, true) == Look(disc, r, name, isDir, false)
    ensures GoodDirectory(disc, r) ==> Look(disc, r, name, isDir, true) == Look(disc, r, name, isDir, false)
  {
    hide Search, Lookup, Reached, Entries, GapsShort, GoodFrom, TooLong;
    var d := DirBytes(disc, r);
    ReachedEntries(d, 0, 0, r.lba);
    SearchExactly(Listing(disc, r, true), Listing(disc, r, false), name, isDir);
  }

  /** `dirs` can be searched, and so can every directory they list, themselves and their parents included. */
  predicate Volume(disc: seq<byte>, dirs: set<Record>, seen: bool) {
    forall r | r in dirs ::
      && Searchable(disc, r)
      && forall i :: 0 <= i < |Listing(disc, r, seen)| ==>
           var e := Listing(disc, r, seen)[i];
           IsSpecial(e) || e.record.flags / DIRECTORY_FLAG % 2 == 1 ==> e.record in dirs
  }

  /** A volume of directories that hide nothing. */
  predicate GoodVolume(disc: seq<byte>, dirs: set<Record>) {
    Volume(disc, dirs, false) && forall r | r in dirs :: GoodDirectory(disc, r)
  }

  /** The driver needs less of a volume than is there. */
  lemma VolumeSeen(disc: seq<byte>, dirs: set<Record>)
    requires Volume(disc, dirs, false)
    ensures Volume(disc, dirs, true)
  {
    hide Listing, Searchable;
    forall r | r in dirs
      ensures Searchable(disc, r)
      ensures forall i :: 0 <= i < |Listing(disc, r, true)| ==>
           var e := Listing(disc, r, true)[i];
           IsSpecial(e) || e.record.flags / DIRECTORY_FLAG % 2 == 1 ==> e.record in dirs
    {
      LookSound(disc, r, [], false);
      assert forall i :: 0 <= i < |Listing(disc, r, true)| ==> Listing(disc, r, true)[i] == Listing(disc, r, false)[i];
    }
  }

  /** How deep a component leads. */
  function LevelAfter(level: int, name: seq<byte>): int {
    if name == DOT then level else if name == DOT_DOT then level - 1 else level + 1
  }

  /** The walk from directory `r` along the components, at most 8 levels deep; with `seen` as the driver goes. */
  function Walk(disc: seq<byte>, dirs: set<Record>, r: Record, components: seq<seq<byte>>, level: int, seen: bool):
      Outcome
    requires Volume(disc, dirs, seen) && r in dirs
    decreases |components|
  {
    if components == [] then Found(r)
    else if |components[0]| + 1 > NAME_SIZE then Error(ENAMETOOLONG)
    else if LevelAfter(level, components[0]) > 8 then Error(EINVAL)
    else
      var next := Look(disc, r, components[0], true, seen);
      if next.Error? then next
      else
        LookStays(disc, dirs, r, components[0], seen);
        Walk(disc, dirs, next.record, components[1..], LevelAfter(level, components[0]), seen)
  }

  /** Components that name something below, less those that lead to a parent: "." is 46, ".." twice that. */
  function Depth(names: seq<seq<byte>>): int {
    |names| - multiset(names)[[46]] - 2 * multiset(names)[[46, 46]]
  }

  /** A component leads one level down, ".." one up, and "." nowhere. */
  lemma DepthOfOne(name: seq<byte>, level: int)
    ensures LevelAfter(level, name) == level + Depth([name])
  {
  }

  lemma DepthOfNone()
    ensures Depth([]) == 0
  {
  }

  lemma DepthJoins(a: seq<seq<byte>>, b: seq<seq<byte>>)
    ensures Depth(a + b) == Depth(a) + Depth(b)
  {
  }

  /**
    The walk along one component more: the errors met before, or the limits on names and depth, or else the
    directory of that name in the one arrived at.
  */
  lemma {:induction false} WalkAppend(disc: seq<byte>, dirs: set<Record>, r: Record, names: seq<seq<byte>>,
      name: seq<byte>, level: int, seen: bool)
    requires Volume(disc, dirs, seen) && r in dirs
    ensures var so := Walk(disc, dirs, r, names, level, seen);
            so.Found? ==> so.record in dirs && Searchable(disc, so.record)
    ensures var so := Walk(disc, dirs, r, names, level, seen);
            var depth := level + Depth(names);
            Walk(disc, dirs, r, names + [name], level, seen)
            == if so.Error? then so
               else if |name| > 31 then Error(ENAMETOOLONG)
               else if depth + Depth([name]) > 8 then Error(EINVAL)
               else Look(disc, so.record, name, true, seen)
    decreases |names|
  {
    hide Volume, Look, Searchable, Depth, LevelAfter;
    InVolume(disc, dirs, r, seen);
    DepthOfOne(name, level);
    DepthOfNone();
    if names == [] {
      assert names + [name] == [name] && [name][1..] == [];
    } else {
      var next := Look(disc, r, names[0], true, seen);
      assert (names + [name])[0] == names[0] && (names + [name])[1..] == names[1..] + [name];
      assert names == [names[0]] + names[1..];
      DepthOfOne(names[0], level);
      DepthJoins([names[0]], names[1..]);
      if next.Found? {
        LookStays(disc, dirs, r, names[0], seen);
        WalkAppend(disc, dirs, next.record, names[1..], name, LevelAfter(level, names[0]), seen);
      }
    }
  }

  lemma LookStays(disc: seq<byte>, dirs: set<Record>, r: Record, name: seq<byte>, seen: bool)
    requires Volume(disc, dirs, seen) && r in dirs
    ensures var o := Look(disc, r, name, true, seen); o.Found? ==> o.record in dirs
  {
    hide Search, Lookup, Searchable, IsSpecial, Listing;
    if Look(disc, r, name, true, seen).Found? {
      var es := Listing(disc, r, seen);
      if seen {
        FoundNamed(es, name);
      }
      var i := LookupSource(es, name);
      assert Volume(disc, dirs, seen) && es[i].record in dirs;
    }
  }

  lemma FoundNamed(es: seq<Entry>, name: seq<byte>)
    requires Named(es) && Search(es, name, true).Found?
    ensures Lookup(es, name, true) == Search(es, name, true)
  {
    hide Search, Lookup;
    SearchExactly(es, es, name, true);
  }

  lemma {:induction false} LookupSource(es: seq<Entry>, name: seq<byte>) returns (i: nat)
    requires Named(es) && Lookup(es, name, true).Found?
    ensures i < |es| && es[i].record == Lookup(es, name, true).record
    ensures IsSpecial(es[i]) || es[i].record.flags / DIRECTORY_FLAG % 2 == 1
  {
    if EntryName(es[0]) != name {
      i := LookupSource(es[1..], name);
      i := i + 1;
    } else {
      i := 0;
    }
  }

  /** What the driver's walk arrives at is what the path stands for, in every volume it can search. */
  lemma {:induction false} WalkSound(disc: seq<byte>, dirs: set<Record>, r: Record, components: seq<seq<byte>>,
      level: int)
    requires Volume(disc, dirs, false) && r in dirs
    ensures Volume(disc, dirs, true)
    ensures Walk(disc, dirs, r, components, level, true).Found? ==>
              Walk(disc, dirs, r, components, level, true) == Walk(disc, dirs, r, components, level, false)
    ensures GoodVolume(disc, dirs) ==>
              Walk(disc, dirs, r, components, level, true) == Walk(disc, dirs, r, components, level, false)
    decreases |components|
  {
    hide Volume, Look, Searchable, GoodDirectory;
    VolumeSeen(disc, dirs);
    if components != [] {
      InVolume(disc, dirs, r, false);
      LookSound(disc, r, components[0], true);
      var next := Look(disc, r, components[0], true, true);
      if next.Found? {
        LookStays(disc, dirs, r, components[0], true);
        WalkSound(disc, dirs, next.record, components[1..], LevelAfter(level, components[0]));
      }
    }
  }

  lemma InVolume(disc: seq<byte>, dirs: set<Record>, r: Record, seen: bool)
    requires Volume(disc, dirs, seen) && r in dirs
    ensures Searchable(disc, r)
  {
  }
}
