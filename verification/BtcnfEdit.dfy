/** InsertModule: the in-place edit of a boot configuration image, shared by rebootex and payloadex. */
module BtcnfEdit {
  import opened Bytes
  import opened Btcnf
  import opened BtcnfInsertion

  /** memmove: the ranges may overlap. */
  method Memmove(buf: array<byte>, d: nat, s: nat, n: nat)
    requires d + n <= buf.Length && s + n <= buf.Length
    modifies buf
    ensures buf[..] == Overwritten(old(buf[..]), d, old(buf[..])[s..s + n])
  {
    hide Overwritten;
    ghost var was := buf[..];
    forall k | 0 <= k < n {
      buf[d + k] := buf[s + k];
    }
    OverwrittenAt(was, d, was[s..s + n]);
  }

  lemma PoolName(image: seq<byte>, offset: nat)
    requires GoodLayout(image) && Terminated(Pool(image), offset)
    ensures var start := Word(image, NAME_START) + offset;
            && start <= Word(image, NAME_END)
            && Terminated(image[..Word(image, NAME_END)], start)
            && NameAt(image[..Word(image, NAME_END)], start) == NameAt(Pool(image), offset)
  {
    hide Word;
    var a, b := Word(image, NAME_START), Word(image, NAME_END);
    var r := FirstNul(Pool(image), offset);
    forall k | a + offset <= k < a + r ensures image[..b][k] != 0 {
      assert image[..b][k] == Pool(image)[k - a];
    }
    FirstNulUnique(image[..b], a + offset, a + r);
  }

  lemma EntryField(image: seq<byte>, i: nat)
    requires HasRecords(image) && i < Word(image, MODULE_COUNT)
    ensures var p := Word(image, MODULE_START) + MODULE_SIZE * i;
            && p + MODULE_SIZE <= Word(image, NAME_START)
            && Read32(image, p) == Read32(EntryAt(Table(image), i), 0)
            && Records(image)[i].name == NameAt(Pool(image), Read32(image, p))
            && Terminated(Pool(image), Read32(image, p))
  {
    hide FirstNul, NameAt, Word;
    var p := Word(image, MODULE_START) + MODULE_SIZE * i;
    EntryStands(image, i);
    assert Terminated(Pool(image), Read32(EntryAt(Table(image), i), 0));
    assert Records(image)[i] == RecordOf(EntryAt(Table(image), i), Pool(image));
  }

  lemma EntryStands(image: seq<byte>, i: nat)
    requires HasRecords(image) && i < Word(image, MODULE_COUNT)
    ensures var p := Word(image, MODULE_START) + MODULE_SIZE * i;
            && p + MODULE_SIZE <= Word(image, NAME_START)
            && image[p..p + MODULE_SIZE] == EntryAt(Table(image), i)
            && Read32(image, p) == Read32(EntryAt(Table(image), i), 0)
  {
    hide Word, GoodTable;
    var start := Word(image, MODULE_START);
    SubSlice(image, start, Word(image, NAME_START), MODULE_SIZE * i, MODULE_SIZE);
    Read32Slice(image, start + MODULE_SIZE * i, MODULE_SIZE);
  }

  /** The string at `start`, and the zero byte that ends it. */
  lemma StringAt(s: seq<byte>, start: nat, end: nat)
    requires start <= end <= |s| && Terminated(s[..end], start)
    ensures var nul := FirstNul(s[..end], start);
            && start <= nul < |s| && s[nul] == 0 && (forall k :: start <= k < nul ==> s[k] != 0)
            && NameAt(s[..end], start) == s[start..nul]
  {
  }

  /** Looks for the first module named `moduleAfter`. */
  method FindModule(buf: array<byte>, moduleAfter: seq<byte>) returns (i: nat)
    requires HasRecords(buf[..]) && NulFree(moduleAfter)
    ensures i == Find(Records(buf[..]), moduleAfter)
  {
    hide Read32, NameAt, Terminated, Records;
    ghost var rs := Records(buf[..]);
    var n := Word(buf[..], MODULE_COUNT);
    ghost var end := Word(buf[..], NAME_END);
    i := 0;
    while i < n
      invariant i <= n && forall k :: 0 <= k < i ==> rs[k].name != moduleAfter
    {
      EntryField(buf[..], i);
      var offset := Read32(buf[..], Word(buf[..], MODULE_START) + MODULE_SIZE * i);
      PoolName(buf[..], offset);
      var start := Word(buf[..], NAME_START) + offset;
      ghost var nul := FirstNul(buf[..][..end], start);
      StringAt(buf[..], start, end);
      var equal := StrEqual(buf, start, moduleAfter, nul - start);
      if equal {
        break;
      }
      i := i + 1;
    }
    FindFirst(rs, moduleAfter, i);
  }

  lemma {:induction false} FindFirst(rs: seq<Record>, name: seq<byte>, i: nat)
    requires i <= |rs| && (i < |rs| ==> rs[i].name == name) && forall k :: 0 <= k < i ==> rs[k].name != name
    ensures Find(rs, name) == i
    decreases i
  {
    if i > 0 {
      FindFirst(rs[1..], name, i - 1);
    }
  }

  // ----- the bytes after each store

  /** Moving everything from `a` on forward by one entry, with the name already behind the pool. */
  lemma Moved(image: seq<byte>, i: nat, name: seq<byte>, flags: int)
    requires HasRecords(image) && Room(image, name) && i < Word(image, MODULE_COUNT)
    ensures var a := Word(image, MODULE_START) + MODULE_SIZE * i;
            var end := Word(image, NAME_END);
            var size := end + |name| + 1 - a;
            var s1 := Overwritten(image, end, name + [0]);
            && a <= end && a + MODULE_SIZE + size <= |image|
            && var s2 := Overwritten(s1, a + MODULE_SIZE, s1[a..a + size]);
               var s3 := Overwritten(s2, a, Le32(|Pool(image)|));
               var s4 := Overwritten(s3, a + 8, Le16(flags));
               s4 == Spliced(image, i, name, flags)
  {
    hide Read32, Le32, Le16, GoodTable, NewAttributes, Overwritten, Spliced;
    var a := Word(image, MODULE_START) + MODULE_SIZE * i;
    var end := Word(image, NAME_END);
    var size := end + |name| + 1 - a;
    var s1 := Overwritten(image, end, name + [0]);
    var s2 := Overwritten(s1, a + MODULE_SIZE, s1[a..a + size]);
    ShiftedUp(image, a, end, name + [0]);
    EntryOverwritten(image, a, |Pool(image)|, flags, s2);
    SplicedParts(image, i, name, flags);
  }

  /** A piece written at `end`, and everything from `a` on moved up by one entry. */
  lemma ShiftedUp(image: seq<byte>, a: nat, end: nat, piece: seq<byte>)
    requires a + MODULE_SIZE <= end && end + |piece| + MODULE_SIZE <= |image| && piece != []
    ensures var s1 := Overwritten(image, end, piece);
            Overwritten(s1, a + MODULE_SIZE, s1[a..end + |piece|])
            == image[..a + MODULE_SIZE] + image[a..end] + piece + image[end + |piece| + MODULE_SIZE..]
  {
    var s1 := Overwritten(image, end, piece);
    assert s1[a..end + |piece|] == image[a..end] + piece;
    assert s1[..a + MODULE_SIZE] == image[..a + MODULE_SIZE];
    assert s1[end + |piece| + MODULE_SIZE..] == image[end + |piece| + MODULE_SIZE..];
  }

  /** The old header and modes, then what an insertion leaves of table, pool and the rest. */
  function Spliced(image: seq<byte>, i: nat, name: seq<byte>, flags: int): seq<byte>
    requires GoodLayout(image) && Room(image, name) && i < Word(image, MODULE_COUNT)
  {
    Head(image)
    + (Table(image)[..MODULE_SIZE * i] + InsertedEntry(image, i, flags) + Table(image)[MODULE_SIZE * i..])
    + (Pool(image) + (name + [0]))
    + image[Word(image, NAME_END) + |name| + 1 + MODULE_SIZE..]
  }

  lemma EntryOverwritten(image: seq<byte>, a: nat, offset: int, flags: int, s2: seq<byte>)
    requires a + MODULE_SIZE <= |image| && a + 2 * MODULE_SIZE <= |s2|
             && s2[..a + MODULE_SIZE] == image[..a + MODULE_SIZE]
    ensures Overwritten(Overwritten(s2, a, Le32(offset)), a + 8, Le16(flags))
            == image[..a] + (Le32(offset) + NewAttributes(image[a + 4..a + MODULE_SIZE], flags)) + s2[a + MODULE_SIZE..]
  {
    hide Le32, Le16;
    assert forall k :: 0 <= k < a + MODULE_SIZE ==> s2[k] == s2[..a + MODULE_SIZE][k] == image[k];
    assert s2[a + 10..] == image[a + 10..a + MODULE_SIZE] + s2[a + MODULE_SIZE..];
  }

  lemma SplicedParts(image: seq<byte>, i: nat, name: seq<byte>, flags: int)
    requires GoodLayout(image) && Room(image, name) && i < Word(image, MODULE_COUNT)
    ensures var a := Word(image, MODULE_START) + MODULE_SIZE * i;
            var end := Word(image, NAME_END);
            Spliced(image, i, name, flags)
            == image[..a] + (Le32(|Pool(image)|) + NewAttributes(image[a + 4..a + MODULE_SIZE], flags))
               + (image[a..end] + (name + [0]) + image[end + |name| + 1 + MODULE_SIZE..])
  {
    hide Read32, Le32, Le16, NewAttributes, Word, InsertedEntry;
    var start, pool, end := Word(image, MODULE_START), Word(image, NAME_START), Word(image, NAME_END);
    EntryParts(image, i, flags);
    SplicedRanges(image, start, start + MODULE_SIZE * i, pool, end, InsertedEntry(image, i, flags), name + [0],
      image[end + |name| + 1 + MODULE_SIZE..]);
  }

  lemma SplicedRanges(s: seq<byte>, start: nat, a: nat, pool: nat, end: nat, entry: seq<byte>, piece: seq<byte>,
      rest: seq<byte>)
    requires start <= a <= pool <= end <= |s|
    ensures var table := s[start..pool];
            s[..start] + (table[..a - start] + entry + table[a - start..]) + (s[pool..end] + piece) + rest
            == s[..a] + entry + (s[a..end] + piece + rest)
  {
    var n := a - start;
    SubSlice(s, start, pool, 0, n);
    SubSlice(s, start, pool, n, pool - a);
    Join(s, 0, start, a);
    Join(s, a, pool, end);
    PartsGrouped(s[..start], s[start..a], entry, s[a..pool], s[pool..end], piece, rest);
  }

  lemma EntryParts(image: seq<byte>, i: nat, flags: int)
    requires GoodLayout(image) && i < Word(image, MODULE_COUNT)
    ensures var a := Word(image, MODULE_START) + MODULE_SIZE * i;
            && a + MODULE_SIZE <= Word(image, NAME_START)
            && InsertedEntry(image, i, flags)
               == Le32(|Pool(image)|) + NewAttributes(image[a + 4..a + MODULE_SIZE], flags)
  {
    hide Read32, Le32, Le16, NewAttributes, Word;
    var start, pool, n := Word(image, MODULE_START), Word(image, NAME_START), MODULE_SIZE * i;
    SubSlice(image, start, pool, n, MODULE_SIZE);
    SubSlice(image, start + n, start + n + MODULE_SIZE, 4, MODULE_SIZE - 4);
  }

  lemma PartsGrouped(a: seq<byte>, b: seq<byte>, c: seq<byte>, d: seq<byte>, e: seq<byte>, f: seq<byte>, g: seq<byte>)
    ensures a + (b + c + d) + (e + f) + g == (a + b) + c + ((d + e) + f + g)
  {
  }

  lemma BumpStep(s: seq<byte>, start: nat, n: nat)
    requires start + MODE_SIZE * n <= |s|
    ensures Bump(s, start, n) == if n == 0 then s else BumpAt(Bump(s, start, n - 1), start + MODE_SIZE * (n - 1))
  {
  }

  lemma {:induction false} BumpConcat(h: seq<byte>, rest: seq<byte>, start: nat, n: nat)
    requires start + MODE_SIZE * n <= |h|
    ensures Bump(h + rest, start, n) == Bump(h, start, n) + rest
    decreases n
  {
    hide BumpAt, Bump;
    BumpStep(h, start, n);
    BumpStep(h + rest, start, n);
    if n > 0 {
      BumpConcat(h, rest, start, n - 1);
      WriteConcat(Bump(h, start, n - 1), rest, start + MODE_SIZE * (n - 1));
    }
  }

  lemma WriteConcat(r: seq<byte>, rest: seq<byte>, p: nat)
    requires p + 2 <= |r|
    ensures BumpAt(r + rest, p) == BumpAt(r, p) + rest
  {
    hide Le16;
    assert Read16(r + rest, p) == Read16(r, p);
    assert (r + rest)[..p] == r[..p];
    assert (r + rest)[p + 2..] == r[p + 2..] + rest;
  }

  lemma SetConcat(h: seq<byte>, rest: seq<byte>, k: nat, v: int)
    requires 4 * k + 4 <= |h|
    ensures Overwritten(h + rest, 4 * k, Le32(v)) == SetWord(h, k, v) + rest
  {
    hide Le32;
  }

  /** Adds one module to what each mode searches. */
  method UpdateModes(buf: array<byte>, start: nat, n: nat)
    requires start + MODE_SIZE * n <= buf.Length
    modifies buf
    ensures buf[..] == Bump(old(buf[..]), start, n)
  {
    var j := 0;
    while j < n
      invariant j <= n && buf[..] == Bump(old(buf[..]), start, j)
    {
      var p := start + MODE_SIZE * j;
      Store(buf, p, Le16(Read16(buf[..], p) + 1));
      j := j + 1;
    }
  }

  /** The header fields and modes; the stores reach nothing past the head. */
  method UpdateHead(buf: array<byte>, count: nat, nameStart: nat, nameEnd: nat, length: nat, modes: nat, n: nat,
      ghost image: seq<byte>, ghost rest: seq<byte>)
    requires GoodLayout(image) && buf[..] == Head(image) + rest
    requires count == Word(image, MODULE_COUNT) && nameStart == Word(image, NAME_START)
             && nameEnd == Word(image, NAME_END)
    requires modes == Word(image, MODE_START) && n == Word(image, MODE_COUNT)
    modifies buf
    ensures buf[..] == InsertedHead(image, length) + rest
  {
    hide Read32, Read16, Le32, SetWord, Overwritten, Bump;
    ghost var h0 := Head(image);
    SetConcat(h0, rest, MODULE_COUNT, count + 1);
    Store(buf, 4 * MODULE_COUNT, Le32(count + 1));
    ghost var h1 := SetWord(h0, MODULE_COUNT, count + 1);
    SetConcat(h1, rest, NAME_START, nameStart + MODULE_SIZE);
    Store(buf, 4 * NAME_START, Le32(nameStart + MODULE_SIZE));
    ghost var h2 := SetWord(h1, NAME_START, nameStart + MODULE_SIZE);
    SetConcat(h2, rest, NAME_END, nameEnd + length + MODULE_SIZE);
    Store(buf, 4 * NAME_END, Le32(nameEnd + length + MODULE_SIZE));
    ghost var h3 := SetWord(h2, NAME_END, nameEnd + length + MODULE_SIZE);
    UpdateModes(buf, modes, n);
    BumpConcat(h3, rest, modes, n);
  }

  /** Table and pool: the name behind the pool, everything from entry `i` on forward by one entry, the entry. */
  method UpdateRecords(buf: array<byte>, i: nat, newModule: seq<byte>, flags: int)
    requires HasRecords(buf[..]) && Room(buf[..], newModule) && i < Word(buf[..], MODULE_COUNT)
    modifies buf
    ensures buf[..] == Spliced(old(buf[..]), i, newModule, flags)
  {
    hide Read32, Le32, Le16, Overwritten, Spliced;
    ghost var image := buf[..];
    var len := |newModule| + 1;
    var nameEnd, nameStart := Word(buf[..], NAME_END), Word(buf[..], NAME_START);
    var a := Word(buf[..], MODULE_START) + MODULE_SIZE * i;
    var size := (Word(buf[..], MODULE_COUNT) - i) * MODULE_SIZE + len + nameEnd - nameStart;
    Moved(image, i, newModule, flags);
    Store(buf, nameEnd, newModule + [0]);
    Memmove(buf, a + MODULE_SIZE, a, size);
    Store(buf, a, Le32(nameEnd - nameStart));
    Store(buf, a + 8, Le16(flags));
  }

  /**
    InsertModule. Without the magic number, or without a module of the given name, the image stays as
    it is; otherwise the new module is inserted before the first module of that name.
  */
  method InsertModule(buf: array<byte>, newModule: seq<byte>, moduleAfter: seq<byte>, flags: int) returns (r: int)
    requires HEADER_SIZE <= buf.Length && NulFree(newModule) && NulFree(moduleAfter)
    requires Word(buf[..], 0) == MAGIC ==> HasRecords(buf[..])
    requires Word(buf[..], 0) == MAGIC && Find(Records(buf[..]), moduleAfter) < Word(buf[..], MODULE_COUNT)
             ==> Room(buf[..], newModule)
    modifies buf
    ensures r == -1 <==> Word(old(buf[..]), 0) != MAGIC
    ensures r == -2 <==> Word(old(buf[..]), 0) == MAGIC
                         && Find(Records(old(buf[..])), moduleAfter) == |Records(old(buf[..]))|
    ensures r == -1 || r == -2 || r == 0
    ensures r < 0 ==> buf[..] == old(buf[..])
    ensures r == 0 ==> buf[..] == Inserted(old(buf[..]), Find(Records(old(buf[..])), moduleAfter), newModule, flags)
    ensures r == 0 ==>
              var rs := Records(old(buf[..]));
              var i := Find(rs, moduleAfter);
              && HasRecords(buf[..]) && ModesAfter(old(buf[..]), buf[..])
              && Records(buf[..])
                 == rs[..i] + [Record(newModule, NewAttributes(rs[i].attributes, flags))] + rs[i..]
  {
    hide Read32, Records, RecordsOf, Inserted, NewAttributes, InsertedHead, GoodTable, ModesAfter;
    if Word(buf[..], 0) != MAGIC {
      return -1;
    }
    var i := FindModule(buf, moduleAfter);
    var count := Word(buf[..], MODULE_COUNT);
    if i == count {
      return -2;
    }
    ghost var image := buf[..];
    var nameStart, nameEnd := Word(buf[..], NAME_START), Word(buf[..], NAME_END);
    var modes, n := Word(buf[..], MODE_START), Word(buf[..], MODE_COUNT);
    UpdateRecords(buf, i, newModule, flags);
    ghost var rest := buf[Word(image, MODULE_START)..];
    SplicedHead(image, i, newModule, flags);
    UpdateHead(buf, count, nameStart, nameEnd, |newModule| + 1, modes, n, image, rest);
    InsertedRecords(image, i, newModule, flags);
    r := 0;
  }

  lemma SplicedHead(image: seq<byte>, i: nat, name: seq<byte>, flags: int)
    requires GoodLayout(image) && Room(image, name) && i < Word(image, MODULE_COUNT)
    ensures var s := Spliced(image, i, name, flags);
            var m := Word(image, MODULE_START);
            && m <= |s| && s == Head(image) + s[m..]
            && Inserted(image, i, name, flags) == InsertedHead(image, |name| + 1) + s[m..]
  {
    hide Read32, InsertedEntry, InsertedHead;
    var s := Spliced(image, i, name, flags);
    var m := Word(image, MODULE_START);
    assert |Head(image)| == m;
  }
}
