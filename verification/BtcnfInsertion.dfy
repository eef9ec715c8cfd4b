/** What an insertion does to the list of records, the modes and the header of an image. */
module BtcnfInsertion {
  import opened Bytes
  import opened Btcnf

  lemma {:induction false} BumpFacts(s: seq<byte>, start: nat, n: nat)
    requires start + MODE_SIZE * n <= |s|
    ensures forall k :: 0 <= k < |s| && !(start <= k < start + MODE_SIZE * n) ==> Bump(s, start, n)[k] == s[k]
    ensures forall j: nat :: j < n ==> Bumped(s, Bump(s, start, n), start, j)
    decreases n
  {
    if n > 0 {
      BumpFacts(s, start, n - 1);
      var r := Bump(s, start, n - 1);
      forall j: nat | j < n ensures Bumped(s, Bump(s, start, n), start, j) {
        assert j < n - 1 ==> Bumped(s, r, start, j);
        BumpedNext(s, r, start, n - 1, j);
      }
    }
  }

  lemma BumpedNext(s: seq<byte>, r: seq<byte>, start: nat, n: nat, j: nat)
    requires |s| == |r| && start + MODE_SIZE * (n + 1) <= |s| && j <= n
    requires forall k :: start + MODE_SIZE * n <= k < |s| ==> r[k] == s[k]
    requires j < n ==> Bumped(s, r, start, j)
    ensures Bumped(s, BumpAt(r, start + MODE_SIZE * n), start, j)
  {
    var p, q := start + MODE_SIZE * n, start + MODE_SIZE * j;
    var r' := BumpAt(r, p);
    if j < n {
      assert r'[q..q + MODE_SIZE] == r[q..q + MODE_SIZE];
      assert r'[q] == r[q] && r'[q + 1] == r[q + 1];
      assert r'[q + 2..q + MODE_SIZE] == r[q + 2..q + MODE_SIZE];
    } else {
      assert r'[p + 2..p + MODE_SIZE] == s[p + 2..p + MODE_SIZE];
    }
  }

  predicate Bumped(s: seq<byte>, r: seq<byte>, start: nat, j: nat)
    requires |s| == |r|
  {
    && start + MODE_SIZE * (j + 1) <= |s|
    && Read16(r, start + MODE_SIZE * j) == (Read16(s, start + MODE_SIZE * j) + 1) % U16_MODULUS
    && r[start + MODE_SIZE * j + 2..start + MODE_SIZE * (j + 1)]
        == s[start + MODE_SIZE * j + 2..start + MODE_SIZE * (j + 1)]
  }

  lemma SetWordFacts(s: seq<byte>, k: nat, v: nat)
    requires HEADER_SIZE <= |s| && k < 16 && v < U32_MODULUS
    ensures forall j: nat :: j < 16 ==> Word(SetWord(s, k, v), j) == if j == k then v else Word(s, j)
    ensures forall i :: HEADER_SIZE <= i < |s| ==> SetWord(s, k, v)[i] == s[i]
  {
    var r := SetWord(s, k, v);
    assert r[4 * k..4 * k + 4] == Le32(v);
    Read32OfLe32(r, 4 * k, v);
  }

  /** Room for an insertion, inside the image and inside 32-bit header fields. */
  predicate Room(image: seq<byte>, name: seq<byte>)
    requires GoodLayout(image)
  {
    && Word(image, NAME_END) + |name| + 1 + MODULE_SIZE <= |image|
    && Word(image, NAME_END) + |name| + 1 + MODULE_SIZE < U32_MODULUS
  }

  /** The header word `k` after an insertion. */
  function WordAfter(image: seq<byte>, k: nat, length: nat): nat
    requires k < 16 && GoodLayout(image)
  {
    Word(image, k) + if k == MODULE_COUNT then 1
    else if k == NAME_START then MODULE_SIZE
    else if k == NAME_END then length + MODULE_SIZE
    else 0
  }

  lemma HeaderSet(image: seq<byte>, length: nat) returns (h: seq<byte>)
    requires GoodLayout(image) && Word(image, NAME_END) + length + MODULE_SIZE < U32_MODULUS
    ensures |h| == Word(image, MODULE_START)
    ensures InsertedHead(image, length) == Bump(h, Word(image, MODE_START), Word(image, MODE_COUNT))
    ensures forall i :: HEADER_SIZE <= i < |h| ==> h[i] == image[i]
    ensures forall k: nat :: k < 16 ==> Word(h, k) == WordAfter(image, k, length)
  {
    hide SetWord, Read32, Bump;
    var h0 := Head(image);
    HeadWords(image);
    var h1 := SetWord(h0, MODULE_COUNT, Word(image, MODULE_COUNT) + 1);
    SetWordFacts(h0, MODULE_COUNT, Word(image, MODULE_COUNT) + 1);
    var h2 := SetWord(h1, NAME_START, Word(image, NAME_START) + MODULE_SIZE);
    SetWordFacts(h1, NAME_START, Word(image, NAME_START) + MODULE_SIZE);
    h := SetWord(h2, NAME_END, Word(image, NAME_END) + length + MODULE_SIZE);
    SetWordFacts(h2, NAME_END, Word(image, NAME_END) + length + MODULE_SIZE);
  }

  lemma HeadWords(image: seq<byte>)
    requires GoodLayout(image)
    ensures forall k: nat :: k < 16 ==> Word(Head(image), k) == Word(image, k)
  {
  }

  lemma PrefixWords(image: seq<byte>, h: seq<byte>)
    requires HEADER_SIZE <= |h| && h <= image
    ensures forall k: nat :: k < 16 ==> Word(image, k) == Word(h, k)
  {
  }

  /** The new head, and the new image's fields. */
  lemma HeadAfter(image: seq<byte>, length: nat)
    requires GoodLayout(image) && Word(image, NAME_END) + length + MODULE_SIZE < U32_MODULUS
    ensures var h := InsertedHead(image, length);
            && (forall k: nat :: k < 16 ==> Word(h, k) == WordAfter(image, k, length))
            && (forall j: nat :: j < Word(image, MODE_COUNT) ==>
                  && Word(image, MODE_START) + MODE_SIZE * (j + 1) <= |h|
                  && Read16(h, Word(image, MODE_START) + MODE_SIZE * j) == (MaxSearch(image, j) + 1) % U16_MODULUS)
  {
    hide InsertedHead;
    var h := HeaderSet(image, length);
    var start, n := Word(image, MODE_START), Word(image, MODE_COUNT);
    BumpFacts(h, start, n);
    var r := InsertedHead(image, length);
    forall k: nat | k < 16 ensures Word(r, k) == WordAfter(image, k, length) {
      assert Word(h, k) == WordAfter(image, k, length);
    }
    forall j: nat | j < n
      ensures start + MODE_SIZE * (j + 1) <= |r|
              && Read16(r, start + MODE_SIZE * j) == (MaxSearch(image, j) + 1) % U16_MODULUS
    {
      assert Bumped(h, r, start, j);
    }
  }

  /** The regions of the image after an insertion. */
  lemma RegionsAfter(image: seq<byte>, i: nat, name: seq<byte>, flags: int)
    requires GoodLayout(image) && Room(image, name) && i < Word(image, MODULE_COUNT)
    ensures var r := Inserted(image, i, name, flags);
            && GoodLayout(r)
            && (forall k: nat :: k < 16 ==> Word(r, k) == WordAfter(image, k, |name| + 1))
            && Table(r) == Table(image)[..MODULE_SIZE * i] + InsertedEntry(image, i,
                flags) + Table(image)[MODULE_SIZE * i..]
            && Pool(r) == Pool(image) + (name + [0])
            && Head(r) == InsertedHead(image, |name| + 1)
  {
    hide InsertedHead, InsertedEntry, Read32;
    HeadAfter(image, |name| + 1);
    var r := Inserted(image, i, name, flags);
    var h := InsertedHead(image, |name| + 1);
    assert h <= r;
    PrefixWords(r, h);
    assert Word(r, MODULE_START) == |h|;
  }

  /** Where entry `j` of the longer table comes from. */
  lemma EntriesAfter(table: seq<byte>, n: nat, i: nat, entry: seq<byte>, j: nat)
    requires |table| == MODULE_SIZE * n && i <= n && |entry| == MODULE_SIZE && j <= n
    ensures var t := table[..MODULE_SIZE * i] + entry + table[MODULE_SIZE * i..];
            && |t| == MODULE_SIZE * (n + 1)
            && EntryAt(t, j) == if j < i then EntryAt(table, j) else if j == i then entry else EntryAt(table, j - 1)
  {
    var t := table[..MODULE_SIZE * i] + entry + table[MODULE_SIZE * i..];
    if j < i {
      assert t[MODULE_SIZE * j..MODULE_SIZE * j + MODULE_SIZE] == table[MODULE_SIZE * j..MODULE_SIZE * j + MODULE_SIZE];
    } else if j > i {
      assert t[MODULE_SIZE * j..MODULE_SIZE * j + MODULE_SIZE]
          == table[MODULE_SIZE * (j - 1)..MODULE_SIZE * (j - 1) + MODULE_SIZE];
    }
  }

  lemma EntryOffset(v: nat, rest: seq<byte>)
    requires v < U32_MODULUS && |rest| == MODULE_SIZE - 4
    ensures Read32(Le32(v) + rest, 0) == v && (Le32(v) + rest)[4..] == rest
  {
    Read32OfLe32(Le32(v) + rest, 0, v);
  }

  /** Record `j` of the longer table and pool. */
  lemma RecordAfter(table: seq<byte>, pool: seq<byte>, n: nat, i: nat, name: seq<byte>, attributes: seq<byte>, j: nat)
    requires GoodTable(table, pool, n) && i <= n && NulFree(name) && j <= n
    requires |attributes| == MODULE_SIZE - 4 && |pool| < U32_MODULUS
    ensures var t := table[..MODULE_SIZE * i] + (Le32(|pool|) + attributes) + table[MODULE_SIZE * i..];
            var p := pool + (name + [0]);
            && |t| == MODULE_SIZE * (n + 1)
            && Terminated(p, Read32(EntryAt(t, j), 0))
            && RecordOf(EntryAt(t, j), p)
               == if j < i then RecordOf(EntryAt(table, j), pool)
                  else if j == i then Record(name, attributes)
                  else RecordOf(EntryAt(table, j - 1), pool)
  {
    hide EntryAt, Read32, Le32, NameAt;
    EntryOffset(|pool|, attributes);
    EntriesAfter(table, n, i, Le32(|pool|) + attributes, j);
    if j == i {
      NameAppended(pool, name, []);
      assert pool + (name + [0]) + [] == pool + (name + [0]);
    } else {
      NameKept(pool, name + [0], Read32(EntryAt(table, if j < i then j else j - 1), 0));
    }
  }

  /** Inserting an entry and its name into table and pool inserts one record. */
  lemma RecordsInserted(table: seq<byte>, pool: seq<byte>, n: nat, i: nat, name: seq<byte>, attributes: seq<byte>)
    requires GoodTable(table, pool, n) && i <= n && NulFree(name)
    requires |attributes| == MODULE_SIZE - 4 && |pool| < U32_MODULUS
    ensures var t := table[..MODULE_SIZE * i] + (Le32(|pool|) + attributes) + table[MODULE_SIZE * i..];
            var p := pool + (name + [0]);
            && GoodTable(t, p, n + 1)
            && RecordsOf(t, p, n + 1)
               == RecordsOf(table, pool, n)[..i] + [Record(name, attributes)] + RecordsOf(table, pool, n)[i..]
  {
    hide EntryAt, Read32, Le32, NameAt;
    var t := table[..MODULE_SIZE * i] + (Le32(|pool|) + attributes) + table[MODULE_SIZE * i..];
    var p := pool + (name + [0]);
    RecordAfter(table, pool, n, i, name, attributes, 0);
    forall j: nat | j <= n ensures Terminated(p, Read32(EntryAt(t, j), 0)) {
      RecordAfter(table, pool, n, i, name, attributes, j);
    }
    var rs, r := RecordsOf(table, pool, n), RecordsOf(t, p, n + 1);
    var e := rs[..i] + [Record(name, attributes)] + rs[i..];
    forall j: nat | j <= n ensures r[j] == e[j] {
      RecordAfter(table, pool, n, i, name, attributes, j);
    }
  }

  /**
    The edited image holds the old records with the new one before record `i`, which gives it all
    attributes but the runlevels; and every mode searches one module more, counted in 16 bits.
  */
  lemma InsertedRecords(image: seq<byte>, i: nat, name: seq<byte>, flags: int)
    requires HasRecords(image) && Room(image, name) && i < Word(image, MODULE_COUNT) && NulFree(name)
    ensures var r := Inserted(image, i, name, flags);
            var rs := Records(image);
            && HasRecords(r)
            && Records(r) == rs[..i] + [Record(name, NewAttributes(rs[i].attributes, flags))] + rs[i..]
    ensures ModesAfter(image, Inserted(image, i, name, flags))
  {
    hide InsertedHead, Read32, EntryAt, NewAttributes, Inserted, RecordsOf;
    RegionsAfter(image, i, name, flags);
    HeadAfter(image, |name| + 1);
    var r := Inserted(image, i, name, flags);
    assert Word(r, 0) == WordAfter(image, 0, |name| + 1);
    RecordsInserted(Table(image), Pool(image), Word(image, MODULE_COUNT), i, name,
      NewAttributes(EntryAt(Table(image), i)[4..], flags));
    AttributesOf(image, i);
    ModesCounted(image, i, name, flags);
  }

  lemma AttributesOf(image: seq<byte>, i: nat)
    requires HasRecords(image) && i < Word(image, MODULE_COUNT)
    ensures Records(image)[i].attributes == EntryAt(Table(image), i)[4..]
  {
  }

  /** The same number of modes, each counting one module more. */
  predicate ModesAfter(image: seq<byte>, r: seq<byte>)
    requires GoodLayout(image)
  {
    && GoodLayout(r) && Word(r, MODE_COUNT) == Word(image, MODE_COUNT)
    && forall j: nat :: j < Word(image, MODE_COUNT) ==> MaxSearch(r, j) == (MaxSearch(image, j) + 1) % U16_MODULUS
  }

  lemma ModesCounted(image: seq<byte>, i: nat, name: seq<byte>, flags: int)
    requires GoodLayout(image) && Room(image, name) && i < Word(image, MODULE_COUNT)
    ensures ModesAfter(image, Inserted(image, i, name, flags))
  {
    hide InsertedHead, Read32, Inserted;
    RegionsAfter(image, i, name, flags);
    HeadAfter(image, |name| + 1);
    var r := Inserted(image, i, name, flags);
    var h := InsertedHead(image, |name| + 1);
    assert Word(r, MODE_START) == WordAfter(image, MODE_START, |name| + 1);
    assert Word(r, MODE_COUNT) == WordAfter(image, MODE_COUNT, |name| + 1);
    assert h == r[..|h|];
    forall j: nat | j < Word(image, MODE_COUNT)
      ensures MaxSearch(r, j) == (MaxSearch(image, j) + 1) % U16_MODULUS
    {
    }
  }

  /** An insertion keeps the image well-formed exactly as long as 16 bits count the modules, or there are no modes. */
  lemma InsertedWellFormed(image: seq<byte>, i: nat, name: seq<byte>, flags: int)
    requires WellFormed(image) && Room(image, name) && i < Word(image, MODULE_COUNT) && NulFree(name)
    ensures WellFormed(Inserted(image, i, name, flags))
            <==> Word(image, MODULE_COUNT) + 1 < U16_MODULUS || Word(image, MODE_COUNT) == 0
  {
    hide InsertedHead, Read32, Inserted, Records, NewAttributes, GoodTable, Table, Pool;
    InsertedRecords(image, i, name, flags);
    RegionsAfter(image, i, name, flags);
    var r := Inserted(image, i, name, flags);
    assert Word(r, MODULE_COUNT) == Word(image, MODULE_COUNT) + 1;
    if Word(image, MODE_COUNT) > 0 {
      assert MaxSearch(r, 0) == (MaxSearch(image, 0) + 1) % U16_MODULUS;
    }
  }

  /**
    The bytes of the inserted entry: the offset of its name, the runlevels as given, and everything else as in
    the entry it displaces.
  */
  lemma EntryInserted(image: seq<byte>, i: nat, name: seq<byte>, flags: int)
    requires GoodLayout(image) && Room(image, name) && i < Word(image, MODULE_COUNT)
    ensures var r := Inserted(image, i, name, flags);
            var p := Read32(image, 32) + 32 * i;
            && p + 64 <= |r| && Read32(r, 32) == Read32(image, 32)
            && At(r, Read32(r, 48) + Read32(r, p), name + [0])
            && r[p + 4..p + 8] == image[p + 4..p + 8]
            && Read16(r, p + 8) == flags % 0x1_0000
            && r[p + 10..p + 32] == image[p + 10..p + 32]
            && r[p + 32..p + 64] == image[p..p + 32]
  {
    hide InsertedHead, Read32, Inserted, InsertedEntry, Word;
    var r := Inserted(image, i, name, flags);
    var start, pool, n := Word(image, MODULE_START), Word(image, NAME_START), Word(image, MODULE_COUNT);
    RegionsAfter(image, i, name, flags);
    assert Word(r, MODULE_START) == WordAfter(image, MODULE_START, |name| + 1) == start;
    assert Word(r, NAME_START) == WordAfter(image, NAME_START, |name| + 1);
    var e := InsertedEntry(image, i, flags);
    EntriesAfter(Table(image), n, i, e, i);
    EntriesAfter(Table(image), n, i, e, i + 1);
    EntryStandsAt(r, i);
    EntryStandsAt(r, i + 1);
    EntryStandsAt(image, i);
    EntryParts(image, i, flags, r, start + 32 * i);
    PoolTail(r, Pool(image), name);
    WordIs(image, MODULE_START);
    WordIs(r, MODULE_START);
    WordIs(r, NAME_START);
  }

  lemma WordIs(image: seq<byte>, k: nat)
    requires k < 16 && HEADER_SIZE <= |image|
    ensures Word(image, k) == Read32(image, 4 * k)
  {
  }

  lemma EntryStandsAt(image: seq<byte>, i: nat)
    requires GoodLayout(image) && i < Word(image, MODULE_COUNT)
    ensures var p := Word(image, MODULE_START) + 32 * i;
            p + 32 <= |image| && |Table(image)| >= 32 * i + 32 && image[p..p + 32] == EntryAt(Table(image), i)
  {
    hide Word;
    SubSlice(image, Word(image, MODULE_START), Word(image, NAME_START), MODULE_SIZE * i, MODULE_SIZE);
  }

  lemma EntryParts(image: seq<byte>, i: nat, flags: int, r: seq<byte>, p: nat)
    requires GoodLayout(image) && i < Word(image, MODULE_COUNT) && p + 32 <= |r| && p + 32 <= |image|
    requires r[p..p + 32] == InsertedEntry(image, i, flags) && image[p..p + 32] == EntryAt(Table(image), i)
    requires |Pool(image)| < U32_MODULUS
    ensures Read32(r, p) == |Pool(image)| && r[p + 4..p + 8] == image[p + 4..p + 8]
    ensures Read16(r, p + 8) == flags % 0x1_0000 && r[p + 10..p + 32] == image[p + 10..p + 32]
  {
    hide Read32, Read16, Le32, Le16, Word;
    var e, was := InsertedEntry(image, i, flags), EntryAt(Table(image), i);
    assert At(r, p, e);
    AtInside(r, p, e, 0, Le32(|Pool(image)|));
    Read32OfLe32(r, p, |Pool(image)|);
    Low16(flags);
    AtInside(r, p, e, 8, Le16(flags % 0x1_0000));
    Read16OfLe16(r, p + 8, flags % 0x1_0000);
    SubSlice(r, p, p + 32, 4, 4);
    SubSlice(image, p, p + 32, 4, 4);
    SubSlice(r, p, p + 32, 10, 22);
    SubSlice(image, p, p + 32, 10, 22);
    KeptBytes(Le32(|Pool(image)|), was, Le16(flags));
  }

  lemma KeptBytes(offset: seq<byte>, was: seq<byte>, flags: seq<byte>)
    requires |offset| == 4 && |was| == 32 && |flags| == 2
    ensures var e := offset + (was[4..][..4] + flags + was[4..][6..]);
            e[4..8] == was[4..8] && e[10..32] == was[10..32]
  {
  }

  lemma Low16(v: int)
    ensures Le16(v) == Le16(v % 0x1_0000)
  {
    var q, w := v / 0x1_0000, v % 0x1_0000;
    LowBytes(q, w);
    assert v == 0x1_0000 * q + w;
  }

  lemma LowBytes(q: int, w: int)
    ensures (0x1_0000 * q + w) % 256 == w % 256 && (0x1_0000 * q + w) / 256 % 256 == w / 256 % 256
  {
    assert (0x1_0000 * q + w) / 256 == 256 * q + w / 256;
  }

  lemma PoolTail(r: seq<byte>, pool: seq<byte>, name: seq<byte>)
    requires GoodLayout(r) && Pool(r) == pool + (name + [0])
    ensures At(r, Word(r, NAME_START) + |pool|, name + [0])
  {
    hide Word;
    var a, b := Word(r, NAME_START), Word(r, NAME_END);
    SubSlice(r, a, b, |pool|, |name| + 1);
    assert (pool + (name + [0]))[|pool|..|pool| + |name| + 1] == name + [0];
  }
}
