/**
  The PSP boot configuration image: header, mode table, module table and name pool, read as one list
  of module records; and what inserting a module into such an image means.
*/
module Btcnf {
  import opened Bytes

  const MAGIC := 0x0F80_3001
  const HEADER_SIZE := 64
  const MODE_SIZE := 32
  const MODULE_SIZE := 32

  // Header words.
  const DEVKIT := 1
  const MODE_START := 4
  const MODE_COUNT := 5
  const MODULE_START := 8
  const MODULE_COUNT := 9
  const NAME_START := 12
  const NAME_END := 13

  /** A module: its path, and the 28 bytes of its entry after the name offset. */
  datatype Record = Record(name: seq<byte>, attributes: seq<byte>)

  function Word(image: seq<byte>, k: nat): nat
    requires k < 16 && HEADER_SIZE <= |image|
  {
    Read32(image, 4 * k)
  }

  // ----- strings in the name pool

  function NameAt(pool: seq<byte>, i: nat): seq<byte>
    requires i <= |pool|
  {
    pool[i..FirstNul(pool, i)]
  }

  predicate Terminated(pool: seq<byte>, i: nat) {
    i <= |pool| && FirstNul(pool, i) < |pool|
  }

  lemma NameKept(pool: seq<byte>, more: seq<byte>, i: nat)
    requires Terminated(pool, i)
    ensures Terminated(pool + more, i) && NameAt(pool + more, i) == NameAt(pool, i)
  {
    FirstNulUnique(pool + more, i, FirstNul(pool, i));
  }

  lemma NameAppended(pool: seq<byte>, name: seq<byte>, more: seq<byte>)
    requires NulFree(name)
    ensures Terminated(pool + (name + [0]) + more, |pool|) && NameAt(pool + (name + [0]) + more, |pool|) == name
  {
    var p := pool + (name + [0]) + more;
    FirstNulUnique(p, |pool|, |pool| + |name|);
  }

  // ----- records of a module table

  function EntryAt(table: seq<byte>, i: nat): (e: seq<byte>)
    requires MODULE_SIZE * (i + 1) <= |table|
    ensures |e| == MODULE_SIZE
  {
    table[MODULE_SIZE * i..MODULE_SIZE * i + MODULE_SIZE]
  }

  function RecordOf(entry: seq<byte>, pool: seq<byte>): Record
    requires |entry| == MODULE_SIZE && Read32(entry, 0) <= |pool|
  {
    Record(NameAt(pool, Read32(entry, 0)), entry[4..])
  }

  /** The `n` entries of `table` all name a terminated string of `pool`. */
  predicate GoodTable(table: seq<byte>, pool: seq<byte>, n: nat) {
    && |table| == MODULE_SIZE * n
    && forall i :: 0 <= i < n ==> Terminated(pool, Read32(EntryAt(table, i), 0))
  }

  function RecordsOf(table: seq<byte>, pool: seq<byte>, n: nat): (rs: seq<Record>)
    requires GoodTable(table, pool, n)
    ensures |rs| == n
  {
    seq(n, i requires 0 <= i < n => RecordOf(EntryAt(table, i), pool))
  }

  // ----- images

  /** The number of modules the mode at `j` searches. */
  function MaxSearch(image: seq<byte>, j: nat): nat
    requires HEADER_SIZE <= |image| && Word(image, MODE_START) + MODE_SIZE * (j + 1) <= |image|
  {
    Read16(image, Word(image, MODE_START) + MODE_SIZE * j)
  }

  /** The regions follow one another, the name pool directly after the module table, and stay inside the image. */
  predicate GoodLayout(image: seq<byte>) {
    && HEADER_SIZE <= |image|
    && HEADER_SIZE <= Word(image, MODE_START)
    && Word(image, MODE_START) + MODE_SIZE * Word(image, MODE_COUNT) <= Word(image, MODULE_START)
    && Word(image, MODULE_START) + MODULE_SIZE * Word(image, MODULE_COUNT) == Word(image, NAME_START)
    && Word(image, NAME_START) <= Word(image, NAME_END) <= |image|
  }

  function Head(image: seq<byte>): seq<byte>
    requires GoodLayout(image)
  {
    image[..Word(image, MODULE_START)]
  }

  function Table(image: seq<byte>): seq<byte>
    requires GoodLayout(image)
  {
    image[Word(image, MODULE_START)..Word(image, NAME_START)]
  }

  function Pool(image: seq<byte>): seq<byte>
    requires GoodLayout(image)
  {
    image[Word(image, NAME_START)..Word(image, NAME_END)]
  }

  /** A configuration image whose entries all have names. */
  predicate HasRecords(image: seq<byte>) {
    && GoodLayout(image) && Word(image, 0) == MAGIC
    && GoodTable(Table(image), Pool(image), Word(image, MODULE_COUNT))
  }

  predicate ModesSearch(image: seq<byte>, count: nat)
    requires GoodLayout(image)
  {
    forall j: nat :: j < Word(image, MODE_COUNT) ==> MaxSearch(image, j) == count
  }

  /** ... and every mode of which searches all modules. */
  predicate WellFormed(image: seq<byte>) {
    HasRecords(image) && ModesSearch(image, Word(image, MODULE_COUNT))
  }

  function Records(image: seq<byte>): (rs: seq<Record>)
    requires HasRecords(image)
    ensures |rs| == Word(image, MODULE_COUNT)
  {
    RecordsOf(Table(image), Pool(image), Word(image, MODULE_COUNT))
  }

  /** The index of the first record of that name, or the number of records. */
  function Find(rs: seq<Record>, name: seq<byte>): (i: nat)
    ensures i <= |rs| && (i < |rs| ==> rs[i].name == name) && forall k :: 0 <= k < i ==> rs[k].name != name
    decreases |rs|
  {
    if rs == [] || rs[0].name == name then 0 else 1 + Find(rs[1..], name)
  }

  // ----- insertion

  /** The attributes of an inserted module: those of the module it displaces, with other runlevels. */
  function NewAttributes(displaced: seq<byte>, flags: int): (a: seq<byte>)
    requires |displaced| == MODULE_SIZE - 4
    ensures |a| == MODULE_SIZE - 4
  {
    displaced[..4] + Le16(flags) + displaced[6..]
  }

  function SetWord(s: seq<byte>, k: nat, v: int): (r: seq<byte>)
    requires 4 * k + 4 <= |s|
    ensures |r| == |s|
  {
    s[..4 * k] + Le32(v) + s[4 * k + 4..]
  }

  function BumpAt(s: seq<byte>, p: nat): (r: seq<byte>)
    requires p + 2 <= |s|
    ensures |r| == |s|
  {
    s[..p] + Le16(Read16(s, p) + 1) + s[p + 2..]
  }

  /** Adds one to the 16-bit counts at the first `n` steps of 32 bytes from `start`. */
  function Bump(s: seq<byte>, start: nat, n: nat): (r: seq<byte>)
    requires start + MODE_SIZE * n <= |s|
    ensures |r| == |s|
  {
    if n == 0 then s else BumpAt(Bump(s, start, n - 1), start + MODE_SIZE * (n - 1))
  }

  function InsertedHead(image: seq<byte>, length: nat): (r: seq<byte>)
    requires GoodLayout(image)
    ensures |r| == Word(image, MODULE_START)
  {
    var h := SetWord(Head(image), MODULE_COUNT, Word(image, MODULE_COUNT) + 1);
    var h := SetWord(h, NAME_START, Word(image, NAME_START) + MODULE_SIZE);
    var h := SetWord(h, NAME_END, Word(image, NAME_END) + length + MODULE_SIZE);
    Bump(h, Word(image, MODE_START), Word(image, MODE_COUNT))
  }

  function InsertedEntry(image: seq<byte>, i: nat, flags: int): (e: seq<byte>)
    requires GoodLayout(image) && i < Word(image, MODULE_COUNT)
    ensures |e| == MODULE_SIZE
  {
    Le32(|Pool(image)|) + NewAttributes(EntryAt(Table(image), i)[4..], flags)
  }

  /** The image with a new module entry before entry `i` and its name at the end of the pool. */
  function Inserted(image: seq<byte>, i: nat, name: seq<byte>, flags: int): (r: seq<byte>)
    requires GoodLayout(image) && i < Word(image, MODULE_COUNT)
    requires Word(image, NAME_END) + |name| + 1 + MODULE_SIZE <= |image|
    ensures |r| == |image|
  {
    var table := Table(image);
    InsertedHead(image, |name| + 1)
    + (table[..MODULE_SIZE * i] + InsertedEntry(image, i, flags) + table[MODULE_SIZE * i..])
    + (Pool(image) + (name + [0]))
    + image[Word(image, NAME_END) + |name| + 1 + MODULE_SIZE..]
  }
}
