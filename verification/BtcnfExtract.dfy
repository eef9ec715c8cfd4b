/** Extracting the text of an image, and the round trips between text and image. */
module BtcnfExtract {
  import opened Bytes
  import opened Btcnf
  import opened BtcnfInsertion
  import opened BtcnfEdit
  import opened BtcnfText
  import opened BtcnfParse
  import opened BtcnfBuild
  import opened BtcnfRoundTrip

  /** The directive of a load mode, or a marker for one that has none. */
  function PrefixFromFlags(flags: nat): string {
    var mode := flags / 0x1_0000;
    if mode == 1 then ""
    else if mode == 2 then "%"
    else if mode == 4 then "%%"
    else if mode == 0x8001 then "$"
    else if mode == 0x8002 then "$%"
    else if mode == 0x8004 then "$%%"
    else "!0x" + Hex(mode) + "!"
  }

  /** find(b"\0", start, end). */
  function FindNul(s: seq<byte>, start: nat, end: nat): (r: Option<nat>)
    requires end <= |s|
    ensures r.Some? ==> start <= r.value < end
    decreases end - start
  {
    if start >= end then None
    else if s[start] == 0 then Some(start)
    else FindNul(s, start + 1, end)
  }

  predicate AsciiBytes(b: seq<byte>) {
    forall i :: 0 <= i < |b| ==> b[i] < 128
  }

  function Decoded(b: seq<byte>): (s: string)
    requires AsciiBytes(b)
    ensures |s| == |b|
  {
    seq(|b|, i requires 0 <= i < |b| => b[i] as char)
  }

  /** The offsets that extract checks before it reads records. */
  predicate Bounded(data: seq<byte>) {
    && HEADER_SIZE <= |data| && Word(data, 0) == MAGIC
    && Word(data, MODULE_START) <= |data|
    && Word(data, NAME_START) <= Word(data, NAME_END) <= |data|
    && Word(data, MODULE_START) + Word(data, MODULE_COUNT) * MODULE_SIZE <= |data|
  }

  /** The line of the module entry at `p`. */
  function EntryLine(data: seq<byte>, p: nat): Result<string>
    requires Bounded(data) && p + MODULE_SIZE <= |data|
  {
    var start := Word(data, NAME_START) + Read32(data, p);
    var flags := Read32(data, p + 8);
    match FindNul(data, start, Word(data, NAME_END))
    case None => Failure
    case Some(end) =>
      if !AsciiBytes(data[start..end]) then Failure
      else Success(LineText(PrefixFromFlags(flags), Decoded(data[start..end]), flags))
  }

  function EntryLines(data: seq<byte>, n: nat): (r: Result<seq<string>>)
    requires Bounded(data) && n <= Word(data, MODULE_COUNT)
    ensures r.Success? ==> |r.value| == n
  {
    if n == 0 then Success([])
    else
      var init :- EntryLines(data, n - 1);
      var last :- EntryLine(data, Word(data, MODULE_START) + MODULE_SIZE * (n - 1));
      Success(init + [last])
  }

  function ExtractText(data: seq<byte>): Result<string> {
    if !Bounded(data) then Failure
    else
      var lines :- EntryLines(data, Word(data, MODULE_COUNT));
      Success(PrintLines([DevkitLine(Word(data, DEVKIT))] + lines))
  }

  /** extract: check the header, then one line from each module entry. */
  method Extract(data: seq<byte>) returns (r: Result<string>)
    ensures r == ExtractText(data)
  {
    hide EntryLine, DevkitLine;
    if |data| < HEADER_SIZE {
      return Failure;
    }
    if Word(data, 0) != MAGIC {
      return Failure;
    }
    var moduleStart, moduleCount := Word(data, MODULE_START), Word(data, MODULE_COUNT);
    if !(&& moduleStart <= |data| && Word(data, NAME_START) <= Word(data, NAME_END) <= |data|
         && moduleStart + moduleCount * MODULE_SIZE <= |data|) {
      return Failure;
    }
    var lines: seq<string> := [];
    for index := 0 to moduleCount
      invariant EntryLines(data, index) == Success(lines)
    {
      var line := EntryLine(data, moduleStart + MODULE_SIZE * index);
      if line.Failure? {
        LinesFail(data, index + 1);
        return Failure;
      }
      lines := lines + [line.value];
    }
    r := Success(PrintLines([DevkitLine(Word(data, DEVKIT))] + lines));
  }

  lemma {:induction false} LinesFail(data: seq<byte>, n: nat)
    requires Bounded(data) && n <= Word(data, MODULE_COUNT) && EntryLines(data, n).Failure?
    ensures EntryLines(data, Word(data, MODULE_COUNT)).Failure?
    decreases Word(data, MODULE_COUNT) - n
  {
    hide EntryLine, Read32;
    if n < Word(data, MODULE_COUNT) {
      LinesFail(data, n + 1);
    }
  }

  // ----- extraction reads the records

  /** The flags word among the attributes of a record. */
  function RecordFlags(r: Record): nat
    requires |r.attributes| == MODULE_SIZE - 4
  {
    Read32(r.attributes, 4)
  }

  function RecordLine(r: Record): Result<string>
    requires |r.attributes| == MODULE_SIZE - 4
  {
    if !AsciiBytes(r.name) then Failure
    else Success(LineText(PrefixFromFlags(RecordFlags(r)), Decoded(r.name), RecordFlags(r)))
  }

  lemma {:induction false} FindNulIs(s: seq<byte>, start: nat, end: nat, r: nat)
    requires start <= r < end <= |s| && s[r] == 0 && forall k :: start <= k < r ==> s[k] != 0
    ensures FindNul(s, start, end) == Some(r)
    decreases r - start
  {
    if start < r {
      FindNulIs(s, start + 1, end, r);
    }
  }

  lemma EntryReads(data: seq<byte>, i: nat)
    requires HasRecords(data) && i < Word(data, MODULE_COUNT)
    ensures Bounded(data) && |Records(data)[i].attributes| == MODULE_SIZE - 4
    ensures EntryLine(data, Word(data, MODULE_START) + MODULE_SIZE * i) == RecordLine(Records(data)[i])
  {
    hide Read32, LineText, PrefixFromFlags, Decoded, AsciiBytes, NameAt;
    var p := Word(data, MODULE_START) + MODULE_SIZE * i;
    var entry := EntryAt(Table(data), i);
    assert Terminated(Pool(data), Read32(entry, 0));
    SubSlice(data, Word(data, MODULE_START), Word(data, NAME_START), MODULE_SIZE * i, MODULE_SIZE);
    SameWords(data, p, entry);
    PoolString(data, Word(data, NAME_START), Word(data, NAME_END), Pool(data), Read32(entry, 0));
    assert Records(data)[i] == RecordOf(entry, Pool(data));
  }

  lemma PoolString(data: seq<byte>, a: nat, b: nat, pool: seq<byte>, offset: nat)
    requires a <= b <= |data| && pool == data[a..b] && Terminated(pool, offset)
    ensures FindNul(data, a + offset, b) == Some(a + FirstNul(pool, offset))
    ensures data[a + offset..a + FirstNul(pool, offset)] == NameAt(pool, offset)
  {
    assert forall k :: 0 <= k < |pool| ==> data[a + k] == pool[k];
    FindNulIs(data, a + offset, b, a + FirstNul(pool, offset));
  }

  lemma SameWords(data: seq<byte>, p: nat, entry: seq<byte>)
    requires |entry| == MODULE_SIZE && p + MODULE_SIZE <= |data| && data[p..p + MODULE_SIZE] == entry
    ensures Read32(data, p) == Read32(entry, 0) && Read32(data, p + 8) == Read32(entry[4..], 4)
  {
    forall k | 0 <= k < MODULE_SIZE ensures data[p + k] == entry[k] {
    }
  }

  lemma {:induction false} LinesOfRecords(data: seq<byte>, n: nat, lines: seq<string>)
    requires HasRecords(data) && n <= Word(data, MODULE_COUNT) && |lines| == n
    requires forall i :: 0 <= i < n ==>
               |Records(data)[i].attributes| == MODULE_SIZE - 4 && RecordLine(Records(data)[i]) == Success(lines[i])
    ensures Bounded(data) && EntryLines(data, n) == Success(lines)
  {
    hide EntryLine, RecordLine, Read32, Records, GoodTable, Terminated;
    HasBounds(data);
    if n > 0 {
      LinesOfRecords(data, n - 1, lines[..n - 1]);
      EntryReads(data, n - 1);
      assert lines == lines[..n - 1] + [lines[n - 1]];
    }
  }

  lemma HasBounds(data: seq<byte>)
    requires HasRecords(data)
    ensures Bounded(data)
  {
  }

  /** A record from the builder prints as its text line. */
  lemma BuiltLine(r: ModuleRecord)
    requires ValidRecord(r)
    ensures IsAscii(r.path) && RecordLine(BuiltRecord(r)) == Success(LineText(Prefix(r.directive), r.path, r.runlevels))
  {
    hide ModeText, Le32, Read32, IsSpace;
    assert IsAscii(r.path);
    var b := BuiltRecord(r);
    assert b.attributes[4..8] == Le32(Flags(r));
    Read32OfLe32(b.attributes, 4, Flags(r));
    assert Decoded(Encoded(r.path)) == r.path;
    assert AsciiBytes(Encoded(r.path));
    DirectiveReads(r);
    SameLetters(Flags(r), r.runlevels, 0);
  }

  lemma DirectiveReads(r: ModuleRecord)
    requires r.runlevels < 256
    ensures Flags(r) < U32_MODULUS && PrefixFromFlags(Flags(r)) == Prefix(r.directive)
    ensures Flags(r) % 256 == r.runlevels
  {
  }

  /** Letters depend on the low eight bits alone. */
  lemma {:induction false} SameLetters(v: nat, w: nat, k: nat)
    requires v % 256 == w % 256 && k <= 8
    ensures ModeText(v, k) == ModeText(w, k)
    decreases 8 - k
  {
    if k < 8 {
      SameLetters(v, w, k + 1);
    }
  }

  predicate ValidRecords(rs: seq<ModuleRecord>) {
    forall i :: 0 <= i < |rs| ==> ValidRecord(rs[i])
  }

  /** The lines of records. */
  function Lines(rs: seq<ModuleRecord>): (lines: seq<string>)
    ensures |lines| == |rs|
  {
    seq(|rs|, i requires 0 <= i < |rs| => LineText(Prefix(rs[i].directive), rs[i].path, rs[i].runlevels))
  }

  lemma ValidPaths(rs: seq<ModuleRecord>)
    requires ValidRecords(rs)
    ensures AsciiPaths(rs) && NulFreePaths(rs)
  {
    forall i | 0 <= i < |rs| ensures IsAscii(rs[i].path) && NulFree(Encoded(rs[i].path)) {
      assert ValidRecord(rs[i]);
    }
  }

  lemma SortedValid(rs: seq<ModuleRecord>)
    requires ValidRecords(rs)
    ensures ValidRecords(Sorted(rs)) && |Sorted(rs)| == |rs| && Sorted(Sorted(rs)) == Sorted(rs)
  {
    hide ValidRecord;
    ValidPaths(rs);
    SortedEntriesFacts(rs);
    StableSortSpec(rs, RecordKey);
  }

  /** What a built image extracts to: the devkit word and the records in sorted order. */
  lemma ExtractBuilt(devkit: int, rs: seq<ModuleRecord>)
    requires ValidRecords(rs) && BuildImage(devkit, rs).Success?
    ensures ExtractText(BuildImage(devkit, rs).value) == Success(PrintLines([DevkitLine(devkit)] + Lines(Sorted(rs))))
  {
    hide Image, Records, RecordLine, Sorted, ValidRecord, Read32, EntryLines, PrintLines, DevkitLine, BuiltRecord,
      LineText, Fits, GoodTable, ModesSearch;
    ValidPaths(rs);
    SortedValid(rs);
    BuiltImage(devkit, rs);
    var image := Image(devkit, rs);
    var sorted := Sorted(rs);
    forall i | 0 <= i < |rs|
      ensures |Records(image)[i].attributes| == MODULE_SIZE - 4
              && RecordLine(Records(image)[i]) == Success(Lines(sorted)[i])
    {
      EntryReads(image, i);
      BuiltLine(sorted[i]);
    }
    LinesOfRecords(image, |rs|, Lines(sorted));
  }

  lemma {:induction false} NamesTotal(rs: seq<ModuleRecord>)
    requires AsciiPaths(rs)
    ensures |Names(rs)| == Total(rs, (r: ModuleRecord) => |r.path| + 1)
  {
    if rs != [] {
      NamesTotal(rs[..|rs| - 1]);
    }
  }

  lemma {:induction false} SameModes(a: seq<ModuleRecord>, b: seq<ModuleRecord>, k: nat)
    requires |a| == |b| && k <= 8 && (forall r :: r in a <==> r in b)
    ensures ModeEntries(a, k) == ModeEntries(b, k)
  {
    hide ModeEntry, Bit;
    if k > 0 {
      SameModes(a, b, k - 1);
      UsesMember(a, b, k - 1);
      UsesMember(b, a, k - 1);
    }
  }

  lemma UsesMember(a: seq<ModuleRecord>, b: seq<ModuleRecord>, k: nat)
    requires k < 8 && forall r :: r in a ==> r in b
    ensures Uses(a, k) ==> Uses(b, k)
  {
    if Uses(a, k) {
      var i :| 0 <= i < |a| && Bit(a[i].runlevels, k);
      assert a[i] in b;
    }
  }

  /** The builder accepts the sorted records when it accepts the records. */
  lemma SortedFits(devkit: int, rs: seq<ModuleRecord>)
    requires ValidRecords(rs) && BuildImage(devkit, rs).Success?
    ensures BuildImage(devkit, Sorted(rs)).Success?
  {
    hide Names, ModeEntries, Image, ValidRecord;
    ValidPaths(rs);
    SortedValid(rs);
    ValidPaths(Sorted(rs));
    NamesTotal(rs);
    NamesTotal(Sorted(rs));
    SortKeepsTotal(rs, RecordKey, (r: ModuleRecord) => |r.path| + 1);
    SortedEntriesFacts(rs);
    SortHolds(rs, RecordKey, 6);
    SameModes(rs, Sorted(rs), 8);
  }

  /**
    The round trip: whenever the builder accepts a devkit word and records, parsing what extract
    prints for the image gives the devkit word and exactly the stable sort of the records by load
    directive. The builder then accepts that too, and extracting again prints the same text.
  */
  lemma RoundTrip(devkit: int, rs: seq<ModuleRecord>)
    requires ValidRecords(rs) && BuildImage(devkit, rs).Success?
    ensures var text := ExtractText(BuildImage(devkit, rs).value);
            var again := BuildImage(devkit, Sorted(rs));
            && text.Success? && ParseText(text.value) == Success((devkit, Sorted(rs)))
            && again.Success? && ExtractText(again.value) == text
  {
    hide Image, ExtractText, ParseText, Sorted, ValidRecord, PrintLines, DevkitLine, LineText, ModeEntries, Names;
    SortedValid(rs);
    ExtractBuilt(devkit, rs);
    ParsePrinted(devkit, Sorted(rs), Lines(Sorted(rs)));
    SortedFits(devkit, rs);
    ExtractBuilt(devkit, Sorted(rs));
  }

  // ----- extraction after an insertion

  predicate Sized(rs: seq<Record>) {
    forall i :: 0 <= i < |rs| ==> |rs[i].attributes| == MODULE_SIZE - 4
  }

  /** The lines of records, unless one of them has none. */
  function RecordLines(rs: seq<Record>): (r: Result<seq<string>>)
    requires Sized(rs)
    ensures r.Success? ==> |r.value| == |rs|
  {
    if rs == [] then Success([])
    else
      var init :- RecordLines(rs[..|rs| - 1]);
      var last :- RecordLine(rs[|rs| - 1]);
      Success(init + [last])
  }

  /** Lines one after the other; a failure stays one. */
  function Joined(a: Result<seq<string>>, b: Result<seq<string>>): Result<seq<string>> {
    var first :- a;
    var second :- b;
    Success(first + second)
  }

  lemma {:induction false} LinesJoin(a: seq<Record>, b: seq<Record>)
    requires Sized(a) && Sized(b)
    ensures Sized(a + b) && RecordLines(a + b) == Joined(RecordLines(a), RecordLines(b))
    decreases |b|
  {
    hide RecordLine;
    if b == [] {
      assert a + b == a;
      assert RecordLines(a).Success? ==> RecordLines(a).value + [] == RecordLines(a).value;
    } else {
      var n := |b| - 1;
      LinesJoin(a, b[..n]);
      assert (a + b)[..|a + b| - 1] == a + b[..n];
      if RecordLines(a).Success? && RecordLines(b).Success? {
        var x, y, z := RecordLines(a).value, RecordLines(b[..n]).value, RecordLine(b[n]).value;
        assert x + (y + [z]) == (x + y) + [z];
      }
    }
  }

  /** The lines that extract prints for entries are those of the records. */
  lemma {:induction false} LinesAreRecords(data: seq<byte>, n: nat)
    requires HasRecords(data) && n <= Word(data, MODULE_COUNT)
    ensures Bounded(data) && Sized(Records(data)[..n]) && EntryLines(data, n) == RecordLines(Records(data)[..n])
  {
    hide EntryLine, RecordLine, Read32, Records, GoodTable, Terminated;
    HasBounds(data);
    if n > 0 {
      LinesAreRecords(data, n - 1);
      EntryReads(data, n - 1);
      assert Records(data)[..n][..n - 1] == Records(data)[..n - 1];
    }
  }

  /** The text of an image is its devkit line and the lines of its records. */
  lemma TextOfRecords(data: seq<byte>)
    requires HasRecords(data)
    ensures Sized(Records(data))
    ensures ExtractText(data) == Text(Word(data, DEVKIT), RecordLines(Records(data)))
  {
    hide EntryLine, RecordLine, Read32, Records, GoodTable, DevkitLine, PrintLines;
    HasBounds(data);
    LinesAreRecords(data, Word(data, MODULE_COUNT));
    assert Records(data)[..Word(data, MODULE_COUNT)] == Records(data);
  }

  function Text(devkit: nat, lines: Result<seq<string>>): Result<string> {
    var rest :- lines;
    Success(PrintLines([DevkitLine(devkit)] + rest))
  }

  /** The lines of the old records, with one more before line `i`. */
  function WithLine(lines: Result<seq<string>>, i: nat, line: Result<string>): Result<seq<string>>
    requires lines.Success? ==> i <= |lines.value|
  {
    var ls :- lines;
    var l :- line;
    Success(ls[..i] + [l] + ls[i..])
  }

  lemma LinesInserted(rs: seq<Record>, i: nat, r: Record)
    requires Sized(rs) && i <= |rs| && |r.attributes| == MODULE_SIZE - 4
    ensures Sized(rs[..i] + [r] + rs[i..])
    ensures RecordLines(rs[..i] + [r] + rs[i..]) == WithLine(RecordLines(rs), i, RecordLine(r))
  {
    hide RecordLine, RecordLines, Joined, WithLine;
    LinesJoin(rs[..i], rs[i..]);
    assert rs[..i] + rs[i..] == rs;
    LinesJoin(rs[..i], [r]);
    LinesJoin(rs[..i] + [r], rs[i..]);
    OneLine(r);
    LineBetween(RecordLines(rs[..i]), RecordLine(r), RecordLines(rs[i..]), i);
  }

  lemma LineBetween(a: Result<seq<string>>, line: Result<string>, b: Result<seq<string>>, i: nat)
    requires a.Success? ==> i == |a.value|
    ensures var one := if line.Failure? then Failure else Success([line.value]);
            && (Joined(a, b).Success? ==> i <= |Joined(a, b).value|)
            && Joined(Joined(a, one), b) == WithLine(Joined(a, b), i, line)
  {
    if a.Success? && b.Success? {
      var whole := a.value + b.value;
      assert whole[..|a.value|] == a.value && whole[|a.value|..] == b.value;
    }
  }

  lemma OneLine(r: Record)
    requires |r.attributes| == MODULE_SIZE - 4
    ensures Sized([r])
    ensures RecordLines([r]) == if RecordLine(r).Failure? then Failure else Success([RecordLine(r).value])
  {
    hide RecordLine;
    var none: seq<Record> := [];
    assert [r][..|[r]| - 1] == none;
    assert RecordLines(none) == Success([]);
    if RecordLine(r).Success? {
      var l := RecordLine(r).value;
      assert [] + [l] == [l];
    }
  }

  /** After an insertion extract prints the old lines with the new record's in place, or fails where one has none. */
  lemma InsertionText(data: seq<byte>, i: nat, name: seq<byte>, flags: int)
    requires HasRecords(data) && Room(data, name) && i < Word(data, MODULE_COUNT) && NulFree(name)
    ensures var rs := Records(data);
            && Sized(rs) && i < |rs|
            && ExtractText(data) == Text(Word(data, DEVKIT), RecordLines(rs))
            && ExtractText(Inserted(data, i, name, flags))
               == Text(Word(data, DEVKIT),
                    WithLine(RecordLines(rs), i, RecordLine(Record(name, NewAttributes(rs[i].attributes, flags)))))
  {
    hide ExtractText, RecordLine, RecordLines, WithLine, Text, Records, Read32, Inserted, NewAttributes, GoodTable;
    TextOfRecords(data);
    InsertedRecords(data, i, name, flags);
    var edited := Inserted(data, i, name, flags);
    TextOfRecords(edited);
    LinesInserted(Records(data), i, Record(name, NewAttributes(Records(data)[i].attributes, flags)));
    RegionsAfter(data, i, name, flags);
    assert Word(edited, DEVKIT) == WordAfter(data, DEVKIT, |name| + 1);
  }

  /** InsertModule, and extract on what it leaves. */
  method InsertAndExtract(buf: array<byte>, newModule: seq<byte>, moduleAfter: seq<byte>, flags: int)
    returns (r: int, text: Result<string>)
    requires HEADER_SIZE <= buf.Length && NulFree(newModule) && NulFree(moduleAfter)
    requires HasRecords(buf[..])
    requires Find(Records(buf[..]), moduleAfter) < Word(buf[..], MODULE_COUNT) ==> Room(buf[..], newModule)
    modifies buf
    ensures var was, rs := old(buf[..]), Records(old(buf[..]));
            var i := Find(rs, moduleAfter);
            && Sized(rs) && (r == 0 <==> i < |rs|)
            && text == Text(Word(was, DEVKIT),
                 if i < |rs| then
                   WithLine(RecordLines(rs), i, RecordLine(Record(newModule, NewAttributes(rs[i].attributes, flags))))
                 else RecordLines(rs))
  {
    hide ExtractText, RecordLine, RecordLines, WithLine, Text, Records, Read32, Inserted, NewAttributes, GoodTable;
    ghost var was := buf[..];
    TextOfRecords(was);
    ghost var i := Find(Records(was), moduleAfter);
    if i < |Records(was)| {
      InsertionText(was, i, newModule, flags);
    }
    r := InsertModule(buf, newModule, moduleAfter, flags);
    text := Extract(buf[..]);
  }
}
