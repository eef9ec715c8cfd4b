/** Reading the text form: lines, fields and records; and that printed records read back. */
module BtcnfParse {
  import opened Bytes
  import opened BtcnfText

  predicate IsSpace(c: char) {
    var v := c as int;
    9 <= v <= 13 || 28 <= v <= 32 || v == 0x85 || v == 0xA0 || v == 0x1680 || 0x2000 <= v <= 0x200A
    || v == 0x2028 || v == 0x2029 || v == 0x202F || v == 0x205F || v == 0x3000
  }

  predicate IsBreak(c: char) {
    var v := c as int;
    10 <= v <= 13 || 28 <= v <= 30 || v == 0x85 || v == 0x2028 || v == 0x2029
  }

  /**
    Pieces between line breaks. A carriage return and line feed give an empty piece more than
    splitlines does, which makes no difference because empty lines are skipped.
  */
  function Lines(s: string): (r: seq<string>)
    ensures |r| > 0
  {
    if s == "" then [""]
    else
      var r := Lines(s[1..]);
      if IsBreak(s[0]) then [""] + r else [[s[0]] + r[0]] + r[1..]
  }

  function TrimLeft(s: string): string {
    if s != "" && IsSpace(s[0]) then TrimLeft(s[1..]) else s
  }

  function TrimRight(s: string): string {
    if s != "" && IsSpace(s[|s| - 1]) then TrimRight(s[..|s| - 1]) else s
  }

  function Strip(s: string): string {
    TrimLeft(TrimRight(s))
  }

  predicate Counts(line: string) {
    line != "" && line[0] != '#'
  }

  /** Stripped lines that are neither empty nor comments. */
  function Significant(lines: seq<string>): seq<string> {
    if lines == [] then []
    else (if Counts(Strip(lines[0])) then [Strip(lines[0])] else []) + Significant(lines[1..])
  }

  function TokenEnd(s: string, i: nat): (e: nat)
    requires i <= |s|
    ensures i <= e <= |s|
    decreases |s| - i
  {
    if i == |s| || IsSpace(s[i]) then i else TokenEnd(s, i + 1)
  }

  function Upper(s: string): (r: string)
    ensures |r| == |s|
  {
    seq(|s|, i requires 0 <= i < |s| =>
      if 'a' <= s[i] <= 'z' then (s[i] as int - 32) as char else s[i])
  }

  /** A module line: a token with an optional directive and a path, then optional runlevel letters. */
  function ParseLine(line: string): Result<ModuleRecord> {
    var e := TokenEnd(line, 0);
    var modeText := Upper(TrimLeft(line[e..]));
    var (directive, path) := SplitToken(line[..e]);
    if !("/" <= path) then Failure
    else if exists i :: 0 <= i < |modeText| && modeText[i] !in LETTERS then Failure
    else Success(ModuleRecord(directive, path, Runlevels(modeText, 8)))
  }

  function ParseLines(lines: seq<string>): Result<seq<ModuleRecord>> {
    if lines == [] then Success([])
    else
      var init :- ParseLines(lines[..|lines| - 1]);
      var last :- ParseLine(lines[|lines| - 1]);
      Success(init + [last])
  }

  function ParseText(text: string): Result<(int, seq<ModuleRecord>)> {
    var lines := Significant(Lines(text));
    if lines == [] || ParseHex(lines[0]).None? then Failure
    else
      var records :- ParseLines(lines[1..]);
      Success((ParseHex(lines[0]).value, records))
  }

  method CollectLines(text: string) returns (lines: seq<string>)
    ensures lines == Significant(Lines(text))
  {
    hide Strip, Counts;
    var raw := Lines(text);
    lines := [];
    for i := 0 to |raw|
      invariant lines + Significant(raw[i..]) == Significant(raw)
    {
      var line := Strip(raw[i]);
      if Counts(line) {
        lines := lines + [line];
      }
    }
  }

  method CollectRecords(lines: seq<string>) returns (r: Result<seq<ModuleRecord>>)
    ensures r == ParseLines(lines)
  {
    hide ParseLine;
    var records: seq<ModuleRecord> := [];
    assert lines[..0] == [];
    for i := 0 to |lines|
      invariant ParseLines(lines[..i]) == Success(records)
    {
      assert lines[..i + 1][..i] == lines[..i];
      var parsed := ParseLine(lines[i]);
      if parsed.Failure? {
        FailsLater(lines, i + 1);
        return Failure;
      }
      records := records + [parsed.value];
    }
    assert lines[..|lines|] == lines;
    r := Success(records);
  }

  /** parse_text: collect the significant lines, then one record from each after the first. */
  method Parse(text: string) returns (r: Result<(int, seq<ModuleRecord>)>)
    ensures r == ParseText(text)
  {
    hide ParseHex, ParseLines, Significant, Lines;
    var lines := CollectLines(text);
    if lines == [] {
      return Failure;
    }
    var devkit := ParseHex(lines[0]);
    if devkit == None {
      return Failure;
    }
    var records := CollectRecords(lines[1..]);
    r := if records.Failure? then Failure else Success((devkit.value, records.value));
  }

  lemma {:induction false} FailsLater(lines: seq<string>, i: nat)
    requires i <= |lines| && ParseLines(lines[..i]).Failure?
    ensures ParseLines(lines).Failure?
    decreases |lines| - i
  {
    if i < |lines| {
      assert lines[..i + 1][..i] == lines[..i];
      FailsLater(lines, i + 1);
    } else {
      assert lines[..i] == lines;
    }
  }

  // ----- printing

  function PrintLines(lines: seq<string>): string {
    if lines == [] then "" else lines[0] + "\n" + PrintLines(lines[1..])
  }

  /** A line that survives splitting and stripping. */
  predicate Tidy(line: string) {
    && Counts(line) && !IsSpace(line[0]) && !IsSpace(line[|line| - 1])
    && forall i :: 0 <= i < |line| ==> !IsBreak(line[i])
  }

  lemma {:induction false} LinesOfJoined(line: string, rest: string)
    requires forall i :: 0 <= i < |line| ==> !IsBreak(line[i])
    ensures Lines(line + "\n" + rest) == [line] + Lines(rest)
    decreases |line|
  {
    var s := line + "\n" + rest;
    if line == "" {
      assert s[1..] == rest;
    } else {
      assert s[1..] == line[1..] + "\n" + rest;
      LinesOfJoined(line[1..], rest);
      assert [s[0]] + line[1..] == line;
    }
  }

  lemma {:induction false} SignificantPrinted(lines: seq<string>)
    requires forall i :: 0 <= i < |lines| ==> Tidy(lines[i])
    ensures Significant(Lines(PrintLines(lines))) == lines
    decreases |lines|
  {
    if lines == [] {
      assert Strip("") == "";
      assert [""][1..] == [];
    } else {
      SignificantPrinted(lines[1..]);
      LinesOfJoined(lines[0], PrintLines(lines[1..]));
      assert Strip(lines[0]) == lines[0];
      var all := [lines[0]] + Lines(PrintLines(lines[1..]));
      assert all[0] == lines[0] && all[1..] == Lines(PrintLines(lines[1..]));
    }
  }

  /** Records as parse_text makes them, with a plain path. */
  predicate ValidRecord(r: ModuleRecord) {
    "/" <= r.path && PlainPath(r.path) && r.runlevels < 256
  }

  predicate PlainPath(path: string) {
    forall i :: 0 <= i < |path| ==> 0 < path[i] as int < 128 && !IsSpace(path[i])
  }

  function LineText(prefix: string, path: string, flags: nat): string {
    var modeText := ModeText(flags, 0);
    prefix + path + if modeText == "" then "" else " " + modeText
  }

  lemma {:induction false} TokenEndAt(s: string, i: nat, e: nat)
    requires i <= e <= |s| && (e < |s| ==> IsSpace(s[e])) && forall k :: i <= k < e ==> !IsSpace(s[k])
    ensures TokenEnd(s, i) == e
    decreases e - i
  {
    if i < e {
      TokenEndAt(s, i + 1, e);
    }
  }

  lemma LettersPlain(text: string)
    requires forall c :: c in text ==> c in LETTERS
    ensures Upper(text) == text && forall i :: 0 <= i < |text| ==> !IsSpace(text[i]) && !IsBreak(text[i])
  {
    forall i | 0 <= i < |text| ensures text[i] in LETTERS && 'A' <= text[i] <= 'Z' {
      assert text[i] in text;
    }
  }

  lemma PrefixPlain(d: Directive)
    ensures forall i :: 0 <= i < |Prefix(d)| ==> Prefix(d)[i] == '$' || Prefix(d)[i] == '%'
  {
  }

  lemma {:induction false} TokenEndIs(s: string, i: nat)
    requires i <= |s|
    ensures var e := TokenEnd(s, i);
            (e < |s| ==> IsSpace(s[e])) && forall k :: i <= k < e ==> !IsSpace(s[k])
    decreases |s| - i
  {
    if i < |s| && !IsSpace(s[i]) {
      TokenEndIs(s, i + 1);
    }
  }

  /** What a line says that is accepted: prefix and path up to the first space, and behind it letters of runlevels. */
  lemma ParsedLine(line: string) returns (e: nat)
    requires ParseLine(line).Success?
    ensures var r := ParseLine(line).value;
            && e <= |line| && (e < |line| ==> IsSpace(line[e])) && (forall k :: 0 <= k < e ==> !IsSpace(line[k]))
            && line[..e] == Prefix(r.directive) + r.path && "/" <= r.path
            && (forall c :: c in Upper(TrimLeft(line[e..])) ==> c in "VGUPLAEM")
            && r.runlevels == Runlevels(Upper(TrimLeft(line[e..])), 8)
  {
    hide Upper, TrimLeft, TokenEnd, Runlevels, SplitToken, IsSpace;
    e := TokenEnd(line, 0);
    TokenEndIs(line, 0);
  }

  /** A printed record is a tidy line that parses back to the record. */
  lemma PrintedRecord(r: ModuleRecord)
    requires ValidRecord(r)
    ensures var line := LineText(Prefix(r.directive), r.path, r.runlevels);
            Tidy(line) && ParseLine(line) == Success(r)
  {
    hide ModeText, Runlevels, SplitToken, Prefix, Upper, LineText, Tidy, TokenEnd, TrimLeft;
    PrintedParts(r);
    SplitJoined(r.directive, r.path);
    ModeTextLetters(r.runlevels, 0);
    RunlevelsOfModeText(r.runlevels, 8);
    LettersPlain(ModeText(r.runlevels, 0));
    assert Upper(ModeText(r.runlevels, 0)) == ModeText(r.runlevels, 0);
  }

  /** The token and the mode letters of a printed record are where they are looked for. */
  lemma PrintedParts(r: ModuleRecord)
    requires ValidRecord(r)
    ensures var line := LineText(Prefix(r.directive), r.path, r.runlevels);
            var token := Prefix(r.directive) + r.path;
            && Tidy(line) && TokenEnd(line, 0) == |token| <= |line| && line[..|token|] == token
            && TrimLeft(line[|token|..]) == ModeText(r.runlevels, 0)
  {
    hide ModeText, SplitToken, Prefix, TokenEnd, TrimLeft;
    var token := Prefix(r.directive) + r.path;
    var modeText := ModeText(r.runlevels, 0);
    var line := LineText(Prefix(r.directive), r.path, r.runlevels);
    ModeTextLetters(r.runlevels, 0);
    LettersPlain(modeText);
    PrefixPlain(r.directive);
    assert forall k :: 0 <= k < |token| ==> !IsSpace(token[k]) && !IsBreak(token[k]);
    assert line[..|token|] == token;
    assert line[0] == token[0] != '#';
    TokenEndAt(line, 0, |token|);
    TrimmedModes(line, token, modeText);
  }

  lemma TrimmedModes(line: string, token: string, modeText: string)
    requires line == token + if modeText == "" then "" else " " + modeText
    requires forall i :: 0 <= i < |modeText| ==> !IsSpace(modeText[i])
    ensures TrimLeft(line[|token|..]) == modeText
  {
    var rest := line[|token|..];
    if modeText == "" {
      assert rest == "";
    } else {
      assert rest == " " + modeText;
      assert rest[1..] == modeText;
    }
  }

  lemma {:induction false} PrintedRecords(rs: seq<ModuleRecord>, lines: seq<string>)
    requires |lines| == |rs|
    requires forall i :: 0 <= i < |rs| ==>
             ValidRecord(rs[i]) && lines[i] == LineText(Prefix(rs[i].directive), rs[i].path, rs[i].runlevels)
    ensures ParseLines(lines) == Success(rs) && forall i :: 0 <= i < |lines| ==> Tidy(lines[i])
  {
    hide LineText, ParseLine, Tidy, ValidRecord, Prefix;
    if rs != [] {
      var n := |rs| - 1;
      PrintedRecords(rs[..n], lines[..n]);
      PrintedRecord(rs[n]);
      assert rs == rs[..n] + [rs[n]];
      forall i | 0 <= i < |lines| ensures Tidy(lines[i]) {
        assert i < n ==> lines[i] == lines[..n][i];
      }
    }
  }

  /** The devkit line. */
  function DevkitLine(devkit: nat): string {
    "0x" + HexDigits(devkit, 8)
  }

  lemma EightDigits()
    ensures Power16(8) == U32_MODULUS
  {
    assert Power16(4) == 65536;
  }

  lemma DevkitReads(devkit: nat)
    requires devkit < U32_MODULUS
    ensures Tidy(DevkitLine(devkit)) && ParseHex(DevkitLine(devkit)) == Some(devkit)
  {
    hide HexDigits, ParseDigits, Power16, Tidy;
    EightDigits();
    ParseHexDigits(devkit, 8);
    HexPlain(devkit, 8);
    var d := HexDigits(devkit, 8);
    var line := DevkitLine(devkit);
    HexTidy(d);
    assert line[2..] == d && line[0] == '0' && line[1] == 'x' && line[2] == d[0];
    assert "0x" <= line;
  }

  lemma HexTidy(d: string)
    requires |d| == 8 && forall i :: 0 <= i < 8 ==> d[i] in "0123456789ABCDEF"
    ensures Tidy("0x" + d) && d[0] != '_'
  {
    hide IsSpace, IsBreak;
    var line := "0x" + d;
    forall i | 0 <= i < |line| ensures !IsSpace(line[i]) && !IsBreak(line[i]) && line[i] != '_' {
      assert i >= 2 ==> line[i] == d[i - 2];
      HexPlainCharacter(line[i]);
    }
    assert line[2] == d[0];
  }

  lemma HexPlainCharacter(c: char)
    requires c in "0123456789ABCDEFx"
    ensures !IsSpace(c) && !IsBreak(c) && c != '_'
  {
  }

  lemma {:induction false} HexPlain(v: nat, n: nat)
    ensures forall i :: 0 <= i < n ==> HexDigits(v, n)[i] in "0123456789ABCDEF"
  {
    if n > 0 {
      HexPlain(v / 16, n - 1);
    }
  }

  /** Printed records and devkit word read back. */
  lemma ParsePrinted(devkit: nat, rs: seq<ModuleRecord>, lines: seq<string>)
    requires devkit < U32_MODULUS && |lines| == |rs|
    requires forall i :: 0 <= i < |rs| ==>
             ValidRecord(rs[i]) && lines[i] == LineText(Prefix(rs[i].directive), rs[i].path, rs[i].runlevels)
    ensures ParseText(PrintLines([DevkitLine(devkit)] + lines)) == Success((devkit, rs))
  {
    hide LineText, ParseLine, ParseLines, Tidy, ValidRecord, Prefix, ParseHex, DevkitLine;
    PrintedRecords(rs, lines);
    DevkitReads(devkit);
    var all := [DevkitLine(devkit)] + lines;
    SignificantPrinted(all);
    assert all[1..] == lines;
  }
}
