/** What the text functions and the builder's checks come to, without their recursion. */
module BtcnfReading {
  import opened Bytes
  import opened Btcnf
  import opened BtcnfText
  import opened BtcnfParse
  import opened BtcnfBuild
  import opened BtcnfRoundTrip
  import BtcnfExtract
  import opened BtcnfLayout

  // ----- lines

  /** Lines with a character between each two. */
  function Woven(lines: seq<string>, breaks: string): string
    requires |lines| == |breaks| + 1
  {
    if breaks == "" then lines[0] else lines[0] + [breaks[0]] + Woven(lines[1..], breaks[1..])
  }

  predicate Unbroken(line: string) {
    forall i :: 0 <= i < |line| ==> !IsBreak(line[i])
  }

  /** A text is its lines with breaks between them, and no line holds a break. */
  lemma {:induction false} LinesWoven(s: string) returns (breaks: string)
    ensures |Lines(s)| == |breaks| + 1 && s == Woven(Lines(s), breaks)
    ensures (forall i :: 0 <= i < |breaks| ==> IsBreak(breaks[i])) && forall l :: l in Lines(s) ==> Unbroken(l)
  {
    hide IsBreak, Unbroken;
    if s == "" {
      breaks := "";
      NoCharacters();
    } else {
      var rest := Lines(s[1..]);
      breaks := LinesWoven(s[1..]);
      assert s == [s[0]] + s[1..];
      if IsBreak(s[0]) {
        NoCharacters();
        assert ([""] + rest)[1..] == rest;
        breaks := [s[0]] + breaks;
        assert breaks[1..] == breaks[1..];
        assert "" + [s[0]] + Woven(rest, breaks[1..]) == s;
      } else {
        LongerFirst(s[0], rest, breaks);
      }
    }
  }

  lemma NoCharacters()
    ensures Unbroken("")
  {
  }

  lemma LongerFirst(c: char, rest: seq<string>, breaks: string)
    requires |rest| == |breaks| + 1 && !IsBreak(c) && Unbroken(rest[0])
    ensures var r := [[c] + rest[0]] + rest[1..];
            Woven(r, breaks) == [c] + Woven(rest, breaks) && Unbroken(r[0])
  {
    hide IsBreak;
    var r := [[c] + rest[0]] + rest[1..];
    assert r[1..] == rest[1..];
    if breaks != "" {
      assert [c] + rest[0] + [breaks[0]] + Woven(rest[1..], breaks[1..])
          == [c] + (rest[0] + [breaks[0]] + Woven(rest[1..], breaks[1..]));
    }
  }

  /** A stripped line is the line without the spaces at both ends. */
  lemma StripIs(s: string) returns (i: nat, j: nat)
    ensures i <= j <= |s| && Strip(s) == s[i..j]
    ensures (forall k :: 0 <= k < i ==> IsSpace(s[k])) && forall k :: j <= k < |s| ==> IsSpace(s[k])
    ensures i < j ==> !IsSpace(s[i]) && !IsSpace(s[j - 1])
  {
    hide IsSpace;
    j := RightEnd(s);
    var t := TrimRight(s);
    i := LeftEnd(t);
    if i == |t| {
      assert Strip(s) == [];
      assert s[i..j] == [];
    } else {
      assert t[i..] == s[i..j];
    }
  }

  lemma {:induction false} RightEnd(s: string) returns (j: nat)
    ensures j <= |s| && TrimRight(s) == s[..j] && (j > 0 ==> !IsSpace(s[j - 1]))
    ensures forall k :: j <= k < |s| ==> IsSpace(s[k])
    decreases |s|
  {
    hide IsSpace;
    if s != "" && IsSpace(s[|s| - 1]) {
      var init := s[..|s| - 1];
      j := RightEnd(init);
      assert init[..j] == s[..j];
      forall k | j <= k < |s| ensures IsSpace(s[k]) {
        assert k < |init| ==> init[k] == s[k];
      }
    } else {
      j := |s|;
      assert s[..j] == s;
    }
  }

  lemma {:induction false} LeftEnd(s: string) returns (i: nat)
    ensures i <= |s| && TrimLeft(s) == s[i..] && (i < |s| ==> !IsSpace(s[i]))
    ensures forall k :: 0 <= k < i ==> IsSpace(s[k])
    decreases |s|
  {
    hide IsSpace;
    if s != "" && IsSpace(s[0]) {
      var rest := s[1..];
      var m := LeftEnd(rest);
      i := m + 1;
      assert rest[m..] == s[i..];
      forall k | 0 <= k < i ensures IsSpace(s[k]) {
        assert k > 0 ==> rest[k - 1] == s[k];
      }
    } else {
      i := 0;
      assert s[0..] == s;
    }
  }

  /** Line by line: empty lines and those that start with '#' are dropped. */
  lemma {:induction false} SignificantJoin(a: seq<string>, b: seq<string>)
    ensures Significant(a + b) == Significant(a) + Significant(b)
  {
    hide Counts, Strip, Significant, SignificantHead;
    if a == [] {
      assert a + b == b;
      SignificantNone();
    } else {
      SignificantJoin(a[1..], b);
      assert (a + b)[1..] == a[1..] + b && (a + b)[0] == a[0];
      SignificantFirst(a);
      SignificantFirst(a + b);
      Regroup(SignificantHead(a[0]), Significant(a[1..]), Significant(b));
    }
  }

  function SignificantHead(line: string): seq<string> {
    if Counts(Strip(line)) then [Strip(line)] else []
  }

  lemma SignificantFirst(lines: seq<string>)
    requires lines != []
    ensures Significant(lines) == SignificantHead(lines[0]) + Significant(lines[1..])
  {
    hide Counts, Strip;
  }

  lemma SignificantNone()
    ensures Significant([]) == []
  {
  }

  lemma Regroup(x: seq<string>, y: seq<string>, z: seq<string>)
    ensures x + (y + z) == x + y + z
  {
  }

  lemma SignificantOne(line: string)
    ensures var l := Strip(line);
            Significant([line]) == if l == "" || l[0] == '#' then [] else [l]
  {
    hide Strip;
    assert [line][1..] == [];
  }

  /** Runlevel letters count in lower case as well. */
  lemma SmallLetters()
    ensures Upper("vguplaem /Z") == "VGUPLAEM /Z"
  {
  }

  /** The devkit word is hexadecimal, with a sign, a prefix and single underscores if so written. */
  lemma HexTexts()
    ensures ParseHex("0x1f") == Some(31) && ParseHex("-1F") == Some(-31) && ParseHex("+0X1_0") == Some(16)
  {
    var t := "0x1f";
    assert t[0] == '0' && t[1] == 'x' && t[2] == '1' && "0x" <= t;
    assert t[2..] == "1f" && "1f"[1..] == "f" && "f"[1..] == "";
    assert ParseDigits("f", 1, false) == ParseDigits("", 31, false);
    assert ParseDigits("1f", 0, true) == Some(31);
    assert "-1F"[1..] == "1F" && "1F"[1..] == "F" && "F"[1..] == "";
    assert ParseDigits("F", 1, false) == ParseDigits("", 31, false);
    assert ParseDigits("1F", 0, true) == Some(31);
    var u := "0X1_0";
    assert "+0X1_0"[1..] == u && u[0] == '0' && u[1] == 'X' && u[2] == '1' && "0X" <= u;
    assert u[2..] == "1_0" && "1_0"[1..] == "_0" && "_0"[1..] == "0" && "0"[1..] == "";
    assert ParseDigits("0", 1, true) == ParseDigits("", 16, false);
    assert ParseDigits("1_0", 0, true) == ParseDigits("_0", 1, false) == Some(16);
  }

  lemma OtherTexts()
    ensures ParseHex("") == None && ParseHex("0x") == None && ParseHex("1_") == None && ParseHex("1g") == None
  {
    assert "0x"[2..] == "" && "1_"[1..] == "_" && "_"[1..] == "" && "1g"[1..] == "g";
    assert ParseDigits("_", 1, false) == ParseDigits("", 1, true) == None;
    assert ParseDigits("g", 1, false) == None;
  }

  // ----- printing

  /** The letters of the runlevels in the order of the modes. */
  lemma ModeTextIs(v: nat)
    ensures ModeText(v, 0)
         == (if Bit(v, 0) then "V" else "") + ((if Bit(v, 1) then "G" else "") + ((if Bit(v, 2) then "U" else "")
            + ((if Bit(v, 3) then "P" else "") + ((if Bit(v, 4) then "L" else "") + ((if Bit(v, 5) then "A" else "")
            + ((if Bit(v, 6) then "E" else "") + (if Bit(v, 7) then "M" else "")))))))
  {
    hide Bit;
    assert ModeText(v, 8) == "";
    assert ModeText(v, 7) == (if Bit(v, 7) then "M" else "");
    assert ModeText(v, 6) == (if Bit(v, 6) then "E" else "") + ModeText(v, 7);
    assert ModeText(v, 5) == (if Bit(v, 5) then "A" else "") + ModeText(v, 6);
    assert ModeText(v, 4) == (if Bit(v, 4) then "L" else "") + ModeText(v, 5);
    assert ModeText(v, 3) == (if Bit(v, 3) then "P" else "") + ModeText(v, 4);
    assert ModeText(v, 2) == (if Bit(v, 2) then "U" else "") + ModeText(v, 3);
    assert ModeText(v, 1) == (if Bit(v, 1) then "G" else "") + ModeText(v, 2);
  }

  /** Each printed line ends in a line feed. */
  lemma {:induction false} PrintOneMore(lines: seq<string>, line: string)
    ensures PrintLines(lines + [line]) == PrintLines(lines) + line + "\n"
  {
    if lines == [] {
      assert lines + [line] == [line] && [line][1..] == [];
      assert line + "\n" + "" == "" + line + "\n";
    } else {
      PrintOneMore(lines[1..], line);
      assert (lines + [line])[1..] == lines[1..] + [line];
      assert lines[0] + "\n" + (PrintLines(lines[1..]) + line + "\n")
          == lines[0] + "\n" + PrintLines(lines[1..]) + line + "\n";
    }
  }

  /** The line of a module with a load mode that has no prefix is never accepted back. */
  lemma UnknownModeFails(flags: nat, path: string)
    requires flags / 0x1_0000 !in {1, 2, 4, 0x8001, 0x8002, 0x8004}
    ensures ParseLine(LineText(BtcnfExtract.PrefixFromFlags(flags), path, flags)).Failure?
  {
    hide ParseLine, ModeText, Hex;
    BangFails(LineText(BtcnfExtract.PrefixFromFlags(flags), path, flags));
  }

  lemma BangFails(line: string)
    requires line != "" && line[0] == '!'
    ensures ParseLine(line).Failure?
  {
    hide TrimLeft, Upper, Runlevels, TokenEnd;
    var e := TokenEnd(line, 0);
    TokenEndIs(line, 0);
    assert e > 0 ==> line[..e][0] == '!';
  }

  // ----- what is built

  lemma ImageSize(devkit: int, rs: seq<ModuleRecord>)
    requires AsciiPaths(rs)
    ensures |Image(devkit, rs)| == 64 + 32 * |ModeEntries(rs, 8)| + 32 * |rs| + |Names(rs)|
  {
    hide ModeEntries, Names, Flatten, SortedEntries, ModuleEntries, WordBlocks, HeaderWords;
    SortedEntriesFacts(rs);
    FlattenSize(WordBlocks(HeaderWords(devkit, |ModeEntries(rs, 8)|, |rs|, |Names(rs)|)), 4);
    FlattenSize(ModeEntries(rs, 8), MODE_SIZE);
    FlattenSize(ModuleEntries(SortedEntries(rs)), MODULE_SIZE);
  }

  /** Some record is meant for a mode. */
  ghost predicate SomeMode(rs: seq<ModuleRecord>) {
    exists r: ModuleRecord, flag: nat :: r in rs && Contains(r.runlevels, flag)
  }

  lemma ModesExist(rs: seq<ModuleRecord>)
    ensures |ModeEntries(rs, 8)| > 0 <==> SomeMode(rs)
  {
    hide Contains, Uses, Flag, ModeEntry;
    var ks := ModesInUse(rs, 8);
    if |ks| > 0 {
      assert ks[0] in ks;
      UsesContains(rs, ks[0]);
    }
    if SomeMode(rs) {
      var r: ModuleRecord, flag: nat :| r in rs && Contains(r.runlevels, flag);
      IsModeFlag(r.runlevels, flag);
      var k := FlagIndex(flag);
      UsesContains(rs, k);
      assert k in ks;
    }
  }

  lemma IsModeFlag(v: nat, flag: nat)
    requires Contains(v, flag)
    ensures ModeFlag(flag)
  {
  }

  /**
    An image is built exactly when all paths are ASCII, the devkit word and the size of the image fit 32 bits,
    and the number of modules fits 16 bits or no mode is in use.
  */
  lemma BuildAccepts(devkit: int, rs: seq<ModuleRecord>)
    ensures BuildImage(devkit, rs).Success? <==>
              && AsciiPaths(rs) && 0 <= devkit < 0x1_0000_0000 && |Image(devkit, rs)| < 0x1_0000_0000
              && (SomeMode(rs) ==> |rs| < 0x1_0000)
    ensures BuildImage(devkit, rs).Success? ==> BuildImage(devkit, rs).value == Image(devkit, rs)
  {
    hide Image, ModeEntries, Names, SomeMode;
    if AsciiPaths(rs) {
      ImageSize(devkit, rs);
      ModesExist(rs);
    }
  }
}
