/**
  Which inputs are well-formed blocks. The reference decoder is a lenient reading of the format: as the source
  does, it takes an offset of zero for zeros and asks for no distance from the end.
*/
module Lz4Strict {
  import opened Bytes
  import opened Lz4Format
  import opened Lz4Checked

  /** No sequence has the offset zero, which the format forbids. */
  predicate Distant(s: seq<byte>, ip: nat, done: nat)
    decreases |s| - ip
  {
    var p := Parse(s, ip, done);
    p.Match? ==> p.offset >= 1 && Distant(s, p.next, done + p.count + p.length)
  }

  // ----- what is read has been spelled

  lemma {:induction false} LengthSpelled(s: seq<byte>, ip: nat, sum: nat)
    requires ReadLength(s, ip, sum).Some?
    ensures var (n, e) := ReadLength(s, ip, sum).value;
            n >= sum && At(s, ip, EncodeLength(n - sum)) && e == ip + |EncodeLength(n - sum)|
    decreases |s| - ip
  {
    hide At;
    var (n, e) := ReadLength(s, ip, sum).value;
    if s[ip] == 255 {
      LengthSpelled(s, ip + 1, sum + 255);
      OneByte(s, ip);
      AtSplit(s, ip, [255], EncodeLength(n - sum - 255));
    } else {
      OneByte(s, ip);
    }
  }

  lemma OneByte(s: seq<byte>, ip: nat)
    requires ip < |s|
    ensures At(s, ip, [s[ip]])
  {
  }

  lemma FieldSpelled(s: seq<byte>, ip: nat, nibble: nat)
    requires nibble < 16 && ip <= |s| && LengthField(s, ip, nibble).Some?
    ensures var (n, e) := LengthField(s, ip, nibble).value;
            nibble == Nibble(n) && At(s, ip, Extension(n)) && e == ip + |Extension(n)|
  {
    hide ReadLength, EncodeLength;
    if nibble == 15 {
      LengthSpelled(s, ip, 15);
    }
  }

  lemma TokenSpelled(token: byte)
    ensures token as int / 16 < 16 && token as int == 16 * (token as int / 16) + token as int % 16
  {
  }

  lemma OffsetSpelled(s: seq<byte>, q: nat)
    requires q + 2 <= |s|
    ensures At(s, q, Le16(Read16(s, q))) && Read16(s, q) <= MAX_DISTANCE
  {
    LowDigits(s[q], s[q + 1]);
    assert s[q..q + 2] == [s[q], s[q + 1]];
  }

  lemma LowDigits(a: byte, b: byte)
    ensures (a as int + 256 * (b as int)) % 256 == a && (a as int + 256 * (b as int)) / 256 % 256 == b
  {
  }

  /** The sequence that a step with a match has read. */
  function SequenceOf(s: seq<byte>, p: Parsed): Sequence
    requires p.Match? && p.start + p.count <= |s|
  {
    Sequence(s[p.start..p.start + p.count], p.offset, p.length)
  }

  lemma SequenceSpelled(s: seq<byte>, ip: nat, done: nat)
    requires Parse(s, ip, done).Match?
    ensures var p := Parse(s, ip, done);
            var x := SequenceOf(s, p);
            && x.matchLength >= MIN_MATCH && x.offset <= MAX_DISTANCE
            && At(s, ip, EncodeSequence(x)) && p.next == ip + |EncodeSequence(x)|
  {
    hide Read16, Le16, ReadLength, Extension, At, LengthField;
    var p := Parse(s, ip, done);
    var x := SequenceOf(s, p);
    var q := p.start + p.count;
    TokenSpelled(s[ip]);
    FieldSpelled(s, ip + 1, s[ip] as int / 16);
    FieldSpelled(s, q + 2, s[ip] as int % 16);
    OffsetSpelled(s, q);
    OneByte(s, ip);
    SliceStands(s, p.start, q);
    Assembled(s, ip, [s[ip]], Extension(p.count), x.literals, Le16(p.offset), Extension(p.length - MIN_MATCH));
  }

  lemma SliceStands(s: seq<byte>, i: nat, j: nat)
    requires i <= j <= |s|
    ensures At(s, i, s[i..j])
  {
  }

  lemma Assembled(s: seq<byte>, ip: nat, a: seq<byte>, b: seq<byte>, c: seq<byte>, d: seq<byte>, e: seq<byte>)
    requires At(s, ip, a) && At(s, ip + |a|, b) && At(s, ip + |a| + |b|, c)
    requires At(s, ip + |a| + |b| + |c|, d) && At(s, ip + |a| + |b| + |c| + |d|, e)
    ensures At(s, ip, a + b + c + d + e)
  {
    hide At;
    AtSplit(s, ip, a, b);
    AtSplit(s, ip, a + b, c);
    AtSplit(s, ip, a + b + c, d);
    AtSplit(s, ip, a + b + c + d, e);
  }

  lemma LastSpelled(s: seq<byte>, ip: nat, done: nat)
    requires Parse(s, ip, done).Final? && s[ip] % 16 == 0
    ensures var x := s[Parse(s, ip, done).start..];
            At(s, ip, EncodeLast(x)) && ip + |EncodeLast(x)| == |s|
  {
    hide ReadLength, Extension, At, LengthField;
    var start := Parse(s, ip, done).start;
    TokenSpelled(s[ip]);
    FieldSpelled(s, ip + 1, s[ip] as int / 16);
    OneByte(s, ip);
    SliceStands(s, start, |s|);
    assert s[start..] == s[start..|s|];
    AtSplit(s, ip, [s[ip]], Extension(|s| - start));
    AtSplit(s, ip, [s[ip]] + Extension(|s| - start), s[start..]);
  }

  // ----- blocks

  /** The block that stands from `ip` on. */
  function BlockFrom(s: seq<byte>, ip: nat, done: nat, total: nat): Block
    requires Conforms(s, ip, done, total)
    decreases |s| - ip
  {
    match Parse(s, ip, done)
    case Final(start) => Block([], s[start..])
    case Match(start, count, offset, length, next) =>
      var rest := BlockFrom(s, next, done + count + length, total);
      Block([SequenceOf(s, Parse(s, ip, done))] + rest.sequences, rest.lastLiterals)
  }

  /** It is valid, encodes to these bytes, and fills the output. */
  lemma {:induction false} BlockRead(s: seq<byte>, ip: nat, done: nat, total: nat)
    requires Conforms(s, ip, done, total) && Distant(s, ip, done)
    ensures var b := BlockFrom(s, ip, done, total);
            && ValidFrom(done, b, total) && At(s, ip, EncodeBlock(b)) && ip + |EncodeBlock(b)| == |s|
            && done + |Expand([], b)| == total
    decreases |s| - ip
  {
    hide Parse, EncodeSequence, EncodeSequences, EncodeLast, EncodeBlock, At, CopyMatch;
    var b := BlockFrom(s, ip, done, total);
    var p := Parse(s, ip, done);
    if p.Match? {
      var x, rest := SequenceOf(s, p), BlockFrom(s, p.next, done + p.count + p.length, total);
      SequenceSpelled(s, ip, done);
      BlockRead(s, p.next, done + p.count + p.length, total);
      assert b.sequences[1..] == rest.sequences;
      BlockSplits(b);
      AtSplit(s, ip, EncodeSequence(x), EncodeBlock(rest));
      ExpandLength(ExpandSequence([], x), [], rest);
    } else {
      LastSpelled(s, ip, done);
      BlockSplits(b);
    }
  }

  lemma {:induction false} EncodedDistant(s: seq<byte>, ip: nat, done: nat, b: Block, total: nat)
    requires ValidFrom(done, b, total) && At(s, ip, EncodeBlock(b)) && ip + |EncodeBlock(b)| == |s|
    ensures Distant(s, ip, done)
    decreases |b.sequences|
  {
    hide Parse, EncodeSequence, EncodeSequences, EncodeLast, EncodeBlock, At;
    BlockSplits(b);
    if b.sequences == [] {
      ParseLast(s, ip, done, b.lastLiterals);
    } else {
      var x, rest := b.sequences[0], Block(b.sequences[1..], b.lastLiterals);
      AtSplit(s, ip, EncodeSequence(x), EncodeBlock(rest));
      ParseEncoded(s, ip, done, x);
      EncodedDistant(s, ip + |EncodeSequence(x)|, done + |x.literals| + x.matchLength, rest, total);
    }
  }

  /**
    A byte string is a well-formed block for some data if and only if the reference decoder yields the data,
    no offset is zero, and the end-of-block conditions hold.
  */
  lemma WellFormedExactly(s: seq<byte>, data: seq<byte>)
    ensures Encodes(s, data) <==> Decode(s, 0, []) == Some(data) && Distant(s, 0, 0) && Conforms(s, 0, 0, |data|)
  {
    hide Decode, Distant, Conforms, EncodeBlock, Expand, At, ValidSequences;
    if Encodes(s, data) {
      EncodesDecodes(s, data);
      EncodesConforms(s, data);
      var b: Block :| Valid(b) && EncodeBlock(b) == s && Expand([], b) == data;
      Whole(s);
      EncodedDistant(s, 0, 0, b, |data|);
    }
    if Decode(s, 0, []) == Some(data) && Distant(s, 0, 0) && Conforms(s, 0, 0, |data|) {
      BlockRead(s, 0, 0, |data|);
      var b := BlockFrom(s, 0, 0, |data|);
      DecodeEncoded(s, 0, [], b, |data|);
      AtWhole(s, EncodeBlock(b));
    }
  }

  lemma Whole(s: seq<byte>)
    ensures At(s, 0, s)
  {
  }

  lemma AtWhole(s: seq<byte>, piece: seq<byte>)
    requires At(s, 0, piece) && |piece| == |s|
    ensures piece == s
  {
    assert s[0..|s|] == s;
  }

  /**
    A block of the format byte by byte: a token for 1 literal and a match of 8, the literal, the offset 1 with
    its low byte first, and a token for 5 last literals with them.
  */
  lemma SmallBlock()
    ensures Encodes([0x14, 97, 1, 0, 0x50, 98, 99, 100, 101, 102], Repeat(97, 9) + [98, 99, 100, 101, 102])
  {
    hide CopyMatch;
    var s: seq<byte> := [0x14, 97, 1, 0, 0x50, 98, 99, 100, 101, 102];
    var data: seq<byte> := Repeat(97, 9) + [98, 99, 100, 101, 102];
    var none: seq<byte> := [];
    assert Read16(s, 2) == 1;
    assert Parse(s, 0, 0) == Match(1, 1, 1, 8, 4);
    assert Parse(s, 4, 9) == Final(5);
    SameCopies(97, 8);
    assert none + s[1..2] == [97];
    assert Decode(s, 4, Repeat(97, 9)) == Some(data);
    assert Decode(s, 0, none) == Some(data);
    assert Conforms(s, 4, 9, 14) && Conforms(s, 0, 0, 14);
    assert Distant(s, 4, 9) && Distant(s, 0, 0);
    WellFormedExactly(s, data);
  }

  lemma {:induction false} SameCopies(b: byte, n: nat)
    ensures CopyMatch([b], 1, n) == Repeat(b, n + 1)
  {
    if n > 0 {
      SameCopies(b, n - 1);
    }
  }

  /** Lengths of 15 and more go on in further bytes: 15 + 255 + 3, and 4 more for a match. */
  lemma LongFields()
    ensures Parse([0x1F, 97, 1, 0, 255, 3, 0], 0, 0) == Match(1, 1, 1, 277, 6)
    ensures Parse([0xF0, 1] + Repeat(97, 16), 0, 0) == Final(2)
  {
    var s: seq<byte> := [0x1F, 97, 1, 0, 255, 3, 0];
    assert Read16(s, 2) == 1;
    assert ReadLength(s, 5, 270) == Some((273, 6));
    assert ReadLength(s, 4, 15) == Some((273, 6));
    var t: seq<byte> := [0xF0, 1] + Repeat(97, 16);
    assert ReadLength(t, 1, 15) == Some((16, 2));
  }

  /** What is accepted below the limit is a well-formed block for what it yields under the same two conditions. */
  lemma AcceptedExactly(s: seq<byte>, room: nat, data: seq<byte>)
    requires |s| < SAFE_LIMIT && Result(s, room) == Some(data)
    ensures Encodes(s, data) <==> Distant(s, 0, 0) && Conforms(s, 0, 0, |data|)
  {
    hide Encodes, Result, Decode, Distant, Conforms;
    ResultSound(s, room);
    WellFormedExactly(s, data);
  }

  /** An accepted input that is a well-formed block for no data: a literal, a match at offset zero, 8 literals. */
  lemma ZeroOffset(room: nat)
    requires 17 <= room
    ensures var s: seq<byte> := [16, 97, 0, 0, 128, 1, 2, 3, 4, 5, 6, 7, 8];
            Result(s, room).Some? && forall data: seq<byte> :: !Encodes(s, data)
  {
    hide Encodes, CopyMatch;
    var s: seq<byte> := [16, 97, 0, 0, 128, 1, 2, 3, 4, 5, 6, 7, 8];
    assert Read16(s, 2) == 0;
    assert Parse(s, 0, 0) == Match(1, 1, 0, 4, 4);
    assert Step(s, 0, 0, room) == Match(1, 1, 0, 4, 4);
    assert Step(s, 4, 5, room) == Final(5);
    var none: seq<byte> := [];
    var out := CopyMatch(none + s[1..2], 0, 4);
    assert Checked(s, 4, out, room).Some?;
    assert Checked(s, 0, none, room) == Checked(s, 4, out, room);
    assert !Distant(s, 0, 0);
    forall data: seq<byte> ensures !Encodes(s, data) {
      WellFormedExactly(s, data);
    }
  }
}
