/**
  What LZ4_decompress_generic accepts and yields when it is bounded by its input: every test it makes, and
  lengths that are added up in 32 bits. Against the format, where lengths are numbers.
*/
module Lz4Checked {
  import opened Bytes
  import opened Lz4Format

  /**
    The block at `ip` keeps to the end-of-block conditions for an output of `total` bytes, of which
    `done` are decoded: what an encoder must guarantee and a decoder may rely on.
  */
  predicate Conforms(s: seq<byte>, ip: nat, done: nat, total: nat)
    decreases |s| - ip
  {
    match Parse(s, ip, done)
    case Malformed => false
    case Final(start) => done + (|s| - start) == total && s[ip] % 16 == 0
    case Match(start, count, offset, length, next) =>
      && start + count + 3 + LAST_LITERALS <= |s|
      && next + 1 + LAST_LITERALS <= |s|
      && done + count + MF_LIMIT <= total
      && done + count + length + LAST_LITERALS <= total
      && Conforms(s, next, done + count + length, total)
  }

  lemma {:induction false} LastLiteralsLong(done: nat, b: Block, total: nat)
    requires ValidFrom(done, b, total)
    requires total == done + |Expand([], b)|
    requires b.sequences != [] || done + LAST_LITERALS <= total
    ensures |b.lastLiterals| >= LAST_LITERALS && |EncodeBlock(b)| >= 1 + LAST_LITERALS
    decreases |b.sequences|
  {
    hide EncodeSequence, CopyMatch;
    BlockSplits(b);
    if b.sequences != [] {
      var x, rest := b.sequences[0], Block(b.sequences[1..], b.lastLiterals);
      ExpandLength(ExpandSequence([], x), [], rest);
      LastLiteralsLong(done + |x.literals| + x.matchLength, rest, total);
    }
  }

  /** How much a block adds to the output does not depend on what is there already. */
  lemma {:induction false} ExpandLength(a: seq<byte>, c: seq<byte>, b: Block)
    ensures |Expand(a, b)| - |a| == |Expand(c, b)| - |c|
    decreases |b.sequences|
  {
    hide CopyMatch;
    if b.sequences != [] {
      var x, rest := b.sequences[0], Block(b.sequences[1..], b.lastLiterals);
      ExpandLength(ExpandSequence(a, x), ExpandSequence(c, x), rest);
    }
  }

  /** A well-formed block conforms once encoded. */
  lemma {:induction false} EncodedConforms(s: seq<byte>, ip: nat, done: nat, b: Block, total: nat)
    requires ValidFrom(done, b, total) && total == done + |Expand([], b)|
    requires At(s, ip, EncodeBlock(b)) && ip + |EncodeBlock(b)| == |s|
    ensures Conforms(s, ip, done, total)
    decreases |b.sequences|
  {
    hide EncodeSequence, EncodeSequences, EncodeLast, EncodeBlock, Parse, At, CopyMatch;
    BlockSplits(b);
    if b.sequences == [] {
      ParseLast(s, ip, done, b.lastLiterals);
    } else {
      var x, rest := b.sequences[0], Block(b.sequences[1..], b.lastLiterals);
      AtSplit(s, ip, EncodeSequence(x), EncodeBlock(rest));
      ParseEncoded(s, ip, done, x);
      EncodeSequenceTail(x);
      ExpandLength(ExpandSequence([], x), [], rest);
      LastLiteralsLong(done + |x.literals| + x.matchLength, rest, total);
      EncodedConforms(s, ip + |EncodeSequence(x)|, done + |x.literals| + x.matchLength, rest, total);
    }
  }

  lemma EncodesConforms(bytes: seq<byte>, data: seq<byte>)
    requires Encodes(bytes, data)
    ensures Conforms(bytes, 0, 0, |data|)
  {
    var b: Block :| Valid(b) && EncodeBlock(b) == bytes && Expand([], b) == data;
    EncodedConforms(bytes, 0, 0, b, |data|);
  }

  lemma ParseLast(s: seq<byte>, ip: nat, done: nat, x: seq<byte>)
    requires At(s, ip, EncodeLast(x)) && ip + |EncodeLast(x)| == |s|
    ensures Parse(s, ip, done).Final? && |s| - Parse(s, ip, done).start == |x| && s[ip] % 16 == 0
  {
    LastParts(s, ip, x);
    TokenHalves(Nibble(|x|), 0);
    ReadExtension(s, ip + 1, |x|);
  }

  lemma EncodeSequenceTail(x: Sequence)
    requires x.matchLength >= MIN_MATCH
    ensures |EncodeSequence(x)| >= 1 + |Extension(|x.literals|)| + |x.literals| + 2
  {
  }

  // ----- one step, with the tests of the source

  /** The literal length loop; it also stops 15 bytes before the end. */
  function ReadLiterals(s: seq<byte>, ip: nat, sum: nat): (r: Option<(nat, nat)>)
    ensures r.Some? <==> ip < |s|
    ensures r.Some? ==> ip < r.value.1 <= |s| && r.value.0 < U32_MODULUS
    decreases |s| - ip
  {
    if ip >= |s| then None
    else
      var next := (sum + s[ip]) % U32_MODULUS;
      if ip + 1 + RUN_MASK < |s| && s[ip] == 255 then ReadLiterals(s, ip + 1, next) else Some((next, ip + 1))
  }

  /** The match length loop; it fails within 5 bytes of the end. */
  function ReadMatch(s: seq<byte>, ip: nat, sum: nat): (r: Option<(nat, nat)>)
    ensures r.Some? ==> ip < r.value.1 <= |s| - LAST_LITERALS && r.value.0 < U32_MODULUS
    decreases |s| - ip
  {
    if ip + 1 + LAST_LITERALS > |s| then None
    else
      var next := (sum + s[ip]) % U32_MODULUS;
      if s[ip] == 255 then ReadMatch(s, ip + 1, next) else Some((next, ip + 1))
  }

  /** The literals of a sequence: unacceptable, the last ones, or some before a match. */
  datatype Run = Bad | Last(start: nat) | Before(start: nat, count: nat)

  function LiteralField(s: seq<byte>, ip: nat): (r: Option<(nat, nat)>)
    requires ip < |s|
    ensures r.Some? ==> ip < r.value.1 <= |s|
  {
    if s[ip] / 16 == RUN_MASK then ReadLiterals(s, ip + 1, RUN_MASK) else Some((s[ip] as int / 16, ip + 1))
  }

  function LiteralStep(s: seq<byte>, ip: nat, done: nat, room: nat): (r: Run)
    ensures r.Last? ==> ip < r.start <= |s| && done + (|s| - r.start) <= room
    ensures r.Before? ==> ip < r.start && r.start + r.count + 8 <= |s| && done + r.count + MF_LIMIT <= room
  {
    if ip >= |s| || LiteralField(s, ip).None? then Bad
    else
      var (count, start) := LiteralField(s, ip).value;
      if done + count + MF_LIMIT > room || start + count + 8 > |s| then
        if start + count == |s| && done + count <= room then Last(start) else Bad
      else Before(start, count)
  }

  function MatchField(s: seq<byte>, q: nat, nibble: nat): (r: Option<(nat, nat)>)
    ensures r.Some? && q <= |s| ==> q <= r.value.1 <= |s|
  {
    if nibble == ML_MASK then ReadMatch(s, q, ML_MASK) else Some((nibble, q))
  }

  /** Offset, match length and the space for the match; a length whose sum with an address wraps is an error. */
  function MatchStep(s: seq<byte>, start: nat, q: nat, nibble: nat, have: nat, room: nat): (r: Parsed)
    requires start <= q && q + 8 <= |s|
    ensures !r.Final?
    ensures r.Match? ==> && r.start == start && r.start + r.count == q && q < r.next <= |s| && r.offset <= have
                         && r.length >= MIN_MATCH && have + r.length + LAST_LITERALS <= room
  {
    var field := MatchField(s, q + 2, nibble);
    if Read16(s, q) > have || field.None? then Malformed
    else if field.value.0 + MIN_MATCH >= U32_MODULUS then Malformed
    else if have + field.value.0 + MIN_MATCH + LAST_LITERALS > room then Malformed
    else Match(start, q - start, Read16(s, q), field.value.0 + MIN_MATCH, field.value.1)
  }

  /** One pass of the general path. */
  function GeneralStep(s: seq<byte>, ip: nat, done: nat, room: nat): (r: Parsed)
    ensures r.Match? ==> ip < r.start && r.start + r.count < r.next <= |s| && r.offset <= done + r.count
    ensures r.Final? ==> ip < r.start <= |s|
  {
    match LiteralStep(s, ip, done, room)
    case Bad => Malformed
    case Last(start) => Final(start)
    case Before(start, count) => MatchStep(s, start, start + count, s[ip] as int % 16, done + count, room)
  }

  /** Where the shortcut is taken: few literals, a short match that does not overlap, and space to overshoot. */
  predicate Quick(s: seq<byte>, ip: nat, done: nat, room: nat) {
    && ip + 17 <= |s| && done + 32 <= room && s[ip] < 240 && s[ip] % 16 != 15
    && var ll := s[ip] as int / 16;
       8 <= Read16(s, ip + 1 + ll) <= done + ll
  }

  function Step(s: seq<byte>, ip: nat, done: nat, room: nat): (r: Parsed)
    ensures r.Match? ==> ip < r.start && r.start + r.count < r.next <= |s| && r.offset <= done + r.count
    ensures r.Final? ==> ip < r.start <= |s|
  {
    if Quick(s, ip, done, room) then
      var ll := s[ip] as int / 16;
      Match(ip + 1, ll, Read16(s, ip + 1 + ll), s[ip] as int % 16 + MIN_MATCH, ip + 1 + ll + 2)
    else GeneralStep(s, ip, done, room)
  }

  /** The whole loop, into an output of `room` bytes. */
  function Checked(s: seq<byte>, ip: nat, out: seq<byte>, room: nat): Option<seq<byte>>
    decreases |s| - ip
  {
    match Step(s, ip, |out|, room)
    case Malformed => None
    case Final(start) => Some(out + s[start..])
    case Match(start, count, offset, length, next) =>
      Checked(s, next, CopyMatch(out + s[start..start + count], offset, length), room)
  }

  /** What decoding bounded by the input yields; the empty output has one block. */
  function Result(s: seq<byte>, room: nat): Option<seq<byte>> {
    if room == 0 then if s == [0] then Some([]) else None else Checked(s, 0, [], room)
  }

  // ----- the shortcut

  /** Where the shortcut is taken it is a step of the format. */
  lemma QuickParse(s: seq<byte>, ip: nat, done: nat, room: nat)
    requires Quick(s, ip, done, room)
    ensures Step(s, ip, done, room) == Parse(s, ip, done)
  {
    hide GeneralStep, Read16;
  }

  /** On what the general path accepts, the shortcut lands where the general path does. */
  lemma QuickGeneral(s: seq<byte>, ip: nat, done: nat, room: nat)
    requires Quick(s, ip, done, room) && !GeneralStep(s, ip, done, room).Malformed?
    ensures Step(s, ip, done, room) == GeneralStep(s, ip, done, room)
  {
    hide Read16;
  }

  // ----- well-formed blocks

  /** A length that fits the input and 32 bits is read alike. */
  lemma {:induction false} LiteralsAgree(s: seq<byte>, ip: nat, sum: nat)
    requires ReadLength(s, ip, sum).Some?
    requires var (n, e) := ReadLength(s, ip, sum).value; n + e <= |s| && n < U32_MODULUS
    ensures ReadLiterals(s, ip, sum) == ReadLength(s, ip, sum)
    decreases |s| - ip
  {
    if s[ip] == 255 {
      ReadLengthBounds(s, ip + 1, sum + 255);
      assert ip + 1 + RUN_MASK < |s|;
      LiteralsAgree(s, ip + 1, sum + 255);
    }
  }

  lemma {:induction false} MatchAgrees(s: seq<byte>, ip: nat, sum: nat)
    requires ReadLength(s, ip, sum).Some?
    requires var (n, e) := ReadLength(s, ip, sum).value; e + LAST_LITERALS <= |s| && n < U32_MODULUS
    ensures ReadMatch(s, ip, sum) == ReadLength(s, ip, sum)
    decreases |s| - ip
  {
    if s[ip] == 255 {
      ReadLengthBounds(s, ip + 1, sum + 255);
      MatchAgrees(s, ip + 1, sum + 255);
    }
  }

  lemma ConformLiterals(s: seq<byte>, ip: nat, done: nat, total: nat, room: nat)
    requires Conforms(s, ip, done, total) && total <= room < 0x8000_0000
    ensures ip < |s| && LengthField(s, ip + 1, s[ip] / 16).Some?
    ensures var (count, start) := LengthField(s, ip + 1, s[ip] / 16).value;
            && count < U32_MODULUS && start + count <= |s| && LiteralField(s, ip) == Some((count, start))
            && LiteralStep(s, ip, done, room) == if start + count == |s| then Last(start) else Before(start, count)
    ensures LiteralStep(s, ip, done, room).Last? ==> done + (|s| - LiteralStep(s, ip, done, room).start) == total
  {
    hide ReadLength, ReadLiterals;
    var (count, start) := LengthField(s, ip + 1, s[ip] / 16).value;
    if s[ip] / 16 == 15 {
      LiteralsAgree(s, ip + 1, 15);
    }
  }

  /** On a block that conforms every step is that of the format, by the general path as by the shortcut. */
  lemma ConformStep(s: seq<byte>, ip: nat, done: nat, total: nat, room: nat)
    requires Conforms(s, ip, done, total) && total <= room < 0x8000_0000
    ensures GeneralStep(s, ip, done, room) == Parse(s, ip, done) == Step(s, ip, done, room)
  {
    hide ReadLength, ReadLiterals, ReadMatch, LiteralStep, Quick, LiteralField;
    ConformLiterals(s, ip, done, total, room);
    var p := Parse(s, ip, done);
    if p.Match? {
      var q := p.start + p.count;
      if s[ip] % 16 == 15 {
        MatchAgrees(s, q + 2, 15);
      }
    }
    if Quick(s, ip, done, room) {
      QuickParse(s, ip, done, room);
    }
  }

  /** A block that conforms is accepted, and yields what the format says. */
  lemma {:induction false} ConformDecodes(s: seq<byte>, ip: nat, out: seq<byte>, total: nat, room: nat)
    requires Conforms(s, ip, |out|, total) && total <= room < 0x8000_0000
    ensures Checked(s, ip, out, room) == Decode(s, ip, out) && Decode(s, ip, out).Some?
    decreases |s| - ip
  {
    hide Parse, Step, GeneralStep, CopyMatch;
    ConformStep(s, ip, |out|, total, room);
    var p := Parse(s, ip, |out|);
    if p.Match? {
      ConformDecodes(s, p.next, CopyMatch(out + s[p.start..p.start + p.count], p.offset, p.length), total, room);
    }
  }

  // ----- sound while no length can wrap

  /** From this size on an input can spell a match length of 2^32. */
  const SAFE_LIMIT := 16843017

  /** A literal length that is accepted was not cut short, and while it cannot wrap it is that of the format. */
  lemma {:induction false} LiteralsSound(s: seq<byte>, ip: nat, sum: nat)
    requires ip < |s| && sum >= RUN_MASK && sum + 255 < U32_MODULUS
    requires sum + 255 * (|s| - RUN_MASK - ip) < U32_MODULUS
    requires var (n, e) := ReadLiterals(s, ip, sum).value; n + e <= |s|
    ensures ReadLength(s, ip, sum) == ReadLiterals(s, ip, sum)
    decreases |s| - ip
  {
    if s[ip] == 255 && ip + 1 + RUN_MASK < |s| {
      assert (sum + 255) % U32_MODULUS == sum + 255;
      LiteralsSound(s, ip + 1, sum + 255);
    } else {
      assert (sum + s[ip]) % U32_MODULUS == sum + s[ip];
    }
  }

  lemma {:induction false} MatchSound(s: seq<byte>, ip: nat, sum: nat)
    requires ReadMatch(s, ip, sum).Some? && sum + 255 * (|s| - LAST_LITERALS - ip) < U32_MODULUS
    ensures ReadLength(s, ip, sum) == ReadMatch(s, ip, sum)
    decreases |s| - ip
  {
    if s[ip] == 255 {
      MatchSound(s, ip + 1, sum + 255);
    }
  }

  lemma LiteralStepSound(s: seq<byte>, ip: nat, done: nat, room: nat)
    requires |s| <= SAFE_LIMIT && !LiteralStep(s, ip, done, room).Bad?
    ensures ip < |s| && LiteralField(s, ip).Some? && LengthField(s, ip + 1, s[ip] / 16) == LiteralField(s, ip)
    ensures var (count, start) := LiteralField(s, ip).value;
            LiteralStep(s, ip, done, room) == if start + count == |s| then Last(start) else Before(start, count)
  {
    hide ReadLength, ReadLiterals;
    if s[ip] / 16 == 15 {
      LiteralsShort(s, ip + 1);
    }
  }

  /** The length field of the largest inputs: it ends at least 15 bytes early or after one byte. */
  lemma LiteralsShort(s: seq<byte>, ip: nat)
    requires 1 <= ip < |s| <= SAFE_LIMIT
    requires var (n, e) := ReadLiterals(s, ip, RUN_MASK).value; n + e <= |s|
    ensures ReadLength(s, ip, RUN_MASK) == ReadLiterals(s, ip, RUN_MASK)
  {
    hide ReadLength, ReadLiterals;
    LiteralsSound(s, ip, RUN_MASK);
  }

  /**
    While no length can wrap, what is accepted is a step of the format. An offset that is not zero needs a
    byte of output and so of input before it, which leaves one length byte less.
  */
  lemma StepSound(s: seq<byte>, ip: nat, done: nat, room: nat)
    requires |s| <= SAFE_LIMIT && !Step(s, ip, done, room).Malformed? && (ip == 0 ==> done == 0)
    requires |s| == SAFE_LIMIT ==> Offset(Step(s, ip, done, room)) >= 1
    ensures Step(s, ip, done, room) == Parse(s, ip, done)
  {
    hide ReadLength, ReadMatch, LiteralField, LiteralStep, Quick, MatchStep, ParseMatch;
    if Quick(s, ip, done, room) {
      QuickParse(s, ip, done, room);
    } else {
      LiteralStepSound(s, ip, done, room);
      var r := LiteralStep(s, ip, done, room);
      if r.Before? {
        MatchStepSound(s, r.start, r.start + r.count, s[ip] as int % 16, done + r.count, room);
      }
    }
  }

  /** The offset of a match; what has none counts as one that is in order. */
  function Offset(p: Parsed): nat {
    if p.Match? then p.offset else 1
  }

  /** Every match on the way has an offset that is not zero, as the format demands. */
  predicate Nonzero(s: seq<byte>, ip: nat, done: nat, room: nat)
    decreases |s| - ip
  {
    var p := Step(s, ip, done, room);
    Offset(p) >= 1 && (p.Match? ==> Nonzero(s, p.next, done + p.count + p.length, room))
  }

  lemma MatchStepSound(s: seq<byte>, start: nat, q: nat, nibble: nat, have: nat, room: nat)
    requires 1 <= start <= q && q + 8 <= |s| && |s| + 2 <= SAFE_LIMIT + q && nibble < 16
    requires !MatchStep(s, start, q, nibble, have, room).Malformed?
    ensures MatchStep(s, start, q, nibble, have, room) == ParseMatch(s, start, q, nibble, have)
  {
    hide ReadLength, ReadMatch;
    if nibble == 15 {
      MatchSound(s, q + 2, ML_MASK);
    }
  }

  lemma {:induction false} CheckedSound(s: seq<byte>, ip: nat, out: seq<byte>, room: nat)
    requires |s| < SAFE_LIMIT || (|s| == SAFE_LIMIT && Nonzero(s, ip, |out|, room))
    requires Checked(s, ip, out, room).Some? && (ip == 0 ==> out == [])
    ensures Decode(s, ip, out) == Checked(s, ip, out, room)
    decreases |s| - ip
  {
    hide Parse, Step, CopyMatch;
    StepSound(s, ip, |out|, room);
    var p := Step(s, ip, |out|, room);
    if p.Match? {
      CheckedSound(s, p.next, CopyMatch(out + s[p.start..p.start + p.count], p.offset, p.length), room);
    }
  }

  /** What is yielded below the limit is what the format gives; without zero offsets, also at the limit. */
  lemma ResultSound(s: seq<byte>, room: nat)
    requires |s| < SAFE_LIMIT || (|s| == SAFE_LIMIT && Nonzero(s, 0, 0, room))
    requires Result(s, room).Some?
    ensures Decode(s, 0, []) == Result(s, room)
  {
    hide Checked, Decode;
    if room == 0 {
      OneZero();
    } else {
      CheckedSound(s, 0, [], room);
    }
  }

  /** The one block of an empty output is a single zero token. */
  lemma OneZero()
    ensures Decode([0], 0, []) == Some([])
  {
    var z: seq<byte> := [0];
    assert Parse(z, 0, 0) == Final(1);
    assert [] + z[1..] == [];
    assert Decode(z, 0, []) == Some([]);
  }

  lemma ConformEmpty(s: seq<byte>)
    requires Conforms(s, 0, 0, 0)
    ensures s == [0]
  {
    hide ReadLength;
    ReadLengthBounds(s, 1, 15);
    TokenIsNibbles(s[0]);
  }

  lemma TokenIsNibbles(token: byte)
    ensures token as int == 16 * (token as int / 16) + token as int % 16
  {
  }

  // ----- the top of the address space

  /** A buffer of `room` bytes at `address`, outside the first 64 KiB and the last 32 bytes of the address space. */
  predicate Placed(address: nat, room: nat) {
    0x1_0000 <= address && address + room + 32 <= U32_MODULUS
  }

  /** A match length that passes the test on its sum with the address, and whose sum wraps once 4 is added. */
  predicate InWindow(end: nat, field: Option<(nat, nat)>) {
    field.Some? && end + field.value.0 < U32_MODULUS <= end + field.value.0 + MIN_MATCH
  }

  /** The pass at `ip` meets such a length, for an output at `address`. */
  predicate Window(s: seq<byte>, ip: nat, done: nat, room: nat, address: nat) {
    !Quick(s, ip, done, room)
    && match LiteralStep(s, ip, done, room)
       case Bad => false
       case Last(_) => false
       case Before(start, count) =>
         var q := start + count;
         Read16(s, q) <= done + count && s[ip] % 16 == 15
         && InWindow(address + done + count, ReadMatch(s, q + 2, ML_MASK))
  }

  /** Some pass of the loop does. */
  predicate Wraps(s: seq<byte>, ip: nat, done: nat, room: nat, address: nat)
    decreases |s| - ip
  {
    Window(s, ip, done, room, address)
    || var p := Step(s, ip, done, room);
       p.Match? && Wraps(s, p.next, done + p.count + p.length, room, address)
  }

  /** Such a length does not fit the output, so an input that meets one is none that should be accepted. */
  lemma WindowFails(s: seq<byte>, ip: nat, done: nat, room: nat, address: nat)
    requires Window(s, ip, done, room, address) && Placed(address, room)
    ensures Step(s, ip, done, room).Malformed?
  {
    hide ReadMatch, LiteralStep, Read16, Quick;
  }

  lemma {:induction false} WrapsFail(s: seq<byte>, ip: nat, out: seq<byte>, room: nat, address: nat)
    requires Wraps(s, ip, |out|, room, address) && Placed(address, room)
    ensures Checked(s, ip, out, room).None?
    decreases |s| - ip
  {
    hide CopyMatch, Step, Window, Placed;
    if Window(s, ip, |out|, room, address) {
      WindowFails(s, ip, |out|, room, address);
    } else {
      var p := Step(s, ip, |out|, room);
      WrapsFail(s, p.next, CopyMatch(out + s[p.start..p.start + p.count], p.offset, p.length), room, address);
    }
  }

  // ----- reading past the end of the input

  /** A pass at `ip` reads past the end: the token, or the length byte of a token that is the last byte. */
  predicate Outside(s: seq<byte>, ip: nat) {
    ip >= |s| || (ip + 1 == |s| && s[ip] >= 240)
  }

  /** Some pass of the loop reads past the end of the input. */
  predicate Overreads(s: seq<byte>, ip: nat, done: nat, room: nat)
    decreases |s| - ip
  {
    Outside(s, ip)
    || var p := Step(s, ip, done, room);
       p.Match? && Overreads(s, p.next, done + p.count + p.length, room)
  }

  /** Only an input that is refused is read past its end, by one or two bytes. */
  lemma {:induction false} OverreadsFail(s: seq<byte>, ip: nat, out: seq<byte>, room: nat)
    requires Overreads(s, ip, |out|, room)
    ensures Checked(s, ip, out, room).None?
    decreases |s| - ip
  {
    hide CopyMatch, Step, Outside;
    if Outside(s, ip) {
      OutsideFails(s, ip, |out|, room);
    } else {
      var p := Step(s, ip, |out|, room);
      OverreadsFail(s, p.next, CopyMatch(out + s[p.start..p.start + p.count], p.offset, p.length), room);
    }
  }

  lemma OutsideFails(s: seq<byte>, ip: nat, done: nat, room: nat)
    requires Outside(s, ip)
    ensures Step(s, ip, done, room).Malformed?
  {
    hide MatchStep;
  }

  /**
    Inputs that end in a short sequence with a match are read past their end, because the shortcut does
    not keep the distance from it that the general path does: 14 literals and a match of 4, and no more.
  */
  lemma ShortcutOverreads(room: nat)
    requires room >= 32
    ensures var s: seq<byte> := [224, 1, 2, 3, 4, 5, 6, 7, 8, 9, 10, 11, 12, 13, 14, 8, 0];
            Overreads(s, 0, 0, room) && GeneralStep(s, 0, 0, room).Malformed?
  {
    var s: seq<byte> := [224, 1, 2, 3, 4, 5, 6, 7, 8, 9, 10, 11, 12, 13, 14, 8, 0];
    assert Read16(s, 15) == 8;
    assert Step(s, 0, 0, room) == Match(1, 14, 8, 4, 17);
    assert Outside(s, 17);
    assert Overreads(s, 17, 18, room);
  }
}
