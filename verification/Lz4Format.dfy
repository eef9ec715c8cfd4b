/**
  The LZ4 block format, twice: as a list of sequences with its byte encoding, and as a reference
  decoder that reads one byte at a time. (LZ4 Block Format Description, sections "Compressed block
  format" and "End of block conditions".)
*/
module Lz4Format {
  import opened Bytes

  const MIN_MATCH := 4
  const MF_LIMIT := 12
  const LAST_LITERALS := 5
  const MAX_DISTANCE := 65535
  const RUN_MASK := 15
  const ML_MASK := 15

  datatype Sequence = Sequence(literals: seq<byte>, offset: nat, matchLength: nat)
  datatype Block = Block(sequences: seq<Sequence>, lastLiterals: seq<byte>)

  /** The byte a match of distance `offset` yields next; distance 0 yields zeros, as the decoder does. */
  function MatchByte(out: seq<byte>, offset: nat): byte {
    if 1 <= offset <= |out| then out[|out| - offset] else 0
  }

  /** Copies `length` bytes from `offset` bytes back, one at a time, so a copy may read its own output. */
  function CopyMatch(out: seq<byte>, offset: nat, length: nat): (r: seq<byte>)
    ensures |r| == |out| + length
  {
    if length == 0 then out
    else
      var shorter := CopyMatch(out, offset, length - 1);
      shorter + [MatchByte(shorter, offset)]
  }

  function ExpandSequence(out: seq<byte>, s: Sequence): (r: seq<byte>)
    ensures |r| == |out| + |s.literals| + s.matchLength
  {
    CopyMatch(out + s.literals, s.offset, s.matchLength)
  }

  function ExpandSequences(out: seq<byte>, ss: seq<Sequence>): (r: seq<byte>)
    ensures |out| <= |r|
    decreases |ss|
  {
    if ss == [] then out else ExpandSequences(ExpandSequence(out, ss[0]), ss[1..])
  }

  /** What the block decodes to when `out` is already decoded. */
  function Expand(out: seq<byte>, b: Block): (r: seq<byte>)
    ensures |out| <= |r|
  {
    ExpandSequences(out, b.sequences) + b.lastLiterals
  }

  /** Additional length bytes: 255 each while the remainder allows, then the remainder. */
  function EncodeLength(n: nat): (s: seq<byte>)
    ensures |s| == n / 255 + 1
  {
    if n < 255 then [n] else [255] + EncodeLength(n - 255)
  }

  function Nibble(n: nat): nat { if n < 15 then n else 15 }

  function Extension(n: nat): (s: seq<byte>)
    ensures |s| == if n < 15 then 0 else (n - 15) / 255 + 1
  {
    if n < 15 then [] else EncodeLength(n - 15)
  }

  function EncodeSequence(s: Sequence): seq<byte>
    requires s.matchLength >= MIN_MATCH
  {
    var code := s.matchLength - MIN_MATCH;
    [16 * Nibble(|s.literals|) + Nibble(code)] + Extension(|s.literals|) + s.literals
    + Le16(s.offset) + Extension(code)
  }

  predicate LongMatches(ss: seq<Sequence>) {
    forall i :: 0 <= i < |ss| ==> ss[i].matchLength >= MIN_MATCH
  }

  function EncodeSequences(ss: seq<Sequence>): seq<byte>
    requires LongMatches(ss)
  {
    if ss == [] then [] else EncodeSequence(ss[0]) + EncodeSequences(ss[1..])
  }

  function EncodeLast(literals: seq<byte>): seq<byte> {
    [16 * Nibble(|literals|)] + Extension(|literals|) + literals
  }

  function EncodeBlock(b: Block): seq<byte>
    requires LongMatches(b.sequences)
  {
    EncodeSequences(b.sequences) + EncodeLast(b.lastLiterals)
  }

  /**
    Sequences that a decoder holding `done` bytes of a `total`-byte output must accept: distances in
    range and reaching only decoded bytes, every match starting at least 12 bytes and ending at least
    5 bytes before the end.
  */
  predicate ValidSequences(done: nat, ss: seq<Sequence>, total: nat)
    decreases |ss|
  {
    ss == [] ||
    (var start := done + |ss[0].literals|;
     && 1 <= ss[0].offset <= MAX_DISTANCE && ss[0].offset <= start
     && ss[0].matchLength >= MIN_MATCH
     && start + MF_LIMIT <= total
     && start + ss[0].matchLength + LAST_LITERALS <= total
     && ValidSequences(start + ss[0].matchLength, ss[1..], total))
  }

  /** The end-of-block conditions, for a block that follows `done` decoded bytes. */
  predicate ValidFrom(done: nat, b: Block, total: nat) {
    && LongMatches(b.sequences)
    && ValidSequences(done, b.sequences, total)
  }

  predicate Valid(b: Block) {
    ValidFrom(0, b, |Expand([], b)|)
  }

  /** `bytes` is a well-formed block for `data`. */
  ghost predicate Encodes(bytes: seq<byte>, data: seq<byte>) {
    exists b: Block :: Valid(b) && EncodeBlock(b) == bytes && Expand([], b) == data
  }

  // ----- reference decoder

  /** Adds up length bytes until one is not 255; yields the length and the index after them. */
  function ReadLength(s: seq<byte>, ip: nat, sum: nat): Option<(nat, nat)>
    decreases |s| - ip
  {
    if ip >= |s| then None
    else if s[ip] == 255 then ReadLength(s, ip + 1, sum + 255)
    else Some((sum + s[ip], ip + 1))
  }

  lemma ReadLengthBounds(s: seq<byte>, ip: nat, sum: nat)
    ensures var r := ReadLength(s, ip, sum); r.Some? ==> sum <= r.value.0 && ip < r.value.1 <= |s|
    decreases |s| - ip
  {
  }

  function LengthField(s: seq<byte>, ip: nat, nibble: nat): (r: Option<(nat, nat)>)
    ensures r.Some? && ip <= |s| ==> ip <= r.value.1 <= |s|
  {
    ReadLengthBounds(s, ip, 15);
    if nibble == 15 then ReadLength(s, ip, 15) else Some((nibble, ip))
  }

  /** One sequence as it stands in a block: where its literals are, and its match unless it is the last. */
  datatype Parsed =
    | Malformed
    | Final(start: nat)
    | Match(start: nat, count: nat, offset: nat, length: nat, next: nat)

  /** Reads the offset and the match length at `q`; `have` bytes are decoded by then. */
  function ParseMatch(s: seq<byte>, start: nat, q: nat, nibble: nat, have: nat): (r: Parsed)
    requires start <= q <= |s|
    ensures r.Match? ==> r.start == start && r.start + r.count == q && q < r.next <= |s| && r.offset <= have
    ensures !r.Final?
  {
    if q + 2 > |s| then Malformed
    else
      var field := LengthField(s, q + 2, nibble);
      if Read16(s, q) > have || field.None? then Malformed
      else Match(start, q - start, Read16(s, q), field.value.0 + MIN_MATCH, field.value.1)
  }

  /** Reads one sequence at `ip`, with `done` bytes decoded before it. */
  function Parse(s: seq<byte>, ip: nat, done: nat): (r: Parsed)
    ensures r.Match? ==> ip < r.start && r.start + r.count < r.next <= |s| && r.offset <= done + r.count
    ensures r.Final? ==> ip < r.start <= |s|
  {
    if ip >= |s| then Malformed
    else
      var field := LengthField(s, ip + 1, s[ip] / 16);
      if field.None? || field.value.1 + field.value.0 > |s| then Malformed
      else if field.value.1 + field.value.0 == |s| then Final(field.value.1)
      else
        var (count, start) := field.value;
        ParseMatch(s, start, start + count, s[ip] % 16, done + count)
  }

  /** Decodes `s` from index `ip` on, with `out` already decoded. */
  function Decode(s: seq<byte>, ip: nat, out: seq<byte>): Option<seq<byte>>
    decreases |s| - ip
  {
    match Parse(s, ip, |out|)
    case Malformed => None
    case Final(start) => Some(out + s[start..])
    case Match(start, count, offset, length, next) =>
      Decode(s, next, CopyMatch(out + s[start..start + count], offset, length))
  }

  // ----- the two descriptions agree

  lemma {:induction false} ReadEncodedLength(s: seq<byte>, ip: nat, sum: nat, n: nat)
    requires At(s, ip, EncodeLength(n))
    ensures ReadLength(s, ip, sum) == Some((sum + n, ip + |EncodeLength(n)|))
    decreases n
  {
    if n < 255 {
      assert s[ip] == s[ip..ip + 1][0];
    } else {
      AtSplit(s, ip, [255], EncodeLength(n - 255));
      assert s[ip] == s[ip..ip + 1][0];
      ReadEncodedLength(s, ip + 1, sum + 255, n - 255);
    }
  }

  lemma ReadExtension(s: seq<byte>, ip: nat, n: nat)
    requires At(s, ip, Extension(n))
    ensures LengthField(s, ip, Nibble(n)) == Some((n, ip + |Extension(n)|))
  {
    if n >= 15 {
      ReadEncodedLength(s, ip, 15, n - 15);
    }
  }

  /** Where the parts of an encoded sequence stand, and that the reference decoder reads them back. */
  lemma SequenceParts(s: seq<byte>, ip: nat, x: Sequence)
    requires x.matchLength >= MIN_MATCH && At(s, ip, EncodeSequence(x))
    ensures var p := ip + 1 + |Extension(|x.literals|)|;
            var q := p + |x.literals|;
            && ip < |s| && s[ip] == 16 * Nibble(|x.literals|) + Nibble(x.matchLength - MIN_MATCH)
            && At(s, ip + 1, Extension(|x.literals|))
            && At(s, p, x.literals)
            && At(s, q, Le16(x.offset))
            && At(s, q + 2, Extension(x.matchLength - MIN_MATCH))
            && ip + |EncodeSequence(x)| == q + 2 + |Extension(x.matchLength - MIN_MATCH)|
  {
    hide Extension, Le16;
    var token := [16 * Nibble(|x.literals|) + Nibble(x.matchLength - MIN_MATCH)];
    var a, b, c, d := Extension(|x.literals|), x.literals, Le16(x.offset), Extension(x.matchLength - MIN_MATCH);
    AtSplit(s, ip, token + a + b + c, d);
    AtSplit(s, ip, token + a + b, c);
    AtSplit(s, ip, token + a, b);
    AtSplit(s, ip, token, a);
    assert s[ip] == s[ip..ip + 1][0];
  }

  lemma LastParts(s: seq<byte>, ip: nat, x: seq<byte>)
    requires At(s, ip, EncodeLast(x))
    ensures && ip < |s| && s[ip] == 16 * Nibble(|x|)
            && At(s, ip + 1, Extension(|x|)) && At(s, ip + 1 + |Extension(|x|)|, x)
  {
    hide Extension;
    AtSplit(s, ip, [16 * Nibble(|x|)] + Extension(|x|), x);
    AtSplit(s, ip, [16 * Nibble(|x|)], Extension(|x|));
    assert s[ip] == s[ip..ip + 1][0];
  }

  lemma TokenHalves(high: nat, low: nat)
    requires high < 16 && low < 16
    ensures (16 * high + low) / 16 == high && (16 * high + low) % 16 == low
  {
  }

  lemma ParseEncoded(s: seq<byte>, ip: nat, done: nat, x: Sequence)
    requires x.matchLength >= MIN_MATCH && At(s, ip, EncodeSequence(x))
    requires x.offset <= MAX_DISTANCE && x.offset <= done + |x.literals|
    ensures var start := ip + 1 + |Extension(|x.literals|)|;
            && At(s, start, x.literals)
            && Parse(s, ip, done)
               == Match(start, |x.literals|, x.offset, x.matchLength, ip + |EncodeSequence(x)|)
  {
    hide EncodeSequence, Extension, At, Read16, Le16, ReadLength;
    SequenceParts(s, ip, x);
    TokenHalves(Nibble(|x.literals|), Nibble(x.matchLength - MIN_MATCH));
    ReadExtension(s, ip + 1, |x.literals|);
    var p := ip + 1 + |Extension(|x.literals|)|;
    var q := p + |x.literals|;
    AtFits(s, p, x.literals);
    AtFits(s, q, Le16(x.offset));
    AtFits(s, q + 2, Extension(x.matchLength - MIN_MATCH));
    Read16OfLe16(s, q, x.offset);
    ReadExtension(s, q + 2, x.matchLength - MIN_MATCH);
  }

  lemma DecodeStep(s: seq<byte>, ip: nat, out: seq<byte>, x: Sequence)
    requires x.matchLength >= MIN_MATCH && At(s, ip, EncodeSequence(x))
    requires x.offset <= MAX_DISTANCE && x.offset <= |out| + |x.literals|
    ensures Decode(s, ip, out) == Decode(s, ip + |EncodeSequence(x)|, ExpandSequence(out, x))
  {
    hide EncodeSequence, Parse, Extension;
    ParseEncoded(s, ip, |out|, x);
  }

  lemma DecodeLast(s: seq<byte>, ip: nat, out: seq<byte>, x: seq<byte>)
    requires At(s, ip, EncodeLast(x)) && ip + |EncodeLast(x)| == |s|
    ensures Decode(s, ip, out) == Some(out + x)
  {
    LastParts(s, ip, x);
    TokenHalves(Nibble(|x|), 0);
    ReadExtension(s, ip + 1, |x|);
    assert s[ip + 1 + |Extension(|x|)|..] == x;
  }

  /** The reference decoder takes an encoded block back to what the block stands for. */
  lemma {:induction false} DecodeEncoded(s: seq<byte>, ip: nat, out: seq<byte>, b: Block, total: nat)
    requires ValidFrom(|out|, b, total)
    requires At(s, ip, EncodeBlock(b)) && ip + |EncodeBlock(b)| == |s|
    ensures Decode(s, ip, out) == Some(Expand(out, b))
    decreases |b.sequences|
  {
    hide EncodeSequence, EncodeBlock, EncodeSequences, EncodeLast, Decode, CopyMatch, At;
    BlockSplits(b);
    if b.sequences == [] {
      DecodeLast(s, ip, out, b.lastLiterals);
    } else {
      var x, rest := b.sequences[0], Block(b.sequences[1..], b.lastLiterals);
      AtSplit(s, ip, EncodeSequence(x), EncodeBlock(rest));
      DecodeStep(s, ip, out, x);
      DecodeEncoded(s, ip + |EncodeSequence(x)|, ExpandSequence(out, x), rest, total);
    }
  }

  lemma BlockSplits(b: Block)
    requires LongMatches(b.sequences)
    ensures b.sequences == [] ==> EncodeBlock(b) == EncodeLast(b.lastLiterals)
    ensures b.sequences != [] ==>
              var rest := Block(b.sequences[1..], b.lastLiterals);
              LongMatches(rest.sequences) && EncodeBlock(b) == EncodeSequence(b.sequences[0]) + EncodeBlock(rest)
  {
  }

  /** A block has one meaning: the reference decoder returns the data it encodes, and no other. */
  lemma EncodesDecodes(bytes: seq<byte>, data: seq<byte>)
    requires Encodes(bytes, data)
    ensures Decode(bytes, 0, []) == Some(data)
  {
    var b: Block :| Valid(b) && EncodeBlock(b) == bytes && Expand([], b) == data;
    DecodeEncoded(bytes, 0, [], b, |data|);
  }
}
