/** The compressor on data of one byte: a proof that it looks for matches and takes them to their end. */
module Lz4Constant {
  import opened Bytes
  import opened Lz4Format
  import opened Lz4Match
  import opened Lz4Stretch
  import opened Lz4Compress

  /** What such data come to. */
  function ConstantBound(n: nat, acceleration: nat): nat {
    n / 255 + 5 * acceleration + 100
  }

  /** A run of literals that is one stretch is short. */
  lemma RunBound(s: seq<byte>, anchor: nat, end: nat, acceleration: nat)
    requires Constant(s, 0, |s|) && anchor <= end <= |s| && acceleration <= MAX_PACE
    requires Literals(s, anchor, end, acceleration)
    ensures 15 * (end - anchor) < 64 * acceleration + 1024
  {
    assert Constant(s, anchor, end);
  }

  lemma LastSize(x: seq<byte>)
    ensures |EncodeLast(x)| <= 2 + |x| + |x| / 255
  {
    hide EncodeLength;
  }

  /** There is at most one match, and it ends 5 bytes before the end. */
  lemma OneSequence(s: seq<byte>, ss: seq<Sequence>)
    requires Constant(s, 0, |s|) && ss != [] && ValidSequences(0, ss, |s|) && Maximal(s, 0, ss)
    ensures |ss| == 1 && |ss[0].literals| + ss[0].matchLength + LAST_LITERALS == |s|
  {
    var end := |ss[0].literals| + ss[0].matchLength;
    assert end + LAST_LITERALS <= |s|;
  }

  /** Sequences for such data are small. */
  lemma SequencesSmall(s: seq<byte>, ss: seq<Sequence>, acceleration: nat)
    requires Constant(s, 0, |s|) && acceleration <= MAX_PACE && LongMatches(ss)
    requires ValidSequences(0, ss, |s|) && Maximal(s, 0, ss) && Searched(s, 0, ss, acceleration)
    ensures ss == [] ==> EncodeSequences(ss) == [] && ExpandSequences([], ss) == []
    ensures ss != [] ==> |ExpandSequences([], ss)| + LAST_LITERALS == |s|
                         && |EncodeSequences(ss)| + 20 <= ConstantBound(|s|, acceleration)
  {
    hide EncodeSequence, CopyMatch, Literals;
    if ss != [] {
      var x := ss[0];
      OneSequence(s, ss);
      assert ss[1..] == [];
      assert EncodeSequences(ss) == EncodeSequence(x) + [];
      assert ExpandSequences([], ss) == ExpandSequence([], x);
      RunBound(s, 0, |x.literals|, acceleration);
      SequenceSmall(x, |s|);
    }
  }

  lemma SequenceSmall(x: Sequence, n: nat)
    requires x.matchLength >= MIN_MATCH && |x.literals| + x.matchLength <= n
    ensures |EncodeSequence(x)| <= 5 + |x.literals| + |x.literals| / 255 + n / 255
  {
    hide EncodeLength;
  }

  /** A block for such data is small. */
  lemma ConstantBlock(b: Block, s: seq<byte>, acceleration: nat)
    requires Greedy(b, s, acceleration) && Constant(s, 0, |s|) && acceleration <= MAX_PACE
    ensures |EncodeBlock(b)| <= ConstantBound(|s|, acceleration)
  {
    hide Maximal, Searched, Literals, EncodeLast, EncodeSequences, ExpandSequences, ValidSequences;
    var anchor := |s| - |b.lastLiterals|;
    RunBound(s, anchor, |s|, acceleration);
    LastSize(b.lastLiterals);
    SequencesSmall(s, b.sequences, acceleration);
  }

  /** So an output of that size never lacks room for it. */
  lemma ConstantFits(s: seq<byte>, capacity: nat, acceleration: nat)
    requires Constant(s, 0, |s|) && acceleration <= MAX_PACE && capacity >= ConstantBound(|s|, acceleration)
    ensures !LacksRoom(s, capacity, acceleration)
  {
    hide Maximal, Searched, Literals, EncodeLast, EncodeSequences, ExpandSequences, ValidSequences, Constant, MatchAt;
    if LacksRoom(s, capacity, acceleration) {
      var out: seq<byte>, ss: seq<Sequence>, anchor: nat, end: nat, m: nat, code: nat :|
        Lacks(s, capacity, acceleration, out, ss, anchor, end, m, code);
      SequencesSmall(s, ss, acceleration);
      assert |s[..anchor]| == anchor;
      RunBound(s, anchor, end, acceleration);
      LastSize(s[anchor..end]);
      LastSize(s[anchor..]);
    }
  }

  /** Compressing n bytes of one value: it succeeds in any output of that size, and takes no more of it. */
  method CompressConstant(value: byte, n: nat, dest: array<byte>, capacity: nat, acceleration: int) returns (r: nat)
    requires n <= MAX_INPUT_SIZE && acceleration <= MAX_PACE
    requires StoreLimit(n, capacity, capacity < CompressBound(n)) <= dest.Length
    requires capacity >= ConstantBound(n, Pace(acceleration))
    modifies dest
    ensures 0 < r <= ConstantBound(n, Pace(acceleration)) && r <= dest.Length && Encodes(dest[..r], Repeat(value, n))
  {
    hide EncodesGreedily, Encodes, LacksRoom, StoreLimit, Greedy;
    var source := Repeat(value, n);
    assert source[..n] == source;
    ConstantFits(source, capacity, Pace(acceleration));
    ghost var past;
    r, past := CompressFast(source, dest, n, capacity, acceleration);
    GreedyBlock(dest[..r], source, Pace(acceleration));
  }

  lemma GreedyBlock(bytes: seq<byte>, s: seq<byte>, acceleration: nat)
    requires EncodesGreedily(bytes, s, acceleration) && Constant(s, 0, |s|) && acceleration <= MAX_PACE
    ensures |bytes| <= ConstantBound(|s|, acceleration)
  {
    hide EncodeBlock, ConstantBound, Maximal, Searched, Literals;
    var b: Block :| Greedy(b, s, acceleration) && EncodeBlock(b) == bytes;
    ConstantBlock(b, s, acceleration);
  }
}
