/** The sizes from which on an input can make the 32-bit sums of the decoder wrap, exactly. */
module Lz4Limits {
  import opened Bytes
  import opened Lz4Format
  import opened Lz4Checked

  /**
    For no input of this size is anything yielded but what the reference decoder gives it. With `strict`
    this is asked only of inputs whose offsets are not zero, as the format demands.
  */
  ghost predicate SoundAt(n: nat, strict: bool) {
    forall s: seq<byte>, room: nat ::
      |s| == n && room < 0x8000_0000 && Result(s, room).Some? && (strict ==> Nonzero(s, 0, 0, room)) ==>
        Decode(s, 0, []) == Result(s, room)
  }

  /** A zero offset saves the byte that another one needs in front of it. */
  function Limit(strict: bool): nat {
    if strict then SAFE_LIMIT + 1 else SAFE_LIMIT
  }

  lemma WrapAdds(sum: nat, n: nat)
    ensures ((sum + 255) % U32_MODULUS + n) % U32_MODULUS == (sum + 255 + n) % U32_MODULUS
  {
  }

  /** The match length loop adds in 32 bits. */
  lemma {:induction false} ReadMatchEncoded(s: seq<byte>, ip: nat, sum: nat, n: nat)
    requires At(s, ip, EncodeLength(n)) && ip + |EncodeLength(n)| + LAST_LITERALS <= |s|
    ensures ReadMatch(s, ip, sum) == Some(((sum + n) % U32_MODULUS, ip + |EncodeLength(n)|))
    decreases n
  {
    if n >= 255 {
      AtSplit(s, ip, [255], EncodeLength(n - 255));
      assert s[ip] == s[ip..ip + 1][0];
      ReadMatchEncoded(s, ip + 1, (sum + 255) % U32_MODULUS, n - 255);
      WrapAdds(sum, n - 255);
    } else {
      assert s[ip] == s[ip..ip + 1][0];
    }
  }

  /** Last literals are read alike. */
  lemma LastRead(s: seq<byte>, ip: nat, done: nat, x: seq<byte>, room: nat)
    requires At(s, ip, EncodeLast(x)) && ip + |EncodeLast(x)| == |s| && |x| < U32_MODULUS && done + |x| <= room
    ensures Step(s, ip, done, room) == Final(|s| - |x|)
  {
    hide ReadLength, ReadLiterals, Extension, Read16;
    LastParts(s, ip, x);
    TokenHalves(Nibble(|x|), 0);
    ReadExtension(s, ip + 1, |x|);
    if |x| >= 15 {
      LiteralsAgree(s, ip + 1, 15);
    }
  }

  /** Literals, a match length of 2^32 and the least match, which is 4 bytes for the decoder, and last literals. */
  function Long(literals: seq<byte>, offset: nat, last: seq<byte>): seq<byte> {
    EncodeSequence(Sequence(literals, offset, U32_MODULUS + MIN_MATCH)) + EncodeLast(last)
  }

  lemma LongStep(literals: seq<byte>, offset: nat, last: seq<byte>, room: nat)
    requires offset <= |literals| <= 2 && |last| >= 4 && room >= 16
    ensures var x := Sequence(literals, offset, U32_MODULUS + MIN_MATCH);
            Step(Long(literals, offset, last), 0, 0, room)
            == Match(1, |literals|, offset, MIN_MATCH, |EncodeSequence(x)|)
  {
    hide EncodeSequence, EncodeLast, EncodeLength, ReadMatch, Le16, Read16, At;
    var x := Sequence(literals, offset, U32_MODULUS + MIN_MATCH);
    var s := Long(literals, offset, last);
    StartsWith(EncodeSequence(x), EncodeLast(last));
    SequenceParts(s, 0, x);
    TokenHalves(|literals|, 15);
    var q := 1 + |literals|;
    AtFits(s, q, Le16(offset));
    Read16OfLe16(s, q, offset);
    LastAtLeast(last);
    LongField(s, q + 2);
  }

  lemma StartsWith(a: seq<byte>, b: seq<byte>)
    ensures At(a + b, 0, a) && At(a + b, |a|, b)
  {
  }

  lemma LastAtLeast(last: seq<byte>)
    ensures |EncodeLast(last)| > |last|
  {
  }

  lemma LongField(s: seq<byte>, ip: nat)
    requires At(s, ip, Extension(U32_MODULUS)) && ip + |Extension(U32_MODULUS)| + LAST_LITERALS <= |s|
    ensures MatchField(s, ip, 15) == Some((0, ip + |Extension(U32_MODULUS)|))
  {
    hide EncodeLength, ReadMatch, At;
    ReadMatchEncoded(s, ip, 15, U32_MODULUS - 15);
  }

  /** The decoder takes the input for a short block, the format for one of more than 4 GiB. */
  lemma LongYields(literals: seq<byte>, offset: nat, last: seq<byte>, room: nat)
    requires offset <= |literals| <= 2 && 4 <= |last| < U32_MODULUS && room >= |last| + 16
    ensures var s := Long(literals, offset, last);
            var r := Result(s, room);
            && r.Some? && |r.value| == |literals| + MIN_MATCH + |last|
            && Decode(s, 0, []).Some? && Decode(s, 0, []) != r
            && (offset > 0 ==> Nonzero(s, 0, 0, room))
  {
    hide EncodeSequence, EncodeLast, Step, Parse, At, CopyMatch;
    var x := Sequence(literals, offset, U32_MODULUS + MIN_MATCH);
    var s := Long(literals, offset, last);
    var next := |EncodeSequence(x)|;
    StartsWith(EncodeSequence(x), EncodeLast(last));
    LongStep(literals, offset, last, room);
    LastRead(s, next, |literals| + MIN_MATCH, last, room);
    var empty: seq<byte> := [];
    var out := CopyMatch(empty + s[1..1 + |literals|], offset, MIN_MATCH);
    assert Checked(s, 0, empty, room) == Checked(s, next, out, room);
    assert Checked(s, next, out, room) == Some(out + s[|s| - |last|..]);
    assert offset > 0 ==> Nonzero(s, next, |literals| + MIN_MATCH, room);
    DecodeStep(s, 0, [], x);
    DecodeLast(s, next, ExpandSequence([], x), last);
  }

  /** The number of last literals whose encoding has `k` bytes, where there is one. */
  function LastSize(k: nat): nat
    requires k >= 5
  {
    if k < 17 then k - 1 else 15 + (k - 17) - (k - 17) / 256
  }

  lemma LastOfSize(k: nat, last: seq<byte>)
    requires k >= 5 && |last| == LastSize(k) && k != 16 && (k - 17) % 256 != 255
    ensures |EncodeLast(last)| == k
  {
    if k >= 17 {
      var t := k - 17;
      var a, b := t / 256, t % 256;
      assert |last| - 15 == 255 * a + b;
    }
  }

  lemma LongSize(literals: seq<byte>, offset: nat, last: seq<byte>)
    requires |literals| <= 2
    ensures |Long(literals, offset, last)| == SAFE_LIMIT - 5 + |literals| + |EncodeLast(last)|
  {
    hide EncodeLength, Le16;
  }

  /** Every size from the limit on has an input for which the decoder yields something else. */
  lemma LongInput(n: nat, strict: bool) returns (s: seq<byte>)
    requires Limit(strict) <= n < 0x8000_0000
    ensures |s| == n && Result(s, n).Some? && Decode(s, 0, []).Some? && Decode(s, 0, []) != Result(s, n)
    ensures strict ==> Nonzero(s, 0, 0, n)
  {
    hide EncodeLast, Long, Result, Decode, Nonzero;
    var offset := if strict then 1 else 0;
    var k := n - (SAFE_LIMIT - 5) - offset;
    var extra := if k == 16 || (k >= 17 && (k - 17) % 256 == 255) then 1 else 0;
    var literals, last := Repeat(0, offset + extra), Repeat(0, LastSize(k - extra));
    LastOfSize(k - extra, last);
    LongSize(literals, offset, last);
    LongYields(literals, offset, last, n);
    s := Long(literals, offset, last);
  }

  /** Sound for all inputs of a size if and only if the size is below the limit. */
  lemma SoundExactly(n: nat, strict: bool)
    requires n < 0x8000_0000
    ensures SoundAt(n, strict) <==> n < Limit(strict)
  {
    hide Result, Decode, Nonzero;
    if n < Limit(strict) {
      forall s: seq<byte>, room: nat
        | |s| == n && room < 0x8000_0000 && Result(s, room).Some? && (strict ==> Nonzero(s, 0, 0, room))
        ensures Decode(s, 0, []) == Result(s, room)
      {
        ResultSound(s, room);
      }
    } else {
      var s := LongInput(n, strict);
    }
  }

  // ----- the top of the address space

  lemma {:induction false} ReadMatchGrows(s: seq<byte>, ip: nat, sum: nat)
    ensures var r := ReadMatch(s, ip, sum); r.Some? ==> r.value.0 < sum + 255 * (r.value.1 - ip)
    decreases |s| - ip
  {
    if ip < |s| && s[ip] == 255 && ip + 1 + LAST_LITERALS <= |s| {
      ReadMatchGrows(s, ip + 1, (sum + 255) % U32_MODULUS);
    }
  }

  /** No input byte adds more than 255 bytes of output. */
  lemma StepGrows(s: seq<byte>, ip: nat, done: nat, room: nat)
    ensures var p := Step(s, ip, done, room); p.Match? ==> p.count + p.length <= 255 * (p.next - ip)
  {
    hide ReadMatch, LiteralStep, Read16;
    if !Quick(s, ip, done, room) {
      var r := LiteralStep(s, ip, done, room);
      if r.Before? {
        ReadMatchGrows(s, r.start + r.count + 2, ML_MASK);
      }
    }
  }

  /** The least size of an input that can meet the top of the address space, for an output at `address`. */
  function WindowSize(address: nat): nat
    requires address + 19 <= U32_MODULUS
  {
    (U32_MODULUS - MIN_MATCH - 15 - address) / 255 + 9
  }

  lemma WindowNeeds(s: seq<byte>, ip: nat, done: nat, room: nat, address: nat)
    requires Window(s, ip, done, room, address) && Placed(address, room) && done <= 255 * ip
    ensures |s| >= WindowSize(address)
  {
    hide ReadMatch, LiteralStep, Read16, Quick;
    var r := LiteralStep(s, ip, done, room);
    var q := r.start + r.count;
    ReadMatchGrows(s, q + 2, ML_MASK);
    var f, e := ReadMatch(s, q + 2, ML_MASK).value.0, ReadMatch(s, q + 2, ML_MASK).value.1;
    assert address + done + r.count + f >= U32_MODULUS - MIN_MATCH;
    assert f <= 14 + 255 * (|s| - 5 - q - 2) && q >= ip + 1 + r.count;
  }

  lemma {:induction false} WrapsNeeds(s: seq<byte>, ip: nat, done: nat, room: nat, address: nat)
    requires Wraps(s, ip, done, room, address) && Placed(address, room) && done <= 255 * ip
    ensures |s| >= WindowSize(address)
    decreases |s| - ip
  {
    hide Window, Step, Placed, WindowSize;
    if Window(s, ip, done, room, address) {
      WindowNeeds(s, ip, done, room, address);
    } else {
      var p := Step(s, ip, done, room);
      StepGrows(s, ip, done, room);
      WrapsNeeds(s, p.next, done + p.count + p.length, room, address);
    }
  }

  /** No literals, offset zero, a match length that ends 4 bytes below the top, and anything behind it. */
  lemma WindowInput(n: nat, room: nat, address: nat) returns (s: seq<byte>)
    requires Placed(address, room) && room >= MF_LIMIT && n >= WindowSize(address)
    ensures |s| == n && Wraps(s, 0, 0, room, address)
  {
    hide ReadMatch, EncodeLength, At;
    var field := U32_MODULUS - MIN_MATCH - address;
    var code := EncodeLength(field - 15);
    s := [15, 0, 0] + code + Repeat(0, n - 3 - |code|);
    StartsWith([15, 0, 0], code + Repeat(0, n - 3 - |code|));
    assert s == [15, 0, 0] + (code + Repeat(0, n - 3 - |code|));
    AtSplit(s, 3, code, Repeat(0, n - 3 - |code|));
    ReadMatchEncoded(s, 3, ML_MASK, field - 15);
    assert LiteralStep(s, 0, 0, room) == Before(1, 0);
    assert Window(s, 0, 0, room, address);
  }

  /** No input of a size meets the top of the address space, for an output there, if and only if it is smaller. */
  lemma WrapsExactly(n: nat, room: nat, address: nat)
    requires Placed(address, room) && room >= MF_LIMIT
    ensures (forall s: seq<byte> :: |s| == n ==> !Wraps(s, 0, 0, room, address)) <==> n < WindowSize(address)
  {
    hide Wraps, WindowSize;
    if n < WindowSize(address) {
      forall s: seq<byte> | |s| == n ensures !Wraps(s, 0, 0, room, address) {
        if Wraps(s, 0, 0, room, address) {
          WrapsNeeds(s, 0, 0, room, address);
        }
      }
    } else {
      var s := WindowInput(n, room, address);
    }
  }
}
