/** Data without repeats, which no block makes smaller. */
module Lz4Incompressible {
  import opened Bytes
  import opened Lz4Format
  import opened Lz4Checked

  /** No 4 bytes occur again within the distance that an offset can span. */
  predicate NoRepeats(data: seq<byte>) {
    forall i: nat, j: nat :: i < j && j - i <= MAX_DISTANCE && j + 4 <= |data| ==> Read32(data, i) != Read32(data, j)
  }

  /** The bytes of a match are those at its offset. */
  lemma {:induction false} CopyRepeats(out: seq<byte>, offset: nat, length: nat)
    requires 1 <= offset <= |out|
    ensures var r := CopyMatch(out, offset, length);
            out <= r && forall k :: |out| <= k < |r| ==> r[k] == r[k - offset]
  {
    if length > 0 {
      CopyRepeats(out, offset, length - 1);
      var r, shorter := CopyMatch(out, offset, length), CopyMatch(out, offset, length - 1);
      forall k | |out| <= k < |r| ensures r[k] == r[k - offset] {
        assert k < |shorter| ==> r[k] == shorter[k] && r[k - offset] == shorter[k - offset];
      }
    }
  }

  lemma {:induction false} ExpandPrefix(out: seq<byte>, b: Block)
    requires ValidSequences(|out|, b.sequences, |Expand(out, b)|)
    ensures out <= Expand(out, b)
    decreases |b.sequences|
  {
    hide CopyMatch;
    if b.sequences != [] {
      var x, rest := b.sequences[0], Block(b.sequences[1..], b.lastLiterals);
      CopyRepeats(out + x.literals, x.offset, x.matchLength);
      ExpandPrefix(ExpandSequence(out, x), rest);
    }
  }

  /** A well-formed block for such data is literals only, so it is longer than the data. */
  lemma LiteralsOnly(bytes: seq<byte>, data: seq<byte>)
    requires Encodes(bytes, data) && NoRepeats(data)
    ensures |bytes| > |data|
  {
    hide CopyMatch, NoRepeats, Read32;
    var b: Block :| Valid(b) && EncodeBlock(b) == bytes && Expand([], b) == data;
    if b.sequences != [] {
      var x, rest := b.sequences[0], Block(b.sequences[1..], b.lastLiterals);
      var out := ExpandSequence([], x);
      assert [] + x.literals == x.literals;
      CopyRepeats(x.literals, x.offset, x.matchLength);
      ExpandPrefix(out, rest);
      assert data == Expand(out, rest);
      RepeatFound(data, out, |x.literals|, x.offset);
      assert false;
    } else {
      BlockSplits(b);
    }
  }

  lemma RepeatFound(data: seq<byte>, out: seq<byte>, n: nat, offset: nat)
    requires out <= data && n + 4 <= |out| && 1 <= offset <= n && offset <= MAX_DISTANCE
    requires forall k :: n <= k < |out| ==> out[k] == out[k - offset]
    ensures !NoRepeats(data)
  {
    forall k | n <= k < n + 4 ensures data[k] == data[k - offset] {
    }
    assert Read32(data, n - offset) == Read32(data, n);
  }

  // ----- such data

  /** Words with a marker in front and two digits of a counter to base 128. */
  function NoiseByte(i: nat): byte {
    if i % 4 == 0 then 255 else if i % 4 == 1 then i / 4 % 128 else if i % 4 == 2 then i / 4 / 128 % 128 else 0
  }

  function Noise(n: nat): (s: seq<byte>)
    ensures |s| == n
  {
    seq(n, i requires 0 <= i < n => NoiseByte(i))
  }

  lemma NoiseUnrepeated(n: nat)
    ensures NoRepeats(Noise(n))
  {
    hide Read32, Noise;
    var s := Noise(n);
    forall i: nat, j: nat | i < j && j - i <= MAX_DISTANCE && j + 4 <= |s| ensures Read32(s, i) != Read32(s, j) {
      NoiseDiffers(n, i, j);
    }
  }

  /** The marker tells where words start, and words that are not 65536 bytes apart have other digits. */
  lemma NoiseDiffers(n: nat, i: nat, j: nat)
    requires i < j && j - i <= MAX_DISTANCE && j + 4 <= n
    ensures Read32(Noise(n), i) != Read32(Noise(n), j)
  {
    hide NoiseByte, Read32;
    var s := Noise(n);
    if Read32(s, i) == Read32(s, j) {
      Read32Injective(s, i, s, j);
      SameNoise(i, j);
    }
  }

  lemma SameNoise(i: nat, j: nat)
    requires NoiseByte(i) == NoiseByte(j) && NoiseByte(i + 1) == NoiseByte(j + 1)
    requires NoiseByte(i + 2) == NoiseByte(j + 2) && NoiseByte(i + 3) == NoiseByte(j + 3)
    ensures (j - i) % 65536 == 0
  {
    hide NoiseByte;
    Marker(i);
    Marker(i + 1);
    Marker(i + 2);
    Marker(i + 3);
    Marker(j);
    Marker(j + 1);
    Marker(j + 2);
    Marker(j + 3);
    assert i % 4 == j % 4;
    SameWords(i / 4, j / 4, i % 4);
  }

  lemma SameWords(a: nat, b: nat, p: nat)
    requires p < 4
    requires NoiseByte(4 * a + p) == NoiseByte(4 * b + p) && NoiseByte(4 * a + p + 1) == NoiseByte(4 * b + p + 1)
    requires NoiseByte(4 * a + p + 2) == NoiseByte(4 * b + p + 2)
    requires NoiseByte(4 * a + p + 3) == NoiseByte(4 * b + p + 3)
    ensures ((4 * b + p) - (4 * a + p)) % 65536 == 0
  {
    hide NoiseByte;
    InWord(a);
    InWord(b);
    InWord(a + 1);
    InWord(b + 1);
    if p == 2 {
      LowDigit(a, b);
    }
    if p == 3 {
      Digits(a + 1, b + 1);
    } else {
      Digits(a, b);
    }
    Apart(a, b, p);
  }

  lemma Marker(i: nat)
    ensures NoiseByte(i) == 255 <==> i % 4 == 0
  {
  }

  lemma InWord(a: nat)
    ensures NoiseByte(4 * a + 1) == a % 128 && NoiseByte(4 * a + 2) == a / 128 % 128
  {
    assert (4 * a + 1) / 4 == a && (4 * a + 2) / 4 == a;
  }

  lemma LowDigit(a: nat, b: nat)
    requires (a + 1) % 128 == (b + 1) % 128
    ensures a % 128 == b % 128
  {
    var q := b / 128 + (a + 1) / 128 - (b + 1) / 128;
    assert a == 128 * q + b % 128;
  }

  lemma Digits(a: nat, b: nat)
    requires a % 128 == b % 128 && a / 128 % 128 == b / 128 % 128
    ensures (b - a) % 16384 == 0
  {
    assert a == 128 * (a / 128) + a % 128 && b == 128 * (b / 128) + b % 128;
    var q, r := a / 128, b / 128;
    assert q == 128 * (q / 128) + q % 128 && r == 128 * (r / 128) + r % 128;
    assert b - a == 16384 * (r / 128 - q / 128);
  }

  lemma Apart(a: nat, b: nat, p: nat)
    requires (b - a) % 16384 == 0
    ensures ((4 * b + p) - (4 * a + p)) % 65536 == 0
  {
    var k := (b - a) / 16384;
    assert (4 * b + p) - (4 * a + p) == 65536 * k;
  }
}
