/** Bytes, little-endian words and slices, shared by every file format of the project. */
module Bytes {

  type byte = x: int | 0 <= x < 256

  const U16_MODULUS := 0x1_0000
  const U32_MODULUS := 0x1_0000_0000

  datatype Option<+T> = None | Some(value: T)

  /** `piece` stands in `s` at index `i`. */
  predicate At(s: seq<byte>, i: nat, piece: seq<byte>) {
    i + |piece| <= |s| && s[i..i + |piece|] == piece
  }

  lemma AtFits(s: seq<byte>, i: nat, piece: seq<byte>)
    requires At(s, i, piece)
    ensures i + |piece| <= |s|
  {
  }

  lemma AtSplit(s: seq<byte>, i: nat, a: seq<byte>, b: seq<byte>)
    ensures At(s, i, a + b) <==> At(s, i, a) && At(s, i + |a|, b)
  {
    if At(s, i, a + b) {
      assert s[i..i + |a|] == (a + b)[..|a|];
      assert s[i + |a|..i + |a| + |b|] == (a + b)[|a|..];
    }
    if At(s, i, a) && At(s, i + |a|, b) {
      assert s[i..i + |a + b|] == s[i..i + |a|] + s[i + |a|..i + |a| + |b|];
    }
  }

  lemma AtInside(s: seq<byte>, i: nat, a: seq<byte>, j: nat, b: seq<byte>)
    requires At(s, i, a) && At(a, j, b)
    ensures At(s, i + j, b)
  {
    assert a == a[..j] + b + a[j + |b|..];
    AtSplit(s, i, a[..j] + b, a[j + |b|..]);
    AtSplit(s, i, a[..j], b);
  }

  function Repeat(b: byte, n: nat): (s: seq<byte>)
    ensures |s| == n && forall i :: 0 <= i < n ==> s[i] == b
  {
    seq(n, i => b)
  }

  /** Two bytes, least significant first; the value is truncated as by a cast to a 16-bit type. */
  function Le16(v: int): (s: seq<byte>)
    ensures |s| == 2
  {
    [v % 256, v / 256 % 256]
  }

  function Read16(s: seq<byte>, i: nat): (v: nat)
    requires i + 2 <= |s|
    ensures v < U16_MODULUS
  {
    s[i] as int + 256 * (s[i + 1] as int)
  }

  function Le32(v: int): (s: seq<byte>)
    ensures |s| == 4
  {
    [v % 256, v / 256 % 256, v / 0x1_0000 % 256, v / 0x100_0000 % 256]
  }

  function Read32(s: seq<byte>, i: nat): (v: nat)
    requires i + 4 <= |s|
    ensures v < U32_MODULUS
  {
    s[i] as int + 256 * (s[i + 1] as int) + 0x1_0000 * (s[i + 2] as int) + 0x100_0000 * (s[i + 3] as int)
  }

  /** Least significant byte first. */
  lemma LittleEndian()
    ensures Le16(0x0201) == [1, 2] && Read16([1, 2], 0) == 0x0201
    ensures Le32(0x0403_0201) == [1, 2, 3, 4] && Read32([1, 2, 3, 4], 0) == 0x0403_0201
  {
  }

  lemma Read16OfLe16(s: seq<byte>, i: nat, v: nat)
    requires v < U16_MODULUS && At(s, i, Le16(v))
    ensures Read16(s, i) == v
  {
    assert s[i] == s[i..i + 2][0] && s[i + 1] == s[i..i + 2][1];
  }

  lemma DigitsAddUp(v: nat)
    requires v < U32_MODULUS
    ensures v % 256 + 256 * (v / 256 % 256) + 0x1_0000 * (v / 0x1_0000 % 256) + 0x100_0000 * (v / 0x100_0000 % 256) == v
  {
    var a := v / 256;
    var b := a / 256;
    assert b == v / 0x1_0000;
    assert b / 256 == v / 0x100_0000;
  }

  lemma Read32OfLe32(s: seq<byte>, i: nat, v: nat)
    requires v < U32_MODULUS && At(s, i, Le32(v))
    ensures Read32(s, i) == v
  {
    DigitsAddUp(v);
    var w := s[i..i + 4];
    assert s[i] == w[0] && s[i + 1] == w[1] && s[i + 2] == w[2] && s[i + 3] == w[3];
  }

  lemma LowByte(a: int, high: int, b: int, low: int)
    requires 0 <= a < 256 && 0 <= b < 256 && a + 256 * high == b + 256 * low
    ensures a == b && high == low
  {
  }

  lemma WordsDiffer(a: int, b: int, c: int, d: int, w: int, x: int, y: int, z: int)
    requires 0 <= a < 256 && 0 <= b < 256 && 0 <= c < 256 && 0 <= w < 256 && 0 <= x < 256 && 0 <= y < 256
    requires a + 256 * b + 0x1_0000 * c + 0x100_0000 * d == w + 256 * x + 0x1_0000 * y + 0x100_0000 * z
    ensures a == w && b == x && c == y && d == z
  {
    LowByte(a, b + 256 * (c + 256 * d), w, x + 256 * (y + 256 * z));
    LowByte(b, c + 256 * d, x, y + 256 * z);
    LowByte(c, d, y, z);
  }

  /** Words are equal exactly when their four bytes are. */
  lemma Read32Injective(s: seq<byte>, i: nat, t: seq<byte>, j: nat)
    requires i + 4 <= |s| && j + 4 <= |t|
    ensures Read32(s, i) == Read32(t, j) <==>
            s[i] == t[j] && s[i + 1] == t[j + 1] && s[i + 2] == t[j + 2] && s[i + 3] == t[j + 3]
  {
    if Read32(s, i) == Read32(t, j) {
      WordsDiffer(s[i], s[i + 1], s[i + 2], s[i + 3], t[j], t[j + 1], t[j + 2], t[j + 3]);
    }
  }

  lemma SubSlice(s: seq<byte>, i: nat, j: nat, k: nat, n: nat)
    requires i <= j <= |s| && k + n <= j - i
    ensures s[i..j][k..k + n] == s[i + k..i + k + n]
  {
    var t := s[i..j];
    var a, b := t[k..k + n], s[i + k..i + k + n];
    forall l | 0 <= l < n ensures a[l] == b[l] {
      assert t[k + l] == s[i + (k + l)];
    }
    assert a == b;
  }

  lemma PrefixSlice(s: seq<byte>, more: seq<byte>, i: nat, j: nat)
    requires s <= more && i <= j <= |s|
    ensures more[i..j] == s[i..j]
  {
    assert s == more[..|s|];
    SubSlice(more, 0, |s|, i, j - i);
  }

  /** What reading `size` bytes at `position` delivers. */
  function Slice(data: seq<byte>, position: nat, size: nat): (r: seq<byte>)
    ensures |r| == if position >= |data| then 0 else if position + size <= |data| then size else |data| - position
    ensures forall k :: 0 <= k < |r| ==> r[k] == data[position + k]
  {
    if position >= |data| then []
    else if position + size <= |data| then data[position..position + size]
    else data[position..]
  }

  lemma Join(s: seq<byte>, i: nat, j: nat, k: nat)
    requires i <= j <= k <= |s|
    ensures s[i..j] + s[j..k] == s[i..k]
  {
    assert s[i..j] + s[j..k] == s[i..k];
  }

  lemma Read32Slice(s: seq<byte>, i: nat, n: nat)
    requires i + n <= |s| && 4 <= n
    ensures Read32(s[i..i + n], 0) == Read32(s, i)
  {
  }

  /** The bytes of a C string. */
  predicate NulFree(s: seq<byte>) {
    forall k :: 0 <= k < |s| ==> s[k] != 0
  }

  /** The index of the first zero byte from `i` on, or the end. */
  function FirstNul(s: seq<byte>, i: nat): (r: nat)
    requires i <= |s|
    ensures i <= r <= |s| && (r < |s| ==> s[r] == 0) && forall k :: i <= k < r ==> s[k] != 0
    decreases |s| - i
  {
    if i == |s| || s[i] == 0 then i else FirstNul(s, i + 1)
  }

  lemma FirstNulUnique(s: seq<byte>, i: nat, r: nat)
    requires i <= r < |s| && s[r] == 0 && forall k :: i <= k < r ==> s[k] != 0
    ensures FirstNul(s, i) == r
  {
  }

  /** The names of a directory and of its parent. */
  const DOT: seq<byte> := [46]
  const DOT_DOT: seq<byte> := [46, 46]

  /** The low 32 bits as a signed integer: a cast to a C int. */
  function IntCast(v: int): (r: int)
    ensures -0x8000_0000 <= r < 0x8000_0000 && (r - v) % U32_MODULUS == 0
  {
    var low := v % U32_MODULUS;
    if low < 0x8000_0000 then low else low - U32_MODULUS
  }

  /** The remainder of C, which has the sign of the dividend. */
  function Remainder(a: int, b: nat): int
    requires b > 0
  {
    if a >= 0 then a % b else -(-a % b)
  }

  /** memcpy of a value held elsewhere into a buffer; also a store of a little-endian field. */
  method Store(buf: array<byte>, i: nat, piece: seq<byte>)
    requires i + |piece| <= buf.Length
    modifies buf
    ensures buf[..] == Overwritten(old(buf[..]), i, piece)
  {
    forall k | 0 <= k < |piece| {
      buf[i + k] := piece[k];
    }
  }

  /** strcmp of the string of `n` bytes at `start` in a buffer with a text. */
  method StrEqual(buf: array<byte>, start: nat, text: seq<byte>, ghost n: nat) returns (equal: bool)
    requires start + n < buf.Length && buf[start + n] == 0 && forall k :: start <= k < start + n ==> buf[k] != 0
    ensures equal <==> buf[start..start + n] == text
  {
    ghost var name := buf[start..start + n];
    var i := 0;
    while i < |text| && buf[start + i] != 0 && buf[start + i] == text[i]
      invariant i <= n && i <= |text| && name[..i] == text[..i]
    {
      i := i + 1;
    }
    equal := i == |text| && buf[start + i] == 0;
    if i < |text| && i < n {
      assert name[i] != text[i];
    }
  }

  /** A file's data with `piece` written at `i`; a gap reads as zeros. */
  function Overwritten(data: seq<byte>, i: nat, piece: seq<byte>): (r: seq<byte>)
    ensures |r| == if piece == [] || i + |piece| <= |data| then |data| else i + |piece|
  {
    if piece == [] then data
    else
      var padded := if |data| < i + |piece| then data + Repeat(0, i + |piece| - |data|) else data;
      padded[..i] + piece + padded[i + |piece|..]
  }

  lemma OverwrittenAt(data: seq<byte>, i: nat, piece: seq<byte>)
    ensures var r := Overwritten(data, i, piece);
            forall k :: 0 <= k < |r| ==>
              r[k] == if i <= k < i + |piece| then piece[k - i] else if k < |data| then data[k] else 0
  {
  }

  lemma Present(data: seq<byte>, i: nat, piece: seq<byte>)
    requires piece != [] || i <= |data|
    ensures At(Overwritten(data, i, piece), i, piece)
  {
    hide Overwritten;
    OverwrittenAt(data, i, piece);
  }

  /** A write leaves what stands beside it. */
  lemma Kept(data: seq<byte>, i: nat, piece: seq<byte>, j: nat, other: seq<byte>)
    requires At(data, j, other) && (j + |other| <= i || i + |piece| <= j)
    ensures At(Overwritten(data, i, piece), j, other)
  {
    hide Overwritten;
    OverwrittenAt(data, i, piece);
  }
}
