/** The decoder's copies: whole words at a time, past the end they are asked for, over overlapping ranges. */
module Lz4Copy {
  import opened Bytes
  import opened Lz4Format

  /** A memcpy inside one buffer; the two ranges must not overlap. */
  method MemcpyWithin(dst: array<byte>, d: nat, s: nat, n: nat)
    requires d + n <= dst.Length && s + n <= dst.Length && (s + n <= d || d + n <= s)
    modifies dst
    ensures forall i :: 0 <= i < dst.Length ==>
              dst[i] == if d <= i < d + n then old(dst[i - d + s]) else old(dst[i])
  {
    forall i | 0 <= i < n {
      dst[d + i] := dst[s + i];
    }
  }

  /** A memcpy out of a read-only buffer. */
  method Memcpy(dst: array<byte>, d: nat, src: seq<byte>, s: nat, n: nat)
    requires d + n <= dst.Length && s + n <= |src|
    modifies dst
    ensures forall i :: 0 <= i < dst.Length ==>
              dst[i] == if d <= i < d + n then src[i - d + s] else old(dst[i])
  {
    forall i | 0 <= i < n {
      dst[d + i] := src[s + i];
    }
  }

  /** LZ4_wildCopy from a read-only buffer: 8 bytes at a time up to at least `e`, at most 7 past it. */
  method WildCopy(dst: array<byte>, d: nat, src: seq<byte>, s: nat, e: nat) returns (ghost end: nat)
    requires d <= e && e + 8 <= dst.Length + (if d < e then 1 else 0)
    requires s + (e - d) + 8 <= |src| + (if d < e then 1 else 0)
    modifies dst
    ensures e <= end <= dst.Length && end <= (if d < e then e + 7 else e + 8)
    ensures end - d + s <= |src|
    ensures forall i :: 0 <= i < dst.Length ==>
              dst[i] == if d <= i < end then src[i - d + s] else old(dst[i])
  {
    Memcpy(dst, d, src, s, 8);
    var k := 8;
    while d + k < e
      invariant 8 <= k && d + k <= dst.Length && s + k <= |src|
      invariant d + k <= if d < e then e + 7 else e + 8
      invariant forall i :: 0 <= i < dst.Length ==>
                  dst[i] == if d <= i < d + k then src[i - d + s] else old(dst[i])
    {
      Memcpy(dst, d + k, src, s + k, 8);
      k := k + 8;
    }
    end := d + k;
  }

  /** LZ4_wildCopy inside the output: the source is at least 8 bytes back, so a later word may copy an earlier one. */
  method WildCopyWithin(dst: array<byte>, d: nat, s: nat, e: nat)
    requires s + 8 <= d && d < e && e + 7 <= dst.Length
    modifies dst
    ensures forall i :: d <= i < e ==> dst[i] == dst[i - (d - s)]
    ensures forall i :: 0 <= i < dst.Length && !(d <= i < e + 7) ==> dst[i] == old(dst[i])
  {
    ghost var back := d - s;
    MemcpyWithin(dst, d, s, 8);
    var k := 8;
    while d + k < e
      invariant 8 <= k && d + k <= e + 7
      invariant forall i :: d <= i < d + k ==> dst[i] == dst[i - back]
      invariant forall i :: 0 <= i < dst.Length && !(d <= i < e + 7) ==> dst[i] == old(dst[i])
    {
      MemcpyWithin(dst, d + k, s + k, 8);
      k := k + 8;
    }
  }

  function Inc32(offset: nat): nat
    requires offset < 8
  {
    [0, 1, 2, 1, 0, 4, 4, 4][offset]
  }

  function Dec64(offset: nat): int
    requires offset < 8
  {
    [0, 0, 0, -1, -4, 1, 2, 3][offset]
  }

  /** How far behind the output the match cursor stands after the first 8 bytes. */
  function Stride(offset: nat): (r: nat)
    ensures r >= 8
  {
    if offset < 8 then offset + 8 - Inc32(offset) + Dec64(offset) else offset
  }

  /** Byte `i` repeats the byte `offset` before it; at distance 0 it is zero. */
  predicate Repeats(s: seq<byte>, i: nat, offset: nat) {
    offset <= i < |s| && s[i] == if offset == 0 then 0 else s[i - offset]
  }

  lemma {:induction false} CopyMatchUnique(out: seq<byte>, offset: nat, r: seq<byte>)
    requires offset <= |out| <= |r| && r[..|out|] == out
    requires forall i :: |out| <= i < |r| ==> Repeats(r, i, offset)
    ensures r == CopyMatch(out, offset, |r| - |out|)
    decreases |r|
  {
    if |r| == |out| {
      assert r == out;
    } else {
      var shorter := r[..|r| - 1];
      forall i | |out| <= i < |shorter| ensures Repeats(shorter, i, offset) {
        assert Repeats(r, i, offset);
      }
      CopyMatchUnique(out, offset, shorter);
      assert Repeats(r, |r| - 1, offset);
      assert r == shorter + [r[|r| - 1]];
    }
  }

  /** `j` steps of `offset` upwards change nothing. */
  lemma {:induction false} StepsUp(s: seq<byte>, lo: nat, hi: nat, offset: nat, i: nat, j: nat)
    requires 1 <= offset <= lo <= hi <= |s|
    requires forall k :: lo <= k < hi ==> Repeats(s, k, offset)
    requires lo <= i + offset && i + j * offset < hi
    ensures s[i + j * offset] == s[i]
    decreases j
  {
    if j > 0 {
      assert (j - 1) * offset + offset == j * offset;
      StepsUp(s, lo, hi, offset, i, j - 1);
      assert i + j * offset - offset == i + (j - 1) * offset;
      assert Repeats(s, i + j * offset, offset);
    }
  }

  /** The stride is a multiple of the offset, and no longer than the 8 bytes already copied allow. */
  lemma StrideMultiple(offset: nat) returns (m: nat)
    requires offset >= 1
    ensures Stride(offset) == m * offset && m >= 1 && Stride(offset) <= offset + 8
  {
    m := if offset >= 8 then 1 else [0, 8, 4, 3, 2, 2, 2, 2][offset];
  }

  /** Once 8 bytes repeat at `offset`, copying at the stride keeps repeating at `offset`. */
  lemma {:induction false} StrideRepeats(s: seq<byte>, op: nat, offset: nat, end: nat)
    requires offset <= op && op + 8 <= end <= |s|
    requires forall i :: op <= i < op + 8 ==> Repeats(s, i, offset)
    requires Stride(offset) <= op + 8
    requires forall i :: op + 8 <= i < end ==> s[i] == s[i - Stride(offset)]
    ensures forall i :: op <= i < end ==> Repeats(s, i, offset)
    decreases end
  {
    if end > op + 8 {
      StrideRepeats(s, op, offset, end - 1);
      var i, back := end - 1, Stride(offset);
      if offset == 0 {
        assert Repeats(s, i - back, offset);
      } else {
        var m := StrideMultiple(offset);
        assert (m - 1) * offset == back - offset;
        StepsUp(s, op, i, offset, i - back, m - 1);
        assert i - back + (m - 1) * offset == i - offset;
      }
    }
  }

  /** The first 8 bytes of a match whose offset is smaller: 4 bytes one by one, and 4 from where the tables say. */
  method CopyOverlapping(dst: array<byte>, op: nat, start: nat, offset: nat) returns (m: nat)
    requires offset < 8 && start == op - offset && op + 8 <= dst.Length
    requires offset == 0 ==> forall i :: op <= i < op + 4 ==> dst[i] == 0
    modifies dst
    ensures m == op + 8 - Stride(offset)
    ensures forall i :: op <= i < op + 8 ==> Repeats(dst[..], i, offset)
    ensures forall i :: 0 <= i < dst.Length && !(op <= i < op + 8) ==> dst[i] == old(dst[i])
  {
    CopyFour(dst, op, start, offset);
    m := start + Inc32(offset);
    ghost var d := dst[..];
    MemcpyWithin(dst, op + 4, m, 4);
    NextFour(d, dst[..], op, offset);
    m := m - Dec64(offset);
  }

  /** 4 bytes that repeat, and 4 more from where the first table says: they go on repeating. */
  lemma NextFour(d: seq<byte>, r: seq<byte>, op: nat, offset: nat)
    requires offset < 8 && offset <= op && op + 8 <= |d| == |r|
    requires forall i :: op <= i < op + 4 ==> Repeats(d, i, offset)
    requires forall i :: 0 <= i < op + 4 ==> r[i] == d[i]
    requires forall i :: op + 4 <= i < op + 8 ==> r[i] == d[i - 4 - offset + Inc32(offset)]
    ensures forall i :: op <= i < op + 8 ==> Repeats(r, i, offset)
  {
    forall i | op <= i < op + 8 ensures Repeats(r, i, offset) {
      if i < op + 4 {
        assert Repeats(d, i, offset) && r[i - offset] == d[i - offset];
      } else {
        var k, j := i - op - 4, i - offset;
        assert Repeats(d, op + k, offset);
        assert Repeats(d, op + 1, offset) && Repeats(d, op + 2, offset) && Repeats(d, op + 3, offset);
        assert r[j] == if op + 4 <= j then d[j - 4 - offset + Inc32(offset)] else d[j];
      }
    }
  }

  method CopyFour(dst: array<byte>, op: nat, m: nat, offset: nat)
    requires offset < 8 && m == op - offset && op + 8 <= dst.Length
    requires offset == 0 ==> forall i :: op <= i < op + 4 ==> dst[i] == 0
    modifies dst
    ensures forall i :: op <= i < op + 4 ==> Repeats(dst[..], i, offset)
    ensures forall i :: 0 <= i < dst.Length && !(op <= i < op + 4) ==> dst[i] == old(dst[i])
  {
    dst[op] := dst[m];
    dst[op + 1] := dst[m + 1];
    dst[op + 2] := dst[m + 2];
    dst[op + 3] := dst[m + 3];
  }

  /** The first 8 bytes of a match; yields the match cursor. */
  method CopyFirstEight(dst: array<byte>, op: nat, offset: nat) returns (m: nat)
    requires offset <= op && op + 8 <= dst.Length
    requires offset == 0 ==> forall i :: op <= i < op + 4 ==> dst[i] == 0
    modifies dst
    ensures m == op + 8 - Stride(offset)
    ensures forall i :: op <= i < op + 8 ==> Repeats(dst[..], i, offset)
    ensures forall i :: 0 <= i < dst.Length && !(op <= i < op + 8) ==> dst[i] == old(dst[i])
  {
    m := op - offset;
    if offset < 8 {
      m := CopyOverlapping(dst, op, m, offset);
    } else {
      MemcpyWithin(dst, op, m, 8);
      m := m + 8;
    }
  }

  /** The rest of the match near the end of the output: words up to `oend`, then single bytes. */
  method CopyNearEnd(dst: array<byte>, op: nat, m: nat, cpy: nat, oend: nat)
    requires m + 8 <= op && op <= oend - 4 && oend - 12 < cpy <= oend - LAST_LITERALS && oend <= dst.Length
    modifies dst
    ensures forall i :: op <= i < cpy ==> dst[i] == dst[i - (op - m)]
    ensures forall i :: 0 <= i < dst.Length && !(op <= i < oend) ==> dst[i] == old(dst[i])
  {
    var o, q := op, m;
    ghost var back := op - m;
    if o < oend - 7 {
      WildCopyWithin(dst, o, q, oend - 7);
      q := q + (oend - 7 - o);
      o := oend - 7;
    }
    while o < cpy
      invariant op <= o <= oend && o - q == back
      invariant forall i :: op <= i < o ==> dst[i] == dst[i - back]
      invariant forall i :: 0 <= i < dst.Length && !(op <= i < oend) ==> dst[i] == old(dst[i])
    {
      dst[o] := dst[q];
      o := o + 1;
      q := q + 1;
    }
  }

  /** The rest of the match away from the end. */
  method CopyAway(dst: array<byte>, op: nat, m: nat, cpy: nat, length: nat)
    requires m + 8 <= op && length >= MIN_MATCH && cpy == op - 8 + length && cpy + 12 <= dst.Length
    modifies dst
    ensures forall i :: op <= i < cpy ==> dst[i] == dst[i - (op - m)]
    ensures forall i :: 0 <= i < dst.Length && !(op <= i < cpy + 12) ==> dst[i] == old(dst[i])
  {
    MemcpyWithin(dst, op, m, 8);
    if length > 16 {
      WildCopyWithin(dst, op + 8, m + 8, cpy);
    }
  }

  /**
    The match copy of the decoder, whose output starts at `base`. It refuses a match that ends inside
    the last 5 bytes, and otherwise leaves before `op + length` what copying single bytes would;
    nothing below `op` or from `oend` on changes.
  */
  method CopyMatchBytes(dst: array<byte>, base: nat, op: nat, offset: nat, length: nat, oend: nat) returns (ok: bool)
    requires base + offset <= op && length >= MIN_MATCH && op + MF_LIMIT <= oend <= dst.Length
    requires offset == 0 ==> forall i :: op <= i < op + 4 ==> dst[i] == 0
    modifies dst
    ensures ok <==> op + length + LAST_LITERALS <= oend
    ensures ok ==> dst[base..op + length] == CopyMatch(old(dst[base..op]), offset, length)
    ensures forall i :: 0 <= i < dst.Length && !(op <= i < oend) ==> dst[i] == old(dst[i])
  {
    var cpy := op + length;
    var m := CopyFirstEight(dst, op, offset);
    label eight:
    if cpy > oend - 12 {
      if cpy > oend - LAST_LITERALS {
        return false;
      }
      CopyNearEnd(dst, op + 8, m, cpy, oend);
    } else {
      CopyAway(dst, op + 8, m, cpy, length);
    }
    ok := true;
    FirstEightStay(old@eight(dst[..]), dst[..], op, offset);
    assert dst[..][base..op] == old(dst[base..op]);
    MatchCopied(old(dst[base..op]), dst[..], base, op, offset, cpy);
    assert dst[..][base..cpy] == dst[base..cpy];
  }

  lemma FirstEightStay(before: seq<byte>, after: seq<byte>, op: nat, offset: nat)
    requires |before| == |after| && op + 8 <= |before| && before[..op + 8] == after[..op + 8]
    requires forall i :: op <= i < op + 8 ==> Repeats(before, i, offset)
    ensures forall i :: op <= i < op + 8 ==> Repeats(after, i, offset)
  {
    assert forall i :: 0 <= i < op + 8 ==> before[i] == before[..op + 8][i] == after[i];
    forall i | op <= i < op + 8 ensures Repeats(after, i, offset) {
      assert Repeats(before, i, offset);
    }
  }

  lemma MatchCopied(out: seq<byte>, s: seq<byte>, base: nat, op: nat, offset: nat, cpy: nat)
    requires base + offset <= op && op + MIN_MATCH <= cpy <= |s| && op + 8 <= |s| && s[base..op] == out
    requires forall i :: op <= i < op + 8 ==> Repeats(s, i, offset)
    requires Stride(offset) <= op + 8
    requires forall i :: op + 8 <= i < cpy ==> s[i] == s[i - Stride(offset)]
    ensures s[base..cpy] == CopyMatch(out, offset, cpy - op)
  {
    if cpy >= op + 8 {
      StrideRepeats(s, op, offset, cpy);
    }
    var r := s[base..cpy];
    forall i | |out| <= i < |r| ensures Repeats(r, i, offset) {
      assert Repeats(s, base + i, offset);
    }
    CopyMatchUnique(out, offset, r);
  }
}
