/** LZ4_compress_generic without a dictionary, and LZ4_compress_fast on top of it. */
module Lz4Compress {
  import opened Bytes
  import opened Lz4Format
  import opened Lz4Copy
  import opened Lz4Match
  import opened Lz4Stretch

  /** LZ4_compressBound. */
  function CompressBound(inputSize: int): int {
    if 0 <= inputSize <= MAX_INPUT_SIZE then inputSize + inputSize / 255 + 16 else 0
  }

  // ----- stores past a limit

  /**
    How far the fillers of a match length go beyond the room that is asked for before it: they come in
    fours, and the room counts a byte per 256 where the length takes one per 255.
  */
  function Filler(code: nat): int
    requires code >= ML_MASK
  {
    4 * ((code - ML_MASK) / 1020) - 2 - code / 256
  }

  /** The same for the token and the offset of a match that follows directly, for which no room is asked. */
  function Following(code: nat): int
    requires code >= ML_MASK
  {
    (code - ML_MASK) / 255 - 2 - code / 256
  }

  function Max(a: nat, b: int): (m: nat)
    ensures a <= m && b <= m && (m == a || m == b)
  {
    if b > a then b else a
  }

  /** The most by which stores may exceed a limit on inputs of size `n`. */
  function Excess(n: nat): (e: nat)
  {
    if n < 25 then 0
    else
      var e := Max(Excess(n - 1), Filler(n - 10));
      if n < 32 then e else Max(e, Following(n - 17))
  }

  lemma {:induction false} ExcessCovers(n: nat, code: nat)
    requires code >= ML_MASK
    ensures code + 10 <= n ==> Filler(code) <= Excess(n)
    ensures code + 17 <= n ==> Following(code) <= Excess(n)
    decreases n
  {
    hide Filler, Following;
    if n >= 25 {
      ExcessCovers(n - 1, code);
    }
  }

  /** The size from which on stores may exceed a limit. */
  const EXCESS_SIZE := 134665

  lemma ShortFiller(code: nat)
    requires ML_MASK <= code < EXCESS_SIZE - 10
    ensures Filler(code) <= 0 && Following(code) <= 0
  {
    var k, r := code / 256, code % 256;
    assert code == 256 * k + r;
    assert k <= 525;
    ByteRatio(k, r, code);
  }

  lemma ByteRatio(k: nat, r: nat, code: nat)
    requires code == 256 * k + r && r < 256 && k <= 525 && ML_MASK <= code && (k == 525 ==> r < 255)
    ensures (code - ML_MASK) / 255 <= k + 2 && 4 * ((code - ML_MASK) / 1020) <= (code - ML_MASK) / 255
  {
    assert code - ML_MASK < 255 * (k + 3);
  }

  /** Stores stay within every limit on inputs of size `n` if and only if `n` is less than 134665. */
  lemma {:induction false} ExcessExactly(n: nat)
    ensures Excess(n) == 0 <==> n < EXCESS_SIZE
    decreases n
  {
    hide Filler, Following, Excess;
    ExcessStep(n);
    if 25 <= n {
      ExcessExactly(n - 1);
      if n < EXCESS_SIZE {
        ShortFiller(n - 10);
        if n >= 32 {
          ShortFiller(n - 17);
        }
      } else if n == EXCESS_SIZE {
        FirstFiller();
      }
    }
  }

  lemma ExcessStep(n: nat)
    ensures n < 25 ==> Excess(n) == 0
    ensures 25 <= n ==> Excess(n - 1) <= Excess(n) && Filler(n - 10) <= Excess(n)
    ensures 25 <= n && Excess(n) > 0 ==>
              Excess(n - 1) > 0 || Filler(n - 10) > 0 || (n >= 32 && Following(n - 17) > 0)
  {
    hide Filler, Following;
  }

  lemma FirstFiller()
    ensures Filler(EXCESS_SIZE - 10) == 1
  {
  }

  /**
    How much of the destination stores may touch. Without a limit it is the worst-case bound. With one it
    is the capacity and the excess of the input size; none arises up to 32 MiB when the capacity is at
    least the input size.
  */
  function StoreLimit(n: nat, capacity: nat, limited: bool): nat {
    if !limited then n + n / 255 + 16
    else if n <= capacity && n <= 0x200_0000 then capacity
    else capacity + Excess(n)
  }

  /** Below 134665 bytes a limited destination of the capacity is enough, whatever the capacity. */
  lemma LimitIsCapacity(n: nat, capacity: nat)
    requires n < EXCESS_SIZE
    ensures StoreLimit(n, capacity, true) == capacity
  {
    ExcessExactly(n);
  }

  // ----- appending to the list of sequences

  predicate ValidAt(done: nat, x: Sequence, total: nat) {
    var start := done + |x.literals|;
    && 1 <= x.offset <= MAX_DISTANCE && x.offset <= start && x.matchLength >= MIN_MATCH
    && start + MF_LIMIT <= total && start + x.matchLength + LAST_LITERALS <= total
  }

  /**
    No match could be longer: each ends 5 bytes before the end of `s` or where the bytes differ, and
    starts where its literals or the input start or after bytes that differ.
  */
  predicate Maximal(s: seq<byte>, done: nat, ss: seq<Sequence>)
    decreases |ss|
  {
    ss == [] ||
    (var start := done + |ss[0].literals|;
     var end := start + ss[0].matchLength;
     MaximalAt(s, done, start, end, ss[0].offset) && Maximal(s, end, ss[1..]))
  }

  predicate MaximalAt(s: seq<byte>, done: nat, start: nat, end: nat, offset: nat) {
    && start <= end
    && (end + LAST_LITERALS == |s| || (offset <= end < |s| && s[end] != s[end - offset]))
    && (start <= done || start == offset || (offset < start < |s| && s[start - 1] != s[start - 1 - offset]))
  }

  /** No run of literals before a match holds a stretch of one byte that a search would not have passed over. */
  ghost predicate Searched(s: seq<byte>, done: nat, ss: seq<Sequence>, acceleration: nat)
    decreases |ss|
  {
    ss == [] ||
    (var start := done + |ss[0].literals|;
     Literals(s, done, start, acceleration) && Searched(s, start + ss[0].matchLength, ss[1..], acceleration))
  }

  lemma {:induction false} AppendSearched(s: seq<byte>, done: nat, out: seq<byte>, ss: seq<Sequence>, x: Sequence,
      acceleration: nat)
    requires Searched(s, done, ss, acceleration) && done == |out|
    requires var n := |ExpandSequences(out, ss)|; Literals(s, n, n + |x.literals|, acceleration)
    ensures Searched(s, done, ss + [x], acceleration)
    decreases |ss|
  {
    hide CopyMatch, Literals;
    if ss == [] {
      assert ss + [x] == [x] && [x][1..] == [];
    } else {
      var next := done + |ss[0].literals| + ss[0].matchLength;
      AppendSearched(s, next, ExpandSequence(out, ss[0]), ss[1..], x, acceleration);
      assert (ss + [x])[1..] == ss[1..] + [x];
    }
  }

  lemma {:induction false} AppendValid(done: nat, out: seq<byte>, ss: seq<Sequence>, x: Sequence, total: nat)
    requires ValidSequences(done, ss, total) && done == |out| && ValidAt(|ExpandSequences(out, ss)|, x, total)
    ensures ValidSequences(done, ss + [x], total)
    decreases |ss|
  {
    hide CopyMatch;
    if ss == [] {
      assert ss + [x] == [x] && [x][1..] == [];
    } else {
      AppendValid(done + |ss[0].literals| + ss[0].matchLength, ExpandSequence(out, ss[0]), ss[1..], x, total);
      assert (ss + [x])[1..] == ss[1..] + [x];
    }
  }

  lemma {:induction false} AppendMaximal(s: seq<byte>, done: nat, out: seq<byte>, ss: seq<Sequence>, x: Sequence)
    requires Maximal(s, done, ss) && done == |out|
    requires var n := |ExpandSequences(out, ss)|;
             MaximalAt(s, n, n + |x.literals|, n + |x.literals| + x.matchLength, x.offset)
    ensures Maximal(s, done, ss + [x])
    decreases |ss|
  {
    hide CopyMatch, MaximalAt;
    if ss == [] {
      assert ss + [x] == [x] && [x][1..] == [];
    } else {
      AppendMaximal(s, done + |ss[0].literals| + ss[0].matchLength, ExpandSequence(out, ss[0]), ss[1..], x);
      assert (ss + [x])[1..] == ss[1..] + [x];
    }
  }

  lemma {:induction false} AppendExpands(out: seq<byte>, ss: seq<Sequence>, x: Sequence)
    ensures ExpandSequences(out, ss + [x]) == ExpandSequence(ExpandSequences(out, ss), x)
    decreases |ss|
  {
    hide CopyMatch;
    if ss == [] {
      assert ss + [x] == [x] && [x][1..] == [];
    } else {
      AppendExpands(ExpandSequence(out, ss[0]), ss[1..], x);
      assert (ss + [x])[1..] == ss[1..] + [x];
    }
  }

  lemma {:induction false} AppendEncodes(ss: seq<Sequence>, x: Sequence)
    requires LongMatches(ss) && x.matchLength >= MIN_MATCH
    ensures LongMatches(ss + [x]) && EncodeSequences(ss + [x]) == EncodeSequences(ss) + EncodeSequence(x)
    decreases |ss|
  {
    hide EncodeSequence;
    if ss == [] {
      assert ss + [x] == [x] && [x][1..] == [];
    } else {
      AppendEncodes(ss[1..], x);
      assert (ss + [x])[1..] == ss[1..] + [x];
    }
  }

  /**
    What the compressor keeps at every sequence boundary: `out` encodes sequences that decode to
    exactly the input up to `anchor`, whose matches are as long as they can be, between which matches were
    searched for, and that any decoder must accept; and it has not outgrown the input by more than one byte
    in 255.
  */
  ghost predicate Emitted(out: seq<byte>, s: seq<byte>, anchor: nat, ss: seq<Sequence>, acceleration: nat) {
    && anchor <= |s| && LongMatches(ss) && ValidSequences(0, ss, |s|) && Maximal(s, 0, ss)
    && Searched(s, 0, ss, acceleration)
    && out == EncodeSequences(ss) && ExpandSequences([], ss) == s[..anchor]
    && 255 * |out| <= 256 * anchor
  }

  /** The sequence for literals from `anchor` to `ip` and a match of `MIN_MATCH + code` bytes at `m`. */
  function SequenceAt(s: seq<byte>, anchor: nat, ip: nat, m: nat, code: nat): Sequence
    requires anchor <= ip <= |s| && m <= ip
  {
    Sequence(s[anchor..ip], ip - m, code + MIN_MATCH)
  }

  lemma MatchExpands(s: seq<byte>, anchor: nat, ip: nat, m: nat, code: nat)
    requires anchor <= ip && MatchAt(s, ip, m) && ip + MIN_MATCH + code <= |s|
    requires SameBytes(s, ip, m, MIN_MATCH + code)
    ensures ExpandSequence(s[..anchor], SequenceAt(s, anchor, ip, m, code)) == s[..ip + MIN_MATCH + code]
  {
    var r, offset := s[..ip + MIN_MATCH + code], ip - m;
    forall i | ip <= i < |r| ensures Repeats(r, i, offset) {
      assert SameByte(s, ip, m, i - ip);
    }
    assert s[..anchor] + s[anchor..ip] == s[..ip] == r[..ip];
    CopyMatchUnique(s[..ip], ip - m, r);
  }

  lemma SequenceSize(x: Sequence)
    requires x.matchLength >= MIN_MATCH
    ensures |EncodeSequence(x)| == 3 + |Extension(|x.literals|)| + |x.literals| + |Extension(x.matchLength - MIN_MATCH)|
    ensures 255 * |EncodeSequence(x)| <= 256 * (|x.literals| + x.matchLength)
  {
  }

  /** One more sequence keeps the boundary invariant. */
  lemma EmitSequence(out: seq<byte>, s: seq<byte>, anchor: nat, ss: seq<Sequence>, ip: nat, m: nat, code: nat,
      acceleration: nat)
    requires Emitted(out, s, anchor, ss, acceleration) && anchor <= ip && MatchAt(s, ip, m)
    requires ip + MF_LIMIT <= |s| && ip + MIN_MATCH + code + LAST_LITERALS <= |s|
    requires SameBytes(s, ip, m, MIN_MATCH + code) && MaximalAt(s, anchor, ip, ip + MIN_MATCH + code, ip - m)
    requires Literals(s, anchor, ip, acceleration)
    ensures var x := SequenceAt(s, anchor, ip, m, code);
            Emitted(out + EncodeSequence(x), s, ip + MIN_MATCH + code, ss + [x], acceleration)
  {
    hide EncodeSequence, CopyMatch, SameBytes, EncodeSequences, ExpandSequences, ValidSequences, LongMatches, Maximal;
    hide Searched, Literals;
    var x := SequenceAt(s, anchor, ip, m, code);
    assert ValidAt(anchor, x, |s|);
    AppendValid(0, [], ss, x, |s|);
    AppendMaximal(s, 0, [], ss, x);
    AppendSearched(s, 0, [], ss, x, acceleration);
    AppendExpands([], ss, x);
    AppendEncodes(ss, x);
    MatchExpands(s, anchor, ip, m, code);
    SequenceSize(x);
  }

  /**
    `bytes` is a well-formed block for `data` all of whose matches are as long as they can be, and whose
    literals, the last ones included, were searched for matches.
  */
  ghost predicate EncodesGreedily(bytes: seq<byte>, data: seq<byte>, acceleration: nat) {
    exists b: Block :: Greedy(b, data, acceleration) && EncodeBlock(b) == bytes
  }

  ghost predicate Greedy(b: Block, data: seq<byte>, acceleration: nat) {
    && Valid(b) && Expand([], b) == data && Maximal(data, 0, b.sequences)
    && Searched(data, 0, b.sequences, acceleration)
    && |b.lastLiterals| <= |data| && Literals(data, |data| - |b.lastLiterals|, |data|, acceleration)
  }

  /** The last literals complete a well-formed block for the whole input. */
  lemma EmitLast(out: seq<byte>, s: seq<byte>, anchor: nat, ss: seq<Sequence>, acceleration: nat)
    requires Emitted(out, s, anchor, ss, acceleration) && Literals(s, anchor, |s|, acceleration)
    ensures EncodesGreedily(out + EncodeLast(s[anchor..]), s, acceleration)
    ensures Encodes(out + EncodeLast(s[anchor..]), s)
  {
    hide EncodeSequences, ExpandSequences, ValidSequences, Maximal, Searched, Literals;
    var b := Block(ss, s[anchor..]);
    assert s[..anchor] + s[anchor..] == s;
    assert Expand([], b) == s;
    assert Greedy(b, s, acceleration);
    assert EncodeBlock(b) == out + EncodeLast(s[anchor..]);
  }

  // ----- what a limited output lacks room for

  /**
    The compressor has come to `anchor` and cannot go on in an output of that capacity: the literals up to `end`
    do not fit, or the match there of `code` more bytes than the least does not, or `end` is the end of the input
    and its last literals do not fit.
  */
  ghost predicate Lacks(s: seq<byte>, capacity: nat, acceleration: nat, out: seq<byte>, ss: seq<Sequence>, anchor: nat,
      end: nat, m: nat, code: nat)
  {
    && Emitted(out, s, anchor, ss, acceleration) && anchor <= end <= |s| && Literals(s, anchor, end, acceleration)
    && if end == |s| then |out| + |EncodeLast(s[anchor..])| > capacity
       else
         && end + MF_LIMIT <= |s| && MatchAt(s, end, m)
         && (|out| + (end - anchor) + (end - anchor) / 255 + 9 > capacity
             || (CommonPrefix(s, end + MIN_MATCH, m + MIN_MATCH, |s| - LAST_LITERALS, code)
                 && |out| + |EncodeLast(s[anchor..end])| + 8 + code / 256 > capacity))
  }

  ghost predicate LacksRoom(s: seq<byte>, capacity: nat, acceleration: nat) {
    exists out: seq<byte>, ss: seq<Sequence>, anchor: nat, end: nat, m: nat, code: nat ::
      Lacks(s, capacity, acceleration, out, ss, anchor, end, m, code)
  }

  // ----- writing

  /** Literal length bytes. */
  method PutLength(dest: array<byte>, op0: nat, n: nat) returns (op: nat)
    requires op0 + n / 255 + 1 <= dest.Length
    modifies dest
    ensures op == op0 + n / 255 + 1 && dest[op0..op] == EncodeLength(n)
    ensures forall i :: 0 <= i < dest.Length && !(op0 <= i < op) ==> dest[i] == old(dest[i])
  {
    var len := n;
    op := op0;
    while len >= 255
      invariant op0 <= op && op + len / 255 == op0 + n / 255
      invariant dest[op0..op] + EncodeLength(len) == EncodeLength(n)
      invariant forall i :: 0 <= i < dest.Length && !(op0 <= i < op) ==> dest[i] == old(dest[i])
    {
      ghost var before := dest[op0..op];
      dest[op] := 255;
      op := op + 1;
      assert dest[op0..op] == before + [255];
      len := len - 255;
    }
    dest[op] := len;
    op := op + 1;
    assert dest[op0..op] == dest[op0..op - 1] + [len];
  }

  lemma {:induction false} EncodeLengthRepeats(n: nat)
    ensures EncodeLength(n) == Repeat(255, n / 255) + [n % 255]
  {
    if n >= 255 {
      EncodeLengthRepeats(n - 255);
      assert Repeat(255, n / 255) == [255] + Repeat(255, (n - 255) / 255);
    }
  }

  method Write32(dest: array<byte>, op: nat, b: byte)
    requires op + 4 <= dest.Length
    modifies dest
    ensures forall i :: 0 <= i < dest.Length ==> dest[i] == if op <= i < op + 4 then b else old(dest[i])
  {
    dest[op], dest[op + 1], dest[op + 2], dest[op + 3] := b, b, b, b;
  }

  /** Match length bytes, four at a time: the last filler stays behind the end, and nothing after it changes. */
  method PutMatchLength(dest: array<byte>, op0: nat, n: nat) returns (op: nat)
    requires op0 + 4 * (n / 1020) + 4 <= dest.Length
    modifies dest
    ensures op == op0 + n / 255 + 1 <= op0 + 4 * (n / 1020) + 4 && dest[op0..op] == EncodeLength(n)
    ensures forall i :: op <= i < op0 + 4 * (n / 1020) + 4 ==> dest[i] == 255
    ensures forall i :: 0 <= i < dest.Length && !(op0 <= i < op0 + 4 * (n / 1020) + 4) ==> dest[i] == old(dest[i])
  {
    hide EncodeLength, Repeat;
    var code := n;
    op := op0;
    Write32(dest, op, 255);
    while code >= 4 * 255
      invariant op0 <= op && op + code / 255 == op0 + n / 255 && code % 255 == n % 255
      invariant op + 4 * (code / 1020) == op0 + 4 * (n / 1020)
      invariant forall i :: op0 <= i < op + 4 ==> dest[i] == 255
      invariant forall i :: 0 <= i < dest.Length && !(op0 <= i < op + 4) ==> dest[i] == old(dest[i])
    {
      FourLess(code);
      op := op + 4;
      Write32(dest, op, 255);
      code := code - 4 * 255;
    }
    op := op + code / 255;
    dest[op] := code % 255;
    op := op + 1;
    FilledLength(dest[..], op0, n);
  }

  lemma FilledLength(d: seq<byte>, op: nat, n: nat)
    requires op + n / 255 < |d| && d[op + n / 255] == n % 255 && forall i :: op <= i < op + n / 255 ==> d[i] == 255
    ensures d[op..op + n / 255 + 1] == EncodeLength(n)
  {
    hide EncodeLength;
    EncodeLengthRepeats(n);
    assert d[op..op + n / 255 + 1] == Repeat(255, n / 255) + [n % 255];
  }

  lemma FourLess(code: nat)
    requires code >= 1020
    ensures (code - 1020) / 255 == code / 255 - 4 && (code - 1020) % 255 == code % 255
    ensures (code - 1020) / 1020 == code / 1020 - 1
  {
  }

  /** A token without a match length, and the literal length bytes. */
  method PutToken(dest: array<byte>, tok: nat, n: nat) returns (op: nat)
    requires tok + 1 + |Extension(n)| <= dest.Length
    modifies dest
    ensures op == tok + 1 + |Extension(n)| && dest[tok..op] == [16 * Nibble(n)] + Extension(n)
    ensures forall i :: 0 <= i < tok ==> dest[i] == old(dest[i])
  {
    op := tok + 1;
    if n >= RUN_MASK {
      dest[tok] := 240;
      op := PutLength(dest, op, n - RUN_MASK);
    } else {
      dest[tok] := 16 * n;
    }
    assert dest[tok..op] == [dest[tok]] + dest[tok + 1..op];
  }

  /** Copies literals in words; what lies below `op` stays. */
  method PutRun(s: seq<byte>, dest: array<byte>, low: nat, op: nat, anchor: nat, ip: nat)
    requires low <= op && anchor <= ip && ip + MF_LIMIT <= |s|
    requires op + (ip - anchor) + 8 <= dest.Length + (if ip > anchor then 1 else 0)
    modifies dest
    ensures op + (ip - anchor) <= dest.Length
    ensures dest[low..op + (ip - anchor)] == old(dest[low..op]) + s[anchor..ip]
    ensures forall i :: 0 <= i < op ==> dest[i] == old(dest[i])
  {
    ghost var end := WildCopy(dest, op, s, anchor, op + (ip - anchor));
  }

  /** The start of a sequence, encoded as last literals are: unless a limited output lacks room. */
  method PutLiterals(s: seq<byte>, dest: array<byte>, tok: nat, anchor: nat, ip: nat, capacity: nat, limited: bool)
    returns (ok: bool, op: nat)
    requires anchor <= ip && ip + MF_LIMIT <= |s|
    requires limited ==> capacity <= dest.Length
    requires !limited ==> tok + (ip - anchor) + (ip - anchor + 240) / 255 + 9 <= dest.Length
    modifies dest
    ensures limited || ok
    ensures ok ==> tok < op <= dest.Length && dest[tok..op] == EncodeLast(s[anchor..ip])
    ensures ok ==> 255 * (op - tok) <= 256 * (ip - anchor) + 495
    ensures limited ==> (ok <==> tok + (ip - anchor) + (ip - anchor) / 255 + 9 <= capacity)
    ensures ok && limited ==> op + 2 <= capacity
    ensures forall i :: 0 <= i < tok < dest.Length ==> dest[i] == old(dest[i])
  {
    hide Extension;
    var litLength := ip - anchor;
    op := tok + 1;
    if limited && op + litLength + (2 + 1 + LAST_LITERALS) + litLength / 255 > capacity {
      return false, op;
    }
    ok := true;
    op := PutToken(dest, tok, litLength);
    PutRun(s, dest, tok, op, anchor, ip);
    op := op + litLength;
  }

  /** The room a match asks for, and what its fillers and a match that follows it touch. */
  lemma MatchRoom(n: nat, capacity: nat, limited: bool, op: nat, ip: nat, code: nat)
    requires 2 <= op && 255 * (op - 2) <= 256 * ip + 495 && 1 <= ip && ip + MIN_MATCH + code + LAST_LITERALS <= n
    requires limited ==> op + 6 + code / 256 <= capacity
    ensures code >= 15 ==> op + 4 * ((code - 15) / 1020) + 4 <= StoreLimit(n, capacity, limited)
    ensures code >= 15 && ip + MIN_MATCH + code + MF_LIMIT <= n ==>
              op + (code - 15) / 255 + 4 <= StoreLimit(n, capacity, limited)
    ensures code < 15 ==> op + 4 <= StoreLimit(n, capacity, limited)
  {
    hide Excess;
    if code >= 15 {
      FillersWhole(code - 15);
      ExcessCovers(n, code);
    }
    if limited && n <= capacity && n <= 0x200_0000 {
      SmallInputRoom(n, capacity, op, ip, code);
    }
  }

  lemma FillersWhole(code: nat)
    ensures 4 * (code / 1020) <= code / 255 < 4 * (code / 1020) + 4
  {
  }

  lemma SmallInputRoom(n: nat, capacity: nat, op: nat, ip: nat, code: nat)
    requires 2 <= op && 255 * (op - 2) <= 256 * ip + 495 && ip + MIN_MATCH + code + LAST_LITERALS <= n
    requires op + 6 + code / 256 <= capacity && n <= capacity && n <= 0x200_0000
    ensures code >= 15 ==> op + (code - 15) / 255 + 4 <= capacity
  {
    if code < 134400 {
      assert code >= 15 ==> (code - 15) / 255 <= code / 256 + 2;
    } else {
      assert 255 * (op + (code - 15) / 255 + 4) <= 255 * n;
    }
  }

  lemma MatchStarts(s: seq<byte>, ip: nat, m: int)
    requires MatchAt(s, ip, m)
    ensures 0 <= m < ip <= m + MAX_DISTANCE
  {
  }

  lemma CountFits(s: seq<byte>, i: nat, j: nat, limit: nat, count: nat)
    requires CommonPrefix(s, i, j, limit, count)
    ensures i + count <= limit <= |s|
  {
  }

  /** Offset and match length; the token of the sequence is completed in place. */
  method PutMatch(s: seq<byte>, dest: array<byte>, tok: nat, op0: nat, ip0: nat, m: nat, capacity: nat, limited: bool)
    returns (ok: bool, op: nat, code: nat)
    requires tok < op0 && MatchAt(s, ip0, m) && ip0 + MF_LIMIT <= |s|
    requires op0 + 2 <= StoreLimit(|s|, capacity, limited) <= dest.Length
    requires 255 * op0 <= 256 * ip0 + 495
    requires dest[tok] % 16 == 0
    modifies dest
    ensures limited || ok
    ensures limited ==> (ok <==> op0 + 8 + code / 256 <= capacity)
    ensures CommonPrefix(s, ip0 + MIN_MATCH, m + MIN_MATCH, |s| - LAST_LITERALS, code)
    ensures ok ==> op == op0 + 2 + |Extension(code)| <= dest.Length
    ensures ok && ip0 + MIN_MATCH + code + MF_LIMIT <= |s| ==> op + 3 <= StoreLimit(|s|, capacity, limited)
    ensures ok && code >= 15 ==>
              var top := op0 + 2 + 4 * ((code - 15) / 1020) + 4;
              && op <= top <= StoreLimit(|s|, capacity, limited) && (forall i :: op <= i < top ==> dest[i] == 255)
              && (forall i :: top <= i < dest.Length ==> dest[i] == old(dest[i]))
    ensures ok ==> dest[op0..op] == Le16(ip0 - m) + Extension(code)
    ensures ok ==> dest[tok] as int == old(dest[tok]) as int + Nibble(code)
    ensures forall i :: 0 <= i < op0 && i != tok ==> dest[i] == old(dest[i])
  {
    hide StoreLimit, MatchAt, CommonPrefix, EncodeLength, Nibble, Extension;
    MatchStarts(s, ip0, m);
    op := op0;
    var w := Le16(ip0 - m);
    dest[op], dest[op + 1] := w[0], w[1];
    op := op + 2;
    code := Count(s, ip0 + MIN_MATCH, m + MIN_MATCH, |s| - LAST_LITERALS);
    CountFits(s, ip0 + MIN_MATCH, m + MIN_MATCH, |s| - LAST_LITERALS, code);
    if limited && op + (1 + LAST_LITERALS) + code / 256 > capacity {
      return false, op, code;
    }
    ok := true;
    MatchRoom(|s|, capacity, limited, op, ip0, code);
    assert dest[op0..op] == w;
    op := PutCode(dest, tok, op, code);
    assert dest[op0..op0 + 2] == w;
    assert dest[op0..op] == w + dest[op0 + 2..op];
  }

  /** The match length in the token, and what of it does not fit there. */
  method PutCode(dest: array<byte>, tok: nat, op0: nat, code: nat) returns (op: nat)
    requires tok < op0 <= dest.Length && dest[tok] % 16 == 0
    requires code >= 15 ==> op0 + 4 * ((code - 15) / 1020) + 4 <= dest.Length
    modifies dest
    ensures op == op0 + |Extension(code)| <= dest.Length && dest[op0..op] == Extension(code)
    ensures dest[tok] as int == old(dest[tok]) as int + Nibble(code)
    ensures forall i :: 0 <= i < op0 && i != tok ==> dest[i] == old(dest[i])
    ensures code >= 15 ==>
              var top := op0 + 4 * ((code - 15) / 1020) + 4;
              && op <= top && (forall i :: op <= i < top ==> dest[i] == 255)
              && (forall i :: top <= i < dest.Length ==> dest[i] == old(dest[i]))
  {
    hide EncodeLength;
    op := op0;
    if code >= ML_MASK {
      dest[tok] := dest[tok] + ML_MASK;
      op := PutMatchLength(dest, op, code - ML_MASK);
    } else {
      dest[tok] := dest[tok] + code;
    }
  }

  /** Started and completed, the pieces are the encoded sequence. */
  lemma SequenceAssembled(literals: seq<byte>, head: seq<byte>, offset: nat, code: nat)
    requires head == EncodeLast(literals)
    ensures var x := Sequence(literals, offset, code + MIN_MATCH);
            EncodeSequence(x) == [(head[0] as int + Nibble(code)) as byte] + head[1..] + Le16(offset) + Extension(code)
  {
  }

  /** `dest` from `tok` to `op` starts a sequence after the encoded ones, whose match at `m` is found. */
  ghost predicate Started(dest: seq<byte>, s: seq<byte>, tok: nat, op: nat, anchor: nat, ip: nat, m: nat,
      ss: seq<Sequence>, acceleration: nat)
  {
    && tok < op <= |dest| && anchor <= ip && ip + MF_LIMIT <= |s|
    && Emitted(dest[..tok], s, anchor, ss, acceleration)
    && dest[tok..op] == EncodeLast(s[anchor..ip])
    && MatchAt(s, ip, m) && 255 * op <= 256 * ip + 495
    && (ip == anchor || m == 0 || s[ip - 1] != s[m - 1]) && Literals(s, anchor, ip, acceleration)
  }

  lemma Completed(before: seq<byte>, after: seq<byte>, s: seq<byte>, tok: nat, op: nat, anchor: nat, ip: nat, m: nat,
      ss: seq<Sequence>, op1: nat, code: nat, acceleration: nat)
    requires Started(before, s, tok, op, anchor, ip, m, ss, acceleration)
    requires |after| == |before| && op <= op1 <= |after|
    requires forall i :: 0 <= i < op && i != tok ==> after[i] == before[i]
    requires after[tok] as int == before[tok] as int + Nibble(code)
    requires after[op..op1] == Le16(ip - m) + Extension(code)
    requires CommonPrefix(s, ip + MIN_MATCH, m + MIN_MATCH, |s| - LAST_LITERALS, code)
    ensures var x := SequenceAt(s, anchor, ip, m, code);
            Emitted(after[..op1], s, ip + MIN_MATCH + code, ss + [x], acceleration)
  {
    hide Extension, Emitted, EncodeSequence, EncodeLast, Nibble, Le16, SameByte, Literals;
    assert after[..tok] == before[..tok];
    CompletedBytes(before, after, s, tok, op, anchor, ip, m, op1, code);
    PrefixGrows(s, ip, m, MIN_MATCH, code);
    CompletedMaximal(s, anchor, ip, m, code);
    EmitSequence(before[..tok], s, anchor, ss, ip, m, code, acceleration);
    assert after[..op1] == after[..tok] + after[tok..op1];
  }

  /** The token with the match length in it, the literals, the offset and the length field are the sequence. */
  lemma CompletedBytes(before: seq<byte>, after: seq<byte>, s: seq<byte>, tok: nat, op: nat, anchor: nat, ip: nat,
      m: nat, op1: nat, code: nat)
    requires |after| == |before| && tok < op <= op1 <= |after| && anchor <= ip <= |s| && m <= ip
    requires before[tok..op] == EncodeLast(s[anchor..ip])
    requires forall i :: 0 <= i < op && i != tok ==> after[i] == before[i]
    requires after[tok] as int == before[tok] as int + Nibble(code)
    requires after[op..op1] == Le16(ip - m) + Extension(code)
    ensures after[tok..op1] == EncodeSequence(SequenceAt(s, anchor, ip, m, code))
  {
    hide Extension, EncodeSequence, EncodeLast, Nibble, Le16;
    var head := before[tok..op];
    assert after[tok + 1..op] == head[1..];
    SequenceAssembled(s[anchor..ip], head, ip - m, code);
    assert after[tok..op1] == [after[tok]] + after[tok + 1..op] + after[op..op1];
  }

  lemma CompletedMaximal(s: seq<byte>, anchor: nat, ip: nat, m: nat, code: nat)
    requires anchor <= ip && m < ip && ip + MF_LIMIT <= |s|
    requires ip == anchor || m == 0 || s[ip - 1] != s[m - 1]
    requires CommonPrefix(s, ip + MIN_MATCH, m + MIN_MATCH, |s| - LAST_LITERALS, code)
    ensures MaximalAt(s, anchor, ip, ip + MIN_MATCH + code, ip - m)
  {
    assert code + ip + MIN_MATCH < |s| - LAST_LITERALS ==> !SameByte(s, ip + MIN_MATCH, m + MIN_MATCH, code);
  }

  lemma LongEnough(s: seq<byte>, ip: nat, m: nat, seen: nat, code: nat)
    requires MatchAt(s, ip, m) && ip < seen && seen + 3 + LAST_LITERALS <= |s|
    requires SameBytes(s, ip, m, seen + 3 - ip)
    requires CommonPrefix(s, ip + MIN_MATCH, m + MIN_MATCH, |s| - LAST_LITERALS, code)
    ensures ip + MIN_MATCH + code >= seen + 3
  {
    assert SameByte(s, ip, m, MIN_MATCH + code) <==> SameByte(s, ip + MIN_MATCH, m + MIN_MATCH, code);
  }

  /** The two table updates after a match, and the lookup between them. */
  method UpdateTable(s: seq<byte>, table: array<int>, t: TableType, ip: nat) returns (b: bool, m: nat)
    requires TableBelow(table[..], t, ip, |s|) && 2 <= ip && ip + MF_LIMIT <= |s|
    modifies table
    ensures TableBelow(table[..], t, ip + 1, |s|)
    ensures table[..] == old(table[..])[HashPosition(s, ip - 2, t) := ip - 2][HashPosition(s, ip, t) := ip]
    ensures b ==> MatchAt(s, ip, m)
    ensures HashPosition(s, ip - 2, t) != HashPosition(s, ip, t) && MatchAt(s, ip, old(table[HashPosition(s, ip, t)]))
            ==> b && m == old(table[HashPosition(s, ip, t)])
    ensures MatchAt(s, ip, ip - 2) ==> b && m == ip - 2
  {
    hide HashPosition, MatchAt;
    if MatchAt(s, ip, ip - 2) {
      SlotOfLast(s, t, ip - 2, ip);
    }
    Put(ip - 2, HashPosition(s, ip - 2, t), table, t, ip, |s|);
    var h := HashPosition(s, ip, t);
    var c := table[h];
    assert h != HashPosition(s, ip - 2, t) ==> c == old(table[h]);
    TableMoves(table[..], t, ip, ip + 1, |s|);
    Put(ip, h, table, t, ip + 1, |s|);
    b := Candidate(s, ip, c, t, true);
    MatchBelow(s, ip, c);
    m := if b then c else 0;
  }

  /** A match whose offset goes to `op` and whose fillers go past the capacity although the room asked for is there. */
  ghost predicate Overruns(s: seq<byte>, op: nat, ip: nat, m: nat, capacity: nat) {
    exists code: nat :: OverrunsBy(s, op, ip, m, capacity, code)
  }

  ghost predicate OverrunsBy(s: seq<byte>, op: nat, ip: nat, m: nat, capacity: nat, code: nat) {
    && |s| >= LAST_LITERALS && code >= ML_MASK
    && CommonPrefix(s, ip + MIN_MATCH, m + MIN_MATCH, |s| - LAST_LITERALS, code)
    && op + 8 + code / 256 <= capacity < op + 6 + 4 * ((code - ML_MASK) / 1020)
  }

  lemma OneCount(s: seq<byte>, i: nat, j: nat, limit: nat, a: nat, b: nat)
    requires CommonPrefix(s, i, j, limit, a) && CommonPrefix(s, i, j, limit, b)
    ensures a == b
  {
  }

  lemma OverrunCode(s: seq<byte>, op: nat, ip: nat, m: nat, capacity: nat, code: nat)
    requires |s| >= LAST_LITERALS && CommonPrefix(s, ip + MIN_MATCH, m + MIN_MATCH, |s| - LAST_LITERALS, code)
    ensures Overruns(s, op, ip, m, capacity) ==> op + 8 + code / 256 <= capacity && Past(op, code, capacity)
  {
    hide CommonPrefix;
    if Overruns(s, op, ip, m, capacity) {
      var c: nat :| OverrunsBy(s, op, ip, m, capacity, c);
      OneCount(s, ip + MIN_MATCH, m + MIN_MATCH, |s| - LAST_LITERALS, c, code);
    }
  }

  /** The stores of a match with this code, its offset at `op`, go past the capacity. */
  predicate Past(op: nat, code: nat, capacity: nat) {
    op + 2 > capacity || (code >= ML_MASK && op + 6 + 4 * ((code - ML_MASK) / 1020) > capacity)
  }

  /** Completes one sequence. `past` says whether a store went past the capacity of a limited output. */
  method PutOne(s: seq<byte>, dest: array<byte>, tok: nat, op0: nat, ghost anchor: nat, ip0: nat, m: nat, capacity: nat,
      limited: bool, ghost seen: nat, ghost ss0: seq<Sequence>, ghost acceleration: nat)
    returns (ok: bool, op: nat, ip: nat, ghost ss: seq<Sequence>, ghost past: bool)
    requires Started(dest[..], s, tok, op0, anchor, ip0, m, ss0, acceleration)
    requires op0 + 2 <= StoreLimit(|s|, capacity, limited) <= dest.Length
    requires ip0 < seen && seen + 11 <= |s| && SameBytes(s, ip0, m, seen + 3 - ip0)
    modifies dest
    ensures limited || ok
    ensures !ok ==> LacksRoom(s, capacity, acceleration)
    ensures ok ==> op <= dest.Length && seen + 3 <= ip && Emitted(dest[..op], s, ip, ss, acceleration)
    ensures ok && ip + MF_LIMIT <= |s| ==> op + 3 <= StoreLimit(|s|, capacity, limited)
    ensures past ==> limited && StoreLimit(|s|, capacity, limited) > capacity
    ensures limited && Overruns(s, op0, ip0, m, capacity) ==> past
  {
    hide StoreLimit, Extension, Emitted, EncodeLast, SameBytes, Nibble, MatchAt;
    hide CommonPrefix, Overruns, Maximal, Literals, LacksRoom;
    ss, past := ss0, false;
    HeadToken(dest[..], tok, op0, s[anchor..ip0]);
    ghost var before := dest[..];
    var code;
    ok, op, code := PutMatch(s, dest, tok, op0, ip0, m, capacity, limited);
    past := limited && Past(op0, if ok then code else 0, capacity);
    OverrunCode(s, op0, ip0, m, capacity, code);
    ip := ip0 + MIN_MATCH + code;
    if ok {
      Completed(before, dest[..], s, tok, op0, anchor, ip0, m, ss, op, code, acceleration);
      LongEnough(s, ip0, m, seen, code);
      ss := ss + [SequenceAt(s, anchor, ip0, m, code)];
      assert dest[..][..op] == dest[..op];
    } else {
      MatchLacks(before, s, tok, op0, anchor, ip0, m, ss0, capacity, code, acceleration);
    }
  }

  lemma MatchLacks(dest: seq<byte>, s: seq<byte>, tok: nat, op: nat, anchor: nat, ip: nat, m: nat, ss: seq<Sequence>,
      capacity: nat, code: nat, acceleration: nat)
    requires Started(dest, s, tok, op, anchor, ip, m, ss, acceleration) && op + 8 + code / 256 > capacity
    requires CommonPrefix(s, ip + MIN_MATCH, m + MIN_MATCH, |s| - LAST_LITERALS, code)
    ensures LacksRoom(s, capacity, acceleration)
  {
    hide Emitted, EncodeLast, MatchAt, CommonPrefix, Literals;
    assert |dest[tok..op]| == op - tok;
    assert Lacks(s, capacity, acceleration, dest[..tok], ss, anchor, ip, m, code);
  }

  lemma LiteralsLack(out: seq<byte>, s: seq<byte>, anchor: nat, ip: nat, m: nat, ss: seq<Sequence>, capacity: nat,
      acceleration: nat)
    requires Emitted(out, s, anchor, ss, acceleration) && anchor <= ip && ip + MF_LIMIT <= |s| && MatchAt(s, ip, m)
    requires Literals(s, anchor, ip, acceleration) && |out| + (ip - anchor) + (ip - anchor) / 255 + 9 > capacity
    ensures LacksRoom(s, capacity, acceleration)
  {
    hide Emitted, MatchAt, Literals;
    assert Lacks(s, capacity, acceleration, out, ss, anchor, ip, m, 0);
  }

  lemma LastLacks(out: seq<byte>, s: seq<byte>, anchor: nat, ss: seq<Sequence>, capacity: nat, acceleration: nat)
    requires Emitted(out, s, anchor, ss, acceleration) && anchor <= |s| && Literals(s, anchor, |s|, acceleration)
    requires |out| + |EncodeLast(s[anchor..])| > capacity
    ensures LacksRoom(s, capacity, acceleration)
  {
    hide Emitted, EncodeLast, Literals;
    assert Lacks(s, capacity, acceleration, out, ss, anchor, |s|, 0, 0);
  }

  /** Completes a sequence, and every sequence without literals that follows it directly. */
  method PutMatches(s: seq<byte>, dest: array<byte>, tok0: nat, op0: nat, ghost anchor0: nat, ip0: nat, m0: nat,
      capacity: nat, limited: bool, table: array<int>, t: TableType, ghost seen0: nat, ghost ss0: seq<Sequence>,
      ghost acceleration: nat)
    returns (ok: bool, op: nat, ip: nat, ghost ss: seq<Sequence>, ghost past: bool)
    requires Started(dest[..], s, tok0, op0, anchor0, ip0, m0, ss0, acceleration)
    requires op0 + 2 <= StoreLimit(|s|, capacity, limited) <= dest.Length
    requires TableBelow(table[..], t, seen0, |s|) && ip0 < seen0 && seen0 + 11 <= |s|
    requires SameBytes(s, ip0, m0, seen0 + 3 - ip0)
    modifies dest, table
    ensures limited || ok
    ensures !ok ==> LacksRoom(s, capacity, acceleration)
    ensures ok ==> op <= dest.Length && seen0 <= ip && Emitted(dest[..op], s, ip, ss, acceleration)
    ensures ok && ip + MF_LIMIT <= |s| ==> TableBelow(table[..], t, ip + 1, |s|)
    ensures ok ==> Tried(s, ip)
    ensures past ==> limited && StoreLimit(|s|, capacity, limited) > capacity
    ensures limited && Overruns(s, op0, ip0, m0, capacity) ==> past
  {
    hide StoreLimit, Emitted, SameBytes, TableBelow, HashPosition, MatchAt, Overruns, Started, LacksRoom;
    ss := ss0;
    op, ip, past := op0, ip0, false;
    var tok, m := tok0, m0;
    ghost var anchor: nat, seen: nat := anchor0, seen0;
    while true
      invariant Started(dest[..], s, tok, op, anchor, ip, m, ss, acceleration)
      invariant op + 2 <= StoreLimit(|s|, capacity, limited)
      invariant TableBelow(table[..], t, seen, |s|) && ip < seen && seen0 <= seen && seen + 11 <= |s|
      invariant SameBytes(s, ip, m, seen + 3 - ip)
      invariant past ==> limited && StoreLimit(|s|, capacity, limited) > capacity
      invariant limited && Overruns(s, op0, ip0, m0, capacity) ==> past || (op == op0 && ip == ip0 && m == m0)
      decreases |s| - ip
    {
      ghost var more;
      ok, op, ip, ss, more :=
        PutOne(s, dest, tok, op, anchor, ip, m, capacity, limited, seen, ss, acceleration);
      past := past || more;
      if !ok {
        return;
      }
      anchor := ip;
      if ip >= |s| - MF_LIMIT + 1 {
        return;
      }
      TableMoves(table[..], t, seen, ip, |s|);
      var b;
      b, m := UpdateTable(s, table, t, ip);
      if !b {
        return;
      }
      tok := op;
      op := op + 1;
      dest[tok] := 0;
      NoLiterals(dest[..], s, tok, ip, m, ss, acceleration);
      seen := ip + 1;
    }
  }

  lemma HeadToken(dest: seq<byte>, tok: nat, op: nat, literals: seq<byte>)
    requires tok < op <= |dest| && dest[tok..op] == EncodeLast(literals)
    ensures dest[tok] % 16 == 0
  {
    assert dest[tok] == dest[tok..op][0];
  }

  lemma NoLiterals(dest: seq<byte>, s: seq<byte>, tok: nat, ip: nat, m: nat, ss: seq<Sequence>, acceleration: nat)
    requires tok < |dest| && dest[tok] == 0 && Emitted(dest[..tok], s, ip, ss, acceleration)
    requires ip + MF_LIMIT <= |s| && MatchAt(s, ip, m)
    ensures Started(dest, s, tok, tok + 1, ip, ip, m, ss, acceleration)
    ensures SameBytes(s, ip, m, 4)
  {
    assert s[ip..ip] == [];
    ShortRun(s, ip, ip, acceleration);
    assert dest[tok..tok + 1] == EncodeLast([]);
  }

  /** The first 134660 bytes are zero and the next is not, unless it is one of the last five. */
  ghost predicate ZerosFirst(s: seq<byte>) {
    && |s| >= EXCESS_SIZE
    && (forall i :: 0 <= i < EXCESS_SIZE - 5 ==> s[i] == 0)
    && (EXCESS_SIZE < |s| ==> s[EXCESS_SIZE - 5] != 0)
  }

  /** The least capacity with which the first match of such an input passes the test for room. */
  const ZEROS_CAPACITY := 535

  /** Such an input has a match of all its zeros at position 1, whose last filler is stored past that capacity. */
  lemma ZerosOverrun(s: seq<byte>)
    requires ZerosFirst(s)
    ensures MatchAt(s, 1, 0) && Overruns(s, 2, 1, 0, ZEROS_CAPACITY)
  {
    var code := EXCESS_SIZE - 10;
    assert SameBytes(s, 1 + MIN_MATCH, 0 + MIN_MATCH, code);
    assert CommonPrefix(s, 1 + MIN_MATCH, 0 + MIN_MATCH, |s| - LAST_LITERALS, code);
    assert OverrunsBy(s, 2, 1, 0, ZEROS_CAPACITY, code);
  }

  lemma ZerosHash(s: seq<byte>, t: TableType)
    requires ZerosFirst(s)
    ensures HashPosition(s, 0, t) == HashPosition(s, 1, t)
  {
    hide Hash4;
    assert Read32(s, 0) == Read32(s, 1);
  }

  /** One round of the main loop: search, catch up, emit. */
  method Round(s: seq<byte>, dest: array<byte>, op0: nat, anchor0: nat, ip0: nat, forwardH: nat, capacity: nat,
      limited: bool, table: array<int>, t: TableType, acceleration: nat, ghost ss0: seq<Sequence>)
    returns (ok: bool, found: bool, op: nat, ip: nat, ghost ss: seq<Sequence>, ghost past: bool)
    requires MF_LIMIT < |s| <= MAX_INPUT_SIZE && 1 <= acceleration < 0x400_0000
    requires StoreLimit(|s|, capacity, limited) <= dest.Length
    requires op0 <= dest.Length && Emitted(dest[..op0], s, anchor0, ss0, acceleration)
    requires ip0 == anchor0 + 1 && ip0 + MF_LIMIT <= |s| + 1 && Tried(s, anchor0)
    requires forwardH == HashPosition(s, ip0, t) && TableBelow(table[..], t, ip0, |s|)
    modifies dest, table
    ensures limited || ok
    ensures !ok ==> LacksRoom(s, capacity, acceleration)
    ensures ok && !found ==> op == op0 && dest[..] == old(dest[..]) && ss == ss0
                             && Literals(s, anchor0, |s|, acceleration)
    ensures ok && found ==> ip0 < ip <= |s| && op <= dest.Length && Emitted(dest[..op], s, ip, ss, acceleration)
                            && (ip + MF_LIMIT <= |s| ==> TableBelow(table[..], t, ip + 1, |s|)) && Tried(s, ip)
    ensures past ==> limited && StoreLimit(|s|, capacity, limited) > capacity
    ensures (&& limited && op0 == 0 && anchor0 == 0 && ip0 == 1 && capacity >= 10
             && MatchAt(s, 1, 0) && |old(table[..])| == TableSize(t) && old(table[forwardH]) == 0
             && Overruns(s, 2, 1, 0, capacity)) ==> past
  {
    hide HashPosition, Emitted, TableBelow, SameBytes, Overruns, StoreLimit, MatchAt, Literals, LacksRoom, Scheduled;
    hide PassedOver;
    ok, op, ss, past := true, op0, ss0, false;
    var m;
    ghost var ps;
    found, ip, m, ps := FindMatch(s, ip0, forwardH, table, t, acceleration);
    if !found {
      SearchedRun(s, anchor0, |s|, ip0, acceleration, ps);
      return;
    }
    ghost var seen := ip + 1;
    MatchStarts(s, ip, m);
    ip, m := CatchUp(s, anchor0, ip, m);
    FoundAhead(ps, ip0, acceleration);
    SearchedRun(s, anchor0, ip, ip0, acceleration, ps);
    ok, op, ip, ss, past := Emit(s, dest, op, anchor0, ip, m, capacity, limited, table, t, seen, ss, acceleration);
  }

  /** Literals and match of a sequence, and every sequence without literals that follows it directly. */
  method Emit(s: seq<byte>, dest: array<byte>, tok: nat, anchor: nat, ip0: nat, m: nat, capacity: nat, limited: bool,
      table: array<int>, t: TableType, ghost seen: nat, ghost ss0: seq<Sequence>, ghost acceleration: nat)
    returns (ok: bool, op: nat, ip: nat, ghost ss: seq<Sequence>, ghost past: bool)
    requires StoreLimit(|s|, capacity, limited) <= dest.Length
    requires tok <= dest.Length && Emitted(dest[..tok], s, anchor, ss0, acceleration)
    requires anchor <= ip0 && ip0 + MF_LIMIT <= |s| && MatchAt(s, ip0, m) && Literals(s, anchor, ip0, acceleration)
    requires ip0 == anchor || m == 0 || s[ip0 - 1] != s[m - 1]
    requires TableBelow(table[..], t, seen, |s|) && ip0 < seen && seen + 11 <= |s|
    requires SameBytes(s, ip0, m, seen + 3 - ip0)
    modifies dest, table
    ensures limited || ok
    ensures !ok ==> LacksRoom(s, capacity, acceleration)
    ensures ok ==> op <= dest.Length && seen <= ip <= |s| && Emitted(dest[..op], s, ip, ss, acceleration)
                   && (ip + MF_LIMIT <= |s| ==> TableBelow(table[..], t, ip + 1, |s|)) && Tried(s, ip)
    ensures past ==> limited && StoreLimit(|s|, capacity, limited) > capacity
    ensures limited && tok == 0 && anchor == 0 && ip0 == 1 && m == 0 && capacity >= 10 ==>
              (Overruns(s, 2, 1, 0, capacity) ==> past)
  {
    hide Emitted, TableBelow, SameBytes, Overruns, StoreLimit, MatchAt, Literals, LacksRoom, Started;
    ss, past, ip := ss0, false, ip0;
    MatchStarts(s, ip, m);
    LiteralRoom(dest[..tok], s, anchor, ip, ss, acceleration);
    WithoutLimit(|s|, capacity, limited);
    ghost var emitted := dest[..tok];
    ok, op := PutLiterals(s, dest, tok, anchor, ip, capacity, limited);
    if !ok {
      LiteralsLack(emitted, s, anchor, ip, m, ss, capacity, acceleration);
      return;
    }
    assert dest[..tok] == emitted;
    StartedHere(dest[..], s, tok, op, anchor, ip, m, ss, acceleration);
    ok, op, ip, ss, past :=
      PutMatches(s, dest, tok, op, anchor, ip, m, capacity, limited, table, t, seen, ss, acceleration);
    if ok {
      EmittedInside(dest[..op], s, ip, ss, acceleration);
    }
  }

  lemma FoundAhead(ps: seq<nat>, start: nat, acceleration: nat)
    requires |ps| >= 2 && Scheduled(ps, start, acceleration)
    ensures ps[|ps| - 2] <= ps[|ps| - 1]
  {
    ScheduleStep(ps, start, acceleration, |ps| - 2);
  }

  lemma EmittedInside(out: seq<byte>, s: seq<byte>, anchor: nat, ss: seq<Sequence>, acceleration: nat)
    requires Emitted(out, s, anchor, ss, acceleration)
    ensures anchor <= |s|
  {
  }

  lemma WithoutLimit(n: nat, capacity: nat, limited: bool)
    ensures capacity <= StoreLimit(n, capacity, limited) || !limited
    ensures !limited ==> StoreLimit(n, capacity, limited) == n + n / 255 + 16
  {
    hide Excess;
  }

  /** Search, catch up and emit until the input is nearly used up or a limited output lacks room. */
  method MainLoop(s: seq<byte>, dest: array<byte>, capacity: nat, limited: bool, table: array<int>, t: TableType,
      acceleration: nat)
    returns (ok: bool, op: nat, anchor: nat, ghost ss: seq<Sequence>, ghost past: bool)
    requires MF_LIMIT < |s| <= MAX_INPUT_SIZE && 1 <= acceleration < 0x400_0000
    requires StoreLimit(|s|, capacity, limited) <= dest.Length
    requires TableBelow(table[..], t, 1, |s|)
    modifies dest, table
    ensures limited || ok
    ensures !ok ==> LacksRoom(s, capacity, acceleration)
    ensures ok ==> op <= dest.Length && Emitted(dest[..op], s, anchor, ss, acceleration)
                   && Literals(s, anchor, |s|, acceleration)
    ensures past ==> limited && StoreLimit(|s|, capacity, limited) > capacity
    ensures limited && capacity == ZEROS_CAPACITY && ZerosFirst(s) ==> past
  {
    hide HashPosition, Emitted, TableBelow, SameBytes, Overruns, StoreLimit, ZerosFirst, MatchAt, Literals, LacksRoom;
    op, anchor, ss, past := 0, 0, [], false;
    NothingEmitted(s, acceleration);
    assert dest[..op] == [];
    ghost var long := limited && capacity == ZEROS_CAPACITY && ZerosFirst(s);
    if long {
      ZerosOverrun(s);
      ZerosHash(s, t);
    }
    var ip := 0;
    Put(ip, HashPosition(s, ip, t), table, t, 1, |s|);
    ip := ip + 1;
    var forwardH := HashPosition(s, ip, t);
    TableSlot(table[..], t, 1, |s|, forwardH);
    while true
      invariant op <= dest.Length && Emitted(dest[..op], s, anchor, ss, acceleration)
      invariant ip == anchor + 1 && ip + MF_LIMIT <= |s| + 1 && Tried(s, anchor)
      invariant forwardH == HashPosition(s, ip, t) && TableBelow(table[..], t, ip, |s|)
      invariant past ==> limited && StoreLimit(|s|, capacity, limited) > capacity
      invariant long && !past ==>
                  op == 0 && anchor == 0 && ip == 1 && |table[..]| == TableSize(t) && table[forwardH] == 0
      decreases |s| - ip
    {
      var found;
      ghost var more;
      ok, found, op, ip, ss, more :=
        Round(s, dest, op, anchor, ip, forwardH, capacity, limited, table, t, acceleration, ss);
      past := past || more;
      if !ok || !found {
        return;
      }
      anchor := ip;
      if ip >= |s| - MF_LIMIT + 1 {
        ShortRun(s, anchor, |s|, acceleration);
        return;
      }
      ip := ip + 1;
      forwardH := HashPosition(s, ip, t);
    }
  }

  lemma NothingEmitted(s: seq<byte>, acceleration: nat)
    ensures Emitted([], s, 0, [], acceleration)
  {
  }

  lemma LiteralRoom(out: seq<byte>, s: seq<byte>, anchor: nat, ip: nat, ss: seq<Sequence>, acceleration: nat)
    requires Emitted(out, s, anchor, ss, acceleration) && anchor <= ip && ip + MF_LIMIT <= |s|
    ensures |out| + (ip - anchor) + (ip - anchor + 240) / 255 + 9 <= |s| + |s| / 255 + 16
  {
    RoomArithmetic(|out|, anchor, ip - anchor, |s|);
  }

  lemma RoomArithmetic(op: nat, anchor: nat, run: nat, n: nat)
    requires 255 * op <= 256 * anchor && anchor + run <= n
    ensures op + run + (run + 240) / 255 + 9 <= n + n / 255 + 16
  {
    assert 255 * (op + run + (run + 240) / 255) <= 256 * n + 240;
  }

  lemma StartedHere(dest: seq<byte>, s: seq<byte>, tok: nat, op: nat, anchor: nat, ip: nat, m: nat, ss: seq<Sequence>,
      acceleration: nat)
    requires tok < op <= |dest| && anchor <= ip && ip + MF_LIMIT <= |s|
    requires Emitted(dest[..tok], s, anchor, ss, acceleration)
    requires dest[tok..op] == EncodeLast(s[anchor..ip])
    requires MatchAt(s, ip, m) && 255 * (op - tok) <= 256 * (ip - anchor) + 495
    requires (ip == anchor || m == 0 || s[ip - 1] != s[m - 1]) && Literals(s, anchor, ip, acceleration)
    ensures Started(dest, s, tok, op, anchor, ip, m, ss, acceleration)
    ensures 255 * op <= 256 * ip + 495 && op <= ip + ip / 255 + 2
  {
  }

  lemma LastRoom(out: seq<byte>, s: seq<byte>, anchor: nat, ss: seq<Sequence>, acceleration: nat)
    requires Emitted(out, s, anchor, ss, acceleration)
    ensures |EncodeLast(s[anchor..])| == 1 + (|s| - anchor) + (|s| - anchor + 240) / 255
    ensures |out| + |EncodeLast(s[anchor..])| <= |s| + |s| / 255 + 16
  {
    RoomArithmetic(|out|, anchor, |s| - anchor, |s|);
  }

  /** The last literals; a limited output that lacks room for them gives 0. */
  method PutLast(s: seq<byte>, dest: array<byte>, op0: nat, anchor: nat, capacity: nat, limited: bool,
      ghost ss: seq<Sequence>, ghost acceleration: nat)
    returns (r: nat)
    requires StoreLimit(|s|, capacity, limited) <= dest.Length
    requires op0 <= dest.Length && Emitted(dest[..op0], s, anchor, ss, acceleration)
    requires Literals(s, anchor, |s|, acceleration)
    modifies dest
    ensures r == 0 ==> limited && LacksRoom(s, capacity, acceleration)
    ensures r > 0 ==> r <= dest.Length && EncodesGreedily(dest[..r], s, acceleration) && Encodes(dest[..r], s)
    ensures r <= |s| + |s| / 255 + 16 && (limited ==> r <= capacity)
  {
    hide EncodesGreedily, Encodes, Emitted, Literals, LacksRoom;
    var lastRun := |s| - anchor;
    LastRoom(dest[..op0], s, anchor, ss, acceleration);
    if limited && op0 + lastRun + 1 + (lastRun + 255 - RUN_MASK) / 255 > capacity {
      LastLacks(dest[..op0], s, anchor, ss, capacity, acceleration);
      return 0;
    }
    EmitLast(dest[..op0], s, anchor, ss, acceleration);
    r := PutLastRun(s, dest, op0, anchor);
  }

  method PutLastRun(s: seq<byte>, dest: array<byte>, op0: nat, anchor: nat) returns (r: nat)
    requires anchor <= |s| && op0 + |EncodeLast(s[anchor..])| <= dest.Length
    modifies dest
    ensures r == op0 + |EncodeLast(s[anchor..])| && dest[..r] == old(dest[..op0]) + EncodeLast(s[anchor..])
  {
    hide Extension;
    var lastRun := |s| - anchor;
    ghost var emitted := dest[..op0];
    var op := PutToken(dest, op0, lastRun);
    assert dest[..op0] == emitted;
    ghost var head := dest[..op];
    assert head == emitted + dest[op0..op];
    Memcpy(dest, op, s, anchor, lastRun);
    assert dest[..op] == head;
    r := op + lastRun;
    assert dest[op..r] == s[anchor..];
    assert dest[..r] == head + dest[op..r];
  }

  /** Inputs that LZ4_compress_generic accepts. */
  predicate Supported(inputSize: int, t: TableType) {
    0 <= inputSize <= MAX_INPUT_SIZE && (t == ByU16 ==> inputSize < LIMIT_64K)
  }

  /**
    LZ4_compress_generic over a cleared table. A nonzero result is the size of a well-formed block
    for the input, within the worst-case bound and a limited capacity; without a limit the result is
    never 0 on supported input.
  */
  method CompressGeneric(source: seq<byte>, dest: array<byte>, inputSize: int, capacity: nat, limited: bool,
      table: array<int>, t: TableType, acceleration: nat)
    returns (r: nat, ghost past: bool)
    requires inputSize <= |source| && 1 <= acceleration < 0x400_0000
    requires Supported(inputSize, t) ==> StoreLimit(inputSize, capacity, limited) <= dest.Length
    requires table.Length == TableSize(t) && forall h :: 0 <= h < table.Length ==>
             table[h] == if t == ByU16 then 0 else EMPTY
    modifies dest, table
    ensures !Supported(inputSize, t) ==> r == 0
    ensures Supported(inputSize, t) && !limited ==> r > 0
    ensures r > 0 ==> && r <= dest.Length && r <= CompressBound(inputSize) && (limited ==> r <= capacity)
                      && EncodesGreedily(dest[..r], source[..inputSize], acceleration)
                      && Encodes(dest[..r], source[..inputSize])
    ensures Supported(inputSize, t) && r == 0 ==> LacksRoom(source[..inputSize], capacity, acceleration)
    ensures past ==> limited && Supported(inputSize, t) && StoreLimit(inputSize, capacity, limited) > capacity
    ensures limited && capacity == ZEROS_CAPACITY && Supported(inputSize, t) && ZerosFirst(source[..inputSize]) ==> past
  {
    hide EncodesGreedily, Encodes, Emitted, StoreLimit, Literals, LacksRoom;
    past := false;
    if !(0 <= inputSize <= MAX_INPUT_SIZE) {
      return 0, past;
    }
    if t == ByU16 && inputSize >= LIMIT_64K {
      return 0, past;
    }
    var s := source[..inputSize];
    var ok, op, anchor := true, 0, 0;
    ghost var ss := [];
    if inputSize < MF_LIMIT + 1 {
      NothingEmitted(s, acceleration);
      assert dest[..op] == [];
      ShortRun(s, 0, |s|, acceleration);
    } else {
      assert TableBelow(table[..], t, 1, |s|);
      ok, op, anchor, ss, past := MainLoop(s, dest, capacity, limited, table, t, acceleration);
      if !ok {
        return 0, past;
      }
    }
    r := PutLast(s, dest, op, anchor, capacity, limited, ss, acceleration);
  }

  /** The acceleration that is used; less than 1 stands for the default. */
  function Pace(acceleration: int): (a: nat)
    ensures a >= 1 && (acceleration >= 1 ==> a == acceleration)
  {
    if acceleration < 1 then 1 else acceleration
  }

  /**
    LZ4_compress_fast: 16-bit table below 64 KiB and pointers above, no output limit once the capacity
    reaches the worst-case bound. A positive result is the size of a well-formed block for the input.
    `past` says whether a store went past a limited capacity; for inputs below 134665 bytes none does.
  */
  method CompressFast(source: seq<byte>, dest: array<byte>, inputSize: int, maxOutputSize: nat, acceleration: int)
    returns (r: nat, ghost past: bool)
    requires inputSize <= |source| && acceleration < 0x400_0000
    requires 0 <= inputSize <= MAX_INPUT_SIZE ==>
               StoreLimit(inputSize, maxOutputSize, maxOutputSize < CompressBound(inputSize)) <= dest.Length
    modifies dest
    ensures r > 0 ==> && r <= dest.Length && r <= maxOutputSize && r <= CompressBound(inputSize)
                      && EncodesGreedily(dest[..r], source[..inputSize], Pace(acceleration))
                      && Encodes(dest[..r], source[..inputSize])
    ensures 0 <= inputSize <= MAX_INPUT_SIZE && r == 0 ==>
              LacksRoom(source[..inputSize], maxOutputSize, Pace(acceleration))
    ensures 0 <= inputSize <= MAX_INPUT_SIZE && maxOutputSize >= CompressBound(inputSize) ==> r > 0
    ensures !(0 <= inputSize <= MAX_INPUT_SIZE) ==> r == 0
    ensures 0 <= inputSize <= 0x7E00_0000 ==>
              r <= inputSize + inputSize / 255 + 16
              && (maxOutputSize >= inputSize + inputSize / 255 + 16 ==> r > 0)
    ensures past ==> inputSize >= EXCESS_SIZE
    ensures 0 <= inputSize <= MAX_INPUT_SIZE && ZerosFirst(source[..inputSize]) && maxOutputSize == ZEROS_CAPACITY
            ==> past
  {
    hide EncodesGreedily, Encodes, StoreLimit, LacksRoom;
    var a := Pace(acceleration);
    var t := if inputSize < LIMIT_64K then ByU16 else ByPtr;
    var cleared := if t == ByU16 then 0 else EMPTY;
    var table := new int[TableSize(t)](_ => cleared);
    if maxOutputSize >= CompressBound(inputSize) {
      if inputSize >= 0 {
        WithoutLimit(inputSize, maxOutputSize, false);
        WithoutLimit(inputSize, 0, false);
      }
      r, past := CompressGeneric(source, dest, inputSize, 0, false, table, t, a);
    } else {
      r, past := CompressGeneric(source, dest, inputSize, maxOutputSize, true, table, t, a);
      if 0 <= inputSize < EXCESS_SIZE {
        LimitIsCapacity(inputSize, maxOutputSize);
      }
    }
  }

  /** From 134665 bytes on there is an input of every size for which a store goes past a capacity of 535 bytes. */
  method StorePast(n: nat, dest: array<byte>) returns (source: seq<byte>, ghost past: bool)
    requires EXCESS_SIZE <= n <= MAX_INPUT_SIZE && StoreLimit(n, ZEROS_CAPACITY, true) <= dest.Length
    modifies dest
    ensures |source| == n && past
  {
    hide StoreLimit, EncodesGreedily, Encodes, LacksRoom;
    source := Repeat(0, EXCESS_SIZE - 5) + Repeat(1, n - (EXCESS_SIZE - 5));
    assert source[..n] == source;
    var r;
    r, past := CompressFast(source, dest, n, ZEROS_CAPACITY, 8);
  }
}
