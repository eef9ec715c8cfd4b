/** How the compressor finds and measures matches: word comparison, hash table, skipping search. */
module Lz4Match {
  import opened Bytes
  import opened Lz4Format

  // ----- LZ4_count

  /** Bitwise exclusive or of two words. */
  function Xor(a: nat, b: nat): nat {
    if a == 0 && b == 0 then 0 else (a + b) % 2 + 2 * Xor(a / 2, b / 2)
  }

  /** Number of zero bits below the lowest one bit. */
  function TrailingZeros(v: nat): nat
    requires v > 0
  {
    if v % 2 == 1 then 0 else 1 + TrailingZeros(v / 2)
  }

  /** LZ4_NbCommonBytes on a little-endian 32-bit word. */
  function NbCommonBytes(v: nat): nat
    requires v > 0
  {
    TrailingZeros(v) / 8
  }

  lemma {:induction false} XorZero(a: nat, b: nat)
    ensures Xor(a, b) == 0 <==> a == b
  {
    if a != 0 || b != 0 {
      XorZero(a / 2, b / 2);
    }
  }

  lemma BitSum(a: nat, b: nat, x: nat)
    ensures (a + b) % 2 == (if a % 2 == b % 2 then 0 else 1)
    ensures var v := (a + b) % 2 + 2 * x; v / 2 == x && v % 2 == (a + b) % 2
  {
  }

  lemma XorBit(a: nat, b: nat)
    requires a != b
    ensures Xor(a, b) > 0
    ensures a % 2 != b % 2 ==> TrailingZeros(Xor(a, b)) == 0
    ensures a % 2 == b % 2 ==>
              a / 2 != b / 2 && Xor(a / 2, b / 2) > 0
                  && TrailingZeros(Xor(a, b)) == 1 + TrailingZeros(Xor(a / 2, b / 2))
  {
    hide TrailingZeros, Xor;
    XorZero(a, b);
    XorZero(a / 2, b / 2);
    XorStep(a, b);
    BitSum(a, b, Xor(a / 2, b / 2));
    TrailingStep(Xor(a, b));
  }

  lemma XorStep(a: nat, b: nat)
    ensures Xor(a, b) == (a + b) % 2 + 2 * Xor(a / 2, b / 2)
  {
  }

  lemma TrailingStep(v: nat)
    requires v > 0
    ensures TrailingZeros(v) == if v % 2 == 1 then 0 else 1 + TrailingZeros(v / 2)
  {
  }

  /** `k` trailing zeros exactly when the low `k` bits, `low`, agree; what follows then is in the high parts. */
  predicate Agree(a: nat, b: nat, low: bool, high: nat, high': nat, k: nat) {
    && Xor(a, b) > 0
    && (low ==> high != high' && Xor(high, high') > 0
                && TrailingZeros(Xor(a, b)) == k + TrailingZeros(Xor(high, high')))
    && (!low ==> TrailingZeros(Xor(a, b)) < k)
  }

  lemma AgreeByte(a: nat, b: nat)
    requires a != b
    ensures Agree(a, b, a % 256 == b % 256, a / 256, b / 256, 8)
  {
    hide Xor, TrailingZeros;
    AgreeNibble(a, b);
    if a % 16 == b % 16 {
      AgreeNibble(a / 16, b / 16);
    }
    assert a / 256 == a / 16 / 16 && b / 256 == b / 16 / 16;
    assert a % 256 == 16 * (a / 16 % 16) + a % 16 && b % 256 == 16 * (b / 16 % 16) + b % 16;
  }

  lemma AgreeNibble(a: nat, b: nat)
    requires a != b
    ensures Agree(a, b, a % 16 == b % 16, a / 16, b / 16, 4)
  {
    hide Xor, TrailingZeros;
    AgreePair(a, b);
    if a % 4 == b % 4 {
      AgreePair(a / 4, b / 4);
    }
    assert a / 16 == a / 4 / 4 && b / 16 == b / 4 / 4;
    assert a % 16 == 4 * (a / 4 % 4) + a % 4 && b % 16 == 4 * (b / 4 % 4) + b % 4;
  }

  lemma AgreePair(a: nat, b: nat)
    requires a != b
    ensures Agree(a, b, a % 4 == b % 4, a / 4, b / 4, 2)
  {
    hide Xor, TrailingZeros;
    XorBit(a, b);
    if a % 2 == b % 2 {
      XorBit(a / 2, b / 2);
    }
    assert a / 4 == a / 2 / 2 && b / 4 == b / 2 / 2;
    assert a % 4 == 2 * (a / 2 % 2) + a % 2 && b % 4 == 2 * (b / 2 % 2) + b % 2;
  }

  /** The number of leading bytes two different words of `s` and `t` share. */
  lemma CommonBytes(s: seq<byte>, i: nat, j: nat)
    requires i + 4 <= |s| && j + 4 <= |s| && Read32(s, i) != Read32(s, j)
    ensures var v := Xor(Read32(s, i), Read32(s, j));
            v > 0 && NbCommonBytes(v) < 4 && PrefixIs(s, i, j, NbCommonBytes(v))
  {
    hide Xor, TrailingZeros, Shift, Read32;
    var a, b := Read32(s, i), Read32(s, j);
    var a1, b1 := Shift(s, i, 1), Shift(s, j, 1);
    var a2, b2 := Shift(s, i, 2), Shift(s, j, 2);
    AgreeByte(a, b);
    ShiftAll(s, i);
    ShiftAll(s, j);
    ShiftByte(s, i, 0);
    ShiftByte(s, j, 0);
    if s[i] == s[j] {
      AgreeByte(a1, b1);
      ShiftByte(s, i, 1);
      ShiftByte(s, j, 1);
      if s[i + 1] == s[j + 1] {
        AgreeByte(a2, b2);
        ShiftByte(s, i, 2);
        ShiftByte(s, j, 2);
        if s[i + 2] == s[j + 2] {
          AgreeByte(s[i + 3], s[j + 3]);
        }
      }
    }
  }

  /** The word at `i` without its `k` low bytes. */
  function Shift(s: seq<byte>, i: nat, k: nat): nat
    requires i + 4 <= |s| && k <= 3
    decreases 3 - k
  {
    if k == 3 then s[i + 3] else s[i + k] as nat + 256 * Shift(s, i, k + 1)
  }

  lemma ShiftByte(s: seq<byte>, i: nat, k: nat)
    requires i + 4 <= |s| && k < 3
    ensures Shift(s, i, k) % 256 == s[i + k] && Shift(s, i, k) / 256 == Shift(s, i, k + 1)
  {
  }

  lemma ShiftAll(s: seq<byte>, i: nat)
    requires i + 4 <= |s|
    ensures Shift(s, i, 0) == Read32(s, i) && Shift(s, i, 3) == s[i + 3]
  {
    assert Shift(s, i, 2) == s[i + 2] as nat + 256 * (s[i + 3] as nat);
    assert Shift(s, i, 1) == s[i + 1] as nat + 256 * Shift(s, i, 2);
  }

  predicate SameByte(s: seq<byte>, i: nat, j: nat, x: nat) {
    i + x < |s| && j + x < |s| && s[i + x] == s[j + x]
  }

  predicate SameBytes(s: seq<byte>, i: nat, j: nat, n: nat) {
    forall x :: 0 <= x < n ==> SameByte(s, i, j, x)
  }

  /** The first `k` bytes at `i` and `j` agree and the next do not. */
  predicate PrefixIs(s: seq<byte>, i: nat, j: nat, k: nat) {
    && i + k < |s| && j + k < |s|
    && SameBytes(s, i, j, k)
    && !SameByte(s, i, j, k)
  }

  /** `count` is the longest common prefix of the bytes at `i` and at `j`, with `i` bounded by `limit`. */
  ghost predicate CommonPrefix(s: seq<byte>, i: nat, j: nat, limit: nat, count: nat) {
    && i + count <= limit <= |s| && j < i
    && SameBytes(s, i, j, count)
    && (i + count < limit ==> !SameByte(s, i, j, count))
  }

  lemma PrefixGrows(s: seq<byte>, i: nat, j: nat, count: nat, more: nat)
    requires SameBytes(s, i, j, count)
    requires SameBytes(s, i + count, j + count, more)
    ensures SameBytes(s, i, j, count + more)
  {
    forall x | 0 <= x < count + more ensures SameByte(s, i, j, x) {
      if x < count {
        assert SameByte(s, i, j, x);
      } else {
        assert SameByte(s, i + count, j + count, x - count);
      }
    }
  }

  lemma Symmetric(s: seq<byte>, i: nat, j: nat, k: nat)
    requires PrefixIs(s, i, j, k)
    ensures PrefixIs(s, j, i, k)
  {
    forall x | 0 <= x < k ensures SameByte(s, j, i, x) {
      assert SameByte(s, i, j, x);
    }
    assert !SameByte(s, i, j, k);
  }

  lemma WordsAgree(s: seq<byte>, i: nat, j: nat)
    requires i + 4 <= |s| && j + 4 <= |s| && Read32(s, i) == Read32(s, j)
    ensures SameBytes(s, i, j, 4)
  {
    Read32Injective(s, i, s, j);
  }

  lemma WordsDisagree(s: seq<byte>, i: nat, j: nat)
    requires i + 4 <= |s| && j + 4 <= |s| && Read32(s, i) != Read32(s, j)
    ensures !SameBytes(s, i, j, 4)
  {
    Read32Injective(s, i, s, j);
    assert !(SameByte(s, i, j, 0) && SameByte(s, i, j, 1) && SameByte(s, i, j, 2) && SameByte(s, i, j, 3));
  }

  /** LZ4_count with 4-byte steps: whole words while they agree, then the common bytes of the first that does not. */
  method Count(s: seq<byte>, pIn: nat, pMatch: nat, pInLimit: nat) returns (count: nat)
    requires pMatch < pIn <= pInLimit <= |s|
    ensures CommonPrefix(s, pIn, pMatch, pInLimit, count)
  {
    hide Xor, NbCommonBytes, Read32, Read16;
    count := 0;
    while pIn + count + 3 < pInLimit
      invariant pIn + count <= pInLimit
      invariant SameBytes(s, pIn, pMatch, count)
    {
      var diff := Xor(Read32(s, pMatch + count), Read32(s, pIn + count));
      XorZero(Read32(s, pMatch + count), Read32(s, pIn + count));
      if diff == 0 {
        WordsAgree(s, pIn + count, pMatch + count);
        PrefixGrows(s, pIn, pMatch, count, 4);
        count := count + 4;
      } else {
        CommonBytes(s, pMatch + count, pIn + count);
        var k := NbCommonBytes(diff);
        Symmetric(s, pMatch + count, pIn + count, k);
        PrefixGrows(s, pIn, pMatch, count, k);
        return count + k;
      }
    }
    count := CountTail(s, pIn, pMatch, pInLimit, count);
  }

  /** The at most three bytes that no whole word covers. */
  method CountTail(s: seq<byte>, pIn: nat, pMatch: nat, pInLimit: nat, start: nat) returns (count: nat)
    requires pMatch < pIn && pIn + start <= pInLimit <= |s| && pInLimit <= pIn + start + 3
    requires SameBytes(s, pIn, pMatch, start)
    ensures CommonPrefix(s, pIn, pMatch, pInLimit, count)
  {
    count := start;
    if pIn + count + 1 < pInLimit && Read16(s, pMatch + count) == Read16(s, pIn + count) {
      Words16(s, pIn + count, pMatch + count);
      PrefixGrows(s, pIn, pMatch, count, 2);
      count := count + 2;
    } else if pIn + count + 1 < pInLimit {
      Words16(s, pIn + count, pMatch + count);
    }
    if pIn + count < pInLimit && s[pMatch + count] == s[pIn + count] {
      count := count + 1;
    }
  }

  lemma Words16(s: seq<byte>, i: nat, j: nat)
    requires i + 2 <= |s| && j + 2 <= |s|
    ensures Read16(s, i) == Read16(s, j) <==> SameByte(s, i, j, 0) && SameByte(s, i, j, 1)
    ensures Read16(s, i) == Read16(s, j) ==> SameBytes(s, i, j, 2)
  {
  }

  // ----- hash table

  /** The table holds 16-bit positions for inputs below 64 KiB, and pointers otherwise. */
  datatype TableType = ByU16 | ByPtr

  const LIMIT_64K := 65536 + MF_LIMIT - 1
  const MAX_INPUT_SIZE := 0x7E00_0000

  /** A cleared pointer slot: the null pointer lies further below any source than a match may reach. */
  const EMPTY := -0x1_0000

  function TableSize(t: TableType): nat {
    if t == ByU16 then 8192 else 4096
  }

  function Hash4(sequence: nat, t: TableType): (h: nat)
    requires sequence < U32_MODULUS
    ensures h < TableSize(t)
  {
    var product := sequence * 2654435761 % U32_MODULUS;
    if t == ByU16 then product / 0x8_0000 else product / 0x10_0000
  }

  function HashPosition(s: seq<byte>, p: nat, t: TableType): (h: nat)
    requires p + 4 <= |s|
    ensures h < TableSize(t)
  {
    Hash4(Read32(s, p), t)
  }

  /** A 16-bit slot truncates the position it is given. */
  method PutPositionOnHash(p: nat, h: nat, table: array<int>, t: TableType)
    requires table.Length == TableSize(t) && h < table.Length
    modifies table
    ensures table[..] == old(table[..])[h := if t == ByU16 then p % U16_MODULUS else p]
  {
    table[h] := if t == ByU16 then p % U16_MODULUS else p;
  }

  /**
    Every slot is a position below `ip`, or in a pointer table possibly empty. Inputs of a 16-bit
    table are short enough for no position to be truncated.
  */
  ghost predicate TableBelow(table: seq<int>, t: TableType, ip: nat, n: nat) {
    && |table| == TableSize(t)
    && (t == ByU16 ==> n < LIMIT_64K)
    && forall h :: 0 <= h < |table| ==> table[h] < ip && (table[h] >= 0 || (t == ByPtr && table[h] == EMPTY))
  }

  /** Storing a position at which a match may start keeps every slot exact and below the next position. */
  method Put(p: nat, h: nat, table: array<int>, t: TableType, ghost ip: nat, ghost n: nat)
    requires TableBelow(table[..], t, ip, n) && p < ip && p + MF_LIMIT <= n && h < TableSize(t)
    modifies table
    ensures TableBelow(table[..], t, ip, n) && table[..] == old(table[..])[h := p]
  {
    PutPositionOnHash(p, h, table, t);
  }

  lemma TableMoves(table: seq<int>, t: TableType, ip: nat, ip': nat, n: nat)
    requires TableBelow(table, t, ip, n) && ip <= ip'
    ensures TableBelow(table, t, ip', n)
  {
  }

  lemma TableSlot(table: seq<int>, t: TableType, ip: nat, n: nat, h: nat)
    requires TableBelow(table, t, ip, n) && h < TableSize(t)
    ensures |table| == TableSize(t) && table[h] < ip && (table[h] >= 0 || (t == ByPtr && table[h] == EMPTY))
    ensures t == ByU16 ==> n < LIMIT_64K
  {
  }

  // ----- search

  /** A usable match: 4 equal bytes, at a distance a 16-bit offset holds. */
  ghost predicate MatchAt(s: seq<byte>, ip: nat, m: int) {
    0 <= m < ip && ip - m <= MAX_DISTANCE && SameBytes(s, ip, m, 4)
  }

  lemma MatchBelow(s: seq<byte>, ip: nat, m: int)
    ensures MatchAt(s, ip, m) ==> 0 <= m
  {
  }

  /** The comparison of a candidate; only a 16-bit table does without the distance test. */
  method Candidate(s: seq<byte>, ip: nat, m: int, t: TableType, distanceTest: bool) returns (b: bool)
    requires ip + MF_LIMIT <= |s| && m < ip && (m >= 0 || (t == ByPtr && m == EMPTY))
    requires t == ByU16 ==> |s| < LIMIT_64K
    requires t == ByPtr ==> distanceTest
    ensures b <==> MatchAt(s, ip, m)
  {
    if distanceTest && m + MAX_DISTANCE < ip {
      return false;
    }
    b := Read32(s, m) == Read32(s, ip);
    if b {
      WordsAgree(s, ip, m);
    } else {
      WordsDisagree(s, ip, m);
    }
  }

  lemma ProductGrows(x: nat, y: nat, k: nat, low: nat)
    requires low <= y
    ensures x >= k ==> x * y >= k * low
  {
    if x >= k {
      assert x * y >= k * y;
      assert k * y >= k * low;
    }
  }

  /** The search counter never wraps: it starts at 64 times the acceleration and grows once per step taken. */
  lemma NoWrap(acceleration: nat, steps: nat)
    requires 1 <= acceleration < 0x400_0000
    requires steps * acceleration <= MAX_INPUT_SIZE
    ensures 64 * acceleration + steps + 2 < U32_MODULUS
  {
    if acceleration == 0x3FF_FFFF {
      ProductGrows(steps, acceleration, 32, 0x3FF_FFFF);
    } else if acceleration >= 0x200_0000 {
      ProductGrows(steps, acceleration, 64, 0x200_0000);
    } else {
      ProductGrows(acceleration, steps, 1, steps);
    }
  }

  /** All steps but the first cover at least `acceleration` positions. */
  predicate Paced(steps: nat, acceleration: nat, ip: nat) {
    (if steps == 0 then 0 else steps - 1) * acceleration <= ip
  }

  lemma PacedFromStart(acceleration: nat, ip: nat)
    ensures Paced(0, acceleration, ip)
  {
  }

  lemma PaceKept(steps: nat, acceleration: nat, ip: nat, step: nat)
    requires Paced(steps, acceleration, ip) && (steps > 0 ==> step >= acceleration)
    ensures Paced(steps + 1, acceleration, ip + step)
  {
    if steps > 0 {
      assert steps * acceleration == (steps - 1) * acceleration + acceleration;
    }
  }

  lemma PaceNoWrap(steps: nat, acceleration: nat, ip: nat)
    requires Paced(steps, acceleration, ip) && ip <= MAX_INPUT_SIZE && 1 <= acceleration < 0x400_0000
    ensures acceleration * 64 + steps + 1 < U32_MODULUS
  {
    NoWrap(acceleration, if steps == 0 then 0 else steps - 1);
  }

  /** The `k`-th step of a search: 1, and then `acceleration`, one more after every 64 steps. */
  function Stride(acceleration: nat, k: nat): (n: nat)
    ensures k == 0 ==> n == 1
    ensures k > 0 ==> 64 * n <= 64 * acceleration + k - 1 < 64 * n + 64
  {
    if k == 0 then 1 else (64 * acceleration + k - 1) / 64
  }

  /** Positions of a search from `start` on. */
  ghost predicate Scheduled(ps: seq<nat>, start: nat, acceleration: nat) {
    && |ps| > 0 && ps[0] == start
    && forall i: nat :: i + 1 < |ps| ==> ps[i + 1] == ps[i] + Stride(acceleration, i)
  }

  /** None of the first `looked` positions matches the one before it. */
  ghost predicate PassedOver(s: seq<byte>, ps: seq<nat>, looked: nat) {
    && looked <= |ps|
    && forall i: nat :: i + 1 < looked ==> NoMatchNext(s, ps, i)
  }

  ghost predicate NoMatchNext(s: seq<byte>, ps: seq<nat>, i: nat)
    requires i + 1 < |ps|
  {
    ps[i + 1] + MF_LIMIT <= |s| && !MatchAt(s, ps[i + 1], ps[i])
  }

  lemma ScheduleGrows(ps: seq<nat>, start: nat, acceleration: nat, p: nat)
    requires Scheduled(ps, start, acceleration) && p == ps[|ps| - 1] + Stride(acceleration, |ps| - 1)
    ensures Scheduled(ps + [p], start, acceleration)
  {
  }

  lemma OnePassed(s: seq<byte>, ps: seq<nat>, looked: nat, p: nat)
    requires PassedOver(s, ps, looked) && looked < |ps| && ps[looked] + MF_LIMIT <= |s|
    requires looked > 0 ==> !MatchAt(s, ps[looked], ps[looked - 1])
    ensures PassedOver(s, ps + [p], looked + 1)
  {
    hide MatchAt;
    PassedLonger(s, ps, looked, p);
  }

  lemma PassedLonger(s: seq<byte>, ps: seq<nat>, looked: nat, p: nat)
    requires PassedOver(s, ps, looked)
    ensures PassedOver(s, ps + [p], looked)
  {
    hide MatchAt;
    forall i: nat | i + 1 < looked ensures NoMatchNext(s, ps + [p], i) {
      assert NoMatchNext(s, ps, i);
    }
  }

  /** The slot of the position before holds that position, so equal words there are a match here. */
  lemma SlotOfLast(s: seq<byte>, t: TableType, p: nat, q: nat)
    requires p + 4 <= |s| && q + 4 <= |s| && MatchAt(s, q, p)
    ensures HashPosition(s, p, t) == HashPosition(s, q, t)
  {
    hide Hash4;
    assert SameByte(s, q, p, 0) && SameByte(s, q, p, 1) && SameByte(s, q, p, 2) && SameByte(s, q, p, 3);
    assert Read32(s, p) == Read32(s, q);
  }

  /**
    Looks for a match from `start` on, in growing steps; gives up within 12 bytes of the end. A match
    in the slot of `start` itself is never passed over, nor one at the position looked up before.
    `ps` are the positions looked up, the last one of them at `ip` when there is a match, and the next.
  */
  method FindMatch(s: seq<byte>, start: nat, startH: nat, table: array<int>, t: TableType, acceleration: nat)
    returns (found: bool, ip: nat, m: nat, ghost ps: seq<nat>)
    requires 1 <= start && start + MF_LIMIT <= |s| + 1 && |s| <= MAX_INPUT_SIZE && 1 <= acceleration < 0x400_0000
    requires |s| >= MF_LIMIT + 1 && startH == HashPosition(s, start, t)
    requires TableBelow(table[..], t, start, |s|)
    modifies table
    ensures found ==> start <= ip && ip + MF_LIMIT <= |s| && MatchAt(s, ip, m) && TableBelow(table[..], t, ip + 1, |s|)
                      && |table[..]| == TableSize(t) && table[HashPosition(s, ip, t)] == ip
    ensures start + MF_LIMIT <= |s| && MatchAt(s, start, old(table[startH])) ==>
              found && ip == start && m == old(table[startH])
    ensures |ps| >= 2 && Scheduled(ps, start, acceleration) && PassedOver(s, ps, |ps| - 2)
    ensures if found then ps[|ps| - 2] == ip else ps[|ps| - 1] + MF_LIMIT > |s| + 1
  {
    hide HashPosition, SameBytes, MatchAt, TableBelow, Counting, Scheduled, PassedOver, Stride, InSlot;
    var mflimitPlusOne := |s| - MF_LIMIT + 1;
    var forwardIp := start;
    var forwardH := startH;
    var step: nat := 1;
    var searchMatchNb: nat := acceleration * 64 % U32_MODULUS;
    ghost var steps := 0;
    ps := [start];
    SearchStarts(s, start, acceleration);
    TableSlot(table[..], t, start, |s|, startH);
    m := 0;
    CountFirst(acceleration, start);
    while true
      invariant start <= forwardIp <= mflimitPlusOne && forwardH == HashPosition(s, forwardIp, t)
      invariant TableBelow(table[..], t, forwardIp, |s|)
      invariant steps == 0 ==> forwardIp == start && table[..] == old(table[..])
      invariant steps > 0 ==> start + MF_LIMIT > |s| || !MatchAt(s, start, old(table[startH]))
      invariant Counting(searchMatchNb, step, steps, acceleration, forwardIp)
      invariant |ps| == steps + 1 && ps[steps] == forwardIp
      invariant Scheduled(ps, start, acceleration) && PassedOver(s, ps, steps)
      invariant steps > 0 ==> InSlot(s, table[..], t, ps[steps - 1])
      decreases |s| - forwardIp
    {
      CountNext(searchMatchNb, step, steps, acceleration, forwardIp);
      var h := forwardH;
      ip := forwardIp;
      forwardIp := forwardIp + step;
      step := searchMatchNb / 64;
      searchMatchNb := (searchMatchNb + 1) % U32_MODULUS;
      ghost var before := ps;
      ps := ps + [forwardIp];
      ScheduleGrows(before, start, acceleration, forwardIp);
      PassedLonger(s, before, steps, forwardIp);
      if forwardIp > mflimitPlusOne {
        return false, ip, m, ps;
      }
      forwardH := HashPosition(s, forwardIp, t);
      var b, c := LookUp(s, ip, h, table, t, if steps > 0 then before[steps - 1] else ip);
      if b {
        SlotHolds(s, table[..], t, ip);
        return true, ip, c, ps;
      }
      OnePassed(s, before, steps, forwardIp);
      steps := steps + 1;
      TableMoves(table[..], t, ip + 1, forwardIp, |s|);
    }
  }

  /** The search counter and the step after `steps` steps of a search that has come to `ip`. */
  ghost predicate Counting(searchMatchNb: nat, step: nat, steps: nat, acceleration: nat, ip: nat) {
    && searchMatchNb == acceleration * 64 + steps && step == Stride(acceleration, steps)
    && Paced(steps, acceleration, ip)
  }

  lemma CountFirst(acceleration: nat, ip: nat)
    requires 1 <= acceleration < 0x400_0000
    ensures Counting(acceleration * 64 % U32_MODULUS, 1, 0, acceleration, ip)
  {
  }

  lemma CountNext(searchMatchNb: nat, step: nat, steps: nat, acceleration: nat, ip: nat)
    requires Counting(searchMatchNb, step, steps, acceleration, ip)
    requires ip <= MAX_INPUT_SIZE && 1 <= acceleration < 0x400_0000
    ensures step >= 1 && step == Stride(acceleration, steps)
    ensures Counting((searchMatchNb + 1) % U32_MODULUS, searchMatchNb / 64, steps + 1, acceleration, ip + step)
  {
    hide Paced, Stride;
    PaceNoWrap(steps, acceleration, ip);
    StrideGrows(acceleration, steps);
    PaceKept(steps, acceleration, ip, step);
  }

  /** The slot of the word at `p` holds `p`. */
  ghost predicate InSlot(s: seq<byte>, table: seq<int>, t: TableType, p: nat) {
    p + 4 <= |s| && |table| == TableSize(t) && table[HashPosition(s, p, t)] == p
  }

  lemma NotItself(s: seq<byte>, p: nat)
    ensures !MatchAt(s, p, p)
  {
  }

  lemma SlotHolds(s: seq<byte>, table: seq<int>, t: TableType, p: nat)
    requires InSlot(s, table, t, p)
    ensures |table| == TableSize(t) && p + 4 <= |s| && table[HashPosition(s, p, t)] == p
  {
  }

  /** One lookup: what the slot of `ip` holds, whether it matches, and `ip` in its place. */
  method LookUp(s: seq<byte>, ip: nat, h: nat, table: array<int>, t: TableType, ghost last: nat)
    returns (b: bool, c: int)
    requires ip + MF_LIMIT <= |s| && h == HashPosition(s, ip, t) && TableBelow(table[..], t, ip, |s|)
    requires last != ip ==> InSlot(s, table[..], t, last)
    modifies table
    ensures TableBelow(table[..], t, ip + 1, |s|) && InSlot(s, table[..], t, ip)
    ensures |old(table[..])| == TableSize(t) && c == old(table[h]) && (b <==> MatchAt(s, ip, c)) && (b ==> c >= 0)
    ensures !b ==> !MatchAt(s, ip, last)
  {
    hide HashPosition, SameBytes, MatchAt, TableBelow;
    TableSlot(table[..], t, ip, |s|, h);
    c := table[h];
    MatchBelow(s, ip, c);
    NotItself(s, ip);
    if last != ip && MatchAt(s, ip, last) {
      SlotOfLast(s, t, last, ip);
    }
    TableMoves(table[..], t, ip, ip + 1, |s|);
    Put(ip, h, table, t, ip + 1, |s|);
    b := Candidate(s, ip, c, t, t != ByU16);
  }

  lemma StrideGrows(acceleration: nat, k: nat)
    requires acceleration >= 1
    ensures Stride(acceleration, k) >= 1 && (k > 0 ==> Stride(acceleration, k) >= acceleration)
    ensures Stride(acceleration, k + 1) == (64 * acceleration + k) / 64
  {
  }

  lemma SearchStarts(s: seq<byte>, start: nat, acceleration: nat)
    ensures Scheduled([start], start, acceleration) && PassedOver(s, [start], 0) && Stride(acceleration, 0) == 1
  {
  }

  /** Extends a match backwards as far as bytes agree. */
  method CatchUp(s: seq<byte>, anchor: nat, ip0: nat, m0: nat) returns (ip: nat, m: nat)
    requires anchor <= ip0 && ip0 + MF_LIMIT <= |s| && MatchAt(s, ip0, m0)
    ensures anchor <= ip <= ip0 && ip - m == ip0 - m0 && MatchAt(s, ip, m)
    ensures SameBytes(s, ip, m, ip0 + 4 - ip)
    ensures ip == anchor || m == 0 || s[ip - 1] != s[m - 1]
  {
    ip, m := ip0, m0;
    while ip > anchor && m > 0 && s[ip - 1] == s[m - 1]
      invariant anchor <= ip <= ip0 && ip - m == ip0 - m0 && MatchAt(s, ip, m)
      invariant SameBytes(s, ip, m, ip0 + 4 - ip)
    {
      assert SameBytes(s, ip - 1, m - 1, 1);
      PrefixGrows(s, ip - 1, m - 1, 1, ip0 + 4 - ip);
      ip := ip - 1;
      m := m - 1;
      assert SameBytes(s, ip, m, 4);
    }
  }
}
