/** LZ4_decompress_generic in its two uses: bounded by its input, and on blocks that it may trust. */
module Lz4Decode {
  import opened Bytes
  import opened Lz4Format
  import opened Lz4Copy
  import opened Lz4Checked

  // ----- length fields

  /** A literal length that a trusted block spells: it fits the block and 32 bits. */
  predicate Spelled(s: seq<byte>, start: nat) {
    var r := ReadLength(s, start, RUN_MASK);
    r.Some? && r.value.0 + r.value.1 <= |s| && r.value.0 < U32_MODULUS
  }

  /** The additional literal length bytes, added up in 32 bits; bounded by the input the loop stops 15 bytes early. */
  method ReadLiteralLength(src: seq<byte>, start: nat, iend: nat, safe: bool, ghost s: seq<byte>)
    returns (length: nat, ip: nat)
    requires s <= src && start < |src| && (safe ==> |s| == iend && start <= iend + 1)
    requires safe || Spelled(s, start)
    ensures start < ip
    ensures start < |s| ==> ReadLiterals(s, start, RUN_MASK) == Some((length, ip))
    ensures start >= |s| ==> ip > |s|
  {
    hide ReadLiterals, ReadLength;
    length, ip := 15, start;
    ghost var r := ReadLength(s, start, RUN_MASK);
    if !safe {
      LengthInside(s, start, RUN_MASK);
    }
    while true
      invariant start <= ip < |src| && (ip > start ==> ip < |s|)
      invariant start < |s| ==> ReadLiterals(s, ip, length) == ReadLiterals(s, start, RUN_MASK)
      invariant !safe ==> ip < |s| && ReadLength(s, ip, length) == r
      decreases |src| - ip
    {
      var b := src[ip];
      if ip < |s| {
        LiteralByte(s, ip, length);
      }
      if !safe {
        TrustedByte(s, ip, length, r);
      }
      ip := ip + 1;
      length := (length + b as nat) % U32_MODULUS;
      if !((if safe then ip < iend - 15 else true) && b == 255) {
        return;
      }
    }
  }

  lemma LiteralByte(s: seq<byte>, ip: nat, sum: nat)
    requires ip < |s|
    ensures var next := (sum + s[ip]) % U32_MODULUS;
            ReadLiterals(s, ip, sum)
            == if ip + 1 + RUN_MASK < |s| && s[ip] == 255 then ReadLiterals(s, ip + 1, next) else Some((next, ip + 1))
  {
  }

  lemma LengthInside(s: seq<byte>, ip: nat, sum: nat)
    requires ReadLength(s, ip, sum).Some?
    ensures ip < |s|
  {
  }

  /** A length byte of a trusted block is followed by at least as many literals. */
  lemma TrustedByte(s: seq<byte>, ip: nat, sum: nat, r: Option<(nat, nat)>)
    requires ip < |s| && ReadLength(s, ip, sum) == r && r.Some?
    requires r.value.0 + r.value.1 <= |s| && r.value.0 < U32_MODULUS
    ensures sum + s[ip] < U32_MODULUS
    ensures s[ip] == 255 ==> ip + 1 + RUN_MASK < |s| && ReadLength(s, ip + 1, sum + 255) == r && ip + 1 < |s|
  {
    if s[ip] == 255 {
      ReadLengthBounds(s, ip + 1, sum + 255);
    }
  }

  /** The additional match length bytes; bounded by the input the loop fails within 5 bytes of the end. */
  method ReadMatchLength(src: seq<byte>, start: nat, iend: nat, safe: bool, ghost s: seq<byte>)
    returns (ok: bool, length: nat, ip: nat)
    requires s <= src && start < |s| && (safe ==> |s| == iend)
    requires safe || ReadMatch(s, start, ML_MASK).Some?
    ensures ok <==> ReadMatch(s, start, ML_MASK).Some?
    ensures ok ==> ReadMatch(s, start, ML_MASK) == Some((length, ip))
  {
    ok, length, ip := true, 15, start;
    while true
      invariant start <= ip < |s|
      invariant ReadMatch(s, ip, length) == ReadMatch(s, start, ML_MASK)
      decreases |src| - ip
    {
      var b := src[ip];
      ip := ip + 1;
      if safe && ip > iend - LAST_LITERALS {
        return false, length, ip;
      }
      length := (length + b as nat) % U32_MODULUS;
      if b != 255 {
        return;
      }
    }
  }

  // ----- one sequence

  datatype Outcome = Continue | Done | Error

  /** `out1` and `ip1` are where a step `p` from `out` leads that has a match. */
  ghost predicate Advanced(s: seq<byte>, p: Parsed, out: seq<byte>, ip1: nat, out1: seq<byte>) {
    && p.Match? && p.start + p.count <= |s| && ip1 == p.next
    && out1 == CopyMatch(out + s[p.start..p.start + p.count], p.offset, p.length)
  }

  /** The copies of the shortcut: 16 bytes of which `ll` count, then 18 of which `ml` count. */
  method ShortcutCopies(src: seq<byte>, dst: array<byte>, base: nat, ip: nat, op: nat, ll: nat, off: nat, ml: nat)
    requires ll <= 14 && ml <= 18 && ip + 16 <= |src| && base <= op && op + 32 <= dst.Length
    requires 8 <= off && base + off <= op + ll
    modifies dst
    ensures forall i :: 0 <= i < dst.Length && !(op <= i < op + 32) ==> dst[i] == old(dst[i])
    ensures dst[base..op + ll + ml] == CopyMatch(old(dst[base..op]) + src[ip..ip + ll], off, ml)
  {
    hide CopyMatch;
    Memcpy(dst, op, src, ip, 16);
    Appended(dst[..], old(dst[..]), base, op, src, ip, ll);
    ghost var out := dst[base..op + ll];
    CopyEighteen(dst, op + ll, op + ll - off);
    assert dst[base..op + ll] == out;
    ShortRepeats(dst[..], base, op + ll, off, ml);
  }

  lemma ShortRepeats(d: seq<byte>, base: nat, op: nat, off: nat, ml: nat)
    requires base + off <= op && 8 <= off && op + ml <= |d|
    requires forall i :: op <= i < op + ml ==> d[i] == d[i - off]
    ensures d[base..op + ml] == CopyMatch(d[base..op], off, ml)
  {
    hide CopyMatch;
    var r := d[base..op + ml];
    forall i | op - base <= i < |r| ensures r[i] == r[i - off] {
      assert r[i] == d[base + i] && r[i - off] == d[base + (i - off)];
    }
    ShortMatch(r, op - base, off);
    SubSlice(d, base, op + ml, 0, op - base);
  }

  /**
    The shortcut for few literals and a short match that does not overlap: fixed-size copies that
    overshoot. It is taken exactly where its test says, which is where the format has a match, and lands there.
  */
  method Shortcut(src: seq<byte>, dst: array<byte>, ip0: nat, op0: nat, base: nat, iend: nat, oend: nat)
    returns (taken: bool, ip: nat, op: nat)
    requires ip0 < |src| && iend <= |src| && base <= op0 <= oend <= dst.Length
    modifies dst
    ensures forall i :: 0 <= i < dst.Length && !(op0 <= i < oend) ==> dst[i] == old(dst[i])
    ensures taken <==> Quick(src[..iend], ip0, op0 - base, oend - base)
    ensures taken ==>
              op0 <= op <= oend
              && Advanced(src[..iend], Parse(src[..iend], ip0, op0 - base), old(dst[base..op0]), ip, dst[base..op])
    ensures !taken ==> op == op0 && dst[..] == old(dst[..])
  {
    hide Parse, CopyMatch, Read16;
    taken, ip, op := false, ip0 + 1, op0;
    var token := src[ip0];
    if ip + 14 + 2 <= iend && op + 14 + 18 <= oend && token < 240 && token % 16 != 15 {
      var ll: nat := token / 16;
      var off := Read16(src, ip + ll);
      ghost var s := src[..iend];
      PrefixRead16(s, src, ip + ll);
      if off >= 8 && op + ll - off >= base {
        var ml: nat := token % 16 + MIN_MATCH;
        ShortcutCopies(src, dst, base, ip, op, ll, off, ml);
        QuickParse(s, ip0, op0 - base, oend - base);
        PrefixSlice(s, src, ip, ip + ll);
        op := op + ll + ml;
        ip := ip + ll + 2;
        taken := true;
      }
    }
  }

  lemma PrefixRead16(s: seq<byte>, src: seq<byte>, i: nat)
    requires s <= src && i + 2 <= |s|
    ensures Read16(s, i) == Read16(src, i)
  {
  }

  method CopyEighteen(dst: array<byte>, op: nat, m: nat)
    requires m + 8 <= op && op + 18 <= dst.Length
    modifies dst
    ensures forall i :: op <= i < op + 18 ==> dst[i] == dst[i - (op - m)]
    ensures forall i :: 0 <= i < dst.Length && !(op <= i < op + 18) ==> dst[i] == old(dst[i])
  {
    MemcpyWithin(dst, op, m, 8);
    MemcpyWithin(dst, op + 8, m + 8, 8);
    MemcpyWithin(dst, op + 16, m + 16, 2);
  }

  lemma ShortMatch(r: seq<byte>, n: nat, offset: nat)
    requires 8 <= offset <= n <= |r|
    requires forall i :: n <= i < |r| ==> r[i] == r[i - offset]
    ensures r == CopyMatch(r[..n], offset, |r| - n)
  {
    forall i | n <= i < |r| ensures Repeats(r, i, offset) {
    }
    CopyMatchUnique(r[..n], offset, r);
  }

  method ReadLiteralField(src: seq<byte>, ip0: nat, iend: nat, safe: bool, ghost s: seq<byte>)
    returns (length: nat, ip: nat)
    requires ip0 < |src| && s <= src && (safe ==> |s| == iend && ip0 <= iend)
    requires (safe && iend + 2 <= |src|) || !Outside(s, ip0)
    requires safe || (ip0 < |s| && (s[ip0] / 16 == 15 ==> Spelled(s, ip0 + 1)))
    ensures ip0 < ip
    ensures ip0 < |s| && LiteralField(s, ip0).Some? ==> LiteralField(s, ip0) == Some((length, ip))
    ensures ip0 >= |s| || LiteralField(s, ip0).None? ==> ip > |s|
  {
    hide ReadLiterals, Spelled;
    length, ip := src[ip0] as int / 16, ip0 + 1;
    if length == 15 {
      length, ip := ReadLiteralLength(src, ip, iend, safe, s);
    }
  }

  /** Copies `length` literals, exactly or in words. */
  method CopyLiterals(dst: array<byte>, base: nat, op: nat, src: seq<byte>, ip: nat, length: nat, oend: nat, wild: bool)
    requires base <= op && op + length <= oend <= dst.Length && ip + length <= |src|
    requires wild ==> op + length + 8 <= oend && ip + length + 8 <= |src|
    modifies dst
    ensures forall i :: 0 <= i < dst.Length && !(op <= i < oend) ==> dst[i] == old(dst[i])
    ensures dst[base..op + length] == old(dst[base..op]) + src[ip..ip + length]
  {
    if wild {
      ghost var end := WildCopy(dst, op, src, ip, op + length);
    } else {
      Memcpy(dst, op, src, ip, length);
    }
    Appended(dst[..], old(dst[..]), base, op, src, ip, length);
  }

  lemma Appended(now: seq<byte>, was: seq<byte>, base: nat, op: nat, src: seq<byte>, ip: nat, length: nat)
    requires |now| == |was| && base <= op && op + length <= |now| && ip + length <= |src|
    requires forall i :: base <= i < op + length ==> now[i] == if op <= i then src[i - op + ip] else was[i]
    ensures now[base..op + length] == was[base..op] + src[ip..ip + length]
  {
    var a, b := now[base..op + length], was[base..op] + src[ip..ip + length];
    forall l | 0 <= l < |a| ensures a[l] == b[l] {
      assert a[l] == now[base + l];
    }
    assert a == b;
  }

  /** What a trusted block says about the literals of its next sequence. */
  lemma TrustedLiterals(s: seq<byte>, ip: nat, done: nat, room: nat)
    requires Conforms(s, ip, done, room) && room < 0x8000_0000
    ensures ip < |s| && !Outside(s, ip) && (s[ip] / 16 == 15 ==> Spelled(s, ip + 1))
    ensures var r := LiteralStep(s, ip, done, room);
            !r.Bad? && (r.Last? ==> done + (|s| - r.start) == room)
  {
    hide ReadLength, ReadLiterals, LiteralStep, LiteralField;
    ConformLiterals(s, ip, done, room, room);
    if s[ip] / 16 == 15 {
      ReadLengthBounds(s, ip + 1, RUN_MASK);
    }
  }

  /** The literals of a sequence: the last ones end the block, others leave the cursor before the offset. */
  method Literals(src: seq<byte>, dst: array<byte>, ip0: nat, op0: nat, base: nat, iend: nat, oend: nat, safe: bool,
      ghost s: seq<byte>)
    returns (o: Outcome, ip: nat, op: nat)
    requires s <= src && ip0 < |src| && (safe ==> |s| == iend && ip0 <= iend) && base <= op0 <= oend <= dst.Length
    requires (safe && iend + 2 <= |src|) || !Outside(s, ip0)
    requires safe || (Conforms(s, ip0, op0 - base, oend - base) && oend - base < 0x8000_0000)
    modifies dst
    ensures forall i :: 0 <= i < dst.Length && !(op0 <= i < oend) ==> dst[i] == old(dst[i])
    ensures var r := LiteralStep(s, ip0, op0 - base, oend - base);
            && (o.Error? <==> r.Bad?) && (o.Done? <==> r.Last?)
            && (r.Last? ==>
                  ip == |s| && op == op0 + (|s| - r.start) && dst[base..op] == old(dst[base..op0]) + s[r.start..])
            && (r.Before? ==> ip == r.start + r.count && op == op0 + r.count
                              && dst[base..op] == old(dst[base..op0]) + s[r.start..ip])
  {
    hide ReadLength, ReadLiterals, Conforms, LiteralField, Outside, Spelled;
    if !safe {
      TrustedLiterals(s, ip0, op0 - base, oend - base);
    }
    var length: nat;
    length, ip := ReadLiteralField(src, ip0, iend, safe, s);
    op := op0;
    var cpy := op + length;
    if (safe && (cpy > oend - MF_LIMIT || ip + length > iend - (2 + 1 + LAST_LITERALS)))
       || (!safe && cpy > oend - 8) {
      if !safe && cpy != oend {
        return Error, ip, op;
      }
      if safe && (ip + length != iend || cpy > oend) {
        return Error, ip, op;
      }
      CopyLiterals(dst, base, op, src, ip, length, oend, false);
      PrefixSlice(s, src, ip, ip + length);
      ip := ip + length;
      op := op + length;
      return Done, ip, op;
    }
    CopyLiterals(dst, base, op, src, ip, length, oend, true);
    PrefixSlice(s, src, ip, ip + length);
    ip := ip + length;
    op := cpy;
    o := Continue;
  }

  method WriteOffset(dst: array<byte>, op: nat, offset: nat)
    requires op + 4 <= dst.Length
    modifies dst
    ensures forall i :: 0 <= i < dst.Length ==>
              dst[i] == if op <= i < op + 4 then Le32(offset)[i - op] else old(dst[i])
  {
    var w := Le32(offset);
    Memcpy(dst, op, w, 0, 4);
  }

  /** The sum of two 32-bit words in 32 bits. */
  function Add32(a: nat, b: nat): nat {
    (a + b) % U32_MODULUS
  }

  /**
    The match length, and with it the end of the match. Bounded by the input it is tested against `address`,
    that of the output buffer: the sum is tested as the length is read, and MINMATCH comes on top.
  */
  method MatchEnd(src: seq<byte>, q: nat, op: nat, nibble: nat, iend: nat, oend: nat, safe: bool, address: nat,
      ghost s: seq<byte>)
    returns (ok: bool, cpy: nat, ip: nat)
    requires s <= src && q < |s| && nibble < 16 && (safe ==> |s| == iend && Placed(address, oend)) && op <= oend
    requires safe && nibble == 15 ==> !InWindow(address + op, ReadMatch(s, q, ML_MASK))
    requires safe || (MatchField(s, q, nibble).Some? && MatchField(s, q, nibble).value.0 + MIN_MATCH < U32_MODULUS)
    ensures ok ==> MatchField(s, q, nibble) == Some((cpy - op - MIN_MATCH, ip)) && cpy - op < U32_MODULUS
    ensures !ok ==> MatchField(s, q, nibble).None? || op + MatchField(s, q, nibble).value.0 > oend
  {
    hide ReadMatch;
    ip := q;
    var length := nibble;
    if length == 15 {
      ok, length, ip := ReadMatchLength(src, ip, iend, safe, s);
      if !ok {
        return false, op, ip;
      }
      if safe && Add32(address + op, length) < address + op {
        return false, op, ip;
      }
    }
    length := length + MIN_MATCH;
    cpy := if safe then Add32(address + op, length) - address else op + length;
    ok := true;
  }

  /** The match of a sequence: offset, length and copy. */
  method MatchPart(src: seq<byte>, dst: array<byte>, ghost start: nat, q: nat, op0: nat, nibble: nat, base: nat,
      iend: nat, oend: nat, safe: bool, address: nat, ghost s: seq<byte>)
    returns (o: Outcome, ip: nat, op: nat)
    requires s <= src && start <= q && q + 8 <= |s| && nibble < 16 && (safe ==> |s| == iend)
    requires base <= op0 && op0 + MF_LIMIT <= oend <= dst.Length
    requires safe ==> Placed(address, oend)
    requires safe && nibble == 15 && Read16(s, q) <= op0 - base ==>
               !InWindow(address + op0, ReadMatch(s, q + 2, ML_MASK))
    requires safe || MatchStep(s, start, q, nibble, op0 - base, oend - base).Match?
    modifies dst
    ensures forall i :: 0 <= i < dst.Length && !(op0 <= i < oend) ==> dst[i] == old(dst[i])
    ensures var p := MatchStep(s, start, q, nibble, op0 - base, oend - base);
            && !o.Done? && (o.Error? <==> p.Malformed?)
            && (p.Match? ==> ip == p.next && op == op0 + p.length
                             && dst[base..op] == CopyMatch(old(dst[base..op0]), p.offset, p.length))
  {
    hide ReadMatch, CopyMatch, Read16, InWindow, Placed, MatchField;
    var offset := Read16(src, q);
    PrefixRead16(s, src, q);
    ip, op := q + 2, op0;
    if safe && op - offset < base {
      return Error, ip, op;
    }
    WriteOffset(dst, op, offset);
    assert dst[base..op] == old(dst[base..op0]);
    var ok, cpy;
    ok, cpy, ip := MatchEnd(src, ip, op, nibble, iend, oend, safe, address, s);
    if !ok {
      return Error, ip, op;
    }
    ok := CopyMatchBytes(dst, base, op, offset, cpy - op, oend);
    if !ok {
      return Error, ip, op;
    }
    op := cpy;
    o := Continue;
  }

  /** One pass of the general path: its step, and the output that the step yields. */
  method General(src: seq<byte>, dst: array<byte>, ip0: nat, op0: nat, base: nat, iend: nat, oend: nat, safe: bool,
      address: nat, ghost s: seq<byte>)
    returns (o: Outcome, ip: nat, op: nat)
    requires s <= src && ip0 < |src| && (safe ==> |s| == iend && ip0 <= iend) && base <= op0 <= oend <= dst.Length
    requires (safe && iend + 2 <= |src|) || !Outside(s, ip0)
    requires safe ==> Placed(address, oend) && !Quick(s, ip0, op0 - base, oend - base)
                      && !Window(s, ip0, op0 - base, oend - base, address + base)
    requires safe || (Conforms(s, ip0, op0 - base, oend - base) && oend - base < 0x8000_0000)
    modifies dst
    ensures forall i :: 0 <= i < dst.Length && !(op0 <= i < oend) ==> dst[i] == old(dst[i])
    ensures var p := GeneralStep(s, ip0, op0 - base, oend - base);
            && (o.Error? <==> p.Malformed?) && (o.Done? <==> p.Final?)
            && (p.Final? ==> ip == |s| && op == op0 + (|s| - p.start) && op <= oend
                             && dst[base..op] == old(dst[base..op0]) + s[p.start..])
            && (p.Match? ==> op0 <= op <= oend && Advanced(s, p, old(dst[base..op0]), ip, dst[base..op]))
  {
    hide LiteralStep, MatchStep, Conforms, CopyMatch, Outside;
    if !safe {
      TrustedStep(s, ip0, op0 - base, oend - base);
    }
    o, ip, op := Literals(src, dst, ip0, op0, base, iend, oend, safe, s);
    if o.Continue? {
      ghost var start := LiteralStep(s, ip0, op0 - base, oend - base).start;
      o, ip, op := MatchPart(src, dst, start, ip, op, src[ip0] as int % 16, base, iend, oend, safe, address, s);
    }
  }

  lemma TrustedStep(s: seq<byte>, ip: nat, done: nat, room: nat)
    requires Conforms(s, ip, done, room) && room < 0x8000_0000
    ensures !GeneralStep(s, ip, done, room).Malformed?
  {
    hide GeneralStep, Step;
    ConformStep(s, ip, done, room, room);
  }

  // ----- the loop

  /** After a step with a match the loop stands before the rest of the same result. */
  lemma StepAdvances(s: seq<byte>, ip: nat, out: seq<byte>, ip1: nat, out1: seq<byte>, room: nat, address: nat)
    requires Advanced(s, Step(s, ip, |out|, room), out, ip1, out1)
    ensures Checked(s, ip, out, room) == Checked(s, ip1, out1, room) && ip < ip1 <= |s|
    ensures Overreads(s, ip1, |out1|, room) ==> Overreads(s, ip, |out|, room)
    ensures Wraps(s, ip1, |out1|, room, address) ==> Wraps(s, ip, |out|, room, address)
  {
    hide Step, CopyMatch, Outside, Window;
  }

  lemma StepConforms(s: seq<byte>, ip: nat, out: seq<byte>, ip1: nat, out1: seq<byte>, room: nat)
    requires Advanced(s, Step(s, ip, |out|, room), out, ip1, out1)
    requires Conforms(s, ip, |out|, room) && room < 0x8000_0000
    ensures Conforms(s, ip1, |out1|, room)
  {
    hide Step, GeneralStep, CopyMatch, Parse;
    ConformStep(s, ip, |out|, room, room);
  }

  /** A trusted block is not read past its end. */
  lemma TrustedInside(s: seq<byte>, ip: nat, done: nat, room: nat)
    requires Conforms(s, ip, done, room) && room < 0x8000_0000
    ensures ip < |s| && !Outside(s, ip)
  {
    hide Outside, Conforms;
    TrustedLiterals(s, ip, done, room);
  }

  lemma InsideHere(s: seq<byte>, ip: nat, done: nat, room: nat)
    requires !Overreads(s, ip, done, room)
    ensures !Outside(s, ip) && ip < |s|
  {
  }

  lemma FinalChecked(s: seq<byte>, ip: nat, out: seq<byte>, room: nat)
    ensures var p := Step(s, ip, |out|, room);
            && (p.Malformed? ==> Checked(s, ip, out, room) == None)
            && (p.Final? ==> Checked(s, ip, out, room) == Some(out + s[p.start..]))
  {
    hide Step;
  }

  /** How the loop stands at `ip` with the output `out`, for the block `s`. */
  ghost predicate Stands(s: seq<byte>, ip: nat, out: seq<byte>, room: nat, safe: bool, slack: bool, address: nat) {
    && Checked(s, ip, out, room) == Checked(s, 0, [], room)
    && (safe ==> ip <= |s| && (slack || !Overreads(s, ip, |out|, room)) && !Wraps(s, ip, |out|, room, address))
    && (!safe ==> Conforms(s, ip, |out|, room))
  }

  lemma StandsOutsideWindow(s: seq<byte>, ip: nat, out: seq<byte>, room: nat, safe: bool, slack: bool, address: nat)
    requires Stands(s, ip, out, room, safe, slack, address) && safe
    ensures !Window(s, ip, |out|, room, address)
  {
  }

  lemma StandsInside(s: seq<byte>, ip: nat, out: seq<byte>, room: nat, safe: bool, slack: bool,
      address: nat)
    requires Stands(s, ip, out, room, safe, slack, address) && room < 0x8000_0000
    ensures (safe && slack && ip <= |s|) || (ip < |s| && !Outside(s, ip))
    ensures !safe ==> GeneralStep(s, ip, |out|, room) == Step(s, ip, |out|, room)
  {
    hide Outside, Conforms, Checked, Overreads, GeneralStep, Step;
    if !safe {
      TrustedInside(s, ip, |out|, room);
      ConformStep(s, ip, |out|, room, room);
    } else if !slack {
      InsideHere(s, ip, |out|, room);
    }
  }

  lemma StandsOn(s: seq<byte>, ip: nat, out: seq<byte>, ip1: nat, out1: seq<byte>, room: nat, safe: bool, slack: bool,
      address: nat)
    requires Stands(s, ip, out, room, safe, slack, address) && room < 0x8000_0000
    requires Advanced(s, Step(s, ip, |out|, room), out, ip1, out1)
    ensures Stands(s, ip1, out1, room, safe, slack, address) && ip < ip1 <= |s|
  {
    hide Conforms, Checked, Overreads, Step, Advanced;
    StepAdvances(s, ip, out, ip1, out1, room, address);
    if !safe {
      StepConforms(s, ip, out, ip1, out1, room);
    }
  }

  /** One round: the shortcut, or else the general path; together they are the step. */
  method Round(src: seq<byte>, dst: array<byte>, ip0: nat, op0: nat, base: nat, iend: nat, oend: nat, safe: bool,
      address: nat, ghost s: seq<byte>, ghost slack: bool)
    returns (o: Outcome, ip: nat, op: nat)
    requires s <= src && (if safe then |s| == iend else iend == 0) && base <= op0 <= oend <= dst.Length
    requires oend - base < 0x8000_0000 && (slack ==> |s| + 2 <= |src|) && (safe ==> Placed(address, oend))
    requires Stands(s, ip0, dst[base..op0], oend - base, safe, slack, address + base)
    modifies dst
    ensures forall i :: 0 <= i < dst.Length && !(op0 <= i < oend) ==> dst[i] == old(dst[i])
    ensures var p := Step(s, ip0, op0 - base, oend - base);
            && (o.Error? <==> p.Malformed?) && (o.Done? <==> p.Final?)
            && (p.Final? ==> ip == |s| && op == op0 + (|s| - p.start) && op <= oend
                             && dst[base..op] == old(dst[base..op0]) + s[p.start..])
            && (p.Match? ==> op0 <= op <= oend && Advanced(s, p, old(dst[base..op0]), ip, dst[base..op]))
  {
    hide Stands, Advanced, Outside, GeneralStep, Conforms, Parse, Quick;
    StandsInside(s, ip0, dst[base..op0], oend - base, safe, slack, address + base);
    StandsTrusted(s, ip0, dst[base..op0], oend - base, safe, slack, address + base);
    if safe {
      StandsOutsideWindow(s, ip0, dst[base..op0], oend - base, safe, slack, address + base);
    }
    assert src[..iend] == if safe then s else [];
    NeverQuick(ip0, op0 - base, oend - base);
    var taken;
    taken, ip, op := Shortcut(src, dst, ip0, op0, base, iend, oend);
    if taken {
      QuickParse(s, ip0, op0 - base, oend - base);
      MatchOfAdvanced(s, Parse(s, ip0, op0 - base), old(dst[base..op0]), ip, dst[base..op]);
      o := Continue;
    } else {
      assert dst[base..op0] == old(dst[base..op0]);
      o, ip, op := General(src, dst, ip0, op0, base, iend, oend, safe, address, s);
      NotQuick(s, ip0, op0 - base, oend - base);
    }
  }

  lemma StandsTrusted(s: seq<byte>, ip: nat, out: seq<byte>, room: nat, safe: bool, slack: bool,
      address: nat)
    requires Stands(s, ip, out, room, safe, slack, address)
    ensures !safe ==> Conforms(s, ip, |out|, room)
  {
  }

  lemma NeverQuick(ip: nat, done: nat, room: nat)
    ensures !Quick([], ip, done, room)
  {
  }

  lemma NotQuick(s: seq<byte>, ip: nat, done: nat, room: nat)
    ensures !Quick(s, ip, done, room) ==> Step(s, ip, done, room) == GeneralStep(s, ip, done, room)
  {
  }

  lemma MatchOfAdvanced(s: seq<byte>, p: Parsed, out: seq<byte>, ip1: nat, out1: seq<byte>)
    requires Advanced(s, p, out, ip1, out1)
    ensures p.Match?
  {
  }

  /**
    LZ4_decompress_generic without a dictionary; `safe` is decoding bounded by the input. `s` is the
    block: all of the input when bounded by it, and otherwise what the output size implies. Where the
    input is read past its end, two bytes more must be readable.
  */
  method DecompressGeneric(src: seq<byte>, dst: array<byte>, base: nat, srcSize: nat, outputSize: nat, safe: bool,
      address: nat, ghost s: seq<byte>)
    returns (r: int)
    requires s <= src && (safe ==> |s| == srcSize) && (!safe ==> srcSize == 0)
    requires base + outputSize <= dst.Length && outputSize < 0x8000_0000
    requires safe || Conforms(s, 0, 0, outputSize)
    requires safe && outputSize > 0 ==> srcSize + 2 <= |src| || !Overreads(s, 0, 0, outputSize)
    requires safe ==> Placed(address, base + outputSize) && !Wraps(s, 0, 0, outputSize, address + base)
    modifies dst
    ensures forall i :: 0 <= i < dst.Length && !(base <= i < base + outputSize) ==> dst[i] == old(dst[i])
    ensures safe ==> (r >= 0 <==> Result(s, outputSize).Some?)
    ensures safe && r >= 0 ==> r <= outputSize && Result(s, outputSize) == Some(dst[base..base + r])
    ensures !safe ==> r == |s| && Decode(s, 0, []) == Some(dst[base..base + outputSize])
  {
    hide Parse, Decode, Conforms, Checked, Step, Advanced, Stands, Overreads, Wraps;
    var iend := srcSize;
    assert dst[base..base] == [];
    if outputSize == 0 {
      OneZero();
      if !safe {
        ConformEmpty(s);
        return if src[0] == 0 then 1 else -1;
      }
      return if srcSize == 1 && src[0] == 0 then 0 else -1;
    }
    ghost var slack := safe && srcSize + 2 <= |src|;
    if !safe {
      ConformDecodes(s, 0, [], outputSize, outputSize);
    }
    var ip, op, oend: nat := 0, base, base + outputSize;
    StandsAtStart(s, outputSize, safe, slack, address + base);
    while true
      invariant base <= op <= oend
      invariant forall i :: 0 <= i < dst.Length && !(base <= i < oend) ==> dst[i] == old(dst[i])
      invariant Stands(s, ip, dst[base..op], outputSize, safe, slack, address + base)
      decreases |s| - ip
    {
      ghost var ip0, op0, out := ip, op, dst[base..op];
      var o;
      o, ip, op := Round(src, dst, ip, op, base, iend, oend, safe, address, s, slack);
      FinalChecked(s, ip0, out, outputSize);
      StandsResult(s, ip0, out, outputSize, safe, slack, address + base);
      if o.Error? {
        return -(ip as int) - 1;
      }
      if o.Done? {
        return if safe then op - base else ip;
      }
      StandsOn(s, ip0, out, ip, dst[base..op], outputSize, safe, slack, address + base);
    }
  }

  lemma StandsAtStart(s: seq<byte>, room: nat, safe: bool, slack: bool,
      address: nat)
    requires safe || Conforms(s, 0, 0, room)
    requires safe ==> (slack || !Overreads(s, 0, 0, room)) && !Wraps(s, 0, 0, room, address)
    ensures Stands(s, 0, [], room, safe, slack, address)
  {
  }

  /** What the loop has still to yield; a trusted block fills the output. */
  lemma StandsResult(s: seq<byte>, ip: nat, out: seq<byte>, room: nat, safe: bool, slack: bool,
      address: nat)
    requires Stands(s, ip, out, room, safe, slack, address) && room < 0x8000_0000
    ensures Checked(s, ip, out, room) == Checked(s, 0, [], room)
    ensures !safe ==> !Step(s, ip, |out|, room).Malformed?
    ensures !safe && Step(s, ip, |out|, room).Final? ==> |out| + (|s| - Step(s, ip, |out|, room).start) == room
  {
    hide Checked, Overreads, GeneralStep, Step, Parse;
    if !safe {
      ConformStep(s, ip, |out|, room, room);
    }
  }

  // ----- entry points

  lemma NoRoomNoWrap(s: seq<byte>, address: nat)
    ensures !Wraps(s, 0, 0, 0, address)
  {
    hide MatchStep;
  }

  /** A well-formed block is accepted wherever its data fit, and never read past its end. */
  lemma EncodesAccepted(bytes: seq<byte>, data: seq<byte>, room: nat, address: nat)
    requires Encodes(bytes, data) && |data| <= room < 0x8000_0000
    ensures Result(bytes, room) == Some(data)
    ensures room > 0 ==> !Overreads(bytes, 0, 0, room)
    ensures Placed(address, room) ==> !Wraps(bytes, 0, 0, room, address)
  {
    hide Encodes, Conforms, Checked, Decode, Overreads, Wraps, Placed;
    EncodesConforms(bytes, data);
    EncodesDecodes(bytes, data);
    if room == 0 {
      ConformEmpty(bytes);
      NoRoomNoWrap(bytes, address);
    } else {
      ConformDecodes(bytes, 0, [], |data|, room);
      if Overreads(bytes, 0, 0, room) {
        OverreadsFail(bytes, 0, [], room);
      }
      if Placed(address, room) && Wraps(bytes, 0, 0, room, address) {
        WrapsFail(bytes, 0, [], room, address);
      }
    }
  }

  /**
    LZ4_decompress_safe into a buffer at `address`. It accepts exactly what the source's tests accept and
    yields `Result`. Below 16843017 bytes that is what the format gives the input, when an offset of zero is
    read as the source reads it; and a well-formed block whose data fit is accepted at any size. What it does
    on an input that meets the top of the address space is not described.
  */
  method DecompressSafe(source: seq<byte>, dest: array<byte>, compressedSize: nat, maxDecompressedSize: nat,
      address: nat)
    returns (r: int)
    requires compressedSize <= |source| && maxDecompressedSize <= dest.Length && maxDecompressedSize < 0x8000_0000
    requires Placed(address, maxDecompressedSize)
             && !Wraps(source[..compressedSize], 0, 0, maxDecompressedSize, address)
    requires maxDecompressedSize > 0 ==>
               compressedSize + 2 <= |source| || !Overreads(source[..compressedSize], 0, 0, maxDecompressedSize)
    modifies dest
    ensures r >= 0 <==> Result(source[..compressedSize], maxDecompressedSize).Some?
    ensures r >= 0 ==>
              r <= maxDecompressedSize && Result(source[..compressedSize], maxDecompressedSize) == Some(dest[..r])
    ensures r >= 0 && compressedSize < SAFE_LIMIT ==> Decode(source[..compressedSize], 0, []) == Some(dest[..r])
    ensures forall data :: Encodes(source[..compressedSize], data) && |data| <= maxDecompressedSize ==>
              r == |data| && dest[..r] == data
    ensures dest[maxDecompressedSize..] == old(dest[maxDecompressedSize..])
  {
    hide Encodes, Decode, Result, Overreads, Wraps;
    ghost var s := source[..compressedSize];
    forall data | Encodes(s, data) && |data| <= maxDecompressedSize
      ensures Result(s, maxDecompressedSize) == Some(data)
    {
      EncodesAccepted(s, data, maxDecompressedSize, address);
    }
    r := DecompressGeneric(source, dest, 0, compressedSize, maxDecompressedSize, true, address, s);
    if r >= 0 {
      assert dest[0..0 + r] == dest[..r];
      if compressedSize < SAFE_LIMIT {
        ResultSound(s, maxDecompressedSize);
      }
    }
  }

  /**
    LZ4_decompress_fast, writing at `base`: the input holds a well-formed block for `data`, whose
    size is given. Returns the size of that block.
  */
  method DecompressFast(source: seq<byte>, dest: array<byte>, base: nat, originalSize: nat, ghost s: seq<byte>,
      ghost data: seq<byte>)
    returns (r: int)
    requires s <= source && Encodes(s, data) && |data| == originalSize && base + originalSize <= dest.Length
    requires originalSize < 0x8000_0000
    modifies dest
    ensures r == |s|
    ensures dest[..] == old(dest[..base]) + data + old(dest[base + originalSize..])
  {
    hide Encodes, Decode, Conforms;
    EncodesConforms(s, data);
    EncodesDecodes(s, data);
    r := DecompressGeneric(source, dest, base, 0, originalSize, false, 0, s);
    assert dest[base..base + originalSize] == data;
  }
}
