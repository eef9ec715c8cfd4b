/** Which inputs the safe decoder accepts, by the fields that the reference decoder reads. */
module Lz4Accept {
  import opened Bytes
  import opened Lz4Format
  import opened Lz4Checked

  /** Few literals, a short match from at least 8 bytes back, and 16 bytes of input and 32 of output to spare. */
  predicate ShortStep(s: seq<byte>, ip: nat, done: nat, room: nat, p: Parsed) {
    p.Match? && ip + 17 <= |s| && done + 32 <= room && p.count <= 14 && p.length <= 18 && p.offset >= 8
  }

  /**
    Or: 8 bytes of input behind the literals, 12 of output, 5 bytes of input behind a match length that goes on in
    further bytes, and 5 of output behind the match.
  */
  predicate LongStep(s: seq<byte>, ip: nat, done: nat, room: nat, p: Parsed) {
    && p.Match? && p.start + p.count + 8 <= |s| && done + p.count + 12 <= room
    && (p.length >= 19 ==> p.next + 5 <= |s|) && done + p.count + p.length + 5 <= room
  }

  /** The block at `ip` can be read, and every step of it is of one of the two kinds or the last. */
  predicate Acceptable(s: seq<byte>, ip: nat, done: nat, room: nat)
    decreases |s| - ip
  {
    match Parse(s, ip, done)
    case Malformed => false
    case Final(start) => done + (|s| - start) <= room
    case Match(start, count, offset, length, next) =>
      var p := Parse(s, ip, done);
      (ShortStep(s, ip, done, room, p) || LongStep(s, ip, done, room, p))
      && Acceptable(s, next, done + count + length, room)
  }

  predicate StepAllowed(s: seq<byte>, ip: nat, done: nat, room: nat) {
    var p := Parse(s, ip, done);
    && !p.Malformed? && (p.Final? ==> done + (|s| - p.start) <= room)
    && (p.Match? ==> ShortStep(s, ip, done, room, p) || LongStep(s, ip, done, room, p))
  }

  lemma QuickIsShort(s: seq<byte>, ip: nat, done: nat, room: nat)
    ensures Quick(s, ip, done, room) <==> ShortStep(s, ip, done, room, Parse(s, ip, done))
  {
    hide Read16, ReadLength;
    if Quick(s, ip, done, room) {
      QuickParse(s, ip, done, room);
    } else if ShortStep(s, ip, done, room, Parse(s, ip, done)) {
      ShortFields(s, ip, done);
    }
  }

  /** A step with few literals and a short match has both lengths in its token. */
  lemma ShortFields(s: seq<byte>, ip: nat, done: nat)
    requires Parse(s, ip, done).Match? && Parse(s, ip, done).count <= 14 && Parse(s, ip, done).length <= 18
    ensures var p := Parse(s, ip, done);
            && s[ip] < 240 && s[ip] % 16 != 15 && p.start == ip + 1 && p.count == s[ip] as int / 16
            && p.start + p.count + 2 <= |s| && p.offset == Read16(s, p.start + p.count)
  {
    hide Read16, ReadLength;
    ReadLengthBounds(s, ip + 1, 15);
    var p := Parse(s, ip, done);
    ReadLengthBounds(s, p.start + p.count + 2, 15);
    TokenIsNibbles(s[ip]);
  }

  /** The long lengths are those of tokens with a nibble of 15. */
  lemma LongFields(s: seq<byte>, ip: nat, done: nat)
    requires Parse(s, ip, done).Match?
    ensures Parse(s, ip, done).length >= 19 <==> s[ip] % 16 == 15
  {
    hide Read16, ReadLength;
    var p := Parse(s, ip, done);
    ReadLengthBounds(s, p.start + p.count + 2, 15);
  }

  lemma LiteralsRead(s: seq<byte>, ip: nat, done: nat, room: nat)
    requires |s| < SAFE_LIMIT && !Parse(s, ip, done).Malformed?
    ensures ip < |s| && LengthField(s, ip + 1, s[ip] / 16).Some?
    ensures var (count, start) := LengthField(s, ip + 1, s[ip] / 16).value;
            && start + count <= |s| && LiteralField(s, ip) == Some((count, start))
  {
    hide ReadLength, ReadLiterals;
    if s[ip] / 16 == 15 {
      LiteralsAgree(s, ip + 1, 15);
    }
  }

  /** One step is taken exactly if it is allowed. */
  lemma StepIff(s: seq<byte>, ip: nat, done: nat, room: nat)
    requires |s| < SAFE_LIMIT && room < 0x8000_0000 && (ip == 0 ==> done == 0)
    ensures !Step(s, ip, done, room).Malformed? <==> StepAllowed(s, ip, done, room)
    ensures !Step(s, ip, done, room).Malformed? ==> Step(s, ip, done, room) == Parse(s, ip, done)
  {
    hide Quick, GeneralStep, Parse, ShortStep, LongStep;
    QuickIsShort(s, ip, done, room);
    if Quick(s, ip, done, room) {
      QuickParse(s, ip, done, room);
      ShortIsMatch(s, ip, done, room);
    } else {
      GeneralIff(s, ip, done, room);
    }
  }

  lemma ShortIsMatch(s: seq<byte>, ip: nat, done: nat, room: nat)
    requires ShortStep(s, ip, done, room, Parse(s, ip, done))
    ensures Parse(s, ip, done).Match?
  {
  }

  lemma GeneralIff(s: seq<byte>, ip: nat, done: nat, room: nat)
    requires |s| < SAFE_LIMIT && room < 0x8000_0000 && (ip == 0 ==> done == 0) && !Quick(s, ip, done, room)
    ensures var p := Parse(s, ip, done);
            !GeneralStep(s, ip, done, room).Malformed? <==>
              !p.Malformed? && (p.Final? ==> done + (|s| - p.start) <= room)
              && (p.Match? ==> LongStep(s, ip, done, room, p))
    ensures !GeneralStep(s, ip, done, room).Malformed? ==> GeneralStep(s, ip, done, room) == Parse(s, ip, done)
  {
    hide Quick, ReadLength, ReadMatch, ReadLiterals, LiteralField, MatchStep;
    var p := Parse(s, ip, done);
    if !GeneralStep(s, ip, done, room).Malformed? {
      assert Step(s, ip, done, room) == GeneralStep(s, ip, done, room);
      StepSound(s, ip, done, room);
      GeneralLimits(s, ip, done, room);
    } else if p.Final? {
      LiteralsRead(s, ip, done, room);
    } else if p.Match? && LongStep(s, ip, done, room, p) {
      LiteralsRead(s, ip, done, room);
      MatchRead(s, ip, done, room);
    }
  }

  /** What a step of the general path that is taken has tested. */
  lemma GeneralLimits(s: seq<byte>, ip: nat, done: nat, room: nat)
    requires !GeneralStep(s, ip, done, room).Malformed?
    requires GeneralStep(s, ip, done, room) == Parse(s, ip, done)
    ensures var p := Parse(s, ip, done);
            && (p.Final? ==> done + (|s| - p.start) <= room)
            && (p.Match? ==> LongStep(s, ip, done, room, p))
  {
    hide Read16, ReadLength, ReadLiterals, LiteralField, Parse;
    var p := Parse(s, ip, done);
    if p.Match? {
      LongFields(s, ip, done);
    }
  }

  lemma MatchRead(s: seq<byte>, ip: nat, done: nat, room: nat)
    requires |s| < SAFE_LIMIT && room < 0x8000_0000 && Parse(s, ip, done).Match?
    requires LongStep(s, ip, done, room, Parse(s, ip, done))
             && LiteralStep(s, ip, done, room) == Before(Parse(s, ip, done).start, Parse(s, ip, done).count)
    ensures var p := Parse(s, ip, done);
            MatchStep(s, p.start, p.start + p.count, s[ip] as int % 16, done + p.count, room) == p
  {
    hide Read16, ReadLength, ReadMatch, ReadLiterals, LiteralStep;
    var p := Parse(s, ip, done);
    LongFields(s, ip, done);
    if s[ip] % 16 == 15 {
      MatchAgrees(s, p.start + p.count + 2, 15);
    }
  }

  lemma {:induction false} CheckedIff(s: seq<byte>, ip: nat, out: seq<byte>, room: nat)
    requires |s| < SAFE_LIMIT && room < 0x8000_0000 && (ip == 0 ==> out == [])
    ensures Checked(s, ip, out, room).Some? <==> Acceptable(s, ip, |out|, room)
    decreases |s| - ip
  {
    hide Step, Parse, ShortStep, LongStep, CopyMatch;
    StepIff(s, ip, |out|, room);
    var p := Parse(s, ip, |out|);
    if p.Match? {
      CheckedIff(s, p.next, CopyMatch(out + s[p.start..p.start + p.count], p.offset, p.length), room);
    }
  }

  /** Below the limit an input is accepted, with what the reference decoder reads, if and only if it is acceptable. */
  lemma AcceptsExactly(s: seq<byte>, room: nat)
    requires |s| < SAFE_LIMIT && 0 < room < 0x8000_0000
    ensures Result(s, room).Some? <==> Acceptable(s, 0, 0, room)
    ensures Result(s, room).Some? ==> Result(s, room) == Decode(s, 0, [])
  {
    hide Checked, Decode, Acceptable;
    CheckedIff(s, 0, [], room);
    if Result(s, room).Some? {
      ResultSound(s, room);
    }
  }
}
