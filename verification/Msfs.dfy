/**
  Files of the memory-stick file system: a descriptor with a shadow offset over a host file whose device
  may go away at any call, and truncating opens whose data close puts back.
*/
module Msfs {
  import opened Bytes
  import opened Errors
  import opened Host

  // ----- runs without interruptions

  datatype Op = Read(size: nat) | Write(bytes: seq<byte>) | Seek(offset: int, whence: Whence)

  datatype Answer = Bytes(bytes: seq<byte>) | Code(code: int) {
    /** The result of the call: bytes are counted. */
    function Result(): int {
      if Bytes? then |bytes| else code
    }
  }

  /** A file, the position in it, and the position of the first write of a byte or more. */
  datatype State = State(data: seq<byte>, position: nat, first: Option<nat>)

  function After(s: State, op: Op): State {
    match op
    case Read(size) => s.(position := s.position + |Slice(s.data, s.position, size)|)
    case Write(bytes) =>
      State(Overwritten(s.data, s.position, bytes), s.position + |bytes|,
        if s.first.None? && bytes != [] then Some(s.position) else s.first)
    case Seek(offset, whence) =>
      var target := Target(s.data, s.position, offset, whence);
      if target < 0 then s else s.(position := target)
  }

  function Reply(s: State, op: Op): Answer {
    match op
    case Read(size) => Bytes(Slice(s.data, s.position, size))
    case Write(bytes) => Code(|bytes|)
    case Seek(offset, whence) =>
      var target := Target(s.data, s.position, offset, whence);
      Code(if target < 0 then EINVAL else target)
  }

  function AfterAll(s: State, ops: seq<Op>): State {
    if ops == [] then s else After(AfterAll(s, ops[..|ops| - 1]), ops[|ops| - 1])
  }

  function Replies(s: State, ops: seq<Op>): seq<Answer> {
    if ops == [] then []
    else Replies(s, ops[..|ops| - 1]) + [Reply(AfterAll(s, ops[..|ops| - 1]), ops[|ops| - 1])]
  }

  /** Transfers that fit an int, and no seek to where the (int) cast of the offset is negative. */
  predicate Small(s: State, op: Op) {
    match op
    case Read(size) => size < 0x8000_0000
    case Write(bytes) => |bytes| < 0x8000_0000
    case Seek(offset, whence) =>
      var target := Target(s.data, s.position, offset, whence);
      target < 0 || IntCast(target) >= 0
  }

  predicate AllSmall(s: State, ops: seq<Op>) {
    forall i :: 0 <= i < |ops| ==> Small(AfterAll(s, ops[..i]), ops[i])
  }

  /** Reading on after `done` bytes: the pieces join, and a short piece is the end of the file. */
  lemma SliceSplits(data: seq<byte>, position: nat, done: nat, size: nat, n: nat)
    requires done + n <= size && |Slice(data, position, done)| == done
    ensures var piece := Slice(data, position + done, n);
            && Slice(data, position, done) + piece == Slice(data, position, done + |piece|)
            && |Slice(data, position, done + |piece|)| == done + |piece|
            && (|piece| < n ==> Slice(data, position, done + |piece|) == Slice(data, position, size))
  {
  }

  lemma OverwrittenSplits(data: seq<byte>, i: nat, a: seq<byte>, b: seq<byte>)
    ensures Overwritten(Overwritten(data, i, a), i + |a|, b) == Overwritten(data, i, a + b)
  {
    hide Overwritten;
    OverwrittenAt(data, i, a);
    OverwrittenAt(Overwritten(data, i, a), i + |a|, b);
    OverwrittenAt(data, i, a + b);
    assert forall k :: 0 <= k < |a + b| ==> (a + b)[k] == if k < |a| then a[k] else b[k - |a|];
  }

  /** The data after the first `k` bytes of a write. */
  function Partly(data: seq<byte>, i: nat, bytes: seq<byte>, k: nat): seq<byte>
    requires k <= |bytes|
  {
    Overwritten(data, i, bytes[..k])
  }

  lemma PartlyNothing(data: seq<byte>, i: nat, bytes: seq<byte>)
    ensures Partly(data, i, bytes, 0) == data
  {
    assert bytes[..0] == [];
  }

  lemma PartlyStep(data: seq<byte>, i: nat, bytes: seq<byte>, k: nat, n: nat)
    requires k + n <= |bytes|
    ensures Overwritten(Partly(data, i, bytes, k), i + k, bytes[k..k + n]) == Partly(data, i, bytes, k + n)
  {
    OverwrittenSplits(data, i, bytes[..k], bytes[k..k + n]);
    assert bytes[..k] + bytes[k..k + n] == bytes[..k + n];
  }

  // ----- descriptors

  /**
    A file descriptor; transfers go in pieces of at most `maxIo` bytes. `valid` says whether it holds a
    valid host descriptor: a failed reopen leaves an error code in its place, and for good.
  */
  class File {
    const host: HostFile
    const maxIo: nat
    var valid: bool
    var offset: nat
    var firstWrite: bool
    var firstWriteOffset: nat

    constructor (host: HostFile, maxIo: nat)
      requires maxIo > 0 && host.position == 0
      ensures this.host == host && this.maxIo == maxIo && valid && offset == 0 && !firstWrite && firstWriteOffset == 0
              && Tracks()
    {
      this.host := host;
      this.maxIo := maxIo;
      valid := true;
      offset := 0;
      firstWrite := false;
      firstWriteOffset := 0;
    }

    /** The shadow offset is the position of the host file, unless its device or the descriptor is gone. */
    predicate Tracks()
      reads this, host
    {
      maxIo > 0 && (valid && host.alive ==> host.position == offset) && (!firstWrite ==> firstWriteOffset == 0)
    }

    function Now(): State
      reads this, host
    {
      State(host.data, offset, if firstWrite then Some(firstWriteOffset) else None)
    }

    /** What is left of a file whose descriptor is invalid: nothing of it or of its host changes any more. */
    twostate predicate Stuck()
      reads this, host
    {
      && !valid && offset == old(offset) && host.data == old(host.data) && host.alive == old(host.alive)
      && host.position == old(host.position) && host.failures == old(host.failures)
    }

    /** ReopenFile: open again and seek to the shadow offset, whether or not the seek succeeds. */
    method Reopen() returns (fd: int)
      requires maxIo > 0 && (!firstWrite ==> firstWriteOffset == 0)
      modifies this`valid, host
      ensures Tracks() && host.data == old(host.data)
      ensures valid == (fd >= 0)
      ensures host.alive ==> valid && host.failures == old(host.failures)
      ensures !host.alive ==> !host.reliable && host.failures == old(host.failures) + 1
    {
      fd := host.Open();
      valid := fd >= 0;
      if fd >= 0 {
        var res := host.Lseek(offset, Set);
      }
    }

    /** One piece of a read, tried again after reopening when the device was gone. */
    method ReadPiece(size: nat) returns (res: int, bytes: seq<byte>)
      requires Tracks()
      modifies this`valid, host
      ensures host.data == old(host.data)
      ensures res >= 0 ==> valid && host.alive && host.position == offset + res
                           && bytes == Slice(host.data, offset, size) && res == |bytes|
      ensures res < 0 ==> bytes == []
      ensures old(valid) && res < 0 ==> res == ENODEV && !host.alive && host.failures >= old(host.failures) + 2
      ensures !old(valid) ==> res == EBADF && Stuck()
      ensures host.failures >= old(host.failures) && (host.reliable && old(valid && host.alive) ==> res >= 0)
    {
      if valid {
        res, bytes := host.Read(size);
      } else {
        res, bytes := EBADF, [];
      }
      if res == ENODEV {
        var fd := Reopen();
        if fd >= 0 {
          res, bytes := host.Read(size);
        }
      }
    }

    method WritePiece(bytes: seq<byte>) returns (res: int)
      requires Tracks()
      modifies this`valid, host
      ensures res >= 0 ==> valid && host.alive && host.position == offset + res && res == |bytes|
                           && host.data == Overwritten(old(host.data), offset, bytes)
      ensures res < 0 ==> host.data == old(host.data)
      ensures old(valid) && res < 0 ==> res == ENODEV && !host.alive && host.failures >= old(host.failures) + 2
      ensures !old(valid) ==> res == EBADF && Stuck()
      ensures host.failures >= old(host.failures) && (host.reliable && old(valid && host.alive) ==> res >= 0)
    {
      res := EBADF;
      if valid {
        res := host.Write(bytes);
      }
      if res == ENODEV {
        var fd := Reopen();
        if fd >= 0 {
          res := host.Write(bytes);
        }
      }
    }

    /** The next piece of a read of which `bytes` are in. */
    method ReadNext(size: nat, bytes: seq<byte>, ghost start: nat) returns (res: int, piece: seq<byte>)
      requires Tracks() && |bytes| <= size && offset == start + |bytes| && bytes == Slice(host.data, start, |bytes|)
      modifies this`valid, this`offset, host
      ensures Tracks() && host.failures >= old(host.failures) && host.data == old(host.data)
      ensures res >= 0 ==> valid && host.alive && offset == old(offset) + res && res == |piece| <= size - |bytes|
                           && bytes + piece == Slice(host.data, start, |bytes| + res)
                           && (res == 0 ==> bytes == Slice(host.data, start, size))
      ensures old(valid) && res < 0 ==> res == ENODEV && host.failures >= old(host.failures) + 2
      ensures !old(valid) ==> res == EBADF && Stuck()
      ensures host.reliable && old(valid && host.alive) ==> res >= 0
    {
      hide Slice;
      var remain := size - |bytes|;
      var bufSize := if remain < maxIo then remain else maxIo;
      res, piece := ReadPiece(bufSize);
      if res >= 0 {
        SliceSplits(host.data, start, |bytes|, size, bufSize);
        offset := offset + res;
      }
    }

    /** The pieces of a read. */
    method ReadPieces(size: nat) returns (r: int, bytes: seq<byte>)
      requires Tracks()
      modifies this`valid, this`offset, host
      ensures Tracks() && host.failures >= old(host.failures) && host.data == old(host.data)
      ensures r >= 0 ==>
                valid && r == |bytes| && bytes == Slice(host.data, old(offset), size) && offset == old(offset) + r
      ensures old(valid) && r < 0 ==> r == ENODEV && host.failures >= old(host.failures) + 2
      ensures !old(valid) ==> r == EBADF && Stuck()
      ensures host.reliable && old(valid && host.alive) ==> r >= 0 && host.alive
    {
      ghost var start := offset;
      assert Slice(host.data, start, 0) == [];
      hide Slice;
      bytes := [];
      while true
        invariant Tracks() && host.data == old(host.data) && offset == start + |bytes| && |bytes| <= size
        invariant bytes == Slice(host.data, start, |bytes|) && (bytes == [] || |bytes| < size)
        invariant host.failures >= old(host.failures)
        invariant if old(valid) then valid else bytes == [] && Stuck()
        invariant host.reliable && old(valid && host.alive) ==> host.alive
        decreases size - |bytes|
      {
        var res, piece := ReadNext(size, bytes, start);
        if res < 0 {
          return res, bytes;
        }
        bytes := bytes + piece;
        if res == 0 || !(|bytes| < size) {
          break;
        }
      }
      r := |bytes|;
    }

    /**
      ScePspemuMsfsRead. It delivers what an uninterrupted read would. On a valid descriptor it fails only
      when the device was gone twice in a row; on an invalid one it always fails, and changes nothing.
    */
    method Read(size: nat) returns (r: int, bytes: seq<byte>)
      requires Tracks() && size < 0x8000_0000
      modifies this`valid, this`offset, host
      ensures Tracks() && host.failures >= old(host.failures)
      ensures r >= 0 ==> valid && r == |bytes| && Bytes(bytes) == Reply(old(Now()), Op.Read(size))
                         && Now() == After(old(Now()), Op.Read(size))
      ensures old(valid) && r < 0 ==>
                r == ENODEV && host.failures >= old(host.failures) + 2 && host.data == old(host.data)
      ensures !old(valid) ==> r == EBADF && Stuck()
      ensures host.reliable && old(valid && host.alive) ==> r >= 0 && host.alive
    {
      hide Slice;
      r, bytes := ReadPieces(size);
    }

    /** The next piece of a write of which `seek` bytes are out. */
    method WriteNext(bytes: seq<byte>, seek: nat, ghost data: seq<byte>, ghost start: nat) returns (res: int)
      requires Tracks() && seek <= |bytes| && offset == start + seek && host.data == Partly(data, start, bytes, seek)
      modifies this`valid, this`offset, host
      ensures Tracks() && host.failures >= old(host.failures)
      ensures res >= 0 ==> valid && host.alive && res == (if |bytes| - seek < maxIo then |bytes| - seek else maxIo)
      ensures offset == start + seek + (if res >= 0 then res else 0)
      ensures host.data == Partly(data, start, bytes, if res >= 0 then seek + res else seek)
      ensures old(valid) && res < 0 ==> res == ENODEV && host.failures >= old(host.failures) + 2
      ensures !old(valid) ==> res == EBADF && Stuck()
      ensures host.reliable && old(valid && host.alive) ==> res >= 0
    {
      hide Partly, Overwritten;
      var remain := |bytes| - seek;
      var bufSize := if remain < maxIo then remain else maxIo;
      res := WritePiece(bytes[seek..seek + bufSize]);
      if res >= 0 {
        PartlyStep(data, start, bytes, seek, bufSize);
        offset := offset + res;
      }
    }

    /** The pieces of a write, of which `done` bytes get out. */
    method WritePieces(bytes: seq<byte>) returns (r: int, ghost done: nat)
      requires Tracks()
      modifies this`valid, this`offset, host
      ensures Tracks() && host.failures >= old(host.failures)
      ensures done <= |bytes| && host.data == Partly(old(host.data), old(offset), bytes, done)
      ensures r >= 0 ==> valid && r == |bytes| == done && offset == old(offset) + r
      ensures old(valid) && r < 0 ==> r == ENODEV && host.failures >= old(host.failures) + 2
      ensures !old(valid) ==> r == EBADF && Stuck()
      ensures host.reliable && old(valid && host.alive) ==> r >= 0 && host.alive
    {
      ghost var data, start := host.data, offset;
      PartlyNothing(data, start, bytes);
      hide Partly;
      var seek := 0;
      while true
        invariant Tracks() && offset == start + seek && seek <= |bytes| && (seek == 0 || seek < |bytes|)
        invariant host.data == Partly(data, start, bytes, seek)
        invariant host.failures >= old(host.failures)
        invariant if old(valid) then valid else seek == 0 && Stuck()
        invariant host.reliable && old(valid && host.alive) ==> host.alive
        decreases |bytes| - seek
      {
        var res := WriteNext(bytes, seek, data, start);
        if res < 0 {
          return res, seek;
        }
        if res == 0 {
          break;
        }
        seek := seek + res;
        if !(seek < |bytes|) {
          break;
        }
      }
      r := seek;
      done := seek;
    }

    /**
      ScePspemuMsfsWrite. It leaves what an uninterrupted write would. On a valid descriptor it fails only
      when the device was gone twice in a row, and what then is written is a first part of the bytes; on an
      invalid one it always fails and writes nothing.
    */
    method Write(bytes: seq<byte>) returns (r: int, ghost done: nat)
      requires Tracks() && |bytes| < 0x8000_0000
      modifies this, host
      ensures Tracks() && host.failures >= old(host.failures)
      ensures r >= 0 ==> valid && Code(r) == Reply(old(Now()), Op.Write(bytes))
                         && Now() == After(old(Now()), Op.Write(bytes))
      ensures old(valid) && r < 0 ==>
                && r == ENODEV && host.failures >= old(host.failures) + 2
                && done <= |bytes| && host.data == Partly(old(host.data), old(offset), bytes, done)
      ensures !old(valid) ==> r == EBADF && Stuck()
      ensures host.reliable && old(valid && host.alive) ==> r >= 0 && host.alive
    {
      hide Overwritten;
      if !firstWrite && |bytes| > 0 {
        firstWriteOffset := offset;
        firstWrite := true;
      }
      r, done := WritePieces(bytes);
      assert bytes[..|bytes|] == bytes;
    }

    /**
      ScePspemuMsfsLseek. Unless the device was gone twice in a row it answers as an uninterrupted seek
      would. The shadow offset then follows exactly when the target is negative, so that nothing moves, or
      the (int) cast of the target is not negative, or the target is where the file stands.
    */
    method Lseek(seekOffset: int, whence: Whence) returns (r: int)
      requires Tracks()
      modifies this`valid, this`offset, host
      ensures host.data == old(host.data) && host.failures >= old(host.failures)
      ensures old(valid) && host.alive ==> valid && Code(r) == Reply(old(Now()), Op.Seek(seekOffset, whence))
      ensures old(valid) && host.alive ==>
                var target := Target(old(host.data), old(offset), seekOffset, whence);
                (Tracks() <==> target < 0 || IntCast(target) >= 0 || target == old(offset))
      ensures old(valid) && host.alive && Small(old(Now()), Op.Seek(seekOffset, whence)) ==>
              Now() == After(old(Now()), Op.Seek(seekOffset, whence))
      ensures old(valid) && !host.alive ==> Tracks() && offset == old(offset)
      ensures old(valid) && !host.alive && Small(old(Now()), Op.Seek(seekOffset, whence)) ==>
              r == ENODEV && host.failures >= old(host.failures) + 2
      ensures !old(valid) ==> r == EBADF && Stuck() && Tracks()
      ensures host.reliable && old(valid && host.alive) ==> valid && host.alive
    {
      r := EBADF;
      if valid {
        r := host.Lseek(seekOffset, whence);
      }
      if IntCast(r) == ENODEV {
        var fd := Reopen();
        if fd >= 0 {
          r := host.Lseek(seekOffset, whence);
        }
      }
      if IntCast(r) >= 0 {
        offset := r;
      }
    }

    /** One call of a run. */
    method Perform(op: Op) returns (ok: bool, answer: Answer)
      requires Tracks() && Small(Now(), op)
      modifies this, host
      ensures Tracks() && host.failures >= old(host.failures)
      ensures ok ==> valid && answer == Reply(old(Now()), op) && Now() == After(old(Now()), op)
      ensures old(valid) && !ok ==> host.failures >= old(host.failures) + 2
      ensures !old(valid) ==> !ok && answer.Result() == EBADF && Stuck()
      ensures host.reliable && old(valid && host.alive) ==> ok && host.alive
    {
      hide Overwritten, Slice, Target, IntCast;
      match op {
        case Read(size) =>
          var r, bytes := Read(size);
          ok, answer := r >= 0, if r >= 0 then Bytes(bytes) else Code(r);
        case Write(bytes) =>
          var r, _ := Write(bytes);
          ok, answer := r >= 0, Code(r);
        case Seek(offset, whence) =>
          var r := Lseek(offset, whence);
          ok, answer := valid && host.alive, Code(r);
      }
    }

    /**
      Device-loss transparency: a run of reads, writes and seeks answers and leaves the file, the offset
      and the first write as the uninterrupted run does, however often the device was gone in between;
      it stops early only when the device was gone twice in a row. Once a reopen has failed, no call of
      any later run succeeds, and the host file is left alone.
    */
    method Run(ops: seq<Op>) returns (ok: bool, answers: seq<Answer>)
      requires Tracks() && AllSmall(Now(), ops)
      modifies this, host
      ensures Tracks()
      ensures ok ==> answers == Replies(old(Now()), ops) && Now() == AfterAll(old(Now()), ops)
      ensures old(valid) && !ok ==> host.failures >= old(host.failures) + 2
      ensures !old(valid) && ops != [] ==> !ok && answers == [] && Stuck()
      ensures host.reliable && old(valid && host.alive) ==> ok && valid && host.alive
    {
      hide After, Reply, Small;
      ghost var s := Now();
      answers := [];
      assert ops[..0] == [];
      for i := 0 to |ops|
        invariant Tracks() && Now() == AfterAll(s, ops[..i]) && answers == Replies(s, ops[..i])
        invariant host.failures >= old(host.failures)
        invariant if old(valid) then valid else i == 0 && Stuck()
        invariant host.reliable && old(valid && host.alive) ==> host.alive
      {
        assert ops[..i + 1][..i] == ops[..i];
        var fine, answer := Perform(ops[i]);
        if !fine {
          return false, answers;
        }
        answers := answers + [answer];
      }
      assert ops[..|ops|] == ops;
      ok := true;
    }
  }

  /** `now` is `before`, but below `n` it is `aside`, as far as that reaches. */
  ghost predicate Restored(now: seq<byte>, before: seq<byte>, aside: seq<byte>, n: nat) {
    && |now| == (if n <= |before| then |before| else n)
    && (forall k :: 0 <= k < n && k < |aside| ==> now[k] == aside[k])
    && (forall k :: n <= k < |now| ==> now[k] == before[k])
  }

  lemma RestoredNothing(data: seq<byte>, aside: seq<byte>)
    ensures Restored(data, data, aside, 0)
  {
  }

  lemma RestoredStep(now: seq<byte>, before: seq<byte>, aside: seq<byte>, n: nat, piece: seq<byte>)
    requires Restored(now, before, aside, n)
    requires var read := Slice(aside, if n <= |aside| then n else |aside|, |piece|); piece[..|read|] == read
    ensures Restored(Overwritten(now, n, piece), before, aside, n + |piece|)
  {
    hide Slice, Overwritten;
    OverwrittenAt(now, n, piece);
    var r := Overwritten(now, n, piece);
    var start := if n <= |aside| then n else |aside|;
    var read := Slice(aside, start, |piece|);
    forall k | 0 <= k < n + |piece| && k < |aside| ensures r[k] == aside[k] {
      if k >= n {
        assert piece[k - n] == read[k - n];
      }
    }
  }

  /**
    A file after a truncating open: the old contents, if there were any, are set aside for close. Unless the
    folder is steady, opening and removing the set-aside file may fail, and so may reads of it.
  */
  class TruncatedFile {
    const file: File
    const steady: bool
    const trunc: bool
    var aside: Option<seq<byte>>
    var inTable: bool

    /** Open with the truncation flag, on a host where the rename and the empty file succeed. */
    constructor (before: Option<seq<byte>>, maxIo: nat, steady: bool)
      requires maxIo > 0
      ensures fresh(file) && fresh(file.host) && file.Tracks() && file.valid && file.host.reliable && file.host.alive
      ensures aside == before && trunc == before.Some? && inTable && this.steady == steady
      ensures file.Now() == State([], 0, None) && file.firstWriteOffset == 0
    {
      aside := before;
      trunc := before.Some?;
      inTable := true;
      this.steady := steady;
      var host := new HostFile([], true);
      file := new File(host, maxIo);
    }

    /** One buffer of TruncateFix: whatever part of it is read, all of it is written. */
    method CopyBack(saved: HostFile, buf: array<byte>, n: nat) returns (res: int)
      requires n <= buf.Length && saved != file.host
      modifies file.host, saved, buf
      ensures saved.data == old(saved.data) && (res < 0 ==> file.host.data == old(file.host.data))
      ensures saved.reliable && file.host.reliable && old(saved.alive && file.valid && file.host.alive) ==> res >= 0
      ensures !old(file.valid && file.host.alive) ==> res < 0
      ensures file.host.reliable && old(file.host.alive) ==> file.host.alive
      ensures res >= 0 ==>
                && file.host.alive && saved.alive && file.host.position == old(file.host.position) + n
                && saved.position == old(saved.position) + |Slice(saved.data, old(saved.position), n)|
                && var piece := Slice(saved.data, old(saved.position), n);
                   && |buf[..n]| == n && buf[..|piece|] == piece
                   && file.host.data == Overwritten(old(file.host.data), old(file.host.position), buf[..n])
    {
      hide Overwritten;
      var read, bytes := saved.Read(n);
      if read < 0 {
        return read;
      }
      forall k | 0 <= k < |bytes| {
        buf[k] := bytes[k];
      }
      if !file.valid {
        return EBADF;
      }
      res := file.host.Write(buf[..n]);
    }

    /** The buffers of TruncateFix; `done` bytes are back. */
    method CopyAll(saved: HostFile, transferSize: nat) returns (res: int, ghost done: nat)
      requires transferSize > 0 && saved != file.host && saved.position == 0 && saved.alive
      requires file.valid && file.host.alive ==> file.host.position == 0
      modifies saved, file.host
      ensures done <= file.firstWriteOffset && Restored(file.host.data, old(file.host.data), saved.data, done)
      ensures saved.data == old(saved.data)
      ensures res >= 0 ==> done == file.firstWriteOffset
      ensures res < 0 ==> done < file.firstWriteOffset
      ensures file.firstWriteOffset > 0 && !old(file.valid && file.host.alive) ==> res < 0 && done == 0
      ensures saved.reliable && file.host.reliable && old(file.valid && file.host.alive) ==> res >= 0
      ensures file.host.reliable && old(file.host.alive) ==> file.host.alive
    {
      hide Slice, Overwritten, Restored;
      var buf := new byte[transferSize];
      var seek := 0;
      res, done := 0, 0;
      RestoredNothing(file.host.data, saved.data);
      while seek < file.firstWriteOffset
        invariant done == seek <= file.firstWriteOffset && saved.data == old(saved.data)
        invariant saved.alive && (seek > 0 ==> file.valid && file.host.alive && old(file.valid && file.host.alive))
        invariant seek == 0 ==> file.host.alive == old(file.host.alive)
        invariant file.host.reliable && old(file.host.alive) ==> file.host.alive
        invariant file.valid && file.host.alive ==> file.host.position == seek
        invariant saved.position == if seek <= |saved.data| then seek else |saved.data|
        invariant Restored(file.host.data, old(file.host.data), saved.data, seek)
      {
        ghost var now := file.host.data;
        var remain := file.firstWriteOffset - seek;
        var bufSize := if remain < transferSize then remain else transferSize;
        res := CopyBack(saved, buf, bufSize);
        if res < 0 {
          return;
        }
        RestoredStep(now, old(file.host.data), saved.data, seek, buf[..bufSize]);
        seek := seek + bufSize;
        done := seek;
      }
    }

    /** Removing the set-aside file by its name, whatever comes of it. */
    method RemoveAside()
      modifies this`aside
      ensures aside == None || (!steady && aside == old(aside))
    {
      if steady {
        aside := None;
      } else if * {
        aside := None;
      }
    }

    /**
      TruncateFix: copies the first part of the set-aside file back, up to the first write, a buffer at a
      time; where that file is shorter, the buffer's old contents go out instead. Whether or not all of it is
      back, the set-aside file is removed in the end.
    */
    method TruncateFix(transferSize: nat, memory: bool) returns (res: int, ghost done: nat)
      requires transferSize > 0
      modifies this`aside, file.host
      ensures aside == None || (!steady && aside == old(aside))
      ensures old(aside).None? ==> res < 0 && file.host.data == old(file.host.data)
      ensures old(aside).Some? ==>
                && done <= file.firstWriteOffset
                && Restored(file.host.data, old(file.host.data), old(aside).value, done)
                && (res >= 0 ==> done == file.firstWriteOffset)
                && (file.firstWriteOffset > 0 && !old(file.valid && file.host.alive) ==> res < 0 && done == 0)
      ensures old(aside).Some? && steady && memory && file.host.reliable ==>
                (res >= 0 <==> file.firstWriteOffset == 0 || old(file.valid && file.host.alive))
      ensures file.host.reliable && old(file.host.alive) ==> file.host.alive
    {
      hide Restored;
      done := 0;
      if aside.Some? {
        RestoredNothing(file.host.data, aside.value);
      }
      if aside.None? {
        res := ENOENT;
      } else {
        var opens := true;
        if !steady {
          opens := *;
        }
        if !opens {
          res := ENODEV;
        } else {
          var saved := new HostFile(aside.value, steady);
          if file.valid {
            var at := file.host.Lseek(0, Set);
          }
          if !memory {
            res := -1;
          } else {
            res, done := CopyAll(saved, transferSize);
          }
        }
      }
      RemoveAside();
    }

    /**
      Close. A descriptor that was opened with truncation first gets its old beginning back; if that fails,
      the descriptor stays in the table, and with the set-aside file gone no later close can succeed.
    */
    method Close(transferSize: nat, memory: bool) returns (r: int, ghost done: nat)
      requires inTable && transferSize > 0
      modifies this`aside, this`inTable, file.host
      ensures inTable <==> r < 0
      ensures !trunc ==> file.host.data == old(file.host.data) && aside == old(aside)
      ensures trunc && old(aside).None? ==> r < 0 && aside.None? && file.host.data == old(file.host.data)
      ensures trunc && old(aside).Some? ==>
                && done <= file.firstWriteOffset
                && Restored(file.host.data, old(file.host.data), old(aside).value, done)
                && (r >= 0 ==> done == file.firstWriteOffset)
                && (aside == None || (!steady && aside == old(aside)))
                && (file.firstWriteOffset > 0 && !old(file.valid && file.host.alive) ==> r < 0 && done == 0)
      ensures trunc && old(aside).Some? && steady && memory && file.host.reliable ==>
                (r >= 0 <==> old(file.valid) && (file.firstWriteOffset == 0 || old(file.host.alive)))
    {
      hide Restored;
      done := 0;
      if trunc {
        r, done := TruncateFix(transferSize, memory);
        if r < 0 {
          return;
        }
      }
      r := EBADF;
      if file.valid {
        r := file.host.Close();
        if r == ENODEV {
          r := 0;
        }
      }
      if r >= 0 {
        inTable := false;
      }
    }
  }

  /** The offset of the first nonempty write of a run on an empty file, and 0 if there is none. */
  function FirstWrite(ops: seq<Op>): (n: nat)
    ensures n <= |AfterAll(State([], 0, None), ops).data|
  {
    FirstWriteInside(ops);
    var first := AfterAll(State([], 0, None), ops).first;
    if first.Some? then first.value else 0
  }

  lemma {:induction false} FirstWriteInside(ops: seq<Op>)
    ensures var s := AfterAll(State([], 0, None), ops); s.first.Some? ==> s.first.value < |s.data|
  {
    if ops != [] {
      FirstWriteInside(ops[..|ops| - 1]);
    }
  }

  /** What truncating open, run and close leave: the old bytes below the first write, the run's from there on. */
  function Rewritten(before: seq<byte>, ops: seq<Op>): (r: seq<byte>)
    requires FirstWrite(ops) <= |before|
    ensures |r| == |AfterAll(State([], 0, None), ops).data|
  {
    before[..FirstWrite(ops)] + AfterAll(State([], 0, None), ops).data[FirstWrite(ops)..]
  }

  /** Where the `i`-th operation of a run on an empty file starts. */
  function StartOf(ops: seq<Op>, i: nat): nat
    requires i <= |ops|
  {
    AfterAll(State([], 0, None), ops[..i]).position
  }

  /** The `i`-th operation writes the byte at `k`. */
  predicate Writes(ops: seq<Op>, i: nat, k: nat) {
    i < |ops| && ops[i].Write? && StartOf(ops, i) <= k < StartOf(ops, i) + |ops[i].bytes|
  }

  /** A write of a byte or more, and none before it. */
  predicate FirstNonempty(ops: seq<Op>, i: nat) {
    && i < |ops| && ops[i].Write? && ops[i].bytes != []
    && forall j :: 0 <= j < i ==> !(ops[j].Write? && ops[j].bytes != [])
  }

  predicate NothingWritten(ops: seq<Op>) {
    forall j :: 0 <= j < |ops| ==> !(ops[j].Write? && ops[j].bytes != [])
  }

  /** The recorded first write is where the first nonempty write of the run started. */
  lemma {:induction false} FirstWriteIs(ops: seq<Op>)
    ensures var first := AfterAll(State([], 0, None), ops).first;
            && (first.None? <==> NothingWritten(ops))
            && forall i: nat :: FirstNonempty(ops, i) ==> first == Some(StartOf(ops, i))
  {
    hide Overwritten, Slice, Target;
    if ops != [] {
      var n := |ops| - 1;
      var init := ops[..n];
      FirstWriteIs(init);
      forall i: nat | FirstNonempty(ops, i)
        ensures AfterAll(State([], 0, None), ops).first == Some(StartOf(ops, i))
      {
        if i < n {
          assert FirstNonempty(init, i) && init[..i] == ops[..i];
        } else {
          assert NothingWritten(init);
        }
      }
      if AfterAll(State([], 0, None), ops).first.None? {
        assert NothingWritten(init);
        forall j | 0 <= j < |ops| ensures !(ops[j].Write? && ops[j].bytes != []) {
          assert j < n ==> init[j] == ops[j];
        }
      }
      if NothingWritten(ops) {
        assert ops[n] in ops;
        forall j | 0 <= j < n ensures !(init[j].Write? && init[j].bytes != []) {
          assert init[j] == ops[j];
        }
      }
    }
  }

  /** The operation `i` is the last one that writes the byte at `k`. */
  predicate LastWrite(ops: seq<Op>, i: nat, k: nat) {
    Writes(ops, i, k) && forall j: nat :: i < j < |ops| ==> !Writes(ops, j, k)
  }

  predicate NeverWritten(ops: seq<Op>, k: nat) {
    forall i: nat :: i < |ops| ==> !Writes(ops, i, k)
  }

  /** The byte at `k` after a run on an empty file: that of the last write there, and zero where none was. */
  lemma {:induction false} LastWriteWins(ops: seq<Op>, k: nat)
    ensures var data := AfterAll(State([], 0, None), ops).data;
            && (k < |data| && NeverWritten(ops, k) ==> data[k] == 0)
            && forall i: nat :: LastWrite(ops, i, k) ==> k < |data| && data[k] == ops[i].bytes[k - StartOf(ops, i)]
  {
    hide Overwritten, Slice, Target, LastWrite, NeverWritten, Writes, StartOf;
    if ops != [] {
      var init := ops[..|ops| - 1];
      LastWriteWins(init, k);
      WriteByte(ops, k);
      if NeverWritten(ops, k) {
        NeverBefore(ops, k);
      }
      forall i: nat | LastWrite(ops, i, k)
        ensures var data := AfterAll(State([], 0, None), ops).data;
                k < |data| && i < |ops| && ops[i].Write? && StartOf(ops, i) <= k < StartOf(ops, i) + |ops[i].bytes|
                && data[k] == ops[i].bytes[k - StartOf(ops, i)]
      {
        LastBefore(ops, i, k);
      }
    } else {
      NoWrites(k);
    }
  }

  lemma NoWrites(k: nat)
    ensures forall i: nat :: !LastWrite([], i, k)
  {
  }

  /** What the last operation does to the byte at `k`. */
  lemma WriteByte(ops: seq<Op>, k: nat)
    requires ops != []
    ensures var n := |ops| - 1;
            var was, data := AfterAll(State([], 0, None), ops[..n]).data, AfterAll(State([], 0, None), ops).data;
            && |was| <= |data|
            && (Writes(ops, n, k) ==> k < |data| && data[k] == ops[n].bytes[k - StartOf(ops, n)])
            && (!Writes(ops, n, k) && k < |data| ==> data[k] == if k < |was| then was[k] else 0)
  {
    hide Overwritten, Slice, Target;
    var n := |ops| - 1;
    var s := AfterAll(State([], 0, None), ops[..n]);
    assert StartOf(ops, n) == s.position;
    if ops[n].Write? {
      OverwrittenAt(s.data, s.position, ops[n].bytes);
    }
  }

  lemma NeverBefore(ops: seq<Op>, k: nat)
    requires ops != [] && NeverWritten(ops, k)
    ensures NeverWritten(ops[..|ops| - 1], k) && !Writes(ops, |ops| - 1, k)
  {
    var init := ops[..|ops| - 1];
    forall i: nat | i < |init| ensures !Writes(init, i, k) {
      SameWrite(ops, i, k);
      assert !Writes(ops, i, k);
    }
  }

  lemma LastBefore(ops: seq<Op>, i: nat, k: nat)
    requires ops != [] && LastWrite(ops, i, k)
    ensures i < |ops| && ops[i].Write? && StartOf(ops, i) <= k < StartOf(ops, i) + |ops[i].bytes|
    ensures i == |ops| - 1 ==> Writes(ops, i, k)
    ensures i < |ops| - 1 ==> LastWrite(ops[..|ops| - 1], i, k) && !Writes(ops, |ops| - 1, k)
                              && StartOf(ops[..|ops| - 1], i) == StartOf(ops, i)
  {
    if i < |ops| - 1 {
      SameWrite(ops, i, k);
      var init := ops[..|ops| - 1];
      forall j: nat | i < j < |init| ensures !Writes(init, j, k) {
        SameWrite(ops, j, k);
        assert !Writes(ops, j, k);
      }
    }
  }

  lemma SameWrite(ops: seq<Op>, i: nat, k: nat)
    requires ops != [] && i < |ops| - 1
    ensures Writes(ops, i, k) <==> Writes(ops[..|ops| - 1], i, k)
    ensures StartOf(ops, i) == StartOf(ops[..|ops| - 1], i)
  {
    assert ops[..|ops| - 1][..i] == ops[..i];
  }

  /** Every byte the run wrote is after the close what it was at the end of the run, whatever was in the file before. */
  ghost predicate KeepsWrites(ops: seq<Op>) {
    forall before: seq<byte>, i: nat, k: nat ::
      |before| >= FirstWrite(ops) && Writes(ops, i, k) && k < |AfterAll(State([], 0, None), ops).data| ==>
        Rewritten(before, ops)[k] == AfterAll(State([], 0, None), ops).data[k]
  }

  /** No write of the run starts below its first one. */
  ghost predicate NoneBelow(ops: seq<Op>) {
    forall i: nat :: i < |ops| && ops[i].Write? && ops[i].bytes != [] ==> StartOf(ops, i) >= FirstWrite(ops)
  }

  /** The close keeps what the run wrote if and only if no nonempty write starts below the first one. */
  lemma RewriteKeeps(ops: seq<Op>)
    ensures KeepsWrites(ops) <==> NoneBelow(ops)
  {
    hide AfterAll, FirstWrite, StartOf;
    if KeepsWrites(ops) {
      forall i: nat | i < |ops| && ops[i].Write? && ops[i].bytes != [] ensures StartOf(ops, i) >= FirstWrite(ops) {
        if StartOf(ops, i) < FirstWrite(ops) {
          LostByte(ops, i);
        }
      }
    }
  }

  /** A write below the first one is lost where the old file had another byte. */
  lemma LostByte(ops: seq<Op>, i: nat)
    requires i < |ops| && ops[i].Write? && ops[i].bytes != [] && StartOf(ops, i) < FirstWrite(ops)
    ensures !KeepsWrites(ops)
  {
    hide AfterAll, FirstWrite, StartOf;
    var data, first, k := AfterAll(State([], 0, None), ops).data, FirstWrite(ops), StartOf(ops, i);
    var before := data[..first][k := if data[k] == 0 then 1 else 0];
    assert Writes(ops, i, k);
    assert Rewritten(before, ops)[k] == before[k];
  }

  /** Such a run: a byte at 1, then one at 0, which the close replaces. */
  lemma BackwardsRun()
    ensures !KeepsWrites([Seek(1, Set), Write([7]), Seek(0, Set), Write([8])])
  {
    var ops := [Seek(1, Set), Write([7]), Seek(0, Set), Write([8])];
    var s0 := State([], 0, None);
    assert ops[..0] == [] && ops[..1] == [ops[0]] && ops[..2] == [ops[0], ops[1]];
    assert ops[..1][..0] == [] && ops[..2][..1] == ops[..1] && ops[..3][..2] == ops[..2];
    assert ops[..3] == ops[..2] + [ops[2]];
    assert AfterAll(s0, ops[..0]) == s0;
    var s1 := AfterAll(s0, ops[..1]);
    assert s1 == State([], 1, None);
    var s2 := AfterAll(s0, ops[..2]);
    assert s2.first == Some(1);
    var s3 := AfterAll(s0, ops[..3]);
    assert s3.position == 0 && s3.first == Some(1);
    assert ops == ops[..3] + [ops[3]] && ops[..|ops| - 1] == ops[..3];
    assert AfterAll(s0, ops).first == Some(1);
    assert FirstWrite(ops) == 1 && StartOf(ops, 3) == 0;
    RewriteKeeps(ops);
  }

  /**
    Truncating rewrite: open with truncation, run, close. If the file was long enough before, the bytes
    below the first write are the old ones and all others are what the run left.
  */
  method Rewrite(before: seq<byte>, ops: seq<Op>, maxIo: nat, transferSize: nat) returns (after: seq<byte>)
    requires maxIo > 0 && transferSize > 0 && AllSmall(State([], 0, None), ops)
    ensures FirstWrite(ops) <= |before| ==> after == Rewritten(before, ops)
    ensures forall i: nat :: FirstNonempty(ops, i) && StartOf(ops, i) <= |before| ==>
              var left := AfterAll(State([], 0, None), ops).data;
              && |after| == |left|
              && forall k :: 0 <= k < |after| ==> after[k] == if k < StartOf(ops, i) then before[k] else left[k]
    ensures NothingWritten(ops) ==> after == AfterAll(State([], 0, None), ops).data
  {
    FirstWriteIs(ops);
    hide AfterAll, AllSmall, StartOf, FirstNonempty, NothingWritten;
    var f := new TruncatedFile(Some(before), maxIo, true);
    var ok, answers := f.file.Run(ops);
    ghost var left := f.file.host.data;
    var r, done := f.Close(transferSize, true);
    after := f.file.host.data;
    ghost var first := FirstWrite(ops);
    if first <= |before| {
      assert f.file.firstWriteOffset == first;
      assert after[..first] == before[..first] && after[first..] == left[first..];
      assert after == after[..first] + after[first..];
    }
  }

  /**
    A device that was gone between the last write and close, and is back: close does not reopen the file, so
    it fails, and removes the only copy of the old beginning. Closing again fails for good.
  */
  method LostBeginning(first: byte) returns (f: TruncatedFile, r: int, again: int)
    requires first != 0
    ensures fresh(f) && f.aside.None? && f.file.host.data == [0, 7] && r < 0 && again < 0 && f.inTable
  {
    f := new TruncatedFile(Some([first]), 1, true);
    var at := f.file.Lseek(1, Set);
    var n, done := f.file.Write([7]);
    assert f.file.host.data == [0, 7];
    f.file.host.alive := false;
    ghost var restored;
    r, restored := f.Close(1, true);
    again, restored := f.Close(1, true);
  }

  /** On an empty file a seek to 2 GiB leaves the shadow offset behind. */
  method SeekBehind() returns (f: File)
    ensures fresh(f) && fresh(f.host) && f.valid && f.host.alive && !f.Tracks()
  {
    var host := new HostFile([], true);
    f := new File(host, 1);
    var r := f.Lseek(0x8000_0000, Set);
  }
}
