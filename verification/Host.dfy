/** Files of the host, on a device that may go away. */
module Host {
  import opened Bytes
  import opened Errors

  datatype Whence = Set | Cur | End

  function Target(data: seq<byte>, position: nat, offset: int, whence: Whence): int {
    match whence
    case Set => offset
    case Cur => position + offset
    case End => |data| + offset
  }

  /**
    A host file. Unless it is reliable, its device may be gone at any call, which then returns ENODEV
    and leaves the data alone; the file stays dead until it is opened again, which may fail as well.
  */
  class HostFile {
    const reliable: bool
    var data: seq<byte>
    var position: nat
    var alive: bool
    ghost var failures: nat

    constructor (data: seq<byte>, reliable: bool)
      ensures this.data == data && position == 0 && this.reliable == reliable && alive && failures == 0
    {
      this.data := data;
      position := 0;
      this.reliable := reliable;
      alive := true;
      failures := 0;
    }

    /** Whether a call finds the device gone. */
    method Gone() returns (gone: bool)
      modifies this`alive, this`failures
      ensures gone ==> (!reliable || !old(alive)) && !alive && failures == old(failures) + 1
      ensures !gone ==> old(alive) && alive && failures == old(failures)
    {
      gone := !alive;
      if !reliable {
        if * {
          gone := true;
        }
      }
      if gone {
        alive := false;
        failures := failures + 1;
      }
    }

    method Read(size: nat) returns (res: int, bytes: seq<byte>)
      modifies this
      ensures data == old(data)
      ensures failures == old(failures) ==>
                && old(alive) && alive && bytes == Slice(data, old(position), size)
                && res == |bytes| && position == old(position) + res
      ensures failures != old(failures) ==>
                (!reliable || !old(alive)) && failures == old(failures) + 1 && !alive && res == ENODEV && bytes == []
    {
      var gone := Gone();
      if gone {
        return ENODEV, [];
      }
      bytes := Slice(data, position, size);
      res := |bytes|;
      position := position + |bytes|;
    }

    method Write(bytes: seq<byte>) returns (res: int)
      modifies this
      ensures failures == old(failures) ==>
                && old(alive) && alive && data == Overwritten(old(data), old(position), bytes)
                && res == |bytes| && position == old(position) + res
      ensures failures != old(failures) ==>
                (!reliable || !old(alive)) && failures == old(failures) + 1 && !alive && res == ENODEV
                    && data == old(data)
    {
      var gone := Gone();
      if gone {
        return ENODEV;
      }
      data := Overwritten(data, position, bytes);
      res := |bytes|;
      position := position + |bytes|;
    }

    method Lseek(offset: int, whence: Whence) returns (res: int)
      modifies this
      ensures data == old(data)
      ensures failures == old(failures) ==>
                && old(alive) && alive
                && var target := Target(data, old(position), offset, whence);
                   if target < 0 then res == EINVAL && position == old(position)
                   else res == target && position == target
      ensures failures != old(failures) ==>
                (!reliable || !old(alive)) && failures == old(failures) + 1 && !alive && res == ENODEV
    {
      var gone := Gone();
      if gone {
        return ENODEV;
      }
      var target := Target(data, position, offset, whence);
      if target < 0 {
        return EINVAL;
      }
      position := target;
      res := target;
    }

    /** Opening again, with flags that neither truncate nor append. */
    method Open() returns (fd: int)
      modifies this
      ensures data == old(data)
      ensures fd >= 0 ==> alive && position == 0 && failures == old(failures)
      ensures fd < 0 ==> !reliable && !alive && failures == old(failures) + 1
    {
      alive := true;
      position := 0;
      fd := 1;
      var gone := Gone();
      if gone {
        fd := ENODEV;
      }
    }

    /** Closing: a device that is gone is reported here, too. */
    method Close() returns (res: int)
      modifies this`alive, this`failures
      ensures res == 0 || res == ENODEV
      ensures reliable && old(alive) ==> res == 0 && alive
    {
      var gone := Gone();
      res := if gone then ENODEV else 0;
    }
  }
}
