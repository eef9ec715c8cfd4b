/** The ISO driver: directory search over a sector buffer, and reads split into sectors. */
module IsoDriver {
  import opened Bytes
  import opened Errors
  import opened Iso

  const MAX_HANDLERS := 32
  const BUFFER_SIZE := 8 * SECTOR_SIZE + 64

  datatype FileHandle = FileHandle(isOpen: bool, lba: nat, filesize: nat, filepointer: int)

  /** Splitting one read into two consecutive ones changes nothing. */
  lemma ReadSplits(contents: seq<byte>, position: nat, a: nat, b: nat)
    ensures var first := Slice(contents, position, a);
            Slice(contents, position, a + b) == first + Slice(contents, position + |first|, b)
  {
  }

  lemma SearchNothing(name: seq<byte>, isDir: bool)
    ensures Search([], name, isDir) == Error(ENOENT)
  {
  }

  lemma SearchStep(es: seq<Entry>, name: seq<byte>, isDir: bool)
    requires Named(es) && es != []
    ensures Named(es[1..])
    ensures Search(es, name, isDir)
         == if TooLong(es[0]) then Error(EINVAL)
            else if EntryName(es[0]) != name then Search(es[1..], name, isDir)
            else if isDir && !IsSpecial(es[0]) && es[0].record.flags / DIRECTORY_FLAG % 2 == 0 then Error(ENOTDIR)
            else Found(es[0].record)
  {
  }

  lemma WrapAdds(a: nat, b: int)
    requires a + b >= 0
    ensures IntCast(IntCast(a) + b) == IntCast(a + b)
  {
    var k := a / U32_MODULUS;
    WrapShift(a + b, if a % U32_MODULUS < 0x8000_0000 then k else k + 1);
  }

  lemma WrapShift(x: int, k: int)
    ensures IntCast(x - U32_MODULUS * k) == IntCast(x)
  {
    var q := x / U32_MODULUS;
    assert x - U32_MODULUS * k == U32_MODULUS * (q - k) + x % U32_MODULUS;
  }

  /** A device whose reads fully succeed, the open handles, and one buffer for whole sectors. */
  class Driver {
    const disc: seq<byte>
    const root: Record
    const handlers: array<FileHandle>
    const sectors: array<byte>

    constructor (disc: seq<byte>, root: Record)
      ensures this.disc == disc && this.root == root && fresh(handlers) && fresh(sectors)
      ensures Valid() && forall i :: 0 <= i < MAX_HANDLERS ==> !handlers[i].isOpen
    {
      this.disc := disc;
      this.root := root;
      handlers := new FileHandle[MAX_HANDLERS](_ => FileHandle(false, 0, 0, 0));
      sectors := new byte[BUFFER_SIZE](_ => 0);
    }

    predicate Valid() {
      handlers.Length == MAX_HANDLERS && sectors.Length == BUFFER_SIZE
    }

    /** The bytes of an open file, whose extent lies on the disc. */
    function Contents(h: FileHandle): (c: seq<byte>)
      requires OnDisc(disc, Record(h.lba, h.filesize, 0))
      ensures |c| == h.filesize
    {
      disc[h.lba * SECTOR_SIZE..h.lba * SECTOR_SIZE + h.filesize]
    }

    /** IsofsReadSectors into the sector buffer: at most 8 sectors, and zeros behind them. */
    method ReadToBuffer(lba: nat, nsectors: nat) returns (res: int)
      requires Valid() && (lba + nsectors) * SECTOR_SIZE <= |disc|
      modifies sectors
      ensures nsectors > 8 ==> res == EFBIG
      ensures nsectors <= 8 ==>
                && res == nsectors && sectors[..nsectors * SECTOR_SIZE] == Sectors(disc, lba, nsectors)
                && forall k :: nsectors * SECTOR_SIZE <= k < nsectors * SECTOR_SIZE + 64 ==> sectors[k] == 0
    {
      if nsectors > 8 {
        return EFBIG;
      }
      var n := nsectors * SECTOR_SIZE;
      forall k | n <= k < n + 64 {
        sectors[k] := 0;
      }
      forall k | 0 <= k < n {
        sectors[k] := disc[lba * SECTOR_SIZE + k];
      }
      res := nsectors;
    }

    /** IsofsReadSectors into the caller's memory. */
    method ReadDirect(lba: nat, nsectors: nat, data: array<byte>, at: nat) returns (res: int)
      requires (lba + nsectors) * SECTOR_SIZE <= |disc| && at + nsectors * SECTOR_SIZE <= data.Length
      modifies data
      ensures res == nsectors
      ensures forall k :: 0 <= k < data.Length ==>
                data[k] == if at <= k < at + nsectors * SECTOR_SIZE
                    then disc[lba * SECTOR_SIZE + k - at] else old(data[k])
    {
      forall k | 0 <= k < nsectors * SECTOR_SIZE {
        data[at + k] := disc[lba * SECTOR_SIZE + k];
      }
      res := nsectors;
    }

    /** The sector that the file pointer splits; reads `remaining` bytes at most. */
    method ReadHead(fd: nat, data: array<byte>, remaining: nat) returns (read: nat)
      requires Valid() && fd < MAX_HANDLERS && data != sectors && remaining <= data.Length
      requires var h := handlers[fd]; OnDisc(disc, Record(h.lba, h.filesize, 0)) && h.filepointer >= 0
      requires handlers[fd].filepointer % SECTOR_SIZE != 0
               && handlers[fd].filepointer + remaining <= handlers[fd].filesize
      modifies handlers, sectors, data
      ensures read <= remaining && (read < remaining ==> (old(handlers[fd].filepointer) + read) % SECTOR_SIZE == 0)
      ensures handlers[..]
              == old(handlers[..])[fd := old(handlers[fd]).(filepointer := old(handlers[fd].filepointer) + read)]
      ensures forall k :: 0 <= k < data.Length ==>
                data[k] == if k < read then Contents(old(handlers[fd]))[old(handlers[fd].filepointer) + k]
                    else old(data[k])
    {
      var h := handlers[fd];
      var rest := h.filepointer % SECTOR_SIZE;
      var nextsector := h.lba + h.filepointer / SECTOR_SIZE;
      assert nextsector * SECTOR_SIZE + rest == h.lba * SECTOR_SIZE + h.filepointer;
      var res := ReadToBuffer(nextsector, 1);
      assert forall k :: 0 <= k < SECTOR_SIZE ==>
          sectors[k] == sectors[..1 * SECTOR_SIZE][k] == disc[nextsector * SECTOR_SIZE + k];
      read := SECTOR_SIZE - rest;
      if read > remaining {
        read := remaining;
      }
      forall k | 0 <= k < read {
        data[k] := sectors[rest + k];
      }
      handlers[fd] := h.(filepointer := h.filepointer + read);
    }

    /** The whole sectors after the head, read straight into the caller's memory. */
    method ReadRun(fd: nat, data: array<byte>, at: nat, remaining: nat) returns (read: nat)
      requires Valid() && fd < MAX_HANDLERS && at + remaining <= data.Length
      requires var h := handlers[fd]; OnDisc(disc, Record(h.lba, h.filesize, 0)) && h.filepointer >= 0
      requires handlers[fd].filepointer % SECTOR_SIZE == 0
               && handlers[fd].filepointer + remaining <= handlers[fd].filesize
      modifies handlers, data
      ensures read <= remaining < read + SECTOR_SIZE && read % SECTOR_SIZE == 0
      ensures handlers[..]
              == old(handlers[..])[fd := old(handlers[fd]).(filepointer := old(handlers[fd].filepointer) + read)]
      ensures forall k :: 0 <= k < data.Length ==>
                data[k] == if at <= k < at + read
                    then Contents(old(handlers[fd]))[old(handlers[fd].filepointer) + k - at]
                           else old(data[k])
    {
      var h := handlers[fd];
      var nextsector := h.lba + h.filepointer / SECTOR_SIZE;
      assert nextsector * SECTOR_SIZE == h.lba * SECTOR_SIZE + h.filepointer;
      var sectorstoread := SizeToSectors(remaining);
      var direct := if remaining % SECTOR_SIZE != 0 then sectorstoread - 1 else sectorstoread;
      read := 0;
      if direct > 0 {
        var res := ReadDirect(nextsector, direct, data, at);
        read := res * SECTOR_SIZE;
      }
      handlers[fd] := h.(filepointer := h.filepointer + read);
    }

    /** What is left of the last sector. */
    method ReadTail(fd: nat, data: array<byte>, at: nat, remaining: nat)
      requires Valid() && fd < MAX_HANDLERS && data != sectors && at + remaining <= data.Length
               && 0 < remaining < SECTOR_SIZE
      requires var h := handlers[fd]; OnDisc(disc, Record(h.lba, h.filesize, 0)) && h.filepointer >= 0
      requires handlers[fd].filepointer % SECTOR_SIZE == 0
               && handlers[fd].filepointer + remaining <= handlers[fd].filesize
      modifies handlers, sectors, data
      ensures handlers[..]
              == old(handlers[..])[fd := old(handlers[fd]).(filepointer := old(handlers[fd].filepointer) + remaining)]
      ensures forall k :: 0 <= k < data.Length ==>
                data[k] == if at <= k < at + remaining
                    then Contents(old(handlers[fd]))[old(handlers[fd].filepointer) + k - at]
                           else old(data[k])
    {
      var h := handlers[fd];
      var nextsector := h.lba + h.filepointer / SECTOR_SIZE;
      assert nextsector * SECTOR_SIZE == h.lba * SECTOR_SIZE + h.filepointer;
      var res := ReadToBuffer(nextsector, 1);
      assert forall k :: 0 <= k < SECTOR_SIZE ==>
          sectors[k] == sectors[..1 * SECTOR_SIZE][k] == disc[nextsector * SECTOR_SIZE + k];
      var n := remaining % SECTOR_SIZE;
      forall k | 0 <= k < n {
        data[at + k] := sectors[k];
      }
      handlers[fd] := h.(filepointer := h.filepointer + n);
    }

    /** Run and tail: `remaining` bytes from a file pointer at the start of a sector. */
    method ReadSectors(fd: nat, data: array<byte>, at: nat, remaining: nat)
      requires Valid() && fd < MAX_HANDLERS && data != sectors && at + remaining <= data.Length && 0 < remaining
      requires var h := handlers[fd]; OnDisc(disc, Record(h.lba, h.filesize, 0)) && h.filepointer >= 0
      requires handlers[fd].filepointer % SECTOR_SIZE == 0
               && handlers[fd].filepointer + remaining <= handlers[fd].filesize
      modifies handlers, sectors, data
      ensures handlers[..]
              == old(handlers[..])[fd := old(handlers[fd]).(filepointer := old(handlers[fd].filepointer) + remaining)]
      ensures forall k :: 0 <= k < data.Length ==>
                data[k] == if at <= k < at + remaining
                    then Contents(old(handlers[fd]))[old(handlers[fd].filepointer) + k - at]
                           else old(data[k])
    {
      hide OnDisc, SizeToSectors;
      var run := ReadRun(fd, data, at, remaining);
      if run < remaining {
        ReadTail(fd, data, at + run, remaining - run);
      }
    }

    /** Head, run and tail together: `remaining` bytes from the file pointer on. */
    method ReadParts(fd: nat, data: array<byte>, remaining: nat)
      requires Valid() && fd < MAX_HANDLERS && data != sectors && 0 < remaining <= data.Length
      requires var h := handlers[fd]; OnDisc(disc, Record(h.lba, h.filesize, 0)) && h.filepointer >= 0
      requires handlers[fd].filepointer + remaining <= handlers[fd].filesize
      modifies handlers, sectors, data
      ensures handlers[..]
              == old(handlers[..])[fd := old(handlers[fd]).(filepointer := old(handlers[fd].filepointer) + remaining)]
      ensures forall k :: 0 <= k < data.Length ==>
                data[k] == if k < remaining then Contents(old(handlers[fd]))[old(handlers[fd].filepointer) + k]
                    else old(data[k])
    {
      hide OnDisc, SizeToSectors;
      var read := 0;
      if handlers[fd].filepointer % SECTOR_SIZE != 0 {
        read := ReadHead(fd, data, remaining);
      }
      if read < remaining {
        ReadSectors(fd, data, read, remaining - read);
      }
    }

    /**
      isofs_read: delivers the slice of the file's extent that the file pointer and the length name, and
      moves the pointer behind it. Sums stay below 2^31.
    */
    method Read(fd: int, data: array<byte>, len: int) returns (r: int)
      requires Valid() && data != sectors
      requires 0 <= fd < MAX_HANDLERS && handlers[fd].isOpen && len >= 0 ==>
                 var h := handlers[fd];
                 && OnDisc(disc, Record(h.lba, h.filesize, 0)) && h.filepointer >= 0
                 && len + h.filepointer < 0x8000_0000 && h.filesize < 0x8000_0000
                 && |Slice(Contents(h), h.filepointer, len)| <= data.Length
      modifies handlers, sectors, data
      ensures !(0 <= fd < MAX_HANDLERS) || !old(handlers[fd].isOpen) ==> r == EBADF
      ensures 0 <= fd < MAX_HANDLERS && old(handlers[fd].isOpen) && len < 0 ==> r == EINVAL
      ensures r < 0 ==> handlers[..] == old(handlers[..]) && data[..] == old(data[..])
      ensures 0 <= fd < MAX_HANDLERS && old(handlers[fd].isOpen) && len >= 0 ==>
                var h := old(handlers[fd]);
                var slice := Slice(Contents(h), h.filepointer, len);
                && r == |slice| && data[..] == slice + old(data[..])[|slice|..]
                && handlers[..] == old(handlers[..])[fd := h.(filepointer := h.filepointer + r)]
    {
      hide OnDisc;
      if fd < 0 || fd >= MAX_HANDLERS {
        return EBADF;
      }
      if !handlers[fd].isOpen {
        return EBADF;
      }
      if len < 0 {
        return EINVAL;
      }
      var remaining := len;
      if remaining + handlers[fd].filepointer > handlers[fd].filesize {
        remaining := remaining - ((remaining + handlers[fd].filepointer) - handlers[fd].filesize);
      }
      if remaining <= 0 {
        return 0;
      }
      ghost var h := handlers[fd];
      ReadParts(fd, data, remaining);
      r := remaining;
      ghost var slice := Slice(Contents(h), h.filepointer, len);
      assert |slice| == r && forall k :: 0 <= k < r ==> data[k] == slice[k];
    }

    /** Two consecutive reads deliver what one read of both lengths would. */
    method ReadTwice(fd: int, first: array<byte>, second: array<byte>, a: nat, b: nat) returns (n: nat, m: nat)
      requires Valid() && first != sectors && second != sectors && first != second
      requires 0 <= fd < MAX_HANDLERS && handlers[fd].isOpen
      requires var h := handlers[fd];
               && OnDisc(disc, Record(h.lba, h.filesize, 0)) && h.filepointer >= 0 && h.filesize < 0x8000_0000
               && h.filepointer + a + b < 0x8000_0000 && a <= first.Length && b <= second.Length
      modifies handlers, sectors, first, second
      ensures var h := old(handlers[fd]);
              && n <= first.Length && m <= second.Length
              && first[..n] + second[..m] == Slice(Contents(h), h.filepointer, a + b)
              && handlers[..] == old(handlers[..])[fd := h.(filepointer := h.filepointer + n + m)]
    {
      hide Slice;
      ghost var h := handlers[fd];
      ReadSplits(Contents(h), h.filepointer, a, b);
      n := Read(fd, first, a);
      m := Read(fd, second, b);
    }

    /** isofs_close. */
    method Close(fd: int) returns (r: int)
      requires Valid()
      modifies handlers
      ensures r == if 0 <= fd < MAX_HANDLERS && old(handlers[fd].isOpen) then 0 else EBADF
      ensures handlers[..] == if r == 0
              then old(handlers[..])[fd := old(handlers[fd]).(isOpen := false)] else old(handlers[..])
    {
      if fd < 0 || fd >= MAX_HANDLERS || !handlers[fd].isOpen {
        return EBADF;
      }
      handlers[fd] := handlers[fd].(isOpen := false);
      r := 0;
    }

    /** GetFreeHandle: the lowest free handle, handle 0 excepted. */
    method GetFreeHandle() returns (i: int)
      requires Valid()
      ensures i == EMFILE <==> forall k :: 1 <= k < MAX_HANDLERS ==> handlers[k].isOpen
      ensures i != EMFILE ==> 1 <= i < MAX_HANDLERS && !handlers[i].isOpen && forall k :: 1 <= k < i ==>
              handlers[k].isOpen
    {
      i := 1;
      while i < MAX_HANDLERS
        invariant 1 <= i <= MAX_HANDLERS && forall k :: 1 <= k < i ==> handlers[k].isOpen
      {
        if !handlers[i].isOpen {
          return;
        }
        i := i + 1;
      }
      i := EMFILE;
    }

    // ----- search

    /** strcmp of the entry at `p` with a name, after the driver has cut the identifier. */
    method SameName(p: nat, filename: seq<byte>, ghost d: seq<byte>) returns (same: bool)
      requires Valid() && d <= sectors[..] && GoodRecord(d, p) && !TooLong(Iso.EntryAt(d, p))
      ensures same <==> EntryName(Iso.EntryAt(d, p)) == filename
    {
      assert forall k :: 0 <= k < |d| ==> sectors[k] == d[k];
      var len: nat := sectors[p + 32] as int;
      assert sectors[p + 33..p + 33 + len] == Iso.EntryAt(d, p).id;
      if sectors[p + 33] == 0 {
        same := filename == DOT;
      } else if sectors[p + 33] == 1 {
        same := filename == DOT_DOT;
      } else {
        var name := new byte[NAME_SIZE](_ => 0);
        Store(name, 0, sectors[p + 33..p + 33 + len]);
        NormalizeName(name, sectors[p + 33..p + 33 + len]);
        same := StrEqual(name, 0, filename, NameEnd(Iso.EntryAt(d, p).id, 0));
        assert name[0..NameEnd(Iso.EntryAt(d, p).id, 0)] == name[..NameEnd(Iso.EntryAt(d, p).id, 0)];
      }
    }

    /** A matching record, unless a directory is wanted and it is none. */
    method Take(p: nat, isDir: bool, ghost d: seq<byte>) returns (o: Outcome)
      requires Valid() && d <= sectors[..] && GoodRecord(d, p)
      ensures var e := Iso.EntryAt(d, p);
              o == if isDir && !IsSpecial(e) && e.record.flags / DIRECTORY_FLAG % 2 == 0 then Error(ENOTDIR)
                   else Found(e.record)
    {
      assert forall k :: 0 <= k < |d| ==> sectors[k] == d[k];
      var record := RecordAt(sectors[..], p);
      if sectors[p + 33] > 1 && isDir && record.flags / DIRECTORY_FLAG % 2 == 0 {
        return Error(ENOTDIR);
      }
      o := Found(record);
    }

    /**
      The loop of FindFileLBA over the loaded directory `d` at sector `lba`: the first entry of that name
      among those the gap rule reaches, unless it meets one whose identifier is too long for the name buffer.
    */
    method Scan(filename: seq<byte>, lba: nat, isDir: bool, ghost d: seq<byte>) returns (o: Outcome)
      requires Valid() && |d| <= 8 * SECTOR_SIZE && |d| % SECTOR_SIZE == 0 && d <= sectors[..] && GoodFrom(d, 0)
      requires forall k :: |d| <= k < |d| + 64 ==> sectors[k] == 0
      ensures Named(Reached(d, 0, 0, lba)) && o == Search(Reached(d, 0, 0, lba), filename, isDir)
    {
      hide EntryName, GoodRecord, GoodFrom, Reached, IsSpecial, Gap, IntCast, Remainder, Search, TooLong;
      var p, oldDirLen: nat := 0, 0;
      var pos: int := IntCast(lba * SECTOR_SIZE);
      ReachedNamed(d, 0, 0, lba);
      SearchNothing(filename, isDir);
      ghost var all := Search(Reached(d, 0, 0, lba), filename, isDir);
      assert forall k :: 0 <= k < |d| ==> sectors[k] == d[k];
      while true
        invariant p <= |d| && oldDirLen < 256 && GoodFrom(d, p) && pos == IntCast(lba * SECTOR_SIZE + p)
        invariant Named(Reached(d, p, oldDirLen, lba)) && Search(Reached(d, p, oldDirLen, lba), filename, isDir) == all
        decreases |d| - p
      {
        if sectors[p] == 0 {
          var more;
          more, p, pos := Skip(p, pos, oldDirLen, lba, d);
          if !more {
            return Error(ENOENT);
          }
        }
        RecordAhead(d, p);
        var stop;
        stop, o := Visit(p, filename, isDir, oldDirLen, lba, d);
        if stop {
          return;
        }
        oldDirLen := sectors[p] as int;
        WrapAdds(lba * SECTOR_SIZE + p, oldDirLen);
        pos := IntCast(pos + oldDirLen);
        p := p + oldDirLen;
      }
    }

    /** One record of the scan: it ends the search, or the search goes on behind it. */
    method Visit(p: nat, filename: seq<byte>, isDir: bool, ghost last: nat, ghost lba: nat, ghost d: seq<byte>)
      returns (stop: bool, o: Outcome)
      requires Valid() && d <= sectors[..] && GoodFrom(d, p) && p < |d| && d[p] != 0
      ensures GoodFrom(d, p + d[p] as int)
      ensures Named(Reached(d, p, last, lba)) && Named(Reached(d, p + d[p] as int, d[p] as int, lba))
      ensures Search(Reached(d, p, last, lba), filename, isDir)
           == if stop then o else Search(Reached(d, p + d[p] as int, d[p] as int, lba), filename, isDir)
    {
      hide EntryName, GoodRecord, GoodFrom, Reached, IsSpecial, Gap, Search, TooLong;
      assert forall k :: 0 <= k < |d| ==> sectors[k] == d[k];
      ReachedNamed(d, p, last, lba);
      ReachedStep(d, p, last, lba);
      RecordInside(d, p);
      ReachedNamed(d, p + d[p] as int, d[p] as int, lba);
      SearchStep(Reached(d, p, last, lba), filename, isDir);
      if sectors[p + 32] > 32 {
        return true, Error(EINVAL);
      }
      var same := SameName(p, filename, d);
      stop, o := same, Error(ENOENT);
      if same {
        o := Take(p, isDir, d);
      }
    }

    /** The gap rule at a record of length zero: on to the next sector, or the end of the search. */
    method Skip(p0: nat, pos0: int, oldDirLen: nat, lba: nat, ghost d: seq<byte>) returns (more: bool, p: nat, pos: int)
      requires Valid() && |d| <= 8 * SECTOR_SIZE && |d| % SECTOR_SIZE == 0 && d <= sectors[..]
      requires forall k :: |d| <= k < |d| + 64 ==> sectors[k] == 0
      requires p0 <= |d| && GoodFrom(d, p0) && sectors[p0] == 0 && oldDirLen < 256
      requires pos0 == IntCast(lba * SECTOR_SIZE + p0)
      ensures !more ==> Reached(d, p0, oldDirLen, lba) == []
      ensures more ==>
                && p0 < p < |d| && GoodFrom(d, p) && d[p] != 0 && pos == IntCast(lba * SECTOR_SIZE + p)
                && Reached(d, p, oldDirLen, lba) == Reached(d, p0, oldDirLen, lba)
    {
      hide GoodFrom, Reached, IntCast, Remainder;
      p, pos, more := p0, pos0, false;
      assert forall k :: 0 <= k < |d| ==> sectors[k] == d[k];
      ReachedGap(d, p, oldDirLen, lba);
      var gap := SECTOR_SIZE - Remainder(pos, SECTOR_SIZE);
      if gap <= oldDirLen {
        WrapAdds(lba * SECTOR_SIZE + p, gap);
        p := p + gap;
        pos := IntCast(pos + gap);
        more := sectors[p] != 0;
      }
    }

    /**
      FindFileLBA on a directory of at most 8 sectors: what the driver's search among the entries that the
      scan reaches finds, which is the lookup among all entries if the directory hides nothing.
    */
    method FindFile(filename: seq<byte>, dir: Record, isDir: bool) returns (o: Outcome)
      requires Valid() && Searchable(disc, dir)
      modifies sectors
      ensures o == Look(disc, dir, filename, isDir, true)
      ensures GoodDirectory(disc, dir) || o.Found? ==> o == Look(disc, dir, filename, isDir, false)
    {
      hide Reached, Lookup, Search, GapsShort, GoodFrom;
      var res := ReadToBuffer(dir.lba, SizeToSectors(dir.size));
      ghost var d := DirBytes(disc, dir);
      assert d == sectors[..|d|];
      o := Scan(filename, dir.lba, isDir, d);
      LookSound(disc, dir, filename, isDir);
    }

    /** One round of FindPathLBA: the directory of that name in the directory of `record`. */
    method Descend(name: seq<byte>, record: Record, level: int, ghost dirs: set<Record>) returns (o: Outcome, next: int)
      requires Valid() && Volume(disc, dirs, true) && record in dirs
      modifies sectors
      ensures Searchable(disc, record)
      ensures o == if |name| + 1 > NAME_SIZE then Error(ENAMETOOLONG)
                   else if LevelAfter(level, name) > 8 then Error(EINVAL)
                   else Look(disc, record, name, true, true)
      ensures o.Found? ==> o.record in dirs && next == LevelAfter(level, name)
    {
      hide GoodDirectory, Listing, Volume, Look;
      InVolume(disc, dirs, record, true);
      next := level;
      if |name| + 1 > NAME_SIZE {
        return Error(ENAMETOOLONG), next;
      }
      if name == DOT {
      } else if name == DOT_DOT {
        next := next - 1;
      } else {
        next := next + 1;
      }
      if next > 8 {
        return Error(EINVAL), next;
      }
      LookStays(disc, dirs, record, name, true);
      o := FindFile(name, record, true);
    }

    /**
      FindPathLBA: one directory search for every component that a slash ends, which is for every name of the
      only list of names without slashes that the path is made of.
    */
    method FindPath(path: seq<byte>, ghost dirs: set<Record>) returns (o: Outcome)
      requires Valid() && Volume(disc, dirs, true) && root in dirs
      modifies sectors
      ensures o == Walk(disc, dirs, root, Components(path), 0, true)
      ensures forall names, rest :: Splits(path, names, rest) ==> o == Walk(disc, dirs, root, names, 0, true)
      ensures o.Found? ==> o.record in dirs
    {
      OneSplit(path);
      hide Listing, Volume, Walk, Look, LevelAfter, Components, SlashAt, Splits;
      var level := 0;
      var record := root;
      var curpath := 0;
      var p := SlashAt(path, 0);
      assert path[0..] == path;
      while p < |path|
        invariant curpath <= p <= |path| && p == SlashAt(path, curpath) && record in dirs
        invariant Walk(disc, dirs, record, Components(path[curpath..]), level, true)
                  == Walk(disc, dirs, root, Components(path), 0, true)
        decreases |path| - p
      {
        ComponentsFrom(path, curpath);
        WalkStep(disc, dirs, record, Components(path[curpath..]), level);
        o, level := Descend(path[curpath..p], record, level, dirs);
        if o.Error? {
          return;
        }
        record := o.record;
        curpath := p + 1;
        p := SlashAt(path, curpath);
      }
      ComponentsFrom(path, curpath);
      WalkStep(disc, dirs, record, Components(path[curpath..]), level);
      o := Found(record);
    }

    /**
      The path part of isofs_open: walk to the directory, look up the file, take a free handle on its
      extent.
    */
    method Open(path: seq<byte>, filename: seq<byte>, ghost dirs: set<Record>) returns (i: int)
      requires Valid() && Volume(disc, dirs, true) && root in dirs
      modifies sectors, handlers
      ensures var o := Resolve(disc, dirs, root, path, filename, true);
              if o.Error? then i == o.code && handlers[..] == old(handlers[..])
              else if forall k :: 1 <= k < MAX_HANDLERS ==> old(handlers[k].isOpen) then
                i == EMFILE && handlers[..] == old(handlers[..])
              else
                && 1 <= i < MAX_HANDLERS && !old(handlers[i].isOpen)
                && handlers[..] == old(handlers[..])[i := FileHandle(true, o.record.lba, o.record.size, 0)]
    {
      hide Listing, Volume, Walk, Look;
      WalkStays(disc, dirs, root, Components(path), 0, true);
      var dir := FindPath(path, dirs);
      if dir.Error? {
        return dir.code;
      }
      InVolume(disc, dirs, dir.record, true);
      var file := FindFile(filename, dir.record, false);
      if file.Error? {
        return file.code;
      }
      i := GetFreeHandle();
      if i < 0 {
        return;
      }
      handlers[i] := FileHandle(true, file.record.lba, file.record.size, 0);
    }
  }

  /** The record a path and a file name stand for; with `seen` what the driver takes them for. */
  function Resolve(disc: seq<byte>, dirs: set<Record>, root: Record, path: seq<byte>, filename: seq<byte>, seen: bool):
      Outcome
    requires Volume(disc, dirs, seen) && root in dirs
  {
    var dir := Walk(disc, dirs, root, Components(path), 0, seen);
    if dir.Error? then dir
    else
      WalkStays(disc, dirs, root, Components(path), 0, seen);
      Look(disc, dir.record, filename, false, seen)
  }

  lemma OneSplit(path: seq<byte>)
    ensures forall names: seq<seq<byte>>, rest: seq<byte> :: Splits(path, names, rest) ==> names == Components(path)
  {
    hide Splits, Components;
    forall names: seq<seq<byte>>, rest: seq<byte> | Splits(path, names, rest) ensures names == Components(path) {
      ComponentsUnique(path, names, rest);
    }
  }

  /** The same for the names that the path is made of. */
  lemma ResolveSplits(disc: seq<byte>, dirs: set<Record>, root: Record, path: seq<byte>, filename: seq<byte>,
      seen: bool, names: seq<seq<byte>>, rest: seq<byte>)
    requires Volume(disc, dirs, seen) && root in dirs && Splits(path, names, rest)
    ensures var dir := Walk(disc, dirs, root, names, 0, seen);
            && (dir.Found? ==> dir.record in dirs && Searchable(disc, dir.record))
            && Resolve(disc, dirs, root, path, filename, seen)
               == if dir.Error? then dir else Look(disc, dir.record, filename, false, seen)
  {
    hide Volume, Walk, Look, Components, Splits;
    ComponentsUnique(path, names, rest);
    WalkStays(disc, dirs, root, names, 0, seen);
  }

  /** What the driver opens is what path and name stand for, and in a good volume it opens all that is there. */
  lemma ResolveSound(disc: seq<byte>, dirs: set<Record>, root: Record, path: seq<byte>, filename: seq<byte>)
    requires Volume(disc, dirs, false) && root in dirs
    ensures Volume(disc, dirs, true)
    ensures var o := Resolve(disc, dirs, root, path, filename, true);
            o.Found? || GoodVolume(disc, dirs) ==> o == Resolve(disc, dirs, root, path, filename, false)
  {
    hide Volume, Walk, Look, GoodDirectory, Searchable, Components;
    WalkSound(disc, dirs, root, Components(path), 0);
    WalkStays(disc, dirs, root, Components(path), 0, true);
    var dir := Walk(disc, dirs, root, Components(path), 0, true);
    if dir.Found? {
      InVolume(disc, dirs, dir.record, true);
      LookSound(disc, dir.record, filename, false);
    }
  }

  /** One component of the driver's walk. */
  lemma WalkStep(disc: seq<byte>, dirs: set<Record>, r: Record, components: seq<seq<byte>>, level: int)
    requires Volume(disc, dirs, true) && r in dirs
    ensures Searchable(disc, r)
    ensures components == [] ==> Walk(disc, dirs, r, components, level, true) == Found(r)
    ensures components != [] ==>
              var name := components[0];
              var next := Look(disc, r, name, true, true);
              && (next.Found? ==> next.record in dirs)
              && Walk(disc, dirs, r, components, level, true)
                 == if |name| + 1 > NAME_SIZE then Error(ENAMETOOLONG)
                    else if LevelAfter(level, name) > 8 then Error(EINVAL)
                    else if next.Error? then next
                    else Walk(disc, dirs, next.record, components[1..], LevelAfter(level, name), true)
  {
    hide Listing, Look, Searchable;
    if components != [] {
      LookStays(disc, dirs, r, components[0], true);
    }
  }

  lemma {:induction false} WalkStays(disc: seq<byte>, dirs: set<Record>, r: Record, components: seq<seq<byte>>,
      level: int, seen: bool)
    requires Volume(disc, dirs, seen) && r in dirs
    ensures var o := Walk(disc, dirs, r, components, level, seen);
            o.Found? ==> o.record in dirs && Searchable(disc, o.record)
    decreases |components|
  {
    hide Volume, Searchable, Listing, Look;
    InVolume(disc, dirs, r, seen);
    if components != [] {
      var next := Look(disc, r, components[0], true, seen);
      LookStays(disc, dirs, r, components[0], seen);
      if next.Found? {
        WalkStays(disc, dirs, next.record, components[1..], LevelAfter(level, components[0]), seen);
      }
    }
  }

  lemma RecordAhead(d: seq<byte>, p: nat)
    requires GoodFrom(d, p) && p < |d| && d[p] != 0
    ensures p + d[p] as int <= |d|
  {
  }

  lemma RecordInside(d: seq<byte>, p: nat)
    requires GoodRecord(d, p)
    ensures p + 34 <= |d| && p + d[p] as int <= |d| && Iso.EntryAt(d, p).id != []
    ensures TooLong(Iso.EntryAt(d, p)) <==> d[p + 32] > 32
  {
  }

  lemma ComponentsFrom(path: seq<byte>, i: nat)
    requires i <= |path|
    ensures var k := SlashAt(path, i);
            Components(path[i..]) == if k == |path| then [] else [path[i..k]] + Components(path[k + 1..])
  {
    SlashShifts(path, i, i);
    var k := SlashAt(path, i);
    assert SlashAt(path[i..], 0) == k - i;
    if k < |path| {
      assert path[i..][..k - i] == path[i..k] && path[i..][k - i + 1..] == path[k + 1..];
    }
  }

  lemma {:induction false} SlashShifts(path: seq<byte>, i: nat, j: nat)
    requires i <= j <= |path|
    ensures SlashAt(path, j) == i + SlashAt(path[i..], j - i)
    decreases |path| - j
  {
    if j < |path| && path[j] != SLASH {
      SlashShifts(path, i, j + 1);
    }
  }

  /** UmdNormalizeName on a zero-filled buffer that holds an identifier: cuts it at the first ";1". */
  method NormalizeName(name: array<byte>, ghost id: seq<byte>)
    requires |id| <= NAME_SIZE == name.Length && NameEnd(id, 0) < NAME_SIZE
    requires name[..] == Overwritten(Repeat(0, NAME_SIZE), 0, id)
    modifies name
    ensures name[..NameEnd(id, 0)] == NormalName(id) && name[NameEnd(id, 0)] == 0
    ensures forall k :: 0 <= k < NameEnd(id, 0) ==> name[k] != 0
  {
    hide Overwritten, NameEnd;
    OverwrittenAt(Repeat(0, NAME_SIZE), 0, id);
    assert Holds(name[..], id);
    var i := CutAt(name, id);
    if name[i] != 0 {
      name[i] := 0;
    }
  }

  /** A zero-filled name buffer with an identifier in it. */
  predicate Holds(name: seq<byte>, id: seq<byte>) {
    |name| == NAME_SIZE && forall k :: 0 <= k < NAME_SIZE ==> name[k] == if k < |id| then id[k] else 0
  }

  /** strstr: the index of the first ";1", or else the end of the string. */
  method CutAt(name: array<byte>, ghost id: seq<byte>) returns (i: nat)
    requires |id| <= NAME_SIZE && NameEnd(id, 0) < NAME_SIZE && Holds(name[..], id)
    ensures i == NameEnd(id, 0) && forall k :: 0 <= k < i ==> name[k] != 0
  {
    hide NameEnd, Holds;
    i := 0;
    HoldsAt(name[..], id, 0);
    while name[i] != 0 && !(name[i] == 59 && name[i + 1] == 49)
      invariant 0 <= i <= |id| && NameEnd(id, i) == NameEnd(id, 0) < NAME_SIZE && i < name.Length == NAME_SIZE
      invariant name[i] == if i < |id| then id[i] else 0
      invariant i + 1 < NAME_SIZE ==> name[i + 1] == if i + 1 < |id| then id[i + 1] else 0
      invariant i + 1 == NAME_SIZE ==> name[i] == 0
      invariant forall k :: 0 <= k < i ==> name[k] != 0
      decreases |id| - i
    {
      NameStep(id, i);
      i := i + 1;
      HoldsAt(name[..], id, i);
      NameStep(id, i);
    }
    NameStep(id, i);
  }

  lemma HoldsAt(name: seq<byte>, id: seq<byte>, i: nat)
    requires Holds(name, id) && i <= |id| <= NAME_SIZE && NameEnd(id, i) < NAME_SIZE
    ensures |name| == NAME_SIZE && i < NAME_SIZE && name[i] == if i < |id| then id[i] else 0
    ensures i + 1 < NAME_SIZE ==> name[i + 1] == if i + 1 < |id| then id[i + 1] else 0
    ensures i + 1 == NAME_SIZE ==> name[i] == 0
  {
    if i < |id| {
      var e := NameEnd(id, i + 1);
    }
  }

  lemma NameStep(id: seq<byte>, i: nat)
    requires i <= |id|
    ensures NameEnd(id, i)
         == if i == |id| || id[i] == 0 || (i + 1 < |id| && id[i] == 59 && id[i + 1] == 49) then i
            else NameEnd(id, i + 1)
  {
  }
}
