/** Compressor and decoders together: what goes in comes out. */
module Lz4RoundTrip {
  import opened Bytes
  import opened Lz4Format
  import opened Lz4Match
  import opened Lz4Checked
  import opened Lz4Compress
  import opened Lz4Decode

  /** A block has one meaning, so decoding undoes compressing whichever compressor made the block. */
  lemma OneMeaning(bytes: seq<byte>, data: seq<byte>, data': seq<byte>)
    requires Encodes(bytes, data) && Encodes(bytes, data')
    ensures data == data'
  {
    hide Encodes, Decode;
    EncodesDecodes(bytes, data);
    EncodesDecodes(bytes, data');
  }

  /**
    Compress, then decompress with either decoder, the safe one into `room` bytes. For every input and every
    capacity, a positive size `c` means that the data come back exactly; the fast decoder then returns `c`,
    the safe one the size of the data. Zero is possible only below the worst-case bound.
  */
  method RoundTrip(source: seq<byte>, dest: array<byte>, restored: array<byte>, capacity: nat, acceleration: int,
      safe: bool, room: nat, address: nat)
    returns (c: nat, r: int)
    requires |source| <= MAX_INPUT_SIZE && acceleration < 0x400_0000
    requires |source| <= room <= restored.Length && room < 0x8000_0000 && Placed(address, room)
    requires StoreLimit(|source|, capacity, capacity < CompressBound(|source|)) <= dest.Length
    modifies dest, restored
    ensures c == 0 ==> capacity < CompressBound(|source|)
    ensures c <= capacity && c <= CompressBound(|source|)
    ensures c > 0 ==> restored[..|source|] == source && r == if safe then |source| else c
  {
    hide Encodes, EncodesGreedily, Overreads, Wraps, Result, StoreLimit;
    ghost var past;
    c, past := CompressFast(source, dest, |source|, capacity, acceleration);
    r := 0;
    if c > 0 {
      assert source[..|source|] == source;
      var block := dest[..c];
      assert block[..c] == block;
      if safe {
        EncodesAccepted(block, source, room, address);
        r := DecompressSafe(block, restored, c, room, address);
      } else {
        r := DecompressFast(block, restored, 0, |source|, block, source);
        assert restored[..|source|] == source;
      }
    }
  }
}
