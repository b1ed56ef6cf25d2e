/** src/file_io.c: cutting a partition into packets, and writing packets into the receiver's file.
    A file is its bytes; what a failing disk may do is a parameter of the write. */
module FileIO {
  import opened Basics
  import opened Packets

  // ---------------------------------------------------------------- cutting the partition

  /** Packets in a partition of `size` bytes. */
  function NumChunks(size: nat): nat {
    (size + CHUNK - 1) / CHUNK
  }

  /** A partition whose size fits the 32-bit `part_size`. */
  predicate IsPartition(src: seq<byte>) {
    |src| < TWO_32
  }

  function ChunkEnd(src: seq<byte>, i: nat): int {
    Min((i + 1) * CHUNK, |src|)
  }

  /** Packet `i` of a partition. */
  function Chunk(src: seq<byte>, i: nat): DataPacket
    requires IsPartition(src) && i < NumChunks(|src|)
  {
    Data(if i == 0 then DATA_START else if ChunkEnd(src, i) - i * CHUNK < CHUNK then DATA_END else DATA_SEGMENT,
         i, i * CHUNK, src[i * CHUNK..ChunkEnd(src, i)])
  }

  class PartitionReader {
    const contents: seq<byte>
    var cursor: nat
    var lastSeqNo: u32

    ghost predicate Valid()
      reads this
    {
      && IsPartition(contents)
      && lastSeqNo <= NumChunks(|contents|)
      && cursor == Min(lastSeqNo * CHUNK, |contents|)
    }

    constructor (contents: seq<byte>)
      requires IsPartition(contents)
      ensures Valid() && this.contents == contents && lastSeqNo == 0
    {
      this.contents := contents;
      cursor, lastSeqNo := 0, 0;
    }

    /** file_io_get_next_packet. fread sees the end of the file exactly when it comes up short, and
        the offset is stored in 32 bits. */
    method GetNextPacket() returns (p: Option<DataPacket>)
      requires Valid()
      modifies this
      ensures Valid()
      ensures old(lastSeqNo) < NumChunks(|contents|) ==>
                p == Some(Chunk(contents, old(lastSeqNo))) && lastSeqNo == old(lastSeqNo) + 1
      ensures old(lastSeqNo) >= NumChunks(|contents|) ==> p == None && lastSeqNo == old(lastSeqNo)
    {
      var offset := cursor;
      var size := Min(CHUNK, |contents| - cursor);
      var eof := |contents| - cursor < CHUNK;
      cursor := cursor + size;
      if size == 0 {
        return None;
      }
      var flag := DATA_SEGMENT;
      if offset == 0 {
        flag := DATA_START;
      } else if eof {
        flag := DATA_END;
      }
      p := Some(Data(flag, lastSeqNo, offset % TWO_32, contents[offset..offset + size]));
      lastSeqNo := Inc(lastSeqNo);
    }
  }

  /** The payloads of packets 0 to k - 1, one after the other. */
  function Joined(src: seq<byte>, k: nat): seq<byte>
    requires IsPartition(src) && k <= NumChunks(|src|)
  {
    if k == 0 then [] else Joined(src, k - 1) + Chunk(src, k - 1).payload
  }

  /** The packets tile the partition: joined together they are the partition. */
  lemma ChunksTile(src: seq<byte>)
    requires IsPartition(src)
    ensures Joined(src, NumChunks(|src|)) == src
  {
    JoinedIsPrefix(src, NumChunks(|src|));
    assert src[..|src|] == src;
  }

  lemma {:induction false} JoinedIsPrefix(src: seq<byte>, k: nat)
    requires IsPartition(src) && k <= NumChunks(|src|)
    ensures Joined(src, k) == src[..Min(k * CHUNK, |src|)]
  {
    if k > 0 {
      JoinedIsPrefix(src, k - 1);
      assert src[..ChunkEnd(src, k - 1)] == src[..(k - 1) * CHUNK] + src[(k - 1) * CHUNK..ChunkEnd(src, k - 1)];
    }
  }

  /** No field wraps, the number stays below the sequencer's sentinel, every packet but the last is
      full, START marks packet 0 only, and END marks the last packet, unless the size is a multiple
      of the chunk size or there is only one packet: then nothing is marked. */
  lemma ChunkFields(src: seq<byte>, i: nat)
    requires IsPartition(src) && i < NumChunks(|src|)
    ensures var p := Chunk(src, i);
            && p.WellFormed() && p.seqNo == i < UINT32_MAX && p.offset == i * CHUNK < |src|
            && |p.payload| == Min(CHUNK, |src| - i * CHUNK) > 0
            && (|p.payload| < CHUNK ==> i == NumChunks(|src|) - 1)
            && (p.flag == DATA_START <==> i == 0)
            && (p.flag == DATA_END <==> i == NumChunks(|src|) - 1 && EndIsMarked(|src|))
            && (p.flag == DATA_SEGMENT <==> i > 0 && !(i == NumChunks(|src|) - 1 && EndIsMarked(|src|)))
  {
  }

  predicate EndIsMarked(size: nat) {
    size > CHUNK && size % CHUNK != 0
  }

  // ---------------------------------------------------------------- the receiver's file

  function Zeros(n: nat): seq<byte> {
    seq(n, _ => 0)
  }

  /** Bytes of a file after `data` has been written at `offset`; a gap is filled with zeros. */
  function WriteAt(file: seq<byte>, offset: nat, data: seq<byte>): seq<byte> {
    if data == [] then file
    else if offset > |file| then file + Zeros(offset - |file|) + data
    else file[..offset] + data + (if offset + |data| <= |file| then file[offset + |data|..] else [])
  }

  /** What goes wrong while a packet is saved, if anything, and how many of its bytes get to the
      file all the same. */
  datatype Fault = NoFault | SeekFails | WriteStops(written: nat) | FlushFails(written: nat)

  /** file_io_save_packet: the file afterwards, and the value returned */
  function Saved(file: seq<byte>, p: Packet, fault: Fault): (seq<byte>, bool)
    requires p.Data?
  {
    match fault
    case NoFault => (WriteAt(file, p.offset, p.payload), true)
    case SeekFails => (file, false)
    case WriteStops(n) => (WriteAt(file, p.offset, p.payload[..Min(n, |p.payload|)]), n >= |p.payload|)
    case FlushFails(n) => (WriteAt(file, p.offset, p.payload[..Min(n, |p.payload|)]), false)
  }

  class OutFile {
    var bytes: seq<byte>
    var position: nat

    constructor ()
      ensures bytes == [] && position == 0
    {
      bytes, position := [], 0;
    }

    /** fwrite on a disk that accepts at most `accepted` more bytes; the number written */
    method Write(data: seq<byte>, accepted: nat) returns (n: nat)
      modifies this
      ensures n == Min(|data|, accepted)
      ensures bytes == WriteAt(old(bytes), old(position), data[..n]) && position == old(position) + n
    {
      n := Min(|data|, accepted);
      bytes := WriteAt(bytes, position, data[..n]);
      position := position + n;
    }

    method SavePacket(p: Packet, fault: Fault) returns (ok: bool)
      requires p.Data?
      modifies this
      ensures (bytes, ok) == Saved(old(bytes), p, fault)
    {
      if fault.SeekFails? {
        return false;
      }
      position := p.offset;
      var n := Write(p.payload, if fault.NoFault? then |p.payload| else fault.written);
      assert p.payload[..|p.payload|] == p.payload;
      if n != |p.payload| {
        return false;
      }
      return !fault.FlushFails?;
    }

    /** The loop of file_io_open_file_of_size after fopen(name, "wb") has emptied the file. */
    method FillWithZeros(size: nat, space: nat) returns (ok: bool)
      requires bytes == [] && position == 0
      modifies this
      ensures ok <==> size <= space
      ensures bytes == Zeros(Min(size, space))
    {
      var remaining := size;
      while remaining > 0
        invariant 0 <= remaining <= size && size - remaining <= space
        invariant bytes == Zeros(size - remaining) && position == size - remaining
      {
        var writeSize := if remaining > CHUNK then CHUNK else remaining;
        var n := Write(Zeros(writeSize), space - (size - remaining));
        if n != writeSize {
          return false;
        }
        remaining := remaining - writeSize;
      }
      return true;
    }
  }

  // ---------------------------------------------------------------- reassembly

  /** `file` has the size of the partition, shows the partition's bytes wherever a chunk of `saved`
      lies, and elsewhere shows either those bytes or the zeros it was created with. */
  ghost predicate Shows(file: seq<byte>, src: seq<byte>, saved: set<nat>) {
    && |file| == |src|
    && forall i :: 0 <= i < |src| ==> file[i] == src[i] || (file[i] == 0 && i / CHUNK !in saved)
  }

  lemma WriteInside(file: seq<byte>, offset: nat, data: seq<byte>)
    requires offset + |data| <= |file|
    ensures var after := WriteAt(file, offset, data);
            |after| == |file|
            && forall i :: 0 <= i < |file| ==>
                 after[i] == if offset <= i < offset + |data| then data[i - offset] else file[i]
  {
  }

  /** A write anywhere in a file: the bytes written, then the old ones, and zeros in a gap. */
  lemma WriteAnywhere(file: seq<byte>, offset: nat, data: seq<byte>)
    requires data != []
    ensures var after := WriteAt(file, offset, data);
            && |after| == (if offset + |data| > |file| then offset + |data| else |file|)
            && forall i :: 0 <= i < |after| ==>
                 after[i] == if offset <= i < offset + |data| then data[i - offset]
                             else if i < |file| then file[i] else 0
  {
  }

  /** How many bytes of a payload of `size` bytes get to the file. */
  function Reaches(fault: Fault, size: nat): (n: nat)
    ensures n <= size
  {
    match fault
    case NoFault => size
    case SeekFails => 0
    case WriteStops(n) => Min(n, size)
    case FlushFails(n) => Min(n, size)
  }

  /** file_io_save_packet returns TRUE exactly when seek, write and flush all went well, and then every byte
      is in the file; otherwise a front part of the payload is, and nothing else has changed. */
  lemma SaveExact(file: seq<byte>, p: Packet, fault: Fault)
    requires p.Data? && p.offset + |p.payload| <= |file|
    ensures var (after, ok) := Saved(file, p, fault);
            var n := Reaches(fault, |p.payload|);
            && (ok <==> n == |p.payload| && !fault.SeekFails? && !fault.FlushFails?)
            && |after| == |file|
            && forall i :: 0 <= i < |file| ==>
                 after[i] == if p.offset <= i < p.offset + n then p.payload[i - p.offset] else file[i]
  {
    var n := Reaches(fault, |p.payload|);
    assert p.payload[..|p.payload|] == p.payload;
    WriteInside(file, p.offset, p.payload[..n]);
  }

  /** Saving a chunk, wholly or in part, keeps the picture, and a save that reports success adds
      the chunk to it. */
  lemma SaveKeepsPicture(file: seq<byte>, src: seq<byte>, saved: set<nat>, k: nat, fault: Fault)
    requires IsPartition(src) && k < NumChunks(|src|) && Shows(file, src, saved)
    ensures var (after, ok) := Saved(file, Chunk(src, k), fault);
            Shows(after, src, if ok then saved + {k} else saved)
  {
    var p := Chunk(src, k);
    var (after, ok) := Saved(file, p, fault);
    var n := Reaches(fault, |p.payload|);
    ChunkFields(src, k);
    SaveExact(file, p, fault);
    forall i | 0 <= i < |src|
      ensures after[i] == src[i] || (after[i] == 0 && i / CHUNK !in saved && !(ok && i / CHUNK == k))
    {
      InChunk(i, k);
      assert k * CHUNK <= i < k * CHUNK + n ==> p.payload[i - k * CHUNK] == src[i];
    }
  }

  lemma InChunk(i: nat, k: nat)
    ensures i / CHUNK == k <==> k * CHUNK <= i < (k + 1) * CHUNK
  {
  }

  /** A file that shows every chunk is the partition. */
  lemma AllShownIsPartition(file: seq<byte>, src: seq<byte>, saved: set<nat>)
    requires Shows(file, src, saved)
    requires forall k :: 0 <= k < NumChunks(|src|) ==> k in saved
    ensures file == src
  {
    forall i | 0 <= i < |src|
      ensures file[i] == src[i]
    {
      assert 0 <= i / CHUNK < NumChunks(|src|);
    }
  }

  /** A partition of zeros is shown by the file as it was created. */
  lemma ZerosShownAlready(src: seq<byte>)
    ensures Shows(Zeros(|src|), src, {})
  {
  }

  /** The file after the chunks `ks` have been saved, in this order, on a file of zeros. */
  function Reassembled(src: seq<byte>, ks: seq<nat>): seq<byte>
    requires IsPartition(src) && forall i :: 0 <= i < |ks| ==> ks[i] < NumChunks(|src|)
  {
    if ks == [] then Zeros(|src|)
    else Saved(Reassembled(src, ks[..|ks| - 1]), Chunk(src, ks[|ks| - 1]), NoFault).0
  }

  /** One chunk saved into a file of the partition's size changes the bytes of that chunk and no others. */
  lemma SavedBytes(src: seq<byte>, file: seq<byte>, k: nat)
    requires IsPartition(src) && k < NumChunks(|src|) && |file| == |src|
    ensures var after := Saved(file, Chunk(src, k), NoFault).0;
            |after| == |src| && forall i :: 0 <= i < |src| ==> after[i] == if i / CHUNK == k then src[i] else file[i]
  {
    ChunkFields(src, k);
    var p := Chunk(src, k);
    WriteInside(file, p.offset, p.payload);
    var after := WriteAt(file, p.offset, p.payload);
    forall i | 0 <= i < |src|
      ensures after[i] == if i / CHUNK == k then src[i] else file[i]
    {
      InChunk(i, k);
      assert i / CHUNK == k ==> p.payload[i - p.offset] == src[i];
    }
  }

  /** Reassembly does not depend on the order of the chunks or on repeats: the bytes of the chunks
      that came are the partition's, the others are zero. */
  lemma {:induction false} ReassemblyExact(src: seq<byte>, ks: seq<nat>)
    requires IsPartition(src) && forall i :: 0 <= i < |ks| ==> ks[i] < NumChunks(|src|)
    ensures var file := Reassembled(src, ks);
            |file| == |src| && forall i :: 0 <= i < |src| ==> file[i] == if i / CHUNK in ks then src[i] else 0
  {
    if ks != [] {
      var rest, k := ks[..|ks| - 1], ks[|ks| - 1];
      ReassemblyExact(src, rest);
      SavedBytes(src, Reassembled(src, rest), k);
      assert forall j: nat :: j in ks <==> j in rest || j == k by {
        assert ks == rest + [k];
      }
    }
  }
}
