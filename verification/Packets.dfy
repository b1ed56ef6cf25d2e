/** src/ucp_packet.c: three wire formats behind a type byte. `Image` is what an encoder writes,
    `Decoded` what a decoder makes of a buffer; the methods work on arrays as the C code does.
    Masks and shifts of unsigned words are written as remainders and quotients. */
module Packets {
  import opened Basics

  // ucp_packet_type_t, ucp_flag_t, ucp_flag_data_t
  const TYPE_CTRL: byte := 1
  const TYPE_DATA: byte := 2
  const TYPE_METADATA: byte := 3
  const FLAG_ACK: byte := 1
  const FLAG_NACK: byte := 2
  const FLAG_FIN: byte := 3
  const DATA_SEGMENT: byte := 0
  const DATA_START: byte := 1
  const DATA_END: byte := 2

  /** sizeof(ucp_packet_t) with 8-byte `size_t`, and sizeof(desination_name) */
  const SIZEOF_PACKET: int := 9200
  const NAME_SIZE: int := 20

  /** `Blank` is a packet structure that has only been zeroed. */
  datatype Packet =
    | Blank
    | Data(flag: byte, seqNo: u32, offset: u32, payload: seq<byte>)
    | Ctrl(seqNo: u32, flag: byte)
    | Metadata(name: seq<byte>, partIndex: byte, partSize: u32)
  {
    /** The sizes the structure's arrays enforce. */
    predicate WellFormed() {
      && (Data? ==> |payload| <= CHUNK)
      && (Metadata? ==> |name| == NAME_SIZE)
    }
  }

  /** What the client's windows hold. */
  type DataPacket = p: Packet | p.Data? && p.WellFormed() witness Data(0, 0, 0, [])

  /** `(x >> 8 * shift) & 0xFF` */
  function ByteAt(x: u32, shift: nat): byte {
    if shift == 0 then x % 0x100 else ByteAt(x / 0x100, shift - 1)
  }

  function Word(b3: byte, b2: byte, b1: byte, b0: byte): u32 {
    b3 * 0x100_0000 + b2 * 0x1_0000 + b1 * 0x100 + b0
  }

  lemma WordOfBytes(x: u32)
    ensures Word(ByteAt(x, 3), ByteAt(x, 2), ByteAt(x, 1), ByteAt(x, 0)) == x
  {
    var q1 := Quotient(x, 0x100_0000);
    var q2 := Quotient(q1, 0x1_0000);
    var q3 := Quotient(q2, 0x100);
    assert ByteAt(q1, 1) == ByteAt(q2, 0) && ByteAt(q1, 2) == ByteAt(q2, 1) == ByteAt(q3, 0) == q3;
    assert ByteAt(x, 1) == ByteAt(q1, 0) && ByteAt(x, 2) == ByteAt(q1, 1) && ByteAt(x, 3) == ByteAt(q1, 2);
  }

  lemma Quotient(x: u32, bound: u32) returns (q: u32)
    requires x < 0x100 * bound
    ensures q == x / 0x100 < bound && x == 0x100 * q + ByteAt(x, 0)
  {
    q := x / 0x100;
  }

  lemma LengthOfBytes(n: u32)
    requires n < 0x1_0000
    ensures 0x100 * (ByteAt(n, 1) as int) + ByteAt(n, 0) == n
  {
    assert ByteAt(n, 1) == ByteAt(n / 0x100, 0) == n / 0x100;
  }

  function LittleEndian(x: u32): seq<byte> {
    [ByteAt(x, 0), ByteAt(x, 1), ByteAt(x, 2), ByteAt(x, 3)]
  }

  function BigEndian(x: u32): seq<byte> {
    [ByteAt(x, 3), ByteAt(x, 2), ByteAt(x, 1), ByteAt(x, 0)]
  }

  /** The bytes ucp_packet_encode puts at the front of the buffer. */
  function Image(p: Packet): seq<byte>
    requires p.WellFormed()
  {
    match p
    case Blank => []
    case Data(flag, seqNo, offset, payload) =>
      [TYPE_DATA, flag] + LittleEndian(seqNo) + LittleEndian(offset)
      + [ByteAt(|payload|, 0), ByteAt(|payload|, 1)] + payload
    case Ctrl(seqNo, flag) =>
      [TYPE_CTRL, flag] + LittleEndian(seqNo)
    case Metadata(name, partIndex, partSize) =>
      [TYPE_METADATA, partIndex] + BigEndian(partSize) + name
  }

  /** What is sent when several packets go out one after the other. */
  function Images(ps: seq<Packet>): (ms: seq<seq<byte>>)
    requires forall i :: 0 <= i < |ps| ==> ps[i].WellFormed()
    ensures |ms| == |ps| && forall i :: 0 <= i < |ms| ==> ms[i] == Image(ps[i])
  {
    seq(|ps|, i requires 0 <= i < |ps| => Image(ps[i]))
  }

  /** The number written with the least, or with the most, significant byte first. */
  function LittleValue(bs: seq<byte>): nat {
    if bs == [] then 0 else (bs[0] as int) + 0x100 * LittleValue(bs[1..])
  }

  function BigValue(bs: seq<byte>): nat {
    if bs == [] then 0 else 0x100 * BigValue(bs[..|bs| - 1]) + (bs[|bs| - 1] as int)
  }

  /** The wire format in numbers: where each field lies, and which end of it comes first. */
  lemma WireFormat(p: Packet)
    requires p.WellFormed() && !p.Blank?
    ensures p.Ctrl? ==>
              var m := Image(p);
              |m| == 6 && m[0] == 1 && m[1] == p.flag && LittleValue(m[2..6]) == p.seqNo
    ensures p.Data? ==>
              var m := Image(p);
              && |m| == 12 + |p.payload| && m[0] == 2 && m[1] == p.flag
              && LittleValue(m[2..6]) == p.seqNo && LittleValue(m[6..10]) == p.offset
              && LittleValue(m[10..12]) == |p.payload| && m[12..] == p.payload
    ensures p.Metadata? ==>
              var m := Image(p);
              && |m| == 26 && m[0] == 3 && m[1] == p.partIndex
              && BigValue(m[2..6]) == p.partSize && m[6..] == p.name
  {
    match p
    case Ctrl(seqNo, _) =>
      LittleEndianValue(seqNo);
      assert Image(p)[2..6] == LittleEndian(seqNo);
    case Data(flag, seqNo, offset, payload) =>
      var len := [ByteAt(|payload|, 0), ByteAt(|payload|, 1)];
      DataParts(flag, LittleEndian(seqNo), LittleEndian(offset), len, payload);
      LittleEndianValue(seqNo);
      LittleEndianValue(offset);
      LengthValue(|payload|);
    case Metadata(name, _, partSize) =>
      BigEndianValue(partSize);
      assert Image(p)[2..6] == BigEndian(partSize) && Image(p)[6..] == name;
  }

  lemma DataParts(flag: byte, s: seq<byte>, o: seq<byte>, len: seq<byte>, payload: seq<byte>)
    requires |s| == |o| == 4 && |len| == 2
    ensures var m := [TYPE_DATA, flag] + s + o + len + payload;
            && |m| == 12 + |payload| && m[0] == TYPE_DATA && m[1] == flag
            && m[2..6] == s && m[6..10] == o && m[10..12] == len && m[12..] == payload
  {
  }

  lemma LittleStep(b: byte, rest: seq<byte>)
    ensures LittleValue([b] + rest) == b + 0x100 * LittleValue(rest)
  {
    assert ([b] + rest)[1..] == rest;
  }

  lemma BigStep(first: seq<byte>, b: byte)
    ensures BigValue(first + [b]) == 0x100 * BigValue(first) + b
  {
    assert (first + [b])[..|first|] == first;
  }

  lemma LittleEndianValue(x: u32)
    ensures LittleValue(LittleEndian(x)) == x
  {
    var b0, b1, b2, b3 := ByteAt(x, 0), ByteAt(x, 1), ByteAt(x, 2), ByteAt(x, 3);
    LittleStep(b3, []);
    LittleStep(b2, [b3]);
    LittleStep(b1, [b2, b3]);
    LittleStep(b0, [b1, b2, b3]);
    assert [b3] + [] == [b3] && [b2] + [b3] == [b2, b3] && [b1] + [b2, b3] == [b1, b2, b3];
    assert [b0] + [b1, b2, b3] == LittleEndian(x);
    WordOfBytes(x);
  }

  lemma LengthValue(n: u32)
    requires n < 0x1_0000
    ensures LittleValue([ByteAt(n, 0), ByteAt(n, 1)]) == n
  {
    var b0, b1 := ByteAt(n, 0), ByteAt(n, 1);
    LittleStep(b1, []);
    LittleStep(b0, [b1]);
    assert [b1] + [] == [b1] && [b0] + [b1] == [b0, b1];
    LengthOfBytes(n);
  }

  lemma BigEndianValue(x: u32)
    ensures BigValue(BigEndian(x)) == x
  {
    var b0, b1, b2, b3 := ByteAt(x, 0), ByteAt(x, 1), ByteAt(x, 2), ByteAt(x, 3);
    BigStep([], b3);
    BigStep([b3], b2);
    BigStep([b3, b2], b1);
    BigStep([b3, b2, b1], b0);
    assert [] + [b3] == [b3] && [b3] + [b2] == [b3, b2] && [b3, b2] + [b1] == [b3, b2, b1];
    assert [b3, b2, b1] + [b0] == BigEndian(x);
    WordOfBytes(x);
  }

  /** The buffer size an encoder or decoder insists on before touching the buffer. */
  function SizeChecked(p: Packet): nat {
    if p.Ctrl? then 6 else SIZEOF_PACKET
  }

  /** ucp_packet_encode: -1 for a buffer that is too small, -2 for an unknown type, otherwise the
      length of the image, which then fills the front of the buffer and leaves the rest alone. */
  method Encode(p: Packet, buf: array<byte>, bufLen: nat) returns (n: int)
    requires p.WellFormed() && bufLen <= buf.Length
    modifies buf
    ensures n == if p.Blank? then -2 else if bufLen < SizeChecked(p) then -1 else |Image(p)|
    ensures n < 0 ==> buf[..] == old(buf[..])
    ensures n >= 0 ==> n <= bufLen && buf[..] == Image(p) + old(buf[..])[n..]
  {
    match p
    case Blank =>
      n := -2;
    case Data(_, _, _, _) =>
      n := EncodeData(p, buf, bufLen);
    case Ctrl(_, _) =>
      n := EncodeCtrl(p, buf, bufLen);
    case Metadata(_, _, _) =>
      n := EncodeMetadata(p, buf, bufLen);
  }

  method EncodeData(p: Packet, buf: array<byte>, bufLen: nat) returns (n: int)
    requires p.Data? && p.WellFormed() && bufLen <= buf.Length
    modifies buf
    ensures n == if bufLen < SIZEOF_PACKET then -1 else |Image(p)|
    ensures n < 0 ==> buf[..] == old(buf[..])
    ensures n >= 0 ==> n <= bufLen && buf[..] == Image(p) + old(buf[..])[n..]
  {
    if bufLen < SIZEOF_PACKET {
      return -1;
    }
    PutDataHeader(p, buf);
    CopyInto(p.payload, buf, 12);
    n := 12 + |p.payload|;
    assert buf[..] == DataHeader(p) + p.payload + old(buf[..])[n..];
  }

  /** The twelve bytes before the payload. */
  function DataHeader(p: Packet): (h: seq<byte>)
    requires p.Data? && p.WellFormed()
    ensures |h| == 12 && Image(p) == h + p.payload
  {
    [TYPE_DATA, p.flag] + LittleEndian(p.seqNo) + LittleEndian(p.offset)
    + [ByteAt(|p.payload|, 0), ByteAt(|p.payload|, 1)]
  }

  /** A buffer that has the header's parts in their places, and is otherwise as it was. */
  lemma HeaderInPlace(p: Packet, buf: seq<byte>, was: seq<byte>)
    requires p.Data? && p.WellFormed() && |buf| == |was| >= 12
    requires buf[0] == TYPE_DATA && buf[1] == p.flag
    requires buf[2..6] == LittleEndian(p.seqNo) && buf[6..10] == LittleEndian(p.offset)
    requires buf[10] == ByteAt(|p.payload|, 0) && buf[11] == ByteAt(|p.payload|, 1)
    requires buf[12..] == was[12..]
    ensures buf == DataHeader(p) + was[12..]
  {
    assert buf == buf[..2] + buf[2..6] + buf[6..10] + buf[10..12] + buf[12..];
  }

  method PutDataHeader(p: Packet, buf: array<byte>)
    requires p.Data? && p.WellFormed() && buf.Length >= 12
    modifies buf
    ensures buf[..] == DataHeader(p) + old(buf[..])[12..]
  {
    buf[0] := TYPE_DATA;
    buf[1] := p.flag;
    PutLittleEndian(p.seqNo, buf, 2);
    PutLittleEndian(p.offset, buf, 6);
    buf[10] := ByteAt(|p.payload|, 0);
    buf[11] := ByteAt(|p.payload|, 1);
    HeaderInPlace(p, buf[..], old(buf[..]));
  }

  method EncodeCtrl(p: Packet, buf: array<byte>, bufLen: nat) returns (n: int)
    requires p.Ctrl? && bufLen <= buf.Length
    modifies buf
    ensures n == if bufLen < 6 then -1 else |Image(p)|
    ensures n < 0 ==> buf[..] == old(buf[..])
    ensures n >= 0 ==> n <= bufLen && buf[..] == Image(p) + old(buf[..])[n..]
  {
    if bufLen < 6 {
      return -1;
    }
    buf[0] := TYPE_CTRL;
    buf[1] := p.flag;
    PutLittleEndian(p.seqNo, buf, 2);
    n := 6;
    assert buf[..] == buf[..2] + buf[2..6] + buf[6..];
  }

  method EncodeMetadata(p: Packet, buf: array<byte>, bufLen: nat) returns (n: int)
    requires p.Metadata? && p.WellFormed() && bufLen <= buf.Length
    modifies buf
    ensures n == if bufLen < SIZEOF_PACKET then -1 else |Image(p)|
    ensures n < 0 ==> buf[..] == old(buf[..])
    ensures n >= 0 ==> n <= bufLen && buf[..] == Image(p) + old(buf[..])[n..]
  {
    if bufLen < SIZEOF_PACKET {
      return -1;
    }
    buf[0] := TYPE_METADATA;
    buf[1] := p.partIndex;
    buf[2] := ByteAt(p.partSize, 3);
    buf[3] := ByteAt(p.partSize, 2);
    buf[4] := ByteAt(p.partSize, 1);
    buf[5] := ByteAt(p.partSize, 0);
    CopyInto(p.name, buf, 6);
    n := 6 + NAME_SIZE;
    assert buf[..n] == Image(p);
    assert buf[..] == buf[..n] + buf[n..];
  }

  method PutLittleEndian(x: u32, buf: array<byte>, at: nat)
    requires at + 4 <= buf.Length
    modifies buf
    ensures buf[at..at + 4] == LittleEndian(x)
    ensures forall i :: 0 <= i < at || at + 4 <= i < buf.Length ==> buf[i] == old(buf[i])
  {
    buf[at] := ByteAt(x, 0);
    buf[at + 1] := ByteAt(x, 1);
    buf[at + 2] := ByteAt(x, 2);
    buf[at + 3] := ByteAt(x, 3);
  }

  /** memcpy into the buffer */
  method CopyInto(src: seq<byte>, buf: array<byte>, at: nat)
    requires at + |src| <= buf.Length
    modifies buf
    ensures buf[..] == old(buf[..])[..at] + src + old(buf[..])[at + |src|..]
  {
    forall i | 0 <= i < |src| {
      buf[at + i] := src[i];
    }
  }

  // ---------------------------------------------------------------- decoding

  /** The seg_len field of a data packet. */
  function SegLen(buf: seq<byte>): nat
    requires |buf| >= 12
  {
    0x100 * (buf[11] as int) + buf[10]
  }

  /** The payload a buffer announces, if it gets that far in the decoder, fits a packet. */
  predicate Readable(buf: seq<byte>) {
    |buf| >= SIZEOF_PACKET && buf[0] == TYPE_DATA ==> SegLen(buf) <= CHUNK
  }

  /** ucp_packet_decode: what the caller's packet holds afterwards, given what it held before. A
      buffer that is too short, or of unknown type, leaves it as it was. */
  function Decoded(buf: seq<byte>, before: Packet): Packet
    requires Readable(buf)
  {
    if |buf| >= SIZEOF_PACKET && buf[0] == TYPE_DATA then
      Data(buf[1], Word(buf[5], buf[4], buf[3], buf[2]), Word(buf[9], buf[8], buf[7], buf[6]),
           buf[12..12 + SegLen(buf)])
    else if |buf| >= SIZEOF_PACKET && buf[0] == TYPE_METADATA then
      Metadata(buf[6..6 + NAME_SIZE], buf[1], Word(buf[2], buf[3], buf[4], buf[5]))
    else if |buf| >= 6 && buf[0] == TYPE_CTRL then
      Ctrl(Word(buf[5], buf[4], buf[3], buf[2]), buf[1])
    else before
  }

  /** A caller's packet structure. */
  class PacketCell {
    var packet: Packet

    constructor ()
      ensures packet == Blank
    {
      packet := Blank;
    }

    /** `overrun` says that the decoder wrote past `segment_data`; then nothing is known of what the
        structure holds. */
    method Decode(buf: array<byte>, bufLen: nat) returns (ghost overrun: bool)
      requires bufLen <= buf.Length && buf.Length > 0
      modifies this
      ensures overrun <==> !Readable(buf[..bufLen])
      ensures !overrun ==> packet == Decoded(buf[..bufLen], old(packet))
    {
      overrun := false;
      if buf[0] == TYPE_DATA {
        overrun := DecodeData(buf, bufLen);
      } else if buf[0] == TYPE_METADATA {
        if bufLen >= SIZEOF_PACKET {
          packet := Metadata(buf[6..6 + NAME_SIZE], buf[1], Word(buf[2], buf[3], buf[4], buf[5]));
          assert buf[..bufLen][6..6 + NAME_SIZE] == buf[6..6 + NAME_SIZE];
        }
      } else if buf[0] == TYPE_CTRL {
        if bufLen >= 6 {
          packet := Ctrl(Word(buf[5], buf[4], buf[3], buf[2]), buf[1]);
        }
      }
    }

    method DecodeData(buf: array<byte>, bufLen: nat) returns (ghost overrun: bool)
      requires bufLen <= buf.Length && buf.Length > 0 && buf[0] == TYPE_DATA
      modifies this
      ensures overrun <==> !Readable(buf[..bufLen])
      ensures !overrun ==> packet == Decoded(buf[..bufLen], old(packet))
    {
      overrun := false;
      if bufLen < SIZEOF_PACKET {
        return;
      }
      var segLen: nat := 0x100 * (buf[11] as int) + buf[10];
      assert segLen == SegLen(buf[..bufLen]);
      if segLen <= CHUNK {
        packet := Data(buf[1], Word(buf[5], buf[4], buf[3], buf[2]), Word(buf[9], buf[8], buf[7], buf[6]),
                       buf[12..12 + segLen]);
        assert buf[..bufLen][12..12 + segLen] == buf[12..12 + segLen];
      } else {
        overrun, packet := true, *;
      }
    }
  }

  /** Round trip: whatever stale bytes follow the image in the receive buffer, and whatever the
      packet structure held before, decoding gives back the packet. */
  lemma RoundTrip(p: Packet, stale: seq<byte>, before: Packet)
    requires p.WellFormed() && !p.Blank?
    requires |Image(p)| + |stale| >= SizeChecked(p)
    ensures Readable(Image(p) + stale)
    ensures Decoded(Image(p) + stale, before) == p
  {
    match p
    case Data(_, _, _, _) => RoundTripData(p, stale, before);
    case Ctrl(_, _) => RoundTripCtrl(p, stale, before);
    case Metadata(_, _, _) => RoundTripMetadata(p, stale, before);
  }

  lemma RoundTripData(p: Packet, stale: seq<byte>, before: Packet)
    requires p.Data? && p.WellFormed() && |Image(p)| + |stale| >= SIZEOF_PACKET
    ensures Readable(Image(p) + stale) && Decoded(Image(p) + stale, before) == p
  {
    var len := [ByteAt(|p.payload|, 0), ByteAt(|p.payload|, 1)];
    LengthOfBytes(|p.payload|);
    DataLayout(p.flag, LittleEndian(p.seqNo), LittleEndian(p.offset), len, p.payload, stale, before);
    WordOfBytes(p.seqNo);
    WordOfBytes(p.offset);
  }

  lemma RoundTripCtrl(p: Packet, stale: seq<byte>, before: Packet)
    requires p.Ctrl?
    ensures Readable(Image(p) + stale) && Decoded(Image(p) + stale, before) == p
  {
    WordOfBytes(p.seqNo);
  }

  lemma RoundTripMetadata(p: Packet, stale: seq<byte>, before: Packet)
    requires p.Metadata? && p.WellFormed() && |Image(p)| + |stale| >= SIZEOF_PACKET
    ensures Readable(Image(p) + stale) && Decoded(Image(p) + stale, before) == p
  {
    WordOfBytes(p.partSize);
    assert (Image(p) + stale)[6..6 + NAME_SIZE] == p.name;
  }

  /** Where the decoder finds the parts of a data packet in the buffer. */
  lemma DataLayout(flag: byte, s: seq<byte>, o: seq<byte>, len: seq<byte>, payload: seq<byte>, stale: seq<byte>,
                   before: Packet)
    requires |s| == |o| == 4 && |len| == 2 && |payload| <= CHUNK
    requires |payload| == 0x100 * (len[1] as int) + len[0]
    requires 12 + |payload| + |stale| >= SIZEOF_PACKET
    ensures var buf := [TYPE_DATA, flag] + s + o + len + payload + stale;
            && Readable(buf)
            && Decoded(buf, before) == Data(flag, Word(s[3], s[2], s[1], s[0]), Word(o[3], o[2], o[1], o[0]), payload)
  {
    var buf := [TYPE_DATA, flag] + s + o + len + payload + stale;
    assert buf[10] == len[0] && buf[11] == len[1];
    assert buf[12..12 + |payload|] == payload;
    assert buf[2] == s[0] && buf[3] == s[1] && buf[4] == s[2] && buf[5] == s[3];
    assert buf[6] == o[0] && buf[7] == o[1] && buf[8] == o[2] && buf[9] == o[3];
  }

  /** The buffer is long enough for the type it begins with. */
  predicate Announces(buf: seq<byte>) {
    || (|buf| >= 6 && buf[0] == TYPE_CTRL)
    || (|buf| >= SIZEOF_PACKET && (buf[0] == TYPE_DATA || buf[0] == TYPE_METADATA))
  }

  lemma BytesOfWord(b3: byte, b2: byte, b1: byte, b0: byte)
    ensures var x := Word(b3, b2, b1, b0);
            ByteAt(x, 0) == b0 && ByteAt(x, 1) == b1 && ByteAt(x, 2) == b2 && ByteAt(x, 3) == b3
  {
    var x := Word(b3, b2, b1, b0);
    var y := b3 * 0x1_0000 + b2 * 0x100 + b1;
    var z := b3 * 0x100 + b2;
    assert x == 0x100 * y + b0 && y == 0x100 * z + b1;
    assert x / 0x100 == y && y / 0x100 == z && z / 0x100 == b3;
    assert ByteAt(x, 1) == ByteAt(y, 0) && ByteAt(x, 2) == ByteAt(y, 1) == ByteAt(z, 0);
    assert ByteAt(x, 3) == ByteAt(y, 2) == ByteAt(z, 1) == ByteAt(b3, 0);
  }

  /** The other round trip: what a decoder makes of a buffer encodes to the front of that buffer; a buffer
      that is too short for its type, or of no type, decodes to what the packet held before. */
  lemma DecodedEncodes(buf: seq<byte>, before: Packet)
    requires Readable(buf)
    ensures var p := Decoded(buf, before);
            if Announces(buf) then p.WellFormed() && !p.Blank? && Image(p) <= buf else p == before
  {
    if Announces(buf) {
      if buf[0] == TYPE_METADATA {
        BytesOfWord(buf[2], buf[3], buf[4], buf[5]);
        assert buf[..26] == Image(Decoded(buf, before));
      } else {
        BytesOfWord(buf[5], buf[4], buf[3], buf[2]);
        if buf[0] == TYPE_DATA {
          DataEncodes(buf);
        } else {
          assert buf[..6] == Image(Decoded(buf, before));
        }
      }
    }
  }

  lemma DataEncodes(buf: seq<byte>)
    requires |buf| >= SIZEOF_PACKET && buf[0] == TYPE_DATA && SegLen(buf) <= CHUNK
    ensures var p := Data(buf[1], Word(buf[5], buf[4], buf[3], buf[2]), Word(buf[9], buf[8], buf[7], buf[6]),
                          buf[12..12 + SegLen(buf)]);
            Image(p) == buf[..12 + SegLen(buf)]
  {
    var n := SegLen(buf);
    BytesOfWord(buf[5], buf[4], buf[3], buf[2]);
    BytesOfWord(buf[9], buf[8], buf[7], buf[6]);
    assert ByteAt(n, 0) == buf[10] && ByteAt(n, 1) == ByteAt(n / 0x100, 0) == buf[11];
    assert buf[..12] == [TYPE_DATA, buf[1]] + buf[2..6] + buf[6..10] + buf[10..12];
    assert buf[..12 + n] == buf[..12] + buf[12..12 + n];
  }

  /** No buffer can be read as two packets: images are prefix-free. */
  lemma ImagesPrefixFree(p: Packet, q: Packet, s: seq<byte>, t: seq<byte>)
    requires p.WellFormed() && q.WellFormed() && !p.Blank? && !q.Blank?
    requires Image(p) + s == Image(q) + t
    ensures p == q && s == t
  {
    var pad := seq(SIZEOF_PACKET, _ => 0 as byte);
    assert Image(p) + (s + pad) == (Image(p) + s) + pad == Image(q) + (t + pad);
    RoundTrip(p, s + pad, Blank);
    RoundTrip(q, t + pad, Blank);
    assert s == (Image(p) + s)[|Image(p)|..] && t == (Image(q) + t)[|Image(q)|..];
  }
}
