/** Wire format of the JACDAC-SPI link: protocol constants, the fixed 252-byte frame
    (12-byte little-endian header followed by a 240-byte payload) and the 4-byte
    packet header that packets inside the payload start with.  Frames are handled as
    explicit byte sequences; every multi-byte field is little-endian. */
module Wire {
  import opened Bytes

  // ---------- protocol constants ----------

  /** The link sentinel stored in the frame's first header field (named `crc` on the wire). */
  const JDSPI_MAGIC: bv16 := 0x7ACD
  /** A second sentinel the peer may send; the decoder never accepts it. */
  const JDSPI_MAGIC_NOOP: bv16 := 0xB3CD

  const JD_CMD_GET_REG: bv16 := 0x1000
  const JD_CMD_SET_REG: bv16 := 0x2000

  /** Command that reads register `reg`. */
  function JdGet(reg: bv16): bv16 { JD_CMD_GET_REG | reg }
  /** Command that writes register `reg`. */
  function JdSet(reg: bv16): bv16 { JD_CMD_SET_REG | reg }

  const REG_PALETTE: bv16 := 0x80
  const REG_BRIGHTNESS: bv16 := 0x01
  const CMD_START_UPDATE: bv16 := 0x81
  const CMD_SET_PIXELS: bv16 := 0x83
  const REG_READING: bv16 := 0x101

  /** Service numbers and device identifier the driver fixes at construction. */
  const DISPLAY_SERVICE: bv8 := 1
  const GAMEPAD_SERVICE: bv8 := 2
  const DEVICE_ID: bv64 := 0x1234_5678_9ABC_DEF0

  lemma CommandValues()
    ensures JdGet(REG_READING) == 0x1101
    ensures JdSet(REG_PALETTE) == 0x2080
    ensures JdSet(REG_BRIGHTNESS) == 0x2001
    ensures JdGet(REG_READING) & 0xF000 == JD_CMD_GET_REG
    ensures JdSet(REG_PALETTE) & 0xF000 == JD_CMD_SET_REG
    ensures JdSet(REG_BRIGHTNESS) & 0xF000 == JD_CMD_SET_REG
  {
  }

  // ---------- frame layout ----------

  const CRC_AT := 0
  const SIZE_AT := 2
  const FLAGS_AT := 3
  const DEVICE_AT := 4
  const HEADER_SIZE := 12
  const PAYLOAD_CAPACITY := 240
  const FRAME_SIZE := 252
  const PACKET_HEADER_SIZE := 4

  /** A frame is its 12-byte header followed by the 240-byte payload. */
  lemma FrameLayout()
    ensures FRAME_SIZE == HEADER_SIZE + PAYLOAD_CAPACITY
    ensures DEVICE_AT + 8 == HEADER_SIZE
  {
  }

  function Zeros(n: nat): (z: seq<bv8>)
    ensures |z| == n && forall i :: 0 <= i < n ==> z[i] == 0
  {
    seq(n, _ => 0)
  }

  /** The bytes of one frame as they travel over the link. */
  type FrameBytes = s: seq<bv8> | |s| == FRAME_SIZE witness Zeros(FRAME_SIZE)

  function Lo(x: bv16): bv8 { (x & 0xFF) as bv8 }
  function Hi(x: bv16): bv8 { (x >> 8) as bv8 }
  function Le16(lo: bv8, hi: bv8): bv16 { lo as bv16 | (hi as bv16 << 8) }

  lemma Le16RoundTrip(x: bv16, lo: bv8, hi: bv8)
    ensures Le16(Lo(x), Hi(x)) == x
    ensures Lo(Le16(lo, hi)) == lo && Hi(Le16(lo, hi)) == hi
  {
  }

  function Le64Bytes(x: bv64): (b: seq<bv8>)
    ensures |b| == 8
  {
    [(x & 0xFF) as bv8, ((x >> 8) & 0xFF) as bv8, ((x >> 16) & 0xFF) as bv8, ((x >> 24) & 0xFF) as bv8,
     ((x >> 32) & 0xFF) as bv8, ((x >> 40) & 0xFF) as bv8, ((x >> 48) & 0xFF) as bv8, (x >> 56) as bv8]
  }

  function Le64(b: seq<bv8>): bv64
    requires |b| >= 8
  {
    b[0] as bv64 | (b[1] as bv64 << 8) | (b[2] as bv64 << 16) | (b[3] as bv64 << 24) |
    (b[4] as bv64 << 32) | (b[5] as bv64 << 40) | (b[6] as bv64 << 48) | (b[7] as bv64 << 56)
  }

  /** Header fields of a frame (`jd_frame_t` without its payload). */
  datatype Header = Header(crc: bv16, size: bv8, flags: bv8, deviceIdentifier: bv64)

  function EncodeHeader(h: Header): (b: seq<bv8>)
    ensures |b| == HEADER_SIZE
  {
    [Lo(h.crc), Hi(h.crc), h.size, h.flags] + Le64Bytes(h.deviceIdentifier)
  }

  function DecodeHeader(b: seq<bv8>): Header
    requires |b| >= HEADER_SIZE
  {
    Header(Le16(b[CRC_AT], b[CRC_AT + 1]), b[SIZE_AT], b[FLAGS_AT], Le64(b[DEVICE_AT..HEADER_SIZE]))
  }

  /** Encoding a header and decoding the bytes gives the header back. */
  lemma HeaderRoundTrip(h: Header)
    ensures DecodeHeader(EncodeHeader(h)) == h
  {
    var b := EncodeHeader(h);
    assert b[DEVICE_AT..HEADER_SIZE] == Le64Bytes(h.deviceIdentifier);
  }

  /** The device identifier's eight bytes on the wire, least significant first. */
  const DEVICE_ID_BYTES: seq<bv8> := [0xF0, 0xDE, 0xBC, 0x9A, 0x78, 0x56, 0x34, 0x12]

  lemma DeviceIdBytes()
    ensures Le64Bytes(DEVICE_ID) == DEVICE_ID_BYTES
    ensures Le64(DEVICE_ID_BYTES) == DEVICE_ID
  {
  }

  /** The sentinel field of a frame. */
  function Crc(f: FrameBytes): bv16 { Le16(f[CRC_AT], f[CRC_AT + 1]) }

  /** Count of payload bytes the packets of a frame occupy. */
  function Size(f: FrameBytes): nat { f[SIZE_AT] as int }

  // ---------- packets ----------

  /** Header of one packet (`jd_packet_t` without its data). */
  datatype PacketHeader = PacketHeader(serviceSize: bv8, serviceNumber: bv8, serviceCommand: bv16)

  function EncodePacketHeader(p: PacketHeader): (b: seq<bv8>)
    ensures |b| == PACKET_HEADER_SIZE
  {
    [p.serviceSize, p.serviceNumber, Lo(p.serviceCommand), Hi(p.serviceCommand)]
  }

  /** The packet header whose four bytes start at index `at` of `b`. */
  function PacketHeaderAt(b: seq<bv8>, at: nat): PacketHeader
    requires at + PACKET_HEADER_SIZE <= |b|
  {
    PacketHeader(b[at], b[at + 1], Le16(b[at + 2], b[at + 3]))
  }

  /** Encoding and decoding a packet header are inverse, wherever the bytes sit. */
  lemma PacketHeaderRoundTrip(p: PacketHeader, b: seq<bv8>, at: nat)
    requires at + PACKET_HEADER_SIZE <= |b|
    ensures PacketHeaderAt(EncodePacketHeader(p), 0) == p
    ensures EncodePacketHeader(PacketHeaderAt(b, at)) == b[at..at + PACKET_HEADER_SIZE]
  {
    Le16RoundTrip(p.serviceCommand, b[at + 2], b[at + 3]);
  }

  datatype Packet = Packet(header: PacketHeader, data: seq<bv8>)

  /** Payload bytes one packet with `serviceSize` data bytes occupies: its header plus its
      data rounded up to a multiple of 4 (the source's `(size + 4 + 3) & ~3`). */
  function Footprint(serviceSize: bv8): (r: nat)
    ensures r % 4 == 0
    ensures PACKET_HEADER_SIZE + serviceSize as int <= r < PACKET_HEADER_SIZE + serviceSize as int + 4
  {
    (serviceSize as int + PACKET_HEADER_SIZE + 3) / 4 * 4
  }

  /** The frame's size byte after `pushPacket` adds a packet's footprint to it. */
  function GrownSize(used: bv8, serviceSize: bv8): (r: bv8)
    requires used as int + Footprint(serviceSize) < 256
    ensures r as int == used as int + Footprint(serviceSize)
  {
    ToByte(used as int + Footprint(serviceSize))
  }

  /** The packet whose header starts at payload offset `offset`. */
  function PacketAt(f: FrameBytes, offset: nat): (p: Packet)
    requires offset + PACKET_HEADER_SIZE <= PAYLOAD_CAPACITY
    requires offset + PACKET_HEADER_SIZE + f[HEADER_SIZE + offset] as int <= PAYLOAD_CAPACITY
    ensures |p.data| == p.header.serviceSize as int
  {
    var at := HEADER_SIZE + offset;
    var h := PacketHeaderAt(f, at);
    Packet(h, f[at + PACKET_HEADER_SIZE..at + PACKET_HEADER_SIZE + h.serviceSize as int])
  }

  /** `f` with `bytes` copied in at index `at` (a `memcpy` into the frame). */
  function Written(f: FrameBytes, at: nat, bytes: seq<bv8>): (g: FrameBytes)
    requires at + |bytes| <= FRAME_SIZE
    ensures forall r :: 0 <= r < |bytes| ==> g[at + r] == bytes[r]
    ensures forall i {:trigger g[i]} :: 0 <= i < FRAME_SIZE && !(at <= i < at + |bytes|) ==> g[i] == f[i]
  {
    seq(FRAME_SIZE, i requires 0 <= i < FRAME_SIZE => if at <= i < at + |bytes| then bytes[i - at] else f[i])
  }

  /** The frame after the packet builder appended a packet header: the header goes to
      payload offset `Size(f)` and the size field grows by the packet's footprint. */
  function Pushed(f: FrameBytes, serviceNumber: bv8, serviceCommand: bv16, serviceSize: bv8): (g: FrameBytes)
    requires Size(f) + Footprint(serviceSize) <= PAYLOAD_CAPACITY
    ensures g[SIZE_AT] == GrownSize(f[SIZE_AT], serviceSize)
    ensures Size(g) == Size(f) + Footprint(serviceSize)
  {
    var at := HEADER_SIZE + Size(f);
    f[at := serviceSize][at + 1 := serviceNumber][at + 2 := Lo(serviceCommand)][at + 3 := Hi(serviceCommand)]
      [SIZE_AT := GrownSize(f[SIZE_AT], serviceSize)]
  }

  /** Byte r of the header `Pushed` appends. */
  lemma {:induction false} PushedHeaderByte(f: FrameBytes, serviceNumber: bv8, serviceCommand: bv16, serviceSize: bv8, r: nat)
    requires Size(f) + Footprint(serviceSize) <= PAYLOAD_CAPACITY && r < PACKET_HEADER_SIZE
    ensures Pushed(f, serviceNumber, serviceCommand, serviceSize)[HEADER_SIZE + Size(f) + r]
            == EncodePacketHeader(PacketHeader(serviceSize, serviceNumber, serviceCommand))[r]
  {
    var g, at := Pushed(f, serviceNumber, serviceCommand, serviceSize), HEADER_SIZE + Size(f);
    var h := [serviceSize, serviceNumber, Lo(serviceCommand), Hi(serviceCommand)];
    assert EncodePacketHeader(PacketHeader(serviceSize, serviceNumber, serviceCommand)) == h;
    if r == 0 {
      assert g[at] == h[0];
    } else if r == 1 {
      assert g[at + 1] == h[1];
    } else if r == 2 {
      assert g[at + 2] == h[2];
    } else {
      assert g[at + 3] == h[3];
    }
  }

  /** `Pushed` leaves every byte but the size byte and the new header alone. */
  lemma {:induction false} PushedOtherByte(f: FrameBytes, serviceNumber: bv8, serviceCommand: bv16, serviceSize: bv8, i: nat)
    requires Size(f) + Footprint(serviceSize) <= PAYLOAD_CAPACITY && i < FRAME_SIZE && i != SIZE_AT
    requires !(HEADER_SIZE + Size(f) <= i < HEADER_SIZE + Size(f) + PACKET_HEADER_SIZE)
    ensures Pushed(f, serviceNumber, serviceCommand, serviceSize)[i] == f[i]
  {
  }

  /** After `Pushed` the encoded packet header sits at the old end of the payload, and
      every byte other than the size byte and those four is as before. */
  lemma {:induction false} PushedLayout(f: FrameBytes, serviceNumber: bv8, serviceCommand: bv16, serviceSize: bv8)
    requires Size(f) + Footprint(serviceSize) <= PAYLOAD_CAPACITY
    ensures var g, at := Pushed(f, serviceNumber, serviceCommand, serviceSize), HEADER_SIZE + Size(f);
            && g[at..at + PACKET_HEADER_SIZE] == EncodePacketHeader(PacketHeader(serviceSize, serviceNumber, serviceCommand))
            && (forall i {:trigger g[i]} :: 0 <= i < FRAME_SIZE && i != SIZE_AT && !(at <= i < at + PACKET_HEADER_SIZE) ==> g[i] == f[i])
  {
    var g, at := Pushed(f, serviceNumber, serviceCommand, serviceSize), HEADER_SIZE + Size(f);
    forall r | 0 <= r < PACKET_HEADER_SIZE
      ensures g[at..at + PACKET_HEADER_SIZE][r] == EncodePacketHeader(PacketHeader(serviceSize, serviceNumber, serviceCommand))[r]
    {
      PushedHeaderByte(f, serviceNumber, serviceCommand, serviceSize, r);
    }
    forall i | 0 <= i < FRAME_SIZE && i != SIZE_AT && !(at <= i < at + PACKET_HEADER_SIZE)
      ensures g[i] == f[i]
    {
      PushedOtherByte(f, serviceNumber, serviceCommand, serviceSize, i);
    }
  }

  /** Four bytes that encode a packet header decode to it. */
  lemma {:induction false} HeaderBytesAt(b: seq<bv8>, at: nat, header: PacketHeader)
    requires at + PACKET_HEADER_SIZE <= |b|
    requires forall r :: 0 <= r < PACKET_HEADER_SIZE ==> b[at + r] == EncodePacketHeader(header)[r]
    ensures PacketHeaderAt(b, at) == header
  {
    assert b[at] == EncodePacketHeader(header)[0];
    assert b[at + 1] == EncodePacketHeader(header)[1];
    assert b[at + 2] == EncodePacketHeader(header)[2];
    assert b[at + 3] == EncodePacketHeader(header)[3];
    Le16RoundTrip(header.serviceCommand, 0, 0);
  }

  /** A packet reads back as the header found at its offset and the data bytes behind it. */
  lemma {:induction false} PacketAtParts(g: FrameBytes, offset: nat, header: PacketHeader, data: seq<bv8>)
    requires |data| == header.serviceSize as int
    requires offset + PACKET_HEADER_SIZE + |data| <= PAYLOAD_CAPACITY
    requires PacketHeaderAt(g, HEADER_SIZE + offset) == header
    requires forall r :: 0 <= r < |data| ==> g[HEADER_SIZE + offset + PACKET_HEADER_SIZE + r] == data[r]
    ensures PacketAt(g, offset) == Packet(header, data)
  {
    var at := HEADER_SIZE + offset + PACKET_HEADER_SIZE;
    var d := g[at..at + |data|];
    assert forall r :: 0 <= r < |data| ==> d[r] == g[at + r];
  }

  /** Appending a packet and copying its data behind the header, then reading the
      packet back at the old size, gives the same service number, command and data. */
  lemma {:induction false} PushThenParse(f: FrameBytes, serviceNumber: bv8, serviceCommand: bv16, data: seq<bv8>, s: bv8)
    requires |data| == s as int
    requires Size(f) + Footprint(s) <= PAYLOAD_CAPACITY
    ensures var g := Written(Pushed(f, serviceNumber, serviceCommand, s), HEADER_SIZE + Size(f) + PACKET_HEADER_SIZE, data);
            && Size(g) == Size(f) + Footprint(s)
            && PacketAt(g, Size(f)) == Packet(PacketHeader(s, serviceNumber, serviceCommand), data)
  {
    var header := PacketHeader(s, serviceNumber, serviceCommand);
    var p := Pushed(f, serviceNumber, serviceCommand, s);
    var at := HEADER_SIZE + Size(f);
    var g := Written(p, at + PACKET_HEADER_SIZE, data);
    assert g[SIZE_AT] == p[SIZE_AT];
    forall r | 0 <= r < PACKET_HEADER_SIZE
      ensures g[at + r] == EncodePacketHeader(header)[r]
    {
      assert g[at + r] == p[at + r];
      PushedHeaderByte(f, serviceNumber, serviceCommand, s, r);
    }
    HeaderBytesAt(g, at, header);
    PacketAtParts(g, Size(f), header, data);
  }
}
