/** The frames the driver sends: the one-packet frames of `setPalette`, `setBrightness`
    and the START_UPDATE step of `transmitFramebuffer`, and the 54 batch frames that
    carry the framebuffer three columns at a time.  Each is the exact 252-byte sequence
    that goes over the link, sentinel included. */
module Frames {
  import opened Bytes
  import opened Wire
  import opened Framebuffer

  /** The transmit frame after `memset(&txFrame, 0, ...)` and setting the device
      identifier: zero everywhere except the identifier's eight bytes. */
  function BlankFrame(): (f: FrameBytes)
  {
    seq(FRAME_SIZE, i requires 0 <= i < FRAME_SIZE =>
      if DEVICE_AT <= i < HEADER_SIZE then DEVICE_ID_BYTES[i - DEVICE_AT] else 0)
  }

  /** The blank frame's header decodes to sentinel 0, size 0, no flags and the driver's
      device identifier, and its payload is all zeros. */
  lemma BlankFrameHeader()
    ensures DecodeHeader(BlankFrame()[..HEADER_SIZE]) == Header(0, 0, 0, DEVICE_ID)
    ensures Size(BlankFrame()) == 0
    ensures forall i :: HEADER_SIZE <= i < FRAME_SIZE ==> BlankFrame()[i] == 0
  {
    var h := BlankFrame()[..HEADER_SIZE];
    forall r | 0 <= r < 8
      ensures h[DEVICE_AT..HEADER_SIZE][r] == DEVICE_ID_BYTES[r]
    {
      assert BlankFrame()[DEVICE_AT + r] == DEVICE_ID_BYTES[r];
    }
    assert h[DEVICE_AT..HEADER_SIZE] == DEVICE_ID_BYTES;
    DeviceIdBytes();
  }

  /** The frame with the link sentinel stamped into its first field, as
      `transmitFrame` does before the exchange. */
  function WithMagic(f: FrameBytes): (g: FrameBytes)
    ensures Crc(g) == JDSPI_MAGIC
    ensures forall i {:trigger g[i]} :: 2 <= i < FRAME_SIZE ==> g[i] == f[i]
  {
    Le16RoundTrip(JDSPI_MAGIC, 0, 0);
    f[CRC_AT := Lo(JDSPI_MAGIC)][CRC_AT + 1 := Hi(JDSPI_MAGIC)]
  }

  /** Two frames that agree on a packet's bytes read the same packet there. */
  lemma {:induction false} SamePacketBytes(g: FrameBytes, h: FrameBytes, offset: nat, n: nat)
    requires offset + n <= PAYLOAD_CAPACITY && PACKET_HEADER_SIZE <= n
    requires offset + PACKET_HEADER_SIZE + h[HEADER_SIZE + offset] as int <= offset + n
    requires forall i :: HEADER_SIZE + offset <= i < HEADER_SIZE + offset + n ==> g[i] == h[i]
    ensures offset + PACKET_HEADER_SIZE + g[HEADER_SIZE + offset] as int <= PAYLOAD_CAPACITY
    ensures PacketAt(g, offset) == PacketAt(h, offset)
  {
    var at := HEADER_SIZE + offset;
    assert g[at] == h[at] && g[at + 1] == h[at + 1] && g[at + 2] == h[at + 2] && g[at + 3] == h[at + 3];
    var s := h[at] as int;
    assert g[at + PACKET_HEADER_SIZE..at + PACKET_HEADER_SIZE + s] == h[at + PACKET_HEADER_SIZE..at + PACKET_HEADER_SIZE + s];
  }

  /** A blank frame holding one display-service packet of `size` data bytes: the
      `pushPacket` call with a literal size followed by the write of its data. */
  function OnePacketFrame(command: bv16, size: bv8, data: seq<bv8>): (f: FrameBytes)
    requires |data| == size as int && Footprint(size) <= PAYLOAD_CAPACITY
  {
    BlankFrameHeader();
    Written(Pushed(BlankFrame(), DISPLAY_SERVICE, command, size), HEADER_SIZE + PACKET_HEADER_SIZE, data)
  }

  /** A one-packet frame, once stamped, has the sentinel, no flags and the driver's device
      identifier in its header. */
  lemma {:induction false} OnePacketHeader(command: bv16, size: bv8, data: seq<bv8>)
    requires |data| == size as int && Footprint(size) <= PAYLOAD_CAPACITY
    ensures var g := WithMagic(OnePacketFrame(command, size, data));
            && Crc(g) == JDSPI_MAGIC
            && g[FLAGS_AT] == 0
            && g[DEVICE_AT..HEADER_SIZE] == DEVICE_ID_BYTES
  {
    var blank := BlankFrame();
    assert Size(blank) == 0 by { assert blank[SIZE_AT] == 0; }
    var p := Pushed(blank, DISPLAY_SERVICE, command, size);
    var f := OnePacketFrame(command, size, data);
    var g := WithMagic(f);
    forall r | 0 <= r < 8
      ensures g[DEVICE_AT..HEADER_SIZE][r] == DEVICE_ID_BYTES[r]
    {
      var i := DEVICE_AT + r;
      PushedOtherByte(blank, DISPLAY_SERVICE, command, size, i);
      assert g[i] == f[i] == p[i] == blank[i];
    }
    assert g[FLAGS_AT] == f[FLAGS_AT] == p[FLAGS_AT];
  }

  /** A one-packet frame, once stamped, has a size of the packet's footprint and reads
      back as that packet. */
  lemma {:induction false} OnePacketLayout(command: bv16, size: bv8, data: seq<bv8>)
    requires |data| == size as int && Footprint(size) <= PAYLOAD_CAPACITY
    ensures var g := WithMagic(OnePacketFrame(command, size, data));
            && Size(g) == Footprint(size)
            && PacketAt(g, 0) == Packet(PacketHeader(size, DISPLAY_SERVICE, command), data)
  {
    var blank := BlankFrame();
    assert Size(blank) == 0 by { assert blank[SIZE_AT] == 0; }
    PushThenParse(blank, DISPLAY_SERVICE, command, data, size);
    StampKeepsPacket(OnePacketFrame(command, size, data), 0);
  }

  /** Stamping the sentinel changes neither the size nor a packet of the payload. */
  lemma {:induction false} StampKeepsPacket(w: FrameBytes, offset: nat)
    requires offset + PACKET_HEADER_SIZE <= PAYLOAD_CAPACITY
    requires offset + PACKET_HEADER_SIZE + w[HEADER_SIZE + offset] as int <= PAYLOAD_CAPACITY
    ensures Size(WithMagic(w)) == Size(w)
    ensures WithMagic(w)[HEADER_SIZE + offset] == w[HEADER_SIZE + offset]
    ensures PacketAt(WithMagic(w), offset) == PacketAt(w, offset)
  {
    var g := WithMagic(w);
    assert g[SIZE_AT] == w[SIZE_AT];
    SamePacketBytes(g, w, offset, PACKET_HEADER_SIZE + w[HEADER_SIZE + offset] as int);
  }

  /** A one-packet frame is zero after the packet's data. */
  lemma {:induction false} OnePacketTail(command: bv16, size: bv8, data: seq<bv8>, i: nat)
    requires |data| == size as int && Footprint(size) <= PAYLOAD_CAPACITY
    requires HEADER_SIZE + PACKET_HEADER_SIZE + |data| <= i < FRAME_SIZE
    ensures WithMagic(OnePacketFrame(command, size, data))[i] == 0
  {
    var blank := BlankFrame();
    assert Size(blank) == 0 by { assert blank[SIZE_AT] == 0; }
    var p := Pushed(blank, DISPLAY_SERVICE, command, size);
    var f := OnePacketFrame(command, size, data);
    assert WithMagic(f)[i] == f[i] == p[i] == blank[i];
  }

  /** The `jd_indexed_screen_start_update_t` payload: four little-endian 16-bit fields. */
  function RectBytes(x: bv16, y: bv16, width: bv16, height: bv16): (b: seq<bv8>)
    ensures |b| == 8
    ensures Le16(b[0], b[1]) == x && Le16(b[2], b[3]) == y
    ensures Le16(b[4], b[5]) == width && Le16(b[6], b[7]) == height
  {
    Le16RoundTrip(x, 0, 0);
    Le16RoundTrip(y, 0, 0);
    Le16RoundTrip(width, 0, 0);
    Le16RoundTrip(height, 0, 0);
    [Lo(x), Hi(x), Lo(y), Hi(y), Lo(width), Hi(width), Lo(height), Hi(height)]
  }

  /** The START_UPDATE frame: one packet announcing the whole display, x = 0, y = 0,
      width 160, height 120. */
  function StartUpdateFrame(): FrameBytes {
    WithMagic(OnePacketFrame(CMD_START_UPDATE, 8, RectBytes(0, 0, 160, 120)))
  }

  /** The frame `setPalette` sends: one packet setting the 64-byte palette register. */
  function PaletteFrame(palette: seq<bv8>): FrameBytes
    requires |palette| == 64
  {
    WithMagic(OnePacketFrame(JdSet(REG_PALETTE), 64, palette))
  }

  /** The frame `setBrightness` sends: one packet setting the 1-byte brightness register. */
  function BrightnessFrame(brightness: bv8): FrameBytes {
    WithMagic(OnePacketFrame(JdSet(REG_BRIGHTNESS), 1, [brightness]))
  }

  /** The START_UPDATE frame carries 12 payload bytes: one packet whose rectangle
      covers the whole display. */
  lemma {:induction false} StartUpdateFrameLayout()
    ensures Size(StartUpdateFrame()) == 12
    ensures PacketAt(StartUpdateFrame(), 0)
            == Packet(PacketHeader(8, DISPLAY_SERVICE, 0x81), [0, 0, 0, 0, 160, 0, 120, 0])
  {
    CommandValues();
    assert RectBytes(0, 0, 160, 120) == [0, 0, 0, 0, 160, 0, 120, 0];
    assert Footprint(8) == 12;
    OnePacketLayout(CMD_START_UPDATE, 8, RectBytes(0, 0, 160, 120));
  }

  /** The palette frame carries 68 payload bytes: one packet writing the palette
      register with the 64 given bytes. */
  lemma {:induction false} PaletteFrameLayout(palette: seq<bv8>)
    requires |palette| == 64
    ensures Size(PaletteFrame(palette)) == 68
    ensures PacketAt(PaletteFrame(palette), 0) == Packet(PacketHeader(64, DISPLAY_SERVICE, 0x2080), palette)
  {
    CommandValues();
    assert Footprint(64) == 68;
    OnePacketLayout(JdSet(REG_PALETTE), 64, palette);
  }

  /** The brightness frame carries 8 payload bytes: one packet writing the brightness
      register with the given level. */
  lemma {:induction false} BrightnessFrameLayout(brightness: bv8)
    ensures Size(BrightnessFrame(brightness)) == 8
    ensures PacketAt(BrightnessFrame(brightness), 0) == Packet(PacketHeader(1, DISPLAY_SERVICE, 0x2001), [brightness])
  {
    CommandValues();
    assert Footprint(1) == 8;
    OnePacketLayout(JdSet(REG_BRIGHTNESS), 1, [brightness]);
  }

  // ---------- framebuffer batches ----------

  const COLUMNS_PER_BATCH := 3
  /** ceil(160 / 3) batches. */
  const BATCH_COUNT := 54
  /** Payload bytes of one SET_PIXELS packet: its header and one column. */
  const COLUMN_PACKET_SIZE := 64
  /** `service_size` of a SET_PIXELS packet: one column. */
  const COLUMN_SIZE: bv8 := 60

  /** Number of columns in batch k: three, except for the last batch. */
  function BatchColumns(k: nat): (n: nat)
    requires k < BATCH_COUNT
    ensures 1 <= n <= COLUMNS_PER_BATCH && COLUMNS_PER_BATCH * k + n <= WIDTH
    ensures k + 1 < BATCH_COUNT ==> n == COLUMNS_PER_BATCH
  {
    if WIDTH - COLUMNS_PER_BATCH * k < COLUMNS_PER_BATCH then WIDTH - COLUMNS_PER_BATCH * k else COLUMNS_PER_BATCH
  }

  /** Number of columns carried by the first m batches. */
  function ColumnsSent(m: nat): nat
    requires m <= BATCH_COUNT
  {
    if m == 0 then 0 else ColumnsSent(m - 1) + BatchColumns(m - 1)
  }

  /** The batches are contiguous and cover the display: batch k starts at column 3k,
      the last batch has a single column, and the 54 batches carry 160 columns. */
  lemma {:induction false} BatchesCoverColumns(m: nat)
    requires m <= BATCH_COUNT
    ensures m < BATCH_COUNT ==> ColumnsSent(m) == COLUMNS_PER_BATCH * m
    ensures m == BATCH_COUNT ==> ColumnsSent(m) == WIDTH
    ensures BatchColumns(BATCH_COUNT - 1) == 1
  {
    if m > 0 {
      BatchesCoverColumns(m - 1);
    }
  }

  /** The 60 bytes of column `col`, the stride the framebuffer is indexed with. */
  function Column(fb: seq<bv8>, col: nat): (c: seq<bv8>)
    requires |fb| == FRAMEBUFFER_SIZE && col < WIDTH
    ensures |c| == COLUMN_BYTES
  {
    fb[col * COLUMN_BYTES..col * COLUMN_BYTES + COLUMN_BYTES]
  }

  lemma ColumnPacketFootprint()
    ensures COLUMN_SIZE as int == COLUMN_BYTES
    ensures Footprint(COLUMN_SIZE) == COLUMN_PACKET_SIZE == PACKET_HEADER_SIZE + COLUMN_BYTES
  {
  }

  /** The header of every SET_PIXELS packet: 60 data bytes for the display service. */
  function ColumnPacketHeader(): PacketHeader {
    PacketHeader(COLUMN_SIZE, DISPLAY_SERVICE, CMD_SET_PIXELS)
  }

  /** Payload byte `o` of a frame whose packets carry columns `first`, ..., `first + count - 1`:
      packet j occupies bytes 64 j .. 64 j + 63, its header first, then column `first + j`;
      the payload is zero after the last packet. */
  function ColumnPayloadByte(fb: seq<bv8>, first: nat, count: nat, o: nat): bv8
    requires |fb| == FRAMEBUFFER_SIZE && first + count <= WIDTH && o < PAYLOAD_CAPACITY
  {
    var j, r := o / COLUMN_PACKET_SIZE, o % COLUMN_PACKET_SIZE;
    if j >= count then 0
    else if r < PACKET_HEADER_SIZE then EncodePacketHeader(ColumnPacketHeader())[r]
    else Column(fb, first + j)[r - PACKET_HEADER_SIZE]
  }

  /** The transmit frame after the batch loop pushed `count` SET_PIXELS packets carrying
      columns `first`, `first + 1`, ..., before it is stamped: the blank frame's header
      with a size of 64 per packet, and the packets laid out back to back. */
  function ColumnsFrame(fb: seq<bv8>, first: nat, count: nat): (g: FrameBytes)
    requires |fb| == FRAMEBUFFER_SIZE && first + count <= WIDTH && count <= COLUMNS_PER_BATCH
  {
    var size := ToByte(COLUMN_PACKET_SIZE * count);
    seq(FRAME_SIZE, i requires 0 <= i < FRAME_SIZE =>
      if i == SIZE_AT then size
      else if i < HEADER_SIZE then BlankFrame()[i]
      else ColumnPayloadByte(fb, first, count, i - HEADER_SIZE))
  }

  /** The size field of a columns frame counts 64 bytes per packet. */
  lemma ColumnsFrameSize(fb: seq<bv8>, first: nat, count: nat)
    requires |fb| == FRAMEBUFFER_SIZE && first + count <= WIDTH && count <= COLUMNS_PER_BATCH
    ensures ColumnsFrame(fb, first, count)[SIZE_AT] == ToByte(COLUMN_PACKET_SIZE * count)
    ensures Size(ColumnsFrame(fb, first, count)) == COLUMN_PACKET_SIZE * count
  {
  }

  /** The other header bytes of a columns frame are those of the blank frame. */
  lemma ColumnsFrameHeader(fb: seq<bv8>, first: nat, count: nat, i: nat)
    requires |fb| == FRAMEBUFFER_SIZE && first + count <= WIDTH && count <= COLUMNS_PER_BATCH
    requires i < HEADER_SIZE && i != SIZE_AT
    ensures ColumnsFrame(fb, first, count)[i] == BlankFrame()[i]
  {
  }

  /** Byte i of a columns frame's payload. */
  lemma ColumnsFramePayload(fb: seq<bv8>, first: nat, count: nat, i: nat)
    requires |fb| == FRAMEBUFFER_SIZE && first + count <= WIDTH && count <= COLUMNS_PER_BATCH
    requires HEADER_SIZE <= i < FRAME_SIZE
    ensures ColumnsFrame(fb, first, count)[i] == ColumnPayloadByte(fb, first, count, i - HEADER_SIZE)
  {
  }

  /** A payload offset at or after 64 c lies beyond the first c packets. */
  lemma BeyondPackets(o: nat, c: nat)
    requires COLUMN_PACKET_SIZE * c <= o
    ensures o / COLUMN_PACKET_SIZE >= c
  {
  }

  /** Where payload offset o falls: in packet j, at position o - 64 j. */
  lemma PacketSlot(o: nat, j: nat)
    requires COLUMN_PACKET_SIZE * j <= o < COLUMN_PACKET_SIZE * j + COLUMN_PACKET_SIZE
    ensures o / COLUMN_PACKET_SIZE == j && o % COLUMN_PACKET_SIZE == o - COLUMN_PACKET_SIZE * j
  {
  }

  /** Byte r of packet j of a columns frame: the packet header, then the column. */
  lemma {:induction false} ColumnsFrameSlot(fb: seq<bv8>, first: nat, count: nat, j: nat, r: nat)
    requires |fb| == FRAMEBUFFER_SIZE && first + count <= WIDTH && count <= COLUMNS_PER_BATCH
    requires j < count && r < COLUMN_PACKET_SIZE
    ensures ColumnsFrame(fb, first, count)[HEADER_SIZE + COLUMN_PACKET_SIZE * j + r]
            == if r < PACKET_HEADER_SIZE then EncodePacketHeader(ColumnPacketHeader())[r]
               else Column(fb, first + j)[r - PACKET_HEADER_SIZE]
  {
    ColumnsFramePayload(fb, first, count, HEADER_SIZE + COLUMN_PACKET_SIZE * j + r);
    PacketSlot(COLUMN_PACKET_SIZE * j + r, j);
  }

  /** With no packet pushed, the columns frame is the blank frame. */
  lemma {:induction false} NoColumnsIsBlank(fb: seq<bv8>, first: nat)
    requires |fb| == FRAMEBUFFER_SIZE && first <= WIDTH
    ensures ColumnsFrame(fb, first, 0) == BlankFrame()
  {
    var g := ColumnsFrame(fb, first, 0);
    forall i | 0 <= i < FRAME_SIZE
      ensures g[i] == BlankFrame()[i]
    {
      if i == SIZE_AT {
        ColumnsFrameSize(fb, first, 0);
      } else if i < HEADER_SIZE {
        ColumnsFrameHeader(fb, first, 0, i);
      } else {
        ColumnsFramePayload(fb, first, 0, i);
      }
    }
  }

  /** The frame after one more step of the batch loop: a SET_PIXELS header pushed onto the
      frame with n columns and column `first + n` copied behind it. */
  function PushedColumn(fb: seq<bv8>, first: nat, n: nat): FrameBytes
    requires |fb| == FRAMEBUFFER_SIZE && first + n < WIDTH && n < COLUMNS_PER_BATCH
  {
    var f := ColumnsFrame(fb, first, n);
    ColumnPacketFootprint();
    Written(Pushed(f, DISPLAY_SERVICE, CMD_SET_PIXELS, COLUMN_SIZE),
            HEADER_SIZE + Size(f) + PACKET_HEADER_SIZE, Column(fb, first + n))
  }

  /** The step adds one packet to the size field. */
  lemma {:induction false} PushColumnSizeByte(fb: seq<bv8>, first: nat, n: nat)
    requires |fb| == FRAMEBUFFER_SIZE && first + n < WIDTH && n < COLUMNS_PER_BATCH
    ensures PushedColumn(fb, first, n)[SIZE_AT] == ColumnsFrame(fb, first, n + 1)[SIZE_AT]
  {
    var f := ColumnsFrame(fb, first, n);
    ColumnPacketFootprint();
    ColumnsFrameSize(fb, first, n);
    ColumnsFrameSize(fb, first, n + 1);
    var p := Pushed(f, DISPLAY_SERVICE, CMD_SET_PIXELS, COLUMN_SIZE);
    assert PushedColumn(fb, first, n)[SIZE_AT] == p[SIZE_AT];
    assert f[SIZE_AT] as int + Footprint(COLUMN_SIZE) == COLUMN_PACKET_SIZE * (n + 1);
    assert GrownSize(f[SIZE_AT], COLUMN_SIZE) == ToByte(COLUMN_PACKET_SIZE * (n + 1));
  }

  /** The step leaves the rest of the frame header alone. */
  lemma {:induction false} PushColumnHeaderByte(fb: seq<bv8>, first: nat, n: nat, i: nat)
    requires |fb| == FRAMEBUFFER_SIZE && first + n < WIDTH && n < COLUMNS_PER_BATCH
    requires i < HEADER_SIZE && i != SIZE_AT
    ensures PushedColumn(fb, first, n)[i] == ColumnsFrame(fb, first, n + 1)[i]
  {
    var f := ColumnsFrame(fb, first, n);
    ColumnPacketFootprint();
    ColumnsFrameSize(fb, first, n);
    ColumnsFrameHeader(fb, first, n, i);
    ColumnsFrameHeader(fb, first, n + 1, i);
    var p := Pushed(f, DISPLAY_SERVICE, CMD_SET_PIXELS, COLUMN_SIZE);
    assert PushedColumn(fb, first, n)[i] == p[i];
    assert p[i] == f[i];
  }

  /** Byte r of an earlier packet j is untouched by the step. */
  lemma {:induction false} PushColumnEarlierByte(fb: seq<bv8>, first: nat, n: nat, j: nat, r: nat)
    requires |fb| == FRAMEBUFFER_SIZE && first + n < WIDTH && n < COLUMNS_PER_BATCH
    requires j < n && r < COLUMN_PACKET_SIZE
    ensures PushedColumn(fb, first, n)[HEADER_SIZE + COLUMN_PACKET_SIZE * j + r]
            == ColumnsFrame(fb, first, n + 1)[HEADER_SIZE + COLUMN_PACKET_SIZE * j + r]
  {
    var f := ColumnsFrame(fb, first, n);
    var i := HEADER_SIZE + COLUMN_PACKET_SIZE * j + r;
    ColumnPacketFootprint();
    ColumnsFrameSize(fb, first, n);
    ColumnsFrameSlot(fb, first, n, j, r);
    ColumnsFrameSlot(fb, first, n + 1, j, r);
    var p := Pushed(f, DISPLAY_SERVICE, CMD_SET_PIXELS, COLUMN_SIZE);
    assert PushedColumn(fb, first, n)[i] == p[i] == f[i];
  }

  /** The header bytes of the new packet. */
  lemma {:induction false} PushColumnNewHeaderByte(fb: seq<bv8>, first: nat, n: nat, r: nat)
    requires |fb| == FRAMEBUFFER_SIZE && first + n < WIDTH && n < COLUMNS_PER_BATCH
    requires r < PACKET_HEADER_SIZE
    ensures PushedColumn(fb, first, n)[HEADER_SIZE + COLUMN_PACKET_SIZE * n + r]
            == ColumnsFrame(fb, first, n + 1)[HEADER_SIZE + COLUMN_PACKET_SIZE * n + r]
  {
    var f := ColumnsFrame(fb, first, n);
    ColumnPacketFootprint();
    ColumnsFrameSize(fb, first, n);
    var at := HEADER_SIZE + COLUMN_PACKET_SIZE * n;
    var p := Pushed(f, DISPLAY_SERVICE, CMD_SET_PIXELS, COLUMN_SIZE);
    var g := Written(p, at + PACKET_HEADER_SIZE, Column(fb, first + n));
    ColumnsFrameSlot(fb, first, n + 1, n, r);
    assert g[at + r] == p[at + r];
    PushedHeaderByte(f, DISPLAY_SERVICE, CMD_SET_PIXELS, COLUMN_SIZE, r);
  }

  /** The step copies column `first + n` behind the new header. */
  lemma {:induction false} PushedColumnData(fb: seq<bv8>, first: nat, n: nat, k: nat)
    requires |fb| == FRAMEBUFFER_SIZE && first + n < WIDTH && n < COLUMNS_PER_BATCH
    requires k < COLUMN_BYTES
    ensures PushedColumn(fb, first, n)[HEADER_SIZE + COLUMN_PACKET_SIZE * n + PACKET_HEADER_SIZE + k] == Column(fb, first + n)[k]
  {
    var f := ColumnsFrame(fb, first, n);
    ColumnPacketFootprint();
    ColumnsFrameSize(fb, first, n);
    var at := HEADER_SIZE + COLUMN_PACKET_SIZE * n + PACKET_HEADER_SIZE;
    var column := Column(fb, first + n);
    var g := Written(Pushed(f, DISPLAY_SERVICE, CMD_SET_PIXELS, COLUMN_SIZE), at, column);
    assert PushedColumn(fb, first, n) == g;
    assert g[at + k] == column[k];
  }

  /** The data bytes of the new packet: the copied column. */
  lemma {:induction false} PushColumnNewDataByte(fb: seq<bv8>, first: nat, n: nat, k: nat)
    requires |fb| == FRAMEBUFFER_SIZE && first + n < WIDTH && n < COLUMNS_PER_BATCH
    requires k < COLUMN_BYTES
    ensures PushedColumn(fb, first, n)[HEADER_SIZE + COLUMN_PACKET_SIZE * n + PACKET_HEADER_SIZE + k]
            == ColumnsFrame(fb, first, n + 1)[HEADER_SIZE + COLUMN_PACKET_SIZE * n + PACKET_HEADER_SIZE + k]
  {
    PushedColumnData(fb, first, n, k);
    ColumnsFrameSlot(fb, first, n + 1, n, PACKET_HEADER_SIZE + k);
  }

  /** A byte after the new packet stays zero. */
  lemma {:induction false} PushColumnLaterByte(fb: seq<bv8>, first: nat, n: nat, i: nat)
    requires |fb| == FRAMEBUFFER_SIZE && first + n < WIDTH && n < COLUMNS_PER_BATCH
    requires HEADER_SIZE + COLUMN_PACKET_SIZE * (n + 1) <= i < FRAME_SIZE
    ensures PushedColumn(fb, first, n)[i] == ColumnsFrame(fb, first, n + 1)[i]
  {
    var f := ColumnsFrame(fb, first, n);
    ColumnPacketFootprint();
    ColumnsFrameSize(fb, first, n);
    ColumnsFramePayload(fb, first, n, i);
    ColumnsFramePayload(fb, first, n + 1, i);
    BeyondPackets(i - HEADER_SIZE, n + 1);
    var p := Pushed(f, DISPLAY_SERVICE, CMD_SET_PIXELS, COLUMN_SIZE);
    assert PushedColumn(fb, first, n)[i] == p[i] == f[i];
  }

  /** One byte of the step: the pushed frame agrees with the frame with n + 1 columns. */
  lemma {:induction false} PushColumnByte(fb: seq<bv8>, first: nat, n: nat, i: nat)
    requires |fb| == FRAMEBUFFER_SIZE && first + n < WIDTH && n < COLUMNS_PER_BATCH
    requires i < FRAME_SIZE
    ensures PushedColumn(fb, first, n)[i] == ColumnsFrame(fb, first, n + 1)[i]
  {
    if i < HEADER_SIZE {
      if i == SIZE_AT {
        PushColumnSizeByte(fb, first, n);
      } else {
        PushColumnHeaderByte(fb, first, n, i);
      }
    } else if i < HEADER_SIZE + COLUMN_PACKET_SIZE * n {
      var o := i - HEADER_SIZE;
      PushColumnEarlierByte(fb, first, n, o / COLUMN_PACKET_SIZE, o % COLUMN_PACKET_SIZE);
    } else if i < HEADER_SIZE + COLUMN_PACKET_SIZE * (n + 1) {
      var r := i - HEADER_SIZE - COLUMN_PACKET_SIZE * n;
      if r < PACKET_HEADER_SIZE {
        PushColumnNewHeaderByte(fb, first, n, r);
      } else {
        PushColumnNewDataByte(fb, first, n, r - PACKET_HEADER_SIZE);
      }
    } else {
      PushColumnLaterByte(fb, first, n, i);
    }
  }

  /** One step of the batch loop turns the frame with n columns into the frame with n + 1. */
  lemma {:induction false} PushColumn(fb: seq<bv8>, first: nat, n: nat)
    requires |fb| == FRAMEBUFFER_SIZE && first + n < WIDTH && n < COLUMNS_PER_BATCH
    ensures Size(ColumnsFrame(fb, first, n)) == COLUMN_PACKET_SIZE * n
    ensures PushedColumn(fb, first, n) == ColumnsFrame(fb, first, n + 1)
  {
    var g, e := PushedColumn(fb, first, n), ColumnsFrame(fb, first, n + 1);
    forall i | 0 <= i < FRAME_SIZE
      ensures g[i] == e[i]
    {
      PushColumnByte(fb, first, n, i);
    }
  }

  /** Packet j of a columns frame is a display SET_PIXELS packet carrying column `first + j`. */
  lemma {:induction false} ColumnPacketAt(fb: seq<bv8>, first: nat, count: nat, j: nat)
    requires |fb| == FRAMEBUFFER_SIZE && first + count <= WIDTH && count <= COLUMNS_PER_BATCH
    requires j < count
    ensures var g := ColumnsFrame(fb, first, count);
            && g[HEADER_SIZE + COLUMN_PACKET_SIZE * j] == COLUMN_SIZE
            && PacketAt(g, COLUMN_PACKET_SIZE * j) == Packet(ColumnPacketHeader(), Column(fb, first + j))
  {
    var g := ColumnsFrame(fb, first, count);
    var at := HEADER_SIZE + COLUMN_PACKET_SIZE * j;
    var column := Column(fb, first + j);
    forall r | 0 <= r < PACKET_HEADER_SIZE
      ensures g[at + r] == EncodePacketHeader(ColumnPacketHeader())[r]
    {
      ColumnsFrameSlot(fb, first, count, j, r);
    }
    forall r | 0 <= r < COLUMN_BYTES
      ensures g[at + PACKET_HEADER_SIZE + r] == column[r]
    {
      ColumnsFrameSlot(fb, first, count, j, r + PACKET_HEADER_SIZE);
    }
    HeaderBytesAt(g, at, ColumnPacketHeader());
    PacketAtParts(g, COLUMN_PACKET_SIZE * j, ColumnPacketHeader(), column);
  }

  /** Batch frame k: the columns of batch k, stamped. */
  function BatchFrame(fb: seq<bv8>, k: nat): FrameBytes
    requires |fb| == FRAMEBUFFER_SIZE && k < BATCH_COUNT
  {
    WithMagic(ColumnsFrame(fb, COLUMNS_PER_BATCH * k, BatchColumns(k)))
  }

  /** Header of batch frame k: the sentinel, no flags, the device identifier, and a
      payload of 64 bytes per column (at most 192 of the 240), zero after the packets. */
  lemma {:induction false} BatchFrameHeader(fb: seq<bv8>, k: nat)
    requires |fb| == FRAMEBUFFER_SIZE && k < BATCH_COUNT
    ensures var g := BatchFrame(fb, k);
            && Crc(g) == JDSPI_MAGIC
            && g[FLAGS_AT] == 0
            && g[DEVICE_AT..HEADER_SIZE] == DEVICE_ID_BYTES
            && Size(g) == COLUMN_PACKET_SIZE * BatchColumns(k) <= 192
            && (forall i :: HEADER_SIZE + Size(g) <= i < FRAME_SIZE ==> g[i] == 0)
  {
    var first, count := COLUMNS_PER_BATCH * k, BatchColumns(k);
    var f := ColumnsFrame(fb, first, count);
    var g := BatchFrame(fb, k);
    ColumnsFrameSize(fb, first, count);
    ColumnsFrameHeader(fb, first, count, FLAGS_AT);
    assert g[SIZE_AT] == f[SIZE_AT] && g[FLAGS_AT] == f[FLAGS_AT];
    forall i | DEVICE_AT <= i < HEADER_SIZE
      ensures g[i] == DEVICE_ID_BYTES[i - DEVICE_AT]
    {
      ColumnsFrameHeader(fb, first, count, i);
      assert g[i] == f[i];
    }
    forall i | HEADER_SIZE + Size(g) <= i < FRAME_SIZE
      ensures g[i] == 0
    {
      ColumnsFramePayload(fb, first, count, i);
      BeyondPackets(i - HEADER_SIZE, count);
      assert g[i] == f[i];
    }
  }

  /** Packet j of batch frame k carries column 3k + j. */
  lemma {:induction false} BatchFramePacket(fb: seq<bv8>, k: nat, j: nat)
    requires |fb| == FRAMEBUFFER_SIZE && k < BATCH_COUNT && j < BatchColumns(k)
    ensures && BatchFrame(fb, k)[HEADER_SIZE + COLUMN_PACKET_SIZE * j] == COLUMN_SIZE
            && PacketAt(BatchFrame(fb, k), COLUMN_PACKET_SIZE * j)
               == Packet(ColumnPacketHeader(), Column(fb, COLUMNS_PER_BATCH * k + j))
  {
    var first, count := COLUMNS_PER_BATCH * k, BatchColumns(k);
    ColumnPacketAt(fb, first, count, j);
    SamePacketBytes(BatchFrame(fb, k), ColumnsFrame(fb, first, count), COLUMN_PACKET_SIZE * j, COLUMN_PACKET_SIZE);
  }

  /** Every column of the framebuffer goes out: column c is packet c % 3 of batch c / 3. */
  lemma {:induction false} EveryColumnSent(fb: seq<bv8>, c: nat)
    requires |fb| == FRAMEBUFFER_SIZE && c < WIDTH
    ensures c / COLUMNS_PER_BATCH < BATCH_COUNT && c % COLUMNS_PER_BATCH < BatchColumns(c / COLUMNS_PER_BATCH)
    ensures && BatchFrame(fb, c / COLUMNS_PER_BATCH)[HEADER_SIZE + COLUMN_PACKET_SIZE * (c % COLUMNS_PER_BATCH)] == COLUMN_SIZE
            && PacketAt(BatchFrame(fb, c / COLUMNS_PER_BATCH), COLUMN_PACKET_SIZE * (c % COLUMNS_PER_BATCH))
               == Packet(ColumnPacketHeader(), Column(fb, c))
  {
    BatchFramePacket(fb, c / COLUMNS_PER_BATCH, c % COLUMNS_PER_BATCH);
  }

  /** The frames `transmitFramebuffer` sends after the START_UPDATE frame. */
  function Batches(fb: seq<bv8>): (s: seq<FrameBytes>)
    requires |fb| == FRAMEBUFFER_SIZE
    ensures |s| == BATCH_COUNT
  {
    seq(BATCH_COUNT, k requires 0 <= k < BATCH_COUNT => BatchFrame(fb, k))
  }

  /** Everything `transmitFramebuffer` sends when connected: 55 frames. */
  function FramebufferFrames(fb: seq<bv8>): (s: seq<FrameBytes>)
    requires |fb| == FRAMEBUFFER_SIZE
    ensures |s| == 1 + BATCH_COUNT == 55
  {
    [StartUpdateFrame()] + Batches(fb)
  }
}
