/** The driver object: the transmit and receive frames, the packed framebuffer, the
    link state and the two button masks, with the operations that update them in
    place.  Each operation is specified by the value-level model in the modules it
    imports: the frames it sends are those of module Frames, the buffer it leaves is
    that of module Framebuffer, and the button masks follow module Response. */
module Shield {
  import opened Bytes
  import opened Wire
  import opened Framebuffer
  import opened Buttons
  import opened Response
  import opened Frames

  /** The full-duplex SPI link to the display co-processor.  The co-processor's answer
      to a frame is clocked in while that frame is clocked out, so it depends only on
      the frames it received before; `peer` says what it answers. */
  class Link {
    const peer: seq<FrameBytes> -> FrameBytes
    /** Every frame sent so far, oldest first. */
    var sent: seq<FrameBytes>

    constructor(peer: seq<FrameBytes> -> FrameBytes)
      ensures this.peer == peer && sent == []
    {
      this.peer := peer;
      sent := [];
    }

    /** One frame out, one frame in. */
    method Exchange(frame: FrameBytes) returns (reply: FrameBytes)
      modifies this
      ensures sent == old(sent) + [frame]
      ensures reply == peer(old(sent))
    {
      reply := peer(sent);
      sent := sent + [frame];
    }
  }

  /** The answers the co-processor gives while `frames` are sent after `before`. */
  function Replies(peer: seq<FrameBytes> -> FrameBytes, before: seq<FrameBytes>, frames: seq<FrameBytes>): (r: seq<FrameBytes>)
    ensures |r| == |frames|
    ensures forall i :: 0 <= i < |frames| ==> r[i] == peer(before + frames[..i])
  {
    seq(|frames|, i requires 0 <= i < |frames| => peer(before + frames[..i]))
  }

  /** Sending one more frame adds the answer to it. */
  lemma {:induction false} RepliesStep(peer: seq<FrameBytes> -> FrameBytes, before: seq<FrameBytes>, frames: seq<FrameBytes>, m: nat)
    requires m < |frames|
    ensures Replies(peer, before, frames[..m + 1]) == Replies(peer, before, frames[..m]) + [peer(before + frames[..m])]
  {
    var a, b := Replies(peer, before, frames[..m + 1]), Replies(peer, before, frames[..m]) + [peer(before + frames[..m])];
    forall i | 0 <= i < m + 1
      ensures a[i] == b[i]
    {
      assert frames[..m + 1][..i] == frames[..i];
      if i < m {
        assert frames[..m][..i] == frames[..i];
      }
    }
  }

  /** A prefix one element longer. */
  lemma TakeOneMore<T>(s: seq<T>, m: nat)
    requires m < |s|
    ensures s[..m + 1] == s[..m] + [s[m]]
  {
  }

  /** The pair loop of `processResponse`: starting from an empty mask, set bit `index`
      for every (index, pressure) pair among the first n with a button index 1..7 and a
      non-zero pressure. */
  method DecodePairs(frame: FrameBytes, n: nat) returns (mask: bv8)
    requires n <= MAX_PAIRS
    ensures mask == MaskOf(frame, n)
  {
    mask := 0;
    for i := 0 to n
      invariant mask == MaskOf(frame, i)
    {
      var buttonIdx := frame[FIRST_DATA_AT + 2 * i];
      var pressure := frame[FIRST_DATA_AT + 2 * i + 1];
      assert buttonIdx == ButtonIndexAt(frame, i) && pressure == PressureAt(frame, i);
      MaskOfStep(frame, i);
      if pressure > 0 && 1 <= buttonIdx <= 7 {
        mask := mask | (1 << buttonIdx);
      }
    }
  }

  class SmartShield {
    /** `txFrame` and `rxFrame`: the frame being built and the frame last received. */
    const tx: array<bv8>
    const rx: array<bv8>
    /** The 160 x 120 indexed framebuffer, two pixels per byte. */
    const framebuffer: array<bv8>
    const link: Link
    var connected: bool
    var buttonState: bv8
    var lastButtonState: bv8

    ghost predicate Valid()
      reads this
    {
      && tx.Length == FRAME_SIZE && rx.Length == FRAME_SIZE && framebuffer.Length == FRAMEBUFFER_SIZE
      && tx != rx && tx != framebuffer && rx != framebuffer
    }

    /** The two button masks as the decoder sees them. */
    function State(): ButtonState
      reads this
    {
      ButtonState(buttonState, lastButtonState)
    }

    /** A fresh driver: not connected, no buttons, a black framebuffer. */
    constructor(link: Link)
      ensures Valid() && fresh(tx) && fresh(rx) && fresh(framebuffer)
      ensures this.link == link && !connected && State() == ButtonState(0, 0)
      ensures framebuffer[..] == Zeros(FRAMEBUFFER_SIZE)
    {
      tx := new bv8[FRAME_SIZE](_ => 0);
      rx := new bv8[FRAME_SIZE](_ => 0);
      framebuffer := new bv8[FRAMEBUFFER_SIZE](_ => 0);
      this.link := link;
      connected := false;
      buttonState := 0;
      lastButtonState := 0;
    }

    /** `loop()`: the link comes up the first time the flow-control line reads high, and
        stays up. */
    method Loop(lineHigh: bool)
      modifies this
      ensures connected == (old(connected) || lineHigh)
      ensures State() == old(State())
    {
      if lineHigh && !connected {
        connected := true;
      }
    }

    method IsConnected() returns (c: bool)
      ensures c == connected
    {
      c := connected;
    }

    // ---------- building and exchanging frames ----------

    /** Clear the transmit frame, set the device identifier and an empty payload. */
    method ResetTx()
      requires Valid()
      modifies tx
      ensures tx[..] == BlankFrame()
    {
      forall i | 0 <= i < FRAME_SIZE {
        tx[i] := 0;
      }
      var id := Le64Bytes(DEVICE_ID);
      DeviceIdBytes();
      forall r | 0 <= r < 8 {
        tx[DEVICE_AT + r] := id[r];
      }
      tx[SIZE_AT] := 0;
      assert forall i :: 0 <= i < FRAME_SIZE ==> tx[i] == BlankFrame()[i];
    }

    /** `pushPacket`: write a packet header at the end of the payload and grow the size
        by the packet's footprint; `dst` is where the packet's data goes. */
    method PushPacket(serviceNumber: bv8, serviceCommand: bv16, size: bv8) returns (dst: nat)
      requires Valid()
      requires Size(tx[..]) + Footprint(size) <= PAYLOAD_CAPACITY
      modifies tx
      ensures tx[..] == Pushed(old(tx[..]), serviceNumber, serviceCommand, size)
      ensures dst == HEADER_SIZE + Size(old(tx[..])) + PACKET_HEADER_SIZE
    {
      ghost var f: FrameBytes := tx[..];
      var used := tx[SIZE_AT];
      var at := HEADER_SIZE + used as int;
      tx[at] := size;
      tx[at + 1] := serviceNumber;
      tx[at + 2] := Lo(serviceCommand);
      tx[at + 3] := Hi(serviceCommand);
      tx[SIZE_AT] := GrownSize(used, size);
      assert tx[..] == f[at := size][at + 1 := serviceNumber][at + 2 := Lo(serviceCommand)][at + 3 := Hi(serviceCommand)]
                        [SIZE_AT := GrownSize(used, size)];
      dst := at + PACKET_HEADER_SIZE;
    }

    /** A `memcpy` into the transmit frame. */
    method CopyIntoTx(at: nat, bytes: seq<bv8>)
      requires Valid() && at + |bytes| <= FRAME_SIZE
      modifies tx
      ensures tx[..] == Written(old(tx[..]), at, bytes)
    {
      ghost var f: FrameBytes := tx[..];
      forall r | 0 <= r < |bytes| {
        tx[at + r] := bytes[r];
      }
      assert forall i :: 0 <= i < FRAME_SIZE ==> tx[i] == Written(f, at, bytes)[i];
    }

    /** `transmitFrame`: stamp the sentinel, send the frame and keep the answer. */
    method TransmitFrame()
      requires Valid()
      modifies tx, rx, link
      ensures tx[..] == WithMagic(old(tx[..]))
      ensures link.sent == old(link.sent) + [tx[..]]
      ensures rx[..] == link.peer(old(link.sent))
    {
      ghost var f: FrameBytes := tx[..];
      tx[CRC_AT] := Lo(JDSPI_MAGIC);
      tx[CRC_AT + 1] := Hi(JDSPI_MAGIC);
      assert tx[..] == WithMagic(f);
      var reply := link.Exchange(tx[..]);
      forall i | 0 <= i < FRAME_SIZE {
        rx[i] := reply[i];
      }
      assert rx[..] == reply;
    }

    /** `processResponse`: a gamepad reading in the first packet of the received frame
        replaces the button mask, keeping the old one as the previous mask. */
    method ProcessResponse()
      requires Valid()
      modifies this
      ensures State() == Decode(old(State()), rx[..])
      ensures connected == old(connected)
    {
      var frame: FrameBytes := rx[..];
      if Le16(frame[CRC_AT], frame[CRC_AT + 1]) == JDSPI_MAGIC && frame[SIZE_AT] as int > 0
         && frame[HEADER_SIZE + 1] == GAMEPAD_SERVICE && Le16(frame[HEADER_SIZE + 2], frame[HEADER_SIZE + 3]) == JdGet(REG_READING)
      {
        assert FirstPacketHeader(frame) == PacketHeader(frame[HEADER_SIZE], frame[HEADER_SIZE + 1], Le16(frame[HEADER_SIZE + 2], frame[HEADER_SIZE + 3]));
        assert IsButtonReading(frame);
        lastButtonState := buttonState;
        var numButtons := frame[HEADER_SIZE] as int / 2;
        if numButtons > MAX_PAIRS {
          numButtons := MAX_PAIRS;
        }
        assert numButtons == PairCount(frame);
        buttonState := DecodePairs(frame, numButtons);
      } else {
        assert !IsButtonReading(frame);
      }
    }

    // ---------- display commands ----------

    /** `setPalette`: when connected, send the 64 palette bytes in one frame. */
    method SetPalette(palette: seq<bv8>)
      requires Valid() && |palette| == 64
      modifies tx, rx, link
      ensures !connected ==> link.sent == old(link.sent) && unchanged(tx, rx)
      ensures connected ==> link.sent == old(link.sent) + [PaletteFrame(palette)]
      ensures connected ==> tx[..] == PaletteFrame(palette)
      ensures connected ==> rx[..] == link.peer(old(link.sent))
    {
      if !connected {
        return;
      }
      ResetTx();
      assert Size(tx[..]) == 0 by { assert tx[SIZE_AT] == BlankFrame()[SIZE_AT] == 0; }
      var data := PushPacket(DISPLAY_SERVICE, JdSet(REG_PALETTE), 64);
      CopyIntoTx(data, palette);
      assert tx[..] == OnePacketFrame(JdSet(REG_PALETTE), 64, palette);
      TransmitFrame();
    }

    /** `setBrightness`: when connected, send the one brightness byte in one frame. */
    method SetBrightness(brightness: bv8)
      requires Valid()
      modifies tx, rx, link
      ensures !connected ==> link.sent == old(link.sent) && unchanged(tx, rx)
      ensures connected ==> link.sent == old(link.sent) + [BrightnessFrame(brightness)]
      ensures connected ==> tx[..] == BrightnessFrame(brightness)
      ensures connected ==> rx[..] == link.peer(old(link.sent))
    {
      if !connected {
        return;
      }
      ResetTx();
      assert Size(tx[..]) == 0 by { assert tx[SIZE_AT] == BlankFrame()[SIZE_AT] == 0; }
      var data := PushPacket(DISPLAY_SERVICE, JdSet(REG_BRIGHTNESS), 1);
      ghost var p: FrameBytes := tx[..];
      tx[data] := brightness;
      assert forall i :: 0 <= i < FRAME_SIZE ==> tx[i] == Written(p, data, [brightness])[i];
      assert tx[..] == OnePacketFrame(JdSet(REG_BRIGHTNESS), 1, [brightness]);
      TransmitFrame();
    }

    /** The batch loop of `transmitFramebuffer`: onto a blank frame, push one SET_PIXELS
        packet per column `startCol`, `startCol + 1`, ..., at most three and none past the
        last column, each followed by the column's 60 bytes. */
    method PushColumns(startCol: nat, ghost k: nat)
      requires Valid() && k < BATCH_COUNT && startCol == COLUMNS_PER_BATCH * k
      requires tx[..] == BlankFrame()
      modifies tx
      ensures tx[..] == ColumnsFrame(framebuffer[..], startCol, BatchColumns(k))
    {
      ghost var fb := framebuffer[..];
      NoColumnsIsBlank(fb, startCol);
      ColumnPacketFootprint();
      var batch := 0;
      while batch < COLUMNS_PER_BATCH && startCol + batch < WIDTH
        invariant batch <= BatchColumns(k)
        invariant tx[..] == ColumnsFrame(fb, startCol, batch)
      {
        PushColumnPacket(startCol, batch);
        batch := batch + 1;
      }
    }

    /** One pass of the batch loop: push a SET_PIXELS packet and copy column
        `startCol + batch` of the framebuffer behind it. */
    method PushColumnPacket(startCol: nat, batch: nat)
      requires Valid() && startCol + batch < WIDTH && batch < COLUMNS_PER_BATCH
      requires tx[..] == ColumnsFrame(framebuffer[..], startCol, batch)
      modifies tx
      ensures tx[..] == ColumnsFrame(framebuffer[..], startCol, batch + 1)
    {
      ghost var fb := framebuffer[..];
      ColumnPacketFootprint();
      PushColumn(fb, startCol, batch);
      var col := startCol + batch;
      var data := PushPacket(DISPLAY_SERVICE, CMD_SET_PIXELS, COLUMN_SIZE);
      assert framebuffer[col * COLUMN_BYTES..col * COLUMN_BYTES + COLUMN_BYTES] == Column(fb, col);
      CopyIntoTx(data, framebuffer[col * COLUMN_BYTES..col * COLUMN_BYTES + COLUMN_BYTES]);
      assert tx[..] == PushedColumn(fb, startCol, batch);
    }

    /** The first step of `transmitFramebuffer`: send the START_UPDATE frame for the whole
        screen and decode the answer. */
    method SendStartUpdate()
      requires Valid()
      modifies this, tx, rx, link
      ensures link.sent == old(link.sent) + [StartUpdateFrame()]
      ensures tx[..] == StartUpdateFrame() && rx[..] == link.peer(old(link.sent))
      ensures State() == Decode(old(State()), link.peer(old(link.sent)))
      ensures connected == old(connected)
    {
      ResetTx();
      assert Size(tx[..]) == 0 by { assert tx[SIZE_AT] == BlankFrame()[SIZE_AT] == 0; }
      var data := PushPacket(DISPLAY_SERVICE, CMD_START_UPDATE, 8);
      CopyIntoTx(data, RectBytes(0, 0, 160, 120));
      assert tx[..] == OnePacketFrame(CMD_START_UPDATE, 8, RectBytes(0, 0, 160, 120));
      TransmitFrame();
      ProcessResponse();
    }

    /** One pass of the column loop of `transmitFramebuffer`: send batch k and decode the
        answer. */
    method SendBatch(startCol: nat, ghost k: nat)
      requires Valid() && k < BATCH_COUNT && startCol == COLUMNS_PER_BATCH * k
      modifies this, tx, rx, link
      ensures link.sent == old(link.sent) + [BatchFrame(framebuffer[..], k)]
      ensures tx[..] == BatchFrame(framebuffer[..], k) && rx[..] == link.peer(old(link.sent))
      ensures State() == Decode(old(State()), link.peer(old(link.sent)))
      ensures connected == old(connected)
    {
      ResetTx();
      PushColumns(startCol, k);
      TransmitFrame();
      ProcessResponse();
    }

    /** `transmitFramebuffer`: when connected, send the START_UPDATE frame and then the 54
        batch frames, decoding the answer to each; the button masks end up as the fold of
        the decoder over the 55 answers. */
    method TransmitFramebuffer()
      requires Valid()
      modifies this, tx, rx, link
      ensures connected == old(connected)
      ensures !connected ==> link.sent == old(link.sent) && State() == old(State()) && unchanged(tx, rx)
      ensures connected ==> link.sent == old(link.sent) + FramebufferFrames(framebuffer[..])
      ensures connected ==> State() == DecodeAll(old(State()), Replies(link.peer, old(link.sent), FramebufferFrames(framebuffer[..])))
    {
      if !connected {
        return;
      }
      ghost var sent0, state0 := link.sent, State();
      ghost var frames := FramebufferFrames(framebuffer[..]);
      SendStartUpdate();
      RepliesStep(link.peer, sent0, frames, 0);
      assert sent0 + frames[..0] == sent0;
      DecodeAllStep(state0, [], link.peer(sent0));
      TakeOneMore(frames, 0);

      var startCol := 0;
      ghost var k := 0;
      while startCol < WIDTH
        invariant startCol == COLUMNS_PER_BATCH * k && k <= BATCH_COUNT
        invariant k < BATCH_COUNT <==> startCol < WIDTH
        invariant connected
        invariant link.sent == sent0 + frames[..k + 1]
        invariant State() == DecodeAll(state0, Replies(link.peer, sent0, frames[..k + 1]))
      {
        SendBatch(startCol, k);
        RepliesStep(link.peer, sent0, frames, k + 1);
        DecodeAllStep(state0, Replies(link.peer, sent0, frames[..k + 1]), link.peer(sent0 + frames[..k + 1]));
        assert frames[k + 1] == BatchFrame(framebuffer[..], k);
        TakeOneMore(frames, k + 1);
        startCol := startCol + COLUMNS_PER_BATCH;
        k := k + 1;
      }
      assert frames[..k + 1] == frames;
    }

    // ---------- the framebuffer ----------

    /** `clearFramebuffer`: every byte takes `color` in both nibbles. */
    method ClearFramebuffer(color: bv8)
      requires Valid()
      modifies framebuffer
      ensures framebuffer[..] == Cleared(color)
    {
      var packed := (color << 4) | color;
      forall i | 0 <= i < FRAMEBUFFER_SIZE {
        framebuffer[i] := packed;
      }
      assert forall i :: 0 <= i < FRAMEBUFFER_SIZE ==> framebuffer[i] == Cleared(color)[i];
    }

    /** `setPixel`: inside the grid, replace the pixel's nibble by the low four bits of
        `color`; outside, do nothing. */
    method SetPixel(x: u16, y: u16, color: bv8)
      requires Valid()
      modifies framebuffer
      ensures framebuffer[..] == WithPixel(old(framebuffer[..]), x, y, color)
    {
      if x >= WIDTH || y >= HEIGHT {
        return;
      }
      var byteIdx := x * COLUMN_BYTES + y / 2;
      assert byteIdx == ByteIndex(x, y);
      if y % 2 == 0 {
        framebuffer[byteIdx] := (framebuffer[byteIdx] & 0xF0) | (color & 0x0F);
      } else {
        framebuffer[byteIdx] := (framebuffer[byteIdx] & 0x0F) | (color << 4);
      }
    }

    /** `getPixel`: the colour index at (x, y), 0 outside the grid. */
    method GetPixel(x: u16, y: u16) returns (c: bv8)
      requires Valid()
      ensures c == Pixel(framebuffer[..], x, y)
    {
      if x >= WIDTH || y >= HEIGHT {
        return 0;
      }
      var byteIdx := x * COLUMN_BYTES + y / 2;
      assert byteIdx == ByteIndex(x, y);
      c := if y % 2 == 0 then framebuffer[byteIdx] & 0x0F else framebuffer[byteIdx] >> 4;
    }

    /** `fillRect`: paint the part of the rectangle inside the grid, row by row. */
    method FillRect(x: u16, y: u16, w: u16, h: u16, color: bv8)
      requires Valid()
      modifies framebuffer
      ensures Filled(framebuffer[..], old(framebuffer[..]), color, x, y, w, h)
    {
      ghost var fb := framebuffer[..];
      FillStart(fb, color, x, y, w);
      var py: u16 := y;
      while py < y + h && py < HEIGHT
        invariant y <= py <= y + h
        invariant FillProgress(framebuffer[..], fb, color, x, y, w, py, x)
      {
        FillRow(x, y, w, py, color, fb);
        py := py + 1;
      }
      FillDone(framebuffer[..], fb, color, x, y, w, h, py);
    }

    /** The inner loop of `fillRect`: paint row `py` of the rectangle, clipped to the grid. */
    method FillRow(x: u16, y: u16, w: u16, py: u16, color: bv8, ghost fb: seq<bv8>)
      requires Valid() && |fb| == FRAMEBUFFER_SIZE && y <= py < HEIGHT
      requires FillProgress(framebuffer[..], fb, color, x, y, w, py, x)
      modifies framebuffer
      ensures FillProgress(framebuffer[..], fb, color, x, y, w, py + 1, x)
    {
      var px: u16 := x;
      while px < x + w && px < WIDTH
        invariant x <= px <= x + w
        invariant FillProgress(framebuffer[..], fb, color, x, y, w, py, px)
      {
        FillStep(framebuffer[..], fb, color, x, y, w, py, px);
        SetPixel(px, py, color);
        px := px + 1;
      }
      FillRowDone(framebuffer[..], fb, color, x, y, w, py, px);
    }

    // ---------- buttons ----------

    /** `readButtons`: the current button mask. */
    method ReadButtons() returns (mask: bv8)
      ensures mask == buttonState
    {
      mask := buttonState;
    }

    method IsButtonPressed(mask: bv8) returns (p: bool)
      ensures p == IsPressed(buttonState, mask)
    {
      p := buttonState & mask != 0;
    }

    method IsButtonDown(mask: bv8) returns (p: bool)
      ensures p == IsDown(buttonState, lastButtonState, mask)
    {
      p := buttonState & mask != 0 && lastButtonState & mask == 0;
    }

    method IsButtonUp(mask: bv8) returns (p: bool)
      ensures p == IsUp(buttonState, lastButtonState, mask)
    {
      p := buttonState & mask == 0 && lastButtonState & mask != 0;
    }

    /** `leftPressed()`, ..., `menuPressed()`. */
    method ButtonPressed(b: Button) returns (p: bool)
      ensures p == Pressed(buttonState, b)
    {
      p := IsButtonPressed(Mask(b));
    }

    /** `leftDown()`, ..., `menuDown()`. */
    method ButtonDown(b: Button) returns (p: bool)
      ensures p == WentDown(buttonState, lastButtonState, b)
    {
      p := IsButtonDown(Mask(b));
    }
  }
}
