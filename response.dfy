/** The response decoder: which received frames update the button masks, and how
    the new mask is built from the (button index, pressure) pairs of a gamepad
    reading.  Only the FIRST packet of a received frame is inspected. */
module Response {
  import opened Wire
  import opened Buttons

  /** Frame index of the first packet's data (right behind its 4-byte header). */
  const FIRST_DATA_AT := 16
  /** Number of whole (index, pressure) pairs between there and the end of the frame. */
  const MAX_PAIRS := 118

  lemma PairLayout()
    ensures FIRST_DATA_AT == HEADER_SIZE + PACKET_HEADER_SIZE
    ensures MAX_PAIRS == (FRAME_SIZE - FIRST_DATA_AT) / 2
  {
  }

  /** Header of the packet at payload offset 0. */
  function FirstPacketHeader(f: FrameBytes): PacketHeader {
    PacketHeaderAt(f, HEADER_SIZE)
  }

  /** A frame the decoder acts on: the link sentinel, a non-empty payload, and a first
      packet that is the gamepad service's reading. */
  predicate IsButtonReading(f: FrameBytes) {
    && Crc(f) == JDSPI_MAGIC
    && Size(f) > 0
    && FirstPacketHeader(f).serviceNumber == GAMEPAD_SERVICE
    && FirstPacketHeader(f).serviceCommand == JdGet(REG_READING)
  }

  /** Only the link sentinel is accepted: a NOOP frame, or any other sentinel, is never
      decoded, whatever else it holds. */
  lemma WrongSentinelIgnored(f: FrameBytes)
    requires Crc(f) != JDSPI_MAGIC
    ensures !IsButtonReading(f)
    ensures JDSPI_MAGIC_NOOP != JDSPI_MAGIC
  {
  }

  /** Number of pairs the source's loop visits: `service_size / 2`. */
  function AsWrittenPairCount(f: FrameBytes): nat {
    f[HEADER_SIZE] as int / 2
  }

  /** With `service_size` 255 the source's loop visits 127 pairs and its last read is at
      frame index 16 + 2 * 126 + 1 = 269, past the 252-byte frame. */
  lemma AsWrittenReadsPastFrame()
    ensures var f: FrameBytes := Zeros(FRAME_SIZE)[HEADER_SIZE := 255];
            && AsWrittenPairCount(f) == 127
            && FIRST_DATA_AT + 2 * (AsWrittenPairCount(f) - 1) + 1 == 269
            && FIRST_DATA_AT + 2 * AsWrittenPairCount(f) > FRAME_SIZE
  {
  }

  /** Number of pairs the decoder visits: as in the source while the pairs lie inside
      the frame (`service_size` at most 236), and never more than fit in the frame. */
  function PairCount(f: FrameBytes): (n: nat)
    ensures n <= MAX_PAIRS && FIRST_DATA_AT + 2 * n <= FRAME_SIZE
    ensures f[HEADER_SIZE] as int <= FRAME_SIZE - FIRST_DATA_AT ==> n == AsWrittenPairCount(f)
  {
    if AsWrittenPairCount(f) <= MAX_PAIRS then AsWrittenPairCount(f) else MAX_PAIRS
  }

  function ButtonIndexAt(f: FrameBytes, i: nat): bv8
    requires i < MAX_PAIRS
  {
    f[FIRST_DATA_AT + 2 * i]
  }

  function PressureAt(f: FrameBytes, i: nat): bv8
    requires i < MAX_PAIRS
  {
    f[FIRST_DATA_AT + 2 * i + 1]
  }

  /** The bit one pair contributes: `1 << index` for a pressed button with index 1..7. */
  function PairBit(index: bv8, pressure: bv8): bv8 {
    if pressure > 0 && 1 <= index <= 7 then 1 << index else 0
  }

  /** The mask built from the first `n` pairs. */
  function MaskOf(f: FrameBytes, n: nat): bv8
    requires n <= MAX_PAIRS
  {
    if n == 0 then 0 else MaskOf(f, n - 1) | PairBit(ButtonIndexAt(f, n - 1), PressureAt(f, n - 1))
  }

  /** One more pair either sets its button's bit or leaves the mask as it was. */
  lemma MaskOfStep(f: FrameBytes, n: nat)
    requires n < MAX_PAIRS
    ensures MaskOf(f, n + 1)
            == if PressureAt(f, n) > 0 && 1 <= ButtonIndexAt(f, n) <= 7 then MaskOf(f, n) | (1 << ButtonIndexAt(f, n))
               else MaskOf(f, n)
  {
  }

  /** Bit b of the mask is set exactly when b is a button index (1..7) and some pair
      among the first n names b with a non-zero pressure. */
  lemma {:induction false} MaskOfBit(f: FrameBytes, n: nat, b: bv8)
    requires n <= MAX_PAIRS && b < 8
    ensures MaskOf(f, n) & (1 << b) != 0
            <==> 1 <= b <= 7 && exists i :: 0 <= i < n && ButtonIndexAt(f, i) == b && PressureAt(f, i) > 0
  {
    if n > 0 {
      MaskOfBit(f, n - 1, b);
      var idx, p := ButtonIndexAt(f, n - 1), PressureAt(f, n - 1);
      assert PairBit(idx, p) & (1 << b) != 0 <==> p > 0 && 1 <= b <= 7 && idx == b;
      if 1 <= b <= 7 && idx == b && p > 0 {
        assert ButtonIndexAt(f, n - 1) == b && PressureAt(f, n - 1) > 0;
      }
    }
  }

  /** Bit 0 of a decoded mask is always clear. */
  lemma {:induction false} MaskOfBitZeroClear(f: FrameBytes, n: nat)
    requires n <= MAX_PAIRS
    ensures MaskOf(f, n) & 0x01 == 0
  {
    MaskOfBit(f, n, 0);
  }

  /** The mask a gamepad reading frame decodes to. */
  function Reading(f: FrameBytes): bv8 {
    MaskOf(f, PairCount(f))
  }

  /** The button masks the decoder owns: `buttonState` and `lastButtonState`. */
  datatype ButtonState = ButtonState(current: bv8, previous: bv8)

  /** `processResponse` on a received frame: a gamepad reading shifts the current mask
      into the previous one and installs the decoded mask; any other frame is ignored. */
  function Decode(s: ButtonState, f: FrameBytes): ButtonState {
    if IsButtonReading(f) then ButtonState(Reading(f), s.current) else s
  }

  /** After a reading, a button is pressed exactly when one of the decoded pairs names
      it with a non-zero pressure, and the previous mask is the old current mask. */
  lemma {:induction false} PressedAfterReading(s: ButtonState, f: FrameBytes, b: Button)
    requires IsButtonReading(f)
    ensures Decode(s, f).previous == s.current
    ensures Pressed(Decode(s, f).current, b)
            <==> exists i :: 0 <= i < PairCount(f) && ButtonIndexAt(f, i) == BitIndex(b) && PressureAt(f, i) > 0
  {
    MasksAreDecoderBits(b, b);
    MaskOfBit(f, PairCount(f), BitIndex(b));
  }

  /** A reading never sets bit 0, and a frame that is not a reading changes nothing. */
  lemma {:induction false} DecodeKeepsBitZeroClear(s: ButtonState, f: FrameBytes)
    requires s.current & 0x01 == 0
    ensures Decode(s, f).current & 0x01 == 0
    ensures !IsButtonReading(f) ==> Decode(s, f) == s
  {
    MaskOfBitZeroClear(f, PairCount(f));
  }

  /** The button masks after `processResponse` has run on each of `replies` in turn. */
  function DecodeAll(s: ButtonState, replies: seq<FrameBytes>): ButtonState {
    if |replies| == 0 then s else Decode(DecodeAll(s, replies[..|replies| - 1]), replies[|replies| - 1])
  }

  /** Decoding one more reply is one more step of the fold. */
  lemma DecodeAllStep(s: ButtonState, replies: seq<FrameBytes>, f: FrameBytes)
    ensures DecodeAll(s, replies + [f]) == Decode(DecodeAll(s, replies), f)
  {
    assert (replies + [f])[..|replies|] == replies;
  }

  /** Over any run of replies, bit 0 stays clear, and the masks change only at readings:
      with no reading among the replies, the masks are untouched. */
  lemma {:induction false} DecodeAllInvariant(s: ButtonState, replies: seq<FrameBytes>)
    requires s.current & 0x01 == 0
    ensures DecodeAll(s, replies).current & 0x01 == 0
    ensures (forall i :: 0 <= i < |replies| ==> !IsButtonReading(replies[i])) ==> DecodeAll(s, replies) == s
  {
    if |replies| > 0 {
      var front := replies[..|replies| - 1];
      DecodeAllInvariant(s, front);
      DecodeKeepsBitZeroClear(DecodeAll(s, front), replies[|replies| - 1]);
      if forall i :: 0 <= i < |replies| ==> !IsButtonReading(replies[i]) {
        assert forall i :: 0 <= i < |front| ==> front[i] == replies[i];
      }
    }
  }

  /** After a run of replies whose last one is a reading, the current mask is that
      reading's mask and the previous mask is the current mask before it. */
  lemma LastReadingWins(s: ButtonState, replies: seq<FrameBytes>, f: FrameBytes)
    requires IsButtonReading(f)
    ensures DecodeAll(s, replies + [f]) == ButtonState(Reading(f), DecodeAll(s, replies).current)
  {
    DecodeAllStep(s, replies, f);
  }

  /** Pairs (3, 10), (5, 0), (1, 1) decode to bits 3 and 1, with bit 5 clear. */
  lemma DecodeExample(s: ButtonState)
    ensures var f: FrameBytes := Zeros(FRAME_SIZE)[0 := 0xCD][1 := 0x7A][SIZE_AT := 12]
              [12 := 6][13 := GAMEPAD_SERVICE][14 := 0x01][15 := 0x11]
              [16 := 3][17 := 10][18 := 5][19 := 0][20 := 1][21 := 1];
            Decode(s, f) == ButtonState(0x0A, s.current)
  {
    var f: FrameBytes := Zeros(FRAME_SIZE)[0 := 0xCD][1 := 0x7A][SIZE_AT := 12]
              [12 := 6][13 := GAMEPAD_SERVICE][14 := 0x01][15 := 0x11]
              [16 := 3][17 := 10][18 := 5][19 := 0][20 := 1][21 := 1];
    assert IsButtonReading(f);
    assert PairCount(f) == 3;
    assert MaskOf(f, 1) == 0x08;
    assert MaskOf(f, 2) == 0x08;
  }
}
