# Calliope SmartShield driver — a verified Dafny model

The Calliope SmartShield driver talks to a display and gamepad co-processor over a
JACDAC-over-SPI link. It keeps a packed 160 x 120 framebuffer (4-bit colour indices,
two pixels per byte, stored column by column: pixel (x, y) lives in byte `x * 60 + y / 2`,
the low nibble for even rows and the high nibble for odd rows). Every exchange sends one
fixed 252-byte frame (`jd_frame_t`: a 16-bit sentinel in the `crc` field, a size byte, a
flags byte, a 64-bit device identifier and 240 payload bytes) and receives one frame back.
Packets (`jd_packet_t`: size, service number, 16-bit command, data) are appended to the
payload by `pushPacket`, each taking its size plus four header bytes, rounded up to a
multiple of four.

The model has seven modules:

- `Bytes` (bytes.dfy): the conversion from a small natural number to a byte.
- `Wire` (wire.dfy): the protocol constants, the little-endian header and packet-header
  encodings, and `Pushed`, the frame after `pushPacket`.
- `Framebuffer` (framebuffer.dfy): pixel addressing, `setPixel`/`getPixel` as functions,
  `clearFramebuffer`'s result, and the specification of `fillRect`.
- `Buttons` (buttons.dfy): the seven button masks and the pressed / down / up queries.
- `Response` (response.dfy): `processResponse` as a function on a received frame and the
  button masks, and its fold over a run of received frames.
- `Frames` (frames.dfy): the exact frames `setPalette`, `setBrightness` and
  `transmitFramebuffer` send, and how the batch loop builds them.
- `Shield` (shield.dfy): the driver object itself, a class with the transmit and receive
  frames and the framebuffer as arrays, the button masks and the `connected` latch as
  fields, and one method per driver operation. The SPI link is a class `Link` that records
  every frame sent; what the co-processor answers is a function `peer` of the frames it
  received before.

Each method is proved against the functions above, and those functions carry the
properties: round trips of the encodings, the layout of every frame the driver sends,
that every framebuffer column goes out exactly where expected, read-back after
`setPixel`, what `fillRect` paints, and how button readings turn into edges.

`clearFramebuffer(color)` with a colour above 15 stores `(color << 4) | color`, so odd rows
then read `(color & 0x0F) | (color >> 4)` while even rows read `color & 0x0F`; the model
keeps this (`Framebuffer.ClearedPixel`), and both read `color` for colours 0 to 15.

## Model

| member | source | states |
|---|---|---|
| Wire.CommandValues | Calliope_SmartShield.h:23-35 | `JD_GET(JD_REG_READING)` is 0x1101, the palette and brightness set commands are 0x2080 and 0x2001, and each command's high nibble names get or set |
| Wire.FrameLayout | Calliope_SmartShield.h:60-66 | a frame is the 12-byte header (crc, size, flags, 8-byte device identifier) followed by the 240-byte payload |
| Wire.Le16RoundTrip | Calliope_SmartShield.h:53-66 | the little-endian 16-bit split into low and high byte and the join are inverse in both directions |
| Wire.HeaderRoundTrip | Calliope_SmartShield.h:60-66 | decoding an encoded frame header gives the header back |
| Wire.DeviceIdBytes | Calliope_SmartShield.cpp:69 | the device identifier 0x123456789ABCDEF0 goes on the wire least significant byte first, and the eight bytes decode back to it |
| Wire.PacketHeaderRoundTrip | Calliope_SmartShield.h:53-58 | encoding and decoding a packet header are inverse, at any offset |
| Wire.Footprint | Calliope_SmartShield.cpp:112 | a packet takes a multiple of four payload bytes, at least its size plus four and less than its size plus eight |
| Wire.GrownSize | Calliope_SmartShield.cpp:112 | the new size byte is the old size plus the packet's footprint |
| Wire.Pushed | Calliope_SmartShield.cpp:106-114 | after `pushPacket` the frame's size grows by exactly the packet's footprint |
| Wire.PushedHeaderByte | Calliope_SmartShield.cpp:107-111 | the four bytes written at the old end of the payload are the encoded packet header: size, service number, command low byte, command high byte |
| Wire.PushedOtherByte | Calliope_SmartShield.cpp:106-114 | `pushPacket` changes no byte but the size byte and the four header bytes |
| Wire.PushedLayout | Calliope_SmartShield.cpp:106-114 | the encoded packet header sits at the old end of the payload and every other byte but the size byte is unchanged |
| Wire.PacketAtParts | Calliope_SmartShield.h:53-58 | a packet reads back as the header at its offset and the data bytes behind it |
| Wire.PushThenParse | Calliope_SmartShield.cpp:106-114 | pushing a packet, copying its data to the returned pointer and reading the packet at the old end gives back the same header and data |
| Frames.BlankFrameHeader | Calliope_SmartShield.cpp:149-151 | after the reset of the transmit frame, the header decodes to sentinel 0, size 0, no flags and the driver's device identifier, and the payload is all zero |
| Frames.WithMagic | Calliope_SmartShield.cpp:117 | `transmitFrame` stamps the link sentinel 0x7ACD and changes no other byte |
| Frames.StampKeepsPacket | Calliope_SmartShield.cpp:117 | stamping the sentinel changes neither the size byte nor any packet of the payload |
| Frames.OnePacketHeader | Calliope_SmartShield.cpp:149-156 | a one-packet display frame, once stamped, carries the sentinel, no flags and the device identifier |
| Frames.OnePacketLayout | Calliope_SmartShield.cpp:149-156 | a one-packet display frame's size is the packet's footprint and its first packet reads back as the display service, the command and the data |
| Frames.OnePacketTail | Calliope_SmartShield.cpp:149-156 | every payload byte after the one packet's data is zero |
| Frames.RectBytes | Calliope_SmartShield.h:68-70 | the START_UPDATE rectangle is eight bytes whose four little-endian 16-bit fields read back as x, y, width and height |
| Frames.StartUpdateFrameLayout | Calliope_SmartShield.cpp:208-218 | the START_UPDATE frame has 12 payload bytes holding one display packet, command 0x81, whose rectangle is x 0, y 0, width 160, height 120 |
| Frames.PaletteFrameLayout | Calliope_SmartShield.cpp:146-157 | the palette frame has 68 payload bytes holding one display packet, command 0x2080, carrying the 64 palette bytes |
| Frames.BrightnessFrameLayout | Calliope_SmartShield.cpp:159-170 | the brightness frame has 8 payload bytes holding one display packet, command 0x2001, carrying the brightness byte |
| Frames.BatchColumns | Calliope_SmartShield.cpp:229 | batch k carries one to three columns, three in every batch but the last, and stays within the 160 columns |
| Frames.BatchesCoverColumns | Calliope_SmartShield.cpp:222-234 | the batches are contiguous: the first m batches carry 3m columns, all 54 carry exactly 160, and the last carries one |
| Frames.ColumnPacketFootprint | Calliope_SmartShield.cpp:231-233 | a SET_PIXELS packet carries one 60-byte column and takes 64 payload bytes |
| Frames.ColumnsFrameSize | Calliope_SmartShield.cpp:229-234 | after n passes of the batch loop the size byte counts 64 bytes per packet |
| Frames.ColumnsFrameHeader | Calliope_SmartShield.cpp:225-234 | the batch loop leaves the other header bytes as the reset put them |
| Frames.ColumnsFrameSlot | Calliope_SmartShield.cpp:229-234 | byte r of packet j in the batch frame is the SET_PIXELS header, then byte r - 4 of the packet's column |
| Frames.NoColumnsIsBlank | Calliope_SmartShield.cpp:225-227 | before the batch loop runs, the frame is the reset frame |
| Frames.PushColumn | Calliope_SmartShield.cpp:229-234 | one pass of the batch loop (push a SET_PIXELS header, copy the column) turns the frame with n columns into the frame with n + 1 |
| Frames.ColumnPacketAt | Calliope_SmartShield.cpp:229-234 | packet j of a batch frame is a display SET_PIXELS packet whose 60 data bytes are column first + j of the framebuffer |
| Frames.BatchFrameHeader | Calliope_SmartShield.cpp:225-236 | batch frame k carries the sentinel, no flags and the device identifier, its size is 64 bytes per column, and the payload after the packets is zero |
| Frames.BatchFramePacket | Calliope_SmartShield.cpp:229-236 | packet j of batch frame k is a 60-byte SET_PIXELS packet for the display carrying column 3k + j |
| Frames.EveryColumnSent | Calliope_SmartShield.cpp:222-238 | every column c of the framebuffer goes out, as packet c % 3 of batch c / 3 |
| Framebuffer.Dimensions | Calliope_SmartShield.h:47-48 | a column holds 60 bytes and the buffer 160 x 120 / 2 = 9600 bytes |
| Framebuffer.ByteIndex | Calliope_SmartShield.cpp:180 | pixel (x, y) lives in byte `x * 60 + y / 2`, inside the buffer, column x, row pair y / 2 |
| Framebuffer.Pixel | Calliope_SmartShield.cpp:189-194 | `getPixel` returns a colour index below 16, and 0 outside the grid |
| Framebuffer.WithPixel | Calliope_SmartShield.cpp:177-187 | `setPixel` outside the grid changes nothing; inside, it changes only the pixel's byte and keeps that byte's other nibble |
| Framebuffer.SameByte | Calliope_SmartShield.cpp:180 | two pixels share a byte exactly when they are the even and odd row of one row pair in the same column |
| Framebuffer.PixelAfterSet | Calliope_SmartShield.cpp:177-194 | reading back after `setPixel` gives `color & 0x0F` at the written pixel inside the grid and the old colour everywhere else |
| Framebuffer.ClearedPixel | Calliope_SmartShield.cpp:172-175 | after clearing, even rows read `color & 0x0F` and odd rows `(color & 0x0F) \| (color >> 4)`, both `color` for colours 0 to 15 |
| Framebuffer.PixelsDetermineBytes | Calliope_SmartShield.cpp:180-193 | two buffers whose pixels all read the same are equal: the packing loses nothing |
| Framebuffer.FillStep | Calliope_SmartShield.cpp:198-199 | one `setPixel` of the inner loop paints the next pixel of the row and keeps the rest of the progress |
| Framebuffer.FillRowDone | Calliope_SmartShield.cpp:198 | when the inner loop stops, at the rectangle's right edge or the grid's, the whole row is painted |
| Framebuffer.FillDone | Calliope_SmartShield.cpp:197 | when the outer loop stops, at the rectangle's bottom edge or the grid's, every pixel of the rectangle inside the grid is painted and no other pixel changed |
| Framebuffer.FillOutsideIsNoOp | Calliope_SmartShield.cpp:196-202 | a rectangle starting right of or below the grid, or with zero width or height, leaves the buffer unchanged |
| Framebuffer.FilledIsUnique | Calliope_SmartShield.cpp:196-202 | the buffer `fillRect` leaves is fully determined by the old buffer, the rectangle and the colour |
| Buttons.BitIndex | Calliope_SmartShield.h:38-44 | each button's mask bit lies in 1..7 |
| Buttons.MasksAreDecoderBits | Calliope_SmartShield.h:38-44 | each `SHIELD_BUTTON_*` mask is the single bit `1 << i` the decoder sets for button index i, bit 0 is never a button, and distinct buttons have disjoint masks |
| Buttons.EdgeFacts | Calliope_SmartShield.cpp:311-321 | down and up never hold together, down implies pressed, up implies not pressed, and no edge is seen when the mask did not change |
| Buttons.SingleButtonEdges | Calliope_SmartShield.cpp:315-337 | for one button, "down" holds exactly when it is pressed now and was not before, and "up" exactly when it was pressed before and is not now |
| Buttons.EdgeExamples | Calliope_SmartShield.cpp:315-321 | releasing Left is an up edge and not a down edge, and pressing it is the reverse |
| Response.PairLayout | Calliope_SmartShield.cpp:125-136 | the first packet's data starts at frame byte 16, leaving room for 118 whole (index, pressure) pairs |
| Response.WrongSentinelIgnored | Calliope_SmartShield.cpp:124 | a frame without the link sentinel, the NOOP sentinel included, is never taken as a reading |
| Response.AsWrittenReadsPastFrame | Calliope_SmartShield.cpp:133-136 | with `service_size` 255 the source's loop visits 127 pairs and its last read is at frame byte 269, past the 252-byte frame |
| Response.PairCount | Calliope_SmartShield.cpp:133-134 | the decoder visits `service_size / 2` pairs whenever they lie inside the frame, and never more than fit |
| Response.MaskOfStep | Calliope_SmartShield.cpp:134-141 | one more pair either sets its button's bit or leaves the mask as it was |
| Response.MaskOfBit | Calliope_SmartShield.cpp:133-141 | bit b of the decoded mask is set exactly when b is in 1..7 and one of the visited pairs has index b and non-zero pressure |
| Response.MaskOfBitZeroClear | Calliope_SmartShield.cpp:138-139 | a decoded mask never has bit 0 set |
| Response.PressedAfterReading | Calliope_SmartShield.cpp:127-141 | after a reading the previous mask is the old current one, and a button is pressed exactly when one of the visited pairs names it with non-zero pressure |
| Response.DecodeKeepsBitZeroClear | Calliope_SmartShield.cpp:123-144 | the current mask after a reading has bit 0 clear, and a frame that is not a reading changes neither mask |
| Response.DecodeAllStep | Calliope_SmartShield.cpp:219-237 | decoding the replies one by one is a left fold: one more reply is one more decode |
| Response.DecodeAllInvariant | Calliope_SmartShield.cpp:123-144 | over any run of replies bit 0 of the current mask stays clear, and a run with no reading changes nothing |
| Response.LastReadingWins | Calliope_SmartShield.cpp:130-141 | after a run ending with a reading, the current mask is that reading and the previous mask is the current mask before it |
| Response.DecodeExample | Calliope_SmartShield.cpp:133-141 | pairs (3, 10), (5, 0), (1, 1) give bits 3 and 1, with bit 5 clear because its pressure is 0 |
| Shield.Link.Exchange | Calliope_SmartShield.cpp:118-120 | one full-duplex exchange records the frame sent and returns what the co-processor answers to the frames it received before |
| Shield.RepliesStep | Calliope_SmartShield.cpp:204-239 | sending one more frame adds exactly the answer to it |
| Shield.DecodePairs | Calliope_SmartShield.cpp:131-141 | the pair loop builds exactly the mask of the first n pairs |
| Shield.SmartShield.constructor | Calliope_SmartShield.cpp:68-76 | a new driver is not connected, has both button masks 0 and an all-zero framebuffer |
| Shield.SmartShield.Loop | Calliope_SmartShield.cpp:96-100 | the link comes up the first time the flow-control line reads high and never goes down again |
| Shield.SmartShield.IsConnected | Calliope_SmartShield.cpp:102-104 | returns the latch |
| Shield.SmartShield.ResetTx | Calliope_SmartShield.cpp:149-151 | the transmit frame becomes the blank frame with the device identifier |
| Shield.SmartShield.PushPacket | Calliope_SmartShield.cpp:106-114 | the transmit frame becomes `Pushed` of the old one, and the returned position is right behind the new header |
| Shield.SmartShield.CopyIntoTx | Calliope_SmartShield.cpp:155 | copies the bytes into the transmit frame at the position and changes nothing else |
| Shield.SmartShield.TransmitFrame | Calliope_SmartShield.cpp:116-121 | stamps the sentinel, sends the frame over the link and keeps the answer as the receive frame |
| Shield.SmartShield.ProcessResponse | Calliope_SmartShield.cpp:123-144 | the button masks become `Decode` of the old masks and the received frame |
| Shield.SmartShield.SetPalette | Calliope_SmartShield.cpp:146-157 | when connected, sends exactly the palette frame and leaves it in the transmit frame; otherwise sends nothing and leaves both frames unchanged |
| Shield.SmartShield.SetBrightness | Calliope_SmartShield.cpp:159-170 | when connected, sends exactly the brightness frame and leaves it in the transmit frame; otherwise sends nothing and leaves both frames unchanged |
| Shield.SmartShield.PushColumns | Calliope_SmartShield.cpp:229-234 | the batch loop turns the reset frame into batch k's columns frame |
| Shield.SmartShield.PushColumnPacket | Calliope_SmartShield.cpp:230-233 | one pass of the batch loop adds one column packet |
| Shield.SmartShield.SendStartUpdate | Calliope_SmartShield.cpp:207-219 | sends the START_UPDATE frame, leaves it in the transmit frame and its answer in the receive frame, and decodes that answer |
| Shield.SmartShield.SendBatch | Calliope_SmartShield.cpp:225-237 | sends batch frame k, leaves it in the transmit frame and its answer in the receive frame, and decodes that answer |
| Shield.SmartShield.TransmitFramebuffer | Calliope_SmartShield.cpp:204-239 | when connected, sends exactly the 55 frames of the framebuffer and the button masks become the fold of `Decode` over their 55 answers; otherwise sends nothing and changes neither the frames nor the button masks |
| Shield.SmartShield.ClearFramebuffer | Calliope_SmartShield.cpp:172-175 | the framebuffer becomes `Cleared(color)` |
| Shield.SmartShield.SetPixel | Calliope_SmartShield.cpp:177-187 | the framebuffer becomes `WithPixel` of the old one |
| Shield.SmartShield.GetPixel | Calliope_SmartShield.cpp:189-194 | returns the pixel's colour index, 0 outside the grid |
| Shield.SmartShield.FillRect | Calliope_SmartShield.cpp:196-202 | the pixels of the rectangle inside the grid take `color & 0x0F` and every other pixel keeps its colour |
| Shield.SmartShield.FillRow | Calliope_SmartShield.cpp:198-200 | the inner loop paints row py of the rectangle, clipped to the grid |
| Shield.SmartShield.ReadButtons | Calliope_SmartShield.cpp:309 | returns the current button mask |
| Shield.SmartShield.IsButtonPressed | Calliope_SmartShield.cpp:311-313 | true exactly when some button of the mask is down now |
| Shield.SmartShield.IsButtonDown | Calliope_SmartShield.cpp:315-317 | true exactly when some button of the mask is down now and none of them was before |
| Shield.SmartShield.IsButtonUp | Calliope_SmartShield.cpp:319-321 | true exactly when no button of the mask is down now and one was before |
| Shield.SmartShield.ButtonPressed | Calliope_SmartShield.cpp:323-329 | the named "pressed" queries, one per button |
| Shield.SmartShield.ButtonDown | Calliope_SmartShield.cpp:331-337 | the named "down" queries, one per button |

## Left out

- `begin()` (pin modes, SPI set-up, the reset pulse and its delays): hardware configuration with no state the driver keeps.
- The empty destructor.
- The byte-by-byte `SPI.transfer` loop of `transmitFrame`: modelled as one exchange of a whole frame on `Shield.Link`; the bytes go out in frame order, so nothing the driver observes differs.
- The busy-wait on the flow-control line before each batch of `transmitFramebuffer`: the wait ends before the batch is built, so it is left out; the model assumes the line eventually goes high.
- Shield.SmartShield.Loop: the digital read of the flow-control line is a parameter.
- The font table, `drawChar` and `drawText`: text rendering on top of `setPixel`, outside the modelled core.
- The `verbose` parameter of `transmitFramebuffer`: it changes nothing the driver sends.
- The JACDAC service-class constants: the driver never uses them.
- Shield.SmartShield.SetPalette: the palette is taken as its 64 raw bytes, not as sixteen 32-bit words, so the byte order of a word in memory is not modelled.
- Shield.SmartShield.constructor: the transmit and receive frames are zeroed; the source leaves them uninitialised until the first reset or exchange.
- The service numbers and the device identifier are module constants (`DISPLAY_SERVICE`, `GAMEPAD_SERVICE`, `DEVICE_ID`) rather than fields, since the constructor fixes them and nothing changes them.
- Shield.SmartShield.TransmitFramebuffer: when connected, does not state the final contents of the transmit and receive frames (the last batch frame and its answer); the driver resets the transmit frame before every use and reads the receive frame only in the decoder, whose result the contract states.
- Shield.SmartShield.PushPacket: requires that the packet fits in the 240-byte payload. The source does not check this, and an overflowing size byte would wrap modulo 256; every call the driver makes fits.
- Shield.SmartShield.ProcessResponse: visits at most the 118 pairs that fit in the received frame (see Findings); the as-written count is modelled by `Response.AsWrittenPairCount`.
- The per-button wrappers (`leftPressed()`, ..., `menuDown()`) are modelled as one method over the `Buttons.Button` datatype each.

## Findings

| source | as written | input that shows it | evidently intended | confidence | as-written member | corrected member |
|---|---|---|---|---|---|---|
| Calliope_SmartShield.cpp:133-136 | the pair loop runs `service_size / 2` times over the first packet's data without a bound | a received frame with the sentinel and a gamepad reading whose `service_size` is 255: 127 pairs, last read at frame byte 269 of a 252-byte frame | read only the pairs inside the received frame, at most 118 | not executed | Response.AsWrittenReadsPastFrame | Response.PairCount |
