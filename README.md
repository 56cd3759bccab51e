# melo in Dafny

melo is a small serial protocol for embedded targets. A peer sends a
*request* packet naming a service, a subfunction and some data. The endpoint
runs the service and sends back a *positive* or *negative response*. Before
that it sends a short *pending* frame announcing the length of the response.

Packets travel in frames:

- A frame is a HEAD control byte, the packet's length byte, the raw command
  byte, the payload and a TAIL control byte.
- The length byte is folded so that it cannot look like a control byte.
- HEAD and TAIL carry the sender's byte order and a CRC-present flag.
- A payload byte that looks like a control byte is escaped. Its reserved bit
  is cleared and its position is marked in an ESCAPE byte sent ahead of it.
  One ESCAPE byte covers a window of up to NUM_ESCAPE_BYTES bytes.

The receiver decodes one byte at a time. When a TAIL completes a packet, it
pushes REQUEST_RECEIVED on a small event stack. `MeloBackground` drains that
stack into the application's state machine.

The model covers `melo/melo.c`, in five modules:

- **MeloBits** (`melo_bits.dfy`):
  - the build constants, as a `Config` value;
  - the bit helpers `_melo_create_r`, `_melo_restore_r`,
    `_melo_create_cmd_byte` and `_melo_esafe_uint`;
  - the bit-fields of the command byte.
- **Escaping** (`escaping.dfy`):
  - the escaped form of a payload, defined window by window (`EscapeRun`);
  - the encoder's data loop as a step function (`EncodeStep`), with a proof
    that the loop computes `EscapeRun`.
- **Reception** (`reception.dfy`):
  - `_melo_rx_byte` as a function on a frame-buffer value (`RxStep`);
  - byte streams fed through it;
  - the round trip: a frame the encoder wrote decodes to the packet that was
    sent.
- **Events** (`events.dfy`):
  - the event stack as a value;
  - the event stack as a class over its array, with `_notify_event`,
    `_get_event` and `_init_event_stack`.
- **Frames** (`frame_buffer.dfy`): the frame buffer as a class over its two
  arrays, with:
  - `_melo_serialize_frame`, proved to write `EncodedFrame`;
  - `_melo_rx_byte`, proved to do what `RxStep` says.
- **Dispatch** (`dispatch.dfy`):
  - the service table and the two services;
  - the service, packet and frame handlers, as functions and as methods of an
    `Endpoint` class that holds the static state of `melo.c`;
  - `MeloInit`, `MeloTransmitComplete`, `MeloReceiveByte(s)`,
    `MeloBackground` and `MeloServiceRequestBuilder`.

The headers `melo.h` and `melo_priv.h` are not part of this model. The
constants they define become fields of `Config`: the bit positions, masks,
ESCAPE_BYTE, NUM_ESCAPE_BYTES, buffer sizes, the command bit-field layout,
and the status and event codes. The control-byte tests
IS_FRAME_CONTROL/ESCAPED/HEAD/TAIL become function-typed fields. The two
flag macros are not fields: IS_FRAME_CRC_PRESENT is modelled as the 0/1 test
of the bit at FRAME_CRC_BIT_POS (`IsCrcPresent`), and GET_FRAME_ENDIANNESS as
the byte order the bit at FRAME_ENDIAN_BIT_POS names (`FrameEndianness`).

`ValidConfig`, `ValidCommandLayout` and `ValidBuffers` collect what the
proofs assume of these constants. For example:

- a HEAD or TAIL byte is a control byte;
- a byte with its reserved bit cleared is not a control byte;
- the status codes are distinct and fit their field;
- the buffers have room for a response.

`ExampleConfig` is one build that meets every hypothesis, and
`ExampleConfigValid` proves that it does. Its command byte holds the service
in bits 0..2, the subfunction in bits 3..4 and the status in bits 5..7, and
its four status codes keep bit 6, the reserved bit, clear. So no request or
response command byte is a control byte (`ExampleCommandsAreData`), and the
example's handshake frames decode to the packets that were sent
(`ExamplePendingDecodes`, `ExampleResponseDecodes`).

Where the protocol's specification and the code differ, the model follows
the code:

- A service that fails leaves the response length the send frame already
  had. It does not set the length to zero.
- The length fold can be undone only for bytes that use just the TX-high
  and low bits (`Foldable`). It is not reversible for every byte.
- `_melo_frame_handler` checks CRCs against a constant false. Every frame
  that carries a CRC is therefore dropped, and the others are dispatched.
- There are no bounds checks. The model states each limit the code relies
  on as a precondition. Examples: `RxSafe`, `SerializeFits`, and the room
  `MeloServiceRequestBuilder` needs.

Other behaviours of the code are also kept as written:

- The HEAD branch of the decoder does not clear the escape bitmask.
- With a CRC, the encoder writes the placeholder 0x66 into the caller's
  payload buffer behind the data.
- The frame's byte-order bit comes from MELO_CFG_PE_ENDIANESS.
- The service handler folds `send_frame.buffer.length` in place.
- The Pending branch passes the received first data byte, still folded, to
  `MeloRequestBytes`.

## Model

| member | source | states |
|---|---|---|
| MeloBits.FoldRoundTrip | melo/melo.c:277-285 | `_melo_restore_r` undoes `_melo_create_r` for every byte that uses only the TX-high and low bits, given masks that agree |
| MeloBits.HeadByteBits | melo/melo.c:311-332 | a HEAD byte as the encoder writes it: the reserved and marker bits are set, the endian bit is set exactly for a big-endian build, the CRC bit exactly when a CRC is present |
| MeloBits.TailByteBits | melo/melo.c:311-332 | a TAIL byte has the same bits as a HEAD byte, except that its marker bit is clear |
| MeloBits.CmdByteBit | melo/melo.c:311-332 | every bit of a HEAD or TAIL byte built from 0x00: set exactly at the reserved bit, at the marker bit for HEAD, at the endian bit for big endian, and at the CRC bit when a CRC is present |
| MeloBits.HeadTailAgree | melo/melo.c:311-332 | the HEAD and TAIL of one frame carry the same CRC flag, and both carry the build's byte order, so the decoder's consistency check at lines 363-366 passes |
| MeloBits.EsafeUint | melo/melo.c:220-240 | with equal byte orders, wire byte k is byte k of the result (0 least significant); with different orders, the bytes are taken in reverse |
| MeloBits.EsafeOrdersSwap | melo/melo.c:220-240 | the results for equal and for different byte orders are byte swaps of each other |
| MeloBits.WithStatus | melo/melo.c:547-551 | assigning the status bit-field sets the status and keeps the service and subfunction |
| MeloBits.ServiceInTable | melo/melo.c:543 | the service bit-field always indexes the eight-entry service table |
| MeloBits.GetSetSame | melo/melo.c:124-126 | reading back a bit-field just assigned gives the value truncated to the field's width |
| MeloBits.GetSetOther | melo/melo.c:124-126 | assigning one bit-field leaves every disjoint field unchanged |
| MeloBits.ExampleCommandsAreData | melo/melo.c:449-451 | in the example build, a command byte with any of the four status codes is not a control byte, so the encoder may write it unescaped |
| Escaping.EncodeIsEscapeRun | melo/melo.c:464-516 | the encoder's data loop, applied byte by byte, writes exactly the window-by-window escaped form of the payload |
| Escaping.EscapeRunLength | melo/melo.c:464-516 | the escaped payload is the payload plus one ESCAPE byte per window, so it is at most twice as long |
| Escaping.EscapeRunControlBytes | melo/melo.c:464-516 | the only control bytes in an escaped payload are its ESCAPE bytes, one per window, so no HEAD or TAIL appears inside a frame |
| Escaping.WindowControl | melo/melo.c:469-491 | a control byte inside an open window sets bit (NUM_ESCAPE_BYTES - 1) - escape_remaining of the window's ESCAPE byte and goes out with its reserved bit cleared |
| Escaping.WindowData | melo/melo.c:492-516 | a data byte inside an open window goes out unchanged and only counts the window down |
| Reception.RxStep | melo/melo.c:334-425 | one received byte keeps the buffer sizes. A byte that completes no packet leaves the packet unchanged. An unknown control byte, or a TAIL that disagrees with HEAD, changes nothing. HEAD zeroes the buffer and keeps the escape bitmask |
| Reception.EscapeStep | melo/melo.c:340-344 | an ESCAPE byte only loads its masked bits into the escape bitmask |
| Reception.HeadStep | melo/melo.c:345-359 | a HEAD byte as the encoder writes it zeroes the buffer, resets its length, and loads the frame's CRC flag and the build's byte order; it completes no packet |
| Reception.TailStep | melo/melo.c:360-393 | a TAIL byte that agrees with HEAD completes the packet and unpacks the buffer |
| Reception.DataStep | melo/melo.c:404-424 | a data byte is stored at the buffer length, with its reserved bit set again when bit 0 of the escape bitmask is set |
| Reception.RxAppend | melo/melo.c:104-112 | feeding one byte stream and then another is feeding their concatenation |
| Reception.DecodeRun | melo/melo.c:340-344 | the escaped form of a payload, received with no escape pending, stores the payload's original bytes behind the buffer's contents, completes no packet and leaves no escape pending |
| Reception.RoundTrip | melo/melo.c:334-533 | a frame written by the encoder, received with no escape pending, completes exactly one packet. That packet's length, command, payload bytes, CRC flag and byte order are the ones sent, and the rest of the payload buffer is untouched |
| Events.Push | melo/melo.c:200-218 | the stack keeps its cells and size. The events grow by `e` unless the stack is full or the cell at `length` already holds `e` |
| Events.Pop | melo/melo.c:287-302 | an empty stack yields the idle event and stays empty; otherwise the top event is returned and removed |
| Events.PushKeepsNoRepeats | melo/melo.c:200-218 | no push makes two adjacent events equal, and the stack never holds more than size - 1 events |
| Events.PushThenPop | melo/melo.c:200-302 | a push that is not dropped is undone by the next pop, which returns the pushed event |
| Events.PushTwice | melo/melo.c:208-211 | pushing the same event twice in a row is the same as pushing it once |
| Events.DrainSplits | melo/melo.c:182-190 | after `MeloBackground`, the old stack is what is left, then the idle-valued event that stopped the loop, if any, then the handled events in push order |
| Events.PushAvoids | melo/melo.c:200-218 | pushing an event other than the idle event keeps a stack that holds no idle event free of it |
| Events.DrainedAll | melo/melo.c:182-190 | when no event on the stack equals the idle event, `MeloBackground` handles all of them, newest first, and empties the stack |
| Events.PopDrains | melo/melo.c:186 | one pop leaves the same events to handle and the same stack behind |
| Events.EventStack.constructor | melo/melo.c:304-309 | the stack starts with `size` zeroed cells and no events |
| Events.EventStack.Notify | melo/melo.c:200-218 | the array-backed stack changes exactly as `Push` says |
| Events.EventStack.Get | melo/melo.c:287-302 | the event returned and the new stack are exactly what `Pop` says |
| Frames.FrameBuffer.constructor | melo/melo.c:162-180 | a frame buffer bound to fresh zeroed arrays of the given sizes, empty and without CRC |
| Frames.FrameBuffer.Over | melo/melo.c:121-132 | the request builder's local frame buffer is set over the caller's arrays, with the command, byte order, length and CRC flag given |
| Frames.FrameBuffer.SerializeFrame | melo/melo.c:427-533 | the frame buffer holds HEAD, length, command, escaped payload and TAIL over its start, and its length is the frame's. With a CRC, payload slot `length` holds 0x66; nothing else changes |
| Frames.FrameBuffer.PlaceCrc | melo/melo.c:453-462 | with a CRC, 0x66 goes into the payload slot behind the data, and one more byte is escaped |
| Frames.FrameBuffer.WriteHead | melo/melo.c:437-451 | the buffer starts with the HEAD byte built from 0x00, the folded length and the raw command, and its length is 3 |
| Frames.FrameBuffer.EscapeData | melo/melo.c:464-516 | the data loop writes the escaped payload at the buffer length and advances the length by its size |
| Frames.FrameBuffer.EncodeByte | melo/melo.c:467-515 | one round of the data loop changes the escape state and the buffer as `EncodeStep` says |
| Frames.FrameBuffer.WriteTail | melo/melo.c:518-532 | TAIL is appended, and with a CRC the CRC bit is set in both HEAD and TAIL |
| Frames.FrameBuffer.RxByte | melo/melo.c:334-425 | the buffer and frame change as `RxStep` says. REQUEST_RECEIVED is pushed exactly when the byte completes a packet |
| Frames.FrameBuffer.RxControl | melo/melo.c:338-403 | the control-byte branches, reporting whether the packet was completed |
| Frames.FrameBuffer.ResetBuffer | melo/melo.c:348-354 | every byte of the buffer is zeroed and the length reset to 0 |
| Frames.FrameBuffer.UnpackBuffer | melo/melo.c:369-389 | the CRC, the unfolded length, the command and that many payload bytes are taken out of the buffer, as `Unpack` says |
| Frames.FrameBuffer.TakeCrc | melo/melo.c:369-378 | the CRC is the byte before TAIL when a CRC is present, else 0 |
| Frames.FrameBuffer.CopyPayload | melo/melo.c:386-389 | the first n payload bytes come from buffer bytes 2 on; the rest is untouched |
| Frames.FrameBuffer.FillByte | melo/melo.c:406-423 | the byte is stored at the buffer length, with its reserved bit restored when bit 0 of the escape bitmask is set; the bitmask shifts and the length grows by one |
| Dispatch.CallService | melo/melo.c:84-94 | the table call succeeds exactly for service 0 with subfunction 1 or 2. Then the response holds the 4 bytes, or the 1 byte, read at the request's address, and the rest of the data buffer is kept. On failure the response, length included, is unchanged |
| Dispatch.CallTableEntry | melo/melo.c:543 | the call through the service table has the result and leaves the response that `CallService` says |
| Dispatch.ServiceNull | melo/melo.c:195-198 | the null service always fails |
| Dispatch.ServiceReadWrite | melo/melo.c:242-275 | subfunction 1 copies the 4 bytes at the address its data encodes in the sender's byte order, subfunction 2 copies 1 byte, and any other subfunction fails without writing |
| Dispatch.Answered | melo/melo.c:541-552 | the send frame gets the request's service and subfunction, status Positive exactly when the service succeeded (Negative otherwise), and the data the service left |
| Dispatch.ResponseFits | melo/melo.c:557 | a response frame is at most 12 bytes, so the unchecked encoder stays inside the send buffer |
| Dispatch.Respond | melo/melo.c:535-564 | the answered packet is encoded into the send buffer. The buffer length is then folded in place and returned as the wait frame's byte |
| Dispatch.PendingFrame | melo/melo.c:571-576 | the wait frame gets the request's service and subfunction with status Pending, one data byte holding the folded response length, and no CRC |
| Dispatch.PendingFits | melo/melo.c:578 | a wait frame is at most 6 bytes, so the unchecked encoder stays inside the wait buffer |
| Dispatch.HandlePacket | melo/melo.c:566-599 | a request is served and answered as `HandleRequest` says. A Pending packet logs `MeloRequestBytes` with its first data byte. A Positive or Negative response logs `MeloReceiveResponse` with its service, subfunction, data, length and success flag. Any other status changes nothing, and only a request touches the send and wait frames |
| Dispatch.HandleRequest | melo/melo.c:568-579 | the send frame holds the encoded response and the wait frame the encoded Pending frame announcing its folded length; no callback is made |
| Dispatch.HandleFrame | melo/melo.c:601-621 | a frame with a CRC is dropped, and a frame without one goes to the packet handler. Memory must be readable only for a request |
| Dispatch.NotifiedReceived | melo/melo.c:386-392 | bytes that complete no packet leave the event stack alone; bytes that complete one push REQUEST_RECEIVED once |
| Dispatch.ExamplePendingDecodes | melo/melo.c:568-578 | in the example build, the wait frame for a request, once received, is a Pending packet with the request's service and subfunction and one data byte holding the announced length |
| Dispatch.ExampleResponseDecodes | melo/melo.c:541-557 | in the example build, the response frame, once received, carries the answered command, data length and data |
| Dispatch.FrameNotifiesOnce | melo/melo.c:104-117 | feeding in a frame the encoder wrote pushes REQUEST_RECEIVED exactly once |
| Dispatch.BackgroundStep | melo/melo.c:186-189 | one turn of the `MeloBackground` loop leaves the same work and the same leftover stack |
| Dispatch.DrainEvents | melo/melo.c:186-189 | the loop applies the transition to the drained events in pop order and leaves `Leftover` on the stack |
| Dispatch.RequestCommand | melo/melo.c:123-126 | the request command carries the service and subfunction truncated to their fields, and status Request |
| Dispatch.ServiceRequestBuilder | melo/melo.c:119-137 | the caller's buffer holds the encoded request frame over its start, and the frame's length is returned. With a CRC, the caller's data buffer holds 0x66 behind the data |
| Dispatch.Endpoint.Init | melo/melo.c:162-180 | the three frame buffers are bound to fresh zeroed arrays: MELO_MAX_FRAME_SIZE bytes over MELO_CFG_MAX_DATA_LENGTH packet bytes, and a MELO_MAX_WAIT_FRAME_SIZE wait frame over one byte. The send and wait frames start with zero buffer length, escape mask, CRC byte, data length and command, zeroed buffers, and the CRC flag clear. The event stack is empty, and the endpoint invariant holds |
| Dispatch.Endpoint.TransmitComplete | melo/melo.c:99-102 | TX_CONFIRMATION is pushed as `Push` says, and the stack still holds no idle event |
| Dispatch.Endpoint.ReceiveByte | melo/melo.c:114-117 | the receive frame changes as `RxStep` says, and the stack gets REQUEST_RECEIVED when the byte completes a packet |
| Dispatch.Endpoint.ReceiveBytes | melo/melo.c:104-112 | the receive frame after the `num` bytes is `RxAll`, and the stack has REQUEST_RECEIVED pushed at every completing byte |
| Dispatch.Endpoint.Background | melo/melo.c:182-190 | the stack ends empty, and the state is the transition applied to every event the stack held, newest first. The endpoint invariant guarantees that the stack never holds the idle event, since only TX_CONFIRMATION and REQUEST_RECEIVED are pushed |
| Dispatch.Endpoint.ServiceHandler | melo/melo.c:535-564 | the send frame and the returned wait length are `Respond` |
| Dispatch.Endpoint.EncodeResponse | melo/melo.c:556-563 | the send frame is serialized, its buffer length is then folded in place, and the folded length is returned |
| Dispatch.Endpoint.Answer | melo/melo.c:541-552 | the send frame is `Answered` |
| Dispatch.Endpoint.PacketHandler | melo/melo.c:566-599 | the send frame, wait frame and callback log change as `HandlePacket` says |
| Dispatch.Endpoint.Request | melo/melo.c:568-579 | the send and wait frames change as `HandleRequest` says |
| Dispatch.Endpoint.MarkPending | melo/melo.c:571-575 | the wait frame gets the request command with status Pending, length 1 and no CRC |
| Dispatch.Endpoint.SendPending | melo/melo.c:576-578 | the wait frame's data byte is the wait length, and the frame is encoded |
| Dispatch.Endpoint.FrameHandler | melo/melo.c:601-621 | the frames and log change as `HandleFrame` says |

## Left out

- `melo.h` and `melo_priv.h` are not part of this model. Their constants are the `Config` parameters, and what the proofs need of them is stated by `ValidConfig`, `ValidCommandLayout` and `ValidBuffers`.
- `MeloGetEndianess` (lines 139-160) is left out. It inspects the host's memory layout, and nothing in `melo.c` calls it. The encoder and the services use the constant MELO_CFG_PE_ENDIANESS (`cfg.peEndianess`).
- `MeloCreatePointer` is an application function. It becomes the `memory` parameter, which maps an address to the bytes readable there. `Readable` requires that four bytes (subfunction 1) or one byte (subfunction 2) can be read.
- `MeloRequestBytes` and `MeloReceiveResponse` are application callbacks. Their calls are recorded, with their arguments, in the endpoint's `log`.
- The state table `_table` and `_current_state` come from code generated by templates. They become a `transition: (nat, bv8) -> nat` parameter and the `state` field.
- The CRC algorithm is left out because `melo.c` has none: it writes the placeholder 0x66 and never checks a CRC.
- Concurrency is left out. An interrupt could push an event while `MeloBackground` drains the stack, and the model treats each call as atomic.
- Dispatch.Endpoint.FrameHandler: its caller is in the template code, so it takes the packet and the CRC flag as values. The model does not state that the packet comes from the receive frame.
- Dispatch.Endpoint.ReceiveBytes: `num` and all buffer lengths are uint8_t in the source. The model uses `nat` and requires each of them to stay below 256 (`|bytes| <= 255`, frames of at most 255 bytes). Wrap-around is therefore not modelled.
- MeloBits.IsCrcPresent: assumes that IS_FRAME_CRC_PRESENT yields exactly 0 or 1, and that GET_FRAME_ENDIANNESS yields exactly MELO_LITTLE_ENDIAN or MELO_BIG_ENDIAN. If the header's macros yielded the masked bit instead, the comparisons at lines 357 and 364 and the byte-order test in `_melo_esafe_uint` (lines 220-240) would behave differently.
- Frames.FrameBuffer.Over: the caller's `buffer` and `data` arrays must differ. `MeloServiceRequestBuilder` (lines 119-137) also accepts the same array for both, and the model does not capture that aliasing. The same goes for Dispatch.ServiceRequestBuilder.
- Frames.FrameBuffer.SerializeFrame: a packet of 255 data bytes with a CRC makes the data loop at line 465 run forever, because the uint8_t counter `cur_data` never reaches 256. `SerializeFits` asks for a frame of at most 255 bytes, so this input is excluded.
- Frames.FrameBuffer.RxByte: a HEAD with a CRC directly followed by TAIL makes line 372 read before the start of the buffer. `RxSafe` asks for `1 <= len` when a CRC is present, so this input is excluded.
- Frames.FrameBuffer.RxByte: lines 386-389 copy as many bytes as the received, unfolded length byte says into the packet buffer, which the wire controls. `RxSafe` asks that this length fit the payload buffer, so an overrunning frame is excluded.
- Dispatch.Endpoint.Init: the zero value of `byte_order` depends on melo.h. The postcondition leaves the byte order of the three frames unconstrained.
- Frames.FrameBuffer.RxByte: the source does no bounds checks, so writes past a buffer are undefined behaviour. The caller must meet `RxSafe`, which covers room for a data byte and, for a completing TAIL, a buffer holding the unfolded number of payload bytes. Overrunning inputs are not modelled.
