/**
 * `_m_frame_buffer`: a fixed byte buffer with its current length, the escape
 * state of the receiver, and the frame it carries (CRC flag and byte, the
 * packet's raw command byte, byte order and payload). The encoder
 * `_melo_serialize_frame` and the byte-at-a-time decoder `_melo_rx_byte` work
 * on it in place.
 */
module Frames {
  import opened MeloBits
  import opened Escaping
  import opened Reception
  import opened Events

  class FrameBuffer {
    const buf: array<bv8>     // buffer.data; buffer.size is buf.Length
    var bufLen: nat           // buffer.length
    var escape: bv8           // escape_buffer
    var crcPresent: bool      // crc_present
    var crc: bv8              // frame.crc
    var cmd: bv8              // frame.packet.command.raw_byte
    var byteOrder: ByteOrder  // frame.packet.byte_order
    const payload: array<bv8> // frame.packet.data.data
    var dataLen: bv8          // frame.packet.data.length

    /** The frame buffer and the packet buffer are two separate arrays. */
    ghost predicate Valid()
    {
      buf != payload
    }

    /** A zero-initialised frame buffer bound to fresh arrays of the given sizes, as `MeloInit` binds them. */
    constructor (bufSize: nat, payloadSize: nat)
      ensures Valid() && fresh(buf) && fresh(payload)
      ensures buf.Length == bufSize && payload.Length == payloadSize
      ensures buf[..] == seq(bufSize, _ => 0) && payload[..] == seq(payloadSize, _ => 0)
      ensures bufLen == 0 && escape == 0 && !crcPresent && crc == 0 && cmd == 0 && dataLen == 0
    {
      buf := new bv8[bufSize](_ => 0);
      payload := new bv8[payloadSize](_ => 0);
      bufLen, escape, crcPresent, crc, cmd, byteOrder, dataLen := 0, 0, false, 0, 0, LittleEndian, 0;
    }

    /** A frame buffer over caller-supplied arrays, as `MeloServiceRequestBuilder` sets up its local one. */
    constructor Over(buffer: array<bv8>, data: array<bv8>, raw: bv8, order: ByteOrder, len: bv8, useCrc: bool)
      requires buffer != data
      ensures Valid() && buf == buffer && payload == data
      ensures cmd == raw && byteOrder == order && dataLen == len && crcPresent == useCrc
    {
      buf, payload := buffer, data;
      bufLen, escape, crc := 0, 0, 0;
      cmd, byteOrder, dataLen, crcPresent := raw, order, len, useCrc;
    }

    /** The payload bytes the encoder escapes, once the CRC placeholder is in place. */
    ghost function Outgoing(): seq<bv8>
      reads this, payload
      requires dataLen as int + (if crcPresent then 1 else 0) <= payload.Length
    {
      PayloadWithCrc(payload[..dataLen as int], crcPresent)
    }

    /** The frame the encoder emits for the packet this buffer holds. */
    ghost function Frame(cfg: Config): seq<bv8>
      reads this, payload
      requires EscapeParams(cfg)
      requires dataLen as int + (if crcPresent then 1 else 0) <= payload.Length
    {
      EncodedFrame(cfg, crcPresent, dataLen, cmd, Outgoing())
    }

    /**
     * `_melo_serialize_frame`. Writes the frame into `buf` and sets `bufLen` to its
     * length; with a CRC it first overwrites payload slot `dataLen` with the
     * placeholder. There are no bounds checks in the encoder: the caller must
     * provide room for the payload slot and the whole frame, and the frame must
     * fit a uint8_t length.
     */
    method SerializeFrame(cfg: Config)
      requires Valid() && EscapeParams(cfg)
      requires dataLen as int + (if crcPresent then 1 else 0) <= payload.Length
      requires |Frame(cfg)| <= buf.Length && |Frame(cfg)| <= 255
      modifies this`bufLen, buf, payload
      ensures payload[..] == if crcPresent then old(payload[..])[dataLen as int := CrcPlaceholder]
                             else old(payload[..])
      ensures bufLen == |old(Frame(cfg))| && buf[..] == Overwrite(old(buf[..]), 0, old(Frame(cfg)))
      ensures State() == Serialize(cfg, old(State()))
    {
      ghost var f := Frame(cfg);
      ghost var b0 := buf[..];
      WriteHead(cfg);
      ghost var b1 := buf[..];
      var count := PlaceCrc();
      ghost var p := payload[..count];
      EscapeData(cfg, count, p);
      ghost var b2 := buf[..];
      ghost var h0 := CreateCmdByte(cfg, 0x00, Head);
      Overwrite2(b0, [h0, CreateR(cfg, dataLen), cmd], 3, EscapeRun(cfg, p));
      WriteTail(cfg);
      FrameLayout(h0, HeadByte(cfg, crcPresent), CreateR(cfg, dataLen), cmd, TailByte(cfg, crcPresent),
                  EscapeRun(cfg, p), b0, b2, buf[..]);
      assert EncodedFrame(cfg, crcPresent, dataLen, cmd, p) == f;
    }

    /** The CRC placeholder behind the payload (lines 453-462 of the encoder); `count` is the number of bytes to escape. */
    method PlaceCrc() returns (count: nat)
      requires dataLen as int + (if crcPresent then 1 else 0) <= payload.Length
      modifies payload
      ensures payload[..] == if crcPresent then old(payload[..])[dataLen as int := CrcPlaceholder]
                             else old(payload[..])
      ensures count == dataLen as int + (if crcPresent then 1 else 0)
      ensures payload[..count] == Outgoing() == PayloadWithCrc(old(payload[..dataLen as int]), crcPresent)
    {
      var crcOffset := 0;
      if crcPresent {
        payload[dataLen as int] := CrcPlaceholder;
        crcOffset := 1;
      }
      count := dataLen as int + crcOffset;
      assert payload[..dataLen as int] == old(payload[..dataLen as int]);
    }

    /** The HEAD, length and command bytes at the start of the frame (lines 437-451 of the encoder). */
    method WriteHead(cfg: Config)
      requires BitPositionsValid(cfg) && 3 <= buf.Length
      modifies this`bufLen, buf
      ensures bufLen == 3
      ensures buf[..] == Overwrite(old(buf[..]), 0, [CreateCmdByte(cfg, 0x00, Head), CreateR(cfg, dataLen), cmd])
    {
      bufLen := 0;
      buf[bufLen] := CreateCmdByte(cfg, 0x00, Head);
      bufLen := bufLen + 1;
      buf[bufLen] := CreateR(cfg, dataLen);
      bufLen := bufLen + 1;
      buf[bufLen] := cmd;
      bufLen := bufLen + 1;
    }

    /** The TAIL byte, and the CRC flag in HEAD and TAIL (lines 518-532 of the encoder). */
    method WriteTail(cfg: Config)
      requires BitPositionsValid(cfg) && 1 <= bufLen < buf.Length
      requires buf[0] == CreateCmdByte(cfg, 0x00, Head)
      modifies this`bufLen, buf
      ensures bufLen == old(bufLen) + 1
      ensures buf[..] == old(buf[..])[0 := HeadByte(cfg, crcPresent)][old(bufLen) := TailByte(cfg, crcPresent)]
    {
      buf[bufLen] := CreateCmdByte(cfg, 0x00, Tail);
      if crcPresent {
        buf[0] := SetBit(buf[0], cfg.crcBitPos);
        buf[bufLen] := SetBit(buf[bufLen], cfg.crcBitPos);
      }
      bufLen := bufLen + 1;
    }

    /**
     * The data loop of `_melo_serialize_frame` (lines 464-516): writes the escaped
     * form of the first `count` payload bytes at `bufLen`. The loop's escape state
     * follows `EncodeStep` byte by byte.
     */
    method EscapeData(cfg: Config, count: nat, ghost p: seq<bv8>)
      requires Valid() && EscapeParams(cfg)
      requires count <= payload.Length && p == payload[..count]
      requires bufLen + |EscapeRun(cfg, p)| <= buf.Length
      modifies this`bufLen, buf
      ensures bufLen == old(bufLen) + |EscapeRun(cfg, p)|
      ensures buf[..] == Overwrite(old(buf[..]), old(bufLen), EscapeRun(cfg, p))
    {
      ghost var start := bufLen;
      ghost var b0 := buf[..];
      ghost var out: seq<bv8> := [];
      var escapeRemaining: nat := 0;
      var curEscapeByte: nat := 0;
      var escapeAvailable := false;
      assert p[..0] == [];
      EncodeFits(cfg, start, p, 0);

      var curData := 0;
      while curData < count
        invariant 0 <= curData <= count
        invariant Encode(cfg, start, p[..curData]) == EncState(out, escapeRemaining, curEscapeByte, escapeAvailable)
        invariant bufLen == start + |out| && start + |out| + (count - curData) <= buf.Length
        invariant buf[..] == Overwrite(b0, start, out)
      {
        var dataByte := payload[curData];
        assert p[..curData + 1][..curData] == p[..curData];
        EncodeFits(cfg, start, p, curData + 1);
        escapeRemaining, curEscapeByte, escapeAvailable, out :=
          EncodeByte(cfg, dataByte, escapeRemaining, curEscapeByte, escapeAvailable, start, b0, out);
        curData := curData + 1;
      }
      assert p[..curData] == p;
      EncodeIsEscapeRun(cfg, start, p);
    }

    /**
     * The body of the data loop for payload byte `b`, on the loop's escape state;
     * `out` is what the loop has written from `start` on.
     */
    method EncodeByte(cfg: Config, b: bv8, remaining: nat, curEscape: nat, available: bool,
                      ghost start: nat, ghost b0: seq<bv8>, ghost out: seq<bv8>)
        returns (remaining': nat, curEscape': nat, available': bool, ghost out': seq<bv8>)
      requires EscapeParams(cfg) && EncWf(cfg, start, EncState(out, remaining, curEscape, available))
      requires bufLen == start + |out| && buf.Length == |b0|
      requires start + |EncodeStep(cfg, start, EncState(out, remaining, curEscape, available), b).out| <= buf.Length
      requires buf[..] == Overwrite(b0, start, out)
      modifies this`bufLen, buf
      ensures EncState(out', remaining', curEscape', available') == EncodeStep(cfg, start, EncState(out, remaining, curEscape, available), b)
      ensures bufLen == start + |out'| && buf[..] == Overwrite(b0, start, out')
    {
      remaining', curEscape', available', out' := remaining, curEscape, available, out;
      var dataByte := b;
      if cfg.isControl(dataByte) {
        if available' {
          remaining' := remaining' - 1;
        } else {
          remaining', curEscape', available', out' := WriteEscapeByte(cfg, start, b0, out');
        }
        out' := SetEscapeBit(cfg, remaining', curEscape', start, b0, out');
        dataByte := ClearBit(dataByte, cfg.reservedBitPos);
      } else {
        if remaining' > 0 {
          remaining' := remaining' - 1;
        }
      }
      remaining', curEscape', available', out' := WriteDataByte(dataByte, remaining', curEscape', available', start, b0, out');
    }

    /** A new escape window: the ESCAPE byte goes out and the loop remembers where. */
    method WriteEscapeByte(cfg: Config, ghost start: nat, ghost b0: seq<bv8>, ghost out: seq<bv8>)
        returns (remaining': nat, curEscape': nat, available': bool, ghost out': seq<bv8>)
      requires EscapeParams(cfg)
      requires bufLen == start + |out| < buf.Length == |b0|
      requires buf[..] == Overwrite(b0, start, out)
      modifies this`bufLen, buf
      ensures EncState(out', remaining', curEscape', available') == OpenWindow(cfg, start, EncState(out, 0, 0, false))
      ensures bufLen == start + |out'| && buf[..] == Overwrite(b0, start, out')
    {
      buf[bufLen] := cfg.escapeByte;
      OverwriteSnoc(b0, start, out, cfg.escapeByte);
      out' := out + [cfg.escapeByte];
      curEscape' := bufLen;
      remaining' := cfg.numEscapeBytes - 1;
      available' := true;
      bufLen := bufLen + 1;
    }

    /** BIT_SET on the window's ESCAPE byte for the control byte at hand. */
    method SetEscapeBit(cfg: Config, remaining: nat, curEscape: nat, ghost start: nat, ghost b0: seq<bv8>, ghost out: seq<bv8>)
        returns (ghost out': seq<bv8>)
      requires EscapeParams(cfg) && remaining < cfg.numEscapeBytes && start <= curEscape < start + |out| <= |b0| == buf.Length
      requires buf[..] == Overwrite(b0, start, out)
      modifies buf
      ensures out' == MarkEscape(cfg, start, EncState(out, remaining, curEscape, true)).out
      ensures buf[..] == Overwrite(b0, start, out')
    {
      var bitPos := Bv8((cfg.numEscapeBytes - 1) - remaining);
      var marked := SetBit(buf[curEscape], bitPos);
      OverwriteAt(b0, start, out, curEscape - start, marked);
      buf[curEscape] := marked;
      out' := out[curEscape - start := marked];
    }

    /** The end of a round: a window with nothing remaining closes, then the byte goes out. */
    method WriteDataByte(dataByte: bv8, remaining: nat, curEscape: nat, available: bool,
                         ghost start: nat, ghost b0: seq<bv8>, ghost out: seq<bv8>)
        returns (remaining': nat, curEscape': nat, available': bool, ghost out': seq<bv8>)
      requires bufLen == start + |out| < buf.Length == |b0|
      requires buf[..] == Overwrite(b0, start, out)
      modifies this`bufLen, buf
      ensures EncState(out', remaining', curEscape', available') == Emit(EncState(out, remaining, curEscape, available), dataByte)
      ensures bufLen == start + |out'| && buf[..] == Overwrite(b0, start, out')
    {
      remaining', curEscape', available' := remaining, curEscape, available;
      if available' && remaining' == 0 {
        available' := false;
        curEscape' := 0;
      }
      buf[bufLen] := dataByte;
      OverwriteSnoc(b0, start, out, dataByte);
      out' := out + [dataByte];
      bufLen := bufLen + 1;
    }

    /** What the decoder works on: the buffer and the frame it unpacks into. */
    ghost function State(): FrameState
      reads this, buf, payload
    {
      FrameState(buf[..], bufLen, escape, crcPresent, byteOrder, crc, dataLen, cmd, payload[..])
    }

    /**
     * `_melo_rx_byte`: the buffer and frame change as `RxStep` says, and
     * REQUEST_RECEIVED is notified on `events` exactly when the byte completes a
     * packet. The decoder checks no bounds: `RxSafe` is what the caller must ensure.
     */
    method RxByte(cfg: Config, b: bv8, events: EventStack)
      requires Valid() && BitPositionsValid(cfg) && RxSafe(cfg, State(), b)
      requires events.Valid() && events.data != buf && events.data != payload
      modifies this, buf, payload, events, events.data
      ensures Valid()
      ensures State() == RxStep(cfg, old(State()), b)
      ensures events.Valid()
      ensures events.Model() ==
        if Completes(cfg, old(State()), b) then Push(old(events.Model()), cfg.eventRequestReceived)
        else old(events.Model())
    {
      if cfg.isControl(b) {
        var completed := RxControl(cfg, b);
        if completed {
          events.Notify(cfg.eventRequestReceived);
        }
      } else {
        RxData(cfg, b);
      }
    }

    /**
     * The control-byte branches of `_melo_rx_byte`; `completed` tells whether
     * the byte completed a packet, where the source notifies REQUEST_RECEIVED.
     */
    method RxControl(cfg: Config, b: bv8) returns (completed: bool)
      requires Valid() && BitPositionsValid(cfg) && cfg.isControl(b) && RxSafe(cfg, State(), b)
      modifies this`bufLen, this`escape, this`crcPresent, this`byteOrder, this`crc, this`dataLen, this`cmd, buf, payload
      ensures State() == RxStep(cfg, old(State()), b)
      ensures completed == Completes(cfg, old(State()), b)
    {
      completed := false;
      if cfg.isEscaped(b) {
        escape := b & cfg.escapeByteMask;
      } else if cfg.isHead(b) {
        RxHead(cfg, b);
      } else if cfg.isTail(b) {
        if crcPresent == IsCrcPresent(cfg, b) && byteOrder == FrameEndianness(cfg, b) {
          RxTail(cfg, b);
          completed := true;
        }
      }
    }

    /** The HEAD branch of `_melo_rx_byte`. */
    method RxHead(cfg: Config, b: bv8)
      requires Valid() && BitPositionsValid(cfg) && IsHeadControl(cfg, b)
      modifies this`bufLen, this`crcPresent, this`byteOrder, buf
      ensures State() == RxStep(cfg, old(State()), b)
    {
      ResetBuffer();
      crcPresent := IsCrcPresent(cfg, b);
      byteOrder := FrameEndianness(cfg, b);
    }

    /** The TAIL branch of `_melo_rx_byte`, for a TAIL that agrees with HEAD. */
    method RxTail(cfg: Config, b: bv8)
      requires Valid() && BitPositionsValid(cfg) && RxSafe(cfg, State(), b) && Completes(cfg, State(), b)
      modifies this`crc, this`dataLen, this`cmd, payload
      ensures State() == RxStep(cfg, old(State()), b)
    {
      UnpackBuffer(cfg);
    }

    /** The data-byte branch of `_melo_rx_byte`. */
    method RxData(cfg: Config, b: bv8)
      requires Valid() && BitPositionsValid(cfg) && !cfg.isControl(b) && bufLen < buf.Length
      modifies this`bufLen, this`escape, buf
      ensures State() == RxStep(cfg, old(State()), b)
    {
      FillByte(cfg, b);
    }

    /** The HEAD branch's loop: every byte of the buffer is zeroed and the length reset. */
    method ResetBuffer()
      modifies this`bufLen, buf
      ensures bufLen == 0 && buf[..] == Zeros(buf.Length)
    {
      bufLen := 0;
      while bufLen < buf.Length
        invariant bufLen <= buf.Length
        invariant forall i :: 0 <= i < bufLen ==> buf[i] == 0
      {
        buf[bufLen] := 0;
        bufLen := bufLen + 1;
      }
      bufLen := 0;
    }

    /** The TAIL branch: CRC, length, command and payload taken out of the buffer. */
    method UnpackBuffer(cfg: Config)
      requires Valid() && 2 <= buf.Length && (crcPresent ==> 1 <= bufLen <= buf.Length)
      requires 2 + RestoreR(cfg, buf[0]) as int <= buf.Length && RestoreR(cfg, buf[0]) as int <= payload.Length
      modifies this`crc, this`dataLen, this`cmd, payload
      ensures State() == Unpack(cfg, old(State()))
    {
      TakeCrc();
      dataLen := RestoreR(cfg, buf[0]);
      cmd := buf[1];
      CopyPayload(dataLen as int);
    }

    /** The CRC byte of the TAIL branch: the last byte stored, or 0 without a CRC. */
    method TakeCrc()
      requires crcPresent ==> 1 <= bufLen <= buf.Length
      modifies this`crc
      ensures crc == if crcPresent then buf[bufLen - 1] else 0
    {
      if crcPresent {
        crc := buf[bufLen - 1];
      } else {
        crc := 0;
      }
    }

    /** The copy loop of the TAIL branch: `n` payload bytes from buffer byte 2 on. */
    method CopyPayload(n: nat)
      requires Valid() && 2 + n <= buf.Length && n <= payload.Length
      modifies payload
      ensures payload[..] == buf[2..2 + n] + old(payload[n..])
    {
      var index: nat := 0;
      while index < n
        invariant index <= n
        invariant forall i :: 0 <= i < index ==> payload[i] == buf[2 + i]
        invariant forall i :: index <= i < payload.Length ==> payload[i] == old(payload[i])
      {
        payload[index] := buf[2 + index];
        index := index + 1;
      }
      assert payload[..] == buf[2..2 + n] + old(payload[n..]);
    }

    /** A data byte: stored, its reserved bit restored when bit 0 of the escape bitmask is set. */
    method FillByte(cfg: Config, b: bv8)
      requires BitPositionsValid(cfg) && bufLen < buf.Length
      modifies this`bufLen, this`escape, buf
      ensures buf[..] == old(buf[..])[old(bufLen) := if old(escape) & 1 != 0 then SetBit(b, cfg.reservedBitPos) else b]
      ensures escape == old(escape) >> 1 && bufLen == old(bufLen) + 1
    {
      buf[bufLen] := b;
      if escape & 1 != 0 {
        buf[bufLen] := SetBit(buf[bufLen], cfg.reservedBitPos);
      }
      escape := escape >> 1;
      bufLen := bufLen + 1;
    }
  }

  /** The frame a frame state's packet is encoded as. */
  function FrameOf(cfg: Config, f: FrameState): (r: seq<bv8>)
    requires EscapeParams(cfg) && f.dataLen as int + (if f.crcPresent then 1 else 0) <= |f.payload|
  {
    EncodedFrame(cfg, f.crcPresent, f.dataLen, f.cmd, PayloadWithCrc(f.payload[..f.dataLen as int], f.crcPresent))
  }

  /** What `_melo_serialize_frame` needs of the buffers it writes, which it does not check. */
  predicate SerializeFits(cfg: Config, f: FrameState)
    requires EscapeParams(cfg)
  {
    f.dataLen as int + (if f.crcPresent then 1 else 0) <= |f.payload| &&
    |FrameOf(cfg, f)| <= |f.buf| && |FrameOf(cfg, f)| <= 255
  }

  /**
   * `_melo_serialize_frame` on a frame state: the encoded frame written over the
   * start of the buffer, the buffer length set to the frame's, and with a CRC the
   * placeholder in the payload slot behind the data.
   */
  function Serialize(cfg: Config, f: FrameState): (r: FrameState)
    requires EscapeParams(cfg) && SerializeFits(cfg, f)
    ensures |r.buf| == |f.buf| && |r.payload| == |f.payload|
  {
    var frame := FrameOf(cfg, f);
    f.(buf := Overwrite(f.buf, 0, frame), len := |frame|,
       payload := if f.crcPresent then f.payload[f.dataLen as int := CrcPlaceholder] else f.payload)
  }

  /**
   * The buffer after the three steps of `_melo_serialize_frame`: the header bytes
   * and the escaped payload `e` written over `b0`; the first byte replaced by `h`
   * and TAIL `t` appended.
   */
  lemma FrameLayout(h0: bv8, h: bv8, r: bv8, c: bv8, t: bv8, e: seq<bv8>, b0: seq<bv8>, b2: seq<bv8>, b3: seq<bv8>)
    requires 4 + |e| <= |b0|
    requires b2 == Overwrite(b0, 0, [h0, r, c] + e)
    requires b3 == b2[0 := h][3 + |e| := t]
    ensures b3 == Overwrite(b0, 0, [h, r, c] + e + [t])
  {
    assert b3[..3] == [h, r, c];
    assert b3[3..3 + |e|] == e;
    assert b3[4 + |e|..] == b0[4 + |e|..];
    assert b3 == b3[..3] + b3[3..3 + |e|] + [t] + b3[4 + |e|..];
  }
}
