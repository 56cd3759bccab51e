/**
 * The receiving side of the codec, stated as functions: what one call of
 * `_melo_rx_byte` does to a frame buffer, byte streams fed through it, and
 * the proof that a frame the encoder produced comes out of the decoder as the
 * packet that went in.
 */
module Reception {
  import opened MeloBits
  import opened Escaping

  /** What `_melo_rx_byte` reads and writes of a frame buffer. */
  datatype FrameState = FrameState(
    buf: seq<bv8>,          // buffer.data, buffer.size bytes
    len: nat,               // buffer.length
    escape: bv8,            // escape_buffer
    crcPresent: bool,       // crc_present
    byteOrder: ByteOrder,   // frame.packet.byte_order
    crc: bv8,               // frame.crc
    dataLen: bv8,           // frame.packet.data.length
    cmd: bv8,               // frame.packet.command.raw_byte
    payload: seq<bv8>)      // frame.packet.data.data

  function Zeros(n: nat): (r: seq<bv8>)
    ensures |r| == n && forall i :: 0 <= i < n ==> r[i] == 0
  {
    seq(n, _ => 0)
  }

  /** A TAIL byte agrees with its HEAD when it carries the CRC flag and byte order HEAD loaded. */
  predicate TailAgrees(cfg: Config, st: FrameState, b: bv8)
    requires BitPositionsValid(cfg)
  {
    st.crcPresent == IsCrcPresent(cfg, b) && st.byteOrder == FrameEndianness(cfg, b)
  }

  /** Byte `b` completes a packet: the decoder unpacks it and raises REQUEST_RECEIVED. */
  predicate Completes(cfg: Config, st: FrameState, b: bv8)
    requires BitPositionsValid(cfg)
  {
    IsTailControl(cfg, b) && TailAgrees(cfg, st, b)
  }

  /**
   * What `_melo_rx_byte` needs of its caller, since it checks no bounds: room in
   * the buffer for a data byte, and for a completing TAIL a buffer holding the
   * length byte, the command byte and the unfolded number of payload bytes (and
   * one byte before TAIL when a CRC is present), and a payload buffer large
   * enough for them.
   */
  predicate RxSafe(cfg: Config, st: FrameState, b: bv8)
    requires BitPositionsValid(cfg)
  {
    (!cfg.isControl(b) ==> st.len < |st.buf|) &&
    (Completes(cfg, st, b) ==>
      2 <= |st.buf| && (st.crcPresent ==> 1 <= st.len <= |st.buf|) &&
      2 + RestoreR(cfg, st.buf[0]) as int <= |st.buf| && RestoreR(cfg, st.buf[0]) as int <= |st.payload|)
  }

  /**
   * `_melo_rx_byte`. An ESCAPE byte loads the escape bitmask. A HEAD byte zeroes
   * the whole buffer, resets its length and loads the CRC flag and byte order,
   * and leaves the escape bitmask as it was. A TAIL byte that agrees with HEAD
   * unpacks the buffer: the CRC from the byte before TAIL, the length from byte 0
   * unfolded, the command from byte 1 and that many payload bytes from byte 2 on;
   * a TAIL that disagrees, or any other control byte, changes nothing. A data byte
   * is stored, with its reserved bit set again when bit 0 of the bitmask says it
   * was escaped, and the bitmask moves on by one.
   */
  function RxStep(cfg: Config, st: FrameState, b: bv8): (r: FrameState)
    requires BitPositionsValid(cfg) && RxSafe(cfg, st, b)
    ensures |r.buf| == |st.buf| && |r.payload| == |st.payload|
    ensures !Completes(cfg, st, b) ==>
      r.crc == st.crc && r.dataLen == st.dataLen && r.cmd == st.cmd && r.payload == st.payload
    ensures cfg.isControl(b) && !IsEscapeControl(cfg, b) && !IsHeadControl(cfg, b) && !Completes(cfg, st, b) ==> r == st
    ensures IsHeadControl(cfg, b) ==> r.buf == Zeros(|st.buf|) && r.len == 0 && r.escape == st.escape
  {
    if cfg.isControl(b) then
      if cfg.isEscaped(b) then st.(escape := b & cfg.escapeByteMask)
      else if cfg.isHead(b) then
        st.(buf := Zeros(|st.buf|), len := 0, crcPresent := IsCrcPresent(cfg, b), byteOrder := FrameEndianness(cfg, b))
      else if cfg.isTail(b) && TailAgrees(cfg, st, b) then Unpack(cfg, st)
      else st
    else
      var v := if st.escape & 1 != 0 then SetBit(b, cfg.reservedBitPos) else b;
      st.(buf := st.buf[st.len := v], escape := st.escape >> 1, len := st.len + 1)
  }

  /** The TAIL branch: the received packet is taken out of the buffer. */
  function Unpack(cfg: Config, st: FrameState): (r: FrameState)
    requires 2 <= |st.buf| && (st.crcPresent ==> 1 <= st.len <= |st.buf|)
    requires 2 + RestoreR(cfg, st.buf[0]) as int <= |st.buf| && RestoreR(cfg, st.buf[0]) as int <= |st.payload|
    ensures |r.payload| == |st.payload|
  {
    var n := RestoreR(cfg, st.buf[0]) as int;
    st.(crc := if st.crcPresent then st.buf[st.len - 1] else 0,
        dataLen := RestoreR(cfg, st.buf[0]),
        cmd := st.buf[1],
        payload := st.buf[2..2 + n] + st.payload[n..])
  }

  // ---------------------------------------------------------------- byte streams

  /** Every byte of `bs`, fed in order, meets what `_melo_rx_byte` needs. */
  predicate RxSafeAll(cfg: Config, st: FrameState, bs: seq<bv8>)
    requires BitPositionsValid(cfg)
    decreases |bs|
  {
    bs == [] || (RxSafe(cfg, st, bs[0]) && RxSafeAll(cfg, RxStep(cfg, st, bs[0]), bs[1..]))
  }

  /** `MeloReceiveBytes`: the buffer after the bytes `bs`, one `_melo_rx_byte` each. */
  function RxAll(cfg: Config, st: FrameState, bs: seq<bv8>): (r: FrameState)
    requires BitPositionsValid(cfg) && RxSafeAll(cfg, st, bs)
    ensures |r.buf| == |st.buf| && |r.payload| == |st.payload|
    decreases |bs|
  {
    if bs == [] then st else RxAll(cfg, RxStep(cfg, st, bs[0]), bs[1..])
  }

  /** How many packets the bytes `bs` complete. */
  function Received(cfg: Config, st: FrameState, bs: seq<bv8>): nat
    requires BitPositionsValid(cfg) && RxSafeAll(cfg, st, bs)
    decreases |bs|
  {
    if bs == [] then 0
    else (if Completes(cfg, st, bs[0]) then 1 else 0) + Received(cfg, RxStep(cfg, st, bs[0]), bs[1..])
  }

  /** Feeding `a` and then `b` is feeding `a + b`. */
  lemma {:induction false} RxAppend(cfg: Config, st: FrameState, a: seq<bv8>, b: seq<bv8>)
    requires BitPositionsValid(cfg) && RxSafeAll(cfg, st, a) && RxSafeAll(cfg, RxAll(cfg, st, a), b)
    ensures RxSafeAll(cfg, st, a + b)
    ensures RxAll(cfg, st, a + b) == RxAll(cfg, RxAll(cfg, st, a), b)
    ensures Received(cfg, st, a + b) == Received(cfg, st, a) + Received(cfg, RxAll(cfg, st, a), b)
    decreases |a|
  {
    if a == [] {
      assert a + b == b;
    } else {
      assert (a + b)[0] == a[0];
      assert (a + b)[1..] == a[1..] + b;
      RxAppend(cfg, RxStep(cfg, st, a[0]), a[1..], b);
    }
  }

  // ---------------------------------------------------------------- decoding an escaped run

  /** A wire byte is a data byte, and setting the reserved bit of a cleared control byte gives it back. */
  lemma RestoreReserved(cfg: Config, b: bv8)
    requires ValidConfig(cfg)
    ensures !cfg.isControl(WireByte(cfg, b))
    ensures cfg.isControl(b) ==> SetBit(WireByte(cfg, b), cfg.reservedBitPos) == b
  {
    if cfg.isControl(b) {
      assert TestBit(b, cfg.reservedBitPos);
      SetClearedBit(b, cfg.reservedBitPos);
    }
  }

  lemma SetClearedBit(b: bv8, pos: bv8)
    requires pos < 8 && TestBit(b, pos)
    ensures SetBit(ClearBit(b, pos), pos) == b
  {
  }

  /** An ESCAPE byte carrying window mask `m` loads exactly `m` into the escape bitmask. */
  lemma EscapeLoadsMask(cfg: Config, m: bv8)
    requires cfg.escapeByte & cfg.escapeByteMask == 0 && m & !cfg.escapeByteMask == 0
    ensures EscapeWith(cfg, m) & cfg.escapeByteMask == m
  {
  }

  /** Feeding a nonempty stream is feeding its first byte and then the rest. */
  lemma Feed1(cfg: Config, st: FrameState, bs: seq<bv8>)
    requires BitPositionsValid(cfg) && bs != []
    requires RxSafe(cfg, st, bs[0]) && RxSafeAll(cfg, RxStep(cfg, st, bs[0]), bs[1..])
    ensures RxSafeAll(cfg, st, bs)
    ensures RxAll(cfg, st, bs) == RxAll(cfg, RxStep(cfg, st, bs[0]), bs[1..])
    ensures Received(cfg, st, bs) == (if Completes(cfg, st, bs[0]) then 1 else 0) + Received(cfg, RxStep(cfg, st, bs[0]), bs[1..])
  {
  }

  /** A data byte is stored at the buffer's length, restored when bit 0 of the escape bitmask is set. */
  lemma DataStep(cfg: Config, st: FrameState, b: bv8, v: bv8)
    requires BitPositionsValid(cfg) && !cfg.isControl(b) && st.len < |st.buf|
    requires v == if st.escape & 1 != 0 then SetBit(b, cfg.reservedBitPos) else b
    ensures RxSafe(cfg, st, b)
    ensures RxStep(cfg, st, b) == st.(buf := st.buf[st.len := v], escape := st.escape >> 1, len := st.len + 1)
  {
  }

  /** The wire form of a window starts with the wire form of its first byte. */
  lemma WireBytesCons(cfg: Config, w: seq<bv8>)
    requires EscapeParams(cfg) && w != []
    ensures WireBytes(cfg, w)[0] == WireByte(cfg, w[0]) && WireBytes(cfg, w)[1..] == WireBytes(cfg, w[1..])
  {
  }

  /** The first byte of a window, in wire form, is stored as it was before it was escaped. */
  lemma WindowHeadStep(cfg: Config, st: FrameState, w: seq<bv8>)
    requires ValidConfig(cfg) && 1 <= |w| <= 8 && st.escape == WindowMask(cfg, w) && st.len < |st.buf|
    ensures RxSafe(cfg, st, WireByte(cfg, w[0]))
    ensures RxStep(cfg, st, WireByte(cfg, w[0])) ==
      st.(buf := st.buf[st.len := w[0]], escape := WindowMask(cfg, w[1..]), len := st.len + 1)
  {
    MaskHead(cfg, w);
    RestoreReserved(cfg, w[0]);
    DataStep(cfg, st, WireByte(cfg, w[0]), w[0]);
  }

  /** The window's bytes in wire form, decoded from the window's mask, come out as the window. */
  lemma {:induction false} DecodeWindow(cfg: Config, st: FrameState, w: seq<bv8>)
    requires ValidConfig(cfg) && |w| <= cfg.numEscapeBytes && st.escape == WindowMask(cfg, w)
    requires st.len + |w| <= |st.buf|
    ensures RxSafeAll(cfg, st, WireBytes(cfg, w)) && Received(cfg, st, WireBytes(cfg, w)) == 0
    ensures RxAll(cfg, st, WireBytes(cfg, w)) == Store(st, w).(escape := 0)
    decreases |w|
  {
    if w != [] {
      var bs := WireBytes(cfg, w);
      WireBytesCons(cfg, w);
      WindowHeadStep(cfg, st, w);
      var st1 := st.(buf := st.buf[st.len := w[0]], escape := WindowMask(cfg, w[1..]), len := st.len + 1);
      DecodeWindow(cfg, st1, w[1..]);
      Feed1(cfg, st, bs);
      StoreCons(st, w, WindowMask(cfg, w[1..]));
    }
  }

  /** The buffer with `p` stored behind its current contents. */
  function Store(st: FrameState, p: seq<bv8>): (r: FrameState)
    requires st.len + |p| <= |st.buf|
    ensures r.len == st.len + |p| && |r.buf| == |st.buf|
  {
    st.(buf := Overwrite(st.buf, st.len, p), len := st.len + |p|)
  }

  /** Storing the first byte of `w` and then the rest is storing `w`. */
  lemma StoreCons(st: FrameState, w: seq<bv8>, e: bv8)
    requires w != [] && st.len + |w| <= |st.buf|
    ensures Store(st.(buf := st.buf[st.len := w[0]], escape := e, len := st.len + 1), w[1..]).(escape := 0) ==
      Store(st, w).(escape := 0)
  {
    OverwriteCons(st.buf, st.len, w);
  }

  /** Storing `q` and then `r` is storing `q + r`. */
  lemma StoreAppend(st: FrameState, q: seq<bv8>, r: seq<bv8>)
    requires st.len + |q| + |r| <= |st.buf|
    ensures Store(Store(st, q), r) == Store(st, q + r)
  {
    OverwriteAppend(st.buf, st.len, q, r);
  }

  /** Writing `q`'s first byte and then the rest behind it writes `q`. */
  lemma OverwriteCons(b: seq<bv8>, at: nat, q: seq<bv8>)
    requires q != [] && at + |q| <= |b|
    ensures Overwrite(b[at := q[0]], at + 1, q[1..]) == Overwrite(b, at, q)
  {
  }

  /** Writing `q` and then `r` behind it writes `q + r`. */
  lemma OverwriteAppend(b: seq<bv8>, at: nat, q: seq<bv8>, r: seq<bv8>)
    requires at + |q| + |r| <= |b|
    ensures Overwrite(Overwrite(b, at, q), at + |q|, r) == Overwrite(b, at, q + r)
  {
  }

  /**
   * The escaped run of `p`, received with no escape pending, stores `p` in the
   * buffer behind what is there, completes no packet and leaves no escape pending.
   */
  lemma {:induction false} DecodeRun(cfg: Config, st: FrameState, p: seq<bv8>)
    requires ValidConfig(cfg) && st.escape == 0 && st.len + |p| <= |st.buf|
    ensures RxSafeAll(cfg, st, EscapeRun(cfg, p)) && Received(cfg, st, EscapeRun(cfg, p)) == 0
    ensures RxAll(cfg, st, EscapeRun(cfg, p)) == Store(st, p)
    decreases |p|
  {
    if p == [] {
      assert Overwrite(st.buf, st.len, p) == st.buf;
    } else if !cfg.isControl(p[0]) {
      var bs := EscapeRun(cfg, p);
      assert bs[0] == p[0] && bs[1..] == EscapeRun(cfg, p[1..]);
      var st1 := st.(buf := st.buf[st.len := p[0]], len := st.len + 1);
      DataStep(cfg, st, p[0], p[0]);
      DecodeRun(cfg, st1, p[1..]);
      Feed1(cfg, st, bs);
      OverwriteCons(st.buf, st.len, p);
    } else {
      DecodeWindowRun(cfg, st, p);
    }
  }

  /** An ESCAPE byte loads its low bits into the escape bitmask and does nothing else. */
  lemma EscapeStep(cfg: Config, st: FrameState, b: bv8)
    requires BitPositionsValid(cfg) && IsEscapeControl(cfg, b)
    ensures RxSafe(cfg, st, b) && !Completes(cfg, st, b)
    ensures RxStep(cfg, st, b) == st.(escape := b & cfg.escapeByteMask)
  {
  }

  /** An escaped run that starts with a window: the window's ESCAPE byte and wire bytes, then the rest. */
  lemma WindowRunShape(cfg: Config, p: seq<bv8>, n: nat)
    requires EscapeParams(cfg) && p != [] && cfg.isControl(p[0]) && n == Min(cfg.numEscapeBytes, |p|)
    ensures EscapeRun(cfg, p) == WindowOut(cfg, p[..n]) + EscapeRun(cfg, p[n..])
  {
  }

  /** A window as sent, received with no escape pending, stores the window. */
  lemma DecodeWindowOut(cfg: Config, st: FrameState, w: seq<bv8>)
    requires ValidConfig(cfg) && st.escape == 0 && st.len + |w| <= |st.buf|
    requires 1 <= |w| <= cfg.numEscapeBytes && cfg.isControl(w[0])
    ensures RxSafeAll(cfg, st, WindowOut(cfg, w)) && Received(cfg, st, WindowOut(cfg, w)) == 0
    ensures RxAll(cfg, st, WindowOut(cfg, w)) == Store(st, w)
  {
    var m := WindowMask(cfg, w);
    var bs := WindowOut(cfg, w);
    assert bs[0] == EscapeWith(cfg, m) && bs[1..] == WireBytes(cfg, w);
    WindowEscapeByte(cfg, w);
    MaskWithinEscapeMask(cfg, w);
    EscapeLoadsMask(cfg, m);
    EscapeStep(cfg, st, bs[0]);
    DecodeWindow(cfg, st.(escape := m), w);
    assert Store(st.(escape := m), w).(escape := 0) == Store(st, w);
    Feed1(cfg, st, bs);
  }

  /** The window case of `DecodeRun`. */
  lemma {:induction false} DecodeWindowRun(cfg: Config, st: FrameState, p: seq<bv8>)
    requires ValidConfig(cfg) && st.escape == 0 && st.len + |p| <= |st.buf|
    requires p != [] && cfg.isControl(p[0])
    ensures RxSafeAll(cfg, st, EscapeRun(cfg, p)) && Received(cfg, st, EscapeRun(cfg, p)) == 0
    ensures RxAll(cfg, st, EscapeRun(cfg, p)) == Store(st, p)
    decreases |p|, 0
  {
    var n := Min(cfg.numEscapeBytes, |p|);
    var w, rest := p[..n], p[n..];
    WindowRunShape(cfg, p, n);
    DecodeWindowOut(cfg, st, w);
    DecodeRun(cfg, Store(st, w), rest);
    RxAppend(cfg, st, WindowOut(cfg, w), EscapeRun(cfg, rest));
    StoreAppend(st, w, rest);
    assert w + rest == p;
  }

  /** A window's mask lies inside ESCAPE_BYTE_MASK. */
  lemma MaskWithinEscapeMask(cfg: Config, w: seq<bv8>)
    requires ValidConfig(cfg) && |w| <= cfg.numEscapeBytes
    ensures WindowMask(cfg, w) & !cfg.escapeByteMask == 0
  {
    MaskBound(cfg, w, Bv8(|w|));
    LowOnesMono(Bv8(|w|), Bv8(cfg.numEscapeBytes));
  }

  // ---------------------------------------------------------------- whole frames

  /** A HEAD byte resets the buffer and loads the frame's CRC flag and byte order. */
  lemma HeadStep(cfg: Config, st: FrameState, crc: bool)
    requires ValidConfig(cfg)
    ensures RxSafe(cfg, st, HeadByte(cfg, crc)) && !Completes(cfg, st, HeadByte(cfg, crc))
    ensures RxStep(cfg, st, HeadByte(cfg, crc)) ==
      st.(buf := Zeros(|st.buf|), len := 0, crcPresent := crc, byteOrder := cfg.peEndianess)
  {
    HeadTailAgree(cfg, crc);
  }

  /** HEAD, the length byte and the command byte, received with no escape pending. */
  lemma HeaderSteps(cfg: Config, st: FrameState, crc: bool, r: bv8, c: bv8)
    requires ValidConfig(cfg) && st.escape == 0 && 2 <= |st.buf|
    requires !cfg.isControl(r) && !cfg.isControl(c)
    ensures RxSafeAll(cfg, st, [HeadByte(cfg, crc), r, c])
    ensures Received(cfg, st, [HeadByte(cfg, crc), r, c]) == 0
    ensures RxAll(cfg, st, [HeadByte(cfg, crc), r, c]) ==
      st.(buf := Zeros(|st.buf|)[0 := r][1 := c], len := 2, crcPresent := crc, byteOrder := cfg.peEndianess)
  {
    var bs := [HeadByte(cfg, crc), r, c];
    HeadStep(cfg, st, crc);
    var st1 := st.(buf := Zeros(|st.buf|), len := 0, crcPresent := crc, byteOrder := cfg.peEndianess);
    DataStep(cfg, st1, r, r);
    var st2 := st1.(buf := st1.buf[0 := r], len := 1);
    DataStep(cfg, st2, c, c);
    Feed1(cfg, st2, bs[2..]);
    Feed1(cfg, st1, bs[1..]);
    Feed1(cfg, st, bs);
  }

  /** A TAIL byte that agrees with HEAD completes the packet and unpacks it. */
  lemma TailStep(cfg: Config, st: FrameState, crc: bool)
    requires ValidConfig(cfg) && st.crcPresent == crc && st.byteOrder == cfg.peEndianess
    requires 2 <= |st.buf| && (crc ==> 1 <= st.len <= |st.buf|)
    requires 2 + RestoreR(cfg, st.buf[0]) as int <= |st.buf| && RestoreR(cfg, st.buf[0]) as int <= |st.payload|
    ensures RxSafe(cfg, st, TailByte(cfg, crc)) && Completes(cfg, st, TailByte(cfg, crc))
    ensures RxStep(cfg, st, TailByte(cfg, crc)) == Unpack(cfg, st)
  {
    HeadTailAgree(cfg, crc);
  }

  /**
   * The round trip of the codec: a frame as `_melo_serialize_frame` writes it
   * (HEAD, folded length, command, escaped payload with the CRC placeholder when
   * a CRC is present, TAIL), received with no escape pending, completes exactly
   * one packet, and that packet has the length, command, payload bytes, CRC flag
   * and byte order that were sent; the CRC slot holds what the encoder wrote
   * there, and the payload buffer past the packet is untouched.
   */
  lemma RoundTrip(cfg: Config, st: FrameState, crc: bool, len: bv8, cmd: bv8, data: seq<bv8>)
    requires ValidConfig(cfg) && st.escape == 0
    requires Foldable(cfg, len) && !cfg.isControl(CreateR(cfg, len)) && !cfg.isControl(cmd)
    requires |data| == len as int && 2 + |PayloadWithCrc(data, crc)| <= |st.buf| && |data| <= |st.payload|
    ensures var bs := EncodedFrame(cfg, crc, len, cmd, PayloadWithCrc(data, crc));
      RxSafeAll(cfg, st, bs) && Received(cfg, st, bs) == 1 &&
      var r := RxAll(cfg, st, bs);
      r.dataLen == len && r.cmd == cmd && r.payload[..|data|] == data && r.payload[|data|..] == st.payload[|data|..] &&
      r.crcPresent == crc && r.byteOrder == cfg.peEndianess && r.crc == (if crc then CrcPlaceholder else 0) &&
      r.escape == 0
  {
    var p := PayloadWithCrc(data, crc);
    var body := [HeadByte(cfg, crc), CreateR(cfg, len), cmd] + EscapeRun(cfg, p);
    var tail := [TailByte(cfg, crc)];
    assert EncodedFrame(cfg, crc, len, cmd, p) == body + tail;
    var st4 := FrameBody(cfg, st, crc, len, cmd, p);
    FoldRoundTrip(cfg, len);
    TailStep(cfg, st4, crc);
    UnpackStored(cfg, st4, len, data, crc);
    Feed1(cfg, st4, tail);
    RxAppend(cfg, st, body, tail);
  }

  /** Everything before TAIL: the buffer holds the folded length, the command and the payload. */
  lemma FrameBody(cfg: Config, st: FrameState, crc: bool, len: bv8, cmd: bv8, p: seq<bv8>) returns (r: FrameState)
    requires ValidConfig(cfg) && st.escape == 0
    requires !cfg.isControl(CreateR(cfg, len)) && !cfg.isControl(cmd) && 2 + |p| <= |st.buf|
    ensures var bs := [HeadByte(cfg, crc), CreateR(cfg, len), cmd] + EscapeRun(cfg, p);
      RxSafeAll(cfg, st, bs) && Received(cfg, st, bs) == 0 && RxAll(cfg, st, bs) == r
    ensures r.len == 2 + |p| && |r.buf| == |st.buf| && r.buf[0] == CreateR(cfg, len) && r.buf[1] == cmd && r.buf[2..r.len] == p
    ensures r.escape == 0 && r.crcPresent == crc && r.byteOrder == cfg.peEndianess && r.payload == st.payload
  {
    var rl := CreateR(cfg, len);
    var header := [HeadByte(cfg, crc), rl, cmd];
    HeaderSteps(cfg, st, crc, rl, cmd);
    var st3 := st.(buf := Zeros(|st.buf|)[0 := rl][1 := cmd], len := 2, crcPresent := crc, byteOrder := cfg.peEndianess);
    DecodeRun(cfg, st3, p);
    RxAppend(cfg, st, header, EscapeRun(cfg, p));
    r := Store(st3, p);
    StoredFrame(st3.buf, rl, cmd, p, r.buf);
  }

  /** The buffer after HEAD, length, command and payload: bytes 0 and 1, then the payload. */
  lemma StoredFrame(b: seq<bv8>, r: bv8, c: bv8, p: seq<bv8>, b4: seq<bv8>)
    requires 2 + |p| <= |b| && b4 == Overwrite(b[0 := r][1 := c], 2, p)
    ensures b4[0] == r && b4[1] == c && b4[2..2 + |p|] == p
  {
  }

  /** Unpacking the buffer of a frame built from `data`. */
  lemma UnpackStored(cfg: Config, st: FrameState, len: bv8, data: seq<bv8>, crc: bool)
    requires 2 <= st.len <= |st.buf| && RestoreR(cfg, st.buf[0]) == len && |data| == len as int
    requires st.buf[2..st.len] == PayloadWithCrc(data, crc) && st.crcPresent == crc
    requires |data| <= |st.payload|
    ensures var r := Unpack(cfg, st);
      r.dataLen == len && r.cmd == st.buf[1] && r.payload[..|data|] == data && r.payload[|data|..] == st.payload[|data|..] &&
      r.crc == (if crc then CrcPlaceholder else 0) && r.escape == st.escape && r.crcPresent == crc && r.byteOrder == st.byteOrder
  {
    PayloadSlices(st.buf, st.len, st.payload, data, crc);
  }

  /** The payload bytes of a stored frame, and the byte before TAIL when a CRC is present. */
  lemma PayloadSlices(b: seq<bv8>, len: nat, old_: seq<bv8>, data: seq<bv8>, crc: bool)
    requires 2 <= len <= |b| && b[2..len] == PayloadWithCrc(data, crc) && |data| <= |old_|
    ensures 2 + |data| <= |b|
    ensures (b[2..2 + |data|] + old_[|data|..])[..|data|] == data
    ensures (b[2..2 + |data|] + old_[|data|..])[|data|..] == old_[|data|..]
    ensures crc ==> b[len - 1] == CrcPlaceholder
  {
    var q := b[2..len];
    assert q[..|data|] == data by {
      if crc { assert q == data + [CrcPlaceholder]; }
    }
    assert b[2..2 + |data|] == q[..|data|];
    if crc {
      assert b[len - 1] == q[|q| - 1];
    }
  }
}
