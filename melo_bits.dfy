/**
 * Escape and framing primitives of melo: the configuration constants of a
 * melo build (everything melo.h and melo_priv.h define), the bit helpers on
 * single bytes, the endian-safe 32-bit assembly, and the hypotheses on the
 * configuration that the codec proofs rely on.
 */
module MeloBits {

  /** The byte order tag a frame carries (MELO_LITTLE_ENDIAN / MELO_BIG_ENDIAN). */
  datatype ByteOrder = LittleEndian | BigEndian

  /** The two kinds of command byte `_melo_create_cmd_byte` builds (MELO_CMD_HEAD / MELO_CMD_TAIL). */
  datatype CmdType = Head | Tail

  /** A C bit-field of the command byte: `width` bits starting at bit `shift`. */
  datatype BitField = BitField(shift: bv8, width: bv8)

  /**
   * The compile-time constants and classification macros of a melo build.
   * Their values live in headers that are not part of this model, so every
   * one of them is a parameter; `ValidConfig` states what the proofs assume.
   */
  datatype Config = Config(
    isControl: bv8 -> bool,        // IS_FRAME_CONTROL
    isEscaped: bv8 -> bool,        // IS_FRAME_ESCAPED
    isHead: bv8 -> bool,           // IS_FRAME_HEAD
    isTail: bv8 -> bool,           // IS_FRAME_TAIL
    reservedBitPos: bv8,           // FRAME_RESERVED_BIT_POS
    endianBitPos: bv8,             // FRAME_ENDIAN_BIT_POS
    markerBitPos: bv8,             // FRAME_MARKER_BIT_POS
    crcBitPos: bv8,                // FRAME_CRC_BIT_POS
    escapeByte: bv8,               // ESCAPE_BYTE
    escapeByteMask: bv8,           // ESCAPE_BYTE_MASK
    numEscapeBytes: nat,           // NUM_ESCAPE_BYTES
    txHighMask: bv8,               // RESERVED_TX_HIGH_MASK
    rxHighMask: bv8,               // RESERVED_RX_HIGH_MASK
    lowMask: bv8,                  // RESERVED_LOW_MASK
    peEndianess: ByteOrder,        // MELO_CFG_PE_ENDIANESS
    maxFrameSize: nat,             // MELO_MAX_FRAME_SIZE
    maxWaitFrameSize: nat,         // MELO_MAX_WAIT_FRAME_SIZE
    maxDataLength: nat,            // MELO_CFG_MAX_DATA_LENGTH
    maxStackSize: nat,             // MELO_CFG_MAX_STACK_SIZE
    serviceField: BitField,        // command.fields.service
    subfunctionField: BitField,    // command.fields.subfunction
    statusField: BitField,         // command.fields.status
    statusRequest: bv8,            // MELO_CMD_REQUEST_RESPONSE
    statusPending: bv8,            // MELO_CMD_PENDING_RESPONSE
    statusPositive: bv8,           // MELO_CMD_POSITIVE_RESPONSE
    statusNegative: bv8,           // MELO_CMD_NEGATIVE_RESPONSE
    eventIdle: bv8,                // MELO_EVENT_IDLE
    eventTxConfirmation: bv8,      // MELO_EVNET_TX_CONFIRMATION
    eventRequestReceived: bv8      // MELO_EVENT_REQUEST_RECEIVED
  )

  // ---------------------------------------------------------------- single bits

  function Bit(pos: bv8): bv8
    requires pos < 8
  {
    1 << pos
  }

  /** BIT_SET */
  function SetBit(b: bv8, pos: bv8): bv8
    requires pos < 8
  {
    b | Bit(pos)
  }

  /** BIT_CLEAR */
  function ClearBit(b: bv8, pos: bv8): bv8
    requires pos < 8
  {
    b & !Bit(pos)
  }

  predicate TestBit(b: bv8, pos: bv8)
    requires pos < 8
  {
    b & Bit(pos) != 0
  }

  /** The mask of the `n` lowest bits. */
  function LowOnes(n: bv8): bv8
    requires n <= 8
  {
    ((1 as bv8) << n) - 1
  }

  /** A count from 0 to 8 as a byte, for the counts that index bits of a byte. */
  function Bv8(x: nat): bv8
    requires x <= 8
  {
    if x == 0 then 0 else if x == 1 then 1 else if x == 2 then 2 else if x == 3 then 3
    else if x == 4 then 4 else if x == 5 then 5 else if x == 6 then 6 else if x == 7 then 7 else 8
  }

  // ---------------------------------------------------------------- buffers

  /** `q` written over `b` from index `at` on. */
  function Overwrite(b: seq<bv8>, at: nat, q: seq<bv8>): (r: seq<bv8>)
    requires at + |q| <= |b|
    ensures |r| == |b|
  {
    b[..at] + q + b[at + |q|..]
  }

  /** Writing the next byte behind an overwritten stretch extends the stretch. */
  lemma OverwriteSnoc(b: seq<bv8>, at: nat, q: seq<bv8>, x: bv8)
    requires at + |q| < |b|
    ensures Overwrite(b, at, q)[at + |q| := x] == Overwrite(b, at, q + [x])
  {
  }

  /** Inside an overwritten stretch, index `at + j` holds `q[j]`, and writing it changes `q[j]`. */
  lemma OverwriteAt(b: seq<bv8>, at: nat, q: seq<bv8>, j: nat, x: bv8)
    requires at + |q| <= |b| && j < |q|
    ensures Overwrite(b, at, q)[at + j] == q[j]
    ensures Overwrite(b, at, q)[at + j := x] == Overwrite(b, at, q[j := x])
  {
  }

  /** Overwriting `b` with `q` and then from `|q|` on with `e` overwrites it with `q + e`. */
  lemma Overwrite2(b: seq<bv8>, q: seq<bv8>, at: nat, e: seq<bv8>)
    requires 1 <= at == |q| && |q| + |e| <= |b|
    ensures Overwrite(Overwrite(b, 0, q), at, e) == Overwrite(b, 0, q + e)
    ensures Overwrite(b, 0, q + e)[0] == q[0]
  {
    assert Overwrite(Overwrite(b, 0, q), at, e) == q + e + b[|q| + |e|..];
  }

  // ---------------------------------------------------------------- bit fields

  predicate ValidField(f: BitField)
  {
    f.shift < 8 && 1 <= f.width <= 8 && f.shift + f.width <= 8
  }

  /** The bits of the command byte that field `f` occupies. */
  function FieldMask(f: BitField): bv8
    requires ValidField(f)
  {
    LowOnes(f.width) << f.shift
  }

  /** Reading a bit-field member of the command byte. */
  function GetField(raw: bv8, f: BitField): bv8
    requires ValidField(f)
  {
    (raw >> f.shift) & LowOnes(f.width)
  }

  /** Assigning a bit-field member: C truncates the value to the field's width. */
  function SetField(raw: bv8, f: BitField, v: bv8): bv8
    requires ValidField(f)
  {
    (raw & !FieldMask(f)) | ((v & LowOnes(f.width)) << f.shift)
  }

  predicate DisjointFields(f: BitField, g: BitField)
    requires ValidField(f) && ValidField(g)
  {
    FieldMask(f) & FieldMask(g) == 0
  }

  /** Reading back a field just assigned gives the assigned value, truncated to the width. */
  lemma GetSetSame(raw: bv8, f: BitField, v: bv8)
    requires ValidField(f)
    ensures GetField(SetField(raw, f, v), f) == v & LowOnes(f.width)
  {
    if f.shift == 0 {
    } else if f.shift == 1 {
    } else if f.shift == 2 {
    } else if f.shift == 3 {
    } else if f.shift == 4 {
    } else if f.shift == 5 {
    } else if f.shift == 6 {
    } else {
    }
  }

  /** Assigning one field leaves every disjoint field as it was. */
  lemma GetSetOther(raw: bv8, f: BitField, g: BitField, v: bv8)
    requires ValidField(f) && ValidField(g) && DisjointFields(f, g)
    ensures GetField(SetField(raw, f, v), g) == GetField(raw, g)
  {
    if f.shift == 0 {
    } else if f.shift == 1 {
    } else if f.shift == 2 {
    } else if f.shift == 3 {
    } else if f.shift == 4 {
    } else if f.shift == 5 {
    } else if f.shift == 6 {
    } else {
    }
  }

  /** A field value never exceeds the field's width. */
  lemma GetFieldBound(raw: bv8, f: BitField)
    requires ValidField(f)
    ensures GetField(raw, f) & !LowOnes(f.width) == 0
  {
  }

  // ---------------------------------------------------------------- frame control bytes

  /** IS_FRAME_CRC_PRESENT, taken to be the 0/1 test of the CRC-present bit of a HEAD or TAIL byte. */
  predicate IsCrcPresent(cfg: Config, b: bv8)
    requires cfg.crcBitPos < 8
  {
    TestBit(b, cfg.crcBitPos)
  }

  /** GET_FRAME_ENDIANNESS, taken to be the byte order the endian bit of a HEAD or TAIL byte names. */
  function FrameEndianness(cfg: Config, b: bv8): ByteOrder
    requires cfg.endianBitPos < 8
  {
    if TestBit(b, cfg.endianBitPos) then BigEndian else LittleEndian
  }

  /** What the decoder takes for an ESCAPE byte. */
  predicate IsEscapeControl(cfg: Config, b: bv8)
  {
    cfg.isControl(b) && cfg.isEscaped(b)
  }

  /** What the decoder takes for a HEAD byte (tested after ESCAPE). */
  predicate IsHeadControl(cfg: Config, b: bv8)
  {
    cfg.isControl(b) && !cfg.isEscaped(b) && cfg.isHead(b)
  }

  /** What the decoder takes for a TAIL byte (tested after ESCAPE and HEAD). */
  predicate IsTailControl(cfg: Config, b: bv8)
  {
    cfg.isControl(b) && !cfg.isEscaped(b) && !cfg.isHead(b) && cfg.isTail(b)
  }

  /** The ESCAPE byte the encoder emits once it has set the bits `m` of its window. */
  function EscapeWith(cfg: Config, m: bv8): bv8
  {
    cfg.escapeByte | m
  }

  predicate BitPositionsValid(cfg: Config)
  {
    cfg.reservedBitPos < 8 && cfg.endianBitPos < 8 && cfg.markerBitPos < 8 && cfg.crcBitPos < 8 &&
    cfg.reservedBitPos != cfg.endianBitPos && cfg.reservedBitPos != cfg.markerBitPos &&
    cfg.reservedBitPos != cfg.crcBitPos && cfg.endianBitPos != cfg.markerBitPos &&
    cfg.endianBitPos != cfg.crcBitPos && cfg.markerBitPos != cfg.crcBitPos
  }

  // ---------------------------------------------------------------- the four pure helpers

  /** `_melo_create_r`: folds the length byte before it is sent. */
  function CreateR(cfg: Config, b: bv8): bv8
  {
    ((b & cfg.txHighMask) << 1) | (b & cfg.lowMask)
  }

  /** `_melo_restore_r`: unfolds a received length byte. */
  function RestoreR(cfg: Config, b: bv8): bv8
  {
    ((b & cfg.rxHighMask) >> 1) | (b & cfg.lowMask)
  }

  /** The relation of the fold masks that makes the fold reversible. */
  predicate FoldMasksAgree(cfg: Config)
  {
    cfg.rxHighMask == cfg.txHighMask << 1 && cfg.txHighMask == cfg.rxHighMask >> 1 &&
    cfg.lowMask & cfg.txHighMask == 0 && cfg.lowMask & cfg.rxHighMask == 0
  }

  /** A byte the fold carries without loss: it uses only the TX-high and low bits. */
  predicate Foldable(cfg: Config, b: bv8)
  {
    b & !(cfg.txHighMask | cfg.lowMask) == 0
  }

  /** Unfolding a folded byte gives the byte back. */
  lemma FoldRoundTrip(cfg: Config, b: bv8)
    requires FoldMasksAgree(cfg) && Foldable(cfg, b)
    ensures RestoreR(cfg, CreateR(cfg, b)) == b
  {
  }

  /**
   * `_melo_create_cmd_byte`: sets the reserved bit, sets the endian bit when the
   * configured byte order is big endian (clears it otherwise), and sets the
   * marker bit for a HEAD (clears it for a TAIL); other bits of `b` are kept.
   */
  function CreateCmdByte(cfg: Config, b: bv8, cmdType: CmdType): bv8
    requires BitPositionsValid(cfg)
  {
    var r := SetBit(b, cfg.reservedBitPos);
    var e := if cfg.peEndianess == BigEndian then SetBit(r, cfg.endianBitPos)
             else ClearBit(r, cfg.endianBitPos);
    if cmdType == Head then SetBit(e, cfg.markerBitPos) else ClearBit(e, cfg.markerBitPos)
  }

  /** The HEAD byte `_melo_serialize_frame` writes: a cleared byte made a HEAD, plus the CRC bit. */
  function HeadByte(cfg: Config, crc: bool): bv8
    requires BitPositionsValid(cfg)
  {
    var h := CreateCmdByte(cfg, 0x00, Head);
    if crc then SetBit(h, cfg.crcBitPos) else h
  }

  /** The TAIL byte `_melo_serialize_frame` writes. */
  function TailByte(cfg: Config, crc: bool): bv8
    requires BitPositionsValid(cfg)
  {
    var t := CreateCmdByte(cfg, 0x00, Tail);
    if crc then SetBit(t, cfg.crcBitPos) else t
  }

  /**
   * The bits of a HEAD byte: the reserved bit and the marker bit are set, the
   * endian bit exactly for a big-endian build, the CRC bit exactly when a CRC is
   * present.
   */
  lemma HeadByteBits(cfg: Config, crc: bool)
    requires BitPositionsValid(cfg)
    ensures TestBit(HeadByte(cfg, crc), cfg.reservedBitPos)
    ensures TestBit(HeadByte(cfg, crc), cfg.markerBitPos)
    ensures TestBit(HeadByte(cfg, crc), cfg.endianBitPos) == (cfg.peEndianess == BigEndian)
    ensures TestBit(HeadByte(cfg, crc), cfg.crcBitPos) == crc
  {
    CmdByteBit(cfg, Head, crc, cfg.reservedBitPos);
    CmdByteBit(cfg, Head, crc, cfg.markerBitPos);
    CmdByteBit(cfg, Head, crc, cfg.endianBitPos);
    CmdByteBit(cfg, Head, crc, cfg.crcBitPos);
  }

  /** The bits of a TAIL byte: as for HEAD, but with the marker bit clear. */
  lemma TailByteBits(cfg: Config, crc: bool)
    requires BitPositionsValid(cfg)
    ensures TestBit(TailByte(cfg, crc), cfg.reservedBitPos)
    ensures !TestBit(TailByte(cfg, crc), cfg.markerBitPos)
    ensures TestBit(TailByte(cfg, crc), cfg.endianBitPos) == (cfg.peEndianess == BigEndian)
    ensures TestBit(TailByte(cfg, crc), cfg.crcBitPos) == crc
  {
    CmdByteBit(cfg, Tail, crc, cfg.reservedBitPos);
    CmdByteBit(cfg, Tail, crc, cfg.markerBitPos);
    CmdByteBit(cfg, Tail, crc, cfg.endianBitPos);
    CmdByteBit(cfg, Tail, crc, cfg.crcBitPos);
  }

  /** Bit `q` of a HEAD or TAIL byte, step by step through `_melo_create_cmd_byte` and the CRC flag. */
  lemma CmdByteBit(cfg: Config, t: CmdType, crc: bool, q: bv8)
    requires BitPositionsValid(cfg) && q < 8
    ensures var b := if t == Head then HeadByte(cfg, crc) else TailByte(cfg, crc);
      TestBit(b, q) == ((crc && q == cfg.crcBitPos) ||
                        (if q == cfg.markerBitPos then t == Head
                         else if q == cfg.endianBitPos then cfg.peEndianess == BigEndian
                         else q == cfg.reservedBitPos))
  {
    var c := CreateCmdByte(cfg, 0x00, t);
    CmdBit(cfg, t, q);
    SetBitTest(c, cfg.crcBitPos, q);
    assert (if t == Head then HeadByte(cfg, crc) else TailByte(cfg, crc)) == if crc then SetBit(c, cfg.crcBitPos) else c;
  }

  /** Bit `q` of the byte `_melo_create_cmd_byte` makes of a cleared byte. */
  lemma CmdBit(cfg: Config, t: CmdType, q: bv8)
    requires BitPositionsValid(cfg) && q < 8
    ensures TestBit(CreateCmdByte(cfg, 0x00, t), q) ==
            (if q == cfg.markerBitPos then t == Head
             else if q == cfg.endianBitPos then cfg.peEndianess == BigEndian
             else q == cfg.reservedBitPos)
  {
    CmdBitAt(cfg.reservedBitPos, cfg.endianBitPos, cfg.markerBitPos, cfg.peEndianess == BigEndian, t == Head, q);
  }

  /** `CmdBit` for explicit bit positions. */
  lemma CmdBitAt(res: bv8, en: bv8, mk: bv8, big: bool, head: bool, q: bv8)
    requires res < 8 && en < 8 && mk < 8 && q < 8 && res != en && res != mk && en != mk
    ensures var r := SetBit(0x00, res);
      var e := if big then SetBit(r, en) else ClearBit(r, en);
      TestBit(if head then SetBit(e, mk) else ClearBit(e, mk), q) == (if q == mk then head else if q == en then big else q == res)
  {
    ZeroBit(q);
    var r := SetBit(0x00, res);
    SetBitTest(0x00, res, q);
    var e := if big then SetBit(r, en) else ClearBit(r, en);
    if big { SetBitTest(r, en, q); } else { ClearBitTest(r, en, q); }
    assert TestBit(e, q) == if q == en then big else q == res;
    if head { SetBitTest(e, mk, q); } else { ClearBitTest(e, mk, q); }
  }

  lemma ZeroBit(q: bv8)
    requires q < 8
    ensures !TestBit(0x00, q)
  {
  }

  /** BIT_SET sets bit `p` and leaves the others. */
  lemma SetBitTest(b: bv8, p: bv8, q: bv8)
    requires p < 8 && q < 8
    ensures TestBit(SetBit(b, p), q) == (p == q || TestBit(b, q))
  {
  }

  /** BIT_CLEAR clears bit `p` and leaves the others. */
  lemma ClearBitTest(b: bv8, p: bv8, q: bv8)
    requires p < 8 && q < 8
    ensures TestBit(ClearBit(b, p), q) == (p != q && TestBit(b, q))
  {
  }

  /** HEAD and TAIL of one frame carry the same CRC flag and byte order. */
  lemma HeadTailAgree(cfg: Config, crc: bool)
    requires BitPositionsValid(cfg)
    ensures IsCrcPresent(cfg, HeadByte(cfg, crc)) == crc == IsCrcPresent(cfg, TailByte(cfg, crc))
    ensures FrameEndianness(cfg, HeadByte(cfg, crc)) == cfg.peEndianess
    ensures FrameEndianness(cfg, TailByte(cfg, crc)) == cfg.peEndianess
  {
    HeadByteBits(cfg, crc);
    TailByteBits(cfg, crc);
  }

  /** Byte `k` (0 = least significant) of a 32-bit value. */
  function ByteOf(x: bv32, k: nat): bv8
    requires k < 4
  {
    if k == 0 then (x & 0xFF) as bv8
    else if k == 1 then ((x >> 8) & 0xFF) as bv8
    else if k == 2 then ((x >> 16) & 0xFF) as bv8
    else (x >> 24) as bv8
  }

  /**
   * `_melo_esafe_uint`: assembles a 32-bit value from four wire bytes. When the
   * two byte orders agree, byte 0 is the least significant; otherwise the bytes
   * are taken in reverse.
   */
  function EsafeUint(bytes: seq<bv8>, pe: ByteOrder, he: ByteOrder): (r: bv32)
    requires |bytes| >= 4
    ensures pe == he ==> ByteOf(r, 0) == bytes[0] && ByteOf(r, 1) == bytes[1] && ByteOf(r, 2) == bytes[2] && ByteOf(r, 3) == bytes[3]
    ensures pe != he ==> ByteOf(r, 0) == bytes[3] && ByteOf(r, 1) == bytes[2] && ByteOf(r, 2) == bytes[1] && ByteOf(r, 3) == bytes[0]
  {
    if pe == he then
      (bytes[0] as bv32) | ((bytes[1] as bv32) << 8) | ((bytes[2] as bv32) << 16) | ((bytes[3] as bv32) << 24)
    else
      (bytes[3] as bv32) | ((bytes[2] as bv32) << 8) | ((bytes[1] as bv32) << 16) | ((bytes[0] as bv32) << 24)
  }

  /** Reverses the four bytes of a 32-bit value. */
  function ByteSwap32(x: bv32): (r: bv32)
    ensures ByteOf(r, 0) == ByteOf(x, 3) && ByteOf(r, 1) == ByteOf(x, 2)
    ensures ByteOf(r, 2) == ByteOf(x, 1) && ByteOf(r, 3) == ByteOf(x, 0)
  {
    ((x & 0xFF) << 24) | (((x >> 8) & 0xFF) << 16) | (((x >> 16) & 0xFF) << 8) | (x >> 24)
  }

  /** A 32-bit value is determined by its four bytes. */
  lemma BytesDetermineValue(x: bv32, y: bv32)
    requires ByteOf(x, 0) == ByteOf(y, 0) && ByteOf(x, 1) == ByteOf(y, 1)
    requires ByteOf(x, 2) == ByteOf(y, 2) && ByteOf(x, 3) == ByteOf(y, 3)
    ensures x == y
  {
  }

  /** The results for agreeing and for differing byte orders are byte reversals of each other. */
  lemma EsafeOrdersSwap(bytes: seq<bv8>, pe: ByteOrder, he: ByteOrder)
    requires |bytes| >= 4 && pe != he
    ensures EsafeUint(bytes, pe, pe) == ByteSwap32(EsafeUint(bytes, pe, he))
  {
    var same, diff := EsafeUint(bytes, pe, pe), EsafeUint(bytes, pe, he);
    BytesDetermineValue(same, ByteSwap32(diff));
  }

  // ---------------------------------------------------------------- hypotheses on the configuration

  /** The bit positions are bits of a byte and an escape window covers one to eight bytes. */
  predicate EscapeParams(cfg: Config)
  {
    BitPositionsValid(cfg) && 1 <= cfg.numEscapeBytes <= 8
  }

  /**
   * What the codec proofs assume of the (unseen) header constants:
   * the four bit positions are distinct bits of a byte; a control byte has the
   * reserved bit set and clearing that bit makes any byte a data byte; the emitted
   * HEAD, TAIL and ESCAPE bytes classify as such; the escape mask covers exactly
   * NUM_ESCAPE_BYTES low bits, which ESCAPE_BYTE leaves clear; the fold masks agree.
   */
  ghost predicate ValidConfig(cfg: Config)
  {
    EscapeParams(cfg) &&
    cfg.escapeByteMask == LowOnes(Bv8(cfg.numEscapeBytes)) &&
    cfg.escapeByte & cfg.escapeByteMask == 0 &&
    (forall m :: m != 0 && m & !cfg.escapeByteMask == 0 ==> IsEscapeControl(cfg, EscapeWith(cfg, m))) &&
    (forall b :: cfg.isControl(b) ==> TestBit(b, cfg.reservedBitPos)) &&
    (forall b :: !cfg.isControl(ClearBit(b, cfg.reservedBitPos))) &&
    IsHeadControl(cfg, HeadByte(cfg, false)) && IsHeadControl(cfg, HeadByte(cfg, true)) &&
    IsTailControl(cfg, TailByte(cfg, false)) && IsTailControl(cfg, TailByte(cfg, true)) &&
    FoldMasksAgree(cfg)
  }

  /** The command byte layout: three disjoint bit-fields and four distinct status codes. */
  predicate ValidCommandLayout(cfg: Config)
  {
    ValidField(cfg.serviceField) && ValidField(cfg.subfunctionField) && ValidField(cfg.statusField) &&
    cfg.serviceField.width <= 3 &&
    DisjointFields(cfg.statusField, cfg.serviceField) &&
    DisjointFields(cfg.statusField, cfg.subfunctionField) &&
    DisjointFields(cfg.serviceField, cfg.subfunctionField) &&
    cfg.statusRequest & !LowOnes(cfg.statusField.width) == 0 &&
    cfg.statusPending & !LowOnes(cfg.statusField.width) == 0 &&
    cfg.statusPositive & !LowOnes(cfg.statusField.width) == 0 &&
    cfg.statusNegative & !LowOnes(cfg.statusField.width) == 0 &&
    cfg.statusRequest != cfg.statusPending && cfg.statusRequest != cfg.statusPositive &&
    cfg.statusRequest != cfg.statusNegative && cfg.statusPending != cfg.statusPositive &&
    cfg.statusPending != cfg.statusNegative && cfg.statusPositive != cfg.statusNegative
  }

  /**
   * The buffer sizes `MeloInit` binds, large enough for what the dispatch layer
   * writes into them (a response of at most four bytes, each possibly escaped,
   * and a one-byte wait frame), and small enough for uint8_t lengths; events
   * other than Idle are the ones raised.
   */
  predicate ValidBuffers(cfg: Config)
  {
    12 <= cfg.maxFrameSize <= 255 && 6 <= cfg.maxWaitFrameSize <= 255 &&
    4 <= cfg.maxDataLength <= 255 && 1 <= cfg.maxStackSize <= 255 &&
    cfg.eventTxConfirmation != cfg.eventIdle && cfg.eventRequestReceived != cfg.eventIdle
  }

  /** Sub-service ids of the command byte. */
  function Service(cfg: Config, raw: bv8): bv8
    requires ValidCommandLayout(cfg)
  {
    GetField(raw, cfg.serviceField)
  }

  function Subfunction(cfg: Config, raw: bv8): bv8
    requires ValidCommandLayout(cfg)
  {
    GetField(raw, cfg.subfunctionField)
  }

  function Status(cfg: Config, raw: bv8): bv8
    requires ValidCommandLayout(cfg)
  {
    GetField(raw, cfg.statusField)
  }

  /** `command.fields.status = s`: changes the status and nothing else of the command. */
  function WithStatus(cfg: Config, raw: bv8, s: bv8): (r: bv8)
    requires ValidCommandLayout(cfg)
    requires s & !LowOnes(cfg.statusField.width) == 0
    ensures Status(cfg, r) == s
    ensures Service(cfg, r) == Service(cfg, raw) && Subfunction(cfg, r) == Subfunction(cfg, raw)
  {
    GetSetSame(raw, cfg.statusField, s);
    GetSetOther(raw, cfg.statusField, cfg.serviceField, s);
    GetSetOther(raw, cfg.statusField, cfg.subfunctionField, s);
    SetField(raw, cfg.statusField, s)
  }

  /** A service id always indexes the eight-entry service table. */
  lemma ServiceInTable(cfg: Config, raw: bv8)
    requires ValidCommandLayout(cfg)
    ensures Service(cfg, raw) < 8
  {
    GetFieldBound(raw, cfg.serviceField);
  }

  // ---------------------------------------------------------------- a configuration meeting the hypotheses

  /**
   * One build that meets every hypothesis: bits 7..6 equal to 01 mark a control
   * byte (bit 6 is the reserved bit), the three low bits are the escape window,
   * bit 5 tells HEAD from TAIL, bit 4 is the byte order and bit 3 the CRC flag.
   * The command byte holds the service in bits 0..2, the subfunction in bits
   * 3..4 and the status in bits 5..7, with status codes that keep bit 6 clear.
   */
  function ExampleConfig(): Config
  {
    Config(
      b => b & 0xC0 == 0x40, b => b & 0x07 != 0, b => b & 0x20 != 0, b => b & 0x20 == 0,
      6, 4, 5, 3,
      0x40, 0x07, 3,
      0x40, 0x80, 0x3F,
      LittleEndian,
      64, 8, 16, 8,
      BitField(0, 3), BitField(3, 2), BitField(5, 3),
      0, 1, 4, 5,
      0, 1, 2)
  }

  lemma ExampleConfigValid()
    ensures ValidConfig(ExampleConfig())
    ensures ValidCommandLayout(ExampleConfig())
    ensures ValidBuffers(ExampleConfig())
  {
    var cfg := ExampleConfig();
    forall m | m != 0 && m & !cfg.escapeByteMask == 0
      ensures IsEscapeControl(cfg, EscapeWith(cfg, m))
    {
    }
    forall b ensures !cfg.isControl(ClearBit(b, cfg.reservedBitPos)) {
    }
  }

  /** In the example build no command byte with one of the four status codes is a control byte, so command bytes travel unescaped. */
  lemma ExampleCommandsAreData(raw: bv8)
    requires var cfg := ExampleConfig();
      Status(cfg, raw) in {cfg.statusRequest, cfg.statusPending, cfg.statusPositive, cfg.statusNegative}
    ensures !ExampleConfig().isControl(raw)
  {
    var cfg := ExampleConfig();
    assert (raw >> 5) & 7 == 0 || (raw >> 5) & 7 == 1 || (raw >> 5) & 7 == 4 || (raw >> 5) & 7 == 5;
  }
}
