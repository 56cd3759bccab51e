/**
 * The wire format of a melo frame, stated as functions: the windowed byte
 * stuffing of the payload and the whole frame that `_melo_serialize_frame`
 * produces. The encoder loop is proved against these definitions.
 */
module Escaping {
  import opened MeloBits

  /** The CRC placeholder the encoder writes behind the payload when a CRC is present. */
  const CrcPlaceholder: bv8 := 0x66

  function Min(a: nat, b: nat): nat
  {
    if a < b then a else b
  }

  /** A payload byte as it is sent: a control byte goes out with its reserved bit cleared. */
  function WireByte(cfg: Config, b: bv8): bv8
    requires EscapeParams(cfg)
  {
    if cfg.isControl(b) then ClearBit(b, cfg.reservedBitPos) else b
  }

  function WireBytes(cfg: Config, w: seq<bv8>): (r: seq<bv8>)
    requires EscapeParams(cfg)
    ensures |r| == |w|
  {
    seq(|w|, k requires 0 <= k < |w| => WireByte(cfg, w[k]))
  }

  /** The escape bitmask of one window: bit `k` is set exactly when byte `k` of the window is a control byte. */
  function WindowMask(cfg: Config, w: seq<bv8>): bv8
    requires |w| <= 8
  {
    if w == [] then 0
    else (if cfg.isControl(w[0]) then 1 else 0) | (WindowMask(cfg, w[1..]) << 1)
  }

  /**
   * The escaped form of a payload. A data byte is sent as it is. A control byte
   * opens a window over itself and the next NUM_ESCAPE_BYTES - 1 bytes (fewer
   * at the end of the payload): one ESCAPE byte carrying the window's bitmask,
   * then every byte of the window in its wire form.
   */
  function EscapeRun(cfg: Config, p: seq<bv8>): seq<bv8>
    requires EscapeParams(cfg)
    decreases |p|
  {
    if p == [] then []
    else if !cfg.isControl(p[0]) then [p[0]] + EscapeRun(cfg, p[1..])
    else
      var n := Min(cfg.numEscapeBytes, |p|);
      WindowOut(cfg, p[..n]) + EscapeRun(cfg, p[n..])
  }

  /** What one escape window is sent as: the ESCAPE byte carrying its mask, then its bytes in wire form. */
  function WindowOut(cfg: Config, w: seq<bv8>): (r: seq<bv8>)
    requires EscapeParams(cfg) && |w| <= 8
    ensures |r| == |w| + 1
  {
    [EscapeWith(cfg, WindowMask(cfg, w))] + WireBytes(cfg, w)
  }

  /** No escape window of `p` is left open at its end: every window opened in `p` was filled. */
  predicate Closed(cfg: Config, p: seq<bv8>)
    requires EscapeParams(cfg)
    decreases |p|
  {
    if p == [] then true
    else if !cfg.isControl(p[0]) then Closed(cfg, p[1..])
    else |p| >= cfg.numEscapeBytes && Closed(cfg, p[cfg.numEscapeBytes..])
  }

  /** The bytes the encoder escapes: the payload, followed by the CRC placeholder when a CRC is present. */
  function PayloadWithCrc(data: seq<bv8>, crc: bool): seq<bv8>
  {
    if crc then data + [CrcPlaceholder] else data
  }

  /** A whole frame: HEAD, the folded length, the raw command byte, the escaped payload, TAIL. */
  function EncodedFrame(cfg: Config, crc: bool, len: bv8, cmd: bv8, p: seq<bv8>): (r: seq<bv8>)
    requires EscapeParams(cfg)
    ensures |r| == 4 + |EscapeRun(cfg, p)|
  {
    [HeadByte(cfg, crc), CreateR(cfg, len), cmd] + EscapeRun(cfg, p) + [TailByte(cfg, crc)]
  }

  /** The number of ESCAPE bytes in a byte sequence. */
  function CountEscapes(cfg: Config, s: seq<bv8>): nat
  {
    if s == [] then 0
    else (if IsEscapeControl(cfg, s[0]) then 1 else 0) + CountEscapes(cfg, s[1..])
  }

  // ---------------------------------------------------------------- window masks

  lemma MaskSnoc(cfg: Config, w: seq<bv8>, b: bv8, k: bv8)
    requires |w| < 8 && k == Bv8(|w|)
    ensures WindowMask(cfg, w + [b]) == WindowMask(cfg, w) | (if cfg.isControl(b) then Bit(k) else 0)
    decreases |w|
  {
    if w == [] {
      assert WindowMask(cfg, [b][1..]) == 0;
    } else {
      assert (w + [b])[1..] == w[1..] + [b];
      MaskSnoc(cfg, w[1..], b, Bv8(|w| - 1));
    }
  }

  /** A window's mask uses only its lowest |w| bits. */
  lemma MaskBound(cfg: Config, w: seq<bv8>, k: bv8)
    requires |w| <= 8 && k == Bv8(|w|)
    ensures WindowMask(cfg, w) & !LowOnes(k) == 0
    decreases |w|
  {
    if w != [] {
      MaskBound(cfg, w[1..], Bv8(|w| - 1));
    }
  }

  /** Bit 0 of a window's mask tells whether its first byte was escaped; shifting it out leaves the rest's mask. */
  lemma MaskHead(cfg: Config, w: seq<bv8>)
    requires 1 <= |w| <= 8
    ensures (WindowMask(cfg, w) & 1 != 0) == cfg.isControl(w[0])
    ensures WindowMask(cfg, w) >> 1 == WindowMask(cfg, w[1..])
  {
    MaskBound(cfg, w[1..], Bv8(|w| - 1));
  }

  // ---------------------------------------------------------------- the escaped run, window by window

  /** A closed prefix escapes independently of what follows it. */
  lemma {:induction false} EscapeRunAppend(cfg: Config, p: seq<bv8>, q: seq<bv8>)
    requires EscapeParams(cfg) && Closed(cfg, p)
    ensures EscapeRun(cfg, p + q) == EscapeRun(cfg, p) + EscapeRun(cfg, q)
    decreases |p|
  {
    if p != [] {
      var n := cfg.numEscapeBytes;
      if !cfg.isControl(p[0]) {
        assert (p + q)[1..] == p[1..] + q;
        EscapeRunAppend(cfg, p[1..], q);
      } else {
        assert (p + q)[n..] == p[n..] + q;
        EscapeRunAppend(cfg, p[n..], q);
        WindowFirst(cfg, p, q);
      }
    } else {
      assert p + q == q;
    }
  }

  /** A closed `p` that opens with a window escapes that whole window before whatever follows. */
  lemma WindowFirst(cfg: Config, p: seq<bv8>, q: seq<bv8>)
    requires EscapeParams(cfg) && p != [] && cfg.isControl(p[0]) && Closed(cfg, p)
    ensures EscapeRun(cfg, p + q) ==
      WindowOut(cfg, p[..cfg.numEscapeBytes]) + EscapeRun(cfg, (p + q)[cfg.numEscapeBytes..])
    ensures EscapeRun(cfg, p) == WindowOut(cfg, p[..cfg.numEscapeBytes]) + EscapeRun(cfg, p[cfg.numEscapeBytes..])
  {
    var n := cfg.numEscapeBytes;
    assert (p + q)[0] == p[0];
    assert (p + q)[..n] == p[..n];
  }

  lemma {:induction false} ClosedAppend(cfg: Config, p: seq<bv8>, q: seq<bv8>)
    requires EscapeParams(cfg) && Closed(cfg, p) && Closed(cfg, q)
    ensures Closed(cfg, p + q)
    decreases |p|
  {
    if p != [] {
      var n := cfg.numEscapeBytes;
      if !cfg.isControl(p[0]) {
        assert (p + q)[1..] == p[1..] + q;
        ClosedAppend(cfg, p[1..], q);
      } else {
        assert (p + q)[n..] == p[n..] + q;
        ClosedAppend(cfg, p[n..], q);
      }
    } else {
      assert p + q == q;
    }
  }

  /** A window that opens at its first byte and is not longer than NUM_ESCAPE_BYTES escapes as one ESCAPE byte and its bytes. */
  lemma OneWindow(cfg: Config, w: seq<bv8>)
    requires EscapeParams(cfg) && 1 <= |w| <= cfg.numEscapeBytes && cfg.isControl(w[0])
    ensures EscapeRun(cfg, w) == [EscapeWith(cfg, WindowMask(cfg, w))] + WireBytes(cfg, w)
    ensures |w| == cfg.numEscapeBytes ==> Closed(cfg, w)
  {
    assert w[..|w|] == w;
    assert w[|w|..] == [];
  }

  /** The encoder's step for a data byte outside any window. */
  lemma StepPlain(cfg: Config, p: seq<bv8>, b: bv8)
    requires EscapeParams(cfg) && Closed(cfg, p) && !cfg.isControl(b)
    ensures EscapeRun(cfg, p + [b]) == EscapeRun(cfg, p) + [b]
    ensures Closed(cfg, p + [b])
  {
    EscapeRunAppend(cfg, p, [b]);
    assert [b][1..] == [];
    ClosedAppend(cfg, p, [b]);
  }

  /** A window `w` opened right after the closed prefix `p`, as far as the encoder has got with it. */
  lemma PrefixWindow(cfg: Config, p: seq<bv8>, w: seq<bv8>)
    requires EscapeParams(cfg) && Closed(cfg, p)
    requires 1 <= |w| <= cfg.numEscapeBytes && cfg.isControl(w[0])
    ensures EscapeRun(cfg, p + w) == EscapeRun(cfg, p) + [EscapeWith(cfg, WindowMask(cfg, w))] + WireBytes(cfg, w)
    ensures |w| == cfg.numEscapeBytes ==> Closed(cfg, p + w)
  {
    EscapeRunAppend(cfg, p, w);
    OneWindow(cfg, w);
    if |w| == cfg.numEscapeBytes {
      ClosedAppend(cfg, p, w);
    }
  }

  /**
   * The encoder's step for a control byte outside any window: an ESCAPE byte is
   * appended and gets bit 0 set, then the byte follows with its reserved bit cleared.
   */
  lemma StepOpen(cfg: Config, p: seq<bv8>, b: bv8)
    requires EscapeParams(cfg) && Closed(cfg, p) && cfg.isControl(b)
    ensures EscapeRun(cfg, p + [b]) ==
      (EscapeRun(cfg, p) + [cfg.escapeByte])[|EscapeRun(cfg, p)| := SetBit(cfg.escapeByte, 0)] + [ClearBit(b, cfg.reservedBitPos)]
    ensures cfg.numEscapeBytes == 1 ==> Closed(cfg, p + [b])
  {
    PrefixWindow(cfg, p, [b]);
    assert WindowMask(cfg, [b][1..]) == 0;
    assert WireBytes(cfg, [b]) == [ClearBit(b, cfg.reservedBitPos)];
  }

  /**
   * The encoder's step for a control byte inside the window `w` opened after the
   * closed prefix `p`: it sets bit `|w|` of the window's ESCAPE byte and follows
   * with its reserved bit cleared.
   */
  lemma StepInWindowControl(cfg: Config, p: seq<bv8>, w: seq<bv8>, b: bv8, k: bv8)
    requires EscapeParams(cfg) && Closed(cfg, p) && cfg.isControl(b)
    requires 1 <= |w| < cfg.numEscapeBytes && cfg.isControl(w[0]) && k == Bv8(|w|)
    ensures |EscapeRun(cfg, p)| < |EscapeRun(cfg, p + w)|
    ensures EscapeRun(cfg, p + w + [b]) ==
      EscapeRun(cfg, p + w)[|EscapeRun(cfg, p)| := SetBit(EscapeRun(cfg, p + w)[|EscapeRun(cfg, p)|], k)]
      + [ClearBit(b, cfg.reservedBitPos)]
    ensures |w| + 1 == cfg.numEscapeBytes ==> Closed(cfg, p + w + [b])
  {
    var w' := w + [b];
    assert w'[0] == w[0];
    assert p + w + [b] == p + w';
    PrefixWindow(cfg, p, w);
    PrefixWindow(cfg, p, w');
    WireBytesSnoc(cfg, w, b);
    WindowGrow(cfg, w, b, k);
    Regroup(EscapeRun(cfg, p), EscapeWith(cfg, WindowMask(cfg, w)), EscapeWith(cfg, WindowMask(cfg, w')),
            WireBytes(cfg, w), WireByte(cfg, b), EscapeRun(cfg, p + w), EscapeRun(cfg, p + w'));
  }

  /** The encoder's step for a data byte inside an open window: it follows as it is. */
  lemma StepInWindowData(cfg: Config, p: seq<bv8>, w: seq<bv8>, b: bv8)
    requires EscapeParams(cfg) && Closed(cfg, p) && !cfg.isControl(b)
    requires 1 <= |w| < cfg.numEscapeBytes && cfg.isControl(w[0])
    ensures EscapeRun(cfg, p + w + [b]) == EscapeRun(cfg, p + w) + [b]
    ensures |w| + 1 == cfg.numEscapeBytes ==> Closed(cfg, p + w + [b])
  {
    var w' := w + [b];
    assert w'[0] == w[0];
    assert p + w + [b] == p + w';
    PrefixWindow(cfg, p, w);
    PrefixWindow(cfg, p, w');
    WireBytesSnoc(cfg, w, b);
    WindowGrow(cfg, w, b, Bv8(|w|));
  }

  lemma WireBytesSnoc(cfg: Config, w: seq<bv8>, b: bv8)
    requires EscapeParams(cfg)
    ensures WireBytes(cfg, w + [b]) == WireBytes(cfg, w) + [WireByte(cfg, b)]
  {
  }

  /** Growing a window by a control byte sets bit `|w|` of its ESCAPE byte; any other byte leaves the mask alone. */
  lemma WindowGrow(cfg: Config, w: seq<bv8>, b: bv8, k: bv8)
    requires |w| < 8 && k == Bv8(|w|)
    ensures cfg.isControl(b) ==> EscapeWith(cfg, WindowMask(cfg, w + [b])) == SetBit(EscapeWith(cfg, WindowMask(cfg, w)), k)
    ensures !cfg.isControl(b) ==> WindowMask(cfg, w + [b]) == WindowMask(cfg, w)
  {
    MaskSnoc(cfg, w, b, k);
  }

  lemma Regroup(a: seq<bv8>, x: bv8, y: bv8, w: seq<bv8>, z: bv8, e1: seq<bv8>, e2: seq<bv8>)
    requires e1 == a + [x] + w && e2 == a + [y] + (w + [z])
    ensures |a| < |e1| && e1[|a|] == x
    ensures e2 == e1[|a| := y] + [z]
  {
  }

  // ---------------------------------------------------------------- shape and length of the escaped run

  lemma CountEscapesAppend(cfg: Config, s: seq<bv8>, t: seq<bv8>)
    ensures CountEscapes(cfg, s + t) == CountEscapes(cfg, s) + CountEscapes(cfg, t)
  {
    if s == [] {
      assert s + t == t;
    } else {
      assert (s + t)[1..] == s[1..] + t;
      CountEscapesAppend(cfg, s[1..], t);
    }
  }

  lemma NoEscapesInWire(cfg: Config, w: seq<bv8>)
    requires ValidConfig(cfg)
    ensures CountEscapes(cfg, WireBytes(cfg, w)) == 0
    ensures OnlyEscapeControls(cfg, WireBytes(cfg, w))
    decreases |w|
  {
    if w != [] {
      assert WireBytes(cfg, w)[1..] == WireBytes(cfg, w[1..]);
      NoEscapesInWire(cfg, w[1..]);
    }
  }

  /** The number of escape windows the encoder opens for `p`. */
  function WindowCount(cfg: Config, p: seq<bv8>): nat
    requires EscapeParams(cfg)
    decreases |p|
  {
    if p == [] then 0
    else if !cfg.isControl(p[0]) then WindowCount(cfg, p[1..])
    else 1 + WindowCount(cfg, p[Min(cfg.numEscapeBytes, |p|)..])
  }

  /** The escaped run holds every payload byte plus one ESCAPE byte per window, so at most twice the payload. */
  lemma {:induction false} EscapeRunLength(cfg: Config, p: seq<bv8>)
    requires EscapeParams(cfg)
    ensures |EscapeRun(cfg, p)| == |p| + WindowCount(cfg, p)
    ensures WindowCount(cfg, p) <= |p|
    decreases |p|
  {
    if p != [] {
      if !cfg.isControl(p[0]) {
        EscapeRunLength(cfg, p[1..]);
      } else {
        EscapeRunLength(cfg, p[Min(cfg.numEscapeBytes, |p|)..]);
      }
    }
  }

  /** Every control byte of `s` is an ESCAPE byte. */
  ghost predicate OnlyEscapeControls(cfg: Config, s: seq<bv8>)
  {
    forall k :: 0 <= k < |s| && cfg.isControl(s[k]) ==> IsEscapeControl(cfg, s[k])
  }

  lemma OnlyEscapeControlsAppend(cfg: Config, s: seq<bv8>, t: seq<bv8>)
    requires OnlyEscapeControls(cfg, s) && OnlyEscapeControls(cfg, t)
    ensures OnlyEscapeControls(cfg, s + t)
  {
    forall k | 0 <= k < |s + t| && cfg.isControl((s + t)[k]) ensures IsEscapeControl(cfg, (s + t)[k]) {
      if k >= |s| {
        assert (s + t)[k] == t[k - |s|];
      }
    }
  }

  /** The ESCAPE byte of a window classifies as ESCAPE. */
  lemma WindowEscapeByte(cfg: Config, w: seq<bv8>)
    requires ValidConfig(cfg) && 1 <= |w| <= cfg.numEscapeBytes && cfg.isControl(w[0])
    ensures IsEscapeControl(cfg, EscapeWith(cfg, WindowMask(cfg, w)))
  {
    var m := WindowMask(cfg, w);
    MaskBound(cfg, w, Bv8(|w|));
    LowOnesMono(Bv8(|w|), Bv8(cfg.numEscapeBytes));
    assert m & 1 != 0;
    assert m & !cfg.escapeByteMask == 0;
  }

  /**
   * The only control bytes in an escaped run are its ESCAPE bytes (so no HEAD or
   * TAIL can appear inside a frame), one per window.
   */
  lemma {:induction false} EscapeRunControlBytes(cfg: Config, p: seq<bv8>)
    requires ValidConfig(cfg)
    ensures OnlyEscapeControls(cfg, EscapeRun(cfg, p))
    ensures CountEscapes(cfg, EscapeRun(cfg, p)) == WindowCount(cfg, p)
    decreases |p|
  {
    if p != [] {
      if !cfg.isControl(p[0]) {
        EscapeRunControlBytes(cfg, p[1..]);
        OnlyEscapeControlsAppend(cfg, [p[0]], EscapeRun(cfg, p[1..]));
        CountEscapesAppend(cfg, [p[0]], EscapeRun(cfg, p[1..]));
      } else {
        var n := Min(cfg.numEscapeBytes, |p|);
        var e := EscapeWith(cfg, WindowMask(cfg, p[..n]));
        var wb := WireBytes(cfg, p[..n]);
        var rest := EscapeRun(cfg, p[n..]);
        EscapeRunControlBytes(cfg, p[n..]);
        NoEscapesInWire(cfg, p[..n]);
        WindowEscapeByte(cfg, p[..n]);
        OnlyEscapeControlsAppend(cfg, [e], wb);
        OnlyEscapeControlsAppend(cfg, [e] + wb, rest);
        CountEscapesAppend(cfg, [e], wb);
        CountEscapesAppend(cfg, [e] + wb, rest);
      }
    }
  }

  lemma LowOnesMono(a: bv8, b: bv8)
    requires a <= b <= 8
    ensures LowOnes(a) & !LowOnes(b) == 0
  {
  }

  /** The escaped run of a prefix is no longer than the run of the whole, less the bytes left out. */
  lemma {:induction false} EscapeRunPrefix(cfg: Config, p: seq<bv8>, i: nat)
    requires EscapeParams(cfg) && i <= |p|
    ensures |EscapeRun(cfg, p[..i])| + (|p| - i) <= |EscapeRun(cfg, p)|
    decreases |p|
  {
    EscapeRunLength(cfg, p);
    if p != [] && i > 0 {
      var n := cfg.numEscapeBytes;
      if !cfg.isControl(p[0]) {
        assert p[..i][1..] == p[1..][..i - 1];
        EscapeRunPrefix(cfg, p[1..], i - 1);
      } else if i >= n {
        assert p[..i][..n] == p[..n];
        assert p[..i][n..] == p[n..][..i - n];
        EscapeRunPrefix(cfg, p[n..], i - n);
      } else {
        assert p[..i][..i] == p[..i];
        assert p[..i][i..] == [];
        EscapeRunLength(cfg, p[Min(n, |p|)..]);
      }
    }
  }

  // ---------------------------------------------------------------- the encoder loop, step by step

  /**
   * The local state of the encoder's data loop: the bytes written so far (from
   * buffer index `start` on), `escape_remaining`, `cur_escape_byte` (a buffer
   * index) and `escape_available`.
   */
  datatype EncState = EncState(out: seq<bv8>, remaining: nat, curEscape: nat, available: bool)

  /** The states the loop can be in: fewer than NUM_ESCAPE_BYTES bytes to go, and an open window has its ESCAPE byte in `out`. */
  predicate EncWf(cfg: Config, start: nat, st: EncState)
    requires EscapeParams(cfg)
  {
    st.remaining < cfg.numEscapeBytes && st.available == (st.remaining != 0) &&
    (st.available ==> start <= st.curEscape < start + |st.out|)
  }

  /**
   * One round of the data loop for payload byte `b`. A control byte extends the
   * open window or opens a new one with a fresh ESCAPE byte, sets its bit
   * `(NUM_ESCAPE_BYTES - 1) - escape_remaining` in that ESCAPE byte and goes out
   * with its reserved bit cleared; any other byte counts down an open window and
   * goes out as it is. The window closes when nothing remains.
   */
  function EncodeStep(cfg: Config, start: nat, st: EncState, b: bv8): (r: EncState)
    requires EscapeParams(cfg) && EncWf(cfg, start, st)
    ensures EncWf(cfg, start, r) && |r.out| > |st.out|
  {
    if cfg.isControl(b) then
      var extended := if st.available then st.(remaining := st.remaining - 1) else OpenWindow(cfg, start, st);
      Emit(MarkEscape(cfg, start, extended), ClearBit(b, cfg.reservedBitPos))
    else
      Emit(if st.remaining > 0 then st.(remaining := st.remaining - 1) else st, b)
  }

  /** A new window: an ESCAPE byte is written, NUM_ESCAPE_BYTES - 1 bytes of the window remain after this one. */
  function OpenWindow(cfg: Config, start: nat, st: EncState): (r: EncState)
    requires EscapeParams(cfg)
  {
    EncState(st.out + [cfg.escapeByte], cfg.numEscapeBytes - 1, start + |st.out|, true)
  }

  /** Sets bit `(NUM_ESCAPE_BYTES - 1) - escape_remaining` of the window's ESCAPE byte. */
  function MarkEscape(cfg: Config, start: nat, st: EncState): (r: EncState)
    requires EscapeParams(cfg) && st.remaining < cfg.numEscapeBytes && start <= st.curEscape < start + |st.out|
    ensures |r.out| == |st.out|
  {
    var j := st.curEscape - start;
    st.(out := st.out[j := SetBit(st.out[j], Bv8((cfg.numEscapeBytes - 1) - st.remaining))])
  }

  /** The end of a round: the window closes once nothing remains, then the byte is written. */
  function Emit(st: EncState, x: bv8): EncState
  {
    var c := if st.available && st.remaining == 0 then st.(available := false, curEscape := 0) else st;
    c.(out := c.out + [x])
  }

  /** The loop's state after the bytes `p`. */
  function Encode(cfg: Config, start: nat, p: seq<bv8>): (r: EncState)
    requires EscapeParams(cfg)
    ensures EncWf(cfg, start, r)
    decreases |p|
  {
    if p == [] then EncState([], 0, 0, false)
    else EncodeStep(cfg, start, Encode(cfg, start, p[..|p| - 1]), p[|p| - 1])
  }

  /**
   * How the loop's state after `P` stands to the escaped run: `out` is the escaped
   * run of `P`; with no window open `P` is closed; with one open, it began at the
   * control byte `P[s]` after the closed bytes `P[..s]`, its ESCAPE byte sits at
   * `curEscape`, and `remaining` of its NUM_ESCAPE_BYTES bytes are still to come.
   */
  ghost predicate Tracks(cfg: Config, start: nat, P: seq<bv8>, st: EncState)
    requires EscapeParams(cfg)
  {
    EncWf(cfg, start, st) && st.out == EscapeRun(cfg, P) &&
    (!st.available ==> Closed(cfg, P)) &&
    (st.available ==>
      cfg.numEscapeBytes - st.remaining <= |P| &&
      var s := |P| - (cfg.numEscapeBytes - st.remaining);
      Closed(cfg, P[..s]) && cfg.isControl(P[s]) && st.curEscape == start + |EscapeRun(cfg, P[..s])|)
  }

  /** The loop computes the escaped run. */
  lemma {:induction false} EncodeIsEscapeRun(cfg: Config, start: nat, p: seq<bv8>)
    requires EscapeParams(cfg)
    ensures Tracks(cfg, start, p, Encode(cfg, start, p))
    ensures Encode(cfg, start, p).out == EscapeRun(cfg, p)
    decreases |p|
  {
    if p == [] {
    } else {
      var P, b := p[..|p| - 1], p[|p| - 1];
      assert p == P + [b];
      EncodeIsEscapeRun(cfg, start, P);
      TracksStep(cfg, start, P, Encode(cfg, start, P), b);
    }
  }

  lemma TracksStep(cfg: Config, start: nat, P: seq<bv8>, st: EncState, b: bv8)
    requires EscapeParams(cfg) && Tracks(cfg, start, P, st)
    ensures Tracks(cfg, start, P + [b], EncodeStep(cfg, start, st, b))
  {
    if !st.available {
      if cfg.isControl(b) {
        TracksOpen(cfg, start, P, st, b);
      } else {
        StepPlain(cfg, P, b);
        assert st.remaining == 0;
      }
    } else {
      TracksWindow(cfg, start, P, st, b);
    }
  }

  lemma TracksOpen(cfg: Config, start: nat, P: seq<bv8>, st: EncState, b: bv8)
    requires EscapeParams(cfg) && Tracks(cfg, start, P, st) && !st.available && cfg.isControl(b)
    ensures Tracks(cfg, start, P + [b], EncodeStep(cfg, start, st, b))
  {
    StepOpen(cfg, P, b);
    assert (P + [b])[..|P|] == P;
    assert (P + [b])[|P|] == b;
  }

  lemma TracksWindow(cfg: Config, start: nat, P: seq<bv8>, st: EncState, b: bv8)
    requires EscapeParams(cfg) && Tracks(cfg, start, P, st) && st.available
    ensures Tracks(cfg, start, P + [b], EncodeStep(cfg, start, st, b))
  {
    var s := |P| - (cfg.numEscapeBytes - st.remaining);
    var w := P[s..];
    assert P[..s] + w == P;
    assert (P + [b])[..s] == P[..s];
    assert (P + [b])[s] == P[s];
    if cfg.isControl(b) {
      TracksWindowControl(cfg, start, P[..s], w, st, b);
    } else {
      TracksWindowData(cfg, start, P[..s], w, st, b);
    }
  }

  /** A control byte in the open window `w` after the closed bytes `head`. */
  lemma TracksWindowControl(cfg: Config, start: nat, head: seq<bv8>, w: seq<bv8>, st: EncState, b: bv8)
    requires EscapeParams(cfg) && EncWf(cfg, start, st) && st.available && cfg.isControl(b)
    requires Closed(cfg, head) && 1 <= |w| && cfg.isControl(w[0]) && |w| + st.remaining == cfg.numEscapeBytes
    requires st.out == EscapeRun(cfg, head + w) && st.curEscape == start + |EscapeRun(cfg, head)|
    ensures EncodeStep(cfg, start, st, b).out == EscapeRun(cfg, head + w + [b])
    ensures EncodeStep(cfg, start, st, b).remaining == st.remaining - 1
    ensures EncodeStep(cfg, start, st, b).available == (st.remaining > 1)
    ensures st.remaining > 1 ==> EncodeStep(cfg, start, st, b).curEscape == st.curEscape
    ensures st.remaining == 1 ==> Closed(cfg, head + w + [b])
  {
    var k := Bv8(|w|);
    StepInWindowControl(cfg, head, w, b, k);
    WindowControl(cfg, start, st, b, k);
  }

  /** A data byte in the open window `w` after the closed bytes `head`. */
  lemma TracksWindowData(cfg: Config, start: nat, head: seq<bv8>, w: seq<bv8>, st: EncState, b: bv8)
    requires EscapeParams(cfg) && EncWf(cfg, start, st) && st.available && !cfg.isControl(b)
    requires Closed(cfg, head) && 1 <= |w| && cfg.isControl(w[0]) && |w| + st.remaining == cfg.numEscapeBytes
    requires st.out == EscapeRun(cfg, head + w)
    ensures EncodeStep(cfg, start, st, b).out == EscapeRun(cfg, head + w + [b])
    ensures EncodeStep(cfg, start, st, b).remaining == st.remaining - 1
    ensures EncodeStep(cfg, start, st, b).available == (st.remaining > 1)
    ensures st.remaining > 1 ==> EncodeStep(cfg, start, st, b).curEscape == st.curEscape
    ensures st.remaining == 1 ==> Closed(cfg, head + w + [b])
  {
    StepInWindowData(cfg, head, w, b);
    WindowData(cfg, start, st, b);
  }

  /** A control byte inside an open window marks bit `k` of the window's ESCAPE byte. */
  lemma WindowControl(cfg: Config, start: nat, st: EncState, b: bv8, k: bv8)
    requires EscapeParams(cfg) && EncWf(cfg, start, st) && st.available && cfg.isControl(b)
    requires k == Bv8(cfg.numEscapeBytes - st.remaining)
    ensures EncodeStep(cfg, start, st, b).out ==
      st.out[st.curEscape - start := SetBit(st.out[st.curEscape - start], k)] + [ClearBit(b, cfg.reservedBitPos)]
    ensures EncodeStep(cfg, start, st, b).remaining == st.remaining - 1
    ensures EncodeStep(cfg, start, st, b).available == (st.remaining > 1)
    ensures st.remaining > 1 ==> EncodeStep(cfg, start, st, b).curEscape == st.curEscape
  {
  }

  /** A data byte inside an open window only counts it down. */
  lemma WindowData(cfg: Config, start: nat, st: EncState, b: bv8)
    requires EscapeParams(cfg) && EncWf(cfg, start, st) && st.available && !cfg.isControl(b)
    ensures EncodeStep(cfg, start, st, b).out == st.out + [b]
    ensures EncodeStep(cfg, start, st, b).remaining == st.remaining - 1
    ensures EncodeStep(cfg, start, st, b).available == (st.remaining > 1)
    ensures st.remaining > 1 ==> EncodeStep(cfg, start, st, b).curEscape == st.curEscape
  {
  }

  /** The loop's output for a prefix of `p`, plus one byte per byte still to come, fits in the escaped run of `p`. */
  lemma EncodeFits(cfg: Config, start: nat, p: seq<bv8>, i: nat)
    requires EscapeParams(cfg) && i <= |p|
    ensures |Encode(cfg, start, p[..i]).out| + (|p| - i) <= |EscapeRun(cfg, p)|
  {
    EncodeIsEscapeRun(cfg, start, p[..i]);
    EscapeRunPrefix(cfg, p, i);
  }
}
