/**
 * Dispatch of received packets and the endpoint's global state: the service
 * table, `_melo_service_handler`, `_melo_packet_handler`, `_melo_frame_handler`,
 * and the exported entry points `MeloInit`, `MeloTransmitComplete`,
 * `MeloReceiveByte(s)`, `MeloBackground` and `MeloServiceRequestBuilder`.
 */
module Dispatch {
  import opened MeloBits
  import opened Escaping
  import opened Reception
  import opened Events
  import opened Frames

  /**
   * A packet as the handlers read it (`_m_packet`): the raw command byte, the
   * byte order, the data length and the whole data buffer, of which the
   * services read the first four bytes whatever the length.
   */
  datatype Packet = Packet(cmd: bv8, byteOrder: ByteOrder, length: bv8, data: seq<bv8>)

  /** The packet a frame buffer holds. */
  function PacketOf(f: FrameState): Packet
  {
    Packet(f.cmd, f.byteOrder, f.dataLen, f.payload)
  }

  /** The arguments of the application callbacks `MeloRequestBytes` and `MeloReceiveResponse`. */
  datatype Callback =
    | RequestBytes(count: bv8)
    | ReceiveResponse(service: bv8, subfunction: bv8, data: seq<bv8>, length: bv8, success: bool)

  datatype ServiceEntry = ReadWrite | Null

  /** `service_table`: the read/write service at id 0, the null service at ids 1 to 7. */
  const ServiceTable: seq<ServiceEntry> := [ReadWrite, Null, Null, Null, Null, Null, Null, Null]

  /** `MeloCreatePointer`: the bytes that can be read at an address. */
  type Memory = bv32 -> seq<bv8>

  /** The address a read request carries in its first four data bytes, in the sender's byte order. */
  function RequestAddress(cfg: Config, request: Packet): bv32
    requires |request.data| >= 4
  {
    EsafeUint(request.data, cfg.peEndianess, request.byteOrder)
  }

  /** What the read/write service reads through the pointer it is given: four bytes, or one. */
  predicate Readable(cfg: Config, request: Packet, memory: Memory)
    requires ValidCommandLayout(cfg) && |request.data| >= 4
  {
    Service(cfg, request.cmd) == 0 ==>
      (Subfunction(cfg, request.cmd) == 1 ==> |memory(RequestAddress(cfg, request))| >= 4) &&
      (Subfunction(cfg, request.cmd) == 2 ==> |memory(RequestAddress(cfg, request))| >= 1)
  }

  /** What the packet handler reads through the pointer: only a request is served, so only a request reads memory. */
  predicate RequestReadable(cfg: Config, packet: Packet, memory: Memory)
    requires ValidCommandLayout(cfg) && |packet.data| >= 4
  {
    Status(cfg, packet.cmd) == cfg.statusRequest ==> Readable(cfg, packet, memory)
  }

  /** The response packet a service writes into: its data length and data buffer. */
  datatype Response = Response(length: bv8, data: seq<bv8>)

  /** `_service_read_write` on values: whether it succeeds, and the response it leaves. */
  function ServeReadWrite(cfg: Config, request: Packet, memory: Memory, response: Response): (bool, Response)
    requires ValidCommandLayout(cfg) && |request.data| >= 4 && |response.data| >= 4
    requires Service(cfg, request.cmd) == 0 && Readable(cfg, request, memory)
  {
    var value := memory(RequestAddress(cfg, request));
    if Subfunction(cfg, request.cmd) == 1 then (true, Response(4, value[..4] + response.data[4..]))
    else if Subfunction(cfg, request.cmd) == 2 then (true, Response(1, [value[0]] + response.data[1..]))
    else (false, response)
  }

  /**
   * The service-table call of `_melo_service_handler`. It succeeds exactly for
   * service 0 with subfunction 1 or 2: then the response holds the four bytes,
   * or the one byte, read at the request's address, and the rest of the data
   * buffer is as it was. Otherwise, and always for ids 1 to 7, it fails and the
   * response, its length included, is left as it was.
   */
  function CallService(cfg: Config, request: Packet, memory: Memory, response: Response): (r: (bool, Response))
    requires ValidCommandLayout(cfg) && |request.data| >= 4 && |response.data| >= 4
    requires Readable(cfg, request, memory)
    ensures |r.1.data| == |response.data|
    ensures r.0 <==> Service(cfg, request.cmd) == 0 && (Subfunction(cfg, request.cmd) == 1 || Subfunction(cfg, request.cmd) == 2)
    ensures !r.0 ==> r.1 == response
    ensures r.0 && Subfunction(cfg, request.cmd) == 1 ==>
      r.1.length == 4 && r.1.data[..4] == memory(RequestAddress(cfg, request))[..4] &&
      r.1.data[4..] == response.data[4..]
    ensures r.0 && Subfunction(cfg, request.cmd) == 2 ==>
      r.1.length == 1 && r.1.data[0] == memory(RequestAddress(cfg, request))[0] &&
      r.1.data[1..] == response.data[1..]
  {
    ServiceInTable(cfg, request.cmd);
    match ServiceTable[Service(cfg, request.cmd)]
    case ReadWrite =>
      assert Service(cfg, request.cmd) == 0;
      var r := ServeReadWrite(cfg, request, memory, response);
      assert Subfunction(cfg, request.cmd) == 1 ==> r.1.data[..4] == memory(RequestAddress(cfg, request))[..4];
      r
    case Null => (false, response)
  }

  /** A response buffer `_melo_serialize_frame` can always encode into: no CRC, at most four data bytes. */
  predicate ResponseReady(cfg: Config, f: FrameState)
  {
    !f.crcPresent && f.dataLen <= 4 && 4 <= |f.payload| && cfg.maxFrameSize <= |f.buf| && 12 <= cfg.maxFrameSize
  }

  /** A wait frame buffer: room for its one data byte and its frame. */
  predicate WaitReady(cfg: Config, f: FrameState)
  {
    1 <= |f.payload| && cfg.maxWaitFrameSize <= |f.buf| && 6 <= cfg.maxWaitFrameSize
  }

  /** An encoded frame of at most `n` data bytes and no CRC is at most `4 + 2 * n` bytes long. */
  lemma FrameBound(cfg: Config, f: FrameState, n: nat)
    requires EscapeParams(cfg) && !f.crcPresent && f.dataLen as int <= n && f.dataLen as int <= |f.payload|
    ensures |FrameOf(cfg, f)| <= 4 + 2 * n
  {
    EscapeRunLength(cfg, f.payload[..f.dataLen as int]);
  }

  function Byte(n: nat): bv8
    requires n < 256
  {
    n as bv8
  }

  /**
   * The send frame after the service call of `_melo_service_handler`: the
   * request command with status PositiveResponse if the service succeeded and
   * NegativeResponse if not, and the response data the service left.
   */
  function Answered(cfg: Config, send: FrameState, request: Packet, memory: Memory): (r: FrameState)
    requires ValidCommandLayout(cfg) && ResponseReady(cfg, send)
    requires |request.data| >= 4 && Readable(cfg, request, memory)
    ensures ResponseReady(cfg, r) && |r.buf| == |send.buf| && |r.payload| == |send.payload|
    ensures var c := CallService(cfg, request, memory, Response(send.dataLen, send.payload));
      Service(cfg, r.cmd) == Service(cfg, request.cmd) && Subfunction(cfg, r.cmd) == Subfunction(cfg, request.cmd) &&
      Status(cfg, r.cmd) == (if c.0 then cfg.statusPositive else cfg.statusNegative) &&
      r.dataLen == c.1.length && r.payload == c.1.data
    ensures r.buf == send.buf && r.len == send.len && r.crcPresent == send.crcPresent
  {
    var c := CallService(cfg, request, memory, Response(send.dataLen, send.payload));
    send.(cmd := WithStatus(cfg, request.cmd, if c.0 then cfg.statusPositive else cfg.statusNegative),
          dataLen := c.1.length, payload := c.1.data)
  }

  /** The response frame fits the send buffer: at most four data bytes, no CRC, so at most 12 bytes. */
  lemma ResponseFits(cfg: Config, f: FrameState)
    requires EscapeParams(cfg) && ResponseReady(cfg, f)
    ensures SerializeFits(cfg, f) && |FrameOf(cfg, f)| <= 12
  {
    FrameBound(cfg, f, 4);
  }

  /**
   * `_melo_service_handler` on the send frame: the answered packet is encoded
   * into the send buffer, whose length is then folded in place; the folded
   * length is returned for the wait frame.
   */
  function Respond(cfg: Config, send: FrameState, request: Packet, memory: Memory): (r: (FrameState, bv8))
    requires EscapeParams(cfg) && ValidCommandLayout(cfg) && ResponseReady(cfg, send)
    requires |request.data| >= 4 && Readable(cfg, request, memory)
    ensures var a := Answered(cfg, send, request, memory);
      SerializeFits(cfg, a) && |FrameOf(cfg, a)| <= 12 &&
      r.0 == Serialize(cfg, a).(len := r.1 as int) && r.1 == CreateR(cfg, Byte(|FrameOf(cfg, a)|))
    ensures ResponseReady(cfg, r.0) && |r.0.buf| == |send.buf| && |r.0.payload| == |send.payload|
  {
    var a := Answered(cfg, send, request, memory);
    ResponseFits(cfg, a);
    var folded := CreateR(cfg, Byte(|FrameOf(cfg, a)|));
    (Serialize(cfg, a).(len := folded as int), folded)
  }

  /**
   * The wait frame `_melo_packet_handler` prepares for a request: the request
   * command with status PendingResponse, one data byte holding `waitLength`, no CRC.
   */
  function PendingFrame(cfg: Config, wait: FrameState, request: Packet, waitLength: bv8): (r: FrameState)
    requires ValidCommandLayout(cfg) && WaitReady(cfg, wait)
    ensures WaitReady(cfg, r) && |r.buf| == |wait.buf| && |r.payload| == |wait.payload|
    ensures Status(cfg, r.cmd) == cfg.statusPending
    ensures Service(cfg, r.cmd) == Service(cfg, request.cmd) && Subfunction(cfg, r.cmd) == Subfunction(cfg, request.cmd)
    ensures r.dataLen == 1 && !r.crcPresent && r.payload[0] == waitLength && r.payload[1..] == wait.payload[1..]
  {
    wait.(cmd := WithStatus(cfg, request.cmd, cfg.statusPending), dataLen := 1, crcPresent := false,
          payload := wait.payload[0 := waitLength])
  }

  /** The wait frame fits the wait buffer: one data byte, no CRC, so at most 6 bytes. */
  lemma PendingFits(cfg: Config, f: FrameState)
    requires EscapeParams(cfg) && ValidCommandLayout(cfg) && WaitReady(cfg, f) && !f.crcPresent && f.dataLen == 1
    ensures SerializeFits(cfg, f) && |FrameOf(cfg, f)| <= 6
  {
    FrameBound(cfg, f, 1);
  }

  /**
   * The handshake in the example build: the wait frame announcing a response,
   * once received, is a Pending packet for the request's service and
   * subfunction whose one data byte is the announced length.
   */
  lemma ExamplePendingDecodes(wait: FrameState, request: Packet, waitLength: bv8, st: FrameState)
    requires WaitReady(ExampleConfig(), wait) && st.escape == 0 && 3 <= |st.buf| && 1 <= |st.payload|
    ensures var cfg := ExampleConfig(); var f := PendingFrame(cfg, wait, request, waitLength);
      RxSafeAll(cfg, st, FrameOf(cfg, f)) && Received(cfg, st, FrameOf(cfg, f)) == 1 &&
      var r := RxAll(cfg, st, FrameOf(cfg, f));
      Status(cfg, r.cmd) == cfg.statusPending && Service(cfg, r.cmd) == Service(cfg, request.cmd) &&
      Subfunction(cfg, r.cmd) == Subfunction(cfg, request.cmd) && r.dataLen == 1 && r.payload[0] == waitLength
  {
    var cfg := ExampleConfig();
    ExampleConfigValid();
    var f := PendingFrame(cfg, wait, request, waitLength);
    ExampleCommandsAreData(f.cmd);
    assert f.payload[..1] == [waitLength];
    assert CreateR(cfg, 1) == 1;
    RoundTrip(cfg, st, false, 1, f.cmd, [waitLength]);
  }

  /**
   * The response in the example build: the send frame the service handler
   * encodes, once received, carries the answered command, data length and data.
   */
  lemma ExampleResponseDecodes(send: FrameState, request: Packet, memory: Memory, st: FrameState)
    requires ResponseReady(ExampleConfig(), send) && |request.data| >= 4 && Readable(ExampleConfig(), request, memory)
    requires st.escape == 0 && 6 <= |st.buf| && 4 <= |st.payload|
    ensures var cfg := ExampleConfig(); var f := Answered(cfg, send, request, memory);
      RxSafeAll(cfg, st, FrameOf(cfg, f)) && Received(cfg, st, FrameOf(cfg, f)) == 1 &&
      var r := RxAll(cfg, st, FrameOf(cfg, f));
      r.cmd == f.cmd && r.dataLen == f.dataLen && r.payload[..f.dataLen] == f.payload[..f.dataLen]
  {
    var cfg := ExampleConfig();
    ExampleConfigValid();
    var f := Answered(cfg, send, request, memory);
    ExampleCommandsAreData(f.cmd);
    assert Foldable(cfg, f.dataLen) && CreateR(cfg, f.dataLen) == f.dataLen;
    RoundTrip(cfg, st, false, f.dataLen, f.cmd, f.payload[..f.dataLen]);
  }

  /** What the handlers write: the send and wait frame buffers and the callback log. */
  datatype EndpointView = EndpointView(send: FrameState, wait: FrameState, log: seq<Callback>)

  /**
   * `_melo_packet_handler`, routing on the packet's status. A request is served
   * and answered with a Pending wait frame: the request command with status
   * PendingResponse, one data byte holding the folded length of the response
   * frame, no CRC. A Pending packet reports its first data byte, as it arrived,
   * to `MeloRequestBytes`. A positive or negative response goes to
   * `MeloReceiveResponse` with its service, subfunction, data and length. Any
   * other status does nothing.
   */
  function HandlePacket(cfg: Config, v: EndpointView, packet: Packet, memory: Memory): (r: EndpointView)
    requires EscapeParams(cfg) && ValidCommandLayout(cfg) && ResponseReady(cfg, v.send) && WaitReady(cfg, v.wait)
    requires |packet.data| >= 4 && RequestReadable(cfg, packet, memory)
    ensures ResponseReady(cfg, r.send) && WaitReady(cfg, r.wait)
    ensures |r.send.buf| == |v.send.buf| && |r.send.payload| == |v.send.payload|
    ensures |r.wait.buf| == |v.wait.buf| && |r.wait.payload| == |v.wait.payload|
    ensures Status(cfg, packet.cmd) == cfg.statusRequest ==> r == HandleRequest(cfg, v, packet, memory)
    ensures Status(cfg, packet.cmd) != cfg.statusRequest ==> r.send == v.send && r.wait == v.wait
    ensures Status(cfg, packet.cmd) == cfg.statusPending ==> r.log == v.log + [RequestBytes(packet.data[0])]
    ensures Status(cfg, packet.cmd) == cfg.statusPositive || Status(cfg, packet.cmd) == cfg.statusNegative ==>
      r.log == v.log + [ReceiveResponse(Service(cfg, packet.cmd), Subfunction(cfg, packet.cmd), packet.data, packet.length,
                                        Status(cfg, packet.cmd) == cfg.statusPositive)]
    ensures Status(cfg, packet.cmd) !in {cfg.statusRequest, cfg.statusPending, cfg.statusPositive, cfg.statusNegative} ==> r == v
  {
    var status := Status(cfg, packet.cmd);
    if status == cfg.statusRequest then HandleRequest(cfg, v, packet, memory)
    else if status == cfg.statusPending then
      v.(log := v.log + [RequestBytes(packet.data[0])])
    else if status == cfg.statusPositive || status == cfg.statusNegative then
      v.(log := v.log + [ReceiveResponse(Service(cfg, packet.cmd), Subfunction(cfg, packet.cmd), packet.data, packet.length,
                                         status == cfg.statusPositive)])
    else v
  }

  /**
   * The request branch of `_melo_packet_handler`: the response goes to the send
   * frame, and the wait frame announces it with status PendingResponse and the
   * folded length of the send frame as its one data byte. No callback is made.
   */
  function HandleRequest(cfg: Config, v: EndpointView, packet: Packet, memory: Memory): (r: EndpointView)
    requires EscapeParams(cfg) && ValidCommandLayout(cfg) && ResponseReady(cfg, v.send) && WaitReady(cfg, v.wait)
    requires |packet.data| >= 4 && Readable(cfg, packet, memory)
    ensures ResponseReady(cfg, r.send) && WaitReady(cfg, r.wait) && r.log == v.log
    ensures |r.send.buf| == |v.send.buf| && |r.send.payload| == |v.send.payload|
    ensures |r.wait.buf| == |v.wait.buf| && |r.wait.payload| == |v.wait.payload|
    ensures var (send, waitLength) := Respond(cfg, v.send, packet, memory);
      var w := PendingFrame(cfg, v.wait, packet, waitLength);
      SerializeFits(cfg, w) && |FrameOf(cfg, w)| <= 6 && r.send == send && r.wait == Serialize(cfg, w)
  {
    var (send, waitLength) := Respond(cfg, v.send, packet, memory);
    var w := PendingFrame(cfg, v.wait, packet, waitLength);
    PendingFits(cfg, w);
    EndpointView(send, Serialize(cfg, w), v.log)
  }

  /**
   * `_melo_frame_handler`: a frame without a CRC is handed to the packet
   * handler. The CRC check of a frame with a CRC is the constant false, so such
   * a frame is dropped.
   */
  function HandleFrame(cfg: Config, v: EndpointView, packet: Packet, crcPresent: bool, memory: Memory): (r: EndpointView)
    requires EscapeParams(cfg) && ValidCommandLayout(cfg) && ResponseReady(cfg, v.send) && WaitReady(cfg, v.wait)
    requires |packet.data| >= 4 && RequestReadable(cfg, packet, memory)
    ensures crcPresent ==> r == v
    ensures !crcPresent ==> r == HandlePacket(cfg, v, packet, memory)
  {
    if crcPresent then v else HandlePacket(cfg, v, packet, memory)
  }

  // ---------------------------------------------------------------- streams and the driver loop

  /** The event stack after the bytes `bs`: REQUEST_RECEIVED pushed at every byte that completes a packet. */
  function Notified(cfg: Config, st: FrameState, bs: seq<bv8>, s: Stack): (r: Stack)
    requires BitPositionsValid(cfg) && RxSafeAll(cfg, st, bs) && WellFormed(s)
    ensures WellFormed(r) && |r.cells| == |s.cells|
    decreases |bs|
  {
    if bs == [] then s
    else Notified(cfg, RxStep(cfg, st, bs[0]), bs[1..],
                  if Completes(cfg, st, bs[0]) then Push(s, cfg.eventRequestReceived) else s)
  }

  /** Bytes that complete no packet leave the stack alone; bytes that complete one push REQUEST_RECEIVED once. */
  lemma {:induction false} NotifiedReceived(cfg: Config, st: FrameState, bs: seq<bv8>, s: Stack)
    requires BitPositionsValid(cfg) && RxSafeAll(cfg, st, bs) && WellFormed(s)
    requires Received(cfg, st, bs) <= 1
    ensures Received(cfg, st, bs) == 0 ==> Notified(cfg, st, bs, s) == s
    ensures Received(cfg, st, bs) == 1 ==> Notified(cfg, st, bs, s) == Push(s, cfg.eventRequestReceived)
    decreases |bs|
  {
    if bs != [] {
      var s' := if Completes(cfg, st, bs[0]) then Push(s, cfg.eventRequestReceived) else s;
      NotifiedReceived(cfg, RxStep(cfg, st, bs[0]), bs[1..], s');
    }
  }

  /**
   * A frame the encoder wrote, fed to the receiver with no escape pending,
   * notifies REQUEST_RECEIVED exactly once and hands over the packet that was sent.
   */
  lemma FrameNotifiesOnce(cfg: Config, st: FrameState, crc: bool, len: bv8, cmd: bv8, data: seq<bv8>, s: Stack)
    requires ValidConfig(cfg) && st.escape == 0 && WellFormed(s)
    requires Foldable(cfg, len) && !cfg.isControl(CreateR(cfg, len)) && !cfg.isControl(cmd)
    requires |data| == len as int && 2 + |PayloadWithCrc(data, crc)| <= |st.buf| && |data| <= |st.payload|
    ensures var bs := EncodedFrame(cfg, crc, len, cmd, PayloadWithCrc(data, crc));
      RxSafeAll(cfg, st, bs) && Notified(cfg, st, bs, s) == Push(s, cfg.eventRequestReceived)
  {
    RoundTrip(cfg, st, crc, len, cmd, data);
    NotifiedReceived(cfg, st, EncodedFrame(cfg, crc, len, cmd, PayloadWithCrc(data, crc)), s);
  }

  /** The state `MeloBackground` reaches by applying the transition to each event in turn. */
  function Run(transition: (nat, bv8) -> nat, state: nat, events: seq<bv8>): nat
    decreases |events|
  {
    if events == [] then state else Run(transition, transition(state, events[0]), events[1..])
  }

  /**
   * One turn of `MeloBackground`'s loop: handling the popped event `e`, which is
   * not idle, and popping the next one from `m` leaves the same work to do and
   * the same stack behind.
   */
  lemma BackgroundStep(transition: (nat, bv8) -> nat, state: nat, e: bv8, m: Stack, idle: bv8)
    requires WellFormed(m) && e != idle
    ensures var (e', m') := Pop(m, idle);
      Run(transition, state, DrainedAfter(e, Contents(m), idle)) ==
        Run(transition, transition(state, e), DrainedAfter(e', Contents(m'), idle)) &&
      LeftoverAfter(e, Contents(m), idle) == LeftoverAfter(e', Contents(m'), idle)
  {
    var d := DrainedAfter(e, Contents(m), idle);
    assert d[0] == e && d[1..] == Drained(Contents(m), idle);
    PopDrains(m, idle);
  }

  // ---------------------------------------------------------------- the endpoint

  /** The static state of `melo.c`: three frame buffers, the event stack, the current state, and the callbacks made. */
  class Endpoint {
    const cfg: Config
    const recv: FrameBuffer     // recv_frame
    const send: FrameBuffer     // send_frame
    const wait: FrameBuffer     // wait_frame
    const events: EventStack    // _m_event_stack
    var state: nat              // _current_state
    var log: seq<Callback>      // calls of MeloRequestBytes and MeloReceiveResponse

    /** The build's constants and the static buffers' wiring, which never change after `MeloInit`. */
    ghost predicate Wired()
    {
      ValidConfig(cfg) && ValidCommandLayout(cfg) && ValidBuffers(cfg) &&
      recv.Valid() && send.Valid() && wait.Valid() &&
      recv != send && recv != wait && send != wait &&
      recv.buf != send.buf && recv.buf != send.payload && recv.buf != wait.buf && recv.buf != wait.payload &&
      recv.payload != send.buf && recv.payload != send.payload && recv.payload != wait.buf && recv.payload != wait.payload &&
      send.buf != wait.buf && send.buf != wait.payload && send.payload != wait.buf && send.payload != wait.payload &&
      events.data != recv.buf && events.data != recv.payload && events.data != send.buf &&
      events.data != send.payload && events.data != wait.buf && events.data != wait.payload &&
      recv.buf.Length == cfg.maxFrameSize && recv.payload.Length == cfg.maxDataLength &&
      send.buf.Length == cfg.maxFrameSize && send.payload.Length == cfg.maxDataLength &&
      wait.buf.Length == cfg.maxWaitFrameSize && wait.payload.Length == 1 &&
      events.data.Length == cfg.maxStackSize
    }

    /**
     * The wiring, a well-formed event stack that never holds the idle event (only
     * TX_CONFIRMATION and REQUEST_RECEIVED are ever pushed), and a send frame
     * without CRC and with at most four data bytes.
     */
    ghost predicate Valid()
      reads this, send, events, events.data
    {
      Wired() && EventsValid() && !send.crcPresent && send.dataLen <= 4
    }

    /** The event stack is well formed and holds no idle event. */
    ghost predicate EventsValid()
      reads this, events, events.data
    {
      events.Valid() && Avoids(Contents(events.Model()), cfg.eventIdle)
    }

    /** What the handlers write. */
    ghost function View(): EndpointView
      reads this, send, send.buf, send.payload, wait, wait.buf, wait.payload
    {
      EndpointView(send.State(), wait.State(), log)
    }

    /**
     * The zero-initialised static buffers bound by `MeloInit`: frame buffers of
     * MELO_MAX_FRAME_SIZE bytes with MELO_CFG_MAX_DATA_LENGTH-byte packet
     * buffers, a wait frame of MELO_MAX_WAIT_FRAME_SIZE bytes over a single
     * packet byte, and an empty event stack of MELO_CFG_MAX_STACK_SIZE cells.
     */
    constructor Init(config: Config, initial: nat)
      requires ValidConfig(config) && ValidCommandLayout(config) && ValidBuffers(config)
      ensures Valid() && cfg == config && state == initial && log == []
      ensures fresh(recv) && fresh(recv.buf) && fresh(recv.payload) && fresh(send) && fresh(send.buf) && fresh(send.payload)
      ensures fresh(wait) && fresh(wait.buf) && fresh(wait.payload) && fresh(events) && fresh(events.data)
      ensures recv.State() == FrameState(Zeros(config.maxFrameSize), 0, 0, false, recv.byteOrder, 0, 0, 0, Zeros(config.maxDataLength))
      ensures send.State() == FrameState(Zeros(config.maxFrameSize), 0, 0, false, send.byteOrder, 0, 0, 0, Zeros(config.maxDataLength))
      ensures wait.State() == FrameState(Zeros(config.maxWaitFrameSize), 0, 0, false, wait.byteOrder, 0, 0, 0, Zeros(1))
      ensures events.Model() == Stack(Zeros(config.maxStackSize), 0)
    {
      cfg := config;
      recv := new FrameBuffer(config.maxFrameSize, config.maxDataLength);
      send := new FrameBuffer(config.maxFrameSize, config.maxDataLength);
      wait := new FrameBuffer(config.maxWaitFrameSize, 1);
      events := new EventStack(config.maxStackSize);
      state := initial;
      log := [];
      new;
      assert recv.buf[..] == Zeros(config.maxFrameSize) && recv.payload[..] == Zeros(config.maxDataLength);
      assert send.buf[..] == Zeros(config.maxFrameSize) && send.payload[..] == Zeros(config.maxDataLength);
      assert wait.buf[..] == Zeros(config.maxWaitFrameSize) && wait.payload[..] == Zeros(1);
      assert events.data[..] == Zeros(config.maxStackSize);
    }

    /** `MeloTransmitComplete`: notifies TX_CONFIRMATION. */
    method TransmitComplete()
      requires Valid()
      modifies events, events.data
      ensures Valid() && events.Model() == Push(old(events.Model()), cfg.eventTxConfirmation)
    {
      PushAvoids(events.Model(), cfg.eventTxConfirmation, cfg.eventIdle);
      events.Notify(cfg.eventTxConfirmation);
    }

    /** `MeloReceiveByte`. */
    method ReceiveByte(b: bv8)
      requires Valid() && RxSafe(cfg, recv.State(), b)
      modifies recv, recv.buf, recv.payload, events, events.data
      ensures Valid() && recv.State() == RxStep(cfg, old(recv.State()), b)
      ensures events.Model() == Notified(cfg, old(recv.State()), [b], old(events.Model()))
    {
      PushAvoids(events.Model(), cfg.eventRequestReceived, cfg.eventIdle);
      recv.RxByte(cfg, b, events);
    }

    /** `MeloReceiveBytes`: each of the `num` bytes, in order; `num` is a uint8_t. */
    method ReceiveBytes(bytes: seq<bv8>)
      requires Valid() && |bytes| <= 255 && RxSafeAll(cfg, recv.State(), bytes)
      modifies recv, recv.buf, recv.payload, events, events.data
      ensures Valid() && recv.State() == RxAll(cfg, old(recv.State()), bytes)
      ensures events.Model() == Notified(cfg, old(recv.State()), bytes, old(events.Model()))
    {
      var i := 0;
      while i < |bytes|
        invariant 0 <= i <= |bytes| && Valid()
        invariant RxSafeAll(cfg, recv.State(), bytes[i..])
        invariant RxAll(cfg, recv.State(), bytes[i..]) == RxAll(cfg, old(recv.State()), bytes)
        invariant Notified(cfg, recv.State(), bytes[i..], events.Model()) ==
                  Notified(cfg, old(recv.State()), bytes, old(events.Model()))
      {
        assert bytes[i..][0] == bytes[i] && bytes[i..][1..] == bytes[i + 1..];
        PushAvoids(events.Model(), cfg.eventRequestReceived, cfg.eventIdle);
        recv.RxByte(cfg, bytes[i], events);
        i := i + 1;
      }
    }

    /**
     * `MeloBackground`: pops events and applies the state transition to each,
     * until the pop yields the idle event. The stack never holds the idle event,
     * so that is when it is empty: every event is handled once, newest first.
     */
    method Background(transition: (nat, bv8) -> nat)
      requires Valid()
      modifies this`state, events
      ensures Valid() && events.length == 0
      ensures state == Run(transition, old(state), Reverse(Contents(old(events.Model()))))
    {
      DrainedAll(Contents(events.Model()), cfg.eventIdle);
      state := DrainEvents(events, cfg.eventIdle, transition, state);
    }

    /** `_melo_service_handler`. */
    method ServiceHandler(packet: Packet, memory: Memory) returns (waitLength: bv8)
      requires Valid() && |packet.data| >= 4 && Readable(cfg, packet, memory)
      modifies send, send.buf, send.payload
      ensures Valid() && (send.State(), waitLength) == Respond(cfg, old(send.State()), packet, memory)
    {
      Answer(packet, memory);
      waitLength := EncodeResponse();
    }

    /** The tail of `_melo_service_handler`: encode the response, then fold its length in place. */
    method EncodeResponse() returns (waitLength: bv8)
      requires Valid() && ResponseReady(cfg, send.State())
      modifies send, send.buf, send.payload
      ensures Valid() && SerializeFits(cfg, old(send.State())) && |FrameOf(cfg, old(send.State()))| <= 12
      ensures waitLength == CreateR(cfg, Byte(|FrameOf(cfg, old(send.State()))|))
      ensures send.State() == Serialize(cfg, old(send.State())).(len := waitLength as int)
    {
      ResponseFits(cfg, send.State());
      send.SerializeFrame(cfg);
      waitLength := CreateR(cfg, Byte(send.bufLen));
      send.bufLen := waitLength as int;
    }

    /** The service call of `_melo_service_handler` and the status it sets. */
    method Answer(packet: Packet, memory: Memory)
      requires Valid() && |packet.data| >= 4 && Readable(cfg, packet, memory)
      modifies send`cmd, send`dataLen, send.payload
      ensures Valid() && send.State() == Answered(cfg, old(send.State()), packet, memory)
    {
      send.cmd := packet.cmd;
      var success := CallTableEntry(cfg, packet, send, memory);
      send.cmd := WithStatus(cfg, packet.cmd, if success then cfg.statusPositive else cfg.statusNegative);
    }

    /** `_melo_packet_handler`. */
    method PacketHandler(packet: Packet, memory: Memory)
      requires Valid() && |packet.data| >= 4 && RequestReadable(cfg, packet, memory)
      modifies send, send.buf, send.payload, wait, wait.buf, wait.payload, this`log
      ensures Valid() && View() == HandlePacket(cfg, old(View()), packet, memory)
    {
      var status := Status(cfg, packet.cmd);
      if status == cfg.statusRequest {
        Request(packet, memory);
      } else if status == cfg.statusPending {
        log := log + [RequestBytes(packet.data[0])];
      } else if status == cfg.statusPositive {
        log := log + [ReceiveResponse(Service(cfg, packet.cmd), Subfunction(cfg, packet.cmd), packet.data, packet.length, true)];
      } else if status == cfg.statusNegative {
        log := log + [ReceiveResponse(Service(cfg, packet.cmd), Subfunction(cfg, packet.cmd), packet.data, packet.length, false)];
      }
    }

    /** The request branch of `_melo_packet_handler`: serve, then prepare the Pending wait frame. */
    method Request(packet: Packet, memory: Memory)
      requires Valid() && |packet.data| >= 4 && Readable(cfg, packet, memory)
      modifies send, send.buf, send.payload, wait, wait.buf, wait.payload
      ensures Valid() && View() == HandleRequest(cfg, old(View()), packet, memory)
    {
      ghost var w0 := wait.State();
      MarkPending(packet);
      var waitLength := ServiceHandler(packet, memory);
      assert PendingFrame(cfg, w0, packet, waitLength) == wait.State().(payload := wait.payload[..][0 := waitLength]);
      SendPending(waitLength);
    }

    /** The wait frame fields `_melo_packet_handler` sets before it calls the service handler. */
    method MarkPending(packet: Packet)
      requires Valid()
      modifies wait`cmd, wait`dataLen, wait`crcPresent
      ensures Valid()
      ensures wait.State() == old(wait.State()).(cmd := WithStatus(cfg, packet.cmd, cfg.statusPending), dataLen := 1, crcPresent := false)
    {
      wait.cmd := WithStatus(cfg, packet.cmd, cfg.statusPending);
      wait.dataLen := 1;
      wait.crcPresent := false;
    }

    /** The wait frame's data byte, then its encoding. */
    method SendPending(waitLength: bv8)
      requires Valid() && !wait.crcPresent && wait.dataLen == 1
      modifies wait`bufLen, wait.buf, wait.payload
      ensures Valid()
      ensures var w := old(wait.State()).(payload := old(wait.payload[..])[0 := waitLength]);
        SerializeFits(cfg, w) && wait.State() == Serialize(cfg, w)
    {
      wait.payload[0] := waitLength;
      PendingFits(cfg, wait.State());
      wait.SerializeFrame(cfg);
    }

    /** `_melo_frame_handler`; the CRC check it would run is the constant false. */
    method FrameHandler(packet: Packet, crcPresent: bool, memory: Memory)
      requires Valid() && |packet.data| >= 4 && RequestReadable(cfg, packet, memory)
      modifies send, send.buf, send.payload, wait, wait.buf, wait.payload, this`log
      ensures Valid() && View() == HandleFrame(cfg, old(View()), packet, crcPresent, memory)
    {
      if !crcPresent {
        PacketHandler(packet, memory);
      }
    }
  }

  /** The loop of `MeloBackground`, on the event stack and the current state. */
  method DrainEvents(events: EventStack, idle: bv8, transition: (nat, bv8) -> nat, state: nat) returns (state': nat)
    requires events.Valid()
    modifies events
    ensures events.Valid()
    ensures state' == Run(transition, state, Drained(Contents(old(events.Model())), idle))
    ensures Contents(events.Model()) == Leftover(Contents(old(events.Model())), idle)
  {
    ghost var todo := Drained(Contents(events.Model()), idle);
    state' := state;
    PopDrains(events.Model(), idle);
    var event := events.Get(idle);
    while event != idle
      invariant events.Valid()
      invariant Run(transition, state', DrainedAfter(event, Contents(events.Model()), idle)) == Run(transition, state, todo)
      invariant LeftoverAfter(event, Contents(events.Model()), idle) == Leftover(Contents(old(events.Model())), idle)
      decreases events.length + (if event == idle then 0 else 1)
    {
      BackgroundStep(transition, state', event, events.Model(), idle);
      state' := transition(state', event);
      event := events.Get(idle);
    }
  }

  // ---------------------------------------------------------------- services

  /** The call through `service_table`. */
  method CallTableEntry(cfg: Config, request: Packet, response: FrameBuffer, memory: Memory) returns (success: bool)
    requires ValidCommandLayout(cfg) && |request.data| >= 4 && response.payload.Length >= 4
    requires Readable(cfg, request, memory)
    modifies response`dataLen, response.payload
    ensures (success, Response(response.dataLen, response.payload[..])) ==
            CallService(cfg, request, memory, old(Response(response.dataLen, response.payload[..])))
  {
    ServiceInTable(cfg, request.cmd);
    match ServiceTable[Service(cfg, request.cmd)]
    case ReadWrite =>
      success := ServiceReadWrite(cfg, request, response, memory);
    case Null =>
      success := ServiceNull();
  }

  /** `_service_NULL`: always fails and writes nothing. */
  method ServiceNull() returns (success: bool)
    ensures !success
  {
    success := false;
  }

  /** `_service_read_write`, with its copy loop for subfunction 1. */
  method ServiceReadWrite(cfg: Config, request: Packet, response: FrameBuffer, memory: Memory) returns (success: bool)
    requires ValidCommandLayout(cfg) && |request.data| >= 4 && response.payload.Length >= 4
    requires Service(cfg, request.cmd) == 0 && Readable(cfg, request, memory)
    modifies response`dataLen, response.payload
    ensures (success, Response(response.dataLen, response.payload[..])) ==
            ServeReadWrite(cfg, request, memory, old(Response(response.dataLen, response.payload[..])))
  {
    success := true;
    if Subfunction(cfg, request.cmd) == 1 {
      var value := memory(RequestAddress(cfg, request));
      response.dataLen := 4;
      var index := 0;
      while index < response.dataLen as int
        invariant 0 <= index <= 4 && response.dataLen == 4
        invariant forall k :: 0 <= k < index ==> response.payload[k] == value[k]
        invariant forall k :: index <= k < response.payload.Length ==> response.payload[k] == old(response.payload[k])
      {
        response.payload[index] := value[index];
        index := index + 1;
      }
      assert response.payload[..] == value[..4] + old(response.payload[..])[4..];
    } else if Subfunction(cfg, request.cmd) == 2 {
      var value := memory(RequestAddress(cfg, request));
      response.dataLen := 1;
      response.payload[0] := value[0];
      assert response.payload[..] == [value[0]] + old(response.payload[..])[1..];
    } else {
      success := false;
    }
  }

  /** The command byte of a request: service and subfunction assigned to their fields, status Request. */
  function RequestCommand(cfg: Config, service: bv8, subfunction: bv8): (r: bv8)
    requires ValidCommandLayout(cfg)
    ensures Service(cfg, r) == service & LowOnes(cfg.serviceField.width)
    ensures Subfunction(cfg, r) == subfunction & LowOnes(cfg.subfunctionField.width)
    ensures Status(cfg, r) == cfg.statusRequest
  {
    var a := SetField(0x00, cfg.serviceField, service);
    var b := SetField(a, cfg.subfunctionField, subfunction);
    GetSetSame(0x00, cfg.serviceField, service);
    GetSetOther(a, cfg.subfunctionField, cfg.serviceField, subfunction);
    GetSetSame(a, cfg.subfunctionField, subfunction);
    WithStatus(cfg, b, cfg.statusRequest)
  }

  /**
   * `MeloServiceRequestBuilder`: encodes a request for `service` and
   * `subfunction` carrying the caller's `length` data bytes into `buffer`, and
   * returns the frame's length. With a CRC the caller's data buffer gets the
   * placeholder behind its data. Nothing is checked: the caller provides the room.
   */
  method ServiceRequestBuilder(cfg: Config, buffer: array<bv8>, service: bv8, subfunction: bv8,
                               data: array<bv8>, length: bv8, useCrc: bool) returns (frameLength: bv8)
    requires EscapeParams(cfg) && ValidCommandLayout(cfg) && buffer != data
    requires length as int + (if useCrc then 1 else 0) <= data.Length
    requires var f := RequestFrame(cfg, service, subfunction, data[..length], length, useCrc);
             |f| <= buffer.Length && |f| <= 255
    modifies buffer, data
    ensures var f := RequestFrame(cfg, service, subfunction, old(data[..length]), length, useCrc);
            buffer[..] == Overwrite(old(buffer[..]), 0, f) && frameLength == Byte(|f|)
    ensures data[..] == if useCrc then old(data[..])[length as int := CrcPlaceholder] else old(data[..])
  {
    ghost var request, b0 := data[..length], buffer[..];
    var txFrame := new FrameBuffer.Over(buffer, data, RequestCommand(cfg, service, subfunction), cfg.peEndianess, length, useCrc);
    assert txFrame.payload[..txFrame.dataLen] == request;
    assert txFrame.Frame(cfg) == RequestFrame(cfg, service, subfunction, request, length, useCrc);
    txFrame.SerializeFrame(cfg);
    frameLength := Byte(txFrame.bufLen);
  }

  /** The frame `MeloServiceRequestBuilder` encodes for the `length` request bytes `d`. */
  ghost function RequestFrame(cfg: Config, service: bv8, subfunction: bv8, d: seq<bv8>, length: bv8, useCrc: bool): seq<bv8>
    requires EscapeParams(cfg) && ValidCommandLayout(cfg)
  {
    EncodedFrame(cfg, useCrc, length, RequestCommand(cfg, service, subfunction), PayloadWithCrc(d, useCrc))
  }
}
