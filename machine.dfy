/** The firmware's protocol state and its two steps as functions on values:
    `RxStep` is one run of `tud_cdc_rx_cb` and `StreamStep` one run of
    `stream()` (main.c). These are the specifications the `Device` methods
    are proved against, and the functions the lemmas reason about. */
module Machine {
  import opened Wire
  import opened Peripherals
  import opened Framing

  /** The protocol version GET_VERSION reports. */
  const ProtocolVersion: u32 := 2

  /** One stream frame: a status word, a page's data and its spare area
      (`4 + 0x210` bytes). */
  const StreamFrameSize: nat := 4 + SectorSize + SpareSize

  /** The globals `do_stream`, `stream_offset` and `stream_end`. */
  datatype Session = Session(active: bool, cursor: u32, limit: u32)

  /** Everything a step can observe or change: the inbound FIFO, what has
      been written to the outbound channel, the side-effecting peripheral
      calls made so far, the streaming session, and whether the device has
      jumped to the USB bootloader. */
  datatype State = State(
    inbound: seq<byte>,
    outbound: seq<byte>,
    effects: seq<Effect>,
    session: Session,
    rebooted: bool)

  /** The state at power-on: the globals' initialisers and empty FIFOs. */
  const PowerOn: State := State([], [], [], Session(false, 0, 0), false)

  /** The stream cursor never passes its limit. */
  predicate Inv(s: State)
  {
    s.session.cursor <= s.session.limit
  }

  /** `s` extended by `reply` on the outbound channel. */
  function Reply(s: State, reply: seq<byte>): State
  {
    s.(outbound := s.outbound + reply)
  }

  /** `s` extended by `reply` and a record of the peripheral call `e`. */
  function Call(s: State, e: Effect, reply: seq<byte>): State
  {
    s.(outbound := s.outbound + reply, effects := s.effects + [e])
  }

  /** The handler for one complete request, selected by a single exhaustive
      match on its opcode. A byte that names no opcode selects no handler. */
  function Dispatch(s: State, f: Frame, env: Env): (t: State)
    requires WellFormed(f)
    ensures t.inbound == s.inbound
    ensures s.outbound <= t.outbound && s.effects <= t.effects
    ensures t.rebooted <==> s.rebooted || f.header.op == REBOOT_TO_BOOTLOADER
    ensures Inv(s) ==> Inv(t)
  {
    var lba := f.header.lba;
    match Classify(f.header.op)
    case None => s
    case Some(k) =>
      match k
      case GetVersion => Reply(s, LE32(ProtocolVersion))
      case GetFlashConfig => Reply(s, LE32(env.flashConfig))
      case ReadFlash =>
        var r := env.readBlock(lba);
        Reply(Reply(s, LE32(r.status)), if r.status == 0 then r.data + r.spare else [])
      case WriteFlash =>
        var data: Sector := f.payload[..SectorSize];
        var spare: Spare := f.payload[SectorSize..];
        Call(s, NandWrite(lba, data, spare), LE32(env.writeBlock(lba, data, spare)))
      case ReadFlashStream => s.(session := Session(true, 0, lba))
      case Isd1200Init => Call(s, VoiceInit, [if env.voiceInitOk then 0 else 1])
      case Isd1200Deinit => Call(s, VoiceDeinit, [0])
      case Isd1200ReadId => Reply(s, [env.voiceId])
      case Isd1200ReadFlash => Reply(s, env.voiceRead(lba))
      case Isd1200EraseFlash => Call(s, VoiceErase, [0])
      case Isd1200WriteFlash => Call(s, VoiceWrite(lba, f.payload), LE32(0))
      case Isd1200PlayVoice => Call(s, VoicePlay(lba), [0])
      case Isd1200ExecMacro => Call(s, VoiceExec(lba), [0])
      case Isd1200Reset => Call(s, VoiceReset, [0])
      case RebootToBootloader => s.(rebooted := true)
  }

  /** The handler run for a request whose header `h` has already been read
      off the FIFO: its payload, if it has one, is what the FIFO holds next. */
  function Handle(s: State, h: Header, env: Env): State
    requires PayloadSize(h.op) <= |s.inbound|
  {
    var n := PayloadSize(h.op);
    Dispatch(s.(inbound := s.inbound[n..]), Frame(h, s.inbound[..n]), env)
  }

  /** One run of `tud_cdc_rx_cb`: nothing until a whole frame is buffered,
      then that frame is taken off the front of the FIFO and dispatched.
      Nothing runs after the jump to the bootloader. */
  function RxStep(s: State, env: Env): (t: State)
    ensures |t.inbound| <= |s.inbound| && t.inbound == s.inbound[|s.inbound| - |t.inbound|..]
    ensures s.outbound <= t.outbound && s.effects <= t.effects
    ensures Inv(s) ==> Inv(t)
  {
    if s.rebooted then s
    else
      match Parse(s.inbound)
      case Waiting => s
      case Ready(f, n) => Dispatch(s.(inbound := s.inbound[n..]), f, env)
  }

  /** The 532-byte frame `stream()` sends for a block read that succeeded. */
  function StreamFrame(r: NandRead): (frame: seq<byte>)
    ensures |frame| == StreamFrameSize
  {
    LE32(r.status) + r.data + r.spare
  }

  /** One run of `stream()`, where `capacity` is what
      `tud_cdc_write_available()` reports. */
  function StreamStep(s: State, capacity: nat, env: Env): (t: State)
    ensures t.inbound == s.inbound && t.effects == s.effects && t.rebooted == s.rebooted
    ensures s.outbound <= t.outbound && t.session.limit == s.session.limit
    ensures Inv(s) ==> Inv(t)
  {
    var ss := s.session;
    if s.rebooted || !ss.active then s
    else if ss.cursor >= ss.limit then s.(session := ss.(active := false))
    else if capacity < StreamFrameSize then s
    else
      var r := env.readBlock(ss.cursor);
      if r.status == 0 then
        s.(outbound := s.outbound + StreamFrame(r), session := ss.(cursor := ss.cursor + 1))
      else
        s.(outbound := s.outbound + LE32(r.status), session := ss.(active := false))
  }

  /** Bytes of one USB transfer from the host, appended to the inbound FIFO
      by the USB stack. */
  function Arrive(s: State, bytes: seq<byte>): State
  {
    s.(inbound := s.inbound + bytes)
  }

  /** What one pass of the main loop can do: `tud_task` taking in one
      transfer from the host and then running the receive callback once,
      or the call to `stream()`. */
  datatype Event = Received(bytes: seq<byte>, env: Env) | Polled(capacity: nat, env: Env)

  function Step(s: State, e: Event): State
  {
    match e
    case Received(bytes, env) => RxStep(Arrive(s, bytes), env)
    case Polled(capacity, env) => StreamStep(s, capacity, env)
  }

  /** What the host sent in one event. */
  function Sent(e: Event): seq<byte>
  {
    if e.Received? then e.bytes else []
  }

  /** Everything the host sent during `events`, in order. */
  function Arrivals(events: seq<Event>): seq<byte>
    decreases |events|
  {
    if events == [] then [] else Sent(events[0]) + Arrivals(events[1..])
  }

  /** The state after the main loop has handled `events` in order. */
  function Run(s: State, events: seq<Event>): State
    decreases |events|
  {
    if events == [] then s else Run(Step(s, events[0]), events[1..])
  }
}
