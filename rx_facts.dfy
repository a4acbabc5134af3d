/** Properties of the command framer and dispatcher, `RxStep`. */
module RxFacts {
  import opened Wire
  import opened Peripherals
  import opened Framing
  import opened Machine

  /** A request shorter than its look-ahead length is left alone: the FIFO,
      the outbound channel, the effect log and the stream are untouched. */
  lemma RxWaitsForFrame(s: State, env: Env)
    requires |s.inbound| < Needed(s.inbound)
    ensures RxStep(s, env) == s
  {
  }

  /** Once the look-ahead length is buffered, exactly that many bytes are
      consumed and the header decodes as opcode byte 0 and a little-endian
      `lba` in bytes 1 to 4. */
  lemma RxConsumesOneFrame(s: State, env: Env)
    requires !s.rebooted && |s.inbound| >= Needed(s.inbound)
    ensures Parse(s.inbound).Ready?
    ensures Parse(s.inbound).frame.header == Header(s.inbound[0], FromLE32(s.inbound[1..5]))
    ensures Parse(s.inbound).frame.payload == s.inbound[HeaderSize..Needed(s.inbound)]
    ensures RxStep(s, env).inbound == s.inbound[Needed(s.inbound)..]
  {
    var f := Parse(s.inbound).frame;
    assert s.inbound[..HeaderSize] == EncodeHeader(f.header);
    DecodeEncodeHeader(f.header);
    assert s.inbound[..HeaderSize][1..5] == s.inbound[1..5];
  }

  /** The frame a well-formed request arrives as is dispatched whole, in
      whatever chunks it was delivered, and the bytes after it stay queued. */
  lemma RxDispatchesEncodedFrame(s: State, f: Frame, rest: seq<byte>, env: Env)
    requires !s.rebooted && WellFormed(f) && s.inbound == EncodeFrame(f) + rest
    ensures RxStep(s, env) == Dispatch(s.(inbound := rest), f, env)
  {
    ParseEncodedFrame(f, rest);
    assert s.inbound[|EncodeFrame(f)|..] == rest;
  }

  /** Until its last byte has arrived, a request triggers nothing. */
  lemma RxIgnoresPartialFrame(s: State, f: Frame, k: nat, env: Env)
    requires WellFormed(f) && k < |EncodeFrame(f)| && s.inbound == EncodeFrame(f)[..k]
    ensures RxStep(s, env) == s
  {
    ParseWaitsOnPrefix(f, k);
  }

  /** The device is running and the complete request `f`, `n` bytes long,
      is at the head of the FIFO. */
  predicate Dispatched(s: State, f: Frame, n: nat)
  {
    !s.rebooted && Parse(s.inbound) == Ready(f, n)
  }

  /** The queries that answer with a constant or an oracle value and call
      no side-effecting peripheral routine. */
  lemma RxQueryReplies(s: State, f: Frame, n: nat, env: Env)
    requires Dispatched(s, f, n)
    ensures var t, op, lba, rest := RxStep(s, env), f.header.op, f.header.lba, s.inbound[n..];
      && (op == GET_VERSION ==> t == s.(inbound := rest, outbound := s.outbound + [2, 0, 0, 0]))
      && (op == GET_FLASH_CONFIG ==> t == s.(inbound := rest, outbound := s.outbound + LE32(env.flashConfig)))
      && (op == ISD1200_READ_ID ==> t == s.(inbound := rest, outbound := s.outbound + [env.voiceId]))
      && (op == ISD1200_READ_FLASH ==>
            t == s.(inbound := rest, outbound := s.outbound + env.voiceRead(lba))
            && |t.outbound| == |s.outbound| + 512)
  {
    assert RxStep(s, env) == Dispatch(s.(inbound := s.inbound[n..]), f, env);
  }

  /** The voice-chip commands without payload: each makes its one driver
      call and answers one byte, the inverted init result for ISD1200_INIT
      and zero for the others. */
  lemma RxVoiceCommands(s: State, f: Frame, n: nat, env: Env)
    requires Dispatched(s, f, n)
    ensures var t, op, lba, rest := RxStep(s, env), f.header.op, f.header.lba, s.inbound[n..];
      && (op == ISD1200_INIT ==>
            t == s.(inbound := rest, outbound := s.outbound + [if env.voiceInitOk then 0 else 1],
                    effects := s.effects + [VoiceInit]))
      && (op == ISD1200_DEINIT ==>
            t == s.(inbound := rest, outbound := s.outbound + [0], effects := s.effects + [VoiceDeinit]))
      && (op == ISD1200_ERASE_FLASH ==>
            t == s.(inbound := rest, outbound := s.outbound + [0], effects := s.effects + [VoiceErase]))
      && (op == ISD1200_PLAY_VOICE ==>
            t == s.(inbound := rest, outbound := s.outbound + [0], effects := s.effects + [VoicePlay(lba)]))
      && (op == ISD1200_EXEC_MACRO ==>
            t == s.(inbound := rest, outbound := s.outbound + [0], effects := s.effects + [VoiceExec(lba)]))
      && (op == ISD1200_RESET ==>
            t == s.(inbound := rest, outbound := s.outbound + [0], effects := s.effects + [VoiceReset]))
  {
    assert RxStep(s, env) == Dispatch(s.(inbound := s.inbound[n..]), f, env);
  }

  /** READ_FLASH answers with the status word, followed by the page's data
      and spare area if and only if the status is zero. */
  lemma RxReadFlash(s: State, f: Frame, n: nat, env: Env)
    requires Dispatched(s, f, n) && f.header.op == READ_FLASH
    ensures var t, r := RxStep(s, env), env.readBlock(f.header.lba);
      && t == s.(inbound := s.inbound[n..], outbound := t.outbound)
      && t.outbound[..|s.outbound| + 4] == s.outbound + LE32(r.status)
      && (|t.outbound| == |s.outbound| + 4 + SectorSize + SpareSize <==> r.status == 0)
      && (r.status == 0 ==> t.outbound == s.outbound + [0, 0, 0, 0] + r.data + r.spare)
      && (r.status != 0 ==> |t.outbound| == |s.outbound| + 4)
  {
    var t, r := RxStep(s, env), env.readBlock(f.header.lba);
    assert t.outbound == s.outbound + LE32(r.status) + (if r.status == 0 then r.data + r.spare else []);
  }

  /** WRITE_FLASH hands the first 512 payload bytes to the driver as page
      data and the last 16 as the spare area, and answers with the driver's
      status word alone. The host's 528 payload bytes are consumed. */
  lemma RxWriteFlash(s: State, f: Frame, n: nat, env: Env)
    requires Dispatched(s, f, n) && f.header.op == WRITE_FLASH
    ensures n == HeaderSize + 528
    ensures var t, lba := RxStep(s, env), f.header.lba;
      var data, spare := s.inbound[5..5 + 512], s.inbound[5 + 512..5 + 528];
      && |data| == SectorSize && |spare| == SpareSize
      && t == s.(inbound := s.inbound[5 + 528..],
                 outbound := s.outbound + LE32(env.writeBlock(lba, data, spare)),
                 effects := s.effects + [NandWrite(lba, data, spare)])
  {
    assert f.payload == s.inbound[HeaderSize..n];
    assert f.payload[..SectorSize] == s.inbound[5..5 + 512];
    assert f.payload[SectorSize..] == s.inbound[5 + 512..5 + 528];
  }

  /** ISD1200_WRITE_FLASH consumes its 16 payload bytes, passes them to the
      voice chip and answers with four zero bytes, whatever the chip did. */
  lemma RxVoiceWriteFlash(s: State, f: Frame, n: nat, env: Env)
    requires Dispatched(s, f, n) && f.header.op == ISD1200_WRITE_FLASH
    ensures n == HeaderSize + 16
    ensures var t := RxStep(s, env);
      t == s.(inbound := s.inbound[5 + 16..], outbound := s.outbound + [0, 0, 0, 0],
              effects := s.effects + [VoiceWrite(f.header.lba, s.inbound[5..5 + 16])])
  {
    assert f.payload == s.inbound[HeaderSize..n];
  }

  /** READ_FLASH_STREAM starts a session over blocks `0 .. lba`, replacing
      whatever session was in progress, and answers nothing. */
  lemma RxStartsStream(s: State, f: Frame, n: nat, env: Env)
    requires Dispatched(s, f, n) && f.header.op == READ_FLASH_STREAM
    ensures RxStep(s, env) == s.(inbound := s.inbound[HeaderSize..], session := Session(true, 0, f.header.lba))
  {
  }

  /** REBOOT_TO_BOOTLOADER answers nothing and ends the device's activity. */
  lemma RxReboots(s: State, f: Frame, n: nat, env: Env)
    requires Dispatched(s, f, n) && f.header.op == REBOOT_TO_BOOTLOADER
    ensures RxStep(s, env) == s.(inbound := s.inbound[HeaderSize..], rebooted := true)
  {
  }

  /** A byte that names no opcode costs its five header bytes and nothing
      else: no reply, no peripheral call, no change to the stream. */
  lemma RxUnknownOpcode(s: State, f: Frame, n: nat, env: Env)
    requires Dispatched(s, f, n) && Classify(f.header.op).None?
    ensures n == HeaderSize
    ensures RxStep(s, env) == s.(inbound := s.inbound[HeaderSize..])
  {
  }

  /** At most one handler acts on a frame: the reply is one of the shapes the
      opcode table lists, only READ_FLASH_STREAM touches the session, only
      REBOOT_TO_BOOTLOADER sets the reboot flag, and at most one peripheral
      call is recorded. */
  lemma RxOneHandler(s: State, env: Env)
    requires !s.rebooted
    ensures var t := RxStep(s, env);
      && (t.session != s.session ==> |s.inbound| >= HeaderSize && s.inbound[0] == READ_FLASH_STREAM)
      && (t.rebooted ==> |s.inbound| >= HeaderSize && s.inbound[0] == REBOOT_TO_BOOTLOADER)
      && |t.effects| <= |s.effects| + 1
      && |t.outbound| - |s.outbound| in {0, 1, 4, 512, 4 + 528}
  {
    match Parse(s.inbound)
    case Waiting =>
    case Ready(f, n) =>
      assert s.inbound[..HeaderSize] == EncodeHeader(f.header);
      assert f.header.op == s.inbound[0];
  }
}
