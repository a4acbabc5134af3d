/** The firmware's mutable state and the two routines of main.c that change
    it, written step by step as the C code is: `Rx` is `tud_cdc_rx_cb`,
    `Stream` is `stream()`. Each is proved to compute exactly the matching
    function of `Machine`. */
module Firmware {
  import opened Wire
  import opened Peripherals
  import opened Framing
  import opened Machine
  import opened LoopFacts

  class Device {
    /** The CDC receive FIFO: bytes from the host not yet read. */
    var inbound: seq<byte>
    /** Every byte handed to `tud_cdc_write`, in order. */
    var outbound: seq<byte>
    /** Side-effecting peripheral calls, in order. */
    var effects: seq<Effect>
    /** The globals `do_stream`, `stream_offset` and `stream_end`. */
    var doStream: bool
    var streamOffset: u32
    var streamEnd: u32
    /** Set by `reset_usb_boot`, which never returns. */
    var rebooted: bool
    /** The static `buffer[4 + 0x210]` of `stream()`. */
    const buffer: array<byte>

    ghost predicate Valid()
      reads this
    {
      buffer.Length == StreamFrameSize && Inv(Snapshot())
    }

    /** The protocol state the fields represent. */
    function Snapshot(): State
      reads this
    {
      State(inbound, outbound, effects, Session(doStream, streamOffset, streamEnd), rebooted)
    }

    constructor ()
      ensures Valid() && Snapshot() == PowerOn && fresh(buffer)
    {
      inbound, outbound, effects := [], [], [];
      doStream, streamOffset, streamEnd := false, 0, 0;
      rebooted := false;
      buffer := new byte[StreamFrameSize];
    }

    /** `tud_cdc_read`: takes up to `n` bytes off the front of the FIFO and
        returns what it took. */
    method Read(n: nat) returns (bytes: seq<byte>)
      modifies this`inbound
      ensures var k := if n <= |old(inbound)| then n else |old(inbound)|;
        bytes == old(inbound)[..k] && inbound == old(inbound)[k..]
    {
      var k := if n <= |inbound| then n else |inbound|;
      bytes := inbound[..k];
      inbound := inbound[k..];
    }

    /** The USB stack storing one transfer from the host in the FIFO. */
    method Receive(bytes: seq<byte>)
      modifies this`inbound
      ensures inbound == old(inbound) + bytes
    {
      inbound := inbound + bytes;
    }

    /** `tud_cdc_write`. */
    method Write(bytes: seq<byte>)
      modifies this`outbound
      ensures outbound == old(outbound) + bytes
    {
      outbound := outbound + bytes;
    }

    /** `tud_cdc_rx_cb`: peek the first byte, wait for the whole request,
        read the packed header, then run the source's five dispatch
        statements one after the other. */
    method Rx(env: Env)
      requires Valid()
      modifies this
      ensures Valid() && Snapshot() == RxStep(old(Snapshot()), env)
    {
      if rebooted {
        return;
      }
      ghost var before := Snapshot();
      var available := |inbound|;
      var needed := Needed(inbound);
      if available >= needed {
        ghost var frame := Parse(inbound).frame;
        var raw := Read(HeaderSize);
        // The availability check makes the `count != sizeof(cmd)` return dead.
        assert |raw| == HeaderSize;
        var cmd := DecodeHeader(raw);
        ghost var header := Snapshot();
        assert cmd == frame.header && inbound[..PayloadSize(cmd.op)] == frame.payload;
        assert inbound[PayloadSize(cmd.op)..] == before.inbound[needed..];

        FlashCommands(cmd, env);
        VoiceInitCommand(cmd, env);
        VoiceQueries(cmd, env);
        VoiceCommands(cmd, env);
        ControlCommands(cmd, env);
        // tud_cdc_write_flush() only hands the bytes to the USB stack.

        if Classify(cmd.op).None? {
          assert header.inbound[0..] == header.inbound;
        }
        assert Snapshot() == Handle(header, cmd, env);
      }
    }

    /** The `if` / `else if` chain over GET_VERSION, GET_FLASH_CONFIG,
        READ_FLASH, WRITE_FLASH and READ_FLASH_STREAM. */
    method FlashCommands(cmd: Header, env: Env)
      requires Valid() && (cmd.op == WRITE_FLASH ==> SectorSize + SpareSize <= |inbound|)
      modifies this
      ensures Valid()
      ensures Snapshot() == if cmd.op in {GET_VERSION, GET_FLASH_CONFIG, READ_FLASH, WRITE_FLASH, READ_FLASH_STREAM}
                            then Handle(old(Snapshot()), cmd, env) else old(Snapshot())
    {
      if cmd.op == GET_VERSION {
        Write(LE32(ProtocolVersion));
      } else if cmd.op == GET_FLASH_CONFIG {
        Write(LE32(env.flashConfig));
      } else if cmd.op == READ_FLASH {
        var r := env.readBlock(cmd.lba);
        Write(LE32(r.status));
        if r.status == 0 {
          Write(r.data + r.spare);
        }
      } else if cmd.op == WRITE_FLASH {
        var page := Read(SectorSize + SpareSize);
        // Short reads are excluded by the availability check.
        assert |page| == SectorSize + SpareSize;
        var data: Sector, spare: Spare := page[..SectorSize], page[SectorSize..];
        var status := env.writeBlock(cmd.lba, data, spare);
        effects := effects + [NandWrite(cmd.lba, data, spare)];
        Write(LE32(status));
      } else if cmd.op == READ_FLASH_STREAM {
        doStream, streamOffset, streamEnd := true, 0, cmd.lba;
      }
    }

    /** The lone `if` for ISD1200_INIT. */
    method VoiceInitCommand(cmd: Header, env: Env)
      requires Valid()
      modifies this
      ensures Valid()
      ensures Snapshot() == if cmd.op == ISD1200_INIT then Handle(old(Snapshot()), cmd, env) else old(Snapshot())
    {
      if cmd.op == ISD1200_INIT {
        effects := effects + [VoiceInit];
        Write([if env.voiceInitOk then 0 else 1]);
      }
    }

    /** The chain over ISD1200_DEINIT, ISD1200_READ_ID and ISD1200_READ_FLASH. */
    method VoiceQueries(cmd: Header, env: Env)
      requires Valid()
      modifies this
      ensures Valid()
      ensures Snapshot() == if cmd.op in {ISD1200_DEINIT, ISD1200_READ_ID, ISD1200_READ_FLASH}
                            then Handle(old(Snapshot()), cmd, env) else old(Snapshot())
    {
      if cmd.op == ISD1200_DEINIT {
        effects := effects + [VoiceDeinit];
        Write([0]);
      } else if cmd.op == ISD1200_READ_ID {
        Write([env.voiceId]);
      } else if cmd.op == ISD1200_READ_FLASH {
        Write(env.voiceRead(cmd.lba));
      }
    }

    /** The chain over ISD1200_ERASE_FLASH, ISD1200_WRITE_FLASH,
        ISD1200_PLAY_VOICE and ISD1200_EXEC_MACRO. */
    method VoiceCommands(cmd: Header, env: Env)
      requires Valid() && (cmd.op == ISD1200_WRITE_FLASH ==> VoiceChunkSize <= |inbound|)
      modifies this
      ensures Valid()
      ensures Snapshot() == if cmd.op in {ISD1200_ERASE_FLASH, ISD1200_WRITE_FLASH, ISD1200_PLAY_VOICE, ISD1200_EXEC_MACRO}
                            then Handle(old(Snapshot()), cmd, env) else old(Snapshot())
    {
      if cmd.op == ISD1200_ERASE_FLASH {
        effects := effects + [VoiceErase];
        Write([0]);
      } else if cmd.op == ISD1200_WRITE_FLASH {
        var chunk := Read(VoiceChunkSize);
        // Short reads are excluded by the availability check.
        assert |chunk| == VoiceChunkSize;
        effects := effects + [VoiceWrite(cmd.lba, chunk)];
        Write(LE32(0));
      } else if cmd.op == ISD1200_PLAY_VOICE {
        effects := effects + [VoicePlay(cmd.lba)];
        Write([0]);
      } else if cmd.op == ISD1200_EXEC_MACRO {
        effects := effects + [VoiceExec(cmd.lba)];
        Write([0]);
      }
    }

    /** The chain over ISD1200_RESET and REBOOT_TO_BOOTLOADER. */
    method ControlCommands(cmd: Header, env: Env)
      requires Valid()
      modifies this
      ensures Valid()
      ensures Snapshot() == if cmd.op in {ISD1200_RESET, REBOOT_TO_BOOTLOADER}
                            then Handle(old(Snapshot()), cmd, env) else old(Snapshot())
    {
      if cmd.op == ISD1200_RESET {
        effects := effects + [VoiceReset];
        Write([0]);
      } else if cmd.op == REBOOT_TO_BOOTLOADER {
        // reset_usb_boot(0, 0) does not return.
        rebooted := true;
      }
    }

    /** The main loop over a finite run of events: each receive callback
        runs `Rx`, each pass's call to `stream()` runs `Stream`. */
    method MainLoop(events: seq<Event>)
      requires Valid()
      modifies this, buffer
      ensures Valid() && Snapshot() == Run(old(Snapshot()), events)
    {
      var i := 0;
      while i < |events|
        invariant 0 <= i <= |events| && Valid()
        invariant Snapshot() == Run(old(Snapshot()), events[..i])
      {
        Service(events[i]);
        assert events[..i + 1] == events[..i] + [events[i]];
        RunSnoc(old(Snapshot()), events[..i], events[i]);
        i := i + 1;
      }
      assert events[..i] == events;
    }

    /** One pass of the main loop: a transfer and the callback it triggers,
        or one call to `stream()`. */
    method Service(e: Event)
      requires Valid()
      modifies this, buffer
      ensures Valid() && Snapshot() == Step(old(Snapshot()), e)
    {
      match e {
        case Received(bytes, env) =>
          Receive(bytes);
          Rx(env);
        case Polled(capacity, env) => Stream(capacity, env);
      }
    }

    /** `stream()`, where `capacity` is what `tud_cdc_write_available()`
        reports. The block is read into the static buffer behind a status
        word, and the whole buffer is sent only when the read succeeded. */
    method Stream(capacity: nat, env: Env)
      requires Valid()
      modifies this, buffer
      ensures Valid() && Snapshot() == StreamStep(old(Snapshot()), capacity, env)
    {
      if rebooted {
        return;
      }
      if doStream {
        if streamOffset >= streamEnd {
          doStream := false;
          return;
        }
        if capacity < StreamFrameSize {
          return;
        }
        var r := env.readBlock(streamOffset);
        forall i | 4 <= i < 4 + SectorSize {
          buffer[i] := r.data[i - 4];
        }
        forall i | 4 + SectorSize <= i < StreamFrameSize {
          buffer[i] := r.spare[i - 4 - SectorSize];
        }
        var status := LE32(r.status);
        buffer[0], buffer[1], buffer[2], buffer[3] := status[0], status[1], status[2], status[3];
        if r.status == 0 {
          assert buffer[..] == StreamFrame(r);
          Write(buffer[..]);
          streamOffset := streamOffset + 1;
        } else {
          Write(status);
          doStream := false;
        }
      }
    }
  }
}
