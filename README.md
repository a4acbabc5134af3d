# PicoFlasher command protocol, modelled in Dafny

PicoFlasher is firmware for a Raspberry Pi Pico that reads and writes an Xbox 360's NAND flash and the ISD1200 voice chip over USB CDC serial. This project models the protocol part of `main.c`. That part has two pieces:

- **The framer and dispatcher**, `tud_cdc_rx_cb`.
  - It peeks at the first buffered byte to learn how long the request is: a 5-byte packed header, plus 0x210 bytes for WRITE_FLASH or 16 bytes for ISD1200_WRITE_FLASH.
  - It waits until that many bytes are buffered.
  - It then reads the header (an opcode byte and a little-endian 32-bit `lba`) and any payload, and dispatches on the opcode.
  - Each handler appends a fixed-shape reply to the outbound channel.
- **The streaming read engine**, `stream()`, called once per main-loop pass.
  - It is driven by the globals `do_stream`, `stream_offset` and `stream_end`.
  - While the outbound FIFO has room, it sends one 532-byte frame per NAND block: a status word, 512 data bytes and 16 spare bytes.
  - It stops at the limit, or at the first failed read, which it reports as a 4-byte status alone.

The project has two layers:

- **Specification functions on values** (module `Machine`).
  - A `State` holds the inbound FIFO, the bytes written so far, a log of side-effecting peripheral calls, the stream session and a reboot flag.
  - `RxStep` is one run of `tud_cdc_rx_cb`. `StreamStep` is one run of `stream()`. `Run` is the main loop over a finite sequence of events.
  - `Dispatch` is a single exhaustive match over the opcode.
- **The device as a class** (module `Firmware`, `class Device`).
  - Its fields are the FIFOs, the effect log, the three globals and the static 532-byte `buffer` of `stream()`.
  - Its methods follow the C code statement by statement. `Rx` reads the header, then runs the five `if` / `else if` statements of the source one after the other, as five methods. `Stream` fills the buffer in place and writes it.
  - Each method is proved to compute exactly the matching specification function. For `Rx`, this proves that the non-exclusive chains of the source act like one exhaustive match: at most one handler runs for each frame.

The other modules hold supporting definitions and lemmas:

- `Wire`: bytes, 32-bit words and their little-endian layout.
- `Peripherals`: the peripheral oracles and the effect log.
- `Framing`: opcodes, the header and the framing `Parse`.
- `RxFacts`, `StreamFacts` and `LoopFacts`: what the steps guarantee.

Peripherals are inputs, not code:

- An `Env` value supplies, for one step:
  - the flash configuration word;
  - the NAND block reader and writer, as functions of their arguments;
  - the voice chip's init result, its id, and its 512-byte page reader.
- `tud_cdc_write_available()` is the `capacity` parameter of `Stream`.
- Calls that change the outside world are recorded in order in `effects`: NAND writes and the voice chip's init, deinit, erase, write, play, exec and reset.

The model keeps `main.c` as written:

- `Firmware.Device.Rx` runs the five partly `else if` chains of main.c:173-265 one after the other. It is proved equal to `RxStep`, whose `Machine.Dispatch` is a single match over the opcode.
- The short-read `return`s (main.c:170-171, 195-196 and 238-239) are proved unreachable. The availability check at main.c:165 means every `tud_cdc_read` gets its full length.
- A request that is never completed is never dropped or resynchronised. It stays at the head of the FIFO.
- Each receive callback handles at most one request. A second complete request in the same transfer waits for the next callback.

The main loop is a finite sequence of events. A `Received(bytes, env)` event is `tud_task` doing two things: it stores one transfer from the host in the inbound FIFO, then runs the receive callback once. A `Polled(capacity, env)` event is one call to `stream()`.

## Model

| member | source | states |
|---|---|---|
| Wire.LE32 | main.c:175-176 | the four little-endian bytes of a 32-bit word, as `tud_cdc_write(&x, 4)` sends it |
| Wire.FromLE32OfLE32 | main.c:107-113 | decoding the little-endian bytes of a word gives the word back |
| Wire.LE32OfFromLE32 | main.c:107-113 | encoding a decoded 4-byte `lba` gives the same four bytes back |
| Wire.LE32Injective | main.c:133 | distinct status words are sent as distinct byte strings, so the host can tell statuses apart |
| Framing.Classify | main.c:89-105 | a byte selects the opcode with that code, and `None` exactly when no opcode constant equals it |
| Framing.CodesDistinct | main.c:89-105 | the opcode constants are pairwise distinct |
| Framing.ClassifyCode | main.c:89-105 | classifying an opcode's code yields that opcode |
| Framing.EncodeHeader | main.c:107-113 | a packed `struct cmd` is 5 bytes long |
| Framing.DecodeEncodeHeader | main.c:107-113 | reading `struct cmd` from the bytes a host lays out gives the host's opcode and `lba` |
| Framing.EncodeDecodeHeader | main.c:107-113 | every 5 wire bytes are the layout of the header read from them |
| Framing.NeededLengths | main.c:155-163 | the needed length is 5 + 528 when the first byte is 0x03, 5 + 16 when it is 0xA5, and 5 otherwise |
| Framing.Parse | main.c:153-171 | a request is ready exactly when the needed length is buffered; the bytes taken are then the encoding of a well-formed frame of that length |
| Framing.ParseEncodedFrame | main.c:153-171 | a well-formed request followed by anything is parsed as exactly that request, and none of what follows is taken |
| Framing.ParseWaitsOnPrefix | main.c:165 | no strict prefix of a request is ever dispatched |
| Machine.Dispatch | main.c:173-265 | a handler leaves the FIFO alone, only appends to the outbound channel and to the effect log, sets the reboot flag exactly for REBOOT_TO_BOOTLOADER, and keeps the cursor within its limit |
| Machine.RxStep | main.c:148-269 | a receive callback consumes only from the front of the FIFO, only appends output and effects, and keeps the cursor within its limit |
| Machine.StreamFrame | main.c:131-136 | a stream frame is `4 + 0x210` bytes |
| Machine.StreamStep | main.c:118-145 | `stream()` never touches the inbound FIFO, the effect log, the reboot flag or the limit, only appends output, and keeps the cursor within its limit |
| RxFacts.RxWaitsForFrame | main.c:153-165 | with fewer bytes buffered than needed, the callback changes nothing at all |
| RxFacts.RxConsumesOneFrame | main.c:165-171 | on dispatch the header is byte 0 and little-endian bytes 1 to 4, the payload is the bytes up to the needed length, and exactly that many bytes are consumed |
| RxFacts.RxDispatchesEncodedFrame | main.c:165-265 | a request is dispatched whole, however its bytes were delivered, and the bytes after it stay queued |
| RxFacts.RxIgnoresPartialFrame | main.c:165 | a request whose last byte has not arrived triggers nothing |
| RxFacts.RxQueryReplies | main.c:173-227 | GET_VERSION appends the bytes of little-endian 2 and GET_FLASH_CONFIG the config word; ISD1200_READ_ID appends the id byte and ISD1200_READ_FLASH the 512 page bytes; none of them calls a side-effecting routine |
| RxFacts.RxVoiceCommands | main.c:206-261 | ISD1200_INIT appends 0 on success and 1 on failure; DEINIT, ERASE_FLASH, PLAY_VOICE, EXEC_MACRO and RESET append one 0 byte; each makes exactly its one driver call, with the `lba` as argument where the source passes it |
| RxFacts.RxReadFlash | main.c:183-190 | READ_FLASH appends the status word, and the 528 data and spare bytes follow if and only if the status is 0 |
| RxFacts.RxWriteFlash | main.c:191-199 | WRITE_FLASH consumes 5 + 528 bytes, writes payload bytes 0-511 as data and 512-527 as spare, and appends only the returned status |
| RxFacts.RxVoiceWriteFlash | main.c:234-243 | ISD1200_WRITE_FLASH consumes 5 + 16 bytes, passes the 16 to the chip and appends 4 zero bytes |
| RxFacts.RxStartsStream | main.c:200-205 | READ_FLASH_STREAM opens the session `0 .. lba`, replacing any earlier one, and appends nothing |
| RxFacts.RxReboots | main.c:262-265 | REBOOT_TO_BOOTLOADER appends nothing and sets the terminal reboot flag |
| RxFacts.RxUnknownOpcode | main.c:173-265 | an unrecognised opcode consumes its 5 header bytes and does nothing else |
| RxFacts.RxOneHandler | main.c:173-265 | at most one handler acts: only 0x04 changes the session, only 0xFE reboots, at most one peripheral call is logged, and the reply length is 0, 1, 4, 512 or 532 |
| StreamFacts.StreamIdle | main.c:120 | with no active session, `stream()` changes nothing |
| StreamFacts.StreamFinishes | main.c:122-126 | at the limit, the session is closed and nothing is written |
| StreamFacts.StreamDefers | main.c:128-129 | with less than 532 bytes of room, an unfinished session changes nothing |
| StreamFacts.StreamSendsBlock | main.c:130-138 | a read with status 0 appends the 532 bytes (zero status, data, spare) and advances the cursor by one |
| StreamFacts.StreamAborts | main.c:139-143 | a failed read appends the 4 status bytes alone and closes the session, the cursor unchanged |
| StreamFacts.Polls | main.c:294-298 | one main-loop event per `stream()` call |
| StreamFacts.RunStreamIsRun | main.c:294-298 | consecutive `stream()` calls are the main loop run on those events |
| StreamFacts.RunStreamAppend | main.c:294-298 | running two sequences of calls one after the other is running their concatenation |
| StreamFacts.Frames | main.c:130-138 | the frames of a block range are 532 bytes per block |
| StreamFacts.FramesAt | main.c:130-138 | the i-th frame of a range is the frame of block `from + i`: nothing is dropped or reordered |
| StreamFacts.StreamDeliversRange | main.c:118-145 | with room each time and no failed read, one call per remaining block sends those blocks' frames in order and brings the cursor to the limit |
| StreamFacts.StreamStaysIdle | main.c:120 | once a session is closed, or the device has rebooted, no call writes again |
| StreamFacts.StreamWholeSession | main.c:118-145 | a session of limit N with no failed read sends exactly N frames, 532·N bytes, in N calls with room, and the next call closes it even without room; the main loop making those calls ends in the same state |
| StreamFacts.StreamFailsAt | main.c:130-143 | if block k is the first to fail, exactly the frames before k and then k's 4-byte status are sent, and the session ends, in the main loop as in the engine alone |
| StreamFacts.SameRunWithLaterLimit | main.c:122-137 | up to a limit it has not reached, a session runs the same as one ending there |
| StreamFacts.RoomyOnly | main.c:128 | the calls made with room for a frame |
| StreamFacts.DeferralIsInvisible | main.c:122-129 | dropping the calls made without room leaves the same state, except that a finished session may have been closed earlier |
| StreamFacts.DeferralKeepsOutput | main.c:128-129 | deferral neither drops nor reorders frames: output and cursor are the same with or without the deferred calls |
| LoopFacts.RunAppend | main.c:294-298 | the main loop over two event sequences is the loop over their concatenation |
| LoopFacts.RunSnoc | main.c:294-298 | one more event is one more step of the loop |
| LoopFacts.RunKeepsInv | main.c:122-137 | every run keeps the cursor within its limit; separately, `++stream_offset` cannot wrap around 32 bits because the guard at line 122 makes it run only below `stream_end` |
| LoopFacts.RunOnlyAppends | main.c:294-298 | over any run, the outbound channel and the effect log only grow, and the FIFO is always a suffix of what it held plus everything the host sent: bytes are consumed only from the front, in the order they arrived |
| LoopFacts.RunAfterReboot | main.c:264 | after `reset_usb_boot` the firmware does nothing any more: what the host sends stays unread, and nothing else changes |
| LoopFacts.TransferServesOneRequest | main.c:148-269 | when one transfer completes two requests, its callback dispatches the first and leaves the second queued, and the next transfer's callback, even an empty one, dispatches the second (unless the first was a reboot) |
| LoopFacts.RebootHaltsStream | main.c:262-265 | a reboot request, even during a stream, ends all output and all peripheral calls |
| Firmware.Device.constructor | main.c:115-117 | power-on: the globals' initial values and empty FIFOs |
| Firmware.Device.Receive | main.c:296 | the USB stack, inside `tud_task`, appends a transfer from the host to the inbound FIFO |
| Firmware.Device.Read | main.c:169 | `tud_cdc_read` takes up to n bytes off the front of the FIFO |
| Firmware.Device.Write | main.c:176 | `tud_cdc_write` appends its bytes |
| Firmware.Device.Rx | main.c:148-269 | the callback as written computes exactly `RxStep`, the single-match specification |
| Firmware.Device.FlashCommands | main.c:173-205 | the first chain runs the handler for its five opcodes and changes nothing for any other byte |
| Firmware.Device.VoiceInitCommand | main.c:206-210 | the lone ISD1200_INIT test runs that handler and changes nothing otherwise |
| Firmware.Device.VoiceQueries | main.c:211-227 | the DEINIT / READ_ID / READ_FLASH chain runs its handler and changes nothing otherwise |
| Firmware.Device.VoiceCommands | main.c:228-255 | the ERASE / WRITE / PLAY / EXEC chain runs its handler and changes nothing otherwise |
| Firmware.Device.ControlCommands | main.c:256-265 | the RESET / REBOOT chain runs its handler and changes nothing otherwise |
| Firmware.Device.Stream | main.c:118-145 | `stream()` as written, filling the static buffer in place, computes exactly `StreamStep` |
| Firmware.Device.Service | main.c:294-298 | one event, either a transfer followed by `Rx` or one `Stream`, computes exactly `Step` |
| Firmware.Device.MainLoop | main.c:294-298 | a finite run of the main loop computes exactly `Run` |

## Left out

- `led_blink` (main.c:73-87) is left out. It is timer and GPIO side effects with no effect on the protocol.
- The USB lifecycle callbacks (main.c:34-71 and 271-275) are left out. They only start and stop the SMC and print.
- The hardware set-up in `main` (main.c:277-292) is left out. The endless loop is modelled as `Run` and `MainLoop` over a finite sequence of events.
- The NAND and ISD1200 drivers are oracles. Their results come from `Env`, and reads are not logged as effects. Their internals are not part of this model.
- `reset_usb_boot` is a terminal `rebooted` flag. No firmware step does anything after it. Bytes the host sends afterwards are still appended to the model's FIFO and never read; the re-enumeration as the ROM bootloader is not modelled.
- `tud_cdc_write_flush` moves no bytes in the model and is left out.
- TinyUSB FIFO internals are left out.
  - The inbound FIFO is a sequence with peek, read-n and length.
  - The outbound channel is the sequence of all bytes written.
  - `tud_cdc_write_available()` is the `capacity` parameter of `Stream`.
  - When TinyUSB invokes the receive callback is not modelled beyond one callback per `Received` event. An event may carry any transfer, an empty one included. With too few bytes buffered, the callback does nothing.
- Firmware.Device.Write: appends its whole argument. `tud_cdc_write` can accept fewer bytes when the transmit FIFO is full, and `tud_cdc_rx_cb` ignores the count it returns. The model does not capture that truncation. `stream()` checks for room first and is not affected.
- Concurrency: there is none. There is one cooperative loop, and a USB callback runs only inside `tud_task`.
- Framing.Needed: on an empty FIFO, `tud_cdc_peek` leaves its byte uninitialised. The model takes no payload for that case. Every value gives a needed length of at least 5, which is more than the 0 bytes available, so the result is the same.
- StreamFacts.DeferralKeepsOutput: states that the output and cursor are equal, not the whole state. A call made without room can still close a session that has reached its limit, so the active flag can differ.
