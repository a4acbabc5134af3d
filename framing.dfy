/** The request wire format of `tud_cdc_rx_cb` (main.c): opcode constants,
    the packed `struct cmd` header, the opcode-dependent payload length
    derived from a one-byte look-ahead, and the framing of a complete
    request out of the inbound byte FIFO. */
module Framing {
  import opened Wire
  import opened Peripherals

  const GET_VERSION: byte := 0x00
  const GET_FLASH_CONFIG: byte := 0x01
  const READ_FLASH: byte := 0x02
  const WRITE_FLASH: byte := 0x03
  const READ_FLASH_STREAM: byte := 0x04
  const ISD1200_INIT: byte := 0xA0
  const ISD1200_DEINIT: byte := 0xA1
  const ISD1200_READ_ID: byte := 0xA2
  const ISD1200_READ_FLASH: byte := 0xA3
  const ISD1200_ERASE_FLASH: byte := 0xA4
  const ISD1200_WRITE_FLASH: byte := 0xA5
  const ISD1200_PLAY_VOICE: byte := 0xA6
  const ISD1200_EXEC_MACRO: byte := 0xA7
  const ISD1200_RESET: byte := 0xA8
  const REBOOT_TO_BOOTLOADER: byte := 0xFE

  /** `sizeof(struct cmd)` under `#pragma pack(1)`: one opcode byte and a
      four-byte `lba`. */
  const HeaderSize: nat := 5

  /** The opcodes the firmware recognises. */
  datatype Opcode =
    | GetVersion | GetFlashConfig | ReadFlash | WriteFlash | ReadFlashStream
    | Isd1200Init | Isd1200Deinit | Isd1200ReadId | Isd1200ReadFlash | Isd1200EraseFlash
    | Isd1200WriteFlash | Isd1200PlayVoice | Isd1200ExecMacro | Isd1200Reset
    | RebootToBootloader

  /** The wire value of each opcode. */
  function Code(k: Opcode): byte
  {
    match k
    case GetVersion => GET_VERSION
    case GetFlashConfig => GET_FLASH_CONFIG
    case ReadFlash => READ_FLASH
    case WriteFlash => WRITE_FLASH
    case ReadFlashStream => READ_FLASH_STREAM
    case Isd1200Init => ISD1200_INIT
    case Isd1200Deinit => ISD1200_DEINIT
    case Isd1200ReadId => ISD1200_READ_ID
    case Isd1200ReadFlash => ISD1200_READ_FLASH
    case Isd1200EraseFlash => ISD1200_ERASE_FLASH
    case Isd1200WriteFlash => ISD1200_WRITE_FLASH
    case Isd1200PlayVoice => ISD1200_PLAY_VOICE
    case Isd1200ExecMacro => ISD1200_EXEC_MACRO
    case Isd1200Reset => ISD1200_RESET
    case RebootToBootloader => REBOOT_TO_BOOTLOADER
  }

  /** The opcode a byte selects, or `None` for a byte no handler tests for. */
  function Classify(op: byte): (r: Option<Opcode>)
    ensures r.Some? ==> Code(r.value) == op
    ensures r.None? ==> forall k :: Code(k) != op
  {
    if op == GET_VERSION then Some(GetVersion)
    else if op == GET_FLASH_CONFIG then Some(GetFlashConfig)
    else if op == READ_FLASH then Some(ReadFlash)
    else if op == WRITE_FLASH then Some(WriteFlash)
    else if op == READ_FLASH_STREAM then Some(ReadFlashStream)
    else if op == ISD1200_INIT then Some(Isd1200Init)
    else if op == ISD1200_DEINIT then Some(Isd1200Deinit)
    else if op == ISD1200_READ_ID then Some(Isd1200ReadId)
    else if op == ISD1200_READ_FLASH then Some(Isd1200ReadFlash)
    else if op == ISD1200_ERASE_FLASH then Some(Isd1200EraseFlash)
    else if op == ISD1200_WRITE_FLASH then Some(Isd1200WriteFlash)
    else if op == ISD1200_PLAY_VOICE then Some(Isd1200PlayVoice)
    else if op == ISD1200_EXEC_MACRO then Some(Isd1200ExecMacro)
    else if op == ISD1200_RESET then Some(Isd1200Reset)
    else if op == REBOOT_TO_BOOTLOADER then Some(RebootToBootloader)
    else None
  }

  /** The opcode constants are pairwise distinct, so at most one handler's
      test can hold for a given opcode byte. */
  lemma CodesDistinct(j: Opcode, k: Opcode)
    requires Code(j) == Code(k)
    ensures j == k
  {
    var c := Classify(Code(j));
    assert c.Some?;
  }

  /** Classification undoes `Code`. */
  lemma ClassifyCode(k: Opcode)
    ensures Classify(Code(k)) == Some(k)
  {
    var c := Classify(Code(k));
    assert c.Some? && Code(c.value) == Code(k);
    CodesDistinct(c.value, k);
  }

  /** The packed `struct cmd` as the dispatcher sees it. */
  datatype Header = Header(op: byte, lba: u32)

  /** Reading `struct cmd` out of its five wire bytes. */
  function DecodeHeader(b: seq<byte>): Header
    requires |b| == HeaderSize
  {
    Header(b[0], FromLE32(b[1..5]))
  }

  /** The five wire bytes of a header, as a host lays them out. */
  function EncodeHeader(h: Header): (r: seq<byte>)
    ensures |r| == HeaderSize
  {
    [h.op] + LE32(h.lba)
  }

  lemma DecodeEncodeHeader(h: Header)
    ensures DecodeHeader(EncodeHeader(h)) == h
  {
    assert EncodeHeader(h)[1..5] == LE32(h.lba);
    FromLE32OfLE32(h.lba);
  }

  lemma EncodeDecodeHeader(b: seq<byte>)
    requires |b| == HeaderSize
    ensures EncodeHeader(DecodeHeader(b)) == b
  {
    LE32OfFromLE32(b[1..5]);
    assert b == [b[0]] + b[1..5];
  }

  /** Extra bytes that follow the header of a request with opcode byte `op`:
      a NAND page (data and spare, `0x210` bytes) for WRITE_FLASH, and one
      voice-chip chunk for ISD1200_WRITE_FLASH. */
  function PayloadSize(op: byte): nat
  {
    if op == WRITE_FLASH then SectorSize + SpareSize
    else if op == ISD1200_WRITE_FLASH then VoiceChunkSize
    else 0
  }

  /** `needed_data`: the length the request at the head of the FIFO needs,
      judged from its first byte alone. On an empty FIFO `tud_cdc_peek`
      reads nothing; any value there gives at least the header size, which
      is more than the zero bytes available, so the answer is the same. */
  function Needed(pending: seq<byte>): nat
  {
    HeaderSize + if |pending| == 0 then 0 else PayloadSize(pending[0])
  }

  /** The frame lengths the look-ahead yields. */
  lemma NeededLengths(pending: seq<byte>)
    ensures |pending| > 0 && pending[0] == WRITE_FLASH ==> Needed(pending) == 5 + 528
    ensures |pending| > 0 && pending[0] == ISD1200_WRITE_FLASH ==> Needed(pending) == 5 + 16
    ensures |pending| == 0 || pending[0] !in {WRITE_FLASH, ISD1200_WRITE_FLASH} ==> Needed(pending) == 5
  {
  }

  /** A complete request: header and the payload its opcode calls for. */
  datatype Frame = Frame(header: Header, payload: seq<byte>)

  predicate WellFormed(f: Frame)
  {
    |f.payload| == PayloadSize(f.header.op)
  }

  function EncodeFrame(f: Frame): seq<byte>
  {
    EncodeHeader(f.header) + f.payload
  }

  datatype Parsed = Waiting | Ready(frame: Frame, size: nat)

  /** Framing of the request at the head of the inbound FIFO: it is ready
      exactly when the look-ahead length is buffered, and then the bytes it
      takes are that frame's encoding. */
  function Parse(pending: seq<byte>): (p: Parsed)
    ensures p.Waiting? <==> |pending| < Needed(pending)
    ensures p.Ready? ==> WellFormed(p.frame) && p.size == Needed(pending)
    ensures p.Ready? ==> p.size <= |pending| && pending[..p.size] == EncodeFrame(p.frame)
  {
    var n := Needed(pending);
    if |pending| < n then Waiting
    else
      var header := pending[..HeaderSize];
      EncodeDecodeHeader(header);
      assert pending[..n] == header + pending[HeaderSize..n];
      Ready(Frame(DecodeHeader(header), pending[HeaderSize..n]), n)
  }

  /** A host that sends a well-formed frame, whatever follows it, has exactly
      that frame dispatched, and no byte of what follows is taken. */
  lemma ParseEncodedFrame(f: Frame, rest: seq<byte>)
    requires WellFormed(f)
    ensures Parse(EncodeFrame(f) + rest) == Ready(f, |EncodeFrame(f)|)
  {
    var pending := EncodeFrame(f) + rest;
    assert pending[..HeaderSize] == EncodeHeader(f.header);
    DecodeEncodeHeader(f.header);
    assert pending[HeaderSize..Needed(pending)] == f.payload;
  }

  /** Any strict prefix of a well-formed frame, such as one delivered in
      chunks that have not all arrived, is never dispatched. */
  lemma ParseWaitsOnPrefix(f: Frame, k: nat)
    requires WellFormed(f) && k < |EncodeFrame(f)|
    ensures Parse(EncodeFrame(f)[..k]) == Waiting
  {
    var prefix := EncodeFrame(f)[..k];
    if k > 0 {
      assert prefix[0] == f.header.op;
    }
  }
}
