/** The peripheral facades the dispatcher calls: the Xbox NAND driver
    (`xbox.h`) and the ISD1200 voice-chip driver (`isd1200.h`). Their
    internals are not part of this model. Whatever a call returns is an
    oracle value in `Env`, supplied afresh to every step; every call made
    for its side effect is recorded as an `Effect`. */
module Peripherals {
  import opened Wire

  /** Size of a NAND page's data area (`0x200`). */
  const SectorSize: nat := 0x200
  /** Size of a NAND page's spare area (`0x10`). */
  const SpareSize: nat := 0x10
  /** Size of one ISD1200 flash page returned by `isd1200_flash_read`. */
  const VoicePageSize: nat := 512
  /** Size of the block `isd1200_flash_write` takes. */
  const VoiceChunkSize: nat := 16

  type Sector = s: seq<byte> | |s| == SectorSize witness seq(SectorSize, _ => 0 as byte)
  type Spare = s: seq<byte> | |s| == SpareSize witness seq(SpareSize, _ => 0 as byte)
  type VoicePage = s: seq<byte> | |s| == VoicePageSize witness seq(VoicePageSize, _ => 0 as byte)
  type VoiceChunk = s: seq<byte> | |s| == VoiceChunkSize witness seq(VoiceChunkSize, _ => 0 as byte)

  /** What `xbox_nand_read_block` returns and writes into its two buffers.
      On a non-zero status the buffers hold whatever the driver left; the
      dispatcher never sends them in that case. */
  datatype NandRead = NandRead(status: u32, data: Sector, spare: Spare)

  /** The answers the peripherals give during one step. */
  datatype Env = Env(
    flashConfig: u32,                         // xbox_get_flash_config()
    readBlock: u32 -> NandRead,               // xbox_nand_read_block(lba, data, spare)
    writeBlock: (u32, Sector, Spare) -> u32,  // xbox_nand_write_block(lba, data, spare)
    voiceInitOk: bool,                        // isd1200_init()
    voiceId: byte,                            // isd1200_read_id()
    voiceRead: u32 -> VoicePage)              // isd1200_flash_read(addr, buffer)

  /** A peripheral call made for its side effect, in the order made. */
  datatype Effect =
    | NandWrite(lba: u32, data: Sector, spare: Spare)  // xbox_nand_write_block
    | VoiceInit                                        // isd1200_init
    | VoiceDeinit                                      // isd1200_deinit
    | VoiceErase                                       // isd1200_chip_erase
    | VoiceWrite(addr: u32, chunk: VoiceChunk)         // isd1200_flash_write
    | VoicePlay(index: u32)                            // isd1200_play_vp
    | VoiceExec(index: u32)                            // isd1200_exe_vm
    | VoiceReset                                       // isd1200_reset
}
