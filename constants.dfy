/** The PN532 constants the driver uses: frame markers and frame identifiers
    (NXP PN532 User Manual UM0701-02, section 6.2.1), the SPI command bytes,
    command opcodes, InListPassiveTarget baud codes, and the driver's own
    status codes. */
module Constants {
  import opened Bytes

  // frame markers
  const PREAMBLE: byte := 0x00
  const STARTCODE1: byte := 0x00
  const STARTCODE2: byte := 0xFF
  const POSTAMBLE: byte := 0x00

  // frame identifiers (TFI): host to PN532 and PN532 to host
  const HOSTTOPN532: byte := 0xD4
  const PN532TOHOST: byte := 0xD5

  /** The ACK frame the chip sends after accepting a command; the host sends it to abort. */
  const ACK_FRAME: seq<byte> := [0x00, 0x00, 0xFF, 0x00, 0xFF, 0x00]
  const ACK_LEN: nat := 6

  // SPI protocol bytes
  const SPI_STATUSREAD: byte := 0x02
  const SPI_DATAWRITE: byte := 0x01
  const SPI_DATAREAD: byte := 0x03
  const SPI_READY: byte := 0x01
  /** Milliseconds between two status polls. */
  const SPI_STATUSPOLLINTERVAL: nat := 5

  // the commands the driver issues
  const COMMAND_GETFIRMWAREVERSION: byte := 0x02
  const COMMAND_SAMCONFIGURATION: byte := 0x14
  const COMMAND_POWERDOWN: byte := 0x16
  const COMMAND_INLISTPASSIVETARGET: byte := 0x4A

  // power down and wake up
  const POWERDOWN_WAKEFROM_SPI: byte := 0x20
  const POWERDOWN_NO_IRQ: byte := 0x00
  /** Milliseconds to let the chip settle after PowerDown succeeds. */
  const POWERDOWN_DELAY: nat := 1
  /** Milliseconds to hold chip-select asserted to wake the chip. */
  const WAKE_DELAY: nat := 2

  // baud codes for InListPassiveTarget
  const ISO14443A_BAUD: byte := 0x00
  const FELICA_212_BAUD: byte := 0x01
  const FELICA_424_BAUD: byte := 0x02
  const ISO14443B_BAUD: byte := 0x03
  const INNOVISION_JEWEL_BAUD: byte := 0x04

  // status codes: SUCCESS is 0 so that `if (status)` means failure
  const SUCCESS: byte := 0
  const ERR_BAD_PREAMBLE: byte := 1
  const ERR_BAD_PACKET_START: byte := 2
  const ERR_EMPTY_PACKET: byte := 3
  const ERR_EMPTY_RESPONSE: byte := 4
  const ERR_BAD_LENGTH_CHECKSUM: byte := 5
  const ERR_LONG_RESPONSE: byte := 6
  const ERR_BAD_DATA_CHECKSUM: byte := 7
  const ERR_BAD_TFI: byte := 8
  const ERR_BAD_POSTAMBLE: byte := 9
  const ERR_ACK_TIMEOUT: byte := 10
  const ERR_NO_COMMAND_ACK: byte := 11
  const ERR_RESPONSE_TIMEOUT: byte := 12
  const ERR_WRONG_COMMAND_RESPONSE: byte := 13

  /** The codes the frame decoder can return. */
  predicate IsDecodeError(code: byte) {
    ERR_BAD_PREAMBLE <= code <= ERR_BAD_POSTAMBLE
  }

  /** Every code a command exchange can return other than SUCCESS. */
  predicate IsError(code: byte) {
    ERR_BAD_PREAMBLE <= code <= ERR_WRONG_COMMAND_RESPONSE
  }
}
