/**
 * Constants and integer widths of the PN532 driver.
 *
 * The opcodes, SPI operation bytes and frame bytes come from PN532.h, which is
 * not part of this model. They are declared here without a value: every
 * property of the model holds whatever value the header gives them. The two
 * exceptions are the preamble and the second start code, whose values the
 * PN532 frame layout (NXP UM0701-02, section 6.2.1.1) and the acknowledgement
 * frame of PN532.cpp fix as 0x00 and 0xFF.
 */
module Pn532Header {
  /** uint8_t (the source's byte), uint16_t and uint32_t. */
  type byte = x: int | 0 <= x < 0x100
  type uint16 = x: int | 0 <= x < 0x1_0000
  type uint32 = x: int | 0 <= x < 0x1_0000_0000

  // Frame bytes.
  const PN532_PREAMBLE: byte := 0x00
  const PN532_STARTCODE2: byte := 0xFF
  const PN532_POSTAMBLE: byte
  const PN532_HOSTTOPN532: byte

  // SPI operation bytes: the first byte of every SPI transaction.
  const PN532_SPI_STATREAD: byte
  const PN532_SPI_DATAWRITE: byte
  const PN532_SPI_DATAREAD: byte
  /** The status byte that says the chip has an answer ready. */
  const PN532_SPI_READY: byte

  // Command opcodes.
  const PN532_FIRMWAREVERSION: byte
  const PN532_SAMCONFIGURATION: byte
  const PN532_INLISTPASSIVETARGET: byte
  const PN532_INDATAEXCHANGE: byte
  const PN532_INJUMPFORDEP: byte
  const PN532_TGINITASTARGET: byte
  const PN532_TGGETDATA: byte
  const PN532_TGSETDATA: byte
  const PN532_READREGISTER: byte
  const PN532_WRITEREGISTER: byte

  // MIFARE commands carried by InDataExchange.
  const PN532_MIFARE_READ: byte
  const PN532_MIFARE_WRITE: byte
  const PN532_AUTH_WITH_KEYA: byte
  const PN532_AUTH_WITH_KEYB: byte
  /** The key-type selector that asks for key A. */
  const KEY_A: byte

  /** Conversion of an int to uint8_t: reduction modulo 256. */
  function Byte(x: int): byte
  {
    x % 0x100
  }

  /** The conversion of 256 m + r is r when 0 <= r < 256. */
  lemma ByteOfMultiple(x: int, m: int, r: int)
    requires x == 0x100 * m + r && 0 <= r < 0x100
    ensures Byte(x) == r
  {
  }

  /** Reducing the first operand of a sum first gives the same byte. */
  lemma ReduceFirst(a: int, b: int)
    ensures Byte(Byte(a) + b) == Byte(a + b)
  {
    ByteOfMultiple(Byte(a) + b, (a + b) / 0x100 - a / 0x100, Byte(a + b));
  }

  /** Reducing the second operand of a sum first gives the same byte. */
  lemma ReduceSecond(a: int, b: int)
    ensures Byte(a + Byte(b)) == Byte(a + b)
  {
    ByteOfMultiple(a + Byte(b), (a + b) / 0x100 - b / 0x100, Byte(a + b));
  }

  /** Reducing the subtrahend of a difference first gives the same byte. */
  lemma ReduceSubtrahend(a: int, b: int)
    ensures Byte(a - Byte(b)) == Byte(a - b)
  {
    ByteOfMultiple(a - Byte(b), (a - b) / 0x100 + b / 0x100, Byte(a - b));
  }

  /** ~x of a byte, converted back to uint8_t. */
  function Not(x: byte): byte
  {
    Byte(-(x as int) - 1)
  }

  /** Size of the shared packet buffer. */
  const PN532_PACKBUFFSIZ: nat := 64

  /** The ready-wait budget every catalogue command uses: one second, in milliseconds. */
  const DEFAULT_TIMEOUT: uint16 := 1000

  /** The acknowledgement frame the host compares against. */
  const PN532_ACK: seq<byte> := [0x00, 0x00, 0xFF, 0x00, 0xFF, 0x00]

  /** The first six bytes expected in the answer to GetFirmwareVersion. */
  const PN532_FIRMWARE_SIGNATURE: seq<byte> := [0x00, 0xFF, 0x06, 0xFA, 0xD5, 0x03]
}
