# PN532 host driver over software SPI

A model of the host side of the PN532 NFC controller driver in
`mfocuino-read-only/nfcreader/arduino/libraries/PN532/PN532.cpp`. The driver
talks to the chip over a bit-banged SPI link. It frames commands in the
normal information frame of the NXP PN532 User Manual (UM0701-02, section
6.2.1.1), waits for the chip's ready status, reads and tests the
acknowledgement, and reads fixed-size answers back into a shared 64-byte
packet buffer.

The chip is replaced by two byte transcripts kept in the driver object:
- `sent`: every byte the chip has shifted in from MOSI;
- `incoming`: the bytes the chip has yet to shift out on MISO.

The line levels `ss`, `clk`, `mosi` and `miso` are fields too. Everything
above the bit link works on bytes, as integers in 0..255 with every uint8_t,
uint16_t and uint32_t wrap-around written out.

The files are organised as follows:
- `header.dfy`: widths, constants and the mod-256 lemmas.
- `bitlink.dfy`: the LSB-first bit link and its round trips.
- `framing.dfy`: the frame the host builds, a reference frame parser, and the answer-length rule.
- `cstring.dfy`: `strncmp`.
- `handshake.dfy`: the ready-waits and the acknowledgement as functions of the chip's answer.
- `responses.dfy`: the decoders and the buffer-store algebra `Over`.
- `catalogue.dfy`: payloads, requests and result decoders of the command catalogue.
- `driver.dfy`: the class `Pn532` with the imperative operations, each proved against those functions.

Two behaviours of the code are modelled as written:
- In its fallback branch, `readRawCommandAnswer` writes a 0x00 byte and then only the first `size - 1` bytes of the buffer.
- The firmware-signature test, like the ack test, compares with `strncmp`. Both constants begin with 0x00, so each test looks at byte 0 only.

## Model

| member | source | states |
|---|---|---|
| BitLink.BitSet | mfocuino-read-only/nfcreader/arduino/libraries/PN532/PN532.cpp:708-711 | defines the test c & _BV(i) != 0 on a uint8_t |
| BitLink.BitsOf | mfocuino-read-only/nfcreader/arduino/libraries/PN532/PN532.cpp:706-714 | defines the eight MOSI levels spiwrite drives for c, bit i in clock cycle i |
| BitLink.ReadWhatWasWritten | mfocuino-read-only/nfcreader/arduino/libraries/PN532/PN532.cpp:702-729 | the eight LSB-first levels spiwrite drives for c, assembled by spiread's rule, give back c |
| BitLink.WriteWhatWasRead | mfocuino-read-only/nfcreader/arduino/libraries/PN532/PN532.cpp:702-729 | eight sampled levels make a byte below 256 that spiwrite drives as the same eight levels |
| BitLink.ValueOfBits | mfocuino-read-only/nfcreader/arduino/libraries/PN532/PN532.cpp:709-711 | every c < 2^n is the sum of _BV(i) over its set bits i < n |
| BitLink.BitsOfValue | mfocuino-read-only/nfcreader/arduino/libraries/PN532/PN532.cpp:723-726 | the bits of a value assembled from samples are those samples |
| BitLink.ByteOfFront | mfocuino-read-only/nfcreader/arduino/libraries/PN532/PN532.cpp:722-728 | the assembled value is the first sample plus twice the value of the rest |
| BitLink.ByteOf | mfocuino-read-only/nfcreader/arduino/libraries/PN532/PN532.cpp:722-728 | the value spiread assembles from n samples is below 2^n |
| Driver.Pn532.SpiWrite | mfocuino-read-only/nfcreader/arduino/libraries/PN532/PN532.cpp:702-715 | the clock ends HIGH; the chip has received exactly c; no other line or transcript changes |
| Driver.Pn532.SpiRead | mfocuino-read-only/nfcreader/arduino/libraries/PN532/PN532.cpp:717-729 | returns exactly the next byte the chip shifts out, and consumes it |
| Framing.Checksum | mfocuino-read-only/nfcreader/arduino/libraries/PN532/PN532.cpp:661-684 | defines the running uint8_t checksum: PREAMBLE + PREAMBLE + STARTCODE2, plus TFI, plus each body byte |
| Framing.BodyLength | mfocuino-read-only/nfcreader/arduino/libraries/PN532/PN532.cpp:651-682 | defines how many command bytes are sent: cmdlen, or none when cmdlen = 255 wraps LEN to 0 |
| Framing.LengthChecksum | mfocuino-read-only/nfcreader/arduino/libraries/PN532/PN532.cpp:667-668 | defines LCS as ~LEN + 1 converted to uint8_t |
| Framing.DataChecksum | mfocuino-read-only/nfcreader/arduino/libraries/PN532/PN532.cpp:689-690 | defines DCS as the complement of the running checksum |
| Framing.Frame | mfocuino-read-only/nfcreader/arduino/libraries/PN532/PN532.cpp:661-691 | defines the frame bytes in wire order: 00 00 FF LEN LCS TFI body DCS POSTAMBLE |
| Framing.CommandFrame | mfocuino-read-only/nfcreader/arduino/libraries/PN532/PN532.cpp:648-699 | defines the frame spiwritecommand sends for cmd and cmdlen: LEN = cmdlen + 1 as a uint8_t, TFI = host-to-PN532 |
| Framing.CommandFrameRoundTrip | mfocuino-read-only/nfcreader/arduino/libraries/PN532/PN532.cpp:648-699 | for cmdlen <= 254: cmdlen+8 frame bytes in the documented layout, the command bytes unchanged, and the frame parser gives them back |
| Framing.FrameChecksums | mfocuino-read-only/nfcreader/arduino/libraries/PN532/PN532.cpp:661-690 | LEN + LCS = 0 and TFI + sum of body + DCS = 0 (mod 256) in every frame the host builds |
| Framing.FrameRoundTrip | mfocuino-read-only/nfcreader/arduino/libraries/PN532/PN532.cpp:661-690 | the frame parser accepts every frame with a consistent LEN and returns its body |
| Framing.ParsedFrameIsEncoded | mfocuino-read-only/nfcreader/arduino/libraries/PN532/PN532.cpp:661-690 | every frame the parser accepts is the one the host's encoder would build for its body |
| Framing.LongestCommandIsMalformed | mfocuino-read-only/nfcreader/arduino/libraries/PN532/PN532.cpp:651-682 | cmdlen = 255 wraps LEN to 0, sends no command byte, and the parser refuses the frame |
| Framing.BodyLengthFromLen | mfocuino-read-only/nfcreader/arduino/libraries/PN532/PN532.cpp:651-682 | the loop bound LEN-1, in int arithmetic, counts the body bytes (-1 when LEN wrapped) |
| Framing.ChecksumSnoc | mfocuino-read-only/nfcreader/arduino/libraries/PN532/PN532.cpp:684 | each body byte is one more uint8_t addition to the checksum |
| Framing.CommandFrameOfPrefix | mfocuino-read-only/nfcreader/arduino/libraries/PN532/PN532.cpp:682-688 | the frame depends only on the first cmdlen bytes of cmd |
| Framing.AnswerLength | mfocuino-read-only/nfcreader/arduino/libraries/PN532/PN532.cpp:619-625 | defines n = 5 + LEN + 2 as a uint8_t, LEN from byte 3, or from byte 2 when byte 2 is not 0xFF |
| Framing.AnswerLengthOfFrame | mfocuino-read-only/nfcreader/arduino/libraries/PN532/PN532.cpp:619-624 | for LEN <= 248 the length rule gives the frame's length, whether or not the leading null arrived |
| Driver.Pn532.SpiWriteCommand | mfocuino-read-only/nfcreader/arduino/libraries/PN532/PN532.cpp:648-699 | appends the data-write byte and the command frame of cmd[..cmdlen]; SS ends HIGH; reads nothing |
| Driver.Pn532.WriteFrameHead | mfocuino-read-only/nfcreader/arduino/libraries/PN532/PN532.cpp:661-671 | sends preamble, preamble, start code, LEN, ~LEN+1, TFI; the checksum holds the start bytes plus TFI |
| Driver.Pn532.WriteBody | mfocuino-read-only/nfcreader/arduino/libraries/PN532/PN532.cpp:682-688 | sends cmd[..n] in order and returns the checksum of TFI and those bytes |
| Driver.Pn532.SpiWriteRaw | mfocuino-read-only/nfcreader/arduino/libraries/PN532/PN532.cpp:635-646 | appends the data-write byte and raw[..cmdlen] unframed; SS ends HIGH |
| Driver.Pn532.ReadSpiStatus | mfocuino-read-only/nfcreader/arduino/libraries/PN532/PN532.cpp:586-595 | sends the status-read byte and returns the next chip byte; SS ends HIGH |
| Driver.Pn532.ReadInto | mfocuino-read-only/nfcreader/arduino/libraries/PN532/PN532.cpp:597-633 | for i from `from` while i < to, buff[i] gets the next chip byte; the rest of buff is untouched |
| Driver.Pn532.ReadSpiData | mfocuino-read-only/nfcreader/arduino/libraries/PN532/PN532.cpp:597-608 | sends the data-read byte and stores exactly the next n chip bytes at buff[..n] |
| Driver.Pn532.ReadSpiDataAnswer | mfocuino-read-only/nfcreader/arduino/libraries/PN532/PN532.cpp:610-633 | n = 7 + LEN (LEN from byte 3, or byte 2 without the leading null) mod 256; stores exactly max(n, 5) chip bytes |
| Responses.AnswerCount | mfocuino-read-only/nfcreader/arduino/libraries/PN532/PN532.cpp:615-630 | defines how many bytes readspidataAnswer stores: max(n, 5), n from the length rule |
| Responses.RawAnswer | mfocuino-read-only/nfcreader/arduino/libraries/PN532/PN532.cpp:202-215 | defines the bytes readRawCommandAnswer forwards: the length rule applied to the answer, then the forwarding selection over the buffer that holds it |
| Responses.RawAnswerForwardsFrame | mfocuino-read-only/nfcreader/arduino/libraries/PN532/PN532.cpp:202-217 | a chip frame with LEN <= 57 is forwarded unchanged, whole or with its leading null lost |
| Responses.RawForward | mfocuino-read-only/nfcreader/arduino/libraries/PN532/PN532.cpp:205-215 | defines the forwarded bytes: buffer[..n] after two nulls, else 0x00 then buffer[..n-1] |
| Driver.Pn532.ReadRawCommandAnswer | mfocuino-read-only/nfcreader/arduino/libraries/PN532/PN532.cpp:202-217 | forwards buffer[..n] when bytes 0 and 1 are null, else 0x00 then buffer[..n-1] |
| CString.StrNCmp | mfocuino-read-only/nfcreader/arduino/libraries/PN532/PN532.cpp:113-115 | defines strncmp on unsigned bytes: the difference of the first differing bytes among the first n, 0 at a shared NUL or after n bytes |
| CString.StrNCmpEqual | mfocuino-read-only/nfcreader/arduino/libraries/PN532/PN532.cpp:572-578 | strncmp reports equality exactly when the bytes agree up to n and up to the first NUL |
| CString.LeadingNulCollapse | mfocuino-read-only/nfcreader/arduino/libraries/PN532/PN532.cpp:17-18 | against a constant starting with NUL, strncmp looks at byte 0 only |
| CString.AckTestOnlyReadsByteZero | mfocuino-read-only/nfcreader/arduino/libraries/PN532/PN532.cpp:572-578 | the ack test passes exactly when the first byte read is 0x00 |
| CString.SignatureTestOnlyReadsByteZero | mfocuino-read-only/nfcreader/arduino/libraries/PN532/PN532.cpp:113 | the firmware-signature test passes exactly when buffer byte 0 is 0x00 |
| Driver.Pn532.SpiReadAck | mfocuino-read-only/nfcreader/arduino/libraries/PN532/PN532.cpp:572-578 | reads six bytes; true exactly when strncmp matches them with the ack frame |
| Driver.Pn532.SpiReadAckInto | mfocuino-read-only/nfcreader/arduino/libraries/PN532/PN532.cpp:580-582 | stores the next six chip bytes at ack[..6], untested |
| Handshake.ReadyWait | mfocuino-read-only/nfcreader/arduino/libraries/PN532/PN532.cpp:151-160 | defines one ready-wait with the uint16_t timer reset to 0 |
| Handshake.AckOk | mfocuino-read-only/nfcreader/arduino/libraries/PN532/PN532.cpp:572-578 | defines the ack test strncmp(ack, pn532ack, 6) == 0 |
| Handshake.Transact | mfocuino-read-only/nfcreader/arduino/libraries/PN532/PN532.cpp:130-163 | defines the handshake over the chip answer: first wait, six ack bytes (tested or not), second wait with a fresh timer |
| Handshake.RawCode | mfocuino-read-only/nfcreader/arduino/libraries/PN532/PN532.cpp:166-200 | defines the raw result codes: 0xF1 for the first wait giving up, 0xF2 for the second, 0 otherwise |
| Handshake.WaitFrom | mfocuino-read-only/nfcreader/arduino/libraries/PN532/PN532.cpp:137-144 | a wait that ends reads between 1 and the available status bytes |
| Handshake.WaitShape | mfocuino-read-only/nfcreader/arduino/libraries/PN532/PN532.cpp:137-144 | all status bytes of a wait but the last are not ready; the last decides |
| Handshake.WaitBudget | mfocuino-read-only/nfcreader/arduino/libraries/PN532/PN532.cpp:131-144 | for 1 <= timeout <= 65529 a wait gives up after exactly timeout/10 + 1 not-ready statuses, and always then |
| Handshake.BudgetFrom | mfocuino-read-only/nfcreader/arduino/libraries/PN532/PN532.cpp:137-144 | the same budget for a wait entered with the timer at 10 j |
| Handshake.WaitNeverGivesUp | mfocuino-read-only/nfcreader/arduino/libraries/PN532/PN532.cpp:131-141 | with timeout 0 or >= 65534 the uint16_t timer never exceeds it: the wait ends only on ready |
| Handshake.NoExpiryFrom | mfocuino-read-only/nfcreader/arduino/libraries/PN532/PN532.cpp:139-141 | the same for any even starting timer |
| Handshake.TransactOutcome | mfocuino-read-only/nfcreader/arduino/libraries/PN532/PN532.cpp:130-163 | acknowledged iff first wait ready, ack byte 0 is 0x00 and the second wait, with a reset timer, is ready; an ack failure skips the second wait |
| Handshake.RawHandshakeCodes | mfocuino-read-only/nfcreader/arduino/libraries/PN532/PN532.cpp:166-200 | 0xF1 iff the first wait gives up, 0xF2 iff the second does, 0 iff both see ready; the ack is read whatever it holds |
| Driver.Pn532.WaitReady | mfocuino-read-only/nfcreader/arduino/libraries/PN532/PN532.cpp:137-160 | returns whether the wait saw ready and sends one status-read byte per status byte the wait reads |
| Driver.Pn532.SendCommandCheckAck | mfocuino-read-only/nfcreader/arduino/libraries/PN532/PN532.cpp:130-163 | true exactly when the handshake is acknowledged; sends the frame then one op byte per SPI transaction of the handshake |
| Driver.Pn532.SendRawCommandCheckAck | mfocuino-read-only/nfcreader/arduino/libraries/PN532/PN532.cpp:166-200 | returns 0xF1, 0xF2 or 0 as the untested handshake ends, with the six ack bytes it read |
| Catalogue.RequestBytes | mfocuino-read-only/nfcreader/arduino/libraries/PN532/PN532.cpp:130-163 | defines the bytes the host sends for a catalogue request: the data-write byte and framed payload, the handshake's operation bytes, and the data-read byte when acknowledged |
| Catalogue.Staged | mfocuino-read-only/nfcreader/arduino/libraries/PN532/PN532.cpp:225-229 | defines the packet buffer after a catalogue request: the payload stored at its start, then the response read over it |
| Catalogue.Request | mfocuino-read-only/nfcreader/arduino/libraries/PN532/PN532.cpp:102-567 | a catalogue request is the acknowledged handshake at the one-second timeout, then a k-byte read only when acknowledged |
| Catalogue.RequestAcceptance | mfocuino-read-only/nfcreader/arduino/libraries/PN532/PN532.cpp:130-163 | a request is accepted exactly when both waits see ready and ack byte 0 is 0x00; only then k bytes are read |
| Driver.Pn532.Issue | mfocuino-read-only/nfcreader/arduino/libraries/PN532/PN532.cpp:225-229 | sendCommandCheckAck of the staged payload, then readspidata of k bytes when acknowledged |
| Driver.Pn532.StageAt | mfocuino-read-only/nfcreader/arduino/libraries/PN532/PN532.cpp:270-272 | stores src at buffer[at..] byte by byte; the rest of the buffer is untouched |
| Driver.Pn532.CopyOut | mfocuino-read-only/nfcreader/arduino/libraries/PN532/PN532.cpp:290-292 | dst[..16] gets buffer[8..24]; the rest of dst is untouched |
| Driver.Pn532.Begin | mfocuino-read-only/nfcreader/arduino/libraries/PN532/PN532.cpp:90-100 | sends the FirmwareVersion frame and runs the handshake, ignoring its outcome |
| Responses.ShiftIn | mfocuino-read-only/nfcreader/arduino/libraries/PN532/PN532.cpp:117-123 | defines the uint32_t accumulation x = (x << 8) \| b over a byte sequence |
| Responses.FirmwareVersion | mfocuino-read-only/nfcreader/arduino/libraries/PN532/PN532.cpp:117-123 | defines the version as the uint32_t fold of answer bytes 6..9 |
| Catalogue.FirmwareAnswer | mfocuino-read-only/nfcreader/arduino/libraries/PN532/PN532.cpp:102-126 | non-zero only when acknowledged with byte 0 = 0x00; then b6<<24 \| b7<<16 \| b8<<8 \| b9 |
| Responses.FirmwareVersionValue | mfocuino-read-only/nfcreader/arduino/libraries/PN532/PN532.cpp:117-123 | the shifted-in version is bytes 6..9 big-endian, nothing lost |
| Driver.Pn532.GetFirmwareVersion | mfocuino-read-only/nfcreader/arduino/libraries/PN532/PN532.cpp:102-126 | returns the firmware answer of its 12-byte request |
| Catalogue.SAM_CONFIG_PAYLOAD | mfocuino-read-only/nfcreader/arduino/libraries/PN532/PN532.cpp:220-223 | defines the SAMConfiguration payload: normal mode, timeout 0x14, use the IRQ pin |
| Driver.Pn532.SamConfig | mfocuino-read-only/nfcreader/arduino/libraries/PN532/PN532.cpp:219-232 | true exactly when acknowledged with answer byte 5 = 0x15 |
| Catalogue.InitiatorPayload | mfocuino-read-only/nfcreader/arduino/libraries/PN532/PN532.cpp:236-246 | defines the nine InJumpForDEP bytes: active mode, baudrate, the polling request as optional payload |
| Driver.Pn532.ConfigurePeerAsInitiator | mfocuino-read-only/nfcreader/arduino/libraries/PN532/PN532.cpp:234-265 | stages the 9-byte InJumpForDEP payload; true exactly when acknowledged with byte 7 = 0 |
| Driver.Pn532.StageInitiator | mfocuino-read-only/nfcreader/arduino/libraries/PN532/PN532.cpp:236-246 | the nine assignments store the InJumpForDEP payload at buffer[..9] |
| Catalogue.ExchangePayload | mfocuino-read-only/nfcreader/arduino/libraries/PN532/PN532.cpp:268-273 | defines InDataExchange to target 1 of the 16 bytes of dataOut |
| Driver.Pn532.InitiatorTxRx | mfocuino-read-only/nfcreader/arduino/libraries/PN532/PN532.cpp:267-295 | sends the 16 data bytes; when acknowledged copies answer bytes 8..23 into dataIn; true exactly when acknowledged with byte 7 = 0 |
| Catalogue.TARGET_TEMPLATE | mfocuino-read-only/nfcreader/arduino/libraries/PN532/PN532.cpp:299-313 | defines the 38-byte TgInitAsTarget payload |
| Driver.Pn532.ConfigurePeerAsTarget | mfocuino-read-only/nfcreader/arduino/libraries/PN532/PN532.cpp:297-336 | stages the 38-byte template; true exactly when acknowledged with byte 23 = 0 |
| Driver.Pn532.TargetTxRx | mfocuino-read-only/nfcreader/arduino/libraries/PN532/PN532.cpp:338-385 | receive leg, then the send leg only when byte 7 = 0; None where the source falls off its end |
| Catalogue.SetDataPayload | mfocuino-read-only/nfcreader/arduino/libraries/PN532/PN532.cpp:362-365 | defines TgSetData of the 16 bytes of dataOut |
| Driver.Pn532.TargetSend | mfocuino-read-only/nfcreader/arduino/libraries/PN532/PN532.cpp:363-382 | stages TgSetData of dataOut; true exactly when acknowledged with byte 7 = 0 |
| Catalogue.CidBytes | mfocuino-read-only/nfcreader/arduino/libraries/PN532/PN532.cpp:404-407 | defines the four bytes (cid >> 24) & 0xFF down to cid & 0xFF |
| Catalogue.KeyCommand | mfocuino-read-only/nfcreader/arduino/libraries/PN532/PN532.cpp:390-394 | defines the key command: key A for KEY_A, key B for any other key type |
| Catalogue.AuthPayload | mfocuino-read-only/nfcreader/arduino/libraries/PN532/PN532.cpp:388-407 | defines the authentication payload: InDataExchange, card, key command, block, six key bytes, card id |
| Catalogue.AuthPayloadLayout | mfocuino-read-only/nfcreader/arduino/libraries/PN532/PN532.cpp:388-407 | the key command at byte 2 follows the key type, the key sits at bytes 4..9, and bytes 10..13 read big-endian (or folded) give cid back |
| Catalogue.CidBytesRoundTrip | mfocuino-read-only/nfcreader/arduino/libraries/PN532/PN532.cpp:404-407 | the four bytes (cid >> 24..0) & 0xFF, read big-endian or shifted in, give cid back |
| Catalogue.ShiftInThenCidBytes | mfocuino-read-only/nfcreader/arduino/libraries/PN532/PN532.cpp:404-407 | a 4-byte identifier folded then split gives back the same four bytes |
| Driver.Pn532.StageAuth | mfocuino-read-only/nfcreader/arduino/libraries/PN532/PN532.cpp:388-407 | the fourteen assignments store the authentication payload at buffer[..14] |
| Responses.MifareOk | mfocuino-read-only/nfcreader/arduino/libraries/PN532/PN532.cpp:430 | defines the MIFARE status test: answer bytes 6, 7 are 0x41, 0x00 |
| Driver.Pn532.AuthenticateBlock | mfocuino-read-only/nfcreader/arduino/libraries/PN532/PN532.cpp:387-436 | true exactly when acknowledged with status bytes 6, 7 = 0x41, 0x00 |
| Catalogue.ReadBlockPayload | mfocuino-read-only/nfcreader/arduino/libraries/PN532/PN532.cpp:439-442 | defines InDataExchange to card of a MIFARE read of block |
| Driver.Pn532.ReadMemoryBlock | mfocuino-read-only/nfcreader/arduino/libraries/PN532/PN532.cpp:438-467 | when acknowledged copies answer bytes 8..23 into block whatever the status; block untouched otherwise; true iff acknowledged with 0x41, 0x00 |
| Catalogue.WriteBlockPayload | mfocuino-read-only/nfcreader/arduino/libraries/PN532/PN532.cpp:471-478 | defines InDataExchange to card of a MIFARE write of 16 data bytes to block |
| Driver.Pn532.WriteMemoryBlock | mfocuino-read-only/nfcreader/arduino/libraries/PN532/PN532.cpp:470-498 | stages the 20-byte write payload; true exactly when acknowledged with 0x41, 0x00 |
| Catalogue.ListPayload | mfocuino-read-only/nfcreader/arduino/libraries/PN532/PN532.cpp:503-505 | defines InListPassiveTarget of at most one target at baudrate |
| Catalogue.PassiveTargetAnswer | mfocuino-read-only/nfcreader/arduino/libraries/PN532/PN532.cpp:500-537 | 0 unless acknowledged with one target listed; then the last min(L, 4) id bytes big-endian |
| Responses.ShiftInKeepsLastFour | mfocuino-read-only/nfcreader/arduino/libraries/PN532/PN532.cpp:524-526 | the uint32_t fold of L bytes is their big-endian value for L <= 4 and keeps only the last four for L > 4 |
| Responses.TargetId | mfocuino-read-only/nfcreader/arduino/libraries/PN532/PN532.cpp:523-527 | defines the identifier as the uint32_t fold of the L = buffer[12] bytes from buffer[13] |
| Catalogue.FreshTargetId | mfocuino-read-only/nfcreader/arduino/libraries/PN532/PN532.cpp:511-526 | with L <= 7 the identifier depends on the 20 fresh bytes alone |
| Driver.Pn532.FoldId | mfocuino-read-only/nfcreader/arduino/libraries/PN532/PN532.cpp:523-528 | the loop computes the fold of buffer[13..13+L] |
| Driver.Pn532.ReadPassiveTargetId | mfocuino-read-only/nfcreader/arduino/libraries/PN532/PN532.cpp:500-537 | returns the passive-target answer over the buffer after its 20-byte request |
| Catalogue.AddressBytes | mfocuino-read-only/nfcreader/arduino/libraries/PN532/PN532.cpp:545-546 | defines the address bytes address >> 8 and address & 0xff |
| Catalogue.ReadRegisterPayload | mfocuino-read-only/nfcreader/arduino/libraries/PN532/PN532.cpp:544-546 | defines ReadRegister of one 16-bit address |
| Catalogue.WriteRegisterPayload | mfocuino-read-only/nfcreader/arduino/libraries/PN532/PN532.cpp:558-561 | defines WriteRegister of value to one 16-bit address |
| Catalogue.AddressBytesRoundTrip | mfocuino-read-only/nfcreader/arduino/libraries/PN532/PN532.cpp:545-546 | address >> 8 and address & 0xff are the address big-endian, both ways |
| Driver.Pn532.ReadRegister | mfocuino-read-only/nfcreader/arduino/libraries/PN532/PN532.cpp:543-555 | when acknowledged value[0] gets answer byte 0 and the result is true; otherwise false with value untouched |
| Driver.Pn532.WriteRegister | mfocuino-read-only/nfcreader/arduino/libraries/PN532/PN532.cpp:557-567 | stages address and value; true exactly when the handshake is acknowledged; nothing read back |
| Driver.Pn532.constructor | mfocuino-read-only/nfcreader/arduino/libraries/PN532/PN532.cpp:20-21 | a zeroed 64-byte packet buffer, as the global is at program start; nothing sent yet; the chip will answer with `answer` |

## Left out

- Pins and timing: `pinMode`, every `delay()` and the real-time meaning of the timeout. Only the `timer` counter is modelled.
- Console output: `PrintHex`, `PrintHexChar` and its call in `authenticateBlock`, every `PN532DEBUG` block, and the `Serial.print` calls in `readPassiveTargetID`. The `sens_res` value built there only feeds a print and is not modelled.
- `Serial.write` forwarding: `SendRawCommandCheckAck` returns the six ack bytes and `ReadRawCommandAnswer` returns the forwarded bytes instead of writing them.
- `initiatorSelectPassiveTarget`: a stub that returns 0.
- The chip is an input transcript of finite length. Each operation requires the transcript to hold every byte it will read. A ready-wait that never ends in the source (timeout 0 or >= 65534 and a chip that is never ready) is outside the model.
- `PN532.h` is not part of this model. Its opcodes, SPI operation bytes, TFI, POSTAMBLE, PN532_SPI_READY and KEY_A are constants without a value, and every property holds for any value. PREAMBLE = 0x00 and STARTCODE2 = 0xFF are fixed, as UM0701-02 and the ack frame in the source give them.
- Results of type uint32_t or boolean that are only ever 0 or 1 are modelled as bool.
- Catalogue.Request: every catalogue function calls `sendCommandCheckAck` without a timeout, so the default argument declared in `PN532.h` applies. It is taken as 1000, from the comment "default timeout of one second" (PN532.cpp line 129) and the 10 ms step of the wait loop; it is the constant DEFAULT_TIMEOUT. The handshake functions and SendCommandCheckAck take the timeout as a parameter.
- Driver.Pn532.constructor: the packet buffer is a file-scope global in the source (PN532.cpp lines 20-21), zeroed once at program start and shared by every PN532 object. The model makes it a field of each driver object, zeroed when the object is made. Bytes left in the buffer by an earlier command of another object, which `readPassiveTargetID` folds when L > 7, are not modelled across objects.
- Driver.Pn532.SpiRead: the `int8_t x` of the source is modelled as the unsigned byte returned. `x |= _BV(i)` is modelled as adding _BV(i), because bit i is still clear when it is set.
- Driver.Pn532.FoldId: `(cid << 8) | b` is modelled as (256 cid + b) mod 2^32, which is the same value because the low byte of `cid << 8` is clear.
- Structure: WriteFrameHead, WriteBody, ReadInto, StageAt, CopyOut, Issue, StageInitiator, StageAuth, TargetSend and FoldId are parts of source functions split out as methods of their own, so that each proof stays small.
- StageAt stands for the copy loops of `initiatorTxRx`, `targetTxRx`, `writeMemoryBlock` and `configurePeerAsTarget`.
- Driver.Pn532.ReadRawCommandAnswer: requires a non-zero `size` in the fallback branch. With LEN = 249 the uint8_t `size` wraps to (7 + 249) mod 256 = 0, and the source passes `size - 1` = -1 as a length to `Serial.write`.
- Driver.Pn532.ReadSpiDataAnswer: requires the derived length to fit the buffer and the transcript. The source writes past the 64-byte buffer when 58 <= LEN <= 248; for LEN >= 249 the uint8_t n wraps below 7 and max(n, 5) bytes are stored.
- Driver.Pn532.ReadPassiveTargetId: requires an identifier length of at most 51. A longer one makes the source read past the buffer.
- Driver.Pn532.InitiatorTxRx, TargetTxRx, ReadMemoryBlock, WriteMemoryBlock, AuthenticateBlock and ReadRegister require their caller's arrays to be distinct from the packet buffer. The buffer is internal to the driver.
