/**
 * The command catalogue as functions of the chip's answer: the payload each
 * command stages at the start of the packet buffer, the request it makes
 * (the acknowledged handshake, then a fixed-size read into the buffer), and
 * how it decodes the bytes read back.
 */
module Catalogue {
  import opened Pn532Header
  import opened Optional
  import opened Framing
  import opened CString
  import opened Handshake
  import opened Responses

  /** A catalogue request: its handshake, and the response read when it was acknowledged. */
  datatype Reply = Reply(x: Exchange, response: seq<byte>)

  /**
   * A catalogue request against the chip's answer: the handshake of
   * sendCommandCheckAck at the default timeout, then, if acknowledged, a
   * k-byte read. None when the answer ends too early.
   */
  function Request(answer: seq<byte>, k: nat): (r: Option<Reply>)
    ensures r.Some? <==> (Transact(answer, DEFAULT_TIMEOUT, true).Some? &&
      (Transact(answer, DEFAULT_TIMEOUT, true).value.outcome == Acked ==>
         Consumed(Transact(answer, DEFAULT_TIMEOUT, true).value) + k <= |answer|))
    ensures r.Some? ==> r.value.x == Transact(answer, DEFAULT_TIMEOUT, true).value
    ensures r.Some? ==> Consumed(r.value.x) + |r.value.response| <= |answer|
    ensures r.Some? ==> (r.value.response ==
      if r.value.x.outcome == Acked then answer[Consumed(r.value.x)..Consumed(r.value.x) + k] else [])
  {
    match Transact(answer, DEFAULT_TIMEOUT, true)
    case None => None
    case Some(x) =>
      TransactOutcome(answer, DEFAULT_TIMEOUT, true);
      if x.outcome != Acked then Some(Reply(x, []))
      else if |answer| < Consumed(x) + k then None
      else Some(Reply(x, answer[Consumed(x)..Consumed(x) + k]))
  }

  /** The request was acknowledged. */
  predicate Accepted(r: Reply)
  {
    r.x.outcome == Acked
  }

  /** Answer bytes a request reads. */
  function Used(r: Reply): nat
  {
    Consumed(r.x) + |r.response|
  }

  /** The bytes the host sends for a request: the framed payload, the handshake's operation bytes, and the data-read byte of the response read. */
  function RequestBytes(payload: seq<byte>, r: Reply): seq<byte>
    requires |payload| <= 254
  {
    [PN532_SPI_DATAWRITE] + CommandFrame(payload, |payload|) + HostBytes(r.x)
      + (if Accepted(r) then [PN532_SPI_DATAREAD] else [])
  }

  /** The packet buffer after a request: the payload staged at its start, then the response read over it. */
  function Staged(buf: seq<byte>, payload: seq<byte>, r: Reply): seq<byte>
    requires |payload| <= |buf| && |r.response| <= |buf|
  {
    Over(Over(buf, payload), r.response)
  }

  // ------------------------------------------------------------- payloads

  /** SAMConfig: normal mode, a timeout of 20 * 50 ms, use the IRQ pin. */
  const SAM_CONFIG_PAYLOAD: seq<byte> := [PN532_SAMCONFIGURATION, 0x01, 0x14, 0x01]

  /** configurePeerAsInitiator: InJumpForDEP in active mode at `baudrate`, with the polling request as optional payload. */
  function InitiatorPayload(baudrate: byte): seq<byte>
  {
    [PN532_INJUMPFORDEP, 0x01, baudrate, 0x01, 0x00, 0xFF, 0xFF, 0x00, 0x00]
  }

  /** initiatorTxRx: InDataExchange with target 1 of the 16 bytes of dataOut. */
  function ExchangePayload(dataOut: seq<byte>): seq<byte>
  {
    [PN532_INDATAEXCHANGE, 0x01] + dataOut
  }

  /** The 38-byte TgInitAsTarget payload of configurePeerAsTarget. */
  const TARGET_TEMPLATE: seq<byte> := [
    PN532_TGINITASTARGET,
    0x00,
    0x08, 0x00,                                      // SENS_RES
    0x12, 0x34, 0x56,                                // NFCID1
    0x40,                                            // SEL_RES
    0x01, 0xFE, 0xA2, 0xA3, 0xA4, 0xA5, 0xA6, 0xA7,  // POL_RES
    0xC0, 0xC1, 0xC2, 0xC3, 0xC4, 0xC5, 0xC6, 0xC7,
    0xFF, 0xFF,
    0xAA, 0x99, 0x88, 0x77, 0x66, 0x55, 0x44, 0x33, 0x22, 0x11,  // NFCID3t
    0x00, 0x00                                       // general and historical bytes
  ]

  /** The send leg of targetTxRx: TgSetData of the 16 bytes of dataOut. */
  function SetDataPayload(dataOut: seq<byte>): seq<byte>
  {
    [PN532_TGSETDATA] + dataOut
  }

  /** The MIFARE key command authenticateBlock chooses: key A for KEY_A, key B for any other key type. */
  function KeyCommand(authtype: byte): byte
  {
    if authtype == KEY_A then PN532_AUTH_WITH_KEYA else PN532_AUTH_WITH_KEYB
  }

  /** The four bytes (cid >> 24) & 0xFF, (cid >> 16) & 0xFF, (cid >> 8) & 0xFF, cid & 0xFF. */
  function CidBytes(cid: uint32): (s: seq<byte>)
    ensures |s| == 4
  {
    [cid / 0x100_0000 % 0x100, cid / 0x1_0000 % 0x100, cid / 0x100 % 0x100, cid % 0x100]
  }

  /** authenticateBlock: InDataExchange to `card` of the key command, the block address, the six key bytes and the card identifier. */
  function AuthPayload(card: byte, cid: uint32, block: byte, authtype: byte, keys: seq<byte>): seq<byte>
  {
    [PN532_INDATAEXCHANGE, card, KeyCommand(authtype), block] + keys + CidBytes(cid)
  }

  /** The authenticateBlock payload byte by byte. */
  lemma AuthPayloadBytes(card: byte, cid: uint32, block: byte, authtype: byte, keys: seq<byte>)
    requires |keys| == 6
    ensures var c := CidBytes(cid);
      AuthPayload(card, cid, block, authtype, keys) == [PN532_INDATAEXCHANGE, card, KeyCommand(authtype), block,
        keys[0], keys[1], keys[2], keys[3], keys[4], keys[5], c[0], c[1], c[2], c[3]]
  {
  }

  /** readMemoryBlock: InDataExchange to `card` of a MIFARE read of `block`. */
  function ReadBlockPayload(card: byte, block: byte): seq<byte>
  {
    [PN532_INDATAEXCHANGE, card, PN532_MIFARE_READ, block]
  }

  /** writeMemoryBlock: InDataExchange to `card` of a MIFARE write of the 16 bytes `data` to `block`. */
  function WriteBlockPayload(card: byte, block: byte, data: seq<byte>): seq<byte>
  {
    [PN532_INDATAEXCHANGE, card, PN532_MIFARE_WRITE, block] + data
  }

  /** readPassiveTargetID: InListPassiveTarget of at most one target at `baudrate`. */
  function ListPayload(baudrate: byte): seq<byte>
  {
    [PN532_INLISTPASSIVETARGET, 1, baudrate]
  }

  /** A register address as the two bytes address >> 8 and address & 0xff. */
  function AddressBytes(address: uint16): (s: seq<byte>)
    ensures |s| == 2
  {
    [address / 0x100, address % 0x100]
  }

  /** readRegister: ReadRegister of one 16-bit address. */
  function ReadRegisterPayload(address: uint16): seq<byte>
  {
    [PN532_READREGISTER] + AddressBytes(address)
  }

  /** writeRegister: WriteRegister of `value` to one 16-bit address. */
  function WriteRegisterPayload(address: uint16, value: byte): seq<byte>
  {
    [PN532_WRITEREGISTER] + AddressBytes(address) + [value]
  }

  // ------------------------------------------------------ the two identifiers

  /** x = d q + r with 0 <= r < d fixes x / d and x % d, for the byte weights d = 2^8, 2^16, 2^24. */
  lemma DivModOf(x: int, d: int, q: int, r: int)
    requires d == 0x100 || d == 0x1_0000 || d == 0x100_0000
    requires 0 <= r < d && x == d * q + r
    ensures x / d == q && x % d == r
  {
    if d == 0x100 {
      assert x == 0x100 * q + r;
    } else if d == 0x1_0000 {
      assert x == 0x1_0000 * q + r;
    } else {
      assert x == 0x100_0000 * q + r;
    }
  }

  /**
   * The identifier authenticateBlock sends is the card identifier: its four
   * bytes read big-endian, as readPassiveTargetID folds them, give cid back.
   */
  lemma {:induction false} CidBytesRoundTrip(cid: uint32)
    ensures BigEndian(CidBytes(cid)) == cid && ShiftIn(CidBytes(cid)) == cid
  {
    var s := CidBytes(cid);
    // cid = 2^8 q1 + b0, q1 = 2^8 q2 + b1, q2 = 2^8 q3 + b2.
    var q1, b0 := cid / 0x100, cid % 0x100;
    var q2, b1 := q1 / 0x100, q1 % 0x100;
    var q3, b2 := q2 / 0x100, q2 % 0x100;
    DivModOf(cid, 0x1_0000, q2, b1 * 0x100 + b0);
    DivModOf(cid, 0x100_0000, q3, b2 * 0x1_0000 + b1 * 0x100 + b0);
    assert s == [q3, b2, b1, b0];
    BigEndianOfFour(s);
    ShiftInKeepsLastFour(s);
  }

  /**
   * The authenticateBlock payload carries the key command chosen by the key
   * type at byte 2, the six key bytes at 4..9 and the card identifier at
   * 10..13, big-endian, so that folding those bytes gives cid back.
   */
  lemma AuthPayloadLayout(card: byte, cid: uint32, block: byte, authtype: byte, keys: seq<byte>)
    requires |keys| == 6
    ensures var p := AuthPayload(card, cid, block, authtype, keys);
      && |p| == 14 && p[0] == PN532_INDATAEXCHANGE && p[1] == card && p[3] == block
      && p[2] == (if authtype == KEY_A then PN532_AUTH_WITH_KEYA else PN532_AUTH_WITH_KEYB)
      && p[4..10] == keys
      && BigEndian(p[10..14]) == cid && ShiftIn(p[10..14]) == cid
  {
    var p := AuthPayload(card, cid, block, authtype, keys);
    assert p[10..14] == CidBytes(cid);
    CidBytesRoundTrip(cid);
  }

  /**
   * A four-byte identifier folded by readPassiveTargetID and split again by
   * authenticateBlock gives back the same four bytes.
   */
  lemma {:induction false} ShiftInThenCidBytes(s: seq<byte>)
    requires |s| == 4
    ensures CidBytes(ShiftIn(s)) == s
  {
    ShiftInKeepsLastFour(s);
    BigEndianOfFour(s);
    var v := ShiftIn(s);
    var q1, q2 := s[0] as int * 0x1_0000 + s[1] as int * 0x100 + s[2], s[0] as int * 0x100 + s[1];
    DivModOf(v, 0x100, q1, s[3]);
    DivModOf(v, 0x1_0000, q2, s[2] as int * 0x100 + s[3]);
    DivModOf(v, 0x100_0000, s[0], s[1] as int * 0x1_0000 + s[2] as int * 0x100 + s[3]);
    DivModOf(q1, 0x100, q2, s[2]);
    DivModOf(q2, 0x100, s[0], s[1]);
  }

  /**
   * The address split of readRegister and writeRegister is big-endian: the
   * two bytes read back as the address, and the address of two bytes splits
   * back into them.
   */
  lemma AddressBytesRoundTrip(address: uint16, hi: byte, lo: byte)
    ensures AddressBytes(address)[0] as int * 0x100 + AddressBytes(address)[1] == address
    ensures AddressBytes(hi as int * 0x100 + lo) == [hi, lo]
  {
    DivModOf(hi as int * 0x100 + lo, 0x100, hi, lo);
  }

  // ---------------------------------------------------------------- decoders

  /**
   * What getFirmwareVersion returns after its 12-byte read: 0 unless the
   * request was acknowledged and strncmp finds the signature, otherwise
   * bytes 6..9 accumulated into a uint32_t.
   */
  function FirmwareAnswer(r: Reply): (v: uint32)
    requires Accepted(r) ==> |r.response| >= 10
    ensures v != 0 ==> Accepted(r) && r.response[0] == 0x00
    ensures Accepted(r) && r.response[0] == 0x00 ==>
      v == r.response[6] as int * 0x100_0000 + r.response[7] as int * 0x1_0000 + r.response[8] as int * 0x100 + r.response[9]
  {
    if !Accepted(r) then 0
    else
      SignatureTestOnlyReadsByteZero(r.response);
      FirmwareVersionValue(r.response);
      if StrNCmp(r.response, PN532_FIRMWARE_SIGNATURE, 6) != 0 then 0
      else FirmwareVersion(r.response)
  }

  /**
   * What readPassiveTargetID returns from the packet buffer `buf` after its
   * 20-byte read: 0 unless the request was acknowledged and byte 7 lists
   * exactly one target; otherwise the L = buf[12] identifier bytes from
   * byte 13 on, folded into a uint32_t, which keeps only the last four of
   * them when L > 4.
   */
  function PassiveTargetAnswer(r: Reply, buf: seq<byte>): (cid: uint32)
    requires |buf| >= 13 && (Accepted(r) && buf[7] == 1 ==> 13 + buf[12] <= |buf|)
    ensures cid != 0 ==> Accepted(r) && buf[7] == 1
    ensures Accepted(r) && buf[7] == 1 ==> cid == BigEndian(LastFour(buf[13..13 + buf[12]]))
  {
    if !Accepted(r) || buf[7] != 1 then 0
    else
      ShiftInKeepsLastFour(buf[13..13 + buf[12]]);
      TargetId(buf)
  }

  /**
   * A catalogue request is acknowledged exactly when the first wait sees
   * ready, the first ack byte is 0x00 and the second wait, with a budget of
   * its own, sees ready; only then is the k-byte response read. It never
   * reads more than the answer holds.
   */
  lemma RequestAcceptance(answer: seq<byte>, k: nat)
    requires Request(answer, k).Some?
    ensures var r := Request(answer, k).value;
      var w1 := ReadyWait(answer, DEFAULT_TIMEOUT).value;
      && Used(r) <= |answer|
      && (Accepted(r) <==>
            w1.ready && answer[w1.polls] == 0x00 && ReadyWait(answer[w1.polls + 6..], DEFAULT_TIMEOUT).value.ready)
      && |r.response| == (if Accepted(r) then k else 0)
  {
    TransactOutcome(answer, DEFAULT_TIMEOUT, true);
  }

  /**
   * With L <= 7 the identifier readPassiveTargetID folds lies within the 20
   * bytes just read: it depends on the response alone, whatever the buffer
   * held before.
   */
  lemma FreshTargetId(buf: seq<byte>, payload: seq<byte>, r: Reply)
    requires |buf| == PN532_PACKBUFFSIZ && |payload| <= |buf| && |r.response| == 20
    requires Accepted(r) && r.response[7] == 1 && r.response[12] <= 7
    ensures PassiveTargetAnswer(r, Staged(buf, payload, r)) == BigEndian(LastFour(r.response[13..13 + r.response[12]]))
  {
    var b := Staged(buf, payload, r);
    OverSlice(Over(buf, payload), r.response, 13, 13 + r.response[12]);
    assert b[7] == r.response[7] && b[12] == r.response[12];
  }

  /** The identifier readPassiveTargetID folds stays inside the packet buffer: L <= 51 whenever one target is listed. */
  predicate ListedIdFits(r: Reply)
  {
    Accepted(r) && |r.response| >= 13 && r.response[7] == 1 ==> r.response[12] <= 51
  }

  /** The two-request answer targetTxRx needs: the receive leg, and the send leg when the receive leg reported no error. */
  predicate TargetAnswers(answer: seq<byte>)
  {
    && Request(answer, 24).Some?
    && var r1 := Request(answer, 24).value;
      Accepted(r1) && r1.response[7] == 0x00 ==> Request(answer[Used(r1)..], 8).Some?
  }
}
