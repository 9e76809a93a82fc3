/**
 * The PN532 driver class: the host side of the protocol over a software SPI
 * link. The chip is replaced by its byte transcripts: `sent` holds every byte
 * the chip has shifted in from MOSI, `incoming` the bytes it has yet to shift
 * out on MISO; `ss`, `clk`, `mosi` and `miso` are the levels of the four
 * lines. Every catalogue command stages its payload in the shared 64-byte
 * packet buffer and reads its answer back into the same buffer.
 */
module Driver {
  import opened Pn532Header
  import opened Optional
  import opened BitLink
  import opened Framing
  import opened CString
  import opened Handshake
  import opened Responses
  import opened Sequences
  import opened Catalogue

  class Pn532 {
    /** pn532_packetbuffer: shared by every command; a file-scope global in the driver, a field of the object here. */
    const buffer: array<byte>
    /** The slave-select line; true is HIGH. */
    var ss: bool
    /** The clock line; true is HIGH. */
    var clk: bool
    /** The MOSI line, driven by the host. */
    var mosi: bool
    /** The MISO line, driven by the chip. */
    var miso: bool
    /** The bytes the chip has shifted in from MOSI, oldest first. */
    var sent: seq<byte>
    /** The bytes the chip has yet to shift out on MISO, next first. */
    var incoming: seq<byte>

    ghost predicate Valid()
      reads this
    {
      buffer.Length == PN532_PACKBUFFSIZ
    }

    /** A driver whose chip will answer with `answer`; the buffer starts zeroed, as a global array does. */
    constructor (answer: seq<byte>)
      ensures Valid() && fresh(buffer)
      ensures sent == [] && incoming == answer
      ensures buffer[..] == seq(PN532_PACKBUFFSIZ, _ => 0)
    {
      buffer := new byte[PN532_PACKBUFFSIZ](_ => 0);
      ss, clk, mosi, miso := false, false, false, false;
      sent, incoming := [], answer;
    }

    // ---------------------------------------------------------------- bit link

    /**
     * spiwrite: in clock cycle i drive bit i of c on MOSI while the clock is
     * low; the chip samples MOSI on the rising edge and, after eight samples,
     * has received the byte they spell.
     */
    method SpiWrite(c: byte)
      requires Valid()
      modifies this
      ensures Valid() && ss == old(ss) && clk && miso == old(miso)
      ensures sent == old(sent) + [c] && incoming == old(incoming)
    {
      var sampled: seq<bool> := [];  // the chip's receive shift register
      clk := true;
      var i := 0;
      while i < 8
        invariant 0 <= i <= 8 && clk
        invariant sampled == BitsOf(c)[..i]
        invariant sent == old(sent) && incoming == old(incoming)
        invariant ss == old(ss) && miso == old(miso)
      {
        clk := false;
        mosi := BitSet(c, i);
        clk := true;
        sampled := sampled + [mosi];
        i := i + 1;
      }
      ReadWhatWasWritten(c);
      assert sampled == BitsOf(c);
      sent := sent + [ByteOf(sampled)];
    }

    /**
     * spiread: in clock cycle i the chip holds bit i of its next byte on MISO
     * while the clock is high; the host samples MISO, setting bit i of x when
     * it is high, and then pulses the clock LOW and HIGH, which shifts the
     * chip's next bit out. The host assembles exactly the byte the chip sent.
     */
    method SpiRead() returns (x: byte)
      requires Valid() && |incoming| >= 1
      modifies this
      ensures Valid() && ss == old(ss) && clk && mosi == old(mosi)
      ensures x == old(incoming)[0] && incoming == old(incoming)[1..] && sent == old(sent)
    {
      var levels := BitsOf(incoming[0]);  // the chip's transmit shift register
      var acc: nat := 0;
      clk := true;
      var i := 0;
      while i < 8
        invariant 0 <= i <= 8 && clk
        invariant acc == ByteOf(levels[..i])
        invariant incoming == old(incoming) && sent == old(sent)
        invariant ss == old(ss) && mosi == old(mosi)
      {
        miso := levels[i];
        if miso {
          acc := acc + Mask(i);  // x |= _BV(i): bit i of x is still clear
        }
        clk := false;
        clk := true;
        assert levels[..i + 1][..i] == levels[..i];
        i := i + 1;
      }
      ReadWhatWasWritten(incoming[0]);
      assert levels[..8] == levels;
      x := acc;
      incoming := incoming[1..];
    }

    // ------------------------------------------------------------ SPI helpers

    /** readspistatus: one SPI transaction that sends the status-read byte and reads one status byte. */
    method ReadSpiStatus() returns (status: byte)
      requires Valid() && |incoming| >= 1
      modifies this
      ensures Valid() && ss
      ensures status == old(incoming)[0] && incoming == old(incoming)[1..]
      ensures sent == old(sent) + [PN532_SPI_STATREAD]
    {
      ss := false;
      SpiWrite(PN532_SPI_STATREAD);
      status := SpiRead();
      ss := true;
    }

    /**
     * The read loop of readspidata and readspidataAnswer: for i from `from`
     * while i < to, store the next byte the chip sends at buff[i]. Nothing is
     * read when to <= from.
     */
    method ReadInto(buff: array<byte>, from: byte, to: byte)
      requires Valid() && from <= buff.Length && to <= buff.Length && to - from <= |incoming|
      modifies this, buff
      ensures Valid() && ss == old(ss) && sent == old(sent)
      ensures var end := if to < from then from else to;
        && buff[..] == Over(old(buff[..]), old(buff[..from]) + old(incoming)[..end - from])
        && incoming == old(incoming)[end - from..]
    {
      ghost var b0, in0 := buff[..], incoming;
      var i := from;
      assert b0[..from] + in0[..0] == b0[..from];
      while i < to
        invariant Valid() && from <= i && i as int <= (if to < from then from else to)
        invariant ss == old(ss) && sent == old(sent)
        invariant buff[..] == Over(b0, b0[..from] + in0[..i - from]) && incoming == in0[i - from..]
      {
        var x := SpiRead();
        OverSnoc(b0, b0[..from] + in0[..i - from], x);
        TakeOneMore(in0, i - from);
        Snoc(b0[..from], in0[..i - from], x);
        buff[i] := x;
        i := i + 1;
      }
    }

    /** readspidata: one SPI transaction that sends the data-read byte and stores the next n bytes at the start of buff. */
    method ReadSpiData(buff: array<byte>, n: byte)
      requires Valid() && n <= buff.Length && n <= |incoming|
      modifies this, buff
      ensures Valid() && ss
      ensures buff[..] == Over(old(buff[..]), old(incoming)[..n])
      ensures incoming == old(incoming)[n..] && sent == old(sent) + [PN532_SPI_DATAREAD]
    {
      ss := false;
      SpiWrite(PN532_SPI_DATAREAD);
      ghost var b0, in0 := buff[..], incoming;
      ReadInto(buff, 0, n);
      assert b0[..0] + in0[..n] == in0[..n];
      ss := true;
    }

    /**
     * readspidataAnswer: read the five header bytes, derive the frame length
     * n from them (AnswerLength), and read on until n bytes are stored; at
     * least the five header bytes are always stored.
     */
    method ReadSpiDataAnswer(buff: array<byte>) returns (n: byte)
      requires Valid() && |incoming| >= 5
      requires AnswerCount(incoming) <= |incoming| && AnswerCount(incoming) <= buff.Length
      modifies this, buff
      ensures Valid() && ss
      ensures n == AnswerLength(old(incoming)[..5])
      ensures buff[..] == Over(old(buff[..]), old(incoming)[..AnswerCount(old(incoming))])
      ensures incoming == old(incoming)[AnswerCount(old(incoming))..]
      ensures sent == old(sent) + [PN532_SPI_DATAREAD]
    {
      ghost var b0, answer := buff[..], incoming;
      ss := false;
      SpiWrite(PN532_SPI_DATAREAD);
      ReadInto(buff, 0, 5);
      assert b0[..0] + answer[..5] == answer[..5];
      ghost var b1 := buff[..];
      if buff[2] == 0xFF {
        n := Byte(5 + buff[3] as int + 2);
      } else {
        n := Byte(5 + buff[2] as int + 2);
      }
      assert n == AnswerLength(answer[..5]);
      ReadInto(buff, 5, n);
      ghost var count := AnswerCount(answer);
      TakeJoin(answer, 5, count);
      OverTwice(b0, answer[..5], answer[..count]);
      ss := true;
    }

    /** spiwriteraw: one SPI transaction that sends the data-write byte and then raw[..cmdlen] unframed. */
    method SpiWriteRaw(raw: array<byte>, cmdlen: byte)
      requires Valid() && cmdlen <= raw.Length
      modifies this
      ensures Valid() && ss
      ensures sent == old(sent) + [PN532_SPI_DATAWRITE] + raw[..cmdlen] && incoming == old(incoming)
    {
      ss := false;
      SpiWrite(PN532_SPI_DATAWRITE);
      var i: byte := 0;
      while i < cmdlen
        invariant Valid() && i <= cmdlen
        invariant sent == old(sent) + [PN532_SPI_DATAWRITE] + raw[..i] && incoming == old(incoming)
      {
        SpiWrite(raw[i]);
        assert raw[..i + 1] == raw[..i] + [raw[i]];
        i := i + 1;
      }
      ss := true;
    }

    /**
     * spiwritecommand: one SPI transaction that sends the data-write byte and
     * the information frame around cmd[..cmdlen], computing DCS with a
     * running uint8_t checksum.
     */
    method SpiWriteCommand(cmd: array<byte>, cmdlen: byte)
      requires Valid() && BodyLength(cmdlen) <= cmd.Length
      modifies this
      ensures Valid() && ss
      ensures sent == old(sent) + [PN532_SPI_DATAWRITE] + CommandFrame(cmd[..], cmdlen)
      ensures incoming == old(incoming)
    {
      var len := Byte(cmdlen as int + 1);
      BodyLengthFromLen(cmdlen);
      ss := false;
      SpiWrite(PN532_SPI_DATAWRITE);
      ghost var s0 := sent;
      var checksum := WriteFrameHead(len);
      ghost var head := sent[|s0|..];
      checksum := WriteBody(cmd, if len == 0 then 0 else len - 1, checksum);
      ghost var body := cmd[..BodyLength(cmdlen)];
      ghost var s2 := sent;
      var dcs := Not(checksum);
      SpiWrite(dcs);
      SpiWrite(PN532_POSTAMBLE);
      ss := true;
      CommandFrameAsSent(cmd[..], cmdlen, body);
      Appended2(s2, dcs, PN532_POSTAMBLE);
      Assembled(s0, head, body, [dcs, PN532_POSTAMBLE]);
    }

    /**
     * The frame header part of spiwritecommand: preamble, start code, LEN,
     * LCS computed as ~LEN + 1, and the direction byte, with the running
     * checksum started from PREAMBLE + PREAMBLE + STARTCODE2 and the
     * direction byte added.
     */
    method WriteFrameHead(len: byte) returns (checksum: byte)
      requires Valid()
      modifies this
      ensures Valid() && ss == old(ss) && incoming == old(incoming)
      ensures sent == old(sent) + [PN532_PREAMBLE, PN532_PREAMBLE, PN532_STARTCODE2, len, Byte(-(len as int) - 1 + 1), PN532_HOSTTOPN532]
      ensures checksum == Checksum(PN532_HOSTTOPN532, [])
    {
      checksum := Byte(PN532_PREAMBLE as int + PN532_PREAMBLE + PN532_STARTCODE2);
      SpiWrite(PN532_PREAMBLE);
      SpiWrite(PN532_PREAMBLE);
      SpiWrite(PN532_STARTCODE2);
      SpiWrite(len);
      var lcs := Byte(-(len as int) - 1 + 1);
      SpiWrite(lcs);
      SpiWrite(PN532_HOSTTOPN532);
      checksum := Byte(checksum as int + PN532_HOSTTOPN532);
      ChecksumStart(PN532_HOSTTOPN532);
      Appended6(old(sent), PN532_PREAMBLE, PN532_PREAMBLE, PN532_STARTCODE2, len, lcs, PN532_HOSTTOPN532);
    }

    /**
     * The body loop of spiwritecommand: send cmd[..n] byte by byte, adding
     * each byte to the running checksum.
     */
    method WriteBody(cmd: array<byte>, n: nat, checksum: byte) returns (sum: byte)
      requires Valid() && n <= cmd.Length
      requires checksum == Checksum(PN532_HOSTTOPN532, [])
      modifies this
      ensures Valid() && ss == old(ss)
      ensures sum == Checksum(PN532_HOSTTOPN532, cmd[..n])
      ensures sent == old(sent) + cmd[..n] && incoming == old(incoming)
    {
      sum := checksum;
      assert cmd[..0] == [];
      var i := 0;
      while i < n
        invariant Valid() && i <= n && ss == old(ss)
        invariant sum == Checksum(PN532_HOSTTOPN532, cmd[..i])
        invariant sent == old(sent) + cmd[..i] && incoming == old(incoming)
      {
        assert cmd[..i + 1] == cmd[..i] + [cmd[i]];
        ChecksumSnoc(PN532_HOSTTOPN532, cmd[..i], cmd[i]);
        Snoc(old(sent), cmd[..i], cmd[i]);
        SpiWrite(cmd[i]);
        sum := Byte(sum as int + cmd[i]);
        i := i + 1;
      }
    }

    // ------------------------------------------------------------- handshake

    /**
     * The ready-wait loop of sendCommandCheckAck and sendRawCommandCheckAck:
     * poll the status until it is PN532_SPI_READY, advancing a uint16_t timer
     * by 10 per not-ready status when timeout != 0 and giving up once the
     * timer exceeds timeout.
     */
    method WaitReady(timeout: uint16) returns (ready: bool)
      requires Valid() && ReadyWait(incoming, timeout).Some?
      modifies this
      ensures Valid() && ss
      ensures var w := ReadyWait(old(incoming), timeout).value;
        && ready == w.ready
        && sent == old(sent) + StatusPolls(w.polls)
        && incoming == old(incoming)[w.polls..]
    {
      ghost var answer := incoming;
      ghost var w := ReadyWait(answer, timeout).value;
      var timer: uint16 := 0;
      var status := ReadSpiStatus();
      OneMorePoll(old(sent), 0);
      ghost var polls: nat := 1;
      while status != PN532_SPI_READY
        invariant Valid() && ss && 1 <= polls <= w.polls && polls <= |answer|
        invariant status == answer[polls - 1]
        invariant WaitFrom(answer[polls - 1..], timer, timeout) == Some(Wait(w.ready, w.polls - (polls - 1)))
        invariant incoming == answer[polls..] && sent == old(sent) + StatusPolls(polls)
        decreases |answer| - polls
      {
        var next: uint16 := if timeout != 0 then (timer + 10) % 0x1_0000 else timer;
        WaitStep(answer[polls - 1..], timer, timeout, next);
        if timeout != 0 {
          timer := next;
          if timer > timeout {
            return false;
          }
        }
        assert answer[polls - 1..][1..] == answer[polls..];
        status := ReadSpiStatus();
        OneMorePoll(old(sent), polls);
        polls := polls + 1;
      }
      return true;
    }

    /** spi_readack(): read the six ack bytes and compare them with the ack frame using strncmp. */
    method SpiReadAck() returns (ok: bool)
      requires Valid() && |incoming| >= 6
      modifies this
      ensures Valid() && ss
      ensures ok == AckOk(old(incoming)[..6])
      ensures incoming == old(incoming)[6..] && sent == old(sent) + [PN532_SPI_DATAREAD]
    {
      var ackbuff := new byte[6];
      ReadSpiData(ackbuff, 6);
      ok := 0 == StrNCmp(ackbuff[..], PN532_ACK, 6);
    }

    /** spi_readack(ack): read the six ack bytes into ack, without testing them. */
    method SpiReadAckInto(ack: array<byte>)
      requires Valid() && ack.Length >= 6 && |incoming| >= 6
      modifies this, ack
      ensures Valid() && ss
      ensures ack[..] == Over(old(ack[..]), old(incoming)[..6])
      ensures incoming == old(incoming)[6..] && sent == old(sent) + [PN532_SPI_DATAREAD]
    {
      ReadSpiData(ack, 6);
    }

    /**
     * sendCommandCheckAck: write the command frame, wait for ready, read and
     * test the ack, wait for ready again with a fresh timer. True exactly when
     * the handshake is acknowledged.
     */
    method SendCommandCheckAck(cmd: array<byte>, cmdlen: byte, timeout: uint16) returns (ok: bool)
      requires Valid() && BodyLength(cmdlen) <= cmd.Length
      requires Transact(incoming, timeout, true).Some?
      modifies this
      ensures Valid() && ss
      ensures var x := Transact(old(incoming), timeout, true).value;
        && ok == (x.outcome == Acked)
        && sent == old(sent) + [PN532_SPI_DATAWRITE] + CommandFrame(cmd[..], cmdlen) + HostBytes(x)
        && incoming == old(incoming)[Consumed(x)..]
    {
      ghost var answer := incoming;
      ghost var x := Transact(answer, timeout, true).value;
      SpiWriteCommand(cmd, cmdlen);
      ghost var framed := sent;
      var ready := WaitReady(timeout);
      ghost var w1 := ReadyWait(answer, timeout).value;
      if !ready {
        assert HostBytes(x) == StatusPolls(w1.polls) + [] + StatusPolls(0);
        return false;
      }
      assert incoming == answer[w1.polls..];
      ok := SpiReadAck();
      assert answer[w1.polls..][..6] == answer[w1.polls..w1.polls + 6];
      if !ok {
        assert HostBytes(x) == StatusPolls(w1.polls) + [PN532_SPI_DATAREAD] + StatusPolls(0);
        assert answer[w1.polls..][6..] == answer[Consumed(x)..];
        return false;
      }
      assert answer[w1.polls..][6..] == answer[w1.polls + 6..];
      ok := WaitReady(timeout);
      ghost var w2 := ReadyWait(answer[w1.polls + 6..], timeout).value;
      assert answer[w1.polls + 6..][w2.polls..] == answer[Consumed(x)..];
    }

    /**
     * sendRawCommandCheckAck: write cmd[..cmdlen] unframed, wait for ready,
     * read the six ack bytes untested (they are forwarded to the host console:
     * `ack`), wait for ready again. 0xF1 or 0xF2 when the first or second wait
     * gives up, 0 otherwise.
     */
    method SendRawCommandCheckAck(cmd: array<byte>, cmdlen: byte, timeout: uint16) returns (code: byte, ack: seq<byte>)
      requires Valid() && cmdlen <= cmd.Length
      requires Transact(incoming, timeout, false).Some?
      modifies this
      ensures Valid() && ss
      ensures var x := Transact(old(incoming), timeout, false).value;
        && code == RawCode(x.outcome) && ack == x.ack
        && sent == old(sent) + [PN532_SPI_DATAWRITE] + cmd[..cmdlen] + HostBytes(x)
        && incoming == old(incoming)[Consumed(x)..]
    {
      ghost var answer := incoming;
      ghost var x := Transact(answer, timeout, false).value;
      SpiWriteRaw(cmd, cmdlen);
      var ready := WaitReady(timeout);
      ghost var w1 := ReadyWait(answer, timeout).value;
      if !ready {
        assert HostBytes(x) == StatusPolls(w1.polls) + [] + StatusPolls(0);
        return 0xF1, [];
      }
      var ackbuf := new byte[6](_ => 0);
      SpiReadAckInto(ackbuf);
      ack := ackbuf[..];
      assert ack == answer[w1.polls..w1.polls + 6];
      assert answer[w1.polls..][6..] == answer[w1.polls + 6..];
      ready := WaitReady(timeout);
      ghost var w2 := ReadyWait(answer[w1.polls + 6..], timeout).value;
      assert answer[w1.polls + 6..][w2.polls..] == answer[Consumed(x)..];
      if !ready {
        return 0xF2, ack;
      }
      return 0, ack;
    }

    /**
     * readRawCommandAnswer: read a frame with readspidataAnswer into the
     * packet buffer and return the bytes it forwards to the host console.
     */
    method ReadRawCommandAnswer() returns (forwarded: seq<byte>)
      requires Valid() && |incoming| >= 5
      requires AnswerCount(incoming) <= |incoming| && AnswerCount(incoming) <= PN532_PACKBUFFSIZ
      requires (incoming[0] == 0 && incoming[1] == 0) || AnswerLength(incoming[..5]) >= 1
      modifies this, buffer
      ensures Valid() && ss
      ensures forwarded == RawAnswer(old(incoming), old(buffer[..]))
      ensures buffer[..] == Over(old(buffer[..]), old(incoming)[..AnswerCount(old(incoming))])
      ensures incoming == old(incoming)[AnswerCount(old(incoming))..]
      ensures sent == old(sent) + [PN532_SPI_DATAREAD]
    {
      var size := ReadSpiDataAnswer(buffer);
      if buffer[0] == 0 && buffer[1] == 0 {
        forwarded := buffer[..size];
      } else {
        forwarded := [0] + buffer[..size - 1];
      }
    }

    // ------------------------------------------------------------- catalogue

    /**
     * A copy loop of the catalogue: store src at buffer[at..], byte by byte,
     * leaving the rest of the buffer as it was.
     */
    method StageAt(src: seq<byte>, at: nat)
      requires Valid() && at + |src| <= buffer.Length
      modifies buffer
      ensures buffer[..] == Over(old(buffer[..]), old(buffer[..at]) + src)
    {
      ghost var b0 := buffer[..];
      assert b0[..at] + src[..0] == b0[..at];
      var j := 0;
      while j < |src|
        invariant 0 <= j <= |src|
        invariant buffer[..] == Over(b0, b0[..at] + src[..j])
      {
        OverSnoc(b0, b0[..at] + src[..j], src[j]);
        TakeOneMore(src, j);
        Snoc(b0[..at], src[..j], src[j]);
        buffer[at + j] := src[j];
        j := j + 1;
      }
      assert src[..|src|] == src;
    }

    /** The copy-out loop of the catalogue: dst[i - 8] := buffer[i] for i from 8 while i < 24. */
    method CopyOut(dst: array<byte>)
      requires Valid() && dst.Length >= 16 && dst != buffer
      modifies dst
      ensures dst[..] == Over(old(dst[..]), buffer[8..24])
    {
      ghost var d0 := dst[..];
      var i := 8;
      while i < 24
        invariant 8 <= i <= 24
        invariant dst[..] == Over(d0, buffer[8..i])
      {
        OverSnoc(d0, buffer[8..i], buffer[i]);
        assert buffer[8..i] + [buffer[i]] == buffer[8..i + 1];
        dst[i - 8] := buffer[i];
        i := i + 1;
      }
    }

    /**
     * The request every reading catalogue command makes once its payload is
     * staged at the start of the buffer (over the buffer b0 it found):
     * sendCommandCheckAck at the default timeout and, if it is acknowledged,
     * readspidata of k bytes into the buffer.
     */
    method Issue(n: byte, k: byte, ghost b0: seq<byte>, ghost payload: seq<byte>) returns (acked: bool)
      requires Valid() && n <= PN532_PACKBUFFSIZ && k <= PN532_PACKBUFFSIZ && Request(incoming, k).Some?
      requires |payload| == n && |b0| == PN532_PACKBUFFSIZ && buffer[..] == Over(b0, payload)
      modifies this, buffer
      ensures Valid() && ss
      ensures var r := Request(old(incoming), k).value;
        && acked == Accepted(r)
        && sent == old(sent) + RequestBytes(payload, r)
        && incoming == old(incoming)[Used(r)..]
        && buffer[..] == Staged(b0, payload, r)
    {
      ghost var answer, staged := incoming, buffer[..];
      ghost var r := Request(answer, k).value;
      CommandFrameOfPrefix(staged, n);
      acked := SendCommandCheckAck(buffer, n, DEFAULT_TIMEOUT);
      assert incoming == answer[Consumed(r.x)..];
      ghost var frame := CommandFrame(payload, n);
      if acked {
        assert incoming[..k] == r.response;
        ReadSpiData(buffer, k);
        assert incoming == answer[Used(r)..];
        Regrouped4(old(sent), [PN532_SPI_DATAWRITE], frame, HostBytes(r.x), [PN532_SPI_DATAREAD]);
      } else {
        assert r.response == [] && buffer[..] == Over(staged, []);
        Regrouped4(old(sent), [PN532_SPI_DATAWRITE], frame, HostBytes(r.x), []);
      }
    }

    /** begin: select the chip and send the FirmwareVersion command to get in sync, ignoring the outcome. */
    method Begin()
      requires Valid() && Transact(incoming, DEFAULT_TIMEOUT, true).Some?
      modifies this, buffer
      ensures Valid() && ss
      ensures var x := Transact(old(incoming), DEFAULT_TIMEOUT, true).value;
        && sent == old(sent) + [PN532_SPI_DATAWRITE] + CommandFrame([PN532_FIRMWAREVERSION], 1) + HostBytes(x)
        && incoming == old(incoming)[Consumed(x)..]
        && buffer[..] == Over(old(buffer[..]), [PN532_FIRMWAREVERSION])
    {
      ss := false;
      buffer[0] := PN532_FIRMWAREVERSION;
      assert CommandFrame(buffer[..], 1) == CommandFrame([PN532_FIRMWAREVERSION], 1);
      var ignored := SendCommandCheckAck(buffer, 1, DEFAULT_TIMEOUT);
    }

    /**
     * getFirmwareVersion: 0 when the request is not acknowledged or the
     * 12-byte answer fails the signature test; otherwise bytes 6..9 shifted
     * into a uint32_t.
     */
    method GetFirmwareVersion() returns (version: uint32)
      requires Valid() && Request(incoming, 12).Some?
      modifies this, buffer
      ensures Valid() && ss
      ensures var r := Request(old(incoming), 12).value;
        && version == FirmwareAnswer(r)
        && sent == old(sent) + RequestBytes([PN532_FIRMWAREVERSION], r)
        && incoming == old(incoming)[Used(r)..]
        && buffer[..] == Staged(old(buffer[..]), [PN532_FIRMWAREVERSION], r)
    {
      ghost var r := Request(incoming, 12).value;
      buffer[0] := PN532_FIRMWAREVERSION;
      assert buffer[..] == Over(old(buffer[..]), [PN532_FIRMWAREVERSION]);
      var acked := Issue(1, 12, old(buffer[..]), [PN532_FIRMWAREVERSION]);
      if !acked {
        return 0;
      }
      SignatureTestOnlyReadsByteZero(buffer[..]);
      SignatureTestOnlyReadsByteZero(r.response);
      if 0 != StrNCmp(buffer[..], PN532_FIRMWARE_SIGNATURE, 6) {
        return 0;
      }
      version := buffer[6];
      version := version * 0x100 + buffer[7];  // response <<= 8; response |= b: nothing is shifted out yet
      version := version * 0x100 + buffer[8];
      version := version * 0x100 + buffer[9];
    }

    /** SAMConfig: true exactly when the request is acknowledged and byte 5 of the 8-byte answer is 0x15. */
    method SamConfig() returns (ok: bool)
      requires Valid() && Request(incoming, 8).Some?
      modifies this, buffer
      ensures Valid() && ss
      ensures var r := Request(old(incoming), 8).value;
        && ok == (Accepted(r) && r.response[5] == 0x15)
        && sent == old(sent) + RequestBytes(SAM_CONFIG_PAYLOAD, r)
        && incoming == old(incoming)[Used(r)..]
        && buffer[..] == Staged(old(buffer[..]), SAM_CONFIG_PAYLOAD, r)
    {
      buffer[0] := PN532_SAMCONFIGURATION;
      buffer[1] := 0x01;
      buffer[2] := 0x14;
      buffer[3] := 0x01;
      assert buffer[..] == Over(old(buffer[..]), SAM_CONFIG_PAYLOAD);
      var acked := Issue(4, 8, old(buffer[..]), SAM_CONFIG_PAYLOAD);
      if !acked {
        return false;
      }
      ok := buffer[5] == 0x15;
    }

    /** configurePeerAsInitiator: true exactly when the request is acknowledged and byte 7 (the status) of the 25-byte answer is 0. */
    method ConfigurePeerAsInitiator(baudrate: byte) returns (ok: bool)
      requires Valid() && Request(incoming, 25).Some?
      modifies this, buffer
      ensures Valid() && ss
      ensures var r := Request(old(incoming), 25).value;
        && ok == (Accepted(r) && r.response[7] == 0x00)
        && sent == old(sent) + RequestBytes(InitiatorPayload(baudrate), r)
        && incoming == old(incoming)[Used(r)..]
        && buffer[..] == Staged(old(buffer[..]), InitiatorPayload(baudrate), r)
    {
      StageInitiator(baudrate);
      var acked := Issue(9, 25, old(buffer[..]), InitiatorPayload(baudrate));
      if !acked {
        return false;
      }
      ok := buffer[7] == 0x00;
    }

    /**
     * initiatorTxRx: send the 16 bytes of dataOut to target 1 and, when
     * acknowledged, copy bytes 8..23 of the 24-byte answer into dataIn; true
     * exactly when acknowledged with status byte 7 equal to 0.
     */
    method InitiatorTxRx(dataOut: array<byte>, dataIn: array<byte>) returns (ok: bool)
      requires Valid() && dataOut.Length >= 16 && dataIn.Length >= 16
      requires dataOut != buffer && dataIn != buffer && Request(incoming, 24).Some?
      modifies this, buffer, dataIn
      ensures Valid() && ss
      ensures var r := Request(old(incoming), 24).value;
        var payload := ExchangePayload(old(dataOut[..16]));
        && ok == (Accepted(r) && r.response[7] == 0x00)
        && sent == old(sent) + RequestBytes(payload, r)
        && incoming == old(incoming)[Used(r)..]
        && buffer[..] == Staged(old(buffer[..]), payload, r)
        && dataIn[..] == if Accepted(r) then Over(old(dataIn[..]), r.response[8..24]) else old(dataIn[..])
    {
      buffer[0] := PN532_INDATAEXCHANGE;
      buffer[1] := 0x01;  // target 1
      StageAt(dataOut[..16], 2);
      assert buffer[..] == Over(old(buffer[..]), ExchangePayload(old(dataOut[..16])));
      ghost var r := Request(incoming, 24).value;
      var acked := Issue(18, 24, old(buffer[..]), ExchangePayload(old(dataOut[..16])));
      if !acked {
        return false;
      }
      OverSlice(Over(old(buffer[..]), ExchangePayload(old(dataOut[..16]))), r.response, 8, 24);
      CopyOut(dataIn);
      ok := buffer[7] == 0x00;
    }

    /** configurePeerAsTarget: stage the 38-byte template; true exactly when acknowledged with byte 23 of the 24-byte answer equal to 0. */
    method ConfigurePeerAsTarget() returns (ok: bool)
      requires Valid() && Request(incoming, 24).Some?
      modifies this, buffer
      ensures Valid() && ss
      ensures var r := Request(old(incoming), 24).value;
        && ok == (Accepted(r) && r.response[23] == 0x00)
        && sent == old(sent) + RequestBytes(TARGET_TEMPLATE, r)
        && incoming == old(incoming)[Used(r)..]
        && buffer[..] == Staged(old(buffer[..]), TARGET_TEMPLATE, r)
    {
      StageAt(TARGET_TEMPLATE, 0);
      assert old(buffer[..])[..0] + TARGET_TEMPLATE == TARGET_TEMPLATE;
      var acked := Issue(38, 24, old(buffer[..]), TARGET_TEMPLATE);
      if !acked {
        return false;
      }
      ok := buffer[23] == 0x00;
    }

    /** The nine assignments of configurePeerAsInitiator that stage its payload. */
    method StageInitiator(baudrate: byte)
      requires Valid()
      modifies buffer
      ensures buffer[..] == Over(old(buffer[..]), InitiatorPayload(baudrate))
    {
      buffer[0] := PN532_INJUMPFORDEP;
      buffer[1] := 0x01;  // active mode
      buffer[2] := baudrate;
      buffer[3] := 0x01;  // the optional payload follows
      buffer[4] := 0x00;  // polling request
      buffer[5] := 0xFF;
      buffer[6] := 0xFF;
      buffer[7] := 0x00;
      buffer[8] := 0x00;
      assert buffer[..9] == InitiatorPayload(baudrate);
      OverOfPrefix(buffer[..], old(buffer[..]), 9);
    }

    /**
     * targetTxRx: the receive leg (TgGetData) copies bytes 8..23 of its
     * 24-byte answer into dataIn when acknowledged; when its status byte 7
     * is 0 the send leg (TgSetData of dataOut) follows, and its status byte
     * 7 decides the result. When the receive leg reports an error the source
     * falls off the end of the function without a return value: None.
     * dataOut is read after dataIn is written, so the bytes sent are those
     * dataOut holds at the end.
     */
    method TargetTxRx(dataOut: array<byte>, dataIn: array<byte>) returns (result: Option<bool>)
      requires Valid() && dataOut.Length >= 16 && dataIn.Length >= 16
      requires dataOut != buffer && dataIn != buffer && TargetAnswers(incoming)
      modifies this, buffer, dataIn
      ensures Valid() && ss
      ensures var r1 := Request(old(incoming), 24).value;
        var b1 := Staged(old(buffer[..]), [PN532_TGGETDATA], r1);
        && dataIn[..] == (if Accepted(r1) then Over(old(dataIn[..]), r1.response[8..24]) else old(dataIn[..]))
        && (!(Accepted(r1) && r1.response[7] == 0x00) ==>
              && result == (if Accepted(r1) then None else Some(false))
              && sent == old(sent) + RequestBytes([PN532_TGGETDATA], r1)
              && incoming == old(incoming)[Used(r1)..]
              && buffer[..] == b1)
        && (Accepted(r1) && r1.response[7] == 0x00 ==>
              var r2 := Request(old(incoming)[Used(r1)..], 8).value;
              var payload := SetDataPayload(dataOut[..16]);
              && result == Some(Accepted(r2) && r2.response[7] == 0x00)
              && sent == old(sent) + RequestBytes([PN532_TGGETDATA], r1) + RequestBytes(payload, r2)
              && incoming == old(incoming)[Used(r1)..][Used(r2)..]
              && buffer[..] == Staged(b1, payload, r2))
    {
      // Receiving from the initiator.
      buffer[0] := PN532_TGGETDATA;
      assert buffer[..] == Over(old(buffer[..]), [PN532_TGGETDATA]);
      ghost var r1 := Request(incoming, 24).value;
      var acked := Issue(1, 24, old(buffer[..]), [PN532_TGGETDATA]);
      if !acked {
        return Some(false);
      }
      OverSlice(Over(old(buffer[..]), [PN532_TGGETDATA]), r1.response, 8, 24);
      CopyOut(dataIn);
      if buffer[7] != 0x00 {
        return None;
      }
      assert incoming == old(incoming)[Used(r1)..];
      var ok := TargetSend(dataOut);
      return Some(ok);
    }

    /** The send leg of targetTxRx: TgSetData of dataOut; true exactly when acknowledged with byte 7 of the 8-byte answer equal to 0. */
    method TargetSend(dataOut: array<byte>) returns (ok: bool)
      requires Valid() && dataOut.Length >= 16 && dataOut != buffer && Request(incoming, 8).Some?
      modifies this, buffer
      ensures Valid() && ss
      ensures var r := Request(old(incoming), 8).value;
        var payload := SetDataPayload(dataOut[..16]);
        && ok == (Accepted(r) && r.response[7] == 0x00)
        && sent == old(sent) + RequestBytes(payload, r)
        && incoming == old(incoming)[Used(r)..]
        && buffer[..] == Staged(old(buffer[..]), payload, r)
    {
      buffer[0] := PN532_TGSETDATA;
      StageAt(dataOut[..16], 1);
      assert buffer[..] == Over(old(buffer[..]), SetDataPayload(dataOut[..16]));
      var acked := Issue(17, 8, old(buffer[..]), SetDataPayload(dataOut[..16]));
      if !acked {
        return false;
      }
      ok := buffer[7] == 0x00;
    }

    /** The fourteen assignments of authenticateBlock that stage its payload. */
    method StageAuth(cardnumber: byte, cid: uint32, blockaddress: byte, authtype: byte, keys: array<byte>)
      requires Valid() && keys.Length >= 6 && keys != buffer
      modifies buffer
      ensures buffer[..] == Over(old(buffer[..]), AuthPayload(cardnumber, cid, blockaddress, authtype, keys[..6]))
    {
      buffer[0] := PN532_INDATAEXCHANGE;
      buffer[1] := cardnumber;
      if authtype == KEY_A {
        buffer[2] := PN532_AUTH_WITH_KEYA;
      } else {
        buffer[2] := PN532_AUTH_WITH_KEYB;
      }
      buffer[3] := blockaddress;
      buffer[4] := keys[0];
      buffer[5] := keys[1];
      buffer[6] := keys[2];
      buffer[7] := keys[3];
      buffer[8] := keys[4];
      buffer[9] := keys[5];
      buffer[10] := (cid / 0x100_0000) % 0x100;
      buffer[11] := (cid / 0x1_0000) % 0x100;
      buffer[12] := (cid / 0x100) % 0x100;
      buffer[13] := cid % 0x100;
      ghost var p := AuthPayload(cardnumber, cid, blockaddress, authtype, keys[..6]);
      AuthPayloadBytes(cardnumber, cid, blockaddress, authtype, keys[..6]);
      assert buffer[..] == old(buffer[..])[0 := p[0]][1 := p[1]][2 := p[2]][3 := p[3]][4 := p[4]][5 := p[5]][6 := p[6]]
        [7 := p[7]][8 := p[8]][9 := p[9]][10 := p[10]][11 := p[11]][12 := p[12]][13 := p[13]];
      Stored14(old(buffer[..]), p);
    }

    /**
     * authenticateBlock: authenticate `blockaddress` of card `cardnumber`
     * with key A or B and the card identifier; true exactly when acknowledged
     * with the MIFARE status (bytes 6 and 7 of the 8-byte answer) 0x41 0x00.
     */
    method AuthenticateBlock(cardnumber: byte, cid: uint32, blockaddress: byte, authtype: byte, keys: array<byte>) returns (ok: bool)
      requires Valid() && keys.Length >= 6 && keys != buffer && Request(incoming, 8).Some?
      modifies this, buffer
      ensures Valid() && ss
      ensures var r := Request(old(incoming), 8).value;
        var payload := AuthPayload(cardnumber, cid, blockaddress, authtype, keys[..6]);
        && ok == (Accepted(r) && MifareOk(r.response))
        && sent == old(sent) + RequestBytes(payload, r)
        && incoming == old(incoming)[Used(r)..]
        && buffer[..] == Staged(old(buffer[..]), payload, r)
    {
      StageAuth(cardnumber, cid, blockaddress, authtype, keys);
      var acked := Issue(14, 8, old(buffer[..]), AuthPayload(cardnumber, cid, blockaddress, authtype, keys[..6]));
      if !acked {
        return false;
      }
      ok := buffer[6] == 0x41 && buffer[7] == 0x00;
    }

    /**
     * readMemoryBlock: read `blockaddress` of card `cardnumber`; when
     * acknowledged, bytes 8..23 of the 24-byte answer are copied into block
     * BEFORE the MIFARE status is tested, so a failed read still overwrites
     * block. True exactly when acknowledged with status 0x41 0x00.
     */
    method ReadMemoryBlock(cardnumber: byte, blockaddress: byte, block: array<byte>) returns (ok: bool)
      requires Valid() && block.Length >= 16 && block != buffer && Request(incoming, 24).Some?
      modifies this, buffer, block
      ensures Valid() && ss
      ensures var r := Request(old(incoming), 24).value;
        var payload := ReadBlockPayload(cardnumber, blockaddress);
        && ok == (Accepted(r) && MifareOk(r.response))
        && block[..] == (if Accepted(r) then Over(old(block[..]), r.response[8..24]) else old(block[..]))
        && sent == old(sent) + RequestBytes(payload, r)
        && incoming == old(incoming)[Used(r)..]
        && buffer[..] == Staged(old(buffer[..]), payload, r)
    {
      buffer[0] := PN532_INDATAEXCHANGE;
      buffer[1] := cardnumber;
      buffer[2] := PN532_MIFARE_READ;
      buffer[3] := blockaddress;
      assert buffer[..] == Over(old(buffer[..]), ReadBlockPayload(cardnumber, blockaddress));
      ghost var r := Request(incoming, 24).value;
      var acked := Issue(4, 24, old(buffer[..]), ReadBlockPayload(cardnumber, blockaddress));
      if !acked {
        return false;
      }
      OverSlice(Over(old(buffer[..]), ReadBlockPayload(cardnumber, blockaddress)), r.response, 8, 24);
      CopyOut(block);
      ok := buffer[6] == 0x41 && buffer[7] == 0x00;
    }

    /** writeMemoryBlock: write the 16 bytes of block to `blockaddress` of card `cardnumber`; true exactly when acknowledged with status 0x41 0x00. */
    method WriteMemoryBlock(cardnumber: byte, blockaddress: byte, block: array<byte>) returns (ok: bool)
      requires Valid() && block.Length >= 16 && block != buffer && Request(incoming, 8).Some?
      modifies this, buffer
      ensures Valid() && ss
      ensures var r := Request(old(incoming), 8).value;
        var payload := WriteBlockPayload(cardnumber, blockaddress, block[..16]);
        && ok == (Accepted(r) && MifareOk(r.response))
        && sent == old(sent) + RequestBytes(payload, r)
        && incoming == old(incoming)[Used(r)..]
        && buffer[..] == Staged(old(buffer[..]), payload, r)
    {
      buffer[0] := PN532_INDATAEXCHANGE;
      buffer[1] := cardnumber;
      buffer[2] := PN532_MIFARE_WRITE;
      buffer[3] := blockaddress;
      StageAt(block[..16], 4);
      assert buffer[..] == Over(old(buffer[..]), WriteBlockPayload(cardnumber, blockaddress, block[..16]));
      var acked := Issue(20, 8, old(buffer[..]), WriteBlockPayload(cardnumber, blockaddress, block[..16]));
      if !acked {
        return false;
      }
      ok := buffer[6] == 0x41 && buffer[7] == 0x00;
    }

    /**
     * readPassiveTargetID: list at most one target; 0 unless acknowledged
     * with byte 7 of the 20-byte answer listing exactly one target; otherwise
     * the L = buffer[12] identifier bytes from buffer[13] on, shifted into a
     * uint32_t one by one.
     */
    method ReadPassiveTargetId(cardbaudrate: byte) returns (cid: uint32)
      requires Valid() && Request(incoming, 20).Some? && ListedIdFits(Request(incoming, 20).value)
      modifies this, buffer
      ensures Valid() && ss
      ensures var r := Request(old(incoming), 20).value;
        && buffer[..] == Staged(old(buffer[..]), ListPayload(cardbaudrate), r)
        && cid == PassiveTargetAnswer(r, buffer[..])
        && sent == old(sent) + RequestBytes(ListPayload(cardbaudrate), r)
        && incoming == old(incoming)[Used(r)..]
    {
      buffer[0] := PN532_INLISTPASSIVETARGET;
      buffer[1] := 1;  // at most one target
      buffer[2] := cardbaudrate;
      assert buffer[..] == Over(old(buffer[..]), ListPayload(cardbaudrate));
      var acked := Issue(3, 20, old(buffer[..]), ListPayload(cardbaudrate));
      if !acked {
        return 0;
      }
      if buffer[7] != 1 {
        return 0;
      }
      cid := FoldId();
    }

    /** The identifier loop of readPassiveTargetID: for i < buffer[12], cid <<= 8; cid |= buffer[13 + i]. */
    method FoldId() returns (cid: uint32)
      requires Valid() && 13 + buffer[12] <= buffer.Length
      ensures cid == TargetId(buffer[..])
    {
      cid := 0;
      var i: byte := 0;
      while i < buffer[12]
        invariant i <= buffer[12]
        invariant cid == ShiftIn(buffer[13..13 + i])
      {
        assert buffer[13..13 + i + 1][..i] == buffer[13..13 + i];
        cid := (cid * 0x100 + buffer[13 + i]) % 0x1_0000_0000;  // (cid << 8) | b: the low byte of cid << 8 is clear
        i := i + 1;
      }
    }

    /** readRegister: when acknowledged, store byte 0 of the 2-byte answer in value[0] and return true; otherwise false with value untouched. */
    method ReadRegister(address: uint16, value: array<byte>) returns (ok: bool)
      requires Valid() && value.Length >= 1 && value != buffer && Request(incoming, 2).Some?
      modifies this, buffer, value
      ensures Valid() && ss
      ensures var r := Request(old(incoming), 2).value;
        && ok == Accepted(r)
        && value[..] == (if Accepted(r) then old(value[..])[0 := r.response[0]] else old(value[..]))
        && sent == old(sent) + RequestBytes(ReadRegisterPayload(address), r)
        && incoming == old(incoming)[Used(r)..]
        && buffer[..] == Staged(old(buffer[..]), ReadRegisterPayload(address), r)
    {
      buffer[0] := PN532_READREGISTER;
      buffer[1] := address / 0x100;  // address >> 8
      buffer[2] := address % 0x100;  // address & 0xff
      assert buffer[..] == Over(old(buffer[..]), ReadRegisterPayload(address));
      var acked := Issue(3, 2, old(buffer[..]), ReadRegisterPayload(address));
      if !acked {
        return false;
      }
      value[0] := buffer[0];
      return true;
    }

    /** writeRegister: stage the address and value and run the handshake; true exactly when it is acknowledged. Nothing is read back. */
    method WriteRegister(address: uint16, value: byte) returns (ok: bool)
      requires Valid() && Transact(incoming, DEFAULT_TIMEOUT, true).Some?
      modifies this, buffer
      ensures Valid() && ss
      ensures var x := Transact(old(incoming), DEFAULT_TIMEOUT, true).value;
        var payload := WriteRegisterPayload(address, value);
        && ok == (x.outcome == Acked)
        && sent == old(sent) + [PN532_SPI_DATAWRITE] + CommandFrame(payload, 4) + HostBytes(x)
        && incoming == old(incoming)[Consumed(x)..]
        && buffer[..] == Over(old(buffer[..]), payload)
    {
      buffer[0] := PN532_WRITEREGISTER;
      buffer[1] := address / 0x100;
      buffer[2] := address % 0x100;
      buffer[3] := value;
      assert buffer[..4] == WriteRegisterPayload(address, value);
      OverOfPrefix(buffer[..], old(buffer[..]), 4);
      CommandFrameOfPrefix(buffer[..], 4);
      ok := SendCommandCheckAck(buffer, 4, DEFAULT_TIMEOUT);
    }
  }
}
