/**
 * The PN532 normal information frame (NXP UM0701-02, section 6.2.1.1) as the
 * host builds it, the length rule the host applies to the header of an
 * answer, and a frame parser that serves as the reference definition of a
 * well-formed frame.
 */
module Framing {
  import opened Pn532Header
  import opened Optional

  /** The sum of s as a uint8_t accumulator computes it. */
  function Sum(s: seq<byte>): byte
  {
    if s == [] then 0 else Byte(Sum(s[..|s| - 1]) as int + s[|s| - 1])
  }

  /**
   * The uint8_t checksum spiwritecommand keeps: PREAMBLE + PREAMBLE +
   * STARTCODE2, plus the direction byte, plus the body bytes.
   */
  function Checksum(tfi: byte, body: seq<byte>): byte
  {
    Byte(PN532_PREAMBLE as int + PN532_PREAMBLE + PN532_STARTCODE2 + tfi + Sum(body))
  }

  /** The checksum before any body byte: the sum of the start bytes, reduced, plus the direction byte. */
  lemma ChecksumStart(tfi: byte)
    ensures Checksum(tfi, []) == Byte(Byte(PN532_PREAMBLE as int + PN532_PREAMBLE + PN532_STARTCODE2) as int + tfi)
  {
    ReduceFirst(PN532_PREAMBLE as int + PN532_PREAMBLE + PN532_STARTCODE2, tfi);
  }

  /** One more body byte is one more uint8_t addition to the checksum. */
  lemma ChecksumSnoc(tfi: byte, body: seq<byte>, c: byte)
    ensures Checksum(tfi, body + [c]) == Byte(Checksum(tfi, body) as int + c)
  {
    var k := PN532_PREAMBLE as int + PN532_PREAMBLE + PN532_STARTCODE2 + tfi;
    assert (body + [c])[..|body|] == body;
    assert Sum(body + [c]) == Byte(Sum(body) as int + c);
    ReduceSecond(k, Sum(body) as int + c);
    ReduceFirst(k + Sum(body), c);
  }

  /**
   * How many command bytes spiwritecommand(cmd, cmdlen) sends. It increments
   * the uint8_t cmdlen and loops while i < cmdlen - 1 in int arithmetic, so
   * cmdlen = 255 wraps LEN to 0 and sends no command byte at all.
   */
  function BodyLength(cmdlen: byte): nat
  {
    if cmdlen == 0xFF then 0 else cmdlen
  }

  /** The loop bound of spiwritecommand, LEN - 1 in int arithmetic, counts the body bytes; for the wrapped LEN 0 it is -1. */
  lemma BodyLengthFromLen(cmdlen: byte)
    ensures var len := Byte(cmdlen as int + 1);
      len as int - 1 == (if cmdlen == 0xFF then -1 else BodyLength(cmdlen))
  {
    if cmdlen == 0xFF {
      assert Byte(cmdlen as int + 1) == 0;
    } else {
      assert Byte(cmdlen as int + 1) == cmdlen as int + 1;
    }
  }

  /** LCS: ~LEN + 1, converted to uint8_t. */
  function LengthChecksum(len: byte): byte
  {
    Byte(-(len as int) - 1 + 1)
  }

  /**
   * DCS: the complement of a uint8_t checksum that starts from
   * PREAMBLE + PREAMBLE + STARTCODE2 and adds the direction byte and the body.
   */
  function DataChecksum(tfi: byte, body: seq<byte>): byte
  {
    Not(Checksum(tfi, body))
  }

  /** The frame bytes in wire order, for a given LEN field, direction byte and body. */
  function Frame(len: byte, tfi: byte, body: seq<byte>): seq<byte>
  {
    [PN532_PREAMBLE, PN532_PREAMBLE, PN532_STARTCODE2, len, LengthChecksum(len), tfi]
      + body + [DataChecksum(tfi, body), PN532_POSTAMBLE]
  }

  /** The frame spiwritecommand(cmd, cmdlen) sends after the SPI data-write byte. */
  function CommandFrame(cmd: seq<byte>, cmdlen: byte): seq<byte>
    requires BodyLength(cmdlen) <= |cmd|
  {
    Frame(Byte(cmdlen as int + 1), PN532_HOSTTOPN532, cmd[..BodyLength(cmdlen)])
  }

  /** The command frame depends only on the bytes it sends. */
  lemma CommandFrameOfPrefix(cmd: seq<byte>, cmdlen: byte)
    requires cmdlen <= 254 && cmdlen <= |cmd|
    ensures CommandFrame(cmd, cmdlen) == CommandFrame(cmd[..cmdlen], cmdlen)
  {
    assert cmd[..cmdlen][..cmdlen] == cmd[..cmdlen];
  }

  /**
   * The bytes spiwritecommand sends, computed as it computes them (LEN as a
   * uint8_t increment, LCS as ~LEN + 1, DCS as the complement of the
   * checksum), are the command frame.
   */
  lemma CommandFrameAsSent(cmd: seq<byte>, cmdlen: byte, body: seq<byte>)
    requires BodyLength(cmdlen) <= |cmd| && body == cmd[..BodyLength(cmdlen)]
    ensures var len := Byte(cmdlen as int + 1);
      CommandFrame(cmd, cmdlen)
      == [PN532_PREAMBLE, PN532_PREAMBLE, PN532_STARTCODE2, len, Byte(-(len as int) - 1 + 1), PN532_HOSTTOPN532]
         + body + [Not(Checksum(PN532_HOSTTOPN532, body)), PN532_POSTAMBLE]
  {
  }

  /**
   * Reference definition of a well-formed frame with direction byte tfi:
   * preamble, start code, LEN >= 1 with LEN + LCS = 0 (mod 256), exactly
   * LEN - 1 body bytes, TFI + body + DCS = 0 (mod 256), postamble. Gives the
   * body when f is such a frame.
   */
  function ParseFrame(f: seq<byte>, tfi: byte): Option<seq<byte>>
  {
    if |f| < 8 || f[0] != PN532_PREAMBLE || f[1] != PN532_PREAMBLE || f[2] != PN532_STARTCODE2 then None
    else if f[3] == 0 || Byte(f[3] as int + f[4]) != 0 || |f| != f[3] as int + 7 then None
    else if f[5] != tfi || Byte(tfi as int + Sum(f[6..|f| - 2]) + f[|f| - 2]) != 0 || f[|f| - 1] != PN532_POSTAMBLE then None
    else Some(f[6..|f| - 2])
  }

  /** Both checksums of any frame the host builds cancel out modulo 256. */
  lemma FrameChecksums(len: byte, tfi: byte, body: seq<byte>)
    ensures var f := Frame(len, tfi, body);
      && |f| == |body| + 8
      && (f[3] as int + f[4]) % 256 == 0
      && (f[5] as int + Sum(body) + f[|f| - 2]) % 256 == 0
  {
    ReduceSecond(len, -(len as int));
    var a := tfi as int + Sum(body);
    var y := PN532_PREAMBLE as int + PN532_PREAMBLE + PN532_STARTCODE2 + a;
    calc {
      Byte(a + DataChecksum(tfi, body));
      Byte(a + Byte(-(Byte(y) as int) - 1));
      { ReduceSecond(a, -(Byte(y) as int) - 1); }
      Byte(a - 1 - Byte(y));
      { ReduceSubtrahend(a - 1, y); }
      Byte(a - 1 - y);
      Byte(-0x100);
    }
    assert Frame(len, tfi, body)[|body| + 6] == DataChecksum(tfi, body);
  }

  /** ParseFrame gives back the body of every frame the host builds with a LEN that counts the direction byte and the body. */
  lemma {:induction false} FrameRoundTrip(len: byte, tfi: byte, body: seq<byte>)
    requires len == |body| + 1
    ensures ParseFrame(Frame(len, tfi, body), tfi) == Some(body)
  {
    var f := Frame(len, tfi, body);
    FrameChecksums(len, tfi, body);
    assert f[6..|f| - 2] == body;
  }

  /**
   * For cmdlen <= 254 the command frame has the documented layout and
   * ParseFrame gives back exactly the command bytes.
   */
  lemma {:induction false} CommandFrameRoundTrip(cmd: seq<byte>, cmdlen: byte)
    requires cmdlen <= 254 && cmdlen <= |cmd|
    ensures var f := CommandFrame(cmd, cmdlen);
      && |f| == cmdlen + 8
      && f[..6] == [PN532_PREAMBLE, PN532_PREAMBLE, PN532_STARTCODE2, cmdlen as int + 1, 255 - cmdlen, PN532_HOSTTOPN532]
      && f[6..|f| - 2] == cmd[..cmdlen]
      && f[|f| - 1] == PN532_POSTAMBLE
      && ParseFrame(f, PN532_HOSTTOPN532) == Some(cmd[..cmdlen])
  {
    var body := cmd[..cmdlen];
    var f := CommandFrame(cmd, cmdlen);
    ByteOfMultiple(cmdlen as int + 1, 0, cmdlen as int + 1);
    ByteOfMultiple(-(cmdlen as int + 1), -1, 255 - cmdlen);
    assert f == Frame(cmdlen as int + 1, PN532_HOSTTOPN532, body);
    assert f[4] == 255 - cmdlen;
    FrameRoundTrip(cmdlen as int + 1, PN532_HOSTTOPN532, body);
    assert f[6..|f| - 2] == body;
  }

  /** cmdlen = 255 makes spiwritecommand send a frame with LEN = 0, which ParseFrame refuses. */
  lemma LongestCommandIsMalformed(cmd: seq<byte>)
    ensures var f := CommandFrame(cmd, 0xFF);
      && f == [PN532_PREAMBLE, PN532_PREAMBLE, PN532_STARTCODE2, 0, 0, PN532_HOSTTOPN532,
               DataChecksum(PN532_HOSTTOPN532, []), PN532_POSTAMBLE]
      && ParseFrame(f, PN532_HOSTTOPN532) == None
  {
  }

  /** ParseFrame accepts nothing but frames the host's encoder would build. */
  lemma {:induction false} ParsedFrameIsEncoded(f: seq<byte>, tfi: byte, body: seq<byte>)
    requires ParseFrame(f, tfi) == Some(body)
    ensures |body| <= 254 && f == Frame(|body| as int + 1, tfi, body)
  {
    assert body == f[6..|f| - 2];
    // LCS: LEN + LCS = 0 (mod 256) leaves only LCS = -LEN (mod 256).
    var len, lcs := f[3] as int, f[4] as int;
    assert Byte(len + lcs) == 0;
    ReduceFirst(len + lcs, -len);
    ByteOfMultiple(lcs, 0, lcs);
    assert lcs == LengthChecksum(f[3]);
    // DCS: TFI + body + DCS = 0 (mod 256) leaves only DCS = -(TFI + body) (mod 256).
    var a, dcs := tfi as int + Sum(body), f[|f| - 2] as int;
    assert Byte(a + dcs) == 0;
    ReduceFirst(a + dcs, -a);
    ByteOfMultiple(dcs, 0, dcs);
    assert Byte(-a) == dcs;
    var k := PN532_PREAMBLE as int + PN532_PREAMBLE + PN532_STARTCODE2 + a;
    assert k == 0xFF + a;
    ReduceSubtrahend(-1, k);
    assert DataChecksum(tfi, body) == Byte(-1 - k);
    ByteOfMultiple(-1 - k, (-a) / 0x100 - 1, Byte(-a));
    assert dcs == DataChecksum(tfi, body);
    assert f == f[..6] + f[6..|f| - 2] + [f[|f| - 2], f[|f| - 1]];
  }

  /**
   * The frame length readspidataAnswer derives from the first five bytes it
   * reads: 5 + LEN + 2 as a uint8_t, LEN taken from byte 3, or from byte 2
   * when byte 2 is not 0xFF (the leading null was not received).
   */
  function AnswerLength(header: seq<byte>): byte
    requires |header| >= 5
  {
    Byte(5 + (if header[2] == 0xFF then header[3] else header[2]) as int + 2)
  }

  /**
   * For a frame whose LEN counts its direction byte and body, the length rule
   * gives the frame's own length, both when the frame arrives whole and when
   * its leading null is missing.
   */
  lemma AnswerLengthOfFrame(len: byte, tfi: byte, body: seq<byte>)
    requires len == |body| + 1 && len <= 248
    ensures var f := Frame(len, tfi, body);
      && AnswerLength(f[..5]) == |f|
      && AnswerLength(f[1..6]) == |f|
  {
  }
}
