/**
 * Decoding of the answers the catalogue reads back into the packet buffer:
 * the uint32_t accumulation of identifiers and versions, the fixed-offset
 * status tests, and the byte selection readRawCommandAnswer forwards.
 */
module Responses {
  import opened Pn532Header
  import opened Framing

  /** The value of s read as a big-endian number, without truncation. */
  function BigEndian(s: seq<byte>): nat
  {
    if s == [] then 0 else BigEndian(s[..|s| - 1]) * 256 + s[|s| - 1]
  }

  /** 256 to the power k. */
  function Pow256(k: nat): nat
  {
    if k == 0 then 1 else 256 * Pow256(k - 1)
  }

  /** A big-endian number of k bytes is below 256^k. */
  lemma {:induction false} BigEndianBound(s: seq<byte>)
    ensures BigEndian(s) < Pow256(|s|)
  {
    if s != [] {
      BigEndianBound(s[..|s| - 1]);
    }
  }

  /** Up to three bytes read big-endian stay below 2^24. */
  lemma ShortBound(s: seq<byte>)
    requires |s| <= 3
    ensures BigEndian(s) < 0x100_0000
  {
    BigEndianBound(s);
    assert Pow256(2) == 0x1_0000;
  }

  /** Four bytes read big-endian, spelled out. */
  lemma BigEndianOfFour(t: seq<byte>)
    requires |t| == 4
    ensures BigEndian(t) == t[0] as int * 0x100_0000 + t[1] as int * 0x1_0000 + t[2] as int * 0x100 + t[3]
  {
    assert t[..1][..0] == [] && t[..2][..1] == t[..1] && t[..3][..2] == t[..2] && t[..3] == t[..|t| - 1];
    assert BigEndian(t[..1]) == t[0];
    assert BigEndian(t[..2]) == t[0] as int * 0x100 + t[1];
    assert BigEndian(t[..3]) == BigEndian(t[..2]) * 0x100 + t[2];
  }

  /** The conversion to uint32_t of 2^32 m + r is r when r fits. */
  lemma Uint32OfMultiple(x: int, m: int, r: int)
    requires x == 0x1_0000_0000 * m + r && 0 <= r < 0x1_0000_0000
    ensures x % 0x1_0000_0000 == r
  {
  }

  /** The uint32_t accumulation `x = (x << 8) | b` over s, starting from 0. */
  function ShiftIn(s: seq<byte>): uint32
  {
    if s == [] then 0 else (ShiftIn(s[..|s| - 1]) * 256 + s[|s| - 1]) % 0x1_0000_0000
  }

  /** The last min(4, |s|) bytes of s. */
  function LastFour(s: seq<byte>): seq<byte>
  {
    if |s| <= 4 then s else s[|s| - 4..]
  }

  /**
   * The accumulation is the big-endian value of the bytes for up to four
   * bytes; of a longer sequence it keeps only the last four bytes.
   */
  lemma {:induction false} ShiftInKeepsLastFour(s: seq<byte>)
    ensures ShiftIn(s) == BigEndian(LastFour(s))
  {
    if s != [] {
      var init, b := s[..|s| - 1], s[|s| - 1];
      ShiftInKeepsLastFour(init);
      var t := LastFour(init);
      assert ShiftIn(s) == (ShiftIn(init) * 256 + b) % 0x1_0000_0000;
      if |init| < 4 {
        ShortBound(init);
        assert LastFour(s) == s && BigEndian(s) == BigEndian(init) * 256 + b;
        Uint32OfMultiple(ShiftIn(init) * 256 + b, 0, BigEndian(s));
      } else {
        var u := t[1..] + [b];
        BigEndianOfFour(t);
        BigEndianOfFour(u);
        Uint32OfMultiple(ShiftIn(init) * 256 + b, t[0], BigEndian(u));
        assert LastFour(s) == u;
      }
    }
  }

  /** The version getFirmwareVersion assembles from response bytes 6..9. */
  function FirmwareVersion(response: seq<byte>): uint32
    requires |response| >= 10
  {
    ShiftIn(response[6..10])
  }

  /** The version is b6 b7 b8 b9 read big-endian, nothing truncated. */
  lemma FirmwareVersionValue(response: seq<byte>)
    requires |response| >= 10
    ensures FirmwareVersion(response) ==
      response[6] as int * 0x100_0000 + response[7] as int * 0x1_0000 + response[8] as int * 0x100 + response[9]
  {
    var v := response[6..10];
    ShiftInKeepsLastFour(v);
    BigEndianOfFour(v);
  }

  /** The identifier readPassiveTargetID returns when one target is listed: bytes 13.. of the buffer, L = byte 12 of them. */
  function TargetId(buf: seq<byte>): uint32
    requires |buf| >= 13 && 13 + buf[12] <= |buf|
  {
    ShiftIn(buf[13..13 + buf[12]])
  }

  /** The status test of authenticateBlock, readMemoryBlock and writeMemoryBlock. */
  predicate MifareOk(response: seq<byte>)
    requires |response| >= 8
  {
    response[6] == 0x41 && response[7] == 0x00
  }

  /** s over the start of base: what a buffer holds after s is stored at its start. */
  function Over(base: seq<byte>, s: seq<byte>): (r: seq<byte>)
    requires |s| <= |base|
    ensures |r| == |base| && r[..|s|] == s && r[|s|..] == base[|s|..]
  {
    s + base[|s|..]
  }

  /** A buffer that differs from base only below n holds its first n bytes over base. */
  lemma OverOfPrefix(b: seq<byte>, base: seq<byte>, n: nat)
    requires |b| == |base| && n <= |b| && b[n..] == base[n..]
    ensures b == Over(base, b[..n])
  {
    assert b == b[..n] + b[n..];
  }

  /** Within the stored bytes, a buffer reads what was stored. */
  lemma OverSlice(base: seq<byte>, s: seq<byte>, i: nat, j: nat)
    requires i <= j <= |s| <= |base|
    ensures Over(base, s)[i..j] == s[i..j]
  {
    assert Over(base, s)[i..j] == Over(base, s)[..|s|][i..j];
  }

  /** Fourteen single-byte stores at positions 0..13 store the fourteen bytes of p. */
  lemma Stored14(base: seq<byte>, p: seq<byte>)
    requires |p| == 14 <= |base|
    ensures base[0 := p[0]][1 := p[1]][2 := p[2]][3 := p[3]][4 := p[4]][5 := p[5]][6 := p[6]]
      [7 := p[7]][8 := p[8]][9 := p[9]][10 := p[10]][11 := p[11]][12 := p[12]][13 := p[13]] == Over(base, p)
  {
  }

  /** Storing one more byte right after s extends s by that byte. */
  lemma OverSnoc(base: seq<byte>, s: seq<byte>, x: byte)
    requires |s| < |base|
    ensures Over(base, s)[|s| := x] == Over(base, s + [x])
  {
  }

  /** A longer store hides a shorter one beneath it. */
  lemma OverTwice(base: seq<byte>, s: seq<byte>, t: seq<byte>)
    requires |s| <= |t| <= |base|
    ensures Over(Over(base, s), t) == Over(base, t)
  {
  }

  /** How many bytes readspidataAnswer stores: max(n, 5). */
  function AnswerCount(answer: seq<byte>): nat
    requires |answer| >= 5
  {
    if AnswerLength(answer[..5]) < 5 then 5 else AnswerLength(answer[..5])
  }

  /**
   * The bytes readRawCommandAnswer forwards from a buffer holding n fresh
   * bytes: the first n when the buffer starts with two nulls; otherwise a
   * null followed by the first n - 1.
   */
  function RawForward(buf: seq<byte>, n: byte): seq<byte>
    requires 2 <= |buf| && n <= |buf|
    requires (buf[0] == 0 && buf[1] == 0) || n >= 1
  {
    if buf[0] == 0 && buf[1] == 0 then buf[..n] else [0] + buf[..n - 1]
  }

  /** readspidataAnswer on `answer`, then readRawCommandAnswer's selection, over a buffer that held `buf`. */
  function RawAnswer(answer: seq<byte>, buf: seq<byte>): seq<byte>
    requires |buf| == PN532_PACKBUFFSIZ && |answer| >= 5
    requires AnswerCount(answer) <= |answer| && AnswerCount(answer) <= PN532_PACKBUFFSIZ
    requires (answer[0] == 0 && answer[1] == 0) || AnswerLength(answer[..5]) >= 1
  {
    RawForward(Over(buf, answer[..AnswerCount(answer)]), AnswerLength(answer[..5]))
  }

  /**
   * Whatever follows it, a chip frame with LEN <= 57 is forwarded unchanged,
   * both when it arrives whole and when its leading null byte is lost: the
   * length rule then counts one byte past the frame, and the null the
   * forwarding adds in front restores the frame.
   */
  lemma RawAnswerForwardsFrame(len: byte, tfi: byte, body: seq<byte>, e: byte, rest: seq<byte>, buf: seq<byte>)
    requires len == |body| + 1 && len <= 57 && |buf| == PN532_PACKBUFFSIZ
    ensures var f := Frame(len, tfi, body);
      && RawAnswer(f + rest, buf) == f
      && RawAnswer(f[1..] + [e] + rest, buf) == f
  {
    var f := Frame(len, tfi, body);
    AnswerLengthOfFrame(len, tfi, body);
    var whole := f + rest;
    assert whole[..5] == f[..5];
    assert whole[..|f|] == f;
    var dropped := f[1..] + [e] + rest;
    assert dropped[..5] == f[1..6];
    assert dropped[..|f|] == f[1..] + [e];
    assert [0] + (f[1..] + [e])[..|f| - 1] == f;
  }
}
