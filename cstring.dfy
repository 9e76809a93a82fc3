/**
 * strncmp as the driver uses it to compare received bytes with a constant.
 * Comparison stops at the first difference or at a NUL byte both sides share,
 * so a constant that begins with 0x00 is matched by any buffer that does.
 */
module CString {
  import opened Pn532Header

  /**
   * strncmp(a, b, n) on unsigned characters: the difference of the first
   * differing bytes among the first n, or 0 when there is none before the
   * first NUL or the n-th byte.
   */
  function StrNCmp(a: seq<byte>, b: seq<byte>, n: nat): int
    requires n <= |a| && n <= |b|
  {
    if n == 0 then 0
    else if a[0] != b[0] then a[0] - b[0]
    else if a[0] == 0 then 0
    else StrNCmp(a[1..], b[1..], n - 1)
  }

  /** No NUL byte among the first i bytes of a. */
  ghost predicate NoNulBefore(a: seq<byte>, i: nat)
    requires i <= |a|
  {
    forall j :: 0 <= j < i ==> a[j] != 0
  }

  /**
   * strncmp reports equality exactly when a and b agree at every position up
   * to n that is not preceded by a NUL in a.
   */
  lemma {:induction false} StrNCmpEqual(a: seq<byte>, b: seq<byte>, n: nat)
    requires n <= |a| && n <= |b|
    ensures StrNCmp(a, b, n) == 0 <==>
      forall i :: 0 <= i < n && NoNulBefore(a, i) ==> a[i] == b[i]
  {
    if n > 0 && a[0] == b[0] && a[0] != 0 {
      StrNCmpEqual(a[1..], b[1..], n - 1);
      forall i | 0 < i < n && NoNulBefore(a, i)
        ensures NoNulBefore(a[1..], i - 1)
      {
      }
      forall i | 0 <= i < n - 1 && NoNulBefore(a[1..], i)
        ensures NoNulBefore(a, i + 1)
      {
      }
      assert forall i :: 0 < i < n ==> a[i] == a[1..][i - 1] && b[i] == b[1..][i - 1];
    } else if n > 0 && a[0] != b[0] {
      assert NoNulBefore(a, 0);
    }
  }

  /**
   * Against a constant whose first byte is NUL, strncmp with n >= 1 reports
   * equality exactly when the first byte of a is NUL; the other bytes of the
   * constant are never looked at.
   */
  lemma LeadingNulCollapse(a: seq<byte>, b: seq<byte>, n: nat)
    requires 1 <= n <= |a| && n <= |b| && b[0] == 0
    ensures StrNCmp(a, b, n) == 0 <==> a[0] == 0
  {
  }

  /** The acknowledgement test of spi_readack passes exactly when the first byte read is 0x00. */
  lemma AckTestOnlyReadsByteZero(a: seq<byte>)
    requires |a| >= 6
    ensures StrNCmp(a, PN532_ACK, 6) == 0 <==> a[0] == 0x00
  {
    LeadingNulCollapse(a, PN532_ACK, 6);
  }

  /** The firmware signature test passes exactly when the first buffer byte is 0x00. */
  lemma SignatureTestOnlyReadsByteZero(a: seq<byte>)
    requires |a| >= 6
    ensures StrNCmp(a, PN532_FIRMWARE_SIGNATURE, 6) == 0 <==> a[0] == 0x00
  {
    LeadingNulCollapse(a, PN532_FIRMWARE_SIGNATURE, 6);
  }
}
