/**
 * The bit link: how a byte becomes eight MOSI levels and how eight MISO
 * samples become a byte. Both directions are least-significant bit first.
 * Bytes stay integers here, as uint8_t values are in C: bit i of c is
 * c & _BV(i), and the byte assembled from samples is the sum of the _BV(i)
 * whose sample was high.
 */
module BitLink {
  import opened Pn532Header

  /** _BV(i), that is 1 << i. */
  function Mask(i: nat): nat
  {
    if i == 0 then 1 else 2 * Mask(i - 1)
  }

  /** Whether c & _BV(i) is non-zero: bit 0 is the parity of c, bit i > 0 is bit i - 1 of c / 2. */
  predicate BitSet(c: nat, i: nat)
  {
    if i == 0 then c % 2 == 1 else BitSet(c / 2, i - 1)
  }

  /** Bits 0 .. n - 1 of c, least significant first. */
  function Bits(c: nat, n: nat): (bits: seq<bool>)
    ensures |bits| == n
  {
    seq(n, i requires 0 <= i < n => BitSet(c, i))
  }

  /** The levels spiwrite drives on MOSI for c: in clock cycle i, bit i of c. */
  function BitsOf(c: byte): (bits: seq<bool>)
    ensures |bits| == 8
  {
    Bits(c, 8)
  }

  /**
   * The value spiread assembles from the samples `bits`: sample i, when high,
   * sets bit i. The bits below i are the only ones set when sample i arrives,
   * so x |= _BV(i) adds _BV(i).
   */
  function ByteOf(bits: seq<bool>): (x: nat)
    ensures x < Mask(|bits|)
  {
    if bits == [] then 0
    else ByteOf(bits[..|bits| - 1]) + (if bits[|bits| - 1] then Mask(|bits| - 1) else 0)
  }

  /** Read from the front, the first sample is the parity and the rest weigh double. */
  lemma {:induction false} ByteOfFront(bits: seq<bool>)
    requires bits != []
    ensures ByteOf(bits) == (if bits[0] then 1 else 0) + 2 * ByteOf(bits[1..])
  {
    var n := |bits|;
    if n > 1 {
      var init := bits[..n - 1];
      ByteOfFront(init);
      assert init[1..] == bits[1..][..n - 2];
      assert bits[1..][n - 2] == bits[n - 1];
    }
  }

  /** Any c below 2^n is the value of its n low bits. */
  lemma {:induction false} ValueOfBits(c: nat, n: nat)
    requires c < Mask(n)
    ensures ByteOf(Bits(c, n)) == c
  {
    if n > 0 {
      var bits := Bits(c, n);
      ByteOfFront(bits);
      assert bits[1..] == Bits(c / 2, n - 1);
      ValueOfBits(c / 2, n - 1);
    }
  }

  /** The low bits of the value of some samples are those samples. */
  lemma {:induction false} BitsOfValue(bits: seq<bool>)
    ensures Bits(ByteOf(bits), |bits|) == bits
  {
    if bits != [] {
      var n := |bits|;
      ByteOfFront(bits);
      BitsOfValue(bits[1..]);
      forall i | 0 <= i < n
        ensures Bits(ByteOf(bits), n)[i] == bits[i]
      {
        if i > 0 {
          assert Bits(ByteOf(bits[1..]), n - 1)[i - 1] == bits[i];
        }
      }
    }
  }

  /** 2^8. */
  lemma ByteMask()
    ensures Mask(8) == 0x100
  {
    assert Mask(4) == 16;
  }

  /** What the chip samples from spiwrite(c), spiread assembles back into c. */
  lemma ReadWhatWasWritten(c: byte)
    ensures ByteOf(BitsOf(c)) == c
  {
    ByteMask();
    ValueOfBits(c, 8);
  }

  /** Eight samples read by spiread, sent again by spiwrite, are the same eight levels. */
  lemma WriteWhatWasRead(bits: seq<bool>)
    requires |bits| == 8
    ensures ByteOf(bits) < 0x100 && BitsOf(ByteOf(bits)) == bits
  {
    ByteMask();
    BitsOfValue(bits);
  }
}
