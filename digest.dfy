module Digest {
  import opened Bytes

  /** One more than the largest `unsigned int`. */
  const UINT_LIMIT := 0x1_0000_0000
  /** Digest length of SHA-256. */
  const DIGEST_SIZE := 32

  // ---- digests and difficulty

  /** The masks 0x80, 0x40, ..., 0x01 of the bits of a byte, most significant first, then 0. */
  const MASKS: seq<int> := [128, 64, 32, 16, 8, 4, 2, 1, 0]

  /** The bits of a byte, most significant first. */
  function ByteBits(b: byte): (r: seq<int>)
    ensures |r| == 8
  {
    [b / 128 % 2, b / 64 % 2, b / 32 % 2, b / 16 % 2, b / 8 % 2, b / 4 % 2, b / 2 % 2, b % 2]
  }

  /** Bit t of a digest, bytes in order, most significant bit of each byte first. */
  function BitAt(d: seq<byte>, t: nat): int
    requires t < 8 * |d|
  {
    ByteBits(d[t / 8])[t % 8]
  }

  /** Testing a byte against mask j is reading bit j. */
  lemma MaskBit(b: byte, j: nat)
    requires j < 8
    ensures (b / MASKS[j]) % 2 == ByteBits(b)[j]
  {
  }

  /**
   * The first k bits of d are zero: whole zero bytes while k >= 8, then a
   * byte whose top k bits are zero, that is one below the mask of bit k - 1.
   */
  predicate LeadingZeroBits(d: seq<byte>, k: nat)
    requires k <= 8 * |d|
  {
    if k == 0 then true
    else if k < 8 then d[0] < MASKS[k - 1]
    else d[0] == 0 && LeadingZeroBits(d[1..], k - 8)
  }

  /** Bit t of d continues a run of t leading zero bits exactly when it is zero. */
  lemma {:induction false} ZeroBitStep(d: seq<byte>, t: nat)
    requires t < 8 * |d|
    ensures LeadingZeroBits(d, t + 1) <==> LeadingZeroBits(d, t) && BitAt(d, t) == 0
    decreases t
  {
    if t >= 8 {
      ZeroBitStep(d[1..], t - 8);
      assert BitAt(d, t) == BitAt(d[1..], t - 8) by {
        assert t / 8 == (t - 8) / 8 + 1 && t % 8 == (t - 8) % 8;
      }
    }
  }

  /** Leading zero bits, stated bit by bit. */
  lemma {:induction false} LeadingZeroBitsIff(d: seq<byte>, k: nat)
    requires k <= 8 * |d|
    ensures LeadingZeroBits(d, k) <==> forall t :: 0 <= t < k ==> BitAt(d, t) == 0
  {
    if k > 0 {
      LeadingZeroBitsIff(d, k - 1);
      ZeroBitStep(d, k - 1);
    }
  }

  /** A digest of dsize bytes meets difficulty diff. */
  predicate Meets(d: seq<byte>, dsize: nat, diff: nat)
    requires dsize <= |d|
  {
    1 <= diff <= 8 * dsize && LeadingZeroBits(d, diff)
  }

  /** A hash function whose every digest has the SHA-256 length. */
  ghost predicate DigestSized(hash: seq<byte> -> seq<byte>)
  {
    forall m :: |hash(m)| == DIGEST_SIZE
  }

  lemma DivMod8(i: nat, j: nat)
    requires j < 8
    ensures (8 * i + j) / 8 == i && (8 * i + j) % 8 == j
  {
  }

  /** A zero bit at position 8i+j extends a run of leading zero bits, and a one bit ends it. */
  lemma BitStep(d: seq<byte>, i: nat, j: nat)
    requires j < 8 && i < |d|
    ensures LeadingZeroBits(d, 8 * i + j + 1)
            <==> LeadingZeroBits(d, 8 * i + j) && (d[i] / MASKS[j]) % 2 == 0
  {
    DivMod8(i, j);
    MaskBit(d[i], j);
    ZeroBitStep(d, 8 * i + j);
  }

  /** A one bit at position 8i+j rules out any longer run of leading zero bits. */
  lemma OneBitStops(d: seq<byte>, i: nat, j: nat, k: nat)
    requires j < 8 && i < |d| && (d[i] / MASKS[j]) % 2 == 1 && 8 * i + j < k <= 8 * |d|
    ensures !LeadingZeroBits(d, k)
  {
    DivMod8(i, j);
    MaskBit(d[i], j);
    assert BitAt(d, 8 * i + j) == 1;
    LeadingZeroBitsIff(d, k);
  }

  /**
   * check_result: walks the bits of the first dsize bytes, decrementing the
   * unsigned difficulty after each zero bit.  A difficulty of 0 wraps to
   * 2^32 - 1 on the first decrement and can never be met.
   */
  method CheckResult(digest: seq<byte>, dsize: nat, diff: nat) returns (ok: bool)
    requires dsize <= |digest| && diff < UINT_LIMIT && 8 * dsize < UINT_LIMIT
    ensures ok <==> Meets(digest, dsize, diff)
  {
    ghost var need: int := if diff == 0 then UINT_LIMIT else diff;
    var d := diff;
    var i := 0;
    while i < dsize
      invariant 0 <= i <= dsize
      invariant 8 * i < need
      invariant d == if need - 8 * i == UINT_LIMIT then 0 else need - 8 * i
      invariant LeadingZeroBits(digest, 8 * i)
    {
      var mask := 128;
      ghost var j := 0;
      while mask != 0
        invariant 0 <= j <= 8
        invariant mask == MASKS[j]
        invariant 8 * i + j < need
        invariant d == if need - (8 * i + j) == UINT_LIMIT then 0 else need - (8 * i + j)
        invariant LeadingZeroBits(digest, 8 * i + j)
      {
        if (digest[i] / mask) % 2 == 1 {
          if 8 * i + j < diff <= 8 * dsize {
            OneBitStops(digest, i, j, diff);
          }
          return false;
        }
        BitStep(digest, i, j);
        d := if d == 0 then UINT_LIMIT - 1 else d - 1;
        if d == 0 {
          return true;
        }
        mask := mask / 2;
        j := j + 1;
      }
      i := i + 1;
    }
    return false;
  }

}
