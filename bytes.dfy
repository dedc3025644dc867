/**
 * Bytes: the byte-level arithmetic shared by the wire format and the crypto
 * miner.  Multi-byte integers are stored least-significant byte first (the
 * x86-64 layout of `size_t`, `int` and `short`, and the nonce counter of the
 * crypto miner).
 */
module Bytes {

  /** An unsigned 8-bit value. */
  type byte = x: int | 0 <= x < 256

  /** 256 to the power n: the number of values an n-byte field can hold. */
  function Pow256(n: nat): (r: nat)
    ensures r >= 1
  {
    if n == 0 then 1 else 256 * Pow256(n - 1)
  }

  /** The number denoted by s read as a little-endian base-256 numeral. */
  function LeValue(s: seq<byte>): (r: nat)
    ensures r < Pow256(|s|)
  {
    if s == [] then 0
    else
      var rest := LeValue(s[1..]);
      assert rest <= Pow256(|s| - 1) - 1;
      assert 256 * rest <= 256 * Pow256(|s| - 1) - 256;
      s[0] + 256 * rest
  }

  /** The n-byte little-endian numeral of v. */
  function LeBytes(v: nat, n: nat): (r: seq<byte>)
    requires v < Pow256(n)
    ensures |r| == n
  {
    if n == 0 then []
    else
      assert v / 256 < Pow256(n - 1) by { DivBound(v, Pow256(n - 1)); }
      [v % 256] + LeBytes(v / 256, n - 1)
  }

  lemma DivBound(v: nat, p: nat)
    requires v < 256 * p
    ensures v / 256 < p
  {
  }

  /** Reading back an encoded numeral gives the number. */
  lemma {:induction false} LeValueOfBytes(v: nat, n: nat)
    requires v < Pow256(n)
    ensures LeValue(LeBytes(v, n)) == v
  {
    if n > 0 {
      var r := LeBytes(v, n);
      DivBound(v, Pow256(n - 1));
      LeValueOfBytes(v / 256, n - 1);
      assert r[1..] == LeBytes(v / 256, n - 1);
    }
  }

  /** Encoding the number a numeral denotes gives the numeral back. */
  lemma {:induction false} LeBytesOfValue(s: seq<byte>)
    ensures LeBytes(LeValue(s), |s|) == s
  {
    if s != [] {
      LeBytesOfValue(s[1..]);
      var v := LeValue(s);
      assert v % 256 == s[0];
      assert v / 256 == LeValue(s[1..]);
    }
  }

  /** The value of a concatenation: the second part is shifted by the length of the first. */
  lemma {:induction false} LeValueAppend(a: seq<byte>, b: seq<byte>)
    ensures LeValue(a + b) == LeValue(a) + Pow256(|a|) * LeValue(b)
  {
    if a == [] {
      assert a + b == b;
    } else {
      var ab := a + b;
      assert ab[1..] == a[1..] + b;
      assert ab[0] == a[0];
      LeValueAppend(a[1..], b);
      var p, x, y := Pow256(|a| - 1), LeValue(a[1..]), LeValue(b);
      var z := LeValue(ab[1..]);
      assert z == x + p * y;
      assert LeValue(ab) == a[0] + 256 * z;
      MulDistrib(256, x, p * y);
      MulAssoc(256, p, y);
      assert LeValue(a) == a[0] + 256 * x;
      assert Pow256(|a|) == 256 * p;
    }
  }

  lemma MulDistrib(k: int, x: int, y: int)
    ensures k * (x + y) == k * x + k * y
  {
  }

  lemma MulAssoc(k: int, x: int, y: int)
    ensures (k * x) * y == k * (x * y)
  {
  }

  /** A numeral of n bytes 0xff denotes the largest n-byte value. */
  lemma {:induction false} LeValueAllMax(s: seq<byte>)
    requires forall k :: 0 <= k < |s| ==> s[k] == 255
    ensures LeValue(s) == Pow256(|s|) - 1
  {
    if s != [] {
      LeValueAllMax(s[1..]);
    }
  }

  /** A numeral of zero bytes denotes 0. */
  lemma {:induction false} LeValueAllZero(s: seq<byte>)
    requires forall k :: 0 <= k < |s| ==> s[k] == 0
    ensures LeValue(s) == 0
  {
    if s != [] {
      LeValueAllZero(s[1..]);
    }
  }

  /** The value is the largest one exactly when every byte is 0xff. */
  lemma LeValueMaxOnlyAllMax(s: seq<byte>)
    requires LeValue(s) == Pow256(|s|) - 1
    ensures forall k :: 0 <= k < |s| ==> s[k] == 255
  {
    forall k | 0 <= k < |s|
      ensures s[k] == 255
    {
      MaxDigit(s, k);
    }
  }

  lemma {:induction false} MaxDigit(s: seq<byte>, k: nat)
    requires k < |s| && LeValue(s) == Pow256(|s|) - 1
    ensures s[k] == 255
  {
    var p, rest := Pow256(|s| - 1), LeValue(s[1..]);
    assert rest == p - 1 by {
      assert rest <= p - 1;
      assert s[0] + 256 * rest == 256 * p - 1;
    }
    if k > 0 {
      MaxDigit(s[1..], k - 1);
    }
  }

  /** n zero bytes. */
  function Zeros(n: nat): (r: seq<byte>)
    ensures |r| == n && forall k :: 0 <= k < n ==> r[k] == 0
  {
    seq(n, _ => 0)
  }

  /**
   * Two's-complement storage of a signed value in n bytes, as C stores a
   * signed integer (the conversion keeps the value modulo 256^n).
   */
  function ToUnsigned(x: int, n: nat): (r: nat)
    ensures r < Pow256(n)
  {
    x % Pow256(n)
  }

  /** The signed value an n-byte two's-complement pattern stands for. */
  function ToSigned(u: nat, n: nat): (r: int)
    requires 0 < n && u < Pow256(n)
    ensures InSigned(r, n)
  {
    PowEven(n);
    if u < Pow256(n) / 2 then u else u - Pow256(n)
  }

  lemma PowEven(n: nat)
    requires n > 0
    ensures Pow256(n) % 2 == 0 && Pow256(n) >= 256
  {
    if n > 1 {
      PowEven(n - 1);
    }
  }

  /** x fits a signed n-byte field. */
  predicate InSigned(x: int, n: nat)
  {
    -(Pow256(n) / 2) <= x < Pow256(n) / 2
  }

  /** A value in range survives storage and reloading unchanged. */
  lemma SignedRoundTrip(x: int, n: nat)
    requires 0 < n && InSigned(x, n)
    ensures ToSigned(ToUnsigned(x, n), n) == x
  {
    PowEven(n);
    var m := Pow256(n);
    if x >= 0 {
      ModSmall(x, m);
    } else {
      ModShift(x, m);
    }
  }

  /** A stored pattern survives loading and storing again unchanged. */
  lemma UnsignedRoundTrip(u: nat, n: nat)
    requires 0 < n && u < Pow256(n)
    ensures ToUnsigned(ToSigned(u, n), n) == u
  {
    PowEven(n);
    var m := Pow256(n);
    if u < m / 2 {
      ModSmall(u, m);
    } else {
      ModShift(u - m, m);
    }
  }

  lemma ModSmall(y: int, m: int)
    requires 0 <= y < m
    ensures y % m == y
  {
  }

  lemma ModShift(y: int, m: int)
    requires 0 < m && -m <= y < 0
    ensures y % m == y + m
  {
    ModSmall(y + m, m);
    assert (y + m) % m == y % m;
  }

  /** C's conversion of an int to a 16-bit short (wrap-around modulo 2^16). */
  function ToShort(x: int): (r: int)
    ensures -32768 <= r < 32768
    ensures -32768 <= x < 32768 ==> r == x
    ensures (r - x) % 65536 == 0
  {
    var u := x % 65536;
    if u < 32768 then u else u - 65536
  }

  /** The signed 16-bit range is the range of a two-byte signed field. */
  lemma ShortRange()
    ensures Pow256(2) == 65536 && Pow256(4) == 0x1_0000_0000 && Pow256(8) == 0x1_0000_0000_0000_0000
  {
    assert Pow256(2) == 65536;
    assert Pow256(4) == 65536 * Pow256(2);
  }
}
