/**
 * Wire: the framing of problems and results on the pipes between the master
 * and a worker.  A message is its fixed 16-byte header, written first,
 * followed by `size - 16` payload bytes; a reader takes the header, then
 * exactly as many further bytes as the header's size field announces.
 */
module Wire {
  import opened Bytes
  import opened Polya

  /** A message read off the front of a byte stream, with what is left of the stream. */
  datatype Decoded<T> = Decoded(value: T, rest: seq<byte>) | Malformed

  /** A 16-bit signed field, two's complement, least-significant byte first. */
  function ShortBytes(x: int): (r: seq<byte>)
    ensures |r| == 2
  {
    LeBytes(ToUnsigned(x, 2), 2)
  }

  function ShortAt(s: seq<byte>, i: nat): (r: int)
    requires i + 2 <= |s|
    ensures IsShort(r)
  {
    ShortRange();
    ToSigned(LeValue(s[i..i + 2]), 2)
  }

  /** The size field: a `size_t` at offset 0 of both headers. */
  function SizeAt(s: seq<byte>): (r: nat)
    requires 8 <= |s|
    ensures r < SIZE_LIMIT
  {
    ShortRange();
    LeValue(s[..8])
  }

  lemma ShortBytesRoundTrip(x: int)
    requires IsShort(x)
    ensures ShortAt(ShortBytes(x), 0) == x
  {
    ShortRange();
    var b := ShortBytes(x);
    assert b[0..2] == b;
    LeValueOfBytes(ToUnsigned(x, 2), 2);
    SignedRoundTrip(x, 2);
  }

  lemma ShortAtRoundTrip(s: seq<byte>, i: nat)
    requires i + 2 <= |s|
    ensures ShortBytes(ShortAt(s, i)) == s[i..i + 2]
  {
    ShortRange();
    var u := LeValue(s[i..i + 2]);
    UnsignedRoundTrip(u, 2);
    LeBytesOfValue(s[i..i + 2]);
  }

  /** The 16 header bytes of a problem: size, type, id, nvars, var. */
  function ProblemHeader(p: Problem): (r: seq<byte>)
    requires p.WellFormed()
    ensures |r| == PROBLEM_HEADER_SIZE
  {
    ShortRange();
    LeBytes(p.size, 8) + ShortBytes(p.ptype) + ShortBytes(p.id) + ShortBytes(p.nvars) + ShortBytes(p.variant)
  }

  /** The bytes the master writes for a problem: the header, then the payload. */
  function EncodeProblem(p: Problem): (r: seq<byte>)
    requires p.WellFormed()
    ensures |r| == p.size
    ensures |r| - PROBLEM_HEADER_SIZE == |p.payload|
  {
    ProblemHeader(p) + p.payload
  }

  /**
   * Reading a problem from the front of a stream: the header, then
   * `size - 16` bytes.  A stream too short for either, or a size that
   * cannot even cover the header, is a protocol violation.
   */
  function DecodeProblem(s: seq<byte>): (r: Decoded<Problem>)
    ensures r.Malformed? <==> (|s| < PROBLEM_HEADER_SIZE || SizeAt(s) < PROBLEM_HEADER_SIZE || |s| < SizeAt(s))
    ensures r.Decoded? ==> && r.value.WellFormed()
                           && |r.rest| == |s| - r.value.size
                           && EncodeProblem(r.value) + r.rest == s
  {
    if |s| < PROBLEM_HEADER_SIZE then Malformed
    else
      var size := SizeAt(s);
      if size < PROBLEM_HEADER_SIZE || |s| < size then Malformed
      else
        var p := Problem(size, ShortAt(s, 8), ShortAt(s, 10), ShortAt(s, 12), ShortAt(s, 14), s[16..size]);
        assert EncodeProblem(p) + s[size..] == s by { ProblemHeaderOf(s, p); }
        Decoded(p, s[size..])
  }

  lemma ProblemHeaderOf(s: seq<byte>, p: Problem)
    requires |s| >= PROBLEM_HEADER_SIZE && p.WellFormed() && p.size <= |s|
    requires p.size == SizeAt(s) && p.payload == s[16..p.size]
    requires p.ptype == ShortAt(s, 8) && p.id == ShortAt(s, 10)
    requires p.nvars == ShortAt(s, 12) && p.variant == ShortAt(s, 14)
    ensures EncodeProblem(p) + s[p.size..] == s
  {
    LeBytesOfValue(s[..8]);
    ShortAtRoundTrip(s, 8);
    ShortAtRoundTrip(s, 10);
    ShortAtRoundTrip(s, 12);
    ShortAtRoundTrip(s, 14);
    assert ProblemHeader(p) == s[..8] + s[8..10] + s[10..12] + s[12..14] + s[14..16];
    assert s == s[..8] + s[8..10] + s[10..12] + s[12..14] + s[14..16] + s[16..p.size] + s[p.size..];
  }

  /** Writing a problem and reading it back yields the same problem and leaves the rest of the stream. */
  lemma DecodeEncodeProblem(p: Problem, rest: seq<byte>)
    requires p.WellFormed()
    ensures DecodeProblem(EncodeProblem(p) + rest) == Decoded(p, rest)
  {
    var s := EncodeProblem(p) + rest;
    ShortRange();
    assert s[..8] == LeBytes(p.size, 8);
    LeValueOfBytes(p.size, 8);
    assert s[8..10] == ShortBytes(p.ptype);
    assert s[10..12] == ShortBytes(p.id);
    assert s[12..14] == ShortBytes(p.nvars);
    assert s[14..16] == ShortBytes(p.variant);
    ShortFieldOf(s, 8, p.ptype);
    ShortFieldOf(s, 10, p.id);
    ShortFieldOf(s, 12, p.nvars);
    ShortFieldOf(s, 14, p.variant);
    assert s[16..p.size] == p.payload;
    assert s[p.size..] == rest;
  }

  lemma ShortFieldOf(s: seq<byte>, i: nat, x: int)
    requires i + 2 <= |s| && IsShort(x) && s[i..i + 2] == ShortBytes(x)
    ensures ShortAt(s, i) == x
  {
    ShortBytesRoundTrip(x);
    assert ShortBytes(x)[0..2] == ShortBytes(x);
  }

  /** The 16 header bytes of a result: size, id, failed, five zero padding bytes. */
  function ResultHeader(r: Result): (h: seq<byte>)
    requires r.WellFormed()
    ensures |h| == RESULT_HEADER_SIZE
  {
    ShortRange();
    LeBytes(r.size, 8) + ShortBytes(r.id) + [ToUnsigned(r.failed, 1)] + Zeros(5)
  }

  /** The bytes a worker writes for a result: one block of exactly `size` bytes. */
  function EncodeResult(r: Result): (e: seq<byte>)
    requires r.WellFormed()
    ensures |e| == r.size
    ensures |e| - RESULT_HEADER_SIZE == |r.payload|
  {
    ResultHeader(r) + r.payload
  }

  /**
   * Reading a result from the front of a stream: the header, then
   * `size - 16` bytes.  The padding bytes are not part of the record, so the
   * bytes consumed agree with the re-encoded result everywhere but there.
   */
  function DecodeResult(s: seq<byte>): (r: Decoded<Result>)
    ensures r.Malformed? <==> (|s| < RESULT_HEADER_SIZE || SizeAt(s) < RESULT_HEADER_SIZE || |s| < SizeAt(s))
    ensures r.Decoded? ==> && r.value.WellFormed()
                           && r.value.size <= |s| && r.rest == s[r.value.size..]
                           && EncodeResult(r.value) == s[..11] + Zeros(5) + s[16..r.value.size]
  {
    if |s| < RESULT_HEADER_SIZE then Malformed
    else
      var size := SizeAt(s);
      if size < RESULT_HEADER_SIZE || |s| < size then Malformed
      else
        var failed := CharAt(s, 10);
        var res := Result(size, ShortAt(s, 8), failed, s[16..size]);
        assert EncodeResult(res) == s[..11] + Zeros(5) + s[16..size] by { ResultHeaderOf(s, res); }
        Decoded(res, s[size..])
  }

  function CharAt(s: seq<byte>, i: nat): (r: int)
    requires i < |s|
    ensures IsChar(r)
  {
    if s[i] < 128 then s[i] as int else s[i] as int - 256
  }

  lemma ResultHeaderOf(s: seq<byte>, r: Result)
    requires |s| >= RESULT_HEADER_SIZE && r.WellFormed() && r.size <= |s|
    requires r.size == SizeAt(s) && r.payload == s[16..r.size]
    requires r.id == ShortAt(s, 8) && r.failed == CharAt(s, 10)
    ensures EncodeResult(r) == s[..11] + Zeros(5) + s[16..r.size]
  {
    assert LeBytes(r.size, 8) == s[..8] by { LeBytesOfValue(s[..8]); }
    assert ShortBytes(r.id) == s[8..10] by { ShortAtRoundTrip(s, 8); }
    assert ToUnsigned(r.failed, 1) == s[10] by { assert Pow256(1) == 256; }
    assert ResultHeader(r) == s[..8] + s[8..10] + [s[10]] + Zeros(5) by { ShortRange(); }
    assert s[..11] == s[..8] + s[8..10] + [s[10]];
  }

  /** Writing a result and reading it back yields the same result and leaves the rest of the stream. */
  lemma DecodeEncodeResult(r: Result, rest: seq<byte>)
    requires r.WellFormed()
    ensures DecodeResult(EncodeResult(r) + rest) == Decoded(r, rest)
  {
    var s := EncodeResult(r) + rest;
    ShortRange();
    assert s[..8] == LeBytes(r.size, 8);
    LeValueOfBytes(r.size, 8);
    assert s[8..10] == ShortBytes(r.id);
    ShortFieldOf(s, 8, r.id);
    assert s[10] == ToUnsigned(r.failed, 1);
    assert s[16..r.size] == r.payload;
    assert s[r.size..] == rest;
  }
}
