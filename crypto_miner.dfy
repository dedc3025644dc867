/**
 * CryptoMiner: the "crypto miner" problem type (hw4/src/crypto_miner.c).
 * A problem carries a block and a starting nonce; a solution is a nonce for
 * which the digest of block ++ nonce starts with `diff` zero bits.  The
 * SHA-256 digest is a parameter `hash` of the operations that use it.
 */
module CryptoMiner {
  import opened Bytes
  import opened Polya
  import opened Wire
  import opened Digest
  import opened Search

  /** sizeof(struct crypto_miner_problem): 16 header + bsize, nsize, diff, rounded up to 8. */
  const CRYPTO_PROBLEM_SIZE := 32
  /** Offset of the block within the payload (offset 26 of the struct). */
  const DATA_OFFSET := 10
  /** sizeof(struct crypto_miner_result): 16 header + nsize, rounded up to 8. */
  const CRYPTO_RESULT_SIZE := 24
  /** Offset of the nonce within the result payload (offset 20 of the struct). */
  const NONCE_OFFSET := 4

  /** A 32-bit signed `int` field, two's complement, least-significant byte first. */
  function IntBytes(x: int): (r: seq<byte>)
    ensures |r| == 4
  {
    LeBytes(ToUnsigned(x, 4), 4)
  }

  function IntAt(s: seq<byte>, i: nat): int
    requires i + 4 <= |s|
  {
    ToSigned(LeValue(s[i..i + 4]), 4)
  }

  lemma IntFieldOf(s: seq<byte>, i: nat, x: int)
    requires i + 4 <= |s| && 0 <= x < 0x8000_0000 && s[i..i + 4] == IntBytes(x)
    ensures IntAt(s, i) == x
  {
    ShortRange();
    LeValueOfBytes(ToUnsigned(x, 4), 4);
    SignedRoundTrip(x, 4);
  }

  // ---- the problem layout: bsize, nsize, diff, then block ++ nonce ++ 6 slack bytes

  function BSize(p: Problem): int requires |p.payload| >= DATA_OFFSET { IntAt(p.payload, 0) }
  function NSize(p: Problem): int requires |p.payload| >= DATA_OFFSET { IntAt(p.payload, 4) }
  function Diff(p: Problem): int requires |p.payload| >= DATA_OFFSET { ShortAt(p.payload, 8) }

  /** The payload has room for the block and the nonce its fields announce. */
  predicate Shaped(p: Problem)
  {
    && |p.payload| >= DATA_OFFSET
    && BSize(p) >= 0 && NSize(p) >= 0
    && DATA_OFFSET + BSize(p) + NSize(p) <= |p.payload|
  }

  function Block(p: Problem): seq<byte>
    requires Shaped(p)
  {
    p.payload[DATA_OFFSET..DATA_OFFSET + BSize(p)]
  }

  function StartNonce(p: Problem): seq<byte>
    requires Shaped(p)
  {
    p.payload[DATA_OFFSET + BSize(p)..DATA_OFFSET + BSize(p) + NSize(p)]
  }

  /** The difficulty as the `unsigned int` the solver and checker receive. */
  function DiffBits(p: Problem): nat
    requires |p.payload| >= DATA_OFFSET
  {
    Diff(p) % UINT_LIMIT
  }

  // ---- the result layout: nsize, then the nonce, then 4 slack bytes

  predicate ResultShaped(r: Result)
  {
    && |r.payload| >= NONCE_OFFSET
    && IntAt(r.payload, 0) >= 0
    && NONCE_OFFSET + IntAt(r.payload, 0) <= |r.payload|
  }

  function ResultNonce(r: Result): seq<byte>
    requires ResultShaped(r)
  {
    r.payload[NONCE_OFFSET..NONCE_OFFSET + IntAt(r.payload, 0)]
  }

  // ---- the constructor

  /** The difficulty the constructor stores: 20, or 20 plus a random remainder up to the requested value. */
  function ChosenDiff(diff: int, rnd: nat): (d: int)
    ensures diff <= 20 ==> d == 20
    ensures diff > 20 ==> 20 <= d <= diff
  {
    if diff <= 20 then 20 else 20 + rnd % (diff - 20 + 1)
  }

  /** The payload of a freshly constructed problem: bsize, nsize, diff, the block, a zero nonce, slack. */
  function ConstructedPayload(block: seq<byte>, nsize: nat, d: int): (s: seq<byte>)
  {
    IntBytes(|block|) + IntBytes(nsize) + ShortBytes(d) + block + Zeros(nsize) + Zeros(6)
  }

  lemma ConstructedLayout(block: seq<byte>, nsize: nat, d: int)
    requires |block| + nsize < 0x8000_0000 && IsShort(d)
    ensures var s := ConstructedPayload(block, nsize, d);
            && |s| == DATA_OFFSET + |block| + nsize + 6
            && IntAt(s, 0) == |block| && IntAt(s, 4) == nsize && ShortAt(s, 8) == d
            && s[DATA_OFFSET..DATA_OFFSET + |block|] == block
            && s[DATA_OFFSET + |block|..DATA_OFFSET + |block| + nsize] == Zeros(nsize)
  {
    var s := ConstructedPayload(block, nsize, d);
    var head := IntBytes(|block|) + IntBytes(nsize) + ShortBytes(d);
    var tail := block + Zeros(nsize) + Zeros(6);
    assert s == head + tail;
    assert s[..DATA_OFFSET] == head && s[DATA_OFFSET..] == tail;
    assert s[0..4] == head[0..4] == IntBytes(|block|);
    assert s[4..8] == head[4..8] == IntBytes(nsize);
    assert s[8..10] == head[8..10] == ShortBytes(d);
    assert s[DATA_OFFSET..DATA_OFFSET + |block|] == tail[..|block|] == block;
    assert s[DATA_OFFSET + |block|..DATA_OFFSET + |block| + nsize] == tail[|block|..|block| + nsize] == Zeros(nsize);
    IntFieldOf(s, 0, |block|);
    IntFieldOf(s, 4, nsize);
    ShortFieldOf(s, 8, d);
  }

  /**
   * crypto_miner_construct_problem: a zeroed buffer of header plus bsize plus
   * nsize bytes, holding the header fields, the two sizes, the chosen
   * difficulty and a copy of the block; the starting nonce is all zero and
   * the variant field is left 0.
   */
  function CryptoConstruct(id: int, nvars: int, block: seq<byte>, nsize: nat, diff: int, rnd: nat): (p: Problem)
    requires |block| + nsize < 0x8000_0000
    ensures p.WellFormed() && Shaped(p)
    ensures p.size == CRYPTO_PROBLEM_SIZE + |block| + nsize
    ensures p.ptype == CRYPTO_MINER_PROBLEM_TYPE && p.variant == 0
    ensures p.id == ToShort(id) && p.nvars == ToShort(nvars)
    ensures BSize(p) == |block| && NSize(p) == nsize
    ensures Block(p) == block && StartNonce(p) == Zeros(nsize)
    ensures Diff(p) == ToShort(ChosenDiff(diff, rnd))
    ensures diff < 0x8000 ==> if diff <= 20 then Diff(p) == 20 else 20 <= Diff(p) <= diff
  {
    var d := ToShort(ChosenDiff(diff, rnd));
    ConstructedLayout(block, nsize, d);
    ShortRange();
    Problem(CRYPTO_PROBLEM_SIZE + |block| + nsize, CRYPTO_MINER_PROBLEM_TYPE, ToShort(id), ToShort(nvars), 0,
            ConstructedPayload(block, nsize, d))
  }

  // ---- the varier

  /** s with the bytes from start onwards replaced by z. */
  function Overwrite(s: seq<byte>, start: nat, z: seq<byte>): (r: seq<byte>)
    requires start + |z| <= |s|
    ensures |r| == |s|
    ensures forall k :: 0 <= k < |s| ==> r[k] == if start <= k < start + |z| then z[k - start] else s[k]
  {
    s[..start] + z + s[start + |z|..]
  }

  /** The most significant nonce byte of variant v out of nvars. */
  function TopByte(v: nat, nvars: int): (b: byte)
    requires v < nvars
  {
    (v * 256 / nvars) % 256
  }

  /**
   * crypto_miner_vary_problem: clears the starting nonce and then, when the
   * problem has variants, sets the byte at data[bsize + nsize - 1] (the most
   * significant nonce byte) from the variant number and records the variant.
   */
  function CryptoVary(p: Problem, v: int): (q: Problem)
    requires Shaped(p) && 0 <= v && (p.nvars != 0 ==> v < p.nvars)
    ensures |q.payload| == |p.payload|
    ensures q.size == p.size && q.ptype == p.ptype && q.id == p.id && q.nvars == p.nvars
    ensures q.variant == if p.nvars != 0 then ToShort(v) else p.variant
    ensures p.WellFormed() ==> q.WellFormed()
  {
    var start := DATA_OFFSET + BSize(p);
    var cleared := Overwrite(p.payload, start, Zeros(NSize(p)));
    if p.nvars == 0 then
      p.(payload := cleared)
    else
      p.(payload := cleared[start + NSize(p) - 1 := TopByte(v, p.nvars)], variant := ToShort(v))
  }

  /** Varying leaves every byte outside the nonce (and the byte it sets) alone, so the sizes stay. */
  lemma VaryFrame(p: Problem, v: int)
    requires Shaped(p) && 0 <= v && (p.nvars != 0 ==> v < p.nvars)
    ensures var q := CryptoVary(p, v);
            forall k :: 0 <= k < |p.payload| && !(DATA_OFFSET + BSize(p) <= k < DATA_OFFSET + BSize(p) + NSize(p))
                        && (p.nvars == 0 || k != DATA_OFFSET + BSize(p) + NSize(p) - 1)
                        ==> q.payload[k] == p.payload[k]
  {
  }

  /** Varying keeps the problem well shaped, with the same sizes. */
  lemma VaryShape(p: Problem, v: int)
    requires Shaped(p) && 0 <= v && (p.nvars != 0 ==> v < p.nvars)
    ensures var q := CryptoVary(p, v);
            Shaped(q) && BSize(q) == BSize(p) && NSize(q) == NSize(p)
  {
    var q := CryptoVary(p, v);
    VaryFrame(p, v);
    assert p.payload[0..4] == q.payload[0..4];
    assert p.payload[4..8] == q.payload[4..8];
  }

  /**
   * With a nonce of at least one byte, varying keeps the block and the
   * difficulty and leaves the nonce zero but for its top byte, which is
   * set from the variant number when the problem has variants.
   */
  lemma VaryNonce(p: Problem, v: int)
    requires Shaped(p) && 0 <= v && (p.nvars != 0 ==> v < p.nvars) && NSize(p) >= 1
    ensures var q := CryptoVary(p, v);
            && Shaped(q) && Block(q) == Block(p) && Diff(q) == Diff(p)
            && StartNonce(q) == if p.nvars == 0 then Zeros(NSize(p))
                                else Zeros(NSize(p) - 1) + [TopByte(v, p.nvars)]
  {
    var q := CryptoVary(p, v);
    VaryFrame(p, v);
    VaryShape(p, v);
    assert Block(q) == Block(p);
    assert q.payload[8..10] == p.payload[8..10];
  }

  /** Varying a varied problem again with the same variant changes nothing. */
  lemma CryptoVaryIdempotent(p: Problem, v: int)
    requires Shaped(p) && 0 <= v && (p.nvars != 0 ==> v < p.nvars)
    ensures Shaped(CryptoVary(p, v)) && CryptoVary(CryptoVary(p, v), v) == CryptoVary(p, v)
  {
    var q := CryptoVary(p, v);
    VaryShape(p, v);
    var q2 := CryptoVary(q, v);
    assert forall k :: 0 <= k < |q.payload| ==> q2.payload[k] == q.payload[k];
    assert q2.payload == q.payload;
  }

  /** Multiplying by a positive number keeps a strict order. */
  lemma MulCancel(x: int, y: int, n: int)
    requires n > 0 && x * n < y * n
    ensures x < y
  {
    assert (y - x) * n == y * n - x * n;
  }

  lemma DivAtLeast(a: nat, n: nat, q: nat)
    requires n > 0 && a >= q * n
    ensures a / n >= q
  {
    assert a == (a / n) * n + a % n;
    assert (a / n + 1) * n == (a / n) * n + n;
    MulCancel(q, a / n + 1, n);
  }

  lemma DivBelow(a: nat, n: nat, q: nat)
    requires n > 0 && a < q * n
    ensures a / n < q
  {
    assert a == (a / n) * n + a % n;
    MulCancel(a / n, q, n);
  }

  /**
   * With at most 256 variants, later variants get strictly larger top bytes,
   * so the workers begin their searches at distinct, ordered nonces.
   */
  lemma TopByteIncreasing(v1: nat, v2: nat, nvars: int)
    requires v1 < v2 < nvars <= 256
    ensures TopByte(v1, nvars) < TopByte(v2, nvars)
  {
    var n: nat := nvars;
    var a, b := v1 * 256, v2 * 256;
    var q1 := a / n;
    assert a == q1 * n + a % n;
    assert b == a + (v2 - v1) * 256;
    assert (v2 - v1) * 256 >= 256;
    assert b >= (q1 + 1) * n;
    DivAtLeast(b, n, q1 + 1);
    assert v1 * 256 < 256 * n && v2 * 256 < 256 * n;
    DivBelow(a, n, 256);
    DivBelow(b, n, 256);
  }

  /** The value of a varied starting nonce: the top byte times 256^(n-1). */
  lemma {:induction false} TopNonceValue(n: nat, t: byte)
    requires n >= 1
    ensures LeValue(Zeros(n - 1) + [t]) == t * Pow256(n - 1)
  {
    LeValueAppend(Zeros(n - 1), [t]);
    LeValueAllZero(Zeros(n - 1));
    assert LeValue([t]) == t by {
      assert [t][1..] == [];
    }
  }

  // ---- the solver and the checker

  /** The payload of a successful result: nsize, the nonce, 4 slack bytes. */
  function ResultPayload(nonce: seq<byte>): (s: seq<byte>)
  {
    IntBytes(|nonce|) + nonce + Zeros(4)
  }

  lemma ResultLayout(nonce: seq<byte>)
    requires |nonce| < 0x8000_0000
    ensures var s := ResultPayload(nonce);
            IntAt(s, 0) == |nonce| && s[NONCE_OFFSET..NONCE_OFFSET + |nonce|] == nonce
  {
    IntFieldOf(ResultPayload(nonce), 0, |nonce|);
  }

  /** r is an unfailed result whose nonce, appended to the block of p, meets the difficulty of p. */
  ghost predicate Accepts(hash: seq<byte> -> seq<byte>, p: Problem, r: Result)
    requires Shaped(p) && DigestSized(hash)
  {
    && !r.Failed() && ResultShaped(r)
    && Meets(hash(Block(p) + ResultNonce(r)), DIGEST_SIZE, DiffBits(p))
  }

  /** The result the solver returns for a solving nonce of problem p. */
  function SolvedResult(p: Problem, nonce: seq<byte>): (r: Result)
  {
    Result(CRYPTO_RESULT_SIZE + |nonce|, p.id, 0, ResultPayload(nonce))
  }

  /** What solve reports on success makes the result the first accepted nonce from the start. */
  lemma SolvedResultAccepted(p: Problem, hash: seq<byte> -> seq<byte>, nonce: seq<byte>, iter: nat)
    requires p.WellFormed() && Shaped(p) && DigestSized(hash) && |nonce| == NSize(p) && 1 <= iter
    requires LeValue(nonce) == LeValue(StartNonce(p)) + iter - 1
    requires Meets(hash(Block(p) + nonce), DIGEST_SIZE, DiffBits(p))
    requires Tried(hash, Block(p), NSize(p), DiffBits(p), LeValue(StartNonce(p)), iter - 1)
    ensures var r := SolvedResult(p, nonce);
            && r.WellFormed() && Accepts(hash, p, r) && ResultNonce(r) == nonce
    ensures forall v :: LeValue(StartNonce(p)) <= v < LeValue(nonce)
              ==> !Solves(hash, Block(p), v, NSize(p), DiffBits(p))
  {
    SolvedShape(p, nonce);
  }

  /** The result built from a nonce is a well-formed unfailed result carrying that nonce. */
  lemma SolvedShape(p: Problem, nonce: seq<byte>)
    requires p.WellFormed() && |nonce| < 0x8000_0000
    ensures var r := SolvedResult(p, nonce);
            r.WellFormed() && !r.Failed() && ResultShaped(r) && ResultNonce(r) == nonce
  {
    ResultLayout(nonce);
  }

  method CopyNonce(s: seq<byte>) returns (a: array<byte>)
    ensures fresh(a) && a[..] == s
  {
    a := new byte[|s|];
    forall i | 0 <= i < |s| {
      a[i] := s[i];
    }
  }

  /**
   * crypto_miner_solver: searches from the starting nonce of the problem.
   * A success yields a result with the id of the problem and the first
   * solving nonce at or above the starting one.  No result comes from a
   * cancellation, seen before the k-th hash once the k nonces before it
   * have failed, or from an exhausted nonce space.
   */
  method CryptoSolver(p: Problem, canceled: nat -> bool, hash: seq<byte> -> seq<byte>) returns (r: Option<Result>)
    requires p.WellFormed() && Shaped(p) && DigestSized(hash)
    ensures r.Some? ==> && r.value.WellFormed() && r.value.id == p.id
                        && r.value.size == CRYPTO_RESULT_SIZE + NSize(p)
                        && Accepts(hash, p, r.value) && |ResultNonce(r.value)| == NSize(p)
                        && LeValue(StartNonce(p)) <= LeValue(ResultNonce(r.value))
    ensures r.Some? ==> forall v :: LeValue(StartNonce(p)) <= v < LeValue(ResultNonce(r.value))
                          ==> !Solves(hash, Block(p), v, NSize(p), DiffBits(p))
    ensures r.None? ==> || (exists k :: && canceled(k) && Uncanceled(canceled, k)
                                        && LeValue(StartNonce(p)) + k <= Pow256(NSize(p))
                                        && forall v :: LeValue(StartNonce(p)) <= v < LeValue(StartNonce(p)) + k
                                             ==> !Solves(hash, Block(p), v, NSize(p), DiffBits(p)))
                        || forall v :: LeValue(StartNonce(p)) <= v < Pow256(NSize(p))
                             ==> !Solves(hash, Block(p), v, NSize(p), DiffBits(p))
  {
    var nonce := CopyNonce(StartNonce(p));
    var rc, iter := Solve(Block(p), nonce, DiffBits(p), canceled, hash);
    if rc == 0 {
      SolvedResultAccepted(p, hash, nonce[..], iter);
      r := Some(SolvedResult(p, nonce[..]));
    } else {
      r := None;
      assert rc == -1 ==> canceled(iter) && Uncanceled(canceled, iter);
    }
  }

  /**
   * crypto_miner_check_result: -1 for a failed result; otherwise 0 when the
   * digest of the block of the problem followed by the nonce of the result
   * meets the difficulty of the problem, and 1 when it does not.
   */
  method CryptoCheck(r: Result, p: Problem, hash: seq<byte> -> seq<byte>) returns (c: int)
    requires Shaped(p) && DigestSized(hash) && (r.Failed() || ResultShaped(r))
    ensures c == -1 <==> r.Failed()
    ensures c == 0 <==> Accepts(hash, p, r)
    ensures c == -1 || c == 0 || c == 1
  {
    if r.failed != 0 {
      return -1;
    }
    var ok := CheckResult(hash(Block(p) + ResultNonce(r)), DIGEST_SIZE, DiffBits(p));
    c := if ok then 0 else 1;
  }
}
