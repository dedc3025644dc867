module Search {
  import opened Bytes
  import opened Digest

  // ---- the nonce counter

  /** Incrementing a numeral whose lowest i-1 digits are 0xff and whose digit i-1 is not. */
  lemma IncrementValue(o: seq<byte>, n: seq<byte>, i: nat)
    requires |o| == |n| && 1 <= i <= |o|
    requires forall k :: 0 <= k < i - 1 ==> o[k] == 255 && n[k] == 0
    requires o[i - 1] < 255 && n[i - 1] == o[i - 1] + 1
    requires n[i..] == o[i..]
    ensures LeValue(n) == LeValue(o) + 1
  {
    var lo, ln, ho, hn := o[..i - 1], n[..i - 1], o[i - 1..], n[i - 1..];
    var p := Pow256(i - 1);
    assert LeValue(lo) == p - 1 by { LeValueAllMax(lo); }
    assert LeValue(ln) == 0 by { LeValueAllZero(ln); }
    assert LeValue(hn) == LeValue(ho) + 1 by {
      assert ho[1..] == o[i..] && hn[1..] == n[i..];
    }
    assert LeValue(o) == (p - 1) + p * LeValue(ho) by {
      assert o == lo + ho;
      LeValueAppend(lo, ho);
    }
    assert LeValue(n) == p * LeValue(hn) by {
      assert n == ln + hn;
      LeValueAppend(ln, hn);
    }
    MulDistrib(p, LeValue(ho), 1);
  }

  /**
   * update_nonce: adds one to the nonce read as a little-endian base-256
   * counter, wrapping to zero.  Returns false exactly when every byte was
   * 0xff, which leaves every byte 0.
   */
  method UpdateNonce(nonce: array<byte>) returns (more: bool)
    modifies nonce
    ensures !more <==> forall k :: 0 <= k < nonce.Length ==> old(nonce[k]) == 255
    ensures more ==> LeValue(nonce[..]) == LeValue(old(nonce[..])) + 1
    ensures !more ==> && LeValue(old(nonce[..])) + 1 == Pow256(nonce.Length)
                      && forall k :: 0 <= k < nonce.Length ==> nonce[k] == 0
    ensures !more ==> LeValue(nonce[..]) == 0
  {
    ghost var o := nonce[..];
    var carry := true;
    var i := 0;
    while carry && i < nonce.Length
      invariant 0 <= i <= nonce.Length
      invariant carry ==> forall k :: 0 <= k < i ==> nonce[k] == 0 && o[k] == 255
      invariant !carry ==> 1 <= i && o[i - 1] < 255 && nonce[i - 1] == o[i - 1] + 1
      invariant !carry ==> forall k :: 0 <= k < i - 1 ==> nonce[k] == 0 && o[k] == 255
      invariant forall k :: i <= k < nonce.Length ==> nonce[k] == o[k]
    {
      nonce[i] := (nonce[i] as int + 1) % 256;
      carry := nonce[i] == 0;
      i := i + 1;
    }
    more := !(carry && i == nonce.Length);
    if carry {
      LeValueAllMax(o);
      LeValueAllZero(nonce[..]);
    } else {
      assert nonce[..][i..] == o[i..];
      IncrementValue(o, nonce[..], i);
      assert !(o[i - 1] == 255);
    }
  }

  // ---- the search

  /** The digest of the block followed by the n-byte nonce of value v meets the difficulty. */
  ghost predicate Solves(hash: seq<byte> -> seq<byte>, block: seq<byte>, v: nat, n: nat, diff: nat)
    requires DigestSized(hash) && v < Pow256(n)
  {
    Meets(hash(block + LeBytes(v, n)), DIGEST_SIZE, diff)
  }

  /** The k nonces from value v0 upwards have all been hashed, and none solves. */
  ghost predicate Tried(hash: seq<byte> -> seq<byte>, block: seq<byte>, n: nat, diff: nat, v0: nat, k: nat)
    requires DigestSized(hash) && v0 + k <= Pow256(n)
  {
    forall v :: v0 <= v < v0 + k ==> !Solves(hash, block, v, n, diff)
  }

  /** The cancel flag was clear at each of the first k tests. */
  predicate Uncanceled(canceled: nat -> bool, k: nat)
  {
    k == 0 || (Uncanceled(canceled, k - 1) && !canceled(k - 1))
  }

  lemma {:induction false} UncanceledAll(canceled: nat -> bool, k: nat)
    requires Uncanceled(canceled, k)
    ensures forall j :: 0 <= j < k ==> !canceled(j)
  {
    if k > 0 {
      UncanceledAll(canceled, k - 1);
    }
  }

  /**
   * One trial of solve: hashes the block followed by the current nonce and
   * checks the digest.  A failed trial extends the range of tried nonces.
   */
  method Attempt(block: seq<byte>, nonce: array<byte>, diff: nat, hash: seq<byte> -> seq<byte>,
                 ghost v0: nat, ghost k: nat) returns (ok: bool)
    requires DigestSized(hash) && diff < UINT_LIMIT && LeValue(nonce[..]) == v0 + k
    requires Tried(hash, block, nonce.Length, diff, v0, k)
    ensures ok <==> Meets(hash(block + nonce[..]), DIGEST_SIZE, diff)
    ensures !ok ==> Tried(hash, block, nonce.Length, diff, v0, k + 1)
  {
    LeBytesOfValue(nonce[..]);
    ok := CheckResult(hash(block + nonce[..]), DIGEST_SIZE, diff);
  }

  /**
   * One turn of the do-while loop of solve, at the iter-th nonce from v0:
   * -1 when the cancel flag is set; otherwise the nonce is hashed, and 0
   * says that it solves; otherwise the counter is stepped, and 1 says that
   * it wrapped, 2 that the loop goes on.
   */
  method Turn(block: seq<byte>, nonce: array<byte>, diff: nat, canceled: nat -> bool,
              hash: seq<byte> -> seq<byte>, ghost v0: nat, iter: nat) returns (st: int)
    requires DigestSized(hash) && diff < UINT_LIMIT
    requires v0 + iter < Pow256(nonce.Length) && LeValue(nonce[..]) == v0 + iter
    requires Uncanceled(canceled, iter) && Tried(hash, block, nonce.Length, diff, v0, iter)
    modifies nonce
    ensures -1 <= st <= 2
    ensures st == -1 ==> canceled(iter) && nonce[..] == old(nonce[..])
    ensures st != -1 ==> Uncanceled(canceled, iter + 1)
    ensures st == 0 ==> nonce[..] == old(nonce[..]) && Meets(hash(block + nonce[..]), DIGEST_SIZE, diff)
    ensures st == 1 || st == 2 ==> Tried(hash, block, nonce.Length, diff, v0, iter + 1)
    ensures st == 1 ==> v0 + iter + 1 == Pow256(nonce.Length) && LeValue(nonce[..]) == 0
    ensures st == 2 ==> v0 + iter + 1 < Pow256(nonce.Length) && LeValue(nonce[..]) == v0 + iter + 1
  {
    if canceled(iter) {
      return -1;
    }
    var ok := Attempt(block, nonce, diff, hash, v0, iter);
    if ok {
      return 0;
    }
    var more := UpdateNonce(nonce);
    st := if more then 2 else 1;
  }

  /**
   * solve: tries nonces in counter order from the one given.  The cancel
   * flag, as the environment has set it when the k-th test is about to be
   * made, is canceled(k); it is tested before every hash.  Returns -1 on
   * cancellation, 0 with the solving nonce left in place, or 1 once the
   * counter has wrapped without a solution; iter counts the hashes made.
   */
  method Solve(block: seq<byte>, nonce: array<byte>, diff: nat,
               canceled: nat -> bool, hash: seq<byte> -> seq<byte>) returns (r: int, iter: nat)
    requires DigestSized(hash) && diff < UINT_LIMIT
    modifies nonce
    ensures r == -1 || r == 0 || r == 1
    ensures Uncanceled(canceled, iter)
    ensures r == -1 ==> canceled(iter) && LeValue(nonce[..]) == LeValue(old(nonce[..])) + iter
    ensures r == 0 ==> && 1 <= iter
                       && LeValue(nonce[..]) == LeValue(old(nonce[..])) + iter - 1
                       && Meets(hash(block + nonce[..]), DIGEST_SIZE, diff)
    ensures r == 1 ==> LeValue(old(nonce[..])) + iter == Pow256(nonce.Length) && LeValue(nonce[..]) == 0
    ensures r != 0 ==> Tried(hash, block, nonce.Length, diff, LeValue(old(nonce[..])), iter)
    ensures r == 0 ==> Tried(hash, block, nonce.Length, diff, LeValue(old(nonce[..])), iter - 1)
  {
    ghost var v0 := LeValue(nonce[..]);
    ghost var n, p := nonce.Length, Pow256(nonce.Length);
    iter := 0;
    var more := true;
    while more
      invariant v0 + iter <= p
      invariant more ==> v0 + iter < p && LeValue(nonce[..]) == v0 + iter
      invariant !more ==> v0 + iter == p && LeValue(nonce[..]) == 0
      invariant Uncanceled(canceled, iter)
      invariant Tried(hash, block, n, diff, v0, iter)
      decreases p - iter
    {
      var st := Turn(block, nonce, diff, canceled, hash, v0, iter);
      if st == -1 {
        return -1, iter;
      }
      iter := iter + 1;
      if st == 0 {
        return 0, iter;
      }
      more := st == 2;
    }
    r := 1;
  }

}
