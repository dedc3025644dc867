/**
 * Solvers: the table of solver methods indexed by problem type
 * (hw4/include/polya.h, filled in by trivial.c and crypto_miner.c).  Type 0
 * has no initializer and so no methods; types 1 and 2 have all four.
 */
module Solvers {
  import opened Bytes
  import opened Polya
  import opened Digest
  import opened Search
  import opened CryptoMiner
  import opened Trivial

  /** The types whose solver initializer exists: the trivial and the crypto miner type. */
  predicate HasInitializer(t: int)
  {
    t == TRIVIAL_PROBLEM_TYPE || t == CRYPTO_MINER_PROBLEM_TYPE
  }

  /** Bit t of a type mask, for the three problem types. */
  predicate TypeBit(mask: nat, t: int)
    requires 0 <= t < NUM_PROBLEM_TYPES
  {
    (mask / [1, 2, 4][t]) % 2 == 1
  }

  /** A problem the solver of its type can work on: a consistent header and, for a crypto problem, a consistent layout. */
  predicate Solvable(p: Problem)
  {
    p.WellFormed() && (p.ptype == CRYPTO_MINER_PROBLEM_TYPE ==> Shaped(p))
  }

  /** A variant number the problem admits: any non-negative one when nvars is 0, else one below nvars. */
  predicate ValidVariant(p: Problem, v: int)
  {
    0 <= v && (p.nvars != 0 ==> v < p.nvars)
  }

  /**
   * solvers[type].vary: None when the type has no varier.  Varying keeps
   * the type, the id, the number of variants and the size.
   */
  function VaryByType(p: Problem, v: int): (r: Option<Problem>)
    requires Solvable(p) && ValidVariant(p, v)
    ensures r.None? <==> !HasInitializer(p.ptype)
    ensures r.Some? ==> && Solvable(r.value)
                        && r.value.ptype == p.ptype && r.value.id == p.id
                        && r.value.nvars == p.nvars && r.value.size == p.size
  {
    if p.ptype == TRIVIAL_PROBLEM_TYPE then Some(TrivialVary(p, v))
    else if p.ptype == CRYPTO_MINER_PROBLEM_TYPE then
      VaryShape(p, v);
      Some(CryptoVary(p, v))
    else None
  }

  /**
   * Asking for the same variant a second time gives the same problem, so
   * the master's repeated get_problem_variant(workers, w) calls all yield
   * the variant it then sends.
   */
  lemma VaryIdempotent(p: Problem, v: int)
    requires Solvable(p) && ValidVariant(p, v) && HasInitializer(p.ptype)
    ensures VaryByType(VaryByType(p, v).value, v) == VaryByType(p, v)
  {
    if p.ptype == CRYPTO_MINER_PROBLEM_TYPE {
      CryptoVaryIdempotent(p, v);
    }
  }

  /** The trivial varier gives back the problem itself, whatever the variant. */
  lemma TrivialVaryUnchanged(p: Problem, v: int)
    requires Solvable(p) && ValidVariant(p, v) && p.ptype == TRIVIAL_PROBLEM_TYPE
    ensures VaryByType(p, v) == Some(p)
  {
  }

  /** What solvers[type].solve gives back: no such method, a NULL result, or a result. */
  datatype Solution = NoSolver | NullResult | Produced(result: Result)

  /** r is a correct solution of p: unfailed and, for a crypto problem, a nonce meeting the difficulty. */
  ghost predicate Correct(hash: seq<byte> -> seq<byte>, p: Problem, r: Result)
    requires DigestSized(hash)
  {
    if p.ptype == TRIVIAL_PROBLEM_TYPE then !r.Failed()
    else p.ptype == CRYPTO_MINER_PROBLEM_TYPE && Shaped(p) && Accepts(hash, p, r)
  }

  /**
   * solvers[type].solve: the trivial solver always produces an unfailed
   * result; the crypto solver produces a correct result with the problem's
   * id and the first solving nonce from the starting one, or NULL after a
   * cancellation (with every nonce before it tried) or a fruitless search.
   */
  method SolveByType(p: Problem, canceled: nat -> bool, hash: seq<byte> -> seq<byte>) returns (s: Solution)
    requires Solvable(p) && DigestSized(hash)
    ensures s.NoSolver? <==> !HasInitializer(p.ptype)
    ensures s.Produced? ==> s.result.WellFormed() && Correct(hash, p, s.result)
    ensures p.ptype == TRIVIAL_PROBLEM_TYPE ==> s == Produced(TrivialSolve(p, canceled(0)).value)
    ensures p.ptype == CRYPTO_MINER_PROBLEM_TYPE && s.Produced? ==>
              && s.result.id == p.id && s.result.size == CRYPTO_RESULT_SIZE + NSize(p)
              && ResultShaped(s.result) && |ResultNonce(s.result)| == NSize(p)
              && LeValue(StartNonce(p)) <= LeValue(ResultNonce(s.result))
              && forall v :: LeValue(StartNonce(p)) <= v < LeValue(ResultNonce(s.result))
                   ==> !Solves(hash, Block(p), v, NSize(p), DiffBits(p))
    ensures s.NullResult? ==> p.ptype == CRYPTO_MINER_PROBLEM_TYPE
    ensures s.NullResult? ==> || (exists k :: && canceled(k) && Uncanceled(canceled, k)
                                              && LeValue(StartNonce(p)) + k <= Pow256(NSize(p))
                                              && forall v :: LeValue(StartNonce(p)) <= v < LeValue(StartNonce(p)) + k
                                                   ==> !Solves(hash, Block(p), v, NSize(p), DiffBits(p)))
                              || forall v :: LeValue(StartNonce(p)) <= v < Pow256(NSize(p))
                                   ==> !Solves(hash, Block(p), v, NSize(p), DiffBits(p))
  {
    if p.ptype == TRIVIAL_PROBLEM_TYPE {
      s := Produced(TrivialSolve(p, canceled(0)).value);
    } else if p.ptype == CRYPTO_MINER_PROBLEM_TYPE {
      var r := CryptoSolver(p, canceled, hash);
      s := if r.Some? then Produced(r.value) else NullResult;
    } else {
      s := NoSolver;
    }
  }

  /**
   * solvers[type].check: -1 for a failed result, 0 for a correct one,
   * 1 otherwise.  A crypto result that is not failed must describe a nonce
   * it actually carries.
   */
  method CheckByType(r: Result, p: Problem, hash: seq<byte> -> seq<byte>) returns (c: int)
    requires HasInitializer(p.ptype) && Solvable(p) && DigestSized(hash)
    requires p.ptype == CRYPTO_MINER_PROBLEM_TYPE ==> r.Failed() || ResultShaped(r)
    ensures c == -1 <==> r.Failed()
    ensures c == 0 <==> Correct(hash, p, r)
    ensures c == -1 || c == 0 || c == 1
  {
    if p.ptype == TRIVIAL_PROBLEM_TYPE {
      c := TrivialCheck(r, p);
    } else {
      c := CryptoCheck(r, p, hash);
    }
  }

  /**
   * Correctness does not depend on the variant: every variant of a problem
   * accepts exactly the results the problem accepts.  This is what lets the
   * master check a worker's result against whichever variant it holds.
   * A crypto problem with an empty nonce is excluded: its varier writes the
   * byte just before the nonce, which belongs to the block.
   */
  lemma CorrectAnyVariant(hash: seq<byte> -> seq<byte>, p: Problem, v: int, r: Result)
    requires Solvable(p) && ValidVariant(p, v) && HasInitializer(p.ptype) && DigestSized(hash)
    requires p.ptype == CRYPTO_MINER_PROBLEM_TYPE ==> NSize(p) >= 1
    ensures Correct(hash, VaryByType(p, v).value, r) <==> Correct(hash, p, r)
  {
    if p.ptype == CRYPTO_MINER_PROBLEM_TYPE {
      VaryNonce(p, v);
    }
  }
}
