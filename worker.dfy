/**
 * Worker: the worker process's handlers and one pass of its main loop
 * (hw4/src/worker.c).  Standard input and standard output are byte
 * sequences: the bytes not yet read, and the bytes written so far.
 */
module Worker {
  import opened Bytes
  import opened Polya
  import opened Wire
  import opened Digest
  import opened Search
  import opened CryptoMiner
  import opened Trivial
  import opened Solvers

  /** Every bit of the mask ~0 the worker passes to init_problems is set, so both solvers are installed. */
  lemma AllTypesEnabled()
    ensures forall t :: 0 <= t < NUM_PROBLEM_TYPES ==> TypeBit(0xFFFF_FFFF, t)
  {
    assert TypeBit(0xFFFF_FFFF, 0) && TypeBit(0xFFFF_FFFF, 1) && TypeBit(0xFFFF_FFFF, 2);
  }

  /**
   * The solver for p does not return NULL when the flag is as given: the
   * trivial solver never does; the crypto solver does not when no cancel
   * is pending and some nonce from the starting one upwards solves p.
   */
  ghost predicate NonNullSolve(hash: seq<byte> -> seq<byte>, p: Problem, canceled: int)
    requires DigestSized(hash) && Solvable(p)
  {
    || p.ptype == TRIVIAL_PROBLEM_TYPE
    || (&& p.ptype == CRYPTO_MINER_PROBLEM_TYPE && canceled == 0
        && exists v :: LeValue(StartNonce(p)) <= v < Pow256(NSize(p)) && Solves(hash, Block(p), v, NSize(p), DiffBits(p)))
  }

  class WorkerProcess {
    /** canceledp: set by SIGHUP, cleared once a result has been marked failed. */
    var canceled: int
    /** done: set by SIGTERM just before the process exits. */
    var done: int
    /** The bytes on standard input not yet read. */
    var input: seq<byte>
    /** The bytes written to standard output so far. */
    var output: seq<byte>

    /** A freshly started worker: both flags clear, nothing written yet. */
    constructor(input: seq<byte>)
      ensures canceled == 0 && done == 0 && this.input == input && output == []
    {
      canceled := 0;
      done := 0;
      this.input := input;
      output := [];
    }

    /** sighup_handler: only sets the cancel flag. */
    method OnHup()
      modifies this
      ensures canceled == 1
      ensures done == old(done) && input == old(input) && output == old(output)
    {
      canceled := 1;
    }

    /** sigterm_handler: sets done and ends the process with EXIT_SUCCESS. */
    method OnTerm() returns (status: int)
      modifies this
      ensures done == 1 && status == EXIT_SUCCESS
      ensures canceled == old(canceled) && input == old(input) && output == old(output)
    {
      done := 1;
      status := EXIT_SUCCESS;
    }

    /**
     * One pass of the loop of worker(): reads a problem (the header, then
     * size - 16 further bytes), solves it with the solver of its type while
     * SIGHUP is blocked, marks the result failed and clears the flag if the
     * flag is set afterwards, writes the result as one block of size bytes,
     * and stops.  hupDuringSolve says whether a SIGHUP arrived while it was
     * blocked; it is delivered, setting the flag, when the mask is restored.
     */
    method Step(hash: seq<byte> -> seq<byte>, hupDuringSolve: bool) returns (p: Problem, res: Result)
      requires DigestSized(hash) && DecodeProblem(input).Decoded?
      requires Solvable(DecodeProblem(input).value) && HasInitializer(DecodeProblem(input).value.ptype)
      requires NonNullSolve(hash, DecodeProblem(input).value, canceled)
      requires canceled == 0 || canceled == 1
      modifies this
      ensures p == DecodeProblem(old(input)).value && p.WellFormed()
      ensures old(input) == EncodeProblem(p) + input
      ensures res.WellFormed() && output == old(output) + EncodeResult(res)
      ensures res.Failed() <==> (old(canceled) == 1 || hupDuringSolve)
      ensures res.failed == if res.Failed() then 1 else 0
      ensures !res.Failed() ==> Correct(hash, p, res)
      ensures p.ptype == TRIVIAL_PROBLEM_TYPE ==> res.(failed := 0) == TrivialSolve(p, old(canceled) == 1).value
      ensures p.ptype == CRYPTO_MINER_PROBLEM_TYPE ==>
                && res.id == p.id && res.size == CRYPTO_RESULT_SIZE + NSize(p)
                && Correct(hash, p, res.(failed := 0)) && |ResultNonce(res)| == NSize(p)
                && LeValue(StartNonce(p)) <= LeValue(ResultNonce(res))
                && forall v :: LeValue(StartNonce(p)) <= v < LeValue(ResultNonce(res))
                     ==> !Solves(hash, Block(p), v, NSize(p), DiffBits(p))
      ensures canceled == 0 && done == old(done)
    {
      p := ReadProblem();
      var solved := SolveBlocked(p, canceled, hash);
      if hupDuringSolve {
        canceled := 1;
      }
      res := MarkCanceled(solved);
      output := output + EncodeResult(res);
    }

    /** The check after the solve: a set flag marks the result failed and is cleared. */
    method MarkCanceled(r: Result) returns (res: Result)
      requires canceled == 0 || canceled == 1
      modifies this
      ensures res == if old(canceled) == 1 then r.(failed := 1) else r
      ensures canceled == 0 && done == old(done) && input == old(input) && output == old(output)
    {
      res := r;
      if canceled == 1 {
        res := res.(failed := 1);
        canceled := 0;
      }
    }

    /** Reads one problem from standard input: the header, then size - 16 further bytes. */
    method ReadProblem() returns (p: Problem)
      requires DecodeProblem(input).Decoded?
      modifies this
      ensures p == DecodeProblem(old(input)).value && p.WellFormed()
      ensures old(input) == EncodeProblem(p) + input
      ensures canceled == old(canceled) && done == old(done) && output == old(output)
    {
      var d := DecodeProblem(input);
      p := d.value;
      input := d.rest;
    }
  }

  /**
   * The solver call of worker(), made with SIGHUP blocked so that the flag
   * keeps the value it had on entry; under NonNullSolve it gives a result.
   */
  method SolveBlocked(p: Problem, flag: int, hash: seq<byte> -> seq<byte>) returns (r: Result)
    requires DigestSized(hash) && Solvable(p) && HasInitializer(p.ptype) && NonNullSolve(hash, p, flag)
    ensures r.WellFormed() && !r.Failed() && Correct(hash, p, r)
    ensures p.ptype == TRIVIAL_PROBLEM_TYPE ==> r == TrivialSolve(p, flag == 1).value
    ensures p.ptype == CRYPTO_MINER_PROBLEM_TYPE ==>
              && r.id == p.id && r.size == CRYPTO_RESULT_SIZE + NSize(p)
              && ResultShaped(r) && |ResultNonce(r)| == NSize(p)
              && LeValue(StartNonce(p)) <= LeValue(ResultNonce(r))
              && forall v :: LeValue(StartNonce(p)) <= v < LeValue(ResultNonce(r))
                   ==> !Solves(hash, Block(p), v, NSize(p), DiffBits(p))
  {
    var s := SolveByType(p, _ => flag == 1, hash);
    r := s.result;
  }
}
