/**
 * Trivial: the problem type whose solver always succeeds without doing any
 * work (hw4/src/trivial.c).
 */
module Trivial {
  import opened Bytes
  import opened Polya
  import opened Wire

  /**
   * A trivial problem is a bare header.  The `var` field is left as malloc
   * returned it in the source; the model stores 0 there and states nothing
   * about it.
   */
  function TrivialConstruct(id: int, nvars: int): (p: Problem)
    ensures p.WellFormed()
    ensures p.size == PROBLEM_HEADER_SIZE && p.payload == []
    ensures p.ptype == TRIVIAL_PROBLEM_TYPE
    ensures IsShort(id) ==> p.id == id
    ensures IsShort(nvars) ==> p.nvars == nvars
  {
    Problem(PROBLEM_HEADER_SIZE, TRIVIAL_PROBLEM_TYPE, ToShort(id), ToShort(nvars), 0, [])
  }

  /** Every variant of a trivial problem is the problem itself. */
  function TrivialVary(p: Problem, variant: int): (q: Problem)
  {
    p
  }

  /**
   * The trivial solver ignores the cancel flag and returns a zeroed result
   * of header size: id 0, not failed, no payload.
   */
  function TrivialSolve(p: Problem, canceled: bool): (r: Option<Result>)
    ensures r.Some? && r.value.WellFormed()
    ensures r.value.size == RESULT_HEADER_SIZE && !r.value.Failed()
    ensures r.value.id == 0 && r.value.payload == []
  {
    Some(Result(RESULT_HEADER_SIZE, 0, 0, []))
  }

  /** The trivial checker: -1 for a failed result, 0 (solved) otherwise. */
  function TrivialCheck(r: Result, p: Problem): (c: int)
    ensures c == 0 <==> !r.Failed()
    ensures c != 0 ==> c == -1
  {
    if r.failed != 0 then -1 else 0
  }

  /** Whatever the cancel flag, the trivial solver's result is accepted by the trivial checker. */
  lemma TrivialSolveAccepted(p: Problem, canceled: bool)
    ensures TrivialCheck(TrivialSolve(p, canceled).value, p) == 0
  {
  }

  /** A trivial problem goes over the pipe as exactly its 16 header bytes. */
  lemma TrivialFrame(id: int, nvars: int)
    ensures |EncodeProblem(TrivialConstruct(id, nvars))| == PROBLEM_HEADER_SIZE
    ensures DecodeProblem(EncodeProblem(TrivialConstruct(id, nvars))) == Decoded(TrivialConstruct(id, nvars), [])
  {
    var p := TrivialConstruct(id, nvars);
    DecodeEncodeProblem(p, []);
    assert EncodeProblem(p) + [] == EncodeProblem(p);
  }
}
