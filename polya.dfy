/**
 * Polya: the constants and message records shared by the master, the
 * workers and the solvers (hw4/include/polya.h).
 */
module Polya {
  import opened Bytes

  /** Problem type tags. */
  const NULL_PROBLEM_TYPE := 0
  const TRIVIAL_PROBLEM_TYPE := 1
  const CRYPTO_MINER_PROBLEM_TYPE := 2
  const NUM_PROBLEM_TYPES := 3

  /** sizeof(struct problem) and sizeof(struct result) on x86-64. */
  const PROBLEM_HEADER_SIZE := 16
  const RESULT_HEADER_SIZE := 16

  /** Maximum supported number of worker processes. */
  const MAX_WORKERS := 32

  /** The seven worker states, as observed by the master. */
  const WORKER_STARTED := 1
  const WORKER_IDLE := 2
  const WORKER_CONTINUED := 3
  const WORKER_RUNNING := 4
  const WORKER_STOPPED := 5
  const WORKER_EXITED := 6
  const WORKER_ABORTED := 7

  const EXIT_SUCCESS := 0
  const EXIT_FAILURE := 1

  /** One more than the largest value of a `size_t`. */
  const SIZE_LIMIT := 0x1_0000_0000_0000_0000

  datatype Option<T> = None | Some(value: T)

  predicate IsShort(x: int) { -32768 <= x < 32768 }
  predicate IsChar(x: int) { -128 <= x < 128 }

  predicate IsWorkerState(s: int) { WORKER_STARTED <= s <= WORKER_ABORTED }
  predicate IsTerminal(s: int) { s == WORKER_EXITED || s == WORKER_ABORTED }

  /**
   * A problem: the fields of the fixed header (`size`, `type`, `id`,
   * `nvars`, `var`) and the problem-specific bytes that follow the header.
   */
  datatype Problem = Problem(size: int, ptype: int, id: int, nvars: int, variant: int, payload: seq<byte>)
  {
    /** The header describes this message: size counts header plus payload. */
    predicate WellFormed()
    {
      && size == PROBLEM_HEADER_SIZE + |payload|
      && size < SIZE_LIMIT
      && IsShort(ptype) && IsShort(id) && IsShort(nvars) && IsShort(variant)
    }
  }

  /**
   * A result: the fields of the fixed header (`size`, `id`, `failed`; five
   * padding bytes are not kept) and the solution bytes that follow it.
   */
  datatype Result = Result(size: int, id: int, failed: int, payload: seq<byte>)
  {
    predicate WellFormed()
    {
      && size == RESULT_HEADER_SIZE + |payload|
      && size < SIZE_LIMIT
      && IsShort(id) && IsChar(failed)
    }

    /** The solution attempt failed or was canceled. */
    predicate Failed() { failed != 0 }
  }
}
