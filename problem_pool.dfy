/**
 * ProblemPool: the source of problems used by the master (hw4/src/problem.c).
 * The file-static variables of problem.c are the fields of one Pool
 * object.  The identity of the current problem's allocation (what the
 * pointer comparison current_problem == prob tests) is a serial number
 * `handle`, advanced on every allocation.  The random data a new crypto
 * problem draws are the pool's random sources, indexed by problem id.
 */
module ProblemPool {
  import opened Bytes
  import opened Polya
  import opened Digest
  import opened CryptoMiner
  import opened Trivial
  import opened Solvers

  /** The block size and nonce size new_problem passes to the crypto constructor. */
  const NEW_BLOCK_SIZE := 32
  const NEW_NONCE_SIZE := 8
  /** The difficulty new_problem requests. */
  const NEW_DIFFICULTY := 25

  /** The number of set bits of mask among the types that have an initializer. */
  function EnabledCount(mask: nat): (n: nat)
    ensures n <= 2
  {
    (if TypeBit(mask, TRIVIAL_PROBLEM_TYPE) then 1 else 0)
    + (if TypeBit(mask, CRYPTO_MINER_PROBLEM_TYPE) then 1 else 0)
  }

  /** The problem new_problem constructs for type t with the given id. */
  function Construct(t: int, id: int, nvars: int, block: seq<byte>, rnd: nat): (p: Problem)
    requires HasInitializer(t) && |block| == NEW_BLOCK_SIZE
    ensures Solvable(p) && p.ptype == t && p.id == ToShort(id) && p.nvars == ToShort(nvars)
    ensures t == CRYPTO_MINER_PROBLEM_TYPE ==>
              NSize(p) == NEW_NONCE_SIZE && Block(p) == block && 20 <= Diff(p) <= NEW_DIFFICULTY
  {
    if t == TRIVIAL_PROBLEM_TYPE then TrivialConstruct(id, nvars)
    else CryptoConstruct(id, nvars, block, NEW_NONCE_SIZE, NEW_DIFFICULTY, rnd)
  }

  class Pool {
    /** current_problem; None for NULL. */
    var current: Option<Problem>
    /** Serial number of the allocation current_problem points to. */
    var handle: nat
    /** problems_remaining. */
    var remaining: int
    /** num_problem_types. */
    var numTypes: int
    /** prob_type_mask. */
    var typeMask: nat
    /** The static id counter of new_problem. */
    var lastId: int
    /** Which entries of the solvers table have been filled in. */
    var installed: seq<bool>
    /** Random block for the problem with each id, and random draw for its difficulty. */
    const blocks: nat -> seq<byte>
    const rnds: nat -> nat
    /** Handles of problems post_result has found solved. */
    ghost var solved: set<nat>

    ghost predicate Valid()
      reads this
    {
      && |installed| == NUM_PROBLEM_TYPES
      && (forall t :: 0 <= t < NUM_PROBLEM_TYPES && installed[t] ==> HasInitializer(t))
      && (numTypes > 0 ==> installed[TRIVIAL_PROBLEM_TYPE] || installed[CRYPTO_MINER_PROBLEM_TYPE])
      && numTypes >= 0 && remaining >= 0 && lastId >= 0
      && (forall k :: |blocks(k)| == NEW_BLOCK_SIZE)
      && (current.Some? ==> && Solvable(current.value) && HasInitializer(current.value.ptype)
                            && installed[current.value.ptype]
                            && handle !in solved)
      && (current.Some? && current.value.ptype == CRYPTO_MINER_PROBLEM_TYPE ==> NSize(current.value) >= 1)
      && (forall h :: h in solved ==> h <= handle)
    }

    /** The state of problem.c before init_problems: every static zero, no solver installed. */
    constructor(blocks: nat -> seq<byte>, rnds: nat -> nat)
      requires forall k :: |blocks(k)| == NEW_BLOCK_SIZE
      ensures Valid()
      ensures current.None? && handle == 0 && remaining == 0 && numTypes == 0 && lastId == 0
      ensures installed == [false, false, false] && solved == {}
      ensures this.blocks == blocks && this.rnds == rnds
    {
      current := None;
      handle := 0;
      remaining := 0;
      numTypes := 0;
      typeMask := 0;
      lastId := 0;
      installed := [false, false, false];
      this.blocks := blocks;
      this.rnds := rnds;
      solved := {};
    }

    /**
     * init_problems: records the number of problems and the mask, and runs
     * the initializer of every type whose mask bit is set and that has one,
     * counting each such type.
     */
    method InitProblems(nprobs: int, mask: nat)
      requires Valid() && nprobs >= 0
      modifies this
      ensures Valid()
      ensures remaining == nprobs && typeMask == mask
      ensures numTypes == old(numTypes) + EnabledCount(mask)
      ensures forall t :: 0 <= t < NUM_PROBLEM_TYPES ==>
                installed[t] == (old(installed[t]) || (HasInitializer(t) && TypeBit(mask, t)))
      ensures current == old(current) && handle == old(handle) && lastId == old(lastId) && solved == old(solved)
    {
      remaining := nprobs;
      typeMask := mask;
      for i := 0 to NUM_PROBLEM_TYPES
        invariant |installed| == NUM_PROBLEM_TYPES && Valid()
        invariant numTypes == old(numTypes)
                              + (if i > TRIVIAL_PROBLEM_TYPE && TypeBit(mask, TRIVIAL_PROBLEM_TYPE) then 1 else 0)
                              + (if i > CRYPTO_MINER_PROBLEM_TYPE && TypeBit(mask, CRYPTO_MINER_PROBLEM_TYPE) then 1 else 0)
        invariant forall t :: 0 <= t < NUM_PROBLEM_TYPES ==>
                    installed[t] == (old(installed[t]) || (t < i && HasInitializer(t) && TypeBit(mask, t)))
        invariant remaining == nprobs && typeMask == mask
        invariant current == old(current) && handle == old(handle) && lastId == old(lastId) && solved == old(solved)
      {
        if TypeBit(mask, i) && HasInitializer(i) {
          numTypes := numTypes + 1;
          installed := installed[i := true];
        }
      }
    }

    /**
     * new_problem, entered with no current problem and problems remaining:
     * uses up one problem, advances the id and makes a new problem of type
     * t, a fresh allocation.
     */
    method NewProblem(t: int, nvars: int)
      requires Valid() && current.None? && 0 <= t < NUM_PROBLEM_TYPES && installed[t] && remaining > 0
      modifies this
      ensures Valid()
      ensures remaining == old(remaining) - 1 && lastId == old(lastId) + 1 && handle == old(handle) + 1
      ensures current == Some(Construct(t, lastId, nvars, blocks(lastId), rnds(lastId)))
      ensures numTypes == old(numTypes) && installed == old(installed) && typeMask == old(typeMask)
      ensures solved == old(solved)
    {
      remaining := remaining - 1;
      lastId := lastId + 1;
      handle := handle + 1;
      current := Some(Construct(t, lastId, nvars, blocks(lastId), rnds(lastId)));
    }

    /**
     * get_problem_variant: makes a new problem first if there is none, some
     * type is enabled and problems remain; the type is any installed one
     * (the source draws types at random until it hits one).  Then returns
     * None when there is no problem or the variant number is out of range,
     * leaving the problem as it is; otherwise varies the current problem in
     * place and returns it with its handle.  The ghost base is the problem
     * before varying: the old current one, or else the one just made.
     */
    method GetProblemVariant(nvars: int, v: int) returns (r: Option<(Problem, nat)>, ghost base: Option<Problem>)
      requires Valid()
      modifies this
      ensures Valid()
      ensures old(current).None? && old(numTypes) > 0 && old(remaining) > 0 ==>
                && remaining == old(remaining) - 1 && lastId == old(lastId) + 1 && handle == old(handle) + 1
                && base.Some? && HasInitializer(base.value.ptype) && installed[base.value.ptype]
                && base == Some(Construct(base.value.ptype, lastId, nvars, blocks(lastId), rnds(lastId)))
      ensures !(old(current).None? && old(numTypes) > 0 && old(remaining) > 0) ==>
                remaining == old(remaining) && lastId == old(lastId) && handle == old(handle) && base == old(current)
      ensures base.Some? ==> Solvable(base.value) && HasInitializer(base.value.ptype)
      ensures r.None? <==> base.None? || !ValidVariant(base.value, v)
      ensures r.None? ==> current == base
      ensures r.Some? ==> && current == Some(r.value.0) && r.value.1 == handle
                          && r.value.0 == VaryByType(base.value, v).value
                          && r.value.1 !in solved && Solvable(r.value.0)
      ensures numTypes == old(numTypes) && installed == old(installed) && solved == old(solved)
    {
      if current.None? && numTypes > 0 && remaining != 0 {
        var t :| 0 <= t < NUM_PROBLEM_TYPES && installed[t];
        NewProblem(t, nvars);
      }
      base := current;
      r := None;
      if current.None? {
        return;
      }
      var p := current.value;
      if v < 0 || (p.nvars != 0 && v >= p.nvars) {
        return;
      }
      var q := VaryByType(p, v);
      if q.None? {
        return;
      }
      VaryNonceFor(p, v);
      current := q;
      r := Some((q.value, handle));
    }

    /**
     * post_result: -1 for a failed result; otherwise checks it against prob.
     * A correct result gives 0 and, when prob is the current problem,
     * clears it; an incorrect one gives 1.
     */
    method PostResult(res: Result, prob: Problem, h: nat, hash: seq<byte> -> seq<byte>) returns (c: int)
      requires Valid() && DigestSized(hash)
      requires HasInitializer(prob.ptype) && Solvable(prob)
      requires prob.ptype == CRYPTO_MINER_PROBLEM_TYPE ==> res.Failed() || ResultShaped(res)
      modifies this
      ensures Valid()
      ensures c == -1 <==> res.Failed()
      ensures c == 0 <==> Correct(hash, prob, res)
      ensures c == -1 || c == 0 || c == 1
      ensures c == 0 && old(current).Some? && h == handle ==> current.None? && solved == old(solved) + {h}
      ensures !(c == 0 && old(current).Some? && h == handle) ==> current == old(current) && solved == old(solved)
      ensures handle == old(handle) && remaining == old(remaining) && lastId == old(lastId)
      ensures numTypes == old(numTypes) && installed == old(installed)
    {
      if res.failed != 0 {
        return -1;
      }
      var ok := CheckByType(res, prob, hash);
      if ok == 0 {
        if current.Some? && h == handle {
          current := None;
          solved := solved + {h};
        }
        return 0;
      }
      return 1;
    }
  }

  /** A varied crypto problem keeps its nonce size. */
  lemma VaryNonceFor(p: Problem, v: int)
    requires Solvable(p) && ValidVariant(p, v)
    ensures p.ptype == CRYPTO_MINER_PROBLEM_TYPE ==> NSize(VaryByType(p, v).value) == NSize(p)
  {
    if p.ptype == CRYPTO_MINER_PROBLEM_TYPE {
      VaryShape(p, v);
    }
  }
}
