/**
 * Master: the worker state table and the steps of the scheduling loop
 * (hw4/src/master.c).  Each step is a method that runs without
 * interruption; the environment may deliver a child report (OnChildEvent)
 * between any two steps, but not inside one, although the source leaves
 * parts of a dispatch, of a harvest and of a shutdown pass unmasked.  The sf_* observer calls
 * and the signals sent are recorded, in order, in a ghost trace.
 */
module Master {
  import opened Bytes
  import opened Polya
  import opened Wire
  import opened Digest
  import opened CryptoMiner
  import opened Solvers
  import opened ProblemPool

  /** Signal numbers on Linux x86-64. */
  const SIGHUP := 1
  const SIGTERM := 15
  const SIGCONT := 18

  /** What waitpid reports about a child. */
  datatype ChildEvent = Stopped | Continued | Exited(code: int) | Signaled(sig: int)

  /** The observer calls and signals of the master, in order. */
  datatype Event =
    | Start
    | ChangeState(pid: int, oldState: int, newState: int)
    | SendProblem(pid: int, prob: Problem)
    | RecvResult(pid: int, res: Result)
    | Cancel(pid: int)
    | Kill(pid: int, sig: int)
    | Close(fd: int)
    | End

  /** The state sigchld_handler gives a worker in state s on report ev. */
  function NextState(s: int, ev: ChildEvent): (n: int)
    ensures IsWorkerState(n)
  {
    match ev
    case Stopped => if s == WORKER_STARTED then WORKER_IDLE else WORKER_STOPPED
    case Continued => WORKER_RUNNING
    case Exited(code) => if code != 0 then WORKER_ABORTED else WORKER_EXITED
    case Signaled(sig) => if sig != 0 then WORKER_ABORTED else WORKER_EXITED
  }

  /**
   * The old state sigchld_handler reports to sf_change_state.  Only the
   * first two stop branches report the state before the change; every other
   * branch assigns first and so reports the new state as the old one.
   */
  function ReportedOld(s: int, ev: ChildEvent): (o: int)
    ensures ev.Stopped? && (s == WORKER_STARTED || s == WORKER_RUNNING) ==> o == s
    ensures !(ev.Stopped? && (s == WORKER_STARTED || s == WORKER_RUNNING)) ==> o == NextState(s, ev)
  {
    if ev.Stopped? && (s == WORKER_STARTED || s == WORKER_RUNNING) then s else NextState(s, ev)
  }

  /** The number of entries of s equal to x. */
  function Count(s: seq<int>, x: int): (n: nat)
    ensures n <= |s|
  {
    if s == [] then 0 else (if s[0] == x then 1 else 0) + Count(s[1..], x)
  }

  lemma {:induction false} CountUpdate(s: seq<int>, i: nat, v: int, x: int)
    requires i < |s|
    ensures Count(s[i := v], x) == Count(s, x) - (if s[i] == x then 1 else 0) + (if v == x then 1 else 0)
  {
    if i > 0 {
      assert s[i := v][1..] == s[1..][i - 1 := v];
      CountUpdate(s[1..], i - 1, v, x);
    } else {
      assert s[i := v][1..] == s[1..];
    }
  }

  /** Every entry equals x exactly when x is counted |s| times. */
  lemma {:induction false} CountAll(s: seq<int>, x: int)
    ensures Count(s, x) == |s| <==> forall i :: 0 <= i < |s| ==> s[i] == x
  {
    if s != [] {
      CountAll(s[1..], x);
      assert forall i :: 1 <= i < |s| ==> s[i] == s[1..][i - 1];
    }
  }

  /** An entry equal to x is counted. */
  lemma {:induction false} CountPositive(s: seq<int>, x: int, i: nat)
    requires i < |s| && s[i] == x
    ensures Count(s, x) > 0
  {
    if i > 0 {
      CountPositive(s[1..], x, i - 1);
    }
  }

  /** Entries equal to y are not counted for x. */
  lemma {:induction false} CountTwo(s: seq<int>, x: int, y: int)
    requires x != y
    ensures Count(s, x) + Count(s, y) <= |s|
  {
    if s != [] {
      CountTwo(s[1..], x, y);
    }
  }

  /** The pids of the slots in ps other than the one holding pid, in slot order. */
  function Others(ps: seq<int>, pid: int): (r: seq<int>)
    ensures |r| <= |ps|
    ensures forall q :: q in r <==> q in ps && q != pid
  {
    if ps == [] then [] else (if ps[0] != pid then [ps[0]] else []) + Others(ps[1..], pid)
  }

  /** The close calls the successful exit makes for the slots of rs and ws. */
  function Closes(rs: seq<int>, ws: seq<int>): seq<Event>
    requires |rs| == |ws|
  {
    if rs == [] then []
    else
      Closes(rs[..|rs| - 1], ws[..|ws| - 1])
      + (if Closable(rs[|rs| - 1], ws[|ws| - 1])
         then [Close(rs[|rs| - 1]), Close(ws[|ws| - 1])] else [])
  }

  /** Every slot not holding pid is cancelled once: the cancels and the slots holding pid make up all slots. */
  lemma {:induction false} OthersLength(ps: seq<int>, pid: int)
    ensures |Others(ps, pid)| + Count(ps, pid) == |ps|
  {
    if ps != [] {
      OthersLength(ps[1..], pid);
    }
  }

  /** A slot's descriptors are closed exactly when neither is 0, 1 or 2. */
  predicate Closable(r: int, w: int)
  {
    r !in {0, 1, 2} && w !in {0, 1, 2}
  }

  /** The close calls are exactly those of both descriptors of every closable slot. */
  lemma {:induction false} ClosesExactly(rs: seq<int>, ws: seq<int>)
    requires |rs| == |ws|
    ensures forall e :: e in Closes(rs, ws) <==>
              exists i :: 0 <= i < |rs| && Closable(rs[i], ws[i]) && (e == Close(rs[i]) || e == Close(ws[i]))
    decreases |rs|
  {
    if rs != [] {
      var n := |rs| - 1;
      ClosesExactly(rs[..n], ws[..n]);
      assert forall i :: 0 <= i < n ==> rs[..n][i] == rs[i] && ws[..n][i] == ws[i];
    }
  }

  class MasterProcess {
    /** The number of workers master() was called with. */
    const workers: int
    /** worker_states and worker_pid: MAX_WORKERS slots each, 0 where no worker was spawned. */
    const states: array<int>
    const pids: array<int>
    /** read_fd and write_fd: the master's ends of each worker's pipes. */
    const readFd: array<int>
    const writeFd: array<int>
    /** done: workers that exited with status 0; fail: 1 once one exited with another status. */
    var done: int
    var fail: int
    /** The global prob: the problem last dispatched, with its allocation handle. */
    var prob: Option<(Problem, nat)>
    /** The number of workers spawned so far. */
    var spawned: int
    /** The bytes written to each worker's problem pipe. */
    ghost var sent: seq<seq<byte>>
    /** The observer calls and signals so far. */
    ghost var trace: seq<Event>

    ghost predicate Valid()
      reads this, states, pids, readFd, writeFd
    {
      && states.Length == MAX_WORKERS && pids.Length == MAX_WORKERS
      && readFd.Length == workers && writeFd.Length == workers
      && states != pids && states != readFd && states != writeFd
      && pids != readFd && pids != writeFd && readFd != writeFd
      && 0 <= spawned <= workers <= MAX_WORKERS
      && (forall i :: 0 <= i < spawned ==> pids[i] > 0 && IsWorkerState(states[i]))
      && (forall i :: spawned <= i < MAX_WORKERS ==> pids[i] == 0 && states[i] == 0)
      && (forall i, j :: 0 <= i < j < spawned ==> pids[i] != pids[j])
      && (fail == 0 || fail == 1)
      && 0 <= done <= Count(states[..workers], WORKER_EXITED)
      && (fail == 1 ==> Count(states[..workers], WORKER_ABORTED) > 0)
      && (prob.Some? ==> Solvable(prob.value.0) && HasInitializer(prob.value.0.ptype))
      && |sent| == workers
    }

    /** The state of master() once it has called sf_start: every slot empty, no worker yet. */
    constructor(workers: int)
      requires 0 <= workers <= MAX_WORKERS
      ensures Valid() && fresh(states) && fresh(pids) && fresh(readFd) && fresh(writeFd)
      ensures this.workers == workers && spawned == 0 && done == 0 && fail == 0 && prob.None?
      ensures sent == seq(workers, _ => []) && trace == [Start]
    {
      this.workers := workers;
      states := new int[MAX_WORKERS](_ => 0);
      pids := new int[MAX_WORKERS](_ => 0);
      readFd := new int[workers](_ => 0);
      writeFd := new int[workers](_ => 0);
      done := 0;
      fail := 0;
      prob := None;
      spawned := 0;
      sent := seq(workers, _ => []);
      trace := [Start];
      new;
      assert states[..workers] == seq(workers, _ => 0);
      assert Count(states[..workers], WORKER_EXITED) == 0 by {
        CountAbsent(states[..workers], WORKER_EXITED);
      }
    }

    /**
     * get_pid_index: the lowest slot holding pid, or -1 when no slot does.
     */
    method GetPidIndex(pid: int) returns (i: int)
      requires pids.Length == MAX_WORKERS
      ensures -1 <= i < MAX_WORKERS
      ensures i == -1 <==> forall j :: 0 <= j < MAX_WORKERS ==> pids[j] != pid
      ensures i >= 0 ==> pids[i] == pid && forall j :: 0 <= j < i ==> pids[j] != pid
    {
      i := 0;
      while i < MAX_WORKERS
        invariant 0 <= i <= MAX_WORKERS
        invariant forall j :: 0 <= j < i ==> pids[j] != pid
      {
        if pid == pids[i] {
          return i;
        }
        i := i + 1;
      }
      return -1;
    }

    /**
     * Stores state n into spawned, non-terminated slot k, with the new
     * done and fail: done may grow by one only for an EXITED worker, fail
     * may become 1 only for an ABORTED one.
     */
    method Assign(k: int, n: int, d: int, f: int)
      requires Valid() && 0 <= k < spawned && IsWorkerState(n) && !IsTerminal(states[k])
      requires d == done || (d == done + 1 && n == WORKER_EXITED)
      requires f == fail || (f == 1 && n == WORKER_ABORTED)
      modifies this, states
      ensures Valid()
      ensures states[..] == old(states[..])[k := n]
      ensures done == d && fail == f
      ensures prob == old(prob) && sent == old(sent) && spawned == old(spawned) && trace == old(trace)
    {
      ghost var before := states[..workers];
      states[k] := n;
      done := d;
      fail := f;
      assert states[..workers] == before[k := n];
      CountUpdate(before, k, n, WORKER_EXITED);
      CountUpdate(before, k, n, WORKER_ABORTED);
    }

    /**
     * Spawning slot m = spawned (the parent's side of the fork): the
     * result-read end goes to read_fd[m], the problem-write end to
     * write_fd[m]; the slot becomes STARTED, reported as a change from 0,
     * and gets the child's pid.
     */
    method Spawn(pid: int, resultsRead: int, problemsWrite: int)
      requires Valid() && spawned < workers && pid > 0
      requires forall j :: 0 <= j < spawned ==> pids[j] != pid
      modifies this, states, pids, readFd, writeFd
      ensures Valid() && spawned == old(spawned) + 1
      ensures states[..] == old(states[..])[old(spawned) := WORKER_STARTED]
      ensures pids[..] == old(pids[..])[old(spawned) := pid]
      ensures readFd[..] == old(readFd[..])[old(spawned) := resultsRead]
      ensures writeFd[..] == old(writeFd[..])[old(spawned) := problemsWrite]
      ensures trace == old(trace) + [ChangeState(pid, 0, WORKER_STARTED)]
      ensures done == old(done) && fail == old(fail) && prob == old(prob) && sent == old(sent)
    {
      var m := spawned;
      readFd[m] := resultsRead;
      writeFd[m] := problemsWrite;
      ghost var before := states[..workers];
      states[m] := WORKER_STARTED;
      trace := trace + [ChangeState(pid, 0, WORKER_STARTED)];
      pids[m] := pid;
      spawned := m + 1;
      assert states[..workers] == before[m := WORKER_STARTED];
      CountUpdate(before, m, WORKER_STARTED, WORKER_EXITED);
      CountUpdate(before, m, WORKER_STARTED, WORKER_ABORTED);
    }

    /**
     * One report of sigchld_handler's waitpid loop, for a spawned worker
     * that has not terminated (a terminated process reports nothing more).
     */
    method OnChildEvent(pid: int, ev: ChildEvent) returns (index: int)
      requires Valid() && pid > 0
      requires exists k :: 0 <= k < spawned && pids[k] == pid
      requires forall k :: 0 <= k < spawned && pids[k] == pid ==> !IsTerminal(states[k])
      modifies this, states
      ensures Valid()
      ensures 0 <= index < spawned && pids[index] == pid
      ensures states[..] == old(states[..])[index := NextState(old(states[index]), ev)]
      ensures trace == old(trace) + [ChangeState(pid, ReportedOld(old(states[index]), ev), states[index])]
      ensures done == old(done) + (if ev == Exited(0) then 1 else 0)
      ensures fail == (if ev.Exited? && ev.code != 0 then 1 else old(fail))
      ensures prob == old(prob) && sent == old(sent) && spawned == old(spawned)
    {
      index := GetPidIndex(pid);
      var s := states[index];
      var n, reported, d, f := s, s, done, fail;
      match ev {
        case Stopped =>
          if s == WORKER_STARTED {
            n, reported := WORKER_IDLE, WORKER_STARTED;
          } else if s == WORKER_RUNNING {
            n, reported := WORKER_STOPPED, WORKER_RUNNING;
          } else {
            n, reported := WORKER_STOPPED, WORKER_STOPPED;
          }
        case Continued =>
          n, reported := WORKER_RUNNING, WORKER_RUNNING;
        case Exited(code) =>
          if code != 0 {
            n, reported, f := WORKER_ABORTED, WORKER_ABORTED, 1;
          } else {
            n, reported, d := WORKER_EXITED, WORKER_EXITED, done + 1;
          }
        case Signaled(sig) =>
          if sig != 0 {
            n, reported := WORKER_ABORTED, WORKER_ABORTED;
          } else {
            n, reported := WORKER_EXITED, WORKER_EXITED;
          }
      }
      Assign(index, n, d, f);
      trace := trace + [ChangeState(pid, reported, n)];
    }

    /** Sets the state of spawned worker w, found through its pid as the source does. */
    method SetState(w: int, newState: int)
      requires Valid() && 0 <= w < spawned && IsWorkerState(newState) && !IsTerminal(newState)
      requires !IsTerminal(states[w])
      modifies this, states
      ensures Valid()
      ensures states[..] == old(states[..])[w := newState]
      ensures done == old(done) && fail == old(fail)
      ensures prob == old(prob) && sent == old(sent) && spawned == old(spawned) && trace == old(trace)
    {
      var index := GetPidIndex(pids[w]);
      Assign(index, newState, done, fail);
    }

    /**
     * Dispatch to idle worker w, once get_problem_variant(workers, w) has
     * returned a problem: fetches that variant again, writes its header and
     * then its payload to the worker's pipe, reports the send, sends
     * SIGCONT and moves the worker from IDLE to CONTINUED.
     */
    method Dispatch(w: int, pool: Pool)
      requires Valid() && pool.Valid() && spawned == workers && 0 <= w < workers
      requires states[w] == WORKER_IDLE
      requires pool.current.Some? && ValidVariant(pool.current.value, w)
      modifies this, states, pool
      ensures Valid() && pool.Valid()
      ensures prob.Some? && pool.current == Some(prob.value.0) && prob.value.1 == pool.handle
      ensures prob.value.1 !in pool.solved && prob.value.0 == VaryByType(old(pool.current).value, w).value
      ensures states[..] == old(states[..])[w := WORKER_CONTINUED]
      ensures sent == old(sent)[w := old(sent[w]) + EncodeProblem(prob.value.0)]
      ensures trace == old(trace) + [SendProblem(pids[w], prob.value.0), Kill(pids[w], SIGCONT),
                                     ChangeState(pids[w], WORKER_IDLE, WORKER_CONTINUED)]
      ensures done == old(done) && fail == old(fail) && spawned == old(spawned)
      ensures pool.solved == old(pool.solved)
      ensures pool.handle == old(pool.handle) && pool.remaining == old(pool.remaining) && pool.lastId == old(pool.lastId)
      ensures pool.numTypes == old(pool.numTypes) && pool.installed == old(pool.installed)
    {
      var p := Fetch(w, pool);
      Send(w, p);
      Move(w, [SendProblem(pids[w], p.0), Kill(pids[w], SIGCONT)], WORKER_IDLE, WORKER_CONTINUED);
    }

    /** prob = p, and the header and then the payload of p written to worker w's pipe. */
    method Send(w: int, p: (Problem, nat))
      requires Valid() && 0 <= w < workers && Solvable(p.0) && HasInitializer(p.0.ptype)
      modifies this
      ensures Valid() && prob == Some(p)
      ensures sent == old(sent)[w := old(sent[w]) + EncodeProblem(p.0)]
      ensures done == old(done) && fail == old(fail) && spawned == old(spawned) && trace == old(trace)
    {
      prob := Some(p);
      assert sent[w] + ProblemHeader(p.0) + p.0.payload == sent[w] + EncodeProblem(p.0);
      sent := sent[w := sent[w] + ProblemHeader(p.0) + p.0.payload];
    }

    /** prob = get_problem_variant(workers, w), when that is known to give a problem. */
    method Fetch(w: int, pool: Pool) returns (p: (Problem, nat))
      requires pool.Valid() && pool.current.Some? && ValidVariant(pool.current.value, w)
      modifies pool
      ensures pool.Valid() && pool.current == Some(p.0) && p.1 == pool.handle && p.1 !in pool.solved
      ensures Solvable(p.0) && HasInitializer(p.0.ptype) && p.0 == VaryByType(old(pool.current).value, w).value
      ensures pool.solved == old(pool.solved)
      ensures pool.handle == old(pool.handle) && pool.remaining == old(pool.remaining) && pool.lastId == old(pool.lastId)
      ensures pool.numTypes == old(pool.numTypes) && pool.installed == old(pool.installed)
    {
      var r;
      ghost var base;
      r, base := pool.GetProblemVariant(workers, w);
      p := r.value;
    }

    /**
     * Harvest from stopped worker w: reads a result (the header, then
     * size - 16 bytes) from the worker's pipe, reports it, posts it against
     * the global prob, and when post_result accepts it reports a cancel and
     * sends SIGHUP to every slot whose pid differs from w's, whatever that
     * worker's state; then moves the worker from STOPPED to IDLE.
     */
    method Harvest(w: int, incoming: seq<byte>, pool: Pool, hash: seq<byte> -> seq<byte>)
      returns (res: Result, accepted: bool, canceled: seq<int>)
      requires Valid() && pool.Valid() && spawned == workers && 0 <= w < workers && DigestSized(hash)
      requires states[w] == WORKER_STOPPED && prob.Some?
      requires DecodeResult(incoming).Decoded?
      requires prob.value.0.ptype == CRYPTO_MINER_PROBLEM_TYPE ==>
                 DecodeResult(incoming).value.Failed() || ResultShaped(DecodeResult(incoming).value)
      modifies this, states, pool
      ensures res == DecodeResult(incoming).value
      ensures prob == old(prob) && Valid() && pool.Valid()
      ensures accepted <==> Correct(hash, prob.value.0, res)
      ensures canceled == if accepted then Others(pids[..workers], pids[w]) else []
      ensures accepted && old(pool.current).Some? && prob.value.1 == pool.handle
              ==> pool.current.None? && pool.solved == old(pool.solved) + {prob.value.1}
      ensures !(accepted && old(pool.current).Some? && prob.value.1 == pool.handle)
              ==> pool.current == old(pool.current) && pool.solved == old(pool.solved)
      ensures pool.handle == old(pool.handle) && pool.remaining == old(pool.remaining) && pool.lastId == old(pool.lastId)
      ensures pool.numTypes == old(pool.numTypes) && pool.installed == old(pool.installed)
      ensures states[..] == old(states[..])[w := WORKER_IDLE]
      ensures trace == old(trace) + ([RecvResult(pids[w], res)] + CancelAll(canceled))
                                  + [ChangeState(pids[w], WORKER_STOPPED, WORKER_IDLE)]
      ensures done == old(done) && fail == old(fail) && sent == old(sent) && spawned == old(spawned)
    {
      res := DecodeResult(incoming).value;
      var events;
      accepted, canceled, events := Post(w, res, pool, hash);
      Move(w, [RecvResult(pids[w], res)] + events, WORKER_STOPPED, WORKER_IDLE);
    }

    /**
     * The end of a dispatch or a harvest: records its events, then moves
     * worker w from state from to state to and reports the change.
     */
    method Move(w: int, events: seq<Event>, from: int, to: int)
      requires Valid() && spawned == workers && 0 <= w < workers && states[w] == from
      requires !IsTerminal(from) && IsWorkerState(to) && !IsTerminal(to)
      modifies this, states
      ensures Valid()
      ensures states[..] == old(states[..])[w := to]
      ensures trace == old(trace) + events + [ChangeState(pids[w], from, to)]
      ensures done == old(done) && fail == old(fail) && prob == old(prob) && sent == old(sent)
      ensures spawned == old(spawned)
    {
      trace := trace + events;
      SetState(w, to);
      trace := trace + [ChangeState(pids[w], from, to)];
    }

    /**
     * post_result(res, prob) for a result from worker w, and the cancel
     * reports and SIGHUPs that follow an accepted one.
     */
    method Post(w: int, res: Result, pool: Pool, hash: seq<byte> -> seq<byte>)
      returns (accepted: bool, canceled: seq<int>, events: seq<Event>)
      requires pool.Valid() && DigestSized(hash) && Valid() && prob.Some? && 0 <= w < workers
      requires prob.value.0.ptype == CRYPTO_MINER_PROBLEM_TYPE ==> res.Failed() || ResultShaped(res)
      modifies pool
      ensures pool.Valid()
      ensures accepted <==> Correct(hash, prob.value.0, res)
      ensures accepted && old(pool.current).Some? && prob.value.1 == pool.handle
              ==> pool.current.None? && pool.solved == old(pool.solved) + {prob.value.1}
      ensures !(accepted && old(pool.current).Some? && prob.value.1 == pool.handle)
              ==> pool.current == old(pool.current) && pool.solved == old(pool.solved)
      ensures pool.handle == old(pool.handle) && pool.remaining == old(pool.remaining) && pool.lastId == old(pool.lastId)
      ensures pool.numTypes == old(pool.numTypes) && pool.installed == old(pool.installed)
      ensures canceled == (if accepted then Others(pids[..workers], pids[w]) else [])
      ensures events == CancelAll(canceled)
    {
      var c := pool.PostResult(res, prob.value.0, prob.value.1, hash);
      accepted := c == 0;
      canceled, events := [], [];
      if accepted {
        canceled, events := CancelOthers(w);
      }
    }

    /** The cancel loop of a harvest: a cancel report and SIGHUP for each slot whose pid differs from w's. */
    method CancelOthers(w: int) returns (canceled: seq<int>, events: seq<Event>)
      requires pids.Length == MAX_WORKERS && 0 <= w < workers <= MAX_WORKERS
      ensures canceled == Others(pids[..workers], pids[w])
      ensures events == CancelAll(canceled)
    {
      canceled, events := [], [];
      for c := 0 to workers
        invariant canceled == Others(pids[..c], pids[w])
        invariant events == CancelAll(canceled)
      {
        OthersStep(pids[..c + 1], pids[w]);
        assert pids[..c + 1][..c] == pids[..c];
        if pids[c] != pids[w] {
          CancelAllAppend(canceled, pids[c]);
          events := events + [Cancel(pids[c]), Kill(pids[c], SIGHUP)];
          canceled := canceled + [pids[c]];
        }
      }
    }

    /**
     * One pass of the body of the assignment loop for worker w, once the
     * loop has seen that problems are left: when get_problem_variant(workers,
     * w) gives a problem (served), an IDLE worker is dispatched to, and then
     * a STOPPED worker is harvested (harvested holds the result read and
     * whether post_result accepted it).  The ghost base is the problem
     * get_problem_variant varied.
     */
    method ServeWorker(w: int, incoming: seq<byte>, pool: Pool, hash: seq<byte> -> seq<byte>)
      returns (served: bool, harvested: Option<(Result, bool)>, ghost base: Option<Problem>)
      requires Valid() && pool.Valid() && spawned == workers && 0 <= w < workers && DigestSized(hash)
      requires states[w] == WORKER_STOPPED ==> prob.Some?
      requires DecodeResult(incoming).Decoded?
      requires prob.Some? && prob.value.0.ptype == CRYPTO_MINER_PROBLEM_TYPE ==>
                 DecodeResult(incoming).value.Failed() || ResultShaped(DecodeResult(incoming).value)
      modifies this, states, pool
      ensures Valid() && pool.Valid()
      ensures old(pool.current).None? && old(pool.numTypes) > 0 && old(pool.remaining) > 0 ==>
                && pool.remaining == old(pool.remaining) - 1 && pool.lastId == old(pool.lastId) + 1
                && pool.handle == old(pool.handle) + 1
                && base.Some? && HasInitializer(base.value.ptype) && pool.installed[base.value.ptype]
                && base == Some(Construct(base.value.ptype, pool.lastId, workers,
                                          pool.blocks(pool.lastId), pool.rnds(pool.lastId)))
      ensures !(old(pool.current).None? && old(pool.numTypes) > 0 && old(pool.remaining) > 0) ==>
                && pool.remaining == old(pool.remaining) && pool.lastId == old(pool.lastId)
                && pool.handle == old(pool.handle) && base == old(pool.current)
      ensures pool.numTypes == old(pool.numTypes) && pool.installed == old(pool.installed)
      ensures base.Some? ==> Solvable(base.value) && HasInitializer(base.value.ptype)
      ensures served <==> base.Some? && ValidVariant(base.value, w)
      ensures harvested.Some? <==> served && old(states[w]) == WORKER_STOPPED
      ensures served && old(states[w]) == WORKER_IDLE ==>
                && states[..] == old(states[..])[w := WORKER_CONTINUED]
                && prob.Some? && prob.value.0 == VaryByType(base.value, w).value
                && pool.current == Some(prob.value.0) && prob.value.1 == pool.handle
                && sent == old(sent)[w := old(sent[w]) + EncodeProblem(prob.value.0)]
                && trace == old(trace) + [SendProblem(pids[w], prob.value.0), Kill(pids[w], SIGCONT),
                                          ChangeState(pids[w], WORKER_IDLE, WORKER_CONTINUED)]
      ensures harvested.Some? ==>
                && states[..] == old(states[..])[w := WORKER_IDLE]
                && prob == old(prob) && sent == old(sent)
                && harvested.value.0 == DecodeResult(incoming).value
                && (harvested.value.1 <==> Correct(hash, prob.value.0, harvested.value.0))
                && trace == old(trace) + ([RecvResult(pids[w], harvested.value.0)]
                                          + CancelAll(if harvested.value.1 then Others(pids[..workers], pids[w]) else []))
                                       + [ChangeState(pids[w], WORKER_STOPPED, WORKER_IDLE)]
      ensures !served || old(states[w]) !in {WORKER_IDLE, WORKER_STOPPED} ==>
                states[..] == old(states[..]) && prob == old(prob) && sent == old(sent) && trace == old(trace)
      ensures done == old(done) && fail == old(fail) && spawned == old(spawned)
      ensures !served ==> pool.current == base && pool.solved == old(pool.solved)
      ensures served && !(harvested.Some? && harvested.value.1 && prob.value.1 == pool.handle) ==>
                pool.current == Some(VaryByType(base.value, w).value) && pool.solved == old(pool.solved)
      ensures harvested.Some? && harvested.value.1 && prob.value.1 == pool.handle ==>
                pool.current.None? && pool.solved == old(pool.solved) + {prob.value.1}
    {
      var avail;
      avail, base := pool.GetProblemVariant(workers, w);
      served := avail.Some?;
      harvested := None;
      if served {
        harvested := Serve(w, incoming, pool, hash, base.value);
      }
    }

    /** The body of ServeWorker once the variant w of base is current: dispatch to IDLE, or harvest from STOPPED. */
    method Serve(w: int, incoming: seq<byte>, pool: Pool, hash: seq<byte> -> seq<byte>, ghost base: Problem)
      returns (harvested: Option<(Result, bool)>)
      requires Valid() && pool.Valid() && spawned == workers && 0 <= w < workers && DigestSized(hash)
      requires states[w] == WORKER_STOPPED ==> prob.Some?
      requires DecodeResult(incoming).Decoded?
      requires prob.Some? && prob.value.0.ptype == CRYPTO_MINER_PROBLEM_TYPE ==>
                 DecodeResult(incoming).value.Failed() || ResultShaped(DecodeResult(incoming).value)
      requires Solvable(base) && HasInitializer(base.ptype) && ValidVariant(base, w)
      requires pool.current == Some(VaryByType(base, w).value)
      modifies this, states, pool
      ensures Valid() && pool.Valid()
      ensures harvested.Some? <==> old(states[w]) == WORKER_STOPPED
      ensures old(states[w]) == WORKER_IDLE ==>
                && states[..] == old(states[..])[w := WORKER_CONTINUED]
                && prob.Some? && prob.value.0 == VaryByType(base, w).value
                && pool.current == Some(prob.value.0) && prob.value.1 == pool.handle
                && sent == old(sent)[w := old(sent[w]) + EncodeProblem(prob.value.0)]
                && trace == old(trace) + [SendProblem(pids[w], prob.value.0), Kill(pids[w], SIGCONT),
                                          ChangeState(pids[w], WORKER_IDLE, WORKER_CONTINUED)]
      ensures harvested.Some? ==>
                && states[..] == old(states[..])[w := WORKER_IDLE]
                && prob == old(prob) && sent == old(sent)
                && harvested.value.0 == DecodeResult(incoming).value
                && (harvested.value.1 <==> Correct(hash, prob.value.0, harvested.value.0))
                && trace == old(trace) + ([RecvResult(pids[w], harvested.value.0)]
                                          + CancelAll(if harvested.value.1 then Others(pids[..workers], pids[w]) else []))
                                       + [ChangeState(pids[w], WORKER_STOPPED, WORKER_IDLE)]
      ensures old(states[w]) !in {WORKER_IDLE, WORKER_STOPPED} ==>
                states[..] == old(states[..]) && prob == old(prob) && sent == old(sent) && trace == old(trace)
      ensures done == old(done) && fail == old(fail) && spawned == old(spawned)
      ensures harvested.Some? && harvested.value.1 && prob.value.1 == pool.handle
              ==> pool.current.None? && pool.solved == old(pool.solved) + {prob.value.1}
      ensures !(harvested.Some? && harvested.value.1 && prob.value.1 == pool.handle)
              ==> pool.current == old(pool.current) && pool.solved == old(pool.solved)
      ensures pool.handle == old(pool.handle) && pool.remaining == old(pool.remaining) && pool.lastId == old(pool.lastId)
      ensures pool.numTypes == old(pool.numTypes) && pool.installed == old(pool.installed)
    {
      harvested := None;
      if states[w] == WORKER_IDLE {
        ServeIdle(w, pool, base);
      }
      if states[w] == WORKER_STOPPED {
        harvested := ServeStopped(w, incoming, pool, hash);
      }
    }

    /** The dispatch branch of ServeWorker, entered with the variant of base already current. */
    method ServeIdle(w: int, pool: Pool, ghost base: Problem)
      requires Valid() && pool.Valid() && spawned == workers && 0 <= w < workers
      requires states[w] == WORKER_IDLE
      requires Solvable(base) && HasInitializer(base.ptype) && ValidVariant(base, w)
      requires pool.current == Some(VaryByType(base, w).value)
      modifies this, states, pool
      ensures Valid() && pool.Valid()
      ensures states[..] == old(states[..])[w := WORKER_CONTINUED]
      ensures prob.Some? && prob.value.0 == VaryByType(base, w).value
      ensures pool.current == Some(prob.value.0) && prob.value.1 == pool.handle
      ensures pool.current == old(pool.current) && pool.solved == old(pool.solved)
      ensures pool.handle == old(pool.handle) && pool.remaining == old(pool.remaining) && pool.lastId == old(pool.lastId)
      ensures pool.numTypes == old(pool.numTypes) && pool.installed == old(pool.installed)
      ensures sent == old(sent)[w := old(sent[w]) + EncodeProblem(prob.value.0)]
      ensures trace == old(trace) + [SendProblem(pids[w], prob.value.0), Kill(pids[w], SIGCONT),
                                     ChangeState(pids[w], WORKER_IDLE, WORKER_CONTINUED)]
      ensures done == old(done) && fail == old(fail) && spawned == old(spawned)
    {
      VaryIdempotent(base, w);
      Dispatch(w, pool);
    }

    /** The harvest branch of ServeWorker, giving the result read and whether it was accepted. */
    method ServeStopped(w: int, incoming: seq<byte>, pool: Pool, hash: seq<byte> -> seq<byte>)
      returns (harvested: Option<(Result, bool)>)
      requires Valid() && pool.Valid() && spawned == workers && 0 <= w < workers && DigestSized(hash)
      requires states[w] == WORKER_STOPPED && prob.Some? && pool.current.Some?
      requires DecodeResult(incoming).Decoded?
      requires prob.value.0.ptype == CRYPTO_MINER_PROBLEM_TYPE ==>
                 DecodeResult(incoming).value.Failed() || ResultShaped(DecodeResult(incoming).value)
      modifies this, states, pool
      ensures Valid() && pool.Valid() && harvested.Some?
      ensures states[..] == old(states[..])[w := WORKER_IDLE]
      ensures prob == old(prob) && sent == old(sent)
      ensures harvested.value.0 == DecodeResult(incoming).value
      ensures harvested.value.1 <==> Correct(hash, prob.value.0, harvested.value.0)
      ensures harvested.value.1 && prob.value.1 == pool.handle
              ==> pool.current.None? && pool.solved == old(pool.solved) + {prob.value.1}
      ensures !(harvested.value.1 && prob.value.1 == pool.handle)
              ==> pool.current == old(pool.current) && pool.solved == old(pool.solved)
      ensures pool.handle == old(pool.handle) && pool.remaining == old(pool.remaining) && pool.lastId == old(pool.lastId)
      ensures pool.numTypes == old(pool.numTypes) && pool.installed == old(pool.installed)
      ensures trace == old(trace) + ([RecvResult(pids[w], harvested.value.0)]
                                     + CancelAll(if harvested.value.1 then Others(pids[..workers], pids[w]) else []))
                                  + [ChangeState(pids[w], WORKER_STOPPED, WORKER_IDLE)]
      ensures done == old(done) && fail == old(fail) && spawned == old(spawned)
    {
      var res, accepted, canceled := Harvest(w, incoming, pool, hash);
      harvested := Some((res, accepted));
    }

    /**
     * One pass of the shutdown loop for worker w: a STOPPED worker becomes
     * IDLE (its result is never read); an IDLE or RUNNING one is sent
     * SIGTERM and then SIGCONT, after which the source waits for a child
     * report (waits).
     */
    method ShutdownStep(w: int) returns (waits: bool)
      requires Valid() && spawned == workers && 0 <= w < workers
      modifies this, states
      ensures Valid()
      ensures old(states[w]) == WORKER_STOPPED ==> states[..] == old(states[..])[w := WORKER_IDLE]
      ensures old(states[w]) != WORKER_STOPPED ==> states[..] == old(states[..])
      ensures waits <==> old(states[w]) in {WORKER_STOPPED, WORKER_IDLE, WORKER_RUNNING}
      ensures trace == old(trace)
                       + (if old(states[w]) == WORKER_STOPPED
                          then [ChangeState(pids[w], WORKER_STOPPED, WORKER_IDLE)] else [])
                       + (if waits then [Kill(pids[w], SIGTERM), Kill(pids[w], SIGCONT)] else [])
      ensures done == old(done) && fail == old(fail) && prob == old(prob) && sent == old(sent)
      ensures spawned == old(spawned)
    {
      if states[w] == WORKER_STOPPED {
        SetState(w, WORKER_IDLE);
        trace := trace + [ChangeState(pids[w], WORKER_STOPPED, WORKER_IDLE)];
      }
      ghost var t1 := trace;
      waits := false;
      if states[w] == WORKER_IDLE || states[w] == WORKER_RUNNING {
        trace := trace + [Kill(pids[w], SIGTERM), Kill(pids[w], SIGCONT)];
        waits := states[w] != WORKER_EXITED;
      }
      assert trace == t1 + (if waits then [Kill(pids[w], SIGTERM), Kill(pids[w], SIGCONT)] else []);
    }

    /** The exit status the shutdown pass decides on, if any: failure first, then success once done == workers. */
    function ExitCode(): (c: Option<int>)
      requires Valid()
      reads this, states, pids, readFd, writeFd
      ensures c == Some(EXIT_FAILURE) <==> fail == 1
      ensures c == Some(EXIT_SUCCESS) ==> forall i :: 0 <= i < workers ==> states[i] == WORKER_EXITED
      ensures c == Some(EXIT_FAILURE) ==> exists i :: 0 <= i < workers && states[i] == WORKER_ABORTED
      ensures c.None? || c == Some(EXIT_SUCCESS) || c == Some(EXIT_FAILURE)
    {
      if fail == 1 then
        AbortedWitness(states[..workers]);
        Some(EXIT_FAILURE)
      else if done == workers then
        CountAll(states[..workers], WORKER_EXITED);
        assert forall i :: 0 <= i < workers ==> states[..workers][i] == states[i];
        Some(EXIT_SUCCESS)
      else None
    }

    /** The close calls of the successful exit, for every slot. */
    method CloseAll() returns (events: seq<Event>)
      requires readFd.Length == writeFd.Length
      ensures events == Closes(readFd[..], writeFd[..])
    {
      events := [];
      for i := 0 to readFd.Length
        invariant events == Closes(readFd[..i], writeFd[..i])
      {
        assert readFd[..i + 1][..i] == readFd[..i] && writeFd[..i + 1][..i] == writeFd[..i];
        if readFd[i] != 0 && readFd[i] != 1 && readFd[i] != 2
           && writeFd[i] != 0 && writeFd[i] != 1 && writeFd[i] != 2 {
          events := events + [Close(readFd[i]), Close(writeFd[i])];
        }
      }
      assert readFd[..readFd.Length] == readFd[..] && writeFd[..writeFd.Length] == writeFd[..];
    }

    /**
     * The end of a shutdown pass: with fail set, reports the end and exits
     * with failure; with every worker done, closes both ends of each slot
     * whose descriptors are none of 0, 1 and 2, reports the end and exits
     * with success; otherwise the loop goes round again.
     */
    method ExitDecision() returns (c: Option<int>)
      requires Valid()
      modifies this
      ensures Valid() && c == old(ExitCode())
      ensures c == Some(EXIT_FAILURE) ==> trace == old(trace) + [End]
      ensures c == Some(EXIT_SUCCESS) ==> trace == old(trace) + Closes(readFd[..], writeFd[..]) + [End]
      ensures c.None? ==> trace == old(trace)
      ensures done == old(done) && fail == old(fail) && prob == old(prob) && sent == old(sent)
      ensures spawned == old(spawned)
    {
      if fail == 1 {
        trace := trace + [End];
        return Some(EXIT_FAILURE);
      }
      if done == workers {
        var closes := CloseAll();
        trace := trace + closes + [End];
        return Some(EXIT_SUCCESS);
      }
      return None;
    }

    /**
     * A worker killed by a signal is ABORTED but leaves fail at 0, and it
     * never counts as done: while no worker exits with a nonzero status,
     * the master never reaches an exit status.
     */
    lemma {:induction false} SignalAbortBlocksExit(i: int)
      requires Valid() && fail == 0 && 0 <= i < workers && states[i] == WORKER_ABORTED
      ensures ExitCode().None?
    {
      assert states[..workers][i] == WORKER_ABORTED;
      CountPositive(states[..workers], WORKER_ABORTED, i);
      CountTwo(states[..workers], WORKER_EXITED, WORKER_ABORTED);
    }
  }

  /** The cancel report and SIGHUP for each pid of ps, in order. */
  function CancelAll(ps: seq<int>): seq<Event>
  {
    if ps == [] then [] else CancelAll(ps[..|ps| - 1]) + [Cancel(ps[|ps| - 1]), Kill(ps[|ps| - 1], SIGHUP)]
  }

  lemma CancelAllAppend(ps: seq<int>, p: int)
    ensures CancelAll(ps + [p]) == CancelAll(ps) + [Cancel(p), Kill(p, SIGHUP)]
  {
    assert (ps + [p])[..|ps|] == ps;
  }

  lemma {:induction false} OthersStep(ps: seq<int>, pid: int)
    requires ps != []
    ensures Others(ps, pid) == Others(ps[..|ps| - 1], pid) + (if ps[|ps| - 1] != pid then [ps[|ps| - 1]] else [])
    decreases |ps|
  {
    if |ps| > 1 {
      OthersStep(ps[1..], pid);
      assert ps[1..][..|ps| - 2] == ps[..|ps| - 1][1..];
    }
  }

  lemma {:induction false} CountAbsent(s: seq<int>, x: int)
    requires forall i :: 0 <= i < |s| ==> s[i] != x
    ensures Count(s, x) == 0
  {
    if s != [] {
      CountAbsent(s[1..], x);
    }
  }

  /** A positive count has a witness. */
  lemma {:induction false} AbortedWitness(s: seq<int>)
    ensures Count(s, WORKER_ABORTED) > 0 ==> exists i :: 0 <= i < |s| && s[i] == WORKER_ABORTED
  {
    if s != [] && s[0] != WORKER_ABORTED {
      AbortedWitness(s[1..]);
      if Count(s[1..], WORKER_ABORTED) > 0 {
        var i :| 0 <= i < |s[1..]| && s[1..][i] == WORKER_ABORTED;
        assert s[i + 1] == WORKER_ABORTED;
      }
    }
  }
}
