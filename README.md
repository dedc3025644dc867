# Polya in Dafny

Polya is a master/worker problem solver. A master process forks up to 32
worker processes and talks to each over a pair of pipes. It sends a
*problem*: a 16-byte header (size, type, id, number of variants, variant)
followed by type-specific data. It receives a *result*: a 16-byte header
(size, id, failed flag, five padding bytes) followed by the solution.
Workers signal their progress by stopping themselves. The master follows
the stops, continues and exits through SIGCHLD, and keeps a state table of
its workers (STARTED, IDLE, CONTINUED, RUNNING, STOPPED, EXITED, ABORTED).
A problem pool hands out variants of the current problem. When one worker's
result is accepted, the master cancels the others with SIGHUP. Two problem
types have solvers:
- the trivial type, which always succeeds;
- the crypto miner, which searches for a nonce whose SHA-256 digest of
  block ++ nonce starts with a given number of zero bits.

This project models that logic and proves properties of it:

| module | file | models |
|---|---|---|
| `Bytes` | bytes.dfy | little-endian byte codecs, 16-bit wrap-around of `short` fields |
| `Polya` | polya.dfy | constants, `Problem` and `Result` records of `polya.h` |
| `Wire` | wire.dfy | the on-pipe layout: header then `size - 16` payload bytes, both ways |
| `Trivial` | trivial.dfy | the trivial solver |
| `Digest` | digest.dfy | `check_result`, the leading-zero-bit test |
| `Search` | search.dfy | `update_nonce` on an array and the `solve` loop |
| `CryptoMiner` | crypto_miner.dfy | the crypto miner constructor, varier, solver and checker |
| `Solvers` | solvers.dfy | the solver table indexed by problem type |
| `ProblemPool` | problem_pool.dfy | `problem.c` as a class over its static variables |
| `Worker` | worker.dfy | the worker's signal flags and one pass of its loop |
| `Master` | master.dfy | the master's worker table, the SIGCHLD transitions and each step of the main loop |
| `Options` | options.dfy | `main`'s option checks and mask building |

How the environment enters the model:
- **Hash.** SHA-256 is a parameter `hash: seq<byte> -> seq<byte>` whose
  digests are 32 bytes long (`Digest.DigestSized`).
- **Cancel flag.** The flag the crypto solver polls is an oracle: the
  flag's value before the k-th hash.
- **Randomness.** The random type choice of `get_problem_variant` is a
  nondeterministic choice among installed types. The random block and
  difficulty of a new crypto problem come from two functions of the
  problem id, fixed when the pool is created.
- **Pipes.** Bytes sent on a pipe are byte sequences: the master appends
  to a per-worker `sent` log, and the worker consumes `input` and appends
  to `output`.
- **Observer hooks and signals.** Every `sf_*` observer call and every
  `kill` the master makes is appended to a ghost `trace` of `Event`s,
  starting with the `Start` that `sf_start` reports on entry to `master`.
- **Asynchrony.** Signal delivery is the environment calling
  `OnChildEvent` between any two master steps. A step is not always one
  masked block of the source: `Dispatch`, `Harvest` and `ShutdownStep`
  also contain code the source runs unmasked (see "## Left out").

## Model

| member | source | states |
|---|---|---|
| `Bytes.LeValue` | hw4/src/crypto_miner.c:323-341 | the nonce read as a little-endian base-256 number is below 256^n |
| `Bytes.LeValueOfBytes` | hw4/include/polya.h:69-77 | decoding the little-endian encoding of a value in range gives the value back |
| `Bytes.LeBytesOfValue` | hw4/include/polya.h:69-77 | encoding the value of a byte string gives the byte string back |
| `Bytes.LeValueMaxOnlyAllMax` | hw4/src/crypto_miner.c:336-340 | a nonce with the largest value 256^n - 1 has every byte 0xff |
| `Bytes.LeValueAllMax` | hw4/src/crypto_miner.c:336-340 | a nonce whose bytes are all 0xff has the largest value 256^n - 1, the converse |
| `Bytes.ToShort` | hw4/include/polya.h:71-74 | storing an int into a `short` field wraps it into [-32768, 32767], agrees modulo 2^16, and is the identity in range |
| `Bytes.SignedRoundTrip` | hw4/include/polya.h:71-74 | a `short` survives its two's-complement byte form |
| `Wire.ShortBytesRoundTrip` | hw4/include/polya.h:71-74 | a 16-bit field read back from its two bytes is the value written |
| `Wire.EncodeProblem` | hw4/include/polya.h:69-77 | a problem on the wire is exactly `size` bytes: the 16-byte header then `size - 16` payload bytes |
| `Wire.DecodeProblem` | hw4/src/worker.c:97-113 | reading a problem fails exactly when fewer than 16 bytes, a size below 16, or fewer than `size` bytes are available; otherwise what was read re-encodes to the bytes consumed |
| `Wire.DecodeEncodeProblem` | hw4/src/master.c:289-305 | the worker reads back exactly the problem the master wrote, leaving the following bytes |
| `Wire.EncodeResult` | hw4/include/polya.h:87-93 | a result on the wire is exactly `size` bytes: size, id, failed, five zero padding bytes, then the payload |
| `Wire.DecodeResult` | hw4/src/master.c:370-386 | reading a result fails exactly when the header or the `size` bytes are not there; otherwise it consumes `size` bytes and re-encodes to them with the padding zeroed |
| `Wire.DecodeEncodeResult` | hw4/src/worker.c:153 | the master reads back exactly the result the worker wrote |
| `Trivial.TrivialConstruct` | hw4/src/trivial.c:44-53 | a trivial problem is a bare 16-byte header of the trivial type with the given id and nvars |
| `Trivial.TrivialSolve` | hw4/src/trivial.c:79-89 | the trivial solver ignores the cancel flag and gives a 16-byte unfailed result with a zero id |
| `Trivial.TrivialCheck` | hw4/src/trivial.c:98-102 | the trivial checker gives 0 exactly for an unfailed result, -1 otherwise |
| `Trivial.TrivialSolveAccepted` | hw4/src/trivial.c:79-102 | the trivial checker accepts whatever the trivial solver produces |
| `Trivial.TrivialFrame` | hw4/src/trivial.c:44-53 | a trivial problem occupies 16 bytes on the wire and reads back as itself |
| `Digest.LeadingZeroBitsIff` | hw4/src/crypto_miner.c:308-321 | the first k bits of a digest (bytes in order, most significant bit first) are zero exactly when each is |
| `Digest.OneBitStops` | hw4/src/crypto_miner.c:313-318 | a one bit inside the first diff bits makes the test fail |
| `Digest.CheckResult` | hw4/src/crypto_miner.c:308-321 | the nested loops give true exactly when 1 <= diff <= 8·dsize and the first diff bits are zero |
| `Search.UpdateNonce` | hw4/src/crypto_miner.c:334-341 | the nonce array's little-endian value grows by one and the result is 1, or the result is 0 exactly when every byte was 0xff and then every byte is 0 |
| `Search.Attempt` | hw4/src/crypto_miner.c:267-293 | one hash of block ++ nonce is tested against the difficulty, and a failed attempt extends the record of nonces tried |
| `Search.Turn` | hw4/src/crypto_miner.c:267-295 | one pass of the do-while: -1 exactly when the flag is set, leaving the nonce; else 0 when the current nonce solves, leaving it; else the counter steps, 2 with the next value or 1 after the wrap, and the tried range grows by one |
| `Search.Solve` | hw4/src/crypto_miner.c:253-297 | -1 only when the cancel flag was seen set, before any more hashing; 0 only when the current nonce's digest passes the test; 1 only when the nonce space ran out; every nonce tried before the current one fails |
| `CryptoMiner.ChosenDiff` | hw4/src/crypto_miner.c:106 | the difficulty is 20 when at most 20 is requested, otherwise between 20 and the request |
| `CryptoMiner.CryptoConstruct` | hw4/src/crypto_miner.c:91-110 | size = 32 + bsize + nsize, the block is copied, the nonce is zero, the header fields are set and the difficulty is as chosen |
| `CryptoMiner.CryptoVary` | hw4/src/crypto_miner.c:121-138 | varying keeps size, type, id and nvars, and sets `var` only when nvars is nonzero |
| `CryptoMiner.VaryFrame` | hw4/src/crypto_miner.c:133-136 | varying changes only the nonce bytes and the one byte it writes |
| `CryptoMiner.VaryNonce` | hw4/src/crypto_miner.c:121-138 | with a nonempty nonce, varying keeps the block and the difficulty and gives an all-zero nonce whose last byte is `(var*256/nvars) & 0xff` when there are variants |
| `CryptoMiner.TopByteIncreasing` | hw4/src/crypto_miner.c:127-135 | with at most 256 variants, later variants get strictly larger top bytes, so the starting nonces are distinct |
| `CryptoMiner.TopNonceValue` | hw4/src/crypto_miner.c:127-135 | a variant's starting nonce has the value top-byte · 256^(nsize-1) |
| `CryptoMiner.CryptoVaryIdempotent` | hw4/src/crypto_miner.c:121-138 | varying a varied crypto problem with the same variant changes nothing |
| `CryptoMiner.ResultLayout` | hw4/src/crypto_miner.c:174-190 | a crypto result carries nsize at offset 0 and a copy of the nonce at offset 4 |
| `CryptoMiner.SolvedResultAccepted` | hw4/src/crypto_miner.c:174-190 | the result built from a solving nonce is accepted by the checker |
| `CryptoMiner.CryptoSolver` | hw4/src/crypto_miner.c:156-193 | a result has size 24 + nsize, the problem's id, failed = 0 and a solving nonce no earlier than the start; NULL only when no nonce from the start up solves the problem, or after a cancellation seen before the k-th hash with the flag clear before and none of the k nonces tried solving |
| `CryptoMiner.CryptoCheck` | hw4/src/crypto_miner.c:203-235 | -1 exactly for a failed result, 0 exactly when the carried nonce meets the difficulty, 1 otherwise |
| `Solvers.VaryByType` | hw4/src/problem.c:85-94 | the varier of the problem's type exists exactly for types 1 and 2, and keeps type, id, nvars and size |
| `Solvers.SolveByType` | hw4/src/worker.c:130 | the solver indexed by the type tag runs; a produced result is correct; the trivial one is `TrivialSolve`'s, the crypto one carries the problem's id and the first solving nonce from the start; NULL only from the crypto solver, after a cancellation seen with every earlier nonce tried, or an exhausted search |
| `Solvers.TrivialVaryUnchanged` | hw4/src/trivial.c:63-66 | the trivial varier leaves the problem as it is, for every variant |
| `Solvers.VaryIdempotent` | hw4/src/problem.c:89-94 | asking again for the variant the current problem already is gives the same problem |
| `Solvers.CheckByType` | hw4/include/polya.h:145-155 | the checker gives 0 exactly when the result is unfailed and solves the problem, -1 exactly when it is failed |
| `Solvers.CorrectAnyVariant` | hw4/include/polya.h:57-67 | a result solves a variant exactly when it solves the problem, so any variant can be checked in its place |
| `ProblemPool.EnabledCount` | hw4/src/problem.c:52-64 | at most the two types with an initializer are counted |
| `ProblemPool.Construct` | hw4/src/problem.c:104-131 | a new problem of an installed type has the given id and nvars; a crypto one has an 8-byte nonce, the given 32-byte block and difficulty 20..25 |
| `ProblemPool.Pool.InitProblems` | hw4/src/problem.c:52-64 | remaining = nprobs, and only types whose mask bit is set and that have an initializer are counted and installed (type 0 never is) |
| `ProblemPool.Pool.NewProblem` | hw4/src/problem.c:104-131 | one problem is used up, the id advances by one, and the current problem is a fresh one built for that id |
| `ProblemPool.Pool.GetProblemVariant` | hw4/src/problem.c:70-95 | the base problem is the current one, or else, when a type is enabled and problems remain, a new one built by `Construct` for the next id and an installed type; NULL exactly when there is no base or the variant is out of range, and then the current problem is the base, unvaried; otherwise the result is the current problem, equal to `VaryByType(base, v)`, never one already solved |
| `ProblemPool.Pool.PostResult` | hw4/src/problem.c:138-155 | -1 exactly for a failed result with no change; 0 exactly for a correct one, clearing the current problem only when prob is it and marking it solved; 1 otherwise with no change |
| `Worker.AllTypesEnabled` | hw4/src/worker_main.c:30 | the mask ~0 the worker initializes with enables every type |
| `Worker.WorkerProcess.OnHup` | hw4/src/worker.c:11-18 | the SIGHUP handler only sets the cancel flag |
| `Worker.WorkerProcess.OnTerm` | hw4/src/worker.c:22-28 | the SIGTERM handler sets done and exits with EXIT_SUCCESS |
| `Worker.WorkerProcess.Step` | hw4/src/worker.c:85-172 | one pass consumes exactly one problem's bytes and appends exactly one result of `size` bytes; `failed` is 1 exactly when the cancel flag was set, and then the flag is reset; apart from that flag the result is the solver's: for a trivial problem the zeroed 16-byte result with id 0, for a crypto problem one with the problem's id whose nonce is the first solving one from the start nonce; an unfailed result is correct |
| `Worker.WorkerProcess.ReadProblem` | hw4/src/worker.c:97-113 | the problem read is the one decoded from standard input, whose encoding is exactly the bytes consumed |
| `Worker.WorkerProcess.MarkCanceled` | hw4/src/worker.c:135-138 | a set flag marks the result failed and is cleared; otherwise the result is unchanged |
| `Master.NextState` | hw4/src/master.c:46-94 | stop: STARTED→IDLE, else STOPPED; continue: RUNNING; exit 0: EXITED; nonzero exit or a nonzero signal: ABORTED |
| `Master.ReportedOld` | hw4/src/master.c:46-94 | only the STARTED and RUNNING stop branches report the state before the change; every other branch reports the new state as the old |
| `Master.MasterProcess.constructor` | hw4/src/master.c:104-115 | master starts with every slot empty, no worker spawned, nothing sent and no prob, and `sf_start` as the only event so far |
| `Master.MasterProcess.GetPidIndex` | hw4/src/master.c:18-26 | the lowest slot holding the pid, or -1 exactly when no slot does |
| `Master.MasterProcess.Spawn` | hw4/src/master.c:187-242 | slot m gets the result-read end, the problem-write end, state STARTED reported as a change from 0, and the pid |
| `Master.MasterProcess.OnChildEvent` | hw4/src/master.c:46-94 | the reporting worker's slot alone takes the next state and the reported change; done grows only for exit 0; fail is set only for a nonzero exit |
| `Master.MasterProcess.Dispatch` | hw4/src/master.c:270-338 | an IDLE worker is sent the header and exactly `size - 16` payload bytes of variant w of the current problem, which becomes prob; then SIGCONT, and the worker becomes CONTINUED |
| `Master.MasterProcess.Harvest` | hw4/src/master.c:348-446 | a STOPPED worker's result is read and posted; when it is accepted, every slot with a different pid gets a cancel and SIGHUP, whatever its state; an accepted result for the current problem clears it and marks its handle solved, anything else leaves the pool's current problem and solved set as they were; the pool's counters never change; the worker ends IDLE either way |
| `Master.MasterProcess.Post` | hw4/src/master.c:407-434 | accepted exactly when the result is correct for prob; the pool changes only by clearing the current problem when the accepted result is for it; an accepted result cancels every other slot |
| `Master.MasterProcess.Fetch` | hw4/src/master.c:279 | prob is variant w of the current problem, which becomes current, with the pool's solved set and counters unchanged |
| `Master.MasterProcess.Send` | hw4/src/master.c:289-305 | the header and then the payload of prob are appended to worker w's pipe, which is the problem's encoding |
| `Master.MasterProcess.SetState` | hw4/src/master.c:337 | the slot found through the worker's pid, which is the worker's own, takes the new state, and nothing else changes |
| `Master.MasterProcess.Move` | hw4/src/master.c:336-338 | the events are recorded, then the worker's slot alone changes state and the change is reported |
| `Master.MasterProcess.CancelOthers` | hw4/src/master.c:410-434 | the pids cancelled are exactly the slots' pids other than the harvested worker's, in slot order |
| `Master.MasterProcess.ServeWorker` | hw4/src/master.c:266-446 | served exactly when get_problem_variant gives variant w of a base problem. An IDLE worker then becomes CONTINUED, prob is `VaryByType(base, w)`, its encoding is appended to the worker's pipe and the send, SIGCONT and state change are traced. A STOPPED worker then becomes IDLE, its result is the one decoded, it is accepted exactly when correct for prob (clearing the current problem and marking it solved when prob is current; otherwise the varied problem stays current), and the trace holds the receive, the cancels and the state change. Otherwise nothing in the master changes. With no current problem, when a type is enabled and problems remain, the base is a new problem built by `Construct` for the next id, using up one problem; otherwise the base is the old current problem (None when there is none) and the counters stay |
| `Master.MasterProcess.ShutdownStep` | hw4/src/master.c:461-500 | a STOPPED worker becomes IDLE without its result being read, and IDLE or RUNNING workers get SIGTERM then SIGCONT |
| `Master.MasterProcess.ExitCode` | hw4/src/master.c:508-527 | failure exactly when fail is set, and then some worker is ABORTED; success only when every worker is EXITED |
| `Master.MasterProcess.CloseAll` | hw4/src/master.c:518-523 | both ends are closed for exactly the slots whose descriptors are none of 0, 1 and 2 |
| `Master.ClosesExactly` | hw4/src/master.c:518-523 | a descriptor is closed exactly when it is one of the two ends of a slot where neither end is 0, 1 or 2 |
| `Master.OthersLength` | hw4/src/master.c:410-434 | the cancelled slots and the slots holding the harvested worker's pid together make up all the slots |
| `Master.MasterProcess.ExitDecision` | hw4/src/master.c:508-527 | the exit status is `ExitCode`; failure reports the end, success first closes the descriptors |
| `Master.MasterProcess.SignalAbortBlocksExit` | hw4/src/master.c:84-94 | a worker killed by a signal with fail still 0 leaves the master with no exit status |
| `Master.CountAll` | hw4/src/master.c:515 | done == workers can only hold when every worker is EXITED |
| `Options.OrBit` | hw4/src/main.c:61 | `mask \| (1 << type)` sets exactly bit `type` and keeps the others |
| `Options.ApplyOpt` | hw4/src/main.c:41-66 | an option is accepted exactly when it is -w in [1, 31], -p >= 0 or -t in [0, 3); each sets only its own variable |
| `Options.ParseOptions` | hw4/src/main.c:36-67 | the getopt loop computes the fold of the options from the defaults |
| `Options.NoOptions` | hw4/src/main.c:36-38 | the defaults are 1 worker, 0 problems and mask 0 |
| `Options.FoldAccepts` | hw4/src/main.c:40-67 | main goes on exactly when every option is accepted |
| `Options.FoldConfig` | hw4/src/main.c:42-61 | the last -w and the last -p win; the mask has exactly the bits of the types named by -t |
| `Options.ParsedRanges` | hw4/src/main.c:43-52 | main goes on only with 1 to 31 workers and at least 0 problems |
| `Options.RepeatTypeIdempotent` | hw4/src/main.c:61 | naming a type twice is the same as naming it once |
| `Options.Launch` | hw4/src/main.c:68-69 | a rejected option exits with EXIT_FAILURE; otherwise the pool holds nprobs problems, keeps the parsed mask, and has installed exactly the mask's types that have an initializer (counted in numTypes), and the master has nworkers workers |

## Left out

- Process and signal plumbing (`fork`, `execl`, `dup2`, `pipe`, `signal`, `sigprocmask`, `sigsuspend`, `raise`) is operating-system behaviour. The environment may call `OnChildEvent` between any two master methods, not inside one.
- `Master.MasterProcess.Dispatch`, `Master.MasterProcess.Harvest`, `Master.MasterProcess.ServeWorker`, `Master.MasterProcess.ShutdownStep`: each is atomic, but the source runs parts of them unmasked, so some interleavings are not captured. `sf_send_problem` runs between the two masked blocks of a dispatch (master.c:320-331). `sf_recv_result`, `post_result` and the SIGHUP loop of a harvest run unmasked (master.c:398-441). A SIGCHLD can also arrive between the dispatch and the STOPPED test (master.c:343-348). In the source, a worker that stops at once after SIGCONT can then be harvested in the same pass. The model always ends that pass with the worker CONTINUED. A shutdown pass tests the worker's state unmasked, before each of its two masked blocks (master.c:464 and :479). A child report can land between a test and its block, or between the two blocks, so the source may act on a state that has since changed. In the model no report arrives inside the pass.
- `Master.MasterProcess.Harvest`, `Master.MasterProcess.Post`, `ProblemPool.Pool.PostResult`, `Solvers.CheckByType`, `CryptoMiner.CryptoCheck`: against a crypto problem, these require an unfailed result to carry the nonce it describes (`ResultShaped`). The source checks each result against the global `prob`, the problem last sent to any worker (master.c:407). A worker can still hold an unfailed 16-byte trivial result when `prob` is a crypto problem. `crypto_miner_check_result` then reads `nsize` and the nonce past the end of that buffer (crypto_miner.c:226), which is undefined behaviour. The model excludes that case by precondition.
- The `waitpid` drain loop of `sigchld_handler` is left out. Each report it handles is one call of `OnChildEvent`.
- The loops over workers in `master` (spawning, assigning, shutdown) and the outer `while(1)` are left to the caller. Each pass of their bodies is a method (`Spawn`, `ServeWorker`, `ShutdownStep`, `ExitDecision`). Termination of the whole protocol depends on the operating system and is not stated.
- Stdio calls become byte sequences. Short reads, `ferror` and `fflush` failures are not modelled. The master's read of a result is required to find a whole result (`Harvest` requires `DecodeResult(...).Decoded?`).
- SHA-256 (libgcrypt `gcry_md_*`) is the `hash` parameter. The failure branch of `gcry_md_open` is not modelled.
- `random`, `srandom` and `gettimeofday` are parameters or a nondeterministic choice. The retry loop of `get_problem_variant`, which draws types until one is installed, becomes one choice among installed types.
- Allocation failures (`malloc` and `realloc` returning NULL) are not modelled.
- The debug hex dump in `solve` is logging only.
- The `sf_*` hooks have no visible implementation. They are events in a ghost trace.
- Pointer aliasing is not modelled. Every call of `get_problem_variant` returns the same `current_problem` object, and `post_result` frees it when it clears it. The master's `prob` still points to it, and the master reads `prob->type` again on the next harvest. The model keeps its own value of `prob`, with a handle standing for the pointer identity `current_problem == prob`.
- The crypto varier and constructor write into the problem buffer with `memset`, `memcpy` and one byte store. They are modelled as functions returning the changed problem, because every holder of the problem sees the same object.
- `Worker.WorkerProcess.Step`: the solver is required to give a result (`NonNullSolve`). The source dereferences the NULL the crypto solver returns after a cancellation or an exhausted search (worker.c:136 and :153), which crashes the worker.
- `Master.MasterProcess.OnChildEvent`: it requires a pid the table knows and a slot that has not terminated. The source indexes the table with -1 for an unknown pid.
- `Master.MasterProcess.constructor` requires 0 to 32 workers. `master` itself does not check its argument, although polya.h documents a default of one worker for a non-positive argument.
- `Solvers.CorrectAnyVariant` requires a nonempty nonce for a crypto problem. With nsize = 0 and nvars != 0, the varier stores `(var*256/nvars) & 0xff` at `data[bsize - 1]`, which is the last block byte (or the high byte of `diff` when bsize = 0). That variant is then a different problem.
- The `var` field of a trivial problem is never initialized in the source, so the model asserts nothing about it.
- hw4/src/worker_main.c is two calls; only the mask it passes to `init_problems` is modelled (`AllTypesEnabled`). hw4/tests/hw4_tests.c is not part of this model.

## Differences between the documentation and the code

The model follows the code in each case:
- **Worker limit.** The usage text of `main` says at most 32 workers, but the check at main.c:43 rejects 32, so `-w` accepts 1..31.
- **Signal-killed workers.** The comments call a worker killed by a signal a failure, but `sigchld_handler` marks it ABORTED without setting `fail` (master.c:84-94). It is never counted in `done` either, so no exit status is ever reached (`SignalAbortBlocksExit`).
- **Logged old state.** Every branch of `sigchld_handler` other than the first two stop branches stores the new state before calling `sf_change_state`, so the reported old state is the new one (`ReportedOld`).
- **Cancel broadcast.** After an accepted result, SIGHUP goes to every other slot whatever its state, including idle and exited workers (`CancelOthers`). An idle worker that gets it keeps its cancel flag set. Its next solve is then marked failed. For a crypto problem the solver returns NULL at once, and the worker dereferences that NULL (worker.c:136). The model rules this out by the `NonNullSolve` precondition of `Worker.WorkerProcess.Step`.
