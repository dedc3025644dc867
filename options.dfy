/**
 * Options: the command-line handling of main (hw4/src/main.c).  The
 * options arrive already split by getopt and converted by atoi, as a
 * sequence of (flag, argument) pairs; a flag outside "w:p:t:" stands for
 * getopt's report of an unknown option.
 */
module Options {
  import opened Bytes
  import opened Polya
  import opened Solvers
  import opened ProblemPool
  import opened Master

  datatype Opt = Opt(flag: char, arg: int)

  /** The variables main fills in: the number of workers, of problems, and the type mask. */
  datatype Config = Config(nworkers: int, nprobs: int, mask: nat)

  /** The outcome of option handling: go on with a configuration, or exit with EXIT_FAILURE. */
  datatype Parsed = Run(config: Config) | Fail

  /** The values main starts from. */
  const DEFAULTS := Config(1, 0, 0)

  /** An option main accepts: -w in [1, 31], -p at least 0, -t a problem type. */
  predicate Allowed(o: Opt)
  {
    || (o.flag == 'w' && 1 <= o.arg <= 31)
    || (o.flag == 'p' && o.arg >= 0)
    || (o.flag == 't' && 0 <= o.arg < NUM_PROBLEM_TYPES)
  }

  /** mask | (1 << t), for a mask of the three type bits. */
  function OrBit(mask: nat, t: int): (r: nat)
    requires mask < 8 && 0 <= t < NUM_PROBLEM_TYPES
    ensures r < 8
    ensures forall u :: 0 <= u < NUM_PROBLEM_TYPES ==> (TypeBit(r, u) <==> TypeBit(mask, u) || u == t)
  {
    if TypeBit(mask, t) then mask else mask + [1, 2, 4][t]
  }

  /** The effect of one option on the configuration, None where main exits with failure. */
  function ApplyOpt(c: Config, o: Opt): (r: Option<Config>)
    requires c.mask < 8
    ensures r.Some? <==> Allowed(o)
    ensures r.Some? && o.flag == 'w' ==> r.value == c.(nworkers := o.arg)
    ensures r.Some? && o.flag == 'p' ==> r.value == c.(nprobs := o.arg)
    ensures r.Some? && o.flag == 't' ==> r.value == c.(mask := OrBit(c.mask, o.arg))
  {
    if o.flag == 'w' then
      if o.arg <= 0 || o.arg >= 32 then None else Some(c.(nworkers := o.arg))
    else if o.flag == 'p' then
      if o.arg < 0 then None else Some(c.(nprobs := o.arg))
    else if o.flag == 't' then
      if o.arg < 0 || o.arg >= NUM_PROBLEM_TYPES then None else Some(c.(mask := OrBit(c.mask, o.arg)))
    else None
  }

  /** The options applied in order from c, stopping at the first one main rejects. */
  function Fold(c: Config, opts: seq<Opt>): (r: Parsed)
    requires c.mask < 8
    ensures r.Run? ==> r.config.mask < 8
    decreases |opts|
  {
    if opts == [] then Run(c)
    else match ApplyOpt(c, opts[0])
      case None => Fail
      case Some(c') => Fold(c', opts[1..])
  }

  /** The getopt loop of main. */
  method ParseOptions(opts: seq<Opt>) returns (r: Parsed)
    ensures r == Fold(DEFAULTS, opts)
  {
    var nworkers, nprobs, mask := 1, 0, 0;
    var i := 0;
    while i < |opts|
      invariant 0 <= i <= |opts| && mask < 8
      invariant Fold(DEFAULTS, opts) == Fold(Config(nworkers, nprobs, mask), opts[i..])
    {
      var o := opts[i];
      assert opts[i..][1..] == opts[i + 1..];
      if o.flag == 'w' {
        nworkers := o.arg;
        if nworkers <= 0 || nworkers >= 32 {
          return Fail;
        }
      } else if o.flag == 'p' {
        nprobs := o.arg;
        if nprobs < 0 {
          return Fail;
        }
      } else if o.flag == 't' {
        var t := o.arg;
        if t < 0 || t >= NUM_PROBLEM_TYPES {
          return Fail;
        }
        mask := OrBit(mask, t);
      } else {
        return Fail;
      }
      i := i + 1;
    }
    r := Run(Config(nworkers, nprobs, mask));
  }

  /** With no options main runs with one worker, no problems and no type enabled. */
  lemma NoOptions()
    ensures Fold(DEFAULTS, []) == Run(Config(1, 0, 0))
  {
  }

  /** main goes on exactly when it accepts every option. */
  lemma {:induction false} FoldAccepts(c: Config, opts: seq<Opt>)
    requires c.mask < 8
    ensures Fold(c, opts).Run? <==> forall i :: 0 <= i < |opts| ==> Allowed(opts[i])
    decreases |opts|
  {
    if opts != [] {
      if Allowed(opts[0]) {
        FoldAccepts(ApplyOpt(c, opts[0]).value, opts[1..]);
        assert forall i :: 1 <= i < |opts| ==> opts[i] == opts[1..][i - 1];
      }
    }
  }

  /** The argument of the last option of opts with flag f, or d when there is none. */
  function LastArg(opts: seq<Opt>, f: char, d: int): int
  {
    if opts == [] then d
    else if opts[|opts| - 1].flag == f then opts[|opts| - 1].arg
    else LastArg(opts[..|opts| - 1], f, d)
  }

  /** Splitting the option sequence: the second part runs from what the first leaves. */
  lemma {:induction false} FoldAppend(c: Config, a: seq<Opt>, b: seq<Opt>)
    requires c.mask < 8
    ensures Fold(c, a + b) == if Fold(c, a).Fail? then Fail else Fold(Fold(c, a).config, b)
    decreases |a|
  {
    if a != [] {
      assert (a + b)[0] == a[0] && (a + b)[1..] == a[1..] + b;
      if ApplyOpt(c, a[0]).Some? {
        FoldAppend(ApplyOpt(c, a[0]).value, a[1..], b);
      }
    } else {
      assert a + b == b;
    }
  }

  /**
   * A configuration main goes on with: for -w and -p the last occurrence
   * wins over earlier ones and over the start value; the mask has exactly
   * the bits of the start mask and of the types some -t names.
   */
  lemma {:induction false} FoldConfig(c: Config, opts: seq<Opt>)
    requires c.mask < 8 && Fold(c, opts).Run?
    ensures var r := Fold(c, opts).config;
            && r.nworkers == LastArg(opts, 'w', c.nworkers)
            && r.nprobs == LastArg(opts, 'p', c.nprobs)
            && r.mask < 8
            && forall t :: 0 <= t < NUM_PROBLEM_TYPES ==>
                 (TypeBit(r.mask, t) <==> TypeBit(c.mask, t) || Opt('t', t) in opts)
    decreases |opts|
  {
    if opts != [] {
      var n := |opts| - 1;
      var front := opts[..n];
      assert opts == front + [opts[n]];
      FoldAppend(c, front, [opts[n]]);
      FoldConfig(c, front);
      var m := Fold(c, front).config;
      assert Fold(m, [opts[n]]).Run?;
      assert forall o :: o in opts <==> o in front || o == opts[n];
    }
  }

  /** A configuration main goes on with from its defaults has 1 to 31 workers, at least 0 problems, and a 3-bit mask. */
  lemma ParsedRanges(opts: seq<Opt>)
    requires Fold(DEFAULTS, opts).Run?
    ensures var r := Fold(DEFAULTS, opts).config;
            1 <= r.nworkers <= 31 && r.nprobs >= 0 && r.mask < 8
  {
    FoldConfig(DEFAULTS, opts);
    LastArgAllowed(opts, 'w', 1);
    LastArgAllowed(opts, 'p', 0);
    FoldAccepts(DEFAULTS, opts);
  }

  /** The last -w or -p argument is one of the options' arguments, or the start value. */
  lemma {:induction false} LastArgAllowed(opts: seq<Opt>, f: char, d: int)
    ensures LastArg(opts, f, d) == d || Opt(f, LastArg(opts, f, d)) in opts
  {
    if opts != [] && opts[|opts| - 1].flag != f {
      LastArgAllowed(opts[..|opts| - 1], f, d);
    }
  }

  /** Naming a type twice in a row enables it just as naming it once does. */
  lemma RepeatTypeIdempotent(c: Config, opts: seq<Opt>, t: int)
    requires c.mask < 8
    ensures Fold(c, opts + [Opt('t', t), Opt('t', t)]) == Fold(c, opts + [Opt('t', t)])
  {
    FoldAppend(c, opts, [Opt('t', t), Opt('t', t)]);
    FoldAppend(c, opts, [Opt('t', t)]);
  }

  /**
   * main: handles the options, then init_problems(nprobs, mask) and a
   * master with nworkers workers.  The exit status is Some(EXIT_FAILURE)
   * when an option is rejected; otherwise it is for the master to decide.
   */
  method Launch(opts: seq<Opt>, blocks: nat -> seq<byte>, rnds: nat -> nat)
    returns (status: Option<int>, pool: Pool?, m: MasterProcess?)
    requires forall k :: |blocks(k)| == NEW_BLOCK_SIZE
    ensures status.Some? <==> !Fold(DEFAULTS, opts).Run?
    ensures status.Some? ==> status.value == EXIT_FAILURE
    ensures status.None? ==> && pool != null && m != null && fresh(pool) && fresh(m)
                             && pool.Valid() && m.Valid() && m.spawned == 0
                             && pool.remaining == Fold(DEFAULTS, opts).config.nprobs
                             && pool.numTypes == EnabledCount(Fold(DEFAULTS, opts).config.mask)
                             && m.workers == Fold(DEFAULTS, opts).config.nworkers
                             && pool.typeMask == Fold(DEFAULTS, opts).config.mask
                             && forall t :: 0 <= t < NUM_PROBLEM_TYPES ==>
                                  pool.installed[t] == (HasInitializer(t) && TypeBit(Fold(DEFAULTS, opts).config.mask, t))
  {
    var r := ParseOptions(opts);
    if r.Fail? {
      return Some(EXIT_FAILURE), null, null;
    }
    ParsedRanges(opts);
    pool := new Pool(blocks, rnds);
    pool.InitProblems(r.config.nprobs, r.config.mask);
    m := new MasterProcess(r.config.nworkers);
    status := None;
  }
}
