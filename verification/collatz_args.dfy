/**
 * The command lines of the two Collatz drivers.
 *
 * The sequential driver (Assignment2/Collatz_Code/sequential_collatz.cpp:26-57)
 * takes one or more `start-end` ranges and rejects a range without a dash,
 * with a zero bound, or with `start > end`.  The parallel driver
 * (Assignment2/Collatz_Code/parallel_collatz.cpp:142-197) also takes the
 * flags `-d` (dynamic policy), `-n threads` and `-c chunk`, checks flag
 * values with `is_number` and converts them with `std::stoi`, and rejects a
 * range only when it has no dash or `start > end`.  Both convert bounds with
 * `std::stoull`; a conversion that throws ends the program, which here is an
 * error outcome.
 *
 * `strict` selects the checks: the sequential driver always uses them; the
 * parallel driver as written does not, and with `strict` it also refuses the
 * zero bound, zero threads and zero chunk size that make its loops run
 * forever or do nothing.
 */
module CollatzArgs {
  import opened Outcomes
  import opened Numerals
  import opened Search
  import CollatzSteps
  import DynamicTasks
  import BlockCyclic
  import CollatzMax

  /** The first `c` after a run of digits is the one that ends the run. */
  lemma FindAfterDigits(digits: string, c: char, rest: string)
    requires AllDigits(digits) && !IsDigit(c)
    ensures Find(digits + [c] + rest, c) == Some(|digits|)
  {
    FindAfter(digits, c, rest);
  }

  /** Why a range argument is refused. */
  datatype RangeError =
    | NoDash                   // no `-` to split at
    | BadNumber(ConvError)     // `stoull` throws on one of the halves
    | ZeroBound                // a bound is 0: the sequential check at sequential_collatz.cpp:47-50
    | StartAfterEnd            // `start > end`

  /** A range the drivers accept; `strict` adds the positivity check. */
  predicate ValidRange(r: (nat, nat), strict: bool) {
    r.0 <= r.1 <= ULLONG_MAX && (strict ==> r.0 >= 1)
  }

  /**
   * One `start-end` argument: split at the first dash, convert both halves
   * with `stoull` (left first), then check the bounds.
   */
  function ParseRange(arg: string, strict: bool): (r: Result<(nat, nat), RangeError>)
    ensures r.Ok? ==> ValidRange(r.value, strict)
    ensures r == Err(NoDash) <==> '-' !in arg
  {
    match Find(arg, '-')
    case None => Err(NoDash)
    case Some(d) =>
      match Stoull(arg[..d])
      case Err(e) => Err(BadNumber(e))
      case Ok(start) =>
        match Stoull(arg[d + 1..])
        case Err(e) => Err(BadNumber(e))
        case Ok(end) =>
          if strict && (start == 0 || end == 0) then Err(ZeroBound)
          else if start > end then Err(StartAfterEnd)
          else Ok((start, end))
  }

  /** How a range is written on the command line. */
  function ShowRange(r: (nat, nat)): (s: string)
    ensures |s| > 0 && IsDigit(s[0])
  {
    Show(r.0) + "-" + Show(r.1)
  }

  /** Digits, a dash, then anything: the split is at that dash. */
  lemma SplitDash(left: string, right: string)
    requires AllDigits(left)
    ensures var s := left + "-" + right;
            Find(s, '-') == Some(|left|) && s[..|left|] == left && s[|left| + 1..] == right
  {
    FindAfterDigits(left, '-', right);
    assert left + "-" + right == left + ['-'] + right;
  }

  /**
   * A digit run, a dash and a second half read as the two conversions
   * decide: the checks run in the order of the source.
   */
  lemma ParseSplit(left: string, right: string, strict: bool, a: nat, b: nat)
    requires AllDigits(left) && Stoull(left) == Ok(a) && Stoull(right) == Ok(b)
    ensures ParseRange(left + "-" + right, strict)
            == if strict && (a == 0 || b == 0) then Err(ZeroBound)
               else if a > b then Err(StartAfterEnd)
               else Ok((a, b))
  {
    SplitDash(left, right);
  }

  /** Every range the drivers accept is read back from its spelling. */
  lemma ParseShowRange(r: (nat, nat), strict: bool)
    requires ValidRange(r, strict)
    ensures ParseRange(ShowRange(r), strict) == Ok(r)
  {
    StoullShow(r.0);
    StoullShow(r.1);
    ParseSplit(Show(r.0), Show(r.1), strict, r.0, r.1);
  }

  /** A range with `start > end` is refused, by both drivers. */
  lemma ParseStartAfterEnd(a: nat, b: nat, strict: bool)
    requires b < a <= ULLONG_MAX && (strict ==> b >= 1)
    ensures ParseRange(ShowRange((a, b)), strict) == Err(StartAfterEnd)
  {
    StoullShow(a);
    StoullShow(b);
    ParseSplit(Show(a), Show(b), strict, a, b);
  }

  /** A zero bound is refused by the strict check and accepted without it. */
  lemma ParseZeroBound(b: nat)
    requires b <= ULLONG_MAX
    ensures ParseRange(ShowRange((0, b)), true) == Err(ZeroBound)
    ensures ParseRange(ShowRange((0, b)), false) == Ok((0, b))
  {
    StoullShow(0);
    StoullShow(b);
    ParseSplit(Show(0), Show(b), true, 0, b);
    ParseSplit(Show(0), Show(b), false, 0, b);
  }

  /** `stoull` negates modulo 2^64, so a second dash makes the end bound `2^64 - n`. */
  lemma ParseNegativeEnd(a: nat, i: int)
    requires 1 <= a && -(ULLONG_MAX as int) <= i <= -1 && a <= WORD + i
    ensures ParseRange(Show(a) + "-" + ShowInt(i), true) == Ok((a, WORD + i))
  {
    StoullShow(a);
    StoullShowNegative(i);
    ParseSplit(Show(a), ShowInt(i), true, a, WORD + i);
  }

  // ---------------------------------------------------------------------
  // The sequential driver
  // ---------------------------------------------------------------------

  /** Why a command line is refused. */
  datatype ArgError =
    | Usage                                 // no argument at all
    | MissingValue(flag: string)            // `-n`/`-c` last, or not followed by digits only
    | ValueOutOfRange(flag: string)         // `stoi` throws: the value exceeds `INT_MAX`
    | ZeroValue(flag: string)               // strict only: `-n 0` or `-c 0`
    | BadRange(arg: string, error: RangeError)

  /** Each argument a range, in order; the first bad one ends the parse. */
  function ParseRanges(args: seq<string>, strict: bool): (r: Result<seq<(nat, nat)>, ArgError>)
    ensures r.Ok? ==> |r.value| == |args| && forall j :: 0 <= j < |args| ==> ValidRange(r.value[j], strict)
    ensures r.Err? ==> r.error.BadRange?
    decreases |args|
  {
    if |args| == 0 then Ok([])
    else
      match ParseRange(args[0], strict)
      case Err(e) => Err(BadRange(args[0], e))
      case Ok(r) =>
        match ParseRanges(args[1..], strict)
        case Err(e) => Err(e)
        case Ok(rs) => Ok([r] + rs)
  }

  /**
   * The list is accepted exactly when every argument is, and then holds
   * each argument's range at its position.
   */
  lemma {:induction false} ParseRangesEach(args: seq<string>, strict: bool)
    ensures ParseRanges(args, strict).Ok? <==> forall j :: 0 <= j < |args| ==> ParseRange(args[j], strict).Ok?
    ensures ParseRanges(args, strict).Ok? ==>
              forall j :: 0 <= j < |args| ==> ParseRange(args[j], strict) == Ok(ParseRanges(args, strict).value[j])
    decreases |args|
  {
    if |args| > 0 {
      var tail := args[1..];
      ParseRangesEach(tail, strict);
      assert forall j :: 1 <= j < |args| ==> args[j] == tail[j - 1];
      if ParseRanges(args, strict).Ok? {
        var rs := ParseRanges(tail, strict).value;
        var all := ParseRanges(args, strict).value;
        assert all == [ParseRange(args[0], strict).value] + rs;
        forall j | 0 <= j < |args|
          ensures ParseRange(args[j], strict) == Ok(all[j])
        {
          if j > 0 {
            assert all[j] == rs[j - 1];
          }
        }
      }
    }
  }

  /** `sequential_collatz start1-end1 ...`: at least one argument, every one a positive range. */
  function ParseSequentialArgs(args: seq<string>): (r: Result<seq<(nat, nat)>, ArgError>)
    ensures r.Ok? ==> |r.value| == |args| > 0 && forall j :: 0 <= j < |args| ==> ValidRange(r.value[j], true)
    ensures r == Err(Usage) <==> |args| == 0
  {
    if |args| == 0 then Err(Usage) else ParseRanges(args, true)
  }

  /** The arguments that spell a list of ranges. */
  function ShowRanges(rs: seq<(nat, nat)>): (args: seq<string>)
    ensures |args| == |rs|
    ensures forall j :: 0 <= j < |rs| ==> args[j] == ShowRange(rs[j])
  {
    if |rs| == 0 then [] else [ShowRange(rs[0])] + ShowRanges(rs[1..])
  }

  /** Reading spelled-out ranges gives the ranges back. */
  lemma {:induction false} ParseShowRanges(rs: seq<(nat, nat)>, strict: bool)
    requires forall j :: 0 <= j < |rs| ==> ValidRange(rs[j], strict)
    ensures ParseRanges(ShowRanges(rs), strict) == Ok(rs)
    decreases |rs|
  {
    if |rs| > 0 {
      var args := ShowRanges(rs);
      ParseShowRange(rs[0], strict);
      assert args[1..] == ShowRanges(rs[1..]);
      ParseShowRanges(rs[1..], strict);
      assert ParseRanges(args, strict) == Ok([rs[0]] + rs[1..]);
      assert rs == [rs[0]] + rs[1..];
    }
  }

  /** The sequential driver reads back every nonempty list of positive ranges. */
  lemma SequentialRoundTrip(rs: seq<(nat, nat)>)
    requires |rs| > 0 && forall j :: 0 <= j < |rs| ==> ValidRange(rs[j], true)
    ensures ParseSequentialArgs(ShowRanges(rs)) == Ok(rs)
  {
    ParseShowRanges(rs, true);
  }

  // ---------------------------------------------------------------------
  // The parallel driver
  // ---------------------------------------------------------------------

  /** `is_number`: nonempty and digits only. */
  predicate IsNumberString(s: string) {
    |s| > 0 && AllDigits(s)
  }

  /** `std::stoi`: `stol`, then a check that the value fits an `int`. */
  function Stoi(s: string): (r: Result<int, ConvError>)
    ensures r.Ok? ==> -(INT_MAX + 1) <= r.value <= INT_MAX
    ensures r == Err(InvalidArgument) <==> ScanDecimal(s).None?
  {
    match Stol(s)
    case Err(e) => Err(e)
    case Ok((v, _)) => if v < -(INT_MAX + 1) || v > INT_MAX then Err(OutOfRange) else Ok(v)
  }

  /** A string `is_number` accepts converts to the number its digits denote, or throws `out_of_range`. */
  lemma StoiDigits(s: string)
    requires IsNumberString(s)
    ensures Stoi(s) == if DigitsValue(s) <= INT_MAX then Ok(DigitsValue(s) as int) else Err(OutOfRange)
  {
    ScanUnsignedDigits(s, "");
    assert s + "" == s;
  }

  /** `stoi` reads back every nonnegative `int` from its spelling, which `is_number` accepts. */
  lemma StoiShow(n: nat)
    requires n <= INT_MAX
    ensures IsNumberString(Show(n)) && Stoi(Show(n)) == Ok(n as int)
  {
    StoiDigits(Show(n));
    ShowValue(n);
  }

  /** The globals the parallel driver sets: `dynamic`, `num_threads`, `chunk_size` and the ranges. */
  datatype Config = Config(dynamic: bool, threads: int, chunk: int, ranges: seq<(nat, nat)>)

  /** The defaults at parallel_collatz.cpp:143-145. */
  const Defaults := Config(false, 16, 1, [])

  /** What every parse outcome satisfies, and what `strict` adds. */
  predicate WellFormed(c: Config, strict: bool) {
    0 <= c.threads <= INT_MAX && 0 <= c.chunk <= INT_MAX
    && (strict ==> c.threads >= 1 && c.chunk >= 1)
    && forall j :: 0 <= j < |c.ranges| ==> ValidRange(c.ranges[j], strict)
  }

  /** The value of `-n` or `-c`, already accepted by `is_number`. */
  function FlagValue(flag: string, s: string, strict: bool): (r: Result<int, ArgError>)
    requires IsNumberString(s)
    ensures r.Ok? ==> 0 <= r.value <= INT_MAX && (strict ==> r.value >= 1)
    ensures r.Ok? ==> DigitsValue(s) == r.value
  {
    StoiDigits(s);
    match Stoi(s)
    case Err(_) => Err(ValueOutOfRange(flag))
    case Ok(v) => if strict && v == 0 then Err(ZeroValue(flag)) else Ok(v)
  }

  /** What an argument of the parallel driver is taken for. */
  datatype Token = DynamicFlag | ThreadsFlag | ChunkFlag | Operand

  function Classify(arg: string): Token {
    if arg == "-d" then DynamicFlag
    else if arg == "-n" then ThreadsFlag
    else if arg == "-c" then ChunkFlag
    else Operand
  }

  /** An argument that starts with a digit is a range, never a flag. */
  lemma DigitIsOperand(arg: string)
    requires |arg| > 0 && IsDigit(arg[0])
    ensures Classify(arg) == Operand
  {
    assert "-d"[0] == '-' && "-n"[0] == '-' && "-c"[0] == '-';
  }

  /** The configuration after flag `t` with value `v`. */
  function SetFlag(c: Config, t: Token, v: int): Config
    requires t == ThreadsFlag || t == ChunkFlag
  {
    if t == ThreadsFlag then c.(threads := v) else c.(chunk := v)
  }

  /**
   * One pass of the loop over `argv`: the arguments left after the one at
   * the front (and its value, for `-n` and `-c`), and the configuration
   * with that argument applied.
   */
  function Step(rest: seq<string>, c: Config, strict: bool): (r: Result<(seq<string>, Config), ArgError>)
    requires |rest| > 0 && WellFormed(c, strict)
    ensures r.Ok? ==> |r.value.0| < |rest| && WellFormed(r.value.1, strict) && c.ranges <= r.value.1.ranges
    ensures r.Err? ==> !r.error.Usage?
  {
    var arg := rest[0];
    match Classify(arg)
    case DynamicFlag => Ok((rest[1..], c.(dynamic := true)))
    case Operand =>
      (match ParseRange(arg, strict)
       case Err(e) => Err(BadRange(arg, e))
       case Ok(r) => Ok((rest[1..], c.(ranges := c.ranges + [r]))))
    case t =>
      if |rest| > 1 && IsNumberString(rest[1]) then
        match FlagValue(arg, rest[1], strict)
        case Err(e) => Err(e)
        case Ok(v) => Ok((rest[2..], SetFlag(c, t, v)))
      else Err(MissingValue(arg))
  }

  /** The loop over `argv`, from the configuration built so far. */
  function ParseFrom(rest: seq<string>, c: Config, strict: bool): (r: Result<Config, ArgError>)
    requires WellFormed(c, strict)
    ensures r.Ok? ==> WellFormed(r.value, strict)
    ensures r.Ok? ==> c.ranges <= r.value.ranges
    ensures r.Err? ==> !r.error.Usage?
    decreases |rest|
  {
    if |rest| == 0 then Ok(c)
    else
      match Step(rest, c, strict)
      case Err(e) => Err(e)
      case Ok((more, c')) => ParseFrom(more, c', strict)
  }

  /** One range argument: appended, then the rest is parsed. */
  lemma ParseOperand(rest: seq<string>, c: Config, strict: bool, r: (nat, nat))
    requires WellFormed(c, strict) && |rest| > 0
    requires Classify(rest[0]) == Operand && ParseRange(rest[0], strict) == Ok(r)
    ensures WellFormed(c.(ranges := c.ranges + [r]), strict)
    ensures ParseFrom(rest, c, strict) == ParseFrom(rest[1..], c.(ranges := c.ranges + [r]), strict)
  {
  }

  /** One flag with a value `is_number` accepts and `stoi` converts. */
  lemma ParseValueFlag(flag: string, n: nat, tail: seq<string>, c: Config, strict: bool)
    requires WellFormed(c, strict)
    requires flag == "-n" || flag == "-c"
    requires n <= INT_MAX && (strict ==> n >= 1)
    ensures WellFormed(SetFlag(c, Classify(flag), n), strict)
    ensures ParseFrom([flag, Show(n)] + tail, c, strict) == ParseFrom(tail, SetFlag(c, Classify(flag), n), strict)
  {
    StoiShow(n);
    ShowValue(n);
    assert ([flag, Show(n)] + tail)[2..] == tail;
  }

  /** `parallel_collatz [-d] [-n threads] [-c chunk] start-end ...`. */
  function ParseArgs(args: seq<string>, strict: bool): (r: Result<Config, ArgError>)
    ensures r.Ok? ==> WellFormed(r.value, strict)
    ensures r == Err(Usage) <==> |args| == 0
  {
    if |args| == 0 then Err(Usage) else ParseFrom(args, Defaults, strict)
  }

  /** The flags that spell a configuration, followed by its ranges. */
  function ShowConfig(c: Config): seq<string>
    requires 0 <= c.threads && 0 <= c.chunk
  {
    (if c.dynamic then ["-d"] else []) + ValueArgs(c)
  }

  lemma AppendHead<T>(a: seq<T>, b: seq<T>)
    requires |b| > 0
    ensures a + [b[0]] + b[1..] == a + b
  {
  }

  lemma AppendNone<T>(a: seq<T>, b: seq<T>)
    requires |b| == 0
    ensures a + b == a
  {
  }

  /** Ranges after the flags are appended to the configuration in order. */
  lemma {:induction false} ParseFromRanges(rs: seq<(nat, nat)>, c: Config, strict: bool)
    requires WellFormed(c, strict)
    requires forall j :: 0 <= j < |rs| ==> ValidRange(rs[j], strict)
    ensures ParseFrom(ShowRanges(rs), c, strict) == Ok(c.(ranges := c.ranges + rs))
    decreases |rs|
  {
    var args := ShowRanges(rs);
    if |rs| > 0 {
      var r := rs[0];
      ParseShowRange(r, strict);
      DigitIsOperand(args[0]);
      ParseOperand(args, c, strict, r);
      assert args[1..] == ShowRanges(rs[1..]);
      ParseFromRanges(rs[1..], c.(ranges := c.ranges + [r]), strict);
      AppendHead(c.ranges, rs);
    } else {
      AppendNone(c.ranges, rs);
    }
  }

  /** `-n t -c k` sets both values, then parsing goes on with what follows. */
  lemma ParseFlagPair(t: nat, k: nat, tail: seq<string>, d: Config, strict: bool)
    requires WellFormed(d, strict) && t <= INT_MAX && k <= INT_MAX && (strict ==> t >= 1 && k >= 1)
    ensures WellFormed(d.(threads := t, chunk := k), strict)
    ensures ParseFrom(["-n", Show(t)] + (["-c", Show(k)] + tail), d, strict)
            == ParseFrom(tail, d.(threads := t, chunk := k), strict)
  {
    assert Classify("-n") == ThreadsFlag && Classify("-c") == ChunkFlag;
    ParseValueFlag("-n", t, ["-c", Show(k)] + tail, d, strict);
    ParseValueFlag("-c", k, tail, d.(threads := t), strict);
  }

  /** The flags and ranges after an optional `-d` give the configuration back. */
  lemma ParseAfterDynamic(c: Config, strict: bool)
    requires WellFormed(c, strict)
    ensures WellFormed(Defaults.(dynamic := c.dynamic), strict)
    ensures ParseFrom(ValueArgs(c), Defaults.(dynamic := c.dynamic), strict) == Ok(c)
  {
    var d := Defaults.(dynamic := c.dynamic);
    ParseFlagPair(c.threads, c.chunk, ShowRanges(c.ranges), d, strict);
    var withC := d.(threads := c.threads, chunk := c.chunk);
    ParseFromRanges(c.ranges, withC, strict);
    assert [] + c.ranges == c.ranges;
  }

  /** `-d` switches on the dynamic policy, then parsing goes on. */
  lemma ParseDynamicFlag(rest: seq<string>, c: Config, strict: bool)
    requires WellFormed(c, strict) && |rest| > 0 && rest[0] == "-d"
    ensures ParseFrom(rest, c, strict) == ParseFrom(rest[1..], c.(dynamic := true), strict)
  {
  }

  /** The flags after the optional `-d`. */
  function ValueArgs(c: Config): seq<string>
    requires 0 <= c.threads && 0 <= c.chunk
  {
    ["-n", Show(c.threads)] + (["-c", Show(c.chunk)] + ShowRanges(c.ranges))
  }

  /** The parallel driver reads back every configuration it can be given. */
  lemma ParallelRoundTrip(c: Config, strict: bool)
    requires WellFormed(c, strict)
    ensures ParseArgs(ShowConfig(c), strict) == Ok(c)
  {
    ParseAfterDynamic(c, strict);
    var args := ShowConfig(c);
    var flags := ValueArgs(c);
    if c.dynamic {
      assert args == ["-d"] + flags;
      assert args[1..] == flags;
      ParseDynamicFlag(args, Defaults, strict);
    } else {
      assert args == flags;
    }
  }

  /** `-n` or `-c` with nothing usable after it is refused. */
  lemma MissingFlagValue(flag: string, rest: seq<string>, strict: bool)
    requires flag == "-n" || flag == "-c"
    requires |rest| == 0 || !IsNumberString(rest[0])
    ensures ParseArgs([flag] + rest, strict) == Err(MissingValue(flag))
  {
    assert ([flag] + rest)[0] == flag;
    assert |rest| > 0 ==> ([flag] + rest)[1] == rest[0];
  }

  /** An argument that is not a flag and has no dash is refused. */
  lemma RangeWithoutDash(arg: string, rest: seq<string>, strict: bool)
    requires '-' !in arg
    ensures ParseArgs([arg] + rest, strict) == Err(BadRange(arg, NoDash))
  {
    assert ([arg] + rest)[0] == arg;
    assert arg != "-d" && arg != "-n" && arg != "-c" by {
      assert "-d"[0] == '-' && "-n"[0] == '-' && "-c"[0] == '-';
    }
  }

  // ---------------------------------------------------------------------
  // Zero values the parallel driver lets through
  // ---------------------------------------------------------------------

  /** A flag followed by the digit `0`: kept as written, refused by the strict check. */
  lemma ParseZeroFlag(rest: seq<string>, c: Config)
    requires WellFormed(c, true) && |rest| > 1
    requires rest[0] == "-n" || rest[0] == "-c"
    requires rest[1] == Show(0)
    ensures ParseFrom(rest, c, true) == Err(ZeroValue(rest[0]))
  {
    StoiShow(0);
    ShowValue(0);
  }

  /**
   * As written, the parallel driver accepts the range `0-b`; `collatz(0)`
   * never reaches 1.  The strict check refuses it, as the sequential driver
   * does.
   */
  lemma ZeroRangeAccepted(b: nat)
    requires b <= ULLONG_MAX
    ensures ParseArgs([ShowRange((0, b))], false) == Ok(Defaults.(ranges := [(0, b)]))
    ensures !CollatzSteps.Reaches(0)
    ensures ParseArgs([ShowRange((0, b))], true) == Err(BadRange(ShowRange((0, b)), ZeroBound))
  {
    var args := [ShowRange((0, b))];
    ParseZeroBound(b);
    DigitIsOperand(args[0]);
    ParseOperand(args, Defaults, false, (0, b));
    assert Defaults.ranges + [(0, b)] == [(0, b)];
    assert args[1..] == [];
    CollatzSteps.ZeroNeverReachesOne();
  }

  /** `-c 0` followed by one range, as written. */
  lemma ZeroChunkAccepted(r: (nat, nat))
    requires ValidRange(r, true)
    ensures ParseArgs(["-c", Show(0), ShowRange(r)], false) == Ok(Defaults.(chunk := 0, ranges := [r]))
  {
    var args := ["-c", Show(0), ShowRange(r)];
    assert args == ["-c", Show(0)] + ShowRanges([r]);
    assert Classify("-c") == ChunkFlag;
    ParseValueFlag("-c", 0, ShowRanges([r]), Defaults, false);
    ParseFromRanges([r], Defaults.(chunk := 0), false);
    assert Defaults.ranges + [r] == [r];
  }

  /**
   * As written, `-c 0` with the default block-cyclic policy: every thread's
   * outer loop stays at `start` forever (the period `num_threads * 0` is 0)
   * and computes nothing, so the run never ends.  The strict check refuses
   * the flag.
   */
  lemma ZeroChunkSpins(r: (nat, nat))
    requires ValidRange(r, true)
    ensures ParseArgs(["-c", Show(0), ShowRange(r)], false) == Ok(Defaults.(chunk := 0, ranges := [r]))
    ensures !Defaults.dynamic
    ensures forall t: nat, n: nat :: t < Defaults.threads ==> BlockCyclic.ThreadIndex(r.0, Defaults.threads, 0, t, n) <= r.1
    ensures ParseArgs(["-c", Show(0), ShowRange(r)], true) == Err(ZeroValue("-c"))
  {
    ZeroChunkAccepted(r);
    forall t: nat, n: nat | t < Defaults.threads
      ensures BlockCyclic.ThreadIndex(r.0, Defaults.threads, 0, t, n) <= r.1
    {
      BlockCyclic.OuterLoopEnds(r.0, r.1, Defaults.threads, 0, t);
    }
    ParseZeroFlag(["-c", Show(0), ShowRange(r)], Defaults);
  }

  /**
   * As written, `-d -c 0` selects the dynamic policy with chunk size 0: the
   * task manager hands out the same task forever.  The strict check refuses
   * the flag.
   */
  lemma ZeroChunkStalls(r: (nat, nat))
    requires ValidRange(r, true)
    ensures ParseArgs(["-d", "-c", Show(0), ShowRange(r)], false) == Ok(Defaults.(dynamic := true, chunk := 0, ranges := [r]))
    ensures var m := DynamicTasks.TaskManager(r.0, r.1, 0);
            DynamicTasks.GetNextTask(m).0 == m && DynamicTasks.GetNextTask(m).1.Some?
    ensures ParseArgs(["-d", "-c", Show(0), ShowRange(r)], true) == Err(ZeroValue("-c"))
  {
    var args := ["-d", "-c", Show(0), ShowRange(r)];
    var d := Defaults.(dynamic := true);
    ParseDynamicFlag(args, Defaults, false);
    ParseDynamicFlag(args, Defaults, true);
    assert args[1..] == ["-c", Show(0)] + ShowRanges([r]);
    assert Classify("-c") == ChunkFlag;
    ParseValueFlag("-c", 0, ShowRanges([r]), d, false);
    ParseFromRanges([r], d.(chunk := 0), false);
    assert d.ranges + [r] == [r];
    ParseZeroFlag(args[1..], d);
    DynamicTasks.ZeroChunkStalls(DynamicTasks.TaskManager(r.0, r.1, 0));
  }

  /**
   * As written, `-n 0` is accepted; no thread runs (parallel_collatz.cpp:116
   * and 126 loop zero times) and the range's reported maximum stays 0, which
   * is wrong whenever the step count `f` of its first index is not 0.  The
   * strict check refuses it.
   */
  lemma ZeroThreadsAccepted(r: (nat, nat), f: nat -> nat)
    requires ValidRange(r, true)
    ensures ParseArgs(["-n", Show(0), ShowRange(r)], false) == Ok(Defaults.(threads := 0, ranges := [r]))
    ensures CollatzMax.Spawned(0) == []
    ensures BlockCyclic.BlockCyclicRun(f, r.0, r.1, 0, Defaults.chunk) == 0
    ensures f(r.0) > 0 ==> !CollatzMax.IsMax(f, CollatzMax.Span(r.0, r.1), BlockCyclic.BlockCyclicRun(f, r.0, r.1, 0, Defaults.chunk))
    ensures ParseArgs(["-n", Show(0), ShowRange(r)], true) == Err(ZeroValue("-n"))
  {
    BlockCyclic.BlockCyclicRunNoThreads(f, r.0, r.1, 0, Defaults.chunk);
    var args := ["-n", Show(0), ShowRange(r)];
    assert args == ["-n", Show(0)] + ShowRanges([r]);
    assert Classify("-n") == ThreadsFlag;
    ParseValueFlag("-n", 0, ShowRanges([r]), Defaults, false);
    ParseFromRanges([r], Defaults.(threads := 0), false);
    assert Defaults.ranges + [r] == [r];
    ParseZeroFlag(args, Defaults);
  }
}
