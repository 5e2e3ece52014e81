/**
 * The command line of the simulator:
 *
 *   pagingwithpr [-n numAccesses] [-f availFrames] [-b bitUpdateInterval]
 *                [-l logMode] trace.tr <levelBits...>
 *
 * `getopt` and `atoi` are not modelled: the options arrive as `Flag`s with
 * their numbers already converted, the positional arguments as the trace
 * file name (absent when there is none) and the converted level widths.
 * Whether the trace file opens is a parameter. Every rejection ends the
 * program with exit status 0.
 */
module Config {
  import opened Radix
  import opened Layout
  import opened Wrappers
  import opened Nfu

  /** One option as `getopt(argc, argv, "n:f:b:l:")` returns it. */
  datatype Flag =
    | Accesses(count: Int32)     // -n
    | Frames(count: Int32)       // -f
    | Interval(count: Int32)     // -b
    | LogMode(mode: string)      // -l
    | Unrecognised               // any other option, or one missing its argument

  /** The values the options set. */
  datatype Options = Options(numAccesses: Int32, availFrames: Int32, bitUpdateInterval: Int32, logMode: string)

  /** Everything the simulation runs with. */
  datatype Settings = Settings(options: Options, traceFile: string, levelBits: seq<Int32>)

  /** Why the program stops before simulating. */
  datatype Rejection =
    | BadAccessCount             // -n below 1
    | BadFrameCount              // -f below 1
    | BadInterval                // -b below 1
    | Usage                      // unknown option, or no trace file
    | CannotOpen(file: string)   // the trace file does not open
    | LevelTooSmall(level: nat)  // a level width below 1
    | TooManyBits                // level widths above 28 bits in all

  datatype Parsed = Accepted(settings: Settings) | Rejected(reason: Rejection)

  /** The exit status of a rejected command line. */
  const REJECTED_STATUS := 0

  /** What runs when no option says otherwise: every access, 999999 frames,
      an update every 10 accesses, the summary. */
  const DEFAULTS := Options(-1, 999999, 10, "summary")

  /** Whether `getopt`'s loop lets option `f` through. */
  predicate OptionAccepted(f: Flag)
  {
    match f
    case Accesses(n) => n >= 1
    case Frames(n) => n >= 1
    case Interval(n) => n >= 1
    case LogMode(_) => true
    case Unrecognised => false
  }

  /** The message for an option the loop stops at. */
  function OptionRejection(f: Flag): Rejection
    requires !OptionAccepted(f)
  {
    match f
    case Accesses(_) => BadAccessCount
    case Frames(_) => BadFrameCount
    case Interval(_) => BadInterval
    case Unrecognised => Usage
  }

  /** The value option `f` stores. */
  function WithOption(o: Options, f: Flag): Options
  {
    match f
    case Accesses(n) => o.(numAccesses := n)
    case Frames(n) => o.(availFrames := n)
    case Interval(n) => o.(bitUpdateInterval := n)
    case LogMode(m) => o.(logMode := m)
    case Unrecognised => o
  }

  /** The options stored one after another over the defaults. */
  function Applied(options: seq<Flag>): (o: Options)
    ensures o.numAccesses == DEFAULTS.numAccesses || Accesses(o.numAccesses) in options
    ensures o.availFrames == DEFAULTS.availFrames || Frames(o.availFrames) in options
    ensures o.bitUpdateInterval == DEFAULTS.bitUpdateInterval || Interval(o.bitUpdateInterval) in options
    ensures o.logMode == DEFAULTS.logMode || LogMode(o.logMode) in options
  {
    if |options| == 0 then DEFAULTS
    else WithOption(Applied(options[..|options| - 1]), options[|options| - 1])
  }

  /** The first option the loop rejects. */
  function FirstRejectedOption(options: seq<Flag>): (i: nat)
    requires exists j | 0 <= j < |options| :: !OptionAccepted(options[j])
    ensures i < |options| && !OptionAccepted(options[i])
    ensures forall j | 0 <= j < i :: OptionAccepted(options[j])
  {
    if !OptionAccepted(options[0]) then 0
    else
      var j :| 0 <= j < |options| && !OptionAccepted(options[j]);
      assert !OptionAccepted(options[1..][j - 1]);
      1 + FirstRejectedOption(options[1..])
  }

  /** The first level whose width is below 1. */
  function FirstSmallLevel(levelArgs: seq<int>): (l: nat)
    requires exists j | 0 <= j < |levelArgs| :: levelArgs[j] < 1
    ensures l < |levelArgs| && levelArgs[l] < 1
    ensures forall j | 0 <= j < l :: levelArgs[j] >= 1
  {
    if levelArgs[0] < 1 then 0
    else
      var j :| 0 <= j < |levelArgs| && levelArgs[j] < 1;
      assert levelArgs[1..][j - 1] < 1;
      1 + FirstSmallLevel(levelArgs[1..])
  }

  /** The first check the command line fails, in the order the program
      makes them: the options left to right, a trace file given, the trace
      file opening, the level widths left to right, their total. None when
      every check passes. */
  function Problem(options: seq<Flag>, traceFile: Option<string>, opens: bool, levelArgs: seq<Int32>): (r: Option<Rejection>)
    ensures traceFile.None? || !opens ==> r.Some?
    ensures r == Some(Usage) ==> traceFile.None? || Unrecognised in options
    ensures r.Some? && r.value.LevelTooSmall? ==> r.value.level < |levelArgs| && levelArgs[r.value.level] < 1
  {
    if exists j | 0 <= j < |options| :: !OptionAccepted(options[j]) then
      Some(OptionRejection(options[FirstRejectedOption(options)]))
    else if traceFile.None? then Some(Usage)
    else if !opens then Some(CannotOpen(traceFile.value))
    else if exists j | 0 <= j < |levelArgs| :: levelArgs[j] < 1 then
      Some(LevelTooSmall(FirstSmallLevel(levelArgs)))
    else if Sum(levelArgs) > 28 then Some(TooManyBits)
    else None
  }

  /** `main`'s checks before it builds the table: the option loop, the
      trace file, then the loop over the level widths with its running
      total. Accepted exactly when no check fails, with the options stored
      in order; otherwise rejected at the first failing check. */
  method Validate(options: seq<Flag>, traceFile: Option<string>, opens: bool, levelArgs: seq<Int32>)
    returns (parsed: Parsed)
    ensures parsed.Rejected? <==> Problem(options, traceFile, opens, levelArgs).Some?
    ensures parsed.Rejected? ==> parsed.reason == Problem(options, traceFile, opens, levelArgs).value
    ensures parsed.Accepted? ==> parsed.settings == Settings(Applied(options), traceFile.value, levelArgs)
  {
    var stored := DEFAULTS;
    var i := 0;
    while i < |options|
      invariant 0 <= i <= |options|
      invariant forall j | 0 <= j < i :: OptionAccepted(options[j])
      invariant stored == Applied(options[..i])
    {
      if !OptionAccepted(options[i]) {
        return Rejected(OptionRejection(options[i]));
      }
      assert options[..i + 1][..i] == options[..i];
      stored := WithOption(stored, options[i]);
      i := i + 1;
    }
    assert options[..i] == options;
    if traceFile.None? {
      return Rejected(Usage);
    }
    if !opens {
      return Rejected(CannotOpen(traceFile.value));
    }
    var totalBits: int := 0;
    var level := 0;
    while level < |levelArgs|
      invariant 0 <= level <= |levelArgs|
      invariant forall j | 0 <= j < level :: levelArgs[j] >= 1
      invariant totalBits == Sum(levelArgs[..level])
    {
      if levelArgs[level] < 1 {
        return Rejected(LevelTooSmall(level));
      }
      assert levelArgs[..level + 1][..level] == levelArgs[..level];
      totalBits := totalBits + levelArgs[level];
      level := level + 1;
    }
    assert levelArgs[..level] == levelArgs;
    if totalBits > 28 {
      return Rejected(TooManyBits);
    }
    parsed := Accepted(Settings(stored, traceFile.value, levelArgs));
  }

  // ---------------------------------------------------------------------
  // What an accepted command line guarantees
  // ---------------------------------------------------------------------

  /** A command line passes every check exactly when every option is
      accepted, a trace file is named and opens, and the level widths are
      each at least 1 and at most 28 in all. */
  lemma ProblemFree(options: seq<Flag>, traceFile: Option<string>, opens: bool, levelArgs: seq<Int32>)
    ensures Problem(options, traceFile, opens, levelArgs).None? <==>
      && (forall j | 0 <= j < |options| :: OptionAccepted(options[j]))
      && traceFile.Some? && opens
      && (forall j | 0 <= j < |levelArgs| :: levelArgs[j] >= 1)
      && Sum(levelArgs) <= 28
  {
  }

  /** The widths of an accepted command line with at least one level are
      widths the page table can be built from. */
  lemma AcceptedWidths(options: seq<Flag>, traceFile: Option<string>, opens: bool, levelArgs: seq<Int32>)
    requires Problem(options, traceFile, opens, levelArgs).None? && |levelArgs| >= 1
    ensures WidthsOk(levelArgs)
  {
  }

  /** Accepted options leave at least one frame, an update interval of at
      least 1 and either every access (-1) or a positive count. */
  lemma {:induction false} AppliedInRange(options: seq<Flag>)
    requires forall j | 0 <= j < |options| :: OptionAccepted(options[j])
    ensures Applied(options).availFrames >= 1 && Applied(options).bitUpdateInterval >= 1
    ensures Applied(options).numAccesses == -1 || Applied(options).numAccesses >= 1
  {
    if |options| > 0 {
      AppliedInRange(options[..|options| - 1]);
    }
  }

  /** The setting option `f` is about holds `f`'s value. */
  predicate Holds(o: Options, f: Flag)
  {
    match f
    case Accesses(n) => o.numAccesses == n
    case Frames(n) => o.availFrames == n
    case Interval(n) => o.bitUpdateInterval == n
    case LogMode(m) => o.logMode == m
    case Unrecognised => true
  }

  /** Each setting is the value of the last option that names it. */
  lemma {:induction false} AppliedTakesLast(options: seq<Flag>, k: nat)
    requires k < |options| && !options[k].Unrecognised?
    requires NoneAfter(options, k, KindOf(options[k]))
    ensures Holds(Applied(options), options[k])
  {
    var init := options[..|options| - 1];
    if k < |options| - 1 {
      assert init[k] == options[k];
      assert NoneAfter(init, k, KindOf(options[k]));
      AppliedTakesLast(init, k);
      assert !IsKind(options[|options| - 1], KindOf(options[k]));
    }
  }

  /** A setting no option names keeps its default. */
  lemma {:induction false} AppliedDefault(options: seq<Flag>, kind: FlagKind)
    requires NoneAfter(options, -1, kind)
    ensures Holds(Applied(options), DefaultOf(kind))
  {
    if |options| > 0 {
      var init := options[..|options| - 1];
      assert NoneAfter(init, -1, kind);
      AppliedDefault(init, kind);
      assert !IsKind(options[|options| - 1], kind);
    }
  }

  /** The option letters that store a value. */
  datatype FlagKind = AccessesFlag | FramesFlag | IntervalFlag | LogModeFlag

  function KindOf(f: Flag): FlagKind
    requires !f.Unrecognised?
  {
    match f
    case Accesses(_) => AccessesFlag
    case Frames(_) => FramesFlag
    case Interval(_) => IntervalFlag
    case LogMode(_) => LogModeFlag
  }

  /** The default of a setting, as the option that would store it. */
  function DefaultOf(kind: FlagKind): Flag
  {
    match kind
    case AccessesFlag => Accesses(DEFAULTS.numAccesses)
    case FramesFlag => Frames(DEFAULTS.availFrames)
    case IntervalFlag => Interval(DEFAULTS.bitUpdateInterval)
    case LogModeFlag => LogMode(DEFAULTS.logMode)
  }

  predicate IsKind(f: Flag, kind: FlagKind)
  {
    match kind
    case AccessesFlag => f.Accesses?
    case FramesFlag => f.Frames?
    case IntervalFlag => f.Interval?
    case LogModeFlag => f.LogMode?
  }

  /** No option after position `k` is of kind `kind`. */
  predicate NoneAfter(options: seq<Flag>, k: int, kind: FlagKind)
  {
    forall j | k < j < |options| && 0 <= j :: !IsKind(options[j], kind)
  }
}
