/** The command-line options of the daemon (ParseArgs in
    cmd/openess/args.go): flags anywhere, other arguments taken as key then
    value, and os.Exit modelled as an outcome. */
module Arguments {
  import opened Base

  // ------------------------------------------------------------ data

  /** The logging levels of internal/log/log.go. */
  const LogOff: int := -1
  const LogError: int := 0
  const LogInfo: int := 1
  const LogDebug: int := 2

  /** The parsed options; DeviceAddr is absent unless given. */
  datatype Args = Args(logLevel: int, deviceAddr: Option<string>, confPath: string, interactive: bool)

  /** What ParseArgs does: return the options, or end the process. */
  datatype Outcome = Parsed(args: Args) | Exit(code: int)

  /** The options before any argument is read. */
  const Defaults: Args := Args(LogInfo, None, "data/config.json", true)

  predicate IsBackground(arg: string) { arg == "-b" || arg == "--background" }
  predicate IsHelp(arg: string) { arg == "-h" || arg == "--help" }
  predicate IsLogKey(key: string) { key == "-l" || key == "--log" }
  predicate IsDeviceKey(key: string) { key == "-d" || key == "--device" }
  predicate IsConfigKey(key: string) { key == "-c" || key == "--config" }

  /** The level a -l value names: warn selects LOG_ERROR. */
  function LevelOf(name: string): (r: Option<int>)
    ensures r.Some? <==> name in ["off", "warn", "info", "debug"]
    ensures r.Some? ==> LogOff <= r.value <= LogDebug
    ensures name == "off" ==> r == Some(LogOff)
    ensures name == "warn" ==> r == Some(LogError)
  {
    match name
    case "off" => Some(LogOff)
    case "warn" => Some(LogError)
    case "info" => Some(LogInfo)
    case "debug" => Some(LogDebug)
    case _ => None
  }

  // ------------------------------------------------------- specification

  /** Where the scan stands: the options so far and the pending key ("" for
      none), or the exit code once the process has ended. */
  datatype Scan = Scanning(parsed: Args, key: string) | Exited(code: int)

  /** One argument: a flag acts at once, whatever key is pending; otherwise
      the argument becomes the key, or is the value of the pending key. */
  function Step(st: Scan, arg: string): (r: Scan)
    ensures st.Exited? ==> r == st
    ensures st.Scanning? && r.Scanning? ==> r.parsed.interactive ==> st.parsed.interactive
  {
    match st
    case Exited(_) => st
    case Scanning(p, key) =>
      if IsBackground(arg) then Scanning(p.(interactive := false), key)
      else if IsHelp(arg) then Exited(0)
      else if key == "" then Scanning(p, arg)
      else if IsLogKey(key) then
        (match LevelOf(arg)
         case Some(level) => Scanning(p.(logLevel := level), "")
         case None => Exited(1))
      else if IsDeviceKey(key) then Scanning(p.(deviceAddr := Some(arg)), "")
      else if IsConfigKey(key) then Scanning(p.(confPath := arg), "")
      else Exited(1)
  }

  /** The arguments read in order from a state. */
  function Run(st: Scan, args: seq<string>): Scan
    decreases |args|
  {
    if args == [] then st else Run(Step(st, args[0]), args[1..])
  }

  /** The outcome of a finished scan: a pending key is dropped. */
  function Finish(st: Scan): Outcome {
    match st
    case Scanning(p, _) => Parsed(p)
    case Exited(code) => Exit(code)
  }

  /** The outcome of the command line; args[0], the program, is skipped. */
  function Parse(args: seq<string>): Outcome
    requires |args| >= 1
  {
    Finish(Run(Scanning(Defaults, ""), args[1..]))
  }

  // ------------------------------------------------------- properties

  /** Once the process has ended, later arguments do nothing. */
  lemma {:induction false} RunExited(code: int, args: seq<string>)
    ensures Run(Exited(code), args) == Exited(code)
    decreases |args|
  {
    if args != [] {
      RunExited(code, args[1..]);
    }
  }

  /** The arguments may be read in two parts. */
  lemma {:induction false} RunAppend(st: Scan, xs: seq<string>, ys: seq<string>)
    ensures Run(st, xs + ys) == Run(Run(st, xs), ys)
    decreases |xs|
  {
    if xs != [] {
      assert (xs + ys)[1..] == xs[1..] + ys;
      RunAppend(Step(st, xs[0]), xs[1..], ys);
    } else {
      assert xs + ys == ys;
    }
  }

  /** With no arguments the defaults stand: LOG_INFO, no device address,
      data/config.json, interactive. */
  lemma NoArguments(program: string)
    ensures Parse([program]) == Parsed(Args(LogInfo, None, "data/config.json", true))
  {
    assert [program][1..] == [];
  }

  /** -h or --help ends the process with code 0 wherever it stands, unless
      an earlier argument already ended it. */
  lemma HelpExits(args: seq<string>, i: nat)
    requires 1 <= i < |args| && IsHelp(args[i])
    requires Run(Scanning(Defaults, ""), args[1..i]).Scanning?
    ensures Parse(args) == Exit(0)
  {
    assert args[1..] == args[1..i] + [args[i]] + args[i + 1..];
    RunAppend(Scanning(Defaults, ""), args[1..i] + [args[i]], args[i + 1..]);
    RunAppend(Scanning(Defaults, ""), args[1..i], [args[i]]);
    RunExited(0, args[i + 1..]);
  }

  /** A state that is not interactive stays so. */
  lemma {:induction false} RunKeepsBackground(st: Scan, args: seq<string>)
    requires st.Scanning? && !st.parsed.interactive
    ensures Run(st, args).Scanning? ==> !Run(st, args).parsed.interactive
    decreases |args|
  {
    if args != [] {
      var next := Step(st, args[0]);
      if next.Scanning? {
        RunKeepsBackground(next, args[1..]);
      } else {
        RunExited(next.code, args[1..]);
      }
    }
  }

  /** -b or --background anywhere makes the run non-interactive. */
  lemma BackgroundAnywhere(args: seq<string>, i: nat)
    requires 1 <= i < |args| && IsBackground(args[i])
    ensures Parse(args).Parsed? ==> !Parse(args).args.interactive
  {
    var start := Scanning(Defaults, "");
    assert args[1..] == args[1..i] + [args[i]] + args[i + 1..];
    RunAppend(start, args[1..i] + [args[i]], args[i + 1..]);
    RunAppend(start, args[1..i], [args[i]]);
    var before := Run(start, args[1..i]);
    if before.Scanning? {
      RunKeepsBackground(Step(before, args[i]), args[i + 1..]);
    } else {
      RunExited(before.code, [args[i]] + args[i + 1..]);
      RunAppend(before, [args[i]], args[i + 1..]);
    }
  }

  /** A flag between a key and its value does not consume the key. */
  lemma BackgroundKeepsKey(p: Args, key: string, value: string)
    requires key != "" && !IsBackground(key) && !IsHelp(key)
    requires !IsBackground(value) && !IsHelp(value)
    ensures Run(Scanning(p, ""), [key, "-b", value]) == Run(Scanning(p.(interactive := false), ""), [key, value])
  {
    assert [key, "-b", value][1..] == ["-b", value];
    assert [key, "-b", value][1..][1..] == [value];
    assert [key, value][1..] == [value];
  }

  /** A key and a value set the option the key names. */
  lemma Pair(p: Args, key: string, value: string)
    requires key != "" && !IsBackground(key) && !IsHelp(key)
    requires !IsBackground(value) && !IsHelp(value)
    ensures IsDeviceKey(key) ==> Run(Scanning(p, ""), [key, value]) == Scanning(p.(deviceAddr := Some(value)), "")
    ensures IsConfigKey(key) ==> Run(Scanning(p, ""), [key, value]) == Scanning(p.(confPath := value), "")
    ensures IsLogKey(key) && LevelOf(value).Some? ==>
      Run(Scanning(p, ""), [key, value]) == Scanning(p.(logLevel := LevelOf(value).value), "")
    ensures IsLogKey(key) && LevelOf(value).None? ==> Run(Scanning(p, ""), [key, value]) == Exited(1)
    ensures !IsLogKey(key) && !IsDeviceKey(key) && !IsConfigKey(key) ==>
      Run(Scanning(p, ""), [key, value]) == Exited(1)
  {
    assert [key, value][1..] == [value] && [value][1..] == [];
    assert Run(Scanning(p, ""), [key, value]) == Run(Scanning(p, key), [value]);
    assert Run(Scanning(p, key), [value]) == Step(Scanning(p, key), value);
  }

  /** A later pair overrides an earlier one with the same key: once the
      first pair is accepted, the two pairs together act as the second. */
  lemma LaterPairWins(p: Args, key: string, first: string, second: string)
    requires key != "" && !IsBackground(key) && !IsHelp(key)
    requires !IsBackground(first) && !IsHelp(first) && !IsBackground(second) && !IsHelp(second)
    requires Run(Scanning(p, ""), [key, first]).Scanning?
    ensures Run(Scanning(p, ""), [key, first, key, second]) == Run(Scanning(p, ""), [key, second])
  {
    RunAppend(Scanning(p, ""), [key, first], [key, second]);
    assert [key, first] + [key, second] == [key, first, key, second];
    Pair(p, key, first);
    var q := Run(Scanning(p, ""), [key, first]).parsed;
    Pair(q, key, second);
    Pair(p, key, second);
  }

  /** A key left without a value at the end is ignored. */
  lemma TrailingKeyIgnored(args: seq<string>, p: Args)
    requires |args| >= 2
    requires Run(Scanning(Defaults, ""), args[1..|args| - 1]) == Scanning(p, "")
    requires !IsBackground(args[|args| - 1]) && !IsHelp(args[|args| - 1])
    ensures Parse(args) == Parsed(p)
  {
    assert args[1..] == args[1..|args| - 1] + [args[|args| - 1]];
    RunAppend(Scanning(Defaults, ""), args[1..|args| - 1], [args[|args| - 1]]);
  }

  // ------------------------------------------------------- the parser

  /** ParseArgs: the loop over args[1..] with its pending key. */
  method ParseArgs(args: seq<string>) returns (r: Outcome)
    requires |args| >= 1
    ensures r == Parse(args)
  {
    var parsed := Defaults;
    var key := "";
    var i := 1;
    while i < |args|
      invariant 1 <= i <= |args|
      invariant Run(Scanning(parsed, key), args[i..]) == Run(Scanning(Defaults, ""), args[1..])
    {
      var arg := args[i];
      assert args[i..][1..] == args[i + 1..];
      if IsBackground(arg) {
        parsed := parsed.(interactive := false);
        i := i + 1;
        continue;
      }
      if IsHelp(arg) {
        RunExited(0, args[i + 1..]);
        return Exit(0);
      }
      if key == "" {
        key := arg;
        i := i + 1;
        continue;
      }
      if IsLogKey(key) {
        match LevelOf(arg)
        case Some(level) =>
          parsed := parsed.(logLevel := level);
        case None =>
          RunExited(1, args[i + 1..]);
          return Exit(1);
      } else if IsDeviceKey(key) {
        parsed := parsed.(deviceAddr := Some(arg));
      } else if IsConfigKey(key) {
        parsed := parsed.(confPath := arg);
      } else {
        RunExited(1, args[i + 1..]);
        return Exit(1);
      }
      key := "";
      i := i + 1;
    }
    return Parsed(parsed);
  }
}
