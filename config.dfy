/** The run configuration and its validation (config.go). */
module Configuration {
  import opened Wrappers

  newtype uint8 = x: int | 0 <= x < 0x100
  newtype uint64 = x: int | 0 <= x < 0x1_0000_0000_0000_0000

  /** A `time.Duration`: a number of nanoseconds. */
  type Duration = int

  datatype OrderedConfig = OrderedConfig(numPartitionKeys: uint8)

  datatype SenderConfig = SenderConfig(
    disabled: bool,
    target: string,
    frequencyPerSecond: int,
    workers: uint64,
    keepAlive: bool)

  /** Optional fault injection on the receiving side; both bounds are
      optional pointers in the source. */
  datatype ReceiverFaultConfig = ReceiverFaultConfig(
    minSleepDuration: Option<Duration>,
    maxSleepDuration: Option<Duration>)

  datatype ReceiverConfig = ReceiverConfig(
    port: int,
    timeout: string,
    maxDuplicatesPercentage: Option<int>,
    includeRemoteAddressLabel: Option<bool>,
    fault: Option<ReceiverFaultConfig>,
    parsedTimeout: Duration)

  datatype Config = Config(
    sender: SenderConfig,
    receiver: ReceiverConfig,
    duration: string,
    ordered: Option<OrderedConfig>,
    parsedDuration: Duration)

  /** The load generator's default number of workers (`vegeta.DefaultWorkers`). */
  const DefaultWorkers: uint64 := 10

  /** What the validator needs of a parsed URL: `IsAbs` holds when it has a scheme. */
  datatype Url = Url(scheme: string) {
    predicate IsAbs() { scheme != "" }
  }

  /** The parsers the validator calls: `time.ParseDuration` and `url.Parse`.
      They are parameters of the model; a failure carries the parser's message. */
  type DurationParser = string -> Result<Duration, string>
  type UrlParser = string -> Result<Url, string>

  /** Why a field was refused. */
  datatype Cause =
    | ParseError(text: string)
    | FrequencyNotPositive
    | TargetEmpty
    | NegativePercentage
    | MaxSleepMissing(minSleep: Duration)
    | TargetNotAbsolute

  /** The error `validate` returns: the offending field and the cause. */
  datatype ValidationError = Invalid(field: string, cause: Cause)

  function CauseText(c: Cause, showDuration: Duration -> string): string
  {
    match c
    case ParseError(text) => text
    case FrequencyNotPositive => "frequency cannot be less or equal to 0"
    case TargetEmpty => "target cannot be empty"
    case NegativePercentage => "cannot be negative"
    case MaxSleepMissing(d) =>
      "maxSleepDuration must be specified when minSleepDuration (" + showDuration(d) + ") is configured"
    case TargetNotAbsolute => "target must be an absolute URL"
  }

  /** `invalidErr`: wraps a cause with the name of the field. */
  function InvalidErr(field: string, cause: Cause): ValidationError
  {
    Invalid(field, cause)
  }

  /** The text of the error, as `fmt.Errorf("invalid %s: %w", ...)` renders it. */
  function Message(e: ValidationError, showDuration: Duration -> string): (m: string)
    ensures "invalid " + e.field + ": " <= m
    ensures m[|"invalid " + e.field + ": "|..] == CauseText(e.cause, showDuration)
  {
    "invalid " + e.field + ": " + CauseText(e.cause, showDuration)
  }

  /** The checks of `validate`, in the order it makes them. */
  datatype Check =
    | DurationCheck
    | FrequencyCheck
    | TargetEmptyCheck
    | MaxDuplicatesCheck
    | FaultCheck
    | TargetUrlCheck
    | TimeoutCheck

  const Checks: seq<Check> :=
    [DurationCheck, FrequencyCheck, TargetEmptyCheck, MaxDuplicatesCheck, FaultCheck, TargetUrlCheck, TimeoutCheck]

  /** Position of the worker default in the sequence: after the URL check,
      before the timeout is parsed. */
  const WorkersStep := 6

  /** The field each check reports. */
  function FieldOf(chk: Check): string
  {
    match chk
    case DurationCheck => "duration"
    case FrequencyCheck => "sender.frequency"
    case TargetEmptyCheck => "sender.target"
    case MaxDuplicatesCheck => "receiver.maxDuplicatesPercentage"
    case FaultCheck => "receiver.fault.maxSleepDuration"
    case TargetUrlCheck => "sender.target"
    case TimeoutCheck => "receiver.timeout"
  }

  /** The cause each check reports when it rejects `c`: the parser's error
      text for the duration, timeout and URL parses, otherwise the check's
      own message. */
  function CauseOf(chk: Check, c: Config, parseDuration: DurationParser, parseUrl: UrlParser): Cause
    requires Fails(chk, c, parseDuration, parseUrl)
  {
    match chk
    case DurationCheck => ParseError(parseDuration(c.duration).error)
    case FrequencyCheck => FrequencyNotPositive
    case TargetEmptyCheck => TargetEmpty
    case MaxDuplicatesCheck => NegativePercentage
    case FaultCheck => MaxSleepMissing(c.receiver.fault.value.minSleepDuration.value)
    case TargetUrlCheck =>
      if parseUrl(c.sender.target).Failure? then ParseError(parseUrl(c.sender.target).error)
      else TargetNotAbsolute
    case TimeoutCheck => ParseError(parseDuration(c.receiver.timeout).error)
  }

  /** Whether `chk` rejects `c`, stated field by field. */
  predicate Fails(chk: Check, c: Config, parseDuration: DurationParser, parseUrl: UrlParser)
  {
    match chk
    case DurationCheck => parseDuration(c.duration).Failure?
    case FrequencyCheck => !c.sender.disabled && c.sender.frequencyPerSecond <= 0
    case TargetEmptyCheck => !c.sender.disabled && c.sender.target == ""
    case MaxDuplicatesCheck =>
      c.receiver.maxDuplicatesPercentage.Some? && c.receiver.maxDuplicatesPercentage.value < 0
    case FaultCheck =>
      c.receiver.fault.Some? && c.receiver.fault.value.minSleepDuration.Some?
      && c.receiver.fault.value.maxSleepDuration.None?
    case TargetUrlCheck =>
      !c.sender.disabled
      && (parseUrl(c.sender.target).Failure? || !parseUrl(c.sender.target).value.IsAbs())
    case TimeoutCheck => parseDuration(c.receiver.timeout).Failure?
  }

  /** The first `n` checks all accept `c`. */
  predicate PassesFirst(n: nat, c: Config, parseDuration: DurationParser, parseUrl: UrlParser)
    requires n <= |Checks|
  {
    forall j :: 0 <= j < n ==> !Fails(Checks[j], c, parseDuration, parseUrl)
  }

  /** Check number `i` is the first one that rejects `c`. */
  predicate FirstFailure(i: int, c: Config, parseDuration: DurationParser, parseUrl: UrlParser)
  {
    0 <= i < |Checks| && Fails(Checks[i], c, parseDuration, parseUrl)
    && PassesFirst(i, c, parseDuration, parseUrl)
  }

  /** `time.ParseDuration` yields 0 together with its error. */
  function ParsedOrZero(r: Result<Duration, string>): Duration
  {
    if r.Success? then r.value else 0
  }

  /** The configuration `validate` leaves behind: the parsed run duration
      (0 when it does not parse), the default worker count when none was
      given, and the parsed receiver timeout; the last two only once every
      check before them has passed. */
  function ValidatedConfig(c: Config, parseDuration: DurationParser, parseUrl: UrlParser): Config
  {
    var reachesWorkers := PassesFirst(WorkersStep, c, parseDuration, parseUrl);
    c.(parsedDuration := ParsedOrZero(parseDuration(c.duration)),
       sender := c.sender.(workers :=
         if reachesWorkers && c.sender.workers == 0 then DefaultWorkers else c.sender.workers),
       receiver := c.receiver.(parsedTimeout :=
         if reachesWorkers then ParsedOrZero(parseDuration(c.receiver.timeout)) else c.receiver.parsedTimeout))
  }

  /** `Config.validate`: checks the fields in a fixed order and stops at the
      first failure. On the way it stores the parsed run duration, replaces
      zero workers by the default and finally stores the parsed receiver
      timeout. The pointer receiver of the source becomes the input `c` and
      the updated configuration `v`. */
  method Validate(c: Config, parseDuration: DurationParser, parseUrl: UrlParser)
    returns (v: Config, err: Option<ValidationError>)
    // nil exactly when every check passes
    ensures err.None? <==> PassesFirst(|Checks|, c, parseDuration, parseUrl)
    // an error names the field and the cause of the first failing check
    ensures err.Some? ==>
      exists i :: FirstFailure(i, c, parseDuration, parseUrl)
        && err.value == Invalid(FieldOf(Checks[i]), CauseOf(Checks[i], c, parseDuration, parseUrl))
    // the configuration is updated as far as the checks got
    ensures v == ValidatedConfig(c, parseDuration, parseUrl)
  {
    v := c;

    var d := parseDuration(v.duration);
    v := v.(parsedDuration := ParsedOrZero(d));
    if d.Failure? {
      assert FirstFailure(0, c, parseDuration, parseUrl);
      return v, Some(InvalidErr("duration", ParseError(d.error)));
    }

    var settingsErr := CheckSettings(c, parseDuration, parseUrl);
    if settingsErr.Some? {
      return v, settingsErr;
    }

    if v.sender.workers == 0 {
      v := v.(sender := v.sender.(workers := DefaultWorkers));
    }

    var t := parseDuration(v.receiver.timeout);
    v := v.(receiver := v.receiver.(parsedTimeout := ParsedOrZero(t)));
    if t.Failure? {
      assert FirstFailure(6, c, parseDuration, parseUrl);
      return v, Some(InvalidErr("receiver.timeout", ParseError(t.error)));
    }

    return v, None;
  }

  /** The checks of `validate` between parsing the run duration and
      defaulting the workers; none of them changes the configuration. */
  method CheckSettings(c: Config, parseDuration: DurationParser, parseUrl: UrlParser)
    returns (err: Option<ValidationError>)
    requires !Fails(DurationCheck, c, parseDuration, parseUrl)
    ensures err.None? <==> PassesFirst(WorkersStep, c, parseDuration, parseUrl)
    ensures err.Some? ==>
      exists i :: i < WorkersStep && FirstFailure(i, c, parseDuration, parseUrl)
        && err.value == Invalid(FieldOf(Checks[i]), CauseOf(Checks[i], c, parseDuration, parseUrl))
  {
    if !c.sender.disabled && c.sender.frequencyPerSecond <= 0 {
      assert FirstFailure(1, c, parseDuration, parseUrl);
      return Some(InvalidErr("sender.frequency", FrequencyNotPositive));
    }

    if !c.sender.disabled && c.sender.target == "" {
      assert FirstFailure(2, c, parseDuration, parseUrl);
      return Some(InvalidErr("sender.target", TargetEmpty));
    }

    if c.receiver.maxDuplicatesPercentage.Some? && c.receiver.maxDuplicatesPercentage.value < 0 {
      assert FirstFailure(3, c, parseDuration, parseUrl);
      return Some(InvalidErr("receiver.maxDuplicatesPercentage", NegativePercentage));
    }

    if c.receiver.fault.Some? && c.receiver.fault.value.minSleepDuration.Some? {
      if c.receiver.fault.value.maxSleepDuration.None? {
        assert FirstFailure(4, c, parseDuration, parseUrl);
        return Some(InvalidErr("receiver.fault.maxSleepDuration",
                               MaxSleepMissing(c.receiver.fault.value.minSleepDuration.value)));
      }
    }

    var u := parseUrl(c.sender.target);
    if !c.sender.disabled && u.Failure? {
      assert FirstFailure(5, c, parseDuration, parseUrl);
      return Some(InvalidErr("sender.target", ParseError(u.error)));
    } else if !c.sender.disabled && !u.value.IsAbs() {
      assert FirstFailure(5, c, parseDuration, parseUrl);
      return Some(InvalidErr("sender.target", TargetNotAbsolute));
    }
    assert PassesFirst(WorkersStep, c, parseDuration, parseUrl);
    return None;
  }

  /** At most one check is the first to fail, so the error is determined. */
  lemma FirstFailureUnique(i: int, j: int, c: Config, parseDuration: DurationParser, parseUrl: UrlParser)
    requires FirstFailure(i, c, parseDuration, parseUrl) && FirstFailure(j, c, parseDuration, parseUrl)
    ensures i == j
  {
  }

  /** When not every check among the first `n` passes, one of them is the
      first to fail. */
  lemma {:induction false} SomeFirstFailure(n: nat, c: Config, parseDuration: DurationParser, parseUrl: UrlParser)
    requires n <= |Checks| && !PassesFirst(n, c, parseDuration, parseUrl)
    ensures exists i :: i < n && FirstFailure(i, c, parseDuration, parseUrl)
  {
    if PassesFirst(n - 1, c, parseDuration, parseUrl) {
      assert FirstFailure(n - 1, c, parseDuration, parseUrl);
    } else {
      SomeFirstFailure(n - 1, c, parseDuration, parseUrl);
    }
  }

  /** A disabled sender is never blamed for its frequency or its target. */
  lemma DisabledSenderNotBlamed(i: int, c: Config, parseDuration: DurationParser, parseUrl: UrlParser)
    requires c.sender.disabled && FirstFailure(i, c, parseDuration, parseUrl)
    ensures FieldOf(Checks[i]) !in {"sender.frequency", "sender.target"}
  {
  }

  /** After a successful validation the parsed values are those of the
      parsers and a worker count is set. */
  lemma ValidatedWhenAllPass(c: Config, parseDuration: DurationParser, parseUrl: UrlParser)
    requires PassesFirst(|Checks|, c, parseDuration, parseUrl)
    ensures var v := ValidatedConfig(c, parseDuration, parseUrl);
      && parseDuration(c.duration) == Success(v.parsedDuration)
      && parseDuration(c.receiver.timeout) == Success(v.receiver.parsedTimeout)
      && v.sender.workers != 0
      && (c.sender.workers != 0 ==> v.sender.workers == c.sender.workers)
  {
    assert !Fails(Checks[0], c, parseDuration, parseUrl);
    assert !Fails(Checks[6], c, parseDuration, parseUrl);
  }

  /** A check that fails before the worker default leaves the worker count
      and the parsed timeout as they were. */
  lemma EarlyFailureKeepsWorkersAndTimeout(i: int, c: Config, parseDuration: DurationParser, parseUrl: UrlParser)
    requires FirstFailure(i, c, parseDuration, parseUrl) && FieldOf(Checks[i]) != "receiver.timeout"
    ensures var v := ValidatedConfig(c, parseDuration, parseUrl);
      v.sender.workers == c.sender.workers && v.receiver.parsedTimeout == c.receiver.parsedTimeout
  {
    assert i < WorkersStep;
    assert !PassesFirst(WorkersStep, c, parseDuration, parseUrl);
  }
}
