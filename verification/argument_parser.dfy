/** The command-line argument parser: a registry of flags, a short-to-long alias
    map, the parsed values, positional arguments and parse errors, and a
    token-by-token parse over `argv`. The process-wide instance is modelled as
    an ordinary value that each operation takes and returns. */
module ArgumentParser {
  import opened Wrappers

  datatype FlagInfo = FlagInfo(
    description: string,
    defaultValue: string,
    required: bool,
    isBooleanFlag: bool,
    shortFlag: string)

  datatype Parser = Parser(
    arguments: map<string, string>,
    positionalArgs: seq<string>,
    flagInfos: map<string, FlagInfo>,
    shortToLongFlag: map<string, string>,
    programName: string,
    programDescription: string,
    parseErrors: seq<string>)

  /** The instance as first obtained: nothing registered, nothing parsed. */
  const NewParser: Parser := Parser(map[], [], map[], map[], "", "", [])

  /** Whether a token's first character is a dash. The empty token is read as
      starting with the terminating NUL character, so it does not. */
  predicate StartsWithDash(token: string) {
    |token| > 0 && token[0] == '-'
  }

  /** Every registered name is stored without leading dashes. */
  predicate WellFormed(p: Parser) {
    forall f :: f in p.flagInfos ==> !StartsWithDash(f)
  }

  // ---------------------------------------------------------------------------
  // Token helpers
  // ---------------------------------------------------------------------------

  /** Strips every leading dash, and nothing else (no case change). */
  function NormalizeFlagName(flag: string): (normalized: string)
    ensures |normalized| <= |flag|
    ensures !StartsWithDash(normalized)
    ensures !StartsWithDash(flag) ==> normalized == flag
    decreases |flag|
  {
    if StartsWithDash(flag) then NormalizeFlagName(flag[1..]) else flag
  }

  /** A dash followed by one non-dash character. */
  predicate IsShortFlag(arg: string) {
    |arg| == 2 && arg[0] == '-' && arg[1] != '-'
  }

  /** Two dashes followed by at least one character. */
  predicate IsLongFlag(arg: string) {
    |arg| > 2 && arg[0] == '-' && arg[1] == '-'
  }

  /** The registry name a flag token refers to: a long token without its two
      dashes; a short token's registered long name, or its bare letter when it
      has none; any other token unchanged. */
  function ExtractFlagName(p: Parser, arg: string): (name: string)
    ensures IsLongFlag(arg) ==> "--" + name == arg
    ensures IsShortFlag(arg) ==>
      name == (if arg[1..] in p.shortToLongFlag then p.shortToLongFlag[arg[1..]] else arg[1..])
    ensures !IsLongFlag(arg) && !IsShortFlag(arg) ==> name == arg
  {
    if IsLongFlag(arg) then arg[2..]
    else if IsShortFlag(arg) then
      var shortFlag := arg[1..];
      if shortFlag in p.shortToLongFlag then p.shortToLongFlag[shortFlag] else shortFlag
    else arg
  }

  // ---------------------------------------------------------------------------
  // Queries
  // ---------------------------------------------------------------------------

  /** A value is present for the flag, looked up under its normalised name. */
  predicate HasFlag(p: Parser, flag: string) {
    NormalizeFlagName(flag) in p.arguments
  }

  function GetOptionalValue(p: Parser, flag: string): (value: Option<string>)
    ensures value.Some? <==> HasFlag(p, flag)
    ensures value.Some? ==> value.value == p.arguments[NormalizeFlagName(flag)]
  {
    var name := NormalizeFlagName(flag);
    if name in p.arguments then Some(p.arguments[name]) else None
  }

  /** The stored value, or the empty string when there is none. */
  function GetValue(p: Parser, flag: string): (value: string)
    ensures value == GetOptionalValue(p, flag).GetOr("")
  {
    var name := NormalizeFlagName(flag);
    if name in p.arguments then p.arguments[name] else ""
  }

  /** The stored value, or `defaultValue` when it is missing or empty. */
  function GetValueOr(p: Parser, flag: string, defaultValue: string): (value: string)
    ensures !HasFlag(p, flag) ==> value == defaultValue
    ensures HasFlag(p, flag) && |p.arguments[NormalizeFlagName(flag)]| == 0 ==> value == defaultValue
    ensures HasFlag(p, flag) && |p.arguments[NormalizeFlagName(flag)]| > 0 ==> value == p.arguments[NormalizeFlagName(flag)]
  {
    var value := GetValue(p, flag);
    if value == "" then defaultValue else value
  }

  /** The spellings of a true boolean value. */
  predicate IsTruthy(value: string) {
    value == "true" || value == "1" || value == "yes" || value == "on"
  }

  function GetBoolValue(p: Parser, flag: string): (b: bool)
    ensures b <==> HasFlag(p, flag) && IsTruthy(p.arguments[NormalizeFlagName(flag)])
  {
    IsTruthy(GetValue(p, flag))
  }

  function GetPositionalArg(p: Parser, index: nat): (arg: string)
    ensures index < |p.positionalArgs| ==> arg == p.positionalArgs[index]
    ensures index >= |p.positionalArgs| ==> arg == ""
  {
    GetPositionalArgOr(p, index, "")
  }

  function GetPositionalArgOr(p: Parser, index: nat, defaultValue: string): (arg: string)
    ensures index < |p.positionalArgs| ==> arg == p.positionalArgs[index]
    ensures index >= |p.positionalArgs| ==> arg == defaultValue
  {
    if index < |p.positionalArgs| then p.positionalArgs[index] else defaultValue
  }

  /** Every required flag has a value. Parse errors play no part. */
  predicate ValidateArguments(p: Parser) {
    forall f :: f in p.flagInfos && p.flagInfos[f].required ==> f in p.arguments
  }

  // ---------------------------------------------------------------------------
  // Registration and reset
  // ---------------------------------------------------------------------------

  /** A non-empty short flag becomes an alias of `name`; an empty one adds nothing. */
  function WithAlias(aliases: map<string, string>, shortFlag: string, name: string): (aliases': map<string, string>)
    ensures |shortFlag| > 0 ==> shortFlag in aliases' && aliases'[shortFlag] == name
    ensures |shortFlag| == 0 ==> aliases' == aliases
    ensures aliases' - {shortFlag} == aliases - {shortFlag}
  {
    if |shortFlag| > 0 then aliases[shortFlag := name] else aliases
  }

  /** Registers a value flag under its normalised name. A non-empty default is
      stored as the flag's value at once; a non-empty short flag becomes an
      alias of the long name. */
  function AddFlag(p: Parser, longFlag: string, description: string, required: bool,
                   defaultValue: string, shortFlag: string): (p': Parser)
    ensures NormalizeFlagName(longFlag) in p'.flagInfos
    ensures p'.flagInfos[NormalizeFlagName(longFlag)] == FlagInfo(description, defaultValue, required, false, shortFlag)
    ensures |defaultValue| > 0 ==> GetValue(p', longFlag) == defaultValue
    ensures |defaultValue| == 0 ==> p'.arguments == p.arguments
    ensures |shortFlag| > 0 ==> shortFlag in p'.shortToLongFlag && p'.shortToLongFlag[shortFlag] == NormalizeFlagName(longFlag)
    ensures p'.flagInfos - {NormalizeFlagName(longFlag)} == p.flagInfos - {NormalizeFlagName(longFlag)}
    ensures p'.arguments - {NormalizeFlagName(longFlag)} == p.arguments - {NormalizeFlagName(longFlag)}
    ensures p'.shortToLongFlag - {shortFlag} == p.shortToLongFlag - {shortFlag}
    ensures p'.positionalArgs == p.positionalArgs && p'.parseErrors == p.parseErrors
    ensures p'.programName == p.programName && p'.programDescription == p.programDescription
    ensures WellFormed(p) ==> WellFormed(p')
  {
    var name := NormalizeFlagName(longFlag);
    p.(flagInfos := p.flagInfos[name := FlagInfo(description, defaultValue, required, false, shortFlag)],
       arguments := if |defaultValue| > 0 then p.arguments[name := defaultValue] else p.arguments,
       shortToLongFlag := WithAlias(p.shortToLongFlag, shortFlag, name))
  }

  /** Registers a boolean flag, optional and stored as "false" until seen. */
  function AddBooleanFlag(p: Parser, longFlag: string, description: string, shortFlag: string): (p': Parser)
    ensures NormalizeFlagName(longFlag) in p'.flagInfos
    ensures p'.flagInfos[NormalizeFlagName(longFlag)] == FlagInfo(description, "false", false, true, shortFlag)
    ensures GetValue(p', longFlag) == "false"
    ensures |shortFlag| > 0 ==> shortFlag in p'.shortToLongFlag && p'.shortToLongFlag[shortFlag] == NormalizeFlagName(longFlag)
    ensures p'.flagInfos - {NormalizeFlagName(longFlag)} == p.flagInfos - {NormalizeFlagName(longFlag)}
    ensures p'.arguments - {NormalizeFlagName(longFlag)} == p.arguments - {NormalizeFlagName(longFlag)}
    ensures p'.shortToLongFlag - {shortFlag} == p.shortToLongFlag - {shortFlag}
    ensures p'.positionalArgs == p.positionalArgs && p'.parseErrors == p.parseErrors
    ensures p'.programName == p.programName && p'.programDescription == p.programDescription
    ensures WellFormed(p) ==> WellFormed(p')
  {
    var name := NormalizeFlagName(longFlag);
    p.(flagInfos := p.flagInfos[name := FlagInfo(description, "false", false, true, shortFlag)],
       arguments := p.arguments[name := "false"],
       shortToLongFlag := WithAlias(p.shortToLongFlag, shortFlag, name))
  }

  /** Forgets every registration, value, positional argument, error and name. */
  function Clear(p: Parser): (p': Parser)
    ensures forall f :: !HasFlag(p', f)
    ensures |p'.arguments| == 0
    ensures |p'.flagInfos| == 0 && |p'.shortToLongFlag| == 0
    ensures |p'.programName| == 0 && |p'.programDescription| == 0
    ensures |p'.positionalArgs| == 0 && |p'.parseErrors| == 0
    ensures ValidateArguments(p') && WellFormed(p')
  {
    p.(arguments := map[], positionalArgs := [], flagInfos := map[], shortToLongFlag := map[],
       parseErrors := [], programName := "", programDescription := "")
  }

  // ---------------------------------------------------------------------------
  // Parsing
  // ---------------------------------------------------------------------------

  predicate IsHelpToken(token: string) {
    token == "-h" || token == "--help"
  }

  /** The outcome of one token: stop for help, or continue at index `next`. */
  datatype TokenStep = Stop(parser: Parser) | Next(parser: Parser, next: nat)

  /** `q` differs from `p` only in parsed state: the registry, aliases and
      description are the same, no stored value disappears, every new value
      belongs to a registered flag, and positional arguments and errors only grow. */
  predicate ParsedFrom(p: Parser, q: Parser) {
    && q.flagInfos == p.flagInfos
    && q.shortToLongFlag == p.shortToLongFlag
    && q.programDescription == p.programDescription
    && q.programName == p.programName
    && (forall f :: f in p.arguments ==> f in q.arguments)
    && (forall f :: f in q.arguments && f !in p.arguments ==> f in p.flagInfos)
    && p.positionalArgs <= q.positionalArgs
    && p.parseErrors <= q.parseErrors
  }

  lemma ParsedFromTransitive(p: Parser, q: Parser, r: Parser)
    requires ParsedFrom(p, q) && ParsedFrom(q, r)
    ensures ParsedFrom(p, r)
  {
  }

  /** Handles `argv[idx]`: help stops; a known boolean flag is set to "true";
      a known value flag takes the next token when there is one that does not
      start with a dash, and records an error otherwise; an unknown flag
      records an error; any other token is appended as positional. */
  function ParseToken(p: Parser, argv: seq<string>, idx: nat): (step: TokenStep)
    requires idx < |argv|
    ensures step.Stop? <==> IsHelpToken(argv[idx])
    ensures step.Stop? ==> step.parser == p
    ensures step.Next? ==> idx < step.next <= |argv| && step.next <= idx + 2
    ensures step.Next? && step.next == idx + 2 ==> !StartsWithDash(argv[idx + 1])
    ensures ParsedFrom(p, step.parser)
  {
    var arg := argv[idx];
    if IsHelpToken(arg) then Stop(p)
    else if StartsWithDash(arg) then
      var name := ExtractFlagName(p, arg);
      if name !in p.flagInfos then
        Next(p.(parseErrors := p.parseErrors + ["Unknown flag: " + arg]), idx + 1)
      else if p.flagInfos[name].isBooleanFlag then
        Next(p.(arguments := p.arguments[name := "true"]), idx + 1)
      else if idx + 1 < |argv| && !StartsWithDash(argv[idx + 1]) then
        Next(p.(arguments := p.arguments[name := argv[idx + 1]]), idx + 2)
      else
        Next(p.(parseErrors := p.parseErrors + ["Flag " + arg + " requires a value"]), idx + 1)
    else
      Next(p.(positionalArgs := p.positionalArgs + [arg]), idx + 1)
  }

  datatype ParseRun = ParseRun(parser: Parser, helpRequested: bool)

  predicate HelpFrom(argv: seq<string>, idx: nat) {
    exists i :: idx <= i < |argv| && IsHelpToken(argv[i])
  }

  /** The parse loop from index `idx` on. It stops for help exactly when some
      remaining token is a help token: a help token starts with a dash, so it
      is never consumed as a flag's value. */
  function ParseFrom(p: Parser, argv: seq<string>, idx: nat): (run: ParseRun)
    ensures run.helpRequested <==> HelpFrom(argv, idx)
    ensures ParsedFrom(p, run.parser)
    decreases |argv| - idx
  {
    if idx >= |argv| then ParseRun(p, false)
    else
      match ParseToken(p, argv, idx)
      case Stop(q) => ParseRun(q, true)
      case Next(q, next) =>
        assert forall i :: idx <= i < next ==> !IsHelpToken(argv[i]);
        var run := ParseFrom(q, argv, next);
        assert HelpFrom(argv, idx) ==> HelpFrom(argv, next);
        run
  }

  datatype ParseResult = ParseResult(parser: Parser, ok: bool)

  /** Parses `argv` (program name first). Errors from an earlier parse are
      discarded; values and positional arguments accumulate. The result is
      false when help was requested, and otherwise is the required-flag
      validation of the final state, whatever errors were recorded. */
  function Parse(p: Parser, argv: seq<string>): (r: ParseResult)
    ensures r.ok <==> !HelpFrom(argv, 1) && ValidateArguments(r.parser)
    ensures |argv| > 0 ==> r.parser.programName == argv[0]
    ensures ParsedFrom(p.(parseErrors := [], programName := r.parser.programName), r.parser)
  {
    var start := p.(parseErrors := [], programName := if |argv| > 0 then argv[0] else p.programName);
    var run := ParseFrom(start, argv, 1);
    ParseResult(run.parser, !run.helpRequested && ValidateArguments(run.parser))
  }

  // ---------------------------------------------------------------------------
  // Properties of the helpers
  // ---------------------------------------------------------------------------

  lemma NormalizeDropsOneDash(s: string)
    ensures NormalizeFlagName("-" + s) == NormalizeFlagName(s)
  {
    assert ("-" + s)[1..] == s;
  }

  /** Normalising removes a prefix made only of dashes and keeps the rest as it is. */
  lemma {:induction false} NormalizeStripsDashPrefix(flag: string)
    ensures var n := NormalizeFlagName(flag);
      && flag == flag[..|flag| - |n|] + n
      && forall i :: 0 <= i < |flag| - |n| ==> flag[i] == '-'
    decreases |flag|
  {
    if StartsWithDash(flag) {
      NormalizeStripsDashPrefix(flag[1..]);
      var n := NormalizeFlagName(flag);
      assert flag == [flag[0]] + flag[1..];
      assert flag[1..] == flag[1..][..|flag| - 1 - |n|] + n;
      assert flag[..|flag| - |n|] == [flag[0]] + flag[1..][..|flag| - 1 - |n|];
    }
  }

  /** Normalising twice is normalising once. */
  lemma NormalizeIdempotent(flag: string)
    ensures NormalizeFlagName(NormalizeFlagName(flag)) == NormalizeFlagName(flag)
  {
  }

  /** Lower-case and upper-case names stay distinct: there is no case folding. */
  lemma NormalizeKeepsCase()
    ensures NormalizeFlagName("--Verbose") == "Verbose"
    ensures NormalizeFlagName("--Verbose") != NormalizeFlagName("--verbose")
    ensures NormalizeFlagName("in-file") == "in-file"
  {
    StripTwoDashes("Verbose");
    StripTwoDashes("verbose");
    assert "Verbose"[0] != "verbose"[0];
  }

  lemma StripTwoDashes(name: string)
    requires !StartsWithDash(name)
    ensures NormalizeFlagName("--" + name) == name
  {
    assert ("--" + name)[1..] == "-" + name;
    assert ("-" + name)[1..] == name;
  }

  /** No token is both a short and a long flag. */
  lemma FlagKindsExclusive(arg: string)
    ensures !(IsShortFlag(arg) && IsLongFlag(arg))
  {
  }

  /** Queries look a flag up under its normalised name, so any number of
      leading dashes may be given. */
  lemma QueriesIgnoreLeadingDashes(p: Parser, flag: string)
    ensures HasFlag(p, "--" + flag) == HasFlag(p, flag)
    ensures GetOptionalValue(p, "--" + flag) == GetOptionalValue(p, flag)
    ensures GetBoolValue(p, "-" + flag) == GetBoolValue(p, flag)
  {
    assert "--" + flag == "-" + ("-" + flag);
    NormalizeDropsOneDash("-" + flag);
    NormalizeDropsOneDash(flag);
  }

  /** A long token names the flag spelled after its two dashes. */
  lemma LongTokenNamesItsFlag(p: Parser, name: string)
    requires |name| > 0
    ensures ExtractFlagName(p, "--" + name) == name
  {
    assert ("--" + name)[2..] == name;
  }

  /** A short alias registered with a flag resolves to the flag's normalised name. */
  lemma ShortAliasResolves(p: Parser, longFlag: string, c: char)
    requires c != '-'
    ensures ExtractFlagName(AddFlag(p, longFlag, "", false, "", [c]), ['-', c]) == NormalizeFlagName(longFlag)
    ensures ExtractFlagName(AddBooleanFlag(p, longFlag, "", [c]), ['-', c]) == NormalizeFlagName(longFlag)
  {
    assert ['-', c][1..] == [c];
  }

  /** A single-dash token of several letters is never a known flag: it is
      neither short nor long, so it is looked up as written, dash included,
      while registered names never start with a dash. */
  lemma ClusteredShortFlagsAreUnknown(p: Parser, arg: string)
    requires WellFormed(p)
    requires |arg| > 2 && arg[0] == '-' && arg[1] != '-'
    ensures ExtractFlagName(p, arg) !in p.flagInfos
  {
  }

  // ---------------------------------------------------------------------------
  // Properties of registration
  // ---------------------------------------------------------------------------

  /** A boolean flag reads as false right after registration. */
  lemma BooleanFlagStartsFalse(p: Parser, longFlag: string, shortFlag: string)
    ensures HasFlag(AddBooleanFlag(p, longFlag, "", shortFlag), longFlag)
    ensures !GetBoolValue(AddBooleanFlag(p, longFlag, "", shortFlag), longFlag)
  {
  }

  /** A required flag registered without a default, and not yet given a value,
      makes validation fail; with a default it cannot. */
  lemma RequiredFlagValidation(p: Parser, longFlag: string, defaultValue: string)
    ensures |defaultValue| == 0 && !HasFlag(p, longFlag) ==>
      !ValidateArguments(AddFlag(p, longFlag, "", true, defaultValue, ""))
    ensures |defaultValue| > 0 && ValidateArguments(p) ==>
      ValidateArguments(AddFlag(p, longFlag, "", true, defaultValue, ""))
  {
    var name := NormalizeFlagName(longFlag);
    var p' := AddFlag(p, longFlag, "", true, defaultValue, "");
    if |defaultValue| > 0 && ValidateArguments(p) {
      forall f | f in p'.flagInfos && p'.flagInfos[f].required ensures f in p'.arguments {
        if f != name {
          assert f in p'.flagInfos - {name};
          assert (p'.flagInfos - {name})[f] == p.flagInfos[f];
          assert f in p.arguments - {name};
        }
      }
    }
  }

  /** Clearing leaves the same state whatever came before. */
  lemma ClearForgetsEverything(p: Parser, q: Parser)
    ensures Clear(p) == Clear(q)
    ensures Clear(p) == Clear(NewParser)
  {
  }

  // ---------------------------------------------------------------------------
  // Properties of a single token
  // ---------------------------------------------------------------------------

  /** A known value flag followed by a token that does not start with a dash
      stores that token and skips it. */
  lemma ValueFlagTakesNextToken(p: Parser, argv: seq<string>, idx: nat)
    requires WellFormed(p)
    requires idx + 1 < |argv| && !IsHelpToken(argv[idx]) && StartsWithDash(argv[idx])
    requires ExtractFlagName(p, argv[idx]) in p.flagInfos
    requires !p.flagInfos[ExtractFlagName(p, argv[idx])].isBooleanFlag
    requires !StartsWithDash(argv[idx + 1])
    ensures ParseToken(p, argv, idx) ==
      Next(p.(arguments := p.arguments[ExtractFlagName(p, argv[idx]) := argv[idx + 1]]), idx + 2)
    ensures GetValue(ParseToken(p, argv, idx).parser, ExtractFlagName(p, argv[idx])) == argv[idx + 1]
  {
    NormalizeKeepsName(ExtractFlagName(p, argv[idx]));
  }

  /** A known value flag that is last, or followed by a dash token, records an
      error and leaves every stored value as it was. */
  lemma ValueFlagWithoutValue(p: Parser, argv: seq<string>, idx: nat)
    requires idx < |argv| && !IsHelpToken(argv[idx]) && StartsWithDash(argv[idx])
    requires ExtractFlagName(p, argv[idx]) in p.flagInfos
    requires !p.flagInfos[ExtractFlagName(p, argv[idx])].isBooleanFlag
    requires idx + 1 == |argv| || StartsWithDash(argv[idx + 1])
    ensures ParseToken(p, argv, idx) ==
      Next(p.(parseErrors := p.parseErrors + ["Flag " + argv[idx] + " requires a value"]), idx + 1)
    ensures ParseToken(p, argv, idx).parser.arguments == p.arguments
  {
  }

  /** A known boolean flag is set to "true" and the next token is left alone. */
  lemma BooleanFlagConsumesNothing(p: Parser, argv: seq<string>, idx: nat)
    requires idx < |argv| && !IsHelpToken(argv[idx]) && StartsWithDash(argv[idx])
    requires ExtractFlagName(p, argv[idx]) in p.flagInfos
    requires p.flagInfos[ExtractFlagName(p, argv[idx])].isBooleanFlag
    ensures ParseToken(p, argv, idx) == Next(p.(arguments := p.arguments[ExtractFlagName(p, argv[idx]) := "true"]), idx + 1)
  {
  }

  /** An unknown flag records an error and is skipped. */
  lemma UnknownFlagSkipped(p: Parser, argv: seq<string>, idx: nat)
    requires idx < |argv| && !IsHelpToken(argv[idx]) && StartsWithDash(argv[idx])
    requires ExtractFlagName(p, argv[idx]) !in p.flagInfos
    ensures ParseToken(p, argv, idx) == Next(p.(parseErrors := p.parseErrors + ["Unknown flag: " + argv[idx]]), idx + 1)
  {
  }

  // ---------------------------------------------------------------------------
  // Properties of a whole parse
  // ---------------------------------------------------------------------------

  /** The loop visits every dash token before any help token: it can only jump
      over a token it consumed as a value, and such a token has no dash. */
  lemma {:induction false} ReachesDashToken(q: Parser, argv: seq<string>, idx: nat, i: nat) returns (q': Parser)
    requires idx <= i < |argv| && StartsWithDash(argv[i])
    requires forall j :: idx <= j < i ==> !IsHelpToken(argv[j])
    ensures ParseFrom(q, argv, idx) == ParseFrom(q', argv, i)
    ensures ParsedFrom(q, q')
    decreases i - idx
  {
    if idx == i {
      q' := q;
    } else {
      var step := ParseToken(q, argv, idx);
      assert step.Next? && step.next <= i;
      q' := ReachesDashToken(step.parser, argv, step.next, i);
      ParsedFromTransitive(q, step.parser, q');
    }
  }

  /** Once a boolean flag holds "true", the rest of the parse keeps it so:
      only that flag's own tokens write its value, and they write "true". */
  lemma {:induction false} TrueBooleanStaysTrue(q: Parser, argv: seq<string>, idx: nat, name: string)
    requires name in q.flagInfos && q.flagInfos[name].isBooleanFlag
    requires name in q.arguments && q.arguments[name] == "true"
    ensures name in ParseFrom(q, argv, idx).parser.arguments
    ensures ParseFrom(q, argv, idx).parser.arguments[name] == "true"
    decreases |argv| - idx
  {
    if idx < |argv| {
      var step := ParseToken(q, argv, idx);
      if step.Next? {
        TrueBooleanStaysTrue(step.parser, argv, step.next, name);
      }
    }
  }

  /** A registered boolean flag given as `--name` before any help token reads
      as true after the parse. */
  lemma BooleanFlagSeenIsTrue(p: Parser, argv: seq<string>, name: string, i: nat)
    requires name in p.flagInfos && p.flagInfos[name].isBooleanFlag && |name| > 0
    requires 1 <= i < |argv| && argv[i] == "--" + name
    requires forall j :: 1 <= j < i ==> !IsHelpToken(argv[j])
    requires !IsHelpToken(argv[i])
    ensures name in Parse(p, argv).parser.arguments
    ensures Parse(p, argv).parser.arguments[name] == "true"
  {
    var start := p.(parseErrors := [], programName := argv[0]);
    var q := ReachesDashToken(start, argv, 1, i);
    LongTokenNamesItsFlag(q, name);
    var step := ParseToken(q, argv, i);
    assert step == Next(q.(arguments := q.arguments[name := "true"]), i + 1);
    TrueBooleanStaysTrue(step.parser, argv, i + 1, name);
  }

  /** A command line without dash tokens appends its tokens, in order, to the
      positional arguments, and records no error and no value. */
  lemma {:induction false} PositionalsKeepOrder(q: Parser, argv: seq<string>, idx: nat)
    requires idx <= |argv|
    requires forall j :: idx <= j < |argv| ==> !StartsWithDash(argv[j])
    ensures ParseFrom(q, argv, idx).parser == q.(positionalArgs := q.positionalArgs + argv[idx..])
    decreases |argv| - idx
  {
    if idx < |argv| {
      var step := ParseToken(q, argv, idx);
      assert step == Next(q.(positionalArgs := q.positionalArgs + [argv[idx]]), idx + 1);
      PositionalsKeepOrder(step.parser, argv, idx + 1);
      assert q.positionalArgs + [argv[idx]] + argv[idx + 1..] == q.positionalArgs + argv[idx..];
    }
  }

  lemma PositionalCommandLine(p: Parser, argv: seq<string>)
    requires |argv| > 0
    requires forall j :: 1 <= j < |argv| ==> !StartsWithDash(argv[j])
    ensures Parse(p, argv).parser.positionalArgs == p.positionalArgs + argv[1..]
    ensures Parse(p, argv).parser.arguments == p.arguments
    ensures Parse(p, argv).parser.parseErrors == []
    ensures Parse(p, argv).ok == ValidateArguments(p)
  {
    PositionalsKeepOrder(p.(parseErrors := [], programName := argv[0]), argv, 1);
  }

  /** Two command lines that agree up to a help token parse alike up to it. */
  lemma {:induction false} HelpCutsOffRest(q: Parser, a: seq<string>, b: seq<string>, idx: nat, i: nat)
    requires idx <= i < |a| && i < |b| && a[..i + 1] == b[..i + 1]
    requires IsHelpToken(a[i])
    ensures ParseFrom(q, a, idx) == ParseFrom(q, b, idx)
    decreases i - idx
  {
    assert a[idx] == a[..i + 1][idx] == b[idx];
    if idx < i {
      assert a[idx + 1] == a[..i + 1][idx + 1] == b[idx + 1];
      var step := ParseToken(q, a, idx);
      assert step == ParseToken(q, b, idx);
      if step.Next? {
        assert step.next <= i;
        HelpCutsOffRest(step.parser, a, b, step.next, i);
      }
    }
  }

  /** Help stops the parse: the result is false, and tokens after a help token
      are never looked at. */
  lemma HelpStopsParsing(p: Parser, argv: seq<string>, i: nat, rest: seq<string>)
    requires 1 <= i < |argv| && IsHelpToken(argv[i])
    ensures !Parse(p, argv).ok
    ensures Parse(p, argv[..i + 1] + rest) == Parse(p, argv[..i + 1])
  {
    var a := argv[..i + 1] + rest;
    var b := argv[..i + 1];
    assert a[..i + 1] == b[..i + 1];
    assert a[0] == b[0];
    var start := p.(parseErrors := [], programName := b[0]);
    HelpCutsOffRest(start, a, b, 1, i);
  }

  /** The parser of the documented command lines: `--verbose`/`-v` a boolean
      flag and `--output`/`-o` an optional value flag. */
  const DemoParser: Parser := AddFlag(AddBooleanFlag(NewParser, "verbose", "", "v"), "output", "", false, "", "o")

  /** The start state `Parse` sets up for a command line run by "program". */
  function DemoStart(): Parser {
    DemoParser.(parseErrors := [], programName := "program")
  }

  lemma DemoRegistry()
    ensures "verbose" in DemoStart().flagInfos && DemoStart().flagInfos["verbose"].isBooleanFlag
    ensures "output" in DemoStart().flagInfos && !DemoStart().flagInfos["output"].isBooleanFlag
    ensures ExtractFlagName(DemoStart(), "-v") == "verbose"
    ensures ExtractFlagName(DemoStart(), "-o") == "output"
  {
    NormalizeKeepsName("verbose");
    NormalizeKeepsName("output");
    assert "-v"[1..] == "v";
    assert "-o"[1..] == "o";
  }

  /** `program -v input.txt -o output.txt`: verbose is true, output is
      "output.txt", and "input.txt" is the first positional argument. */
  lemma DocumentedExampleFlagsFirst()
    ensures
      var r := Parse(DemoParser, ["program", "-v", "input.txt", "-o", "output.txt"]);
      && r.ok
      && GetBoolValue(r.parser, "verbose")
      && GetValue(r.parser, "output") == "output.txt"
      && GetPositionalArg(r.parser, 0) == "input.txt"
      && r.parser.parseErrors == []
  {
    var argv := ["program", "-v", "input.txt", "-o", "output.txt"];
    var p0 := DemoStart();
    DemoRegistry();
    var s1 := ParseToken(p0, argv, 1);
    assert s1 == Next(p0.(arguments := p0.arguments["verbose" := "true"]), 2);
    var s2 := ParseToken(s1.parser, argv, 2);
    assert s2 == Next(s1.parser.(positionalArgs := ["input.txt"]), 3);
    var s3 := ParseToken(s2.parser, argv, 3);
    assert s3 == Next(s2.parser.(arguments := s2.parser.arguments["output" := "output.txt"]), 5);
    assert ParseFrom(p0, argv, 1) == ParseFrom(s1.parser, argv, 2) == ParseFrom(s2.parser, argv, 3)
        == ParseFrom(s3.parser, argv, 5);
    NormalizeKeepsName("verbose");
    NormalizeKeepsName("output");
  }

  /** `program input.txt -v`: a flag after a positional argument is still read. */
  lemma DocumentedExampleFlagLast()
    ensures
      var r := Parse(DemoParser, ["program", "input.txt", "-v"]);
      && r.ok
      && GetBoolValue(r.parser, "verbose")
      && GetPositionalArg(r.parser, 0) == "input.txt"
      && r.parser.parseErrors == []
  {
    var argv := ["program", "input.txt", "-v"];
    var p0 := DemoStart();
    DemoRegistry();
    var s1 := ParseToken(p0, argv, 1);
    assert s1 == Next(p0.(positionalArgs := ["input.txt"]), 2);
    var s2 := ParseToken(s1.parser, argv, 2);
    assert s2 == Next(s1.parser.(arguments := s1.parser.arguments["verbose" := "true"]), 3);
    assert ParseFrom(p0, argv, 1) == ParseFrom(s1.parser, argv, 2) == ParseFrom(s2.parser, argv, 3);
    NormalizeKeepsName("verbose");
  }

  /** `program -v -o output.txt input.txt`: a boolean flag does not take the
      following flag as its value. */
  lemma DocumentedExampleFlagsTogether()
    ensures
      var r := Parse(DemoParser, ["program", "-v", "-o", "output.txt", "input.txt"]);
      && r.ok
      && GetBoolValue(r.parser, "verbose")
      && GetValue(r.parser, "output") == "output.txt"
      && GetPositionalArg(r.parser, 0) == "input.txt"
      && r.parser.parseErrors == []
  {
    var argv := ["program", "-v", "-o", "output.txt", "input.txt"];
    var p0 := DemoStart();
    DemoRegistry();
    var s1 := ParseToken(p0, argv, 1);
    assert s1 == Next(p0.(arguments := p0.arguments["verbose" := "true"]), 2);
    var s2 := ParseToken(s1.parser, argv, 2);
    assert s2 == Next(s1.parser.(arguments := s1.parser.arguments["output" := "output.txt"]), 4);
    var s3 := ParseToken(s2.parser, argv, 4);
    assert s3 == Next(s2.parser.(positionalArgs := ["input.txt"]), 5);
    assert ParseFrom(p0, argv, 1) == ParseFrom(s1.parser, argv, 2) == ParseFrom(s2.parser, argv, 4)
        == ParseFrom(s3.parser, argv, 5);
    NormalizeKeepsName("verbose");
    NormalizeKeepsName("output");
  }

  lemma NormalizeKeepsName(name: string)
    requires !StartsWithDash(name)
    ensures NormalizeFlagName(name) == name
  {
  }
}
