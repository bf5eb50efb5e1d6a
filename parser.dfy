/**
 * The argument tokenizer: matching a token against the option schema, one
 * step of the scan, the whole scan as a function, and the scan loop itself as
 * a method that consumes the caller's argument array in place.
 */
module Parser {
  import opened Wrappers
  import opened Js
  import opened Types

  /** `isOption`: a token is flag-like when it starts with `-`; the second `--` test adds nothing. */
  predicate IsOption(x: string)
    ensures IsOption(x) <==> x != [] && x[0] == '-'
  {
    StartsWith(x, "-") || StartsWith(x, "--")
  }

  /** The text a template literal gives for an alias: an absent one prints as `undefined`. */
  function AliasText(alias: Option<string>): string {
    match alias
    case None => "undefined"
    case Some(a) => a
  }

  /**
   * The test `findOptionInFlags` applies to each schema entry: without `=` the
   * token must be exactly `--name` or `-alias`; with `=` it need only start with
   * one of them.
   */
  predicate Matches(o: NamedOption, arg: string)
    ensures Matches(o, arg) ==> IsOption(arg)
  {
    var long := "--" + o.name;
    var short := "-" + AliasText(o.spec.alias);
    if '=' in arg then StartsWith(arg, long) || StartsWith(arg, short)
    else arg == long || arg == short
  }

  /** `findOptionInFlags`: the position of the first schema entry the token matches. */
  function FindOptionInFlags(schema: Schema, arg: string): (r: Option<nat>)
    ensures r.Some? ==> r.value < |schema| && Matches(schema[r.value], arg)
    ensures forall j :: 0 <= j < |schema| && (r.None? || j < r.value) ==> !Matches(schema[j], arg)
  {
    if schema == [] then None
    else if Matches(schema[0], arg) then Some(0)
    else
      match FindOptionInFlags(schema[1..], arg)
      case None => None
      case Some(i) => Some(i + 1)
  }

  /** JavaScript truthiness of a possibly undefined string: defined and non-empty. */
  predicate Truthy(v: Option<string>) {
    v.Some? && v.value != ""
  }

  /** What one pass of the scan loop does besides removing tokens. */
  datatype Action =
    | Assign(name: string, value: Value)
    | Unknown(token: string)
    | Positional(token: string)
    | Throw(error: ParseError)
    | Stuck

  /** One pass of the scan loop: its action and how many tokens it removes from the front. */
  datatype Step = Step(action: Action, taken: nat)

  /**
   * The checks applied to a matched option once its value has been found:
   * `flag` is the token up to its first `=`, `value` the inline or next-token value.
   */
  function Resolve(opt: NamedOption, flag: string, value: Option<string>): (a: Action)
    ensures a.Assign? || a.Throw?
    ensures a.Assign? ==> a.name == opt.name
  {
    if opt.spec.kind == Boolean then
      if Truthy(value) then Throw(NoParameterAccepted(flag)) else Assign(opt.name, BoolVal(true))
    else if !Truthy(value) || IsOption(value.value) then Throw(ParameterRequired(flag))
    else if opt.spec.kind == Number then
      match ParseInt(value.value)
      case None => Throw(NotANumber(flag))
      case Some(n) => Assign(opt.name, NumVal(n))
    else Assign(opt.name, StrVal(value.value))
  }

  /**
   * What `Resolve` decides for each kind: a boolean option is set unless it
   * was given a non-empty value; a string or number option needs a non-empty
   * value that does not start with `-`, stored verbatim for a string and
   * through `parseInt` for a number, whose NaN is an error.
   */
  lemma ResolveCases(opt: NamedOption, flag: string, value: Option<string>)
    ensures var a := Resolve(opt, flag, value);
      && (opt.spec.kind == Boolean ==>
            a == if Truthy(value) then Throw(NoParameterAccepted(flag)) else Assign(opt.name, BoolVal(true)))
      && (opt.spec.kind != Boolean && (!Truthy(value) || IsOption(value.value)) ==>
            a == Throw(ParameterRequired(flag)))
      && (opt.spec.kind == String && Truthy(value) && !IsOption(value.value) ==>
            a == Assign(opt.name, StrVal(value.value)))
      && (opt.spec.kind == Number && Truthy(value) && !IsOption(value.value) ==>
            a == if ParseInt(value.value).Some? then Assign(opt.name, NumVal(ParseInt(value.value).value))
                 else Throw(NotANumber(flag)))
  {
  }

  /**
   * One pass of the scan loop over the remaining tokens `argv`. Every pass
   * removes one or two tokens, except the one that meets a bare `--` matching
   * no option: it removes nothing, so the loop never ends.
   */
  function StepAt(schema: Schema, argv: seq<string>): (s: Step)
    requires argv != []
    ensures 1 <= s.taken <= 2 || (s.taken == 0 && s.action.Stuck?)
    ensures s.taken <= |argv|
    ensures s.action.Stuck? <==> argv[0] == "--" && FindOptionInFlags(schema, "--").None?
    ensures s.action.Unknown? || s.action.Positional? <==> FindOptionInFlags(schema, argv[0]).None? && argv[0] != "--"
    ensures s.action.Unknown? ==> s == Step(Unknown(argv[0]), 1) && IsOption(argv[0])
    ensures s.action.Positional? ==> s == Step(Positional(argv[0]), 1) && !IsOption(argv[0])
  {
    var arg := argv[0];
    match FindOptionInFlags(schema, arg)
    case None =>
      if arg == "--" then Step(Stuck, 0)
      else if IsOption(arg) then Step(Unknown(arg), 1)
      else Step(Positional(arg), 1)
    case Some(i) => OptionStep(schema[i], argv)
  }

  /**
   * One pass of the scan loop for a token that matched `opt`: the value is the
   * second `=`-separated piece of the token, or else, for a string or number
   * option, the next token, which is removed with it.
   */
  function OptionStep(opt: NamedOption, argv: seq<string>): (s: Step)
    requires argv != []
    ensures 1 <= s.taken <= 2 && s.taken <= |argv| && (s.action.Assign? || s.action.Throw?)
    ensures s.taken == 2 <==> '=' !in argv[0] && opt.spec.kind != Boolean && |argv| > 1
    ensures s.taken == 2 && s.action.Assign? ==> argv[1] != "" && !IsOption(argv[1])
  {
    var arg := argv[0];
    if '=' in arg then
      var parts := Split(arg, '=');
      Step(Resolve(opt, parts[0], Some(parts[1])), 1)
    else if opt.spec.kind != Boolean then
      Step(Resolve(opt, arg, if |argv| > 1 then Some(argv[1]) else None), if |argv| > 1 then 2 else 1)
    else
      Step(Resolve(opt, arg, None), 1)
  }

  /** The collections after an action that does not stop the scan. */
  function Apply(acc: ParseResult, a: Action): ParseResult
  {
    match a
    case Assign(n, v) => acc.(options := acc.options[n := v])
    case Unknown(t) => acc.(unknownOptions := acc.unknownOptions + [t])
    case Positional(t) => acc.(positionals := acc.positionals + [t])
    case _ => acc
  }

  /** How a scan ends, and what is left of the caller's array when it does. */
  datatype Run = Run(outcome: Outcome, left: seq<string>)

  /**
   * The whole scan from the collections `acc`: steps are applied front to back
   * until the tokens run out, an error is thrown, or the scan gets stuck.
   * Tokens a failing step took are gone from the array; a stuck scan leaves
   * the `--` in place.
   */
  function Scan(schema: Schema, argv: seq<string>, acc: ParseResult): (r: Run)
    ensures |r.left| <= |argv|
    ensures r.outcome.Parsed? ==> r.left == []
    ensures r.outcome.Diverges? ==> r.left != [] && r.left[0] == "--"
    decreases |argv|
  {
    if argv == [] then Run(Parsed(acc), [])
    else
      var s := StepAt(schema, argv);
      match s.action
      case Stuck => Run(Diverges, argv)
      case Throw(e) => Run(Failed(e), argv[s.taken..])
      case _ => Scan(schema, argv[s.taken..], Apply(acc, s.action))
  }

  /** `Scan` takes one step: the unfolding the scan loop's invariant rests on. */
  lemma ScanUnfold(schema: Schema, argv: seq<string>, acc: ParseResult)
    requires argv != []
    ensures var s := StepAt(schema, argv);
      Scan(schema, argv, acc)
        == if s.action.Stuck? then Run(Diverges, argv)
           else if s.action.Throw? then Run(Failed(s.action.error), argv[s.taken..])
           else Scan(schema, argv[s.taken..], Apply(acc, s.action))
  {
  }

  /** The step for a matched token carrying `=`: the value is its second `=`-separated piece. */
  lemma StepInline(schema: Schema, argv: seq<string>, i: nat)
    requires argv != [] && FindOptionInFlags(schema, argv[0]) == Some(i) && '=' in argv[0]
    ensures var parts := Split(argv[0], '=');
      StepAt(schema, argv) == Step(Resolve(schema[i], parts[0], Some(parts[1])), 1)
  {
  }

  /** The step for a matched string or number option without `=`: the value is the next token. */
  lemma StepNext(schema: Schema, argv: seq<string>, i: nat)
    requires argv != [] && FindOptionInFlags(schema, argv[0]) == Some(i) && '=' !in argv[0]
    requires i < |schema| && schema[i].spec.kind != Boolean
    ensures StepAt(schema, argv)
         == Step(Resolve(schema[i], argv[0], if |argv| > 1 then Some(argv[1]) else None), if |argv| > 1 then 2 else 1)
  {
  }

  /** The step for a matched boolean option without `=`. */
  lemma StepFlag(schema: Schema, argv: seq<string>, i: nat)
    requires argv != [] && FindOptionInFlags(schema, argv[0]) == Some(i) && '=' !in argv[0]
    requires i < |schema| && schema[i].spec.kind == Boolean
    ensures StepAt(schema, argv) == Step(Resolve(schema[i], argv[0], None), 1)
  {
  }

  /** The step for a token that matches no option. */
  lemma StepUnmatched(schema: Schema, argv: seq<string>)
    requires argv != [] && FindOptionInFlags(schema, argv[0]).None? && argv[0] != "--"
    ensures StepAt(schema, argv) == Step(if IsOption(argv[0]) then Unknown(argv[0]) else Positional(argv[0]), 1)
  {
  }

  /** Once the step at the front is known, the scan is that step followed by the scan of what it leaves. */
  lemma ScanTakes(schema: Schema, argv: seq<string>, acc: ParseResult, a: Action, k: nat)
    requires argv != [] && StepAt(schema, argv) == Step(a, k) && !a.Stuck?
    ensures k <= |argv|
    ensures a.Throw? ==> Scan(schema, argv, acc) == Run(Failed(a.error), argv[k..])
    ensures !a.Throw? ==> Scan(schema, argv, acc) == Scan(schema, argv[k..], Apply(acc, a))
  {
    ScanUnfold(schema, argv, acc);
  }

  /** A scan over a token that matches no option records it and carries on with the rest. */
  lemma ScanUnmatched(schema: Schema, argv: seq<string>, acc: ParseResult)
    requires argv != [] && FindOptionInFlags(schema, argv[0]).None? && argv[0] != "--"
    ensures Scan(schema, argv, acc)
         == Scan(schema, argv[1..], if IsOption(argv[0]) then acc.(unknownOptions := acc.unknownOptions + [argv[0]])
                                    else acc.(positionals := acc.positionals + [argv[0]]))
  {
    StepUnmatched(schema, argv);
    ScanUnfold(schema, argv, acc);
  }

  /** A JavaScript `string[]` that is shared with the caller and changed in place. */
  class ArgVector {
    var items: seq<string>

    constructor (items: seq<string>)
      ensures this.items == items
    {
      this.items := items;
    }

    /** `splice(start, count)`: remove up to `count` items from `start`. */
    method Splice(start: nat, count: nat)
      requires start <= |items|
      modifies this
      ensures items == old(items[..start] + items[if start + count <= |items| then start + count else |items|..])
      ensures start == 0 ==> items == old(items[if count <= |items| then count else |items|..])
    {
      var stop := if start + count <= |items| then start + count else |items|;
      items := items[..start] + items[stop..];
    }
  }

  /**
   * `findFlagsWithOptions`: the scan loop. It consumes `argv` from the front,
   * in place, and returns what `Scan` describes; on success the caller's array
   * is left empty. Where the source loops forever on a bare `--`, the method
   * stops and reports `Diverges`, leaving the array as it was at that point.
   */
  method FindFlagsWithOptions(argv: ArgVector, schema: Schema) returns (o: Outcome)
    modifies argv
    ensures Run(o, argv.items) == Scan(schema, old(argv.items), NoResult)
    ensures o.Parsed? ==> argv.items == []
  {
    var options: map<string, Value> := map[];
    var unknownOptions: seq<string> := [];
    var positionals: seq<string> := [];
    while |argv.items| != 0
      invariant Scan(schema, argv.items, ParseResult(options, unknownOptions, positionals))
             == Scan(schema, old(argv.items), NoResult)
      decreases |argv.items|
    {
      ghost var before := argv.items;
      ghost var acc := ParseResult(options, unknownOptions, positionals);
      var arg := argv.items[0];
      var option := FindOptionInFlags(schema, arg);
      var argPosition := IndexOf(argv.items, arg);
      assert argPosition == 0;
      if option.Some? {
        var opt := schema[option.value];
        var optionValue: Option<string> := None;
        ghost var taken: nat := 1;
        if '=' in arg {
          StepInline(schema, before, option.value);
          var parts := Split(arg, '=');
          arg := parts[0];
          optionValue := Some(parts[1]);
          argv.Splice(argPosition, 1);
          assert argv.items == before[1..];
        } else {
          if opt.spec.kind != Boolean {
            StepNext(schema, before, option.value);
            optionValue := if argPosition + 1 < |argv.items| then Some(argv.items[argPosition + 1]) else None;
            taken := if |before| > 1 then 2 else 1;
            argv.Splice(argPosition, 2);
            assert argv.items == before[taken..];
          } else {
            StepFlag(schema, before, option.value);
            argv.Splice(argPosition, 1);
            assert argv.items == before[1..];
          }
        }
        ghost var action := Resolve(opt, arg, optionValue);
        ScanTakes(schema, before, acc, action, taken);
        if opt.spec.kind == Boolean {
          if Truthy(optionValue) {
            assert action == Throw(NoParameterAccepted(arg));
            return Failed(NoParameterAccepted(arg));
          }
          assert action == Assign(opt.name, BoolVal(true));
          options := options[opt.name := BoolVal(true)];
          continue;
        }
        if !Truthy(optionValue) || IsOption(optionValue.value) {
          assert action == Throw(ParameterRequired(arg));
          return Failed(ParameterRequired(arg));
        }
        if opt.spec.kind == Number {
          var n := ParseInt(optionValue.value);
          if n.None? {
            assert action == Throw(NotANumber(arg));
            return Failed(NotANumber(arg));
          }
          assert action == Assign(opt.name, NumVal(n.value));
          options := options[opt.name := NumVal(n.value)];
          continue;
        }
        assert action == Assign(opt.name, StrVal(optionValue.value));
        options := options[opt.name := StrVal(optionValue.value)];
        continue;
      } else {
        if arg == "--" {
          // the source's loop spins here forever: nothing is removed
          ScanUnfold(schema, before, acc);
          return Diverges;
        }
        ScanUnmatched(schema, before, acc);
        assert IsOption(arg) == (StartsWith(arg, "-") || StartsWith(arg, "--"));
        if StartsWith(arg, "-") || StartsWith(arg, "--") {
          unknownOptions := unknownOptions + [arg];
        } else {
          positionals := positionals + [arg];
        }
        argv.Splice(argPosition, 1);
        assert argv.items == before[1..];
      }
    }
    o := Parsed(ParseResult(options, unknownOptions, positionals));
  }

  /** The schema of an options object: one entry per key, in key order, carrying its declaration. */
  function Entries(options: Options): (schema: Schema)
    ensures |schema| == |options|
    ensures forall k :: 0 <= k < |options| ==> schema[k] == NamedOption(options[k].0, options[k].1)
  {
    seq(|options|, k requires 0 <= k < |options| => NamedOption(options[k].0, options[k].1))
  }

  /**
   * `parseArgv` as a function of the caller's tokens: the scan against the
   * schema of `options`, and then, in strict mode only, an error naming the
   * first unknown flag of an otherwise successful scan.
   */
  function ParseArgvRun(options: Options, argv: seq<string>, config: ParserConfig): Run {
    var run := Scan(Entries(options), argv, NoResult);
    if run.outcome.Parsed? && config.strict && run.outcome.result.unknownOptions != [] then
      Run(Failed(UnknownOption(run.outcome.result.unknownOptions[0])), run.left)
    else run
  }

  /** `parseArgv`: the scan consumes the caller's array, then the strict check runs. */
  method ParseArgv(options: Options, argv: ArgVector, config: ParserConfig) returns (o: Outcome)
    modifies argv
    ensures Run(o, argv.items) == ParseArgvRun(options, old(argv.items), config)
  {
    var entries := Entries(options);
    o := FindFlagsWithOptions(argv, entries);
    if o.Parsed? && config.strict && |o.result.unknownOptions| != 0 {
      o := Failed(UnknownOption(o.result.unknownOptions[0]));
    }
  }

  const HelpOption := OptionSpec(Boolean, None, Some("h"))
  const VersionOption := OptionSpec(Boolean, None, Some("v"))

  /** The built-in options, in the order the object literal lists them. */
  const Builtins: Options := [("help", HelpOption), ("version", VersionOption)]

  /** `{ help: ..., version: ..., ...options }`; spreading `undefined` adds nothing. */
  function WithBuiltins(options: Option<Options>): (r: Options)
    ensures Keys(r) == {"help", "version"} + (if options.Some? then Keys(options.value) else {})
  {
    assert Keys(Builtins) == {"help", "version"} by {
      assert Keys(Builtins[1..][1..]) == {};
    }
    Spread(Builtins, match options case None => [] case Some(o) => o)
  }

  /** `baseOptions`: `parseArgv` over the options with the built-in `help` and `version` flags. */
  method BaseOptions(argv: ArgVector, options: Option<Options>, config: ParserConfig) returns (o: Outcome)
    modifies argv
    ensures Run(o, argv.items) == ParseArgvRun(WithBuiltins(options), old(argv.items), config)
  {
    o := ParseArgv(WithBuiltins(options), argv, config);
  }
}
