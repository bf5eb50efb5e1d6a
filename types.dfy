/**
 * The shapes the parser and the command registry work on: option schemas,
 * parsed values, parse results, errors and commands.
 */
module Types {
  import opened Wrappers
  import opened Js

  /** The three kinds of option value. */
  datatype OptionType = Boolean | String | Number

  /**
   * One option as declared by a command: its kind, the `required` flag
   * (carried but never read by the parser) and an optional short alias.
   */
  datatype OptionSpec = OptionSpec(kind: OptionType, required: Option<bool>, alias: Option<string>)

  /** An options object: option name to its declaration, in `Object.entries` order. */
  type Options = Record<OptionSpec>

  /** A schema entry, `{ name, ...spec }`. */
  datatype NamedOption = NamedOption(name: string, spec: OptionSpec)

  /** The ordered list the scan matches tokens against; the first match wins. */
  type Schema = seq<NamedOption>

  /** A coerced option value: `true`, a string, or the number `parseInt` produced. */
  datatype Value = BoolVal(b: bool) | StrVal(s: string) | NumVal(n: int)

  /** What a completed scan returns. */
  datatype ParseResult = ParseResult(
    options: map<string, Value>,
    unknownOptions: seq<string>,
    positionals: seq<string>)

  const NoResult := ParseResult(map[], [], [])

  /** The errors the scan and the strict check throw, each naming the offending text. */
  datatype ParseError =
    | NoParameterAccepted(flag: string)
    | ParameterRequired(flag: string)
    | NotANumber(flag: string)
    | UnknownOption(token: string)

  /** The thrown error's message text. */
  function Message(e: ParseError): string {
    match e
    case NoParameterAccepted(f) => "Option \"" + f + "\" does not accept parameters."
    case ParameterRequired(f) => "Option \"" + f + "\" requires a parameter."
    case NotANumber(f) => "Expected option \"" + f + "\" parameter to be a number."
    case UnknownOption(t) => "Unknown option \"" + t + "\""
  }

  /**
   * How a parse ends: with a result, with a thrown error, or never (the scan
   * loop spins forever on a bare `--` that matches no option).
   */
  datatype Outcome = Parsed(result: ParseResult) | Failed(error: ParseError) | Diverges

  datatype ParserConfig = ParserConfig(strict: bool)

  const DefaultConfig := ParserConfig(false)

  /**
   * A command: no name marks the default command. The action and the
   * argument list type are not used by any logic and are not carried.
   */
  datatype Command = Command(name: Option<string>, description: Option<string>, options: Options)
}
