# clif — a verified model of the argument parser and command registry

clif is a small command-line framework for JavaScript. A program creates a
`Clif` builder and registers commands with it. Each command declares options
of type `boolean`, `string` or `number`, optionally with a short alias. Then
the program calls `parse`, which tokenizes the argument array. The tokenizer
(`parseArgv`, with `baseOptions` adding the built-in `--help`/`-h` and
`--version`/`-v` flags) walks the tokens from the front and removes them from
the caller's array as it goes. It sorts every token into one of three
collections:

- an option value: `true` for a boolean option, the inline `=value` or the
  next token for the others, and a number read by `parseInt` for a number
  option;
- an unknown flag: a token that starts with `-` and matches no option;
- a positional: any other token that matches no option.

A malformed value makes it throw. In strict mode, an unknown flag also makes
it throw.

The Dafny project has these modules:

- `Wrappers`: the `Option` type.
- `Js`: the JavaScript built-ins the parser relies on, with the properties
  the parser needs proved about them. They are `startsWith`, `indexOf`,
  `split` on one character, the global `parseInt` (ECMA-262, section 19.2.5),
  and object spread over records. A record is a JavaScript object as an
  ordered list of key/value entries.
- `Types`: the option schema, parsed values, results, errors and commands.
- `Parser`: the tokenizer.
  - `Scan` is a function that states what one pass of the loop does
    (`StepAt`) and what the whole loop computes.
  - `FindFlagsWithOptions` is the loop itself, an imperative method. It
    consumes an `ArgVector`, the caller's array shared and spliced in place.
    It is proved to end in exactly the state `Scan` describes.
  - `ParseArgv` and `BaseOptions` are the two entry points built on it.
- `ParserProperties`: lemmas about the tokenizer. They cover:
  - how a token is matched, including prefix matching with `=`;
  - where option values come from;
  - that unmatched tokens are kept verbatim and in order;
  - when the scan stops;
  - that stored values fit their declared types;
  - what strict mode adds;
  - which schema `baseOptions` builds.
- `Cli`: the `Clif` class with its constructor and the methods `command`,
  `version` and `parse`.

Where the code and the documented behaviour differ, the model follows the
code:

- `required` is carried but never checked.
- Named commands are stored but `parse` never dispatches to them. It always
  parses against the default command, and only when there is one.
- `--help` and `--version` are ordinary boolean flags; nothing prints help or
  the version.
- A bare `--` is not an end-of-options marker. When no option matches it, the
  loop in `src/parser.ts:67-68` continues without removing it and never ends.
  The model states this as the outcome `Diverges`.
- `parse` reads the array it is given, never the one stored by the
  constructor.

## Model

| member | source | states |
|---|---|---|
| Parser.IsOption | src/parser.ts:9 | a token is flag-like exactly when it is non-empty and starts with `-`; the second `--` test adds nothing |
| Parser.AliasText | src/parser.ts:14-15 | the text an alias gives in a template literal: the alias itself, or `undefined` when there is none |
| Parser.Matches | src/parser.ts:12-15 | the per-entry test: with `=` in the token a prefix test against `--name` and `-alias`, otherwise an exact comparison; a token that matches always starts with `-` |
| Parser.FindOptionInFlags | src/parser.ts:11-16 | the result is the first schema entry the token matches: that entry matches and none before it does; `None` exactly when no entry matches |
| ParserProperties.MatchIsExactWithoutEquals | src/parser.ts:13-15 | without `=`, a token matches exactly `--name` or `-alias`; an absent alias is compared as `-undefined` |
| ParserProperties.MatchesWithInlineValue | src/parser.ts:13-14 | a token that matches an option still matches it with `=value` appended |
| ParserProperties.InlineFindsNoLater | src/parser.ts:11-16 | an `=value` token finds the option its flag finds, or an earlier one, never a later one |
| ParserProperties.PrefixMatchOnEquals | src/parser.ts:13-14 | with `=` in the token the test is a prefix test: every token `--name` + anything + `=` + anything matches the option called `name` |
| ParserProperties.NamespaceMatchesName | src/parser.ts:13-15 | an instance: `--namespace=x` matches an option called `name`, while `--namespace` does not |
| ParserProperties.AbsentAliasMatchesUndefined | src/parser.ts:15 | an option without an alias answers to `-undefined` |
| Parser.Resolve | src/parser.ts:48-64 | the checks on a matched option's value always either store a value or throw, and a stored value goes under the option's own name |
| Parser.Truthy | src/parser.ts:49-55 | a value counts as given only when it is defined and non-empty, as JavaScript truthiness of a string |
| Parser.OptionStep | src/parser.ts:33-47 | a matched option removes one token, or two exactly when it has no `=`, is not boolean and is not the last token; never more than remain; it always stores or throws; a value taken from the next token is non-empty and not flag-like |
| Parser.StepAt | src/parser.ts:28-75 | one pass removes one or two tokens; it removes none (and stalls) exactly on a bare `--` that matches no option; an unmatched token is recorded verbatim as an unknown flag when flag-like, otherwise as a positional |
| Parser.Scan | src/parser.ts:27-78 | the whole loop: a successful scan consumes every token; a stall leaves the array starting at `--`; nothing is ever added to the array |
| Parser.Apply | src/parser.ts:51-72 | a pass that does not stop the scan stores its value under the option's name, or appends its token to `unknownOptions` or `positionals` |
| Parser.ArgVector.constructor | src/parser.ts:19 | wraps the caller's array |
| Parser.ArgVector.Splice | src/parser.ts:39 | `splice(start, count)` removes up to `count` items at `start` and keeps the rest in order |
| Parser.FindFlagsWithOptions | src/parser.ts:18-79 | the loop, in place on the caller's array, ends in exactly the outcome and remaining array `Scan` describes; on success it leaves the array empty |
| Parser.ParseArgv | src/parser.ts:81-97 | the scan over the options' schema consumes the caller's array; in strict mode a successful scan with unknown flags becomes an error naming the first of them |
| Parser.ParseArgvRun | src/parser.ts:81-97 | `parseArgv` as a function of the caller's tokens: the scan over the options' schema, turned into an "Unknown option" error in strict mode when unknown flags were seen |
| Parser.BaseOptions | src/parser.ts:99-118 | `parseArgv` over the options with `help` and `version` spread in first |
| Parser.WithBuiltins | src/parser.ts:104-115 | the options object `baseOptions` builds has the keys `help`, `version` and the user's keys, and no others |
| ParserProperties.BooleanOptionStep | src/parser.ts:44-53 | a boolean option removes only its own token and stores `true`; only a non-empty inline value is an error |
| ParserProperties.InlineValueEndsAtSecondEquals | src/parser.ts:36-38 | in `--opt=a=b`, the value is `a`; everything after the second `=` is dropped |
| ParserProperties.InlineAndSeparateAgree | src/parser.ts:35-43 | `--opt=value` and `--opt value` give the same scan for a string or number option |
| ParserProperties.DashValueRejected | src/parser.ts:55-56 | a flag-like value after a string or number option throws "requires a parameter", so `--count -5` fails |
| ParserProperties.MissingValueRejected | src/parser.ts:41-56 | a string or number option as the last token throws "requires a parameter" |
| ParserProperties.StringOptionValue | src/parser.ts:41-43 | a string option followed by a non-empty, non-flag token stores that token verbatim and removes both |
| ParserProperties.StringOptionInline | src/parser.ts:35-39 | `--opt=value` stores `value` verbatim for a string option and removes one token |
| ParserProperties.InlineParts | src/parser.ts:36 | splitting `flag=value` at `=` gives back `flag` and `value` when neither holds an `=` |
| ParserProperties.EmptyValueRejected | src/parser.ts:41-56 | an empty next token is no value: `--opt ""` throws "requires a parameter" for a string or number option and removes both tokens |
| ParserProperties.EmptyInlineValueRejected | src/parser.ts:35-56 | an empty inline value is no value: `--opt=` throws "requires a parameter" for a string or number option |
| ParserProperties.NumberOptionValue | src/parser.ts:57-62 | a number option stores the integer `parseInt` reads from the decimal digits, ignoring any non-digit tail |
| ParserProperties.NonNumericRejected | src/parser.ts:58-60 | a number option whose value `parseInt` cannot read throws "to be a number" |
| ParserProperties.LaterOccurrenceWins | src/parser.ts:48-65 | when an option is set twice in a row, the scan goes on with the later value in place of the earlier one |
| ParserProperties.LastAssignmentDecides | src/parser.ts:48-65 | when a later pass assigns an option, whatever the option held before the scan makes no difference to the outcome: the last occurrence decides the value |
| ParserProperties.EarlierOccurrenceIgnored | src/parser.ts:48-65 | an occurrence of an option that a later pass sets again can be dropped without changing the scan |
| ParserProperties.UnmatchedFlags | src/parser.ts:69-70 | the flag-like tokens that match no option, in input order; each is an input token |
| ParserProperties.FreeWords | src/parser.ts:41-43 | the tokens that do not start with `-`, leaving out each one taken as the value of the flag before it; each is an input token |
| ParserProperties.StepShape | src/parser.ts:30-47 | an assigning pass reads a token that matches an option, and removes the next token too exactly when the option is a string or number flag without `=` and a token follows; that value is never flag-like |
| ParserProperties.ScanKeepsUnknowns | src/parser.ts:66-75 | after a successful scan, `unknownOptions` is exactly the flag-like input tokens that match no option (`UnmatchedFlags`), verbatim and in input order |
| ParserProperties.ScanKeepsPositionals | src/parser.ts:41-75 | after a successful scan, `positionals` is exactly the input tokens that do not start with `-` and are not the value of a string or number flag written without `=` just before them (`FreeWords`), verbatim and in input order |
| ParserProperties.MatchedNames | src/parser.ts:30-33 | the names of the options the tokens match, each token tested on its own; each is the name of a schema entry |
| ParserProperties.ScanKeepsOptionKeys | src/parser.ts:23-72 | after a successful scan, the keys of `options` are exactly the names of the options the input tokens match (`MatchedNames`): every matched option is stored and no other key appears |
| ParserProperties.ScanWithoutOptions | src/parser.ts:66-75 | when no token matches an option and none is `--`, the scan succeeds and splits the tokens exactly by their leading `-`, keeping their order |
| ParserProperties.ScanLeavesSuffix | src/parser.ts:39-74 | what is left of the caller's array is always a suffix of what it held |
| ParserProperties.DivergesOnlyOnBareDash | src/parser.ts:67-68 | the scan fails to end only if `--` occurs in the input and matches no option |
| ParserProperties.BareDashDiverges | src/parser.ts:67-68 | reaching a bare `--` that matches no option, the loop never ends |
| ParserProperties.StepAssignFits | src/parser.ts:48-64 | every value a pass stores belongs to a declared option and fits its type: `true`, a non-empty non-flag string, or an integer |
| ParserProperties.ResolveFits | src/parser.ts:48-64 | the value checks store only values of the option's own type, under the option's name |
| ParserProperties.ScanWellTyped | src/parser.ts:27-78 | a successful scan stores only declared options, each with a value of its declared type |
| ParserProperties.EntriesUnique | src/parser.ts:86-89 | the schema built from an object has no repeated names |
| ParserProperties.ParseArgvWellTyped | src/parser.ts:81-97 | `parseArgv` returns only declared options, each with a value of its declared type |
| ParserProperties.StrictMode | src/parser.ts:91-96 | the default mode returns the scan unchanged; strict mode changes only a successful scan that saw unknown flags, failing with the first of them |
| ParserProperties.StrictNamesUnmatchedFlag | src/parser.ts:93-94 | the flag strict mode names is an input token that starts with `-` and matches no option |
| ParserProperties.ScanNeverThrowsUnknown | src/parser.ts:48-64 | the scan itself never throws "Unknown option"; only the strict check does |
| ParserProperties.ResolveNeverUnknown | src/parser.ts:48-64 | for every flag text and value, the value checks throw only value errors |
| ParserProperties.BaseOptionsSchema | src/parser.ts:104-115 | the schema starts with `help` (alias `h`) and `version` (alias `v`), each replaced in place by a user option of the same name, followed by the other user options in their own order |
| ParserProperties.BaseOptionsWithoutOptions | src/parser.ts:99-118 | without user options, the schema is just the two built-in flags |
| Js.IndexOf | src/parser.ts:31 | `indexOf` gives -1 exactly when the item is absent; otherwise the position of its first occurrence |
| Js.StartsWith | src/parser.ts:14 | `startsWith`: the prefix of the length of `p` equals `p` |
| Js.StartsWithPointwise | src/parser.ts:14 | `startsWith` holds exactly when `p` is no longer than `s` and agrees with it character by character |
| Js.Split | src/parser.ts:36 | `split` gives one more piece than there are separators; no piece holds the separator; joining the pieces back gives the input |
| Js.SplitAtFirst | src/parser.ts:36 | the first piece of a split ends at the first separator |
| Js.SplitJoin | src/parser.ts:36 | `split` undoes `join` when no piece holds the separator |
| Js.TrimStart | src/parser.ts:58 | `parseInt` skips exactly the leading white space |
| Js.DigitValue | src/parser.ts:58 | a character's digit value lies between -1 and 15 |
| Js.DigitValues | src/parser.ts:58 | the digit values: `0`-`9` are 0-9, `a`-`f` and `A`-`F` are 10-15, every other character is no digit; a value below 10 means not a hex letter |
| Js.Magnitude | src/parser.ts:58 | the positional value of a digit string, most significant digit first |
| Js.ParseInt | src/parser.ts:58-59 | `parseInt` with no radix: white space skipped, an optional sign, a `0x`/`0X` prefix switching to radix 16, then the longest digit run; no digit is NaN |
| Js.ParseUnsigned | src/parser.ts:58 | the part after the sign: radix prefix and digit run |
| Js.ParseUnsignedNaN | src/parser.ts:58-59 | the unsigned part is NaN exactly when no digit stands where one is looked for |
| Js.ParseIntNaN | src/parser.ts:58-59 | `parseInt` is NaN exactly when, after white space and an optional sign, no decimal digit follows, or nothing hexadecimal follows `0x` |
| Js.ParseIntUnsigned | src/parser.ts:58 | without leading white space or sign, `parseInt` is its unsigned part |
| Js.ParseIntSkipsWhiteSpace | src/parser.ts:58 | a leading white-space character does not change what `parseInt` reads |
| Js.ParseIntSigned | src/parser.ts:58 | a leading `-` negates what the rest reads as and a leading `+` keeps it |
| Js.ParseIntOfPlus | src/parser.ts:58 | `parseInt` of `+` followed by a decimal text is the number |
| Js.ParseIntOfHex | src/parser.ts:58 | after `0x` or `0X` the hexadecimal digits are read up to the first non-hex character, so `0x1F` gives 31 |
| Js.DigitRunOf | src/parser.ts:58 | a run of digits followed by a non-digit is read exactly up to the non-digit |
| Js.ParseUnsignedOfDecimal | src/parser.ts:58 | the unsigned part reads a decimal text back up to the first non-digit |
| Js.DigitRun | src/parser.ts:58 | `parseInt` reads the longest run of digits of its radix |
| Js.DecimalText | src/parser.ts:58 | the decimal text of a number is non-empty, all digits, has no leading zero, and reads back as the number |
| Js.ParseIntOfDecimal | src/parser.ts:58-59 | `parseInt` reads back the decimal text of a number and stops at the first non-digit, so `5abc` gives 5 |
| Js.ParseIntOfNegative | src/parser.ts:58 | `parseInt` of `-` followed by a decimal text is the negated number |
| Js.PutAbsent | src/parser.ts:104-115 | assigning a new key appends it at the end |
| Js.PutPresentKeys | src/parser.ts:104-115 | assigning a key keeps the key set, and keeps every key unique |
| Js.OverriddenIgnoresAbsent | src/parser.ts:104-115 | a source entry whose key the target lacks overrides nothing |
| Js.OverriddenAppend | src/parser.ts:104-115 | overriding distributes over appending a target entry |
| Js.OverriddenPut | src/parser.ts:104-115 | assigning into the target and then overriding is the same as overriding with that entry in front of the source |
| Js.LookupAbsent | src/parser.ts:104-115 | a key that is not present has no value |
| Js.Put | src/parser.ts:104-115 | assigning a key adds it to the key set, and the key then holds the assigned value |
| Js.Spread | src/parser.ts:104-115 | the key set of a spread is the union of both key sets |
| Js.WithoutExtra | src/parser.ts:104-115 | excluding a key that the source lacks changes nothing |
| Js.SpreadShape | src/parser.ts:104-115 | `{ ...rec, ...src }` keeps `rec`'s keys in place, each taking `src`'s value when `src` has it, followed by `src`'s other entries in their order |
| Js.OverriddenEmpty | src/parser.ts:114 | overriding with an empty source leaves the target unchanged |
| Js.KeysAppend | src/parser.ts:104-115 | appending an entry adds its key to the key set |
| Js.KeyedAppend | src/parser.ts:104-115 | appending an entry with a new key keeps every key unique |
| Types.Message | src/parser.ts:50-94 | the thrown messages: "does not accept parameters.", "requires a parameter." and "to be a number." naming the flag, and "Unknown option" naming the token without a final period |
| Cli.Clif.constructor | src/index.ts:11-26 | stores the name, description, array and version as given; no command is registered and there is no default command |
| Cli.Clif.Command | src/index.ts:27-33 | an unnamed command replaces the default command; `version` and `help` are refused with "Use cli.<name>() instead" and nothing changes; any other command is appended, duplicates included; the same builder is returned |
| Cli.Clif.Version | src/index.ts:34-36 | overwrites the stored version and nothing else |
| Cli.Clif.Parse | src/index.ts:37-41 | with no default command nothing happens; otherwise it returns the non-strict `baseOptions` outcome for the default command's options over the given array |

## Left out

- The `console.log` calls (`src/parser.ts:29`, `src/index.ts:39`) are output only. `Cli.Clif.Parse` returns the outcome that the source prints.
- The `process.argv` defaults (`src/index.ts:14`, `src/index.ts:37`) read the process environment. The array is a parameter instead.
- The demo script at the end of `src/index.ts` (lines 44-66) is a usage example, not library logic.
- The type-level helpers `ToLiteralType` and `ParsedOptions` in `src/types.ts` have no run-time behaviour.
- A command's `action` and `args` are never called or read by the code modelled here, so `Types.Command` does not carry them.
- Thrown `Error` objects are modelled as `ParseError` values. `Types.Message` gives their exact message texts. `Cli.Clif.Command` returns `Refused` where the source throws.
- `parseInt` is modelled over ASCII text. Non-ASCII white space, rounding of very large values to a double, `Infinity` and `-0` are left out. A negative zero is stored as 0.
- Object key order is modelled as insertion order. JavaScript places integer-like keys first, and a `__proto__` key has special meaning; neither is modelled.
- The stored option values are a `map`, so the key insertion order of the returned `options` object is not modelled.
- ParserProperties.InlineAndSeparateAgree: requires the `=` form to find the same option, because prefix matching may pick an earlier option for `--opt=value` than for `--opt`.
- Parser.FindFlagsWithOptions: returns `Diverges` at a bare `--` that matches no option, where the source loops forever without changing anything.
