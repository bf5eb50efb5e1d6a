/**
 * Properties of the argument tokenizer: how tokens are matched, where option
 * values come from, how unmatched tokens are classified, when the scan stops,
 * what strict mode adds and what schema `baseOptions` builds.
 */
module ParserProperties {
  import opened Wrappers
  import opened Js
  import opened Types
  import opened Parser

  // ----- matching -----

  /** Without `=`, matching is exact; an absent alias is compared as the text `undefined`. */
  lemma MatchIsExactWithoutEquals(o: NamedOption, arg: string)
    requires '=' !in arg
    ensures Matches(o, arg) <==>
      arg == "--" + o.name
      || (o.spec.alias.Some? && arg == "-" + o.spec.alias.value)
      || (o.spec.alias.None? && arg == "-undefined")
  {
  }

  /** A token that matches an option still matches it with `=value` appended. */
  lemma MatchesWithInlineValue(o: NamedOption, flag: string, value: string)
    requires Matches(o, flag)
    ensures Matches(o, flag + "=" + value)
  {
    var arg := flag + "=" + value;
    assert arg[|flag|] == '=';
    var long := "--" + o.name;
    var short := "-" + AliasText(o.spec.alias);
    if StartsWith(flag, long) {
      assert arg[..|long|] == flag[..|long|];
    } else {
      assert StartsWith(flag, short);
      assert arg[..|short|] == flag[..|short|];
    }
  }

  /**
   * With `=` the match is a prefix test, so an inline-value token finds the
   * same option as its flag or one earlier in the schema, never a later one.
   */
  lemma {:induction false} InlineFindsNoLater(schema: Schema, flag: string, value: string)
    requires FindOptionInFlags(schema, flag).Some?
    ensures FindOptionInFlags(schema, flag + "=" + value).Some?
    ensures FindOptionInFlags(schema, flag + "=" + value).value <= FindOptionInFlags(schema, flag).value
  {
    var i := FindOptionInFlags(schema, flag).value;
    MatchesWithInlineValue(schema[i], flag, value);
  }

  /**
   * With `=` the match is a prefix test: any token that starts with `--name`
   * and carries an `=` matches the option called `name`, whatever follows the
   * name before the `=`.
   */
  lemma PrefixMatchOnEquals(name: string, spec: OptionSpec, x: string, v: string)
    ensures Matches(NamedOption(name, spec), "--" + name + x + "=" + v)
  {
    var long := "--" + name;
    var arg := long + x + "=" + v;
    assert arg[|long + x|] == '=';
    assert arg[..|long|] == long;
  }

  /** The prefix test in action: `--namespace=x` matches an option called `name`, `--namespace` does not. */
  lemma NamespaceMatchesName()
    ensures var o := NamedOption("name", OptionSpec(String, None, Some("n")));
      Matches(o, "--namespace=x") && !Matches(o, "--namespace")
  {
    var o := NamedOption("name", OptionSpec(String, None, Some("n")));
    PrefixMatchOnEquals("name", o.spec, "space", "x");
    assert "--" + "name" + "space" + "=" + "x" == "--namespace=x";
  }

  /** An option without an alias answers to `-undefined`. */
  lemma AbsentAliasMatchesUndefined(name: string, kind: OptionType)
    ensures Matches(NamedOption(name, OptionSpec(kind, None, None)), "-undefined")
  {
  }

  // ----- where values come from -----

  /** A boolean option consumes only its own token; only a non-empty inline value is an error. */
  lemma BooleanOptionStep(schema: Schema, arg: string, rest: seq<string>)
    requires FindOptionInFlags(schema, arg).Some?
    requires schema[FindOptionInFlags(schema, arg).value].spec.kind == Boolean
    ensures var o := schema[FindOptionInFlags(schema, arg).value];
      var s := StepAt(schema, [arg] + rest);
      s.taken == 1
      && ('=' !in arg ==> s.action == Assign(o.name, BoolVal(true)))
      && ('=' in arg ==>
            var parts := Split(arg, '=');
            s.action == if parts[1] == "" then Assign(o.name, BoolVal(true))
                        else Throw(NoParameterAccepted(parts[0])))
  {
    var argv := [arg] + rest;
    assert argv[0] == arg;
    var i := FindOptionInFlags(schema, arg).value;
    if '=' in arg {
      StepInline(schema, argv, i);
    } else {
      StepFlag(schema, argv, i);
    }
  }

  /** The inline value is the text between the first and the second `=`; the rest is dropped. */
  lemma InlineValueEndsAtSecondEquals(schema: Schema, flag: string, value: string, tail: string, rest: seq<string>)
    requires '=' !in flag && '=' !in value
    requires FindOptionInFlags(schema, flag + "=" + value + "=" + tail).Some?
    ensures var i := FindOptionInFlags(schema, flag + "=" + value + "=" + tail).value;
      StepAt(schema, [flag + "=" + value + "=" + tail] + rest) == Step(Resolve(schema[i], flag, Some(value)), 1)
  {
    var arg := flag + "=" + value + "=" + tail;
    var argv := [arg] + rest;
    assert argv[0] == arg;
    SplitTwo(flag, value, tail);
    assert '=' in arg;
    StepInline(schema, argv, FindOptionInFlags(schema, arg).value);
  }

  lemma SplitTwo(flag: string, value: string, tail: string)
    requires '=' !in flag && '=' !in value
    ensures var parts := Split(flag + "=" + value + "=" + tail, '=');
      |parts| >= 2 && parts[0] == flag && parts[1] == value
  {
    var arg := flag + "=" + value + "=" + tail;
    assert arg == flag + ['='] + (value + ['='] + tail);
    SplitAtFirst(flag, '=', value + ['='] + tail);
    SplitAtFirst(value, '=', tail);
  }

  /**
   * `--opt=value` and `--opt value` give the same scan for a string or number
   * option, provided the `=` form finds that same option.
   */
  lemma InlineAndSeparateAgree(schema: Schema, flag: string, value: string, rest: seq<string>, acc: ParseResult)
    requires '=' !in flag && '=' !in value
    requires FindOptionInFlags(schema, flag).Some?
    requires FindOptionInFlags(schema, flag + "=" + value) == FindOptionInFlags(schema, flag)
    requires schema[FindOptionInFlags(schema, flag).value].spec.kind != Boolean
    ensures Scan(schema, [flag + "=" + value] + rest, acc) == Scan(schema, [flag, value] + rest, acc)
  {
    var i := FindOptionInFlags(schema, flag).value;
    var arg := flag + "=" + value;
    var inline := [arg] + rest;
    var separate := [flag, value] + rest;
    assert inline[0] == arg && separate[0] == flag && separate[1] == value;
    assert arg[|flag|] == '=';
    StepInline(schema, inline, i);
    SplitAtFirst(flag, '=', value);
    assert arg == flag + ['='] + value;
    assert Split(value, '=') == [value];
    StepNext(schema, separate, i);
    ScanUnfold(schema, inline, acc);
    ScanUnfold(schema, separate, acc);
    assert inline[1..] == rest && separate[2..] == rest;
  }

  /** A string or number option followed by a flag-like token fails, so `--count -5` is an error. */
  lemma DashValueRejected(schema: Schema, flag: string, value: string, rest: seq<string>)
    requires '=' !in flag && FindOptionInFlags(schema, flag).Some?
    requires schema[FindOptionInFlags(schema, flag).value].spec.kind != Boolean
    requires value != [] && value[0] == '-'
    ensures StepAt(schema, [flag, value] + rest) == Step(Throw(ParameterRequired(flag)), 2)
  {
    var argv := [flag, value] + rest;
    assert argv[0] == flag && argv[1] == value;
    StepNext(schema, argv, FindOptionInFlags(schema, flag).value);
  }

  /** A string or number option as the last token has no value and fails. */
  lemma MissingValueRejected(schema: Schema, flag: string)
    requires '=' !in flag && FindOptionInFlags(schema, flag).Some?
    requires schema[FindOptionInFlags(schema, flag).value].spec.kind != Boolean
    ensures Scan(schema, [flag], NoResult) == Run(Failed(ParameterRequired(flag)), [])
  {
    StepNext(schema, [flag], FindOptionInFlags(schema, flag).value);
    ScanUnfold(schema, [flag], NoResult);
  }

  /** A string option stores the next token verbatim when it is non-empty and not flag-like. */
  lemma StringOptionValue(schema: Schema, flag: string, value: string, rest: seq<string>)
    requires '=' !in flag && FindOptionInFlags(schema, flag).Some?
    requires schema[FindOptionInFlags(schema, flag).value].spec.kind == String
    requires value != "" && !IsOption(value)
    ensures var o := schema[FindOptionInFlags(schema, flag).value];
      StepAt(schema, [flag, value] + rest) == Step(Assign(o.name, StrVal(value)), 2)
  {
    var argv := [flag, value] + rest;
    assert argv[0] == flag && argv[1] == value;
    StepNext(schema, argv, FindOptionInFlags(schema, flag).value);
  }

  /** `--opt=value` stores for a string option the text after the `=`, when it is non-empty and not flag-like. */
  lemma StringOptionInline(schema: Schema, flag: string, value: string, rest: seq<string>)
    requires '=' !in flag && '=' !in value
    requires FindOptionInFlags(schema, flag + "=" + value).Some?
    requires schema[FindOptionInFlags(schema, flag + "=" + value).value].spec.kind == String
    requires value != "" && !IsOption(value)
    ensures var o := schema[FindOptionInFlags(schema, flag + "=" + value).value];
      StepAt(schema, [flag + "=" + value] + rest) == Step(Assign(o.name, StrVal(value)), 1)
  {
    var arg := flag + "=" + value;
    var argv := [arg] + rest;
    assert argv[0] == arg;
    assert arg[|flag|] == '=';
    InlineParts(flag, value);
    StepInline(schema, argv, FindOptionInFlags(schema, arg).value);
  }

  /** Splitting `flag=value` at `=` gives back `flag` and `value` when neither holds an `=`. */
  lemma InlineParts(flag: string, value: string)
    requires '=' !in flag && '=' !in value
    ensures Split(flag + "=" + value, '=') == [flag, value]
  {
    SplitAtFirst(flag, '=', value);
    assert flag + "=" + value == flag + ['='] + value;
    assert Split(value, '=') == [value];
  }

  /** An empty separate value is no value: `--opt ""` fails for a string or number option. */
  lemma EmptyValueRejected(schema: Schema, flag: string, rest: seq<string>)
    requires '=' !in flag && FindOptionInFlags(schema, flag).Some?
    requires schema[FindOptionInFlags(schema, flag).value].spec.kind != Boolean
    ensures StepAt(schema, [flag, ""] + rest) == Step(Throw(ParameterRequired(flag)), 2)
  {
    var argv := [flag, ""] + rest;
    assert argv[0] == flag && argv[1] == "";
    StepNext(schema, argv, FindOptionInFlags(schema, flag).value);
  }

  /** An empty inline value is no value: `--opt=` fails for a string or number option. */
  lemma EmptyInlineValueRejected(schema: Schema, flag: string, rest: seq<string>)
    requires '=' !in flag && FindOptionInFlags(schema, flag + "=").Some?
    requires schema[FindOptionInFlags(schema, flag + "=").value].spec.kind != Boolean
    ensures StepAt(schema, [flag + "="] + rest) == Step(Throw(ParameterRequired(flag)), 1)
  {
    var arg := flag + "=";
    var argv := [arg] + rest;
    assert argv[0] == arg;
    assert arg[|flag|] == '=';
    InlineParts(flag, "");
    assert flag + "=" + "" == arg;
    StepInline(schema, argv, FindOptionInFlags(schema, arg).value);
  }

  /**
   * A number option stores what `parseInt` reads: the digits up to the first
   * non-digit, so `5` and `5abc` both give 5.
   */
  lemma NumberOptionValue(schema: Schema, flag: string, n: nat, tail: string, rest: seq<string>)
    requires '=' !in flag && FindOptionInFlags(schema, flag).Some?
    requires schema[FindOptionInFlags(schema, flag).value].spec.kind == Number
    requires tail == [] || (!IsDigit(tail[0], 10) && tail[0] != 'x' && tail[0] != 'X')
    ensures var o := schema[FindOptionInFlags(schema, flag).value];
      StepAt(schema, [flag, DecimalText(n) + tail] + rest) == Step(Assign(o.name, NumVal(n)), 2)
  {
    var value := DecimalText(n) + tail;
    var argv := [flag, value] + rest;
    var o := schema[FindOptionInFlags(schema, flag).value];
    assert argv[0] == flag && argv[1] == value;
    StepNext(schema, argv, FindOptionInFlags(schema, flag).value);
    assert Resolve(o, flag, Some(value)) == Assign(o.name, NumVal(n)) by {
      assert IsDigit(value[0], 10);
      ParseIntOfDecimal(n, tail);
      ResolveNumber(o, flag, value, n);
    }
  }

  lemma ResolveNumber(o: NamedOption, flag: string, value: string, n: int)
    requires o.spec.kind == Number && value != "" && !IsOption(value) && ParseInt(value) == Some(n)
    ensures Resolve(o, flag, Some(value)) == Assign(o.name, NumVal(n))
  {
  }

  /** A number option whose value `parseInt` cannot read fails with "to be a number". */
  lemma NonNumericRejected(schema: Schema, flag: string, value: string, rest: seq<string>)
    requires '=' !in flag && FindOptionInFlags(schema, flag).Some?
    requires schema[FindOptionInFlags(schema, flag).value].spec.kind == Number
    requires value != [] && value[0] != '-' && ParseInt(value).None?
    ensures StepAt(schema, [flag, value] + rest) == Step(Throw(NotANumber(flag)), 2)
  {
    var argv := [flag, value] + rest;
    assert argv[0] == flag && argv[1] == value;
    StepNext(schema, argv, FindOptionInFlags(schema, flag).value);
  }

  /** When an option is set twice in a row, the later value is the one kept. */
  lemma LaterOccurrenceWins(schema: Schema, argv: seq<string>, acc: ParseResult,
                            name: string, v1: Value, v2: Value, k1: nat, k2: nat)
    requires argv != [] && StepAt(schema, argv) == Step(Assign(name, v1), k1)
    requires k1 < |argv| && StepAt(schema, argv[k1..]) == Step(Assign(name, v2), k2)
    ensures k1 + k2 <= |argv|
    ensures Scan(schema, argv, acc) == Scan(schema, argv[k1 + k2..], acc.(options := acc.options[name := v2]))
  {
    var acc1 := acc.(options := acc.options[name := v1]);
    var acc2 := acc1.(options := acc1.options[name := v2]);
    ScanAssign(schema, argv, acc, name, v1, k1);
    ScanAssign(schema, argv[k1..], acc1, name, v2, k2);
    assert argv[k1..][k2..] == argv[k1 + k2..];
    UpdateTwice(acc.options, name, v1, v2);
  }

  lemma UpdateTwice(m: map<string, Value>, name: string, v1: Value, v2: Value)
    ensures m[name := v1][name := v2] == m[name := v2]
  {
  }

  /** A pass that assigns `name` stores its value and carries on after the tokens it took. */
  lemma ScanAssign(schema: Schema, argv: seq<string>, acc: ParseResult, name: string, v: Value, k: nat)
    requires argv != [] && StepAt(schema, argv) == Step(Assign(name, v), k)
    ensures k <= |argv|
    ensures Scan(schema, argv, acc) == Scan(schema, argv[k..], acc.(options := acc.options[name := v]))
  {
    ScanTakes(schema, argv, acc, Assign(name, v), k);
  }

  /**
   * The scan goes on to a pass that assigns `name`: no pass before it throws
   * or gets stuck.
   */
  predicate AssignsLater(schema: Schema, argv: seq<string>, name: string)
    decreases |argv|
  {
    argv != [] &&
    var s := StepAt(schema, argv);
    !s.action.Stuck? && !s.action.Throw?
    && ((s.action.Assign? && s.action.name == name) || AssignsLater(schema, argv[s.taken..], name))
  }

  /**
   * When a later pass assigns `name`, what `name` held before makes no
   * difference to the scan: an option's last occurrence decides its value.
   */
  lemma {:induction false} LastAssignmentDecides(schema: Schema, argv: seq<string>,
                                                 acc1: ParseResult, acc2: ParseResult, name: string)
    requires AssignsLater(schema, argv, name)
    requires acc1.unknownOptions == acc2.unknownOptions && acc1.positionals == acc2.positionals
    requires acc1.options - {name} == acc2.options - {name}
    ensures Scan(schema, argv, acc1) == Scan(schema, argv, acc2)
    decreases |argv|
  {
    var s := StepAt(schema, argv);
    ScanTakes(schema, argv, acc1, s.action, s.taken);
    ScanTakes(schema, argv, acc2, s.action, s.taken);
    var b1, b2 := Apply(acc1, s.action), Apply(acc2, s.action);
    if s.action.Assign? && s.action.name == name {
      SameAfterAssign(acc1.options, acc2.options, name, s.action.value);
      assert b1 == b2;
    } else {
      if s.action.Assign? {
        SameBesidesAfterAssign(acc1.options, acc2.options, name, s.action.name, s.action.value);
      }
      LastAssignmentDecides(schema, argv[s.taken..], b1, b2, name);
    }
  }

  lemma SameAfterAssign(m1: map<string, Value>, m2: map<string, Value>, name: string, v: Value)
    requires m1 - {name} == m2 - {name}
    ensures m1[name := v] == m2[name := v]
  {
    forall n | n != name
      ensures (n in m1 <==> n in m2) && (n in m1 ==> m1[n] == m2[n])
    {
      assert n in m1 <==> n in m1 - {name};
      assert n in m2 <==> n in m2 - {name};
      if n in m1 {
        assert m1[n] == (m1 - {name})[n];
        assert m2[n] == (m2 - {name})[n];
      }
    }
  }

  lemma SameBesidesAfterAssign(m1: map<string, Value>, m2: map<string, Value>, name: string, other: string, v: Value)
    requires m1 - {name} == m2 - {name} && other != name
    ensures m1[other := v] - {name} == m2[other := v] - {name}
  {
    assert m1[other := v] - {name} == (m1 - {name})[other := v];
    assert m2[other := v] - {name} == (m2 - {name})[other := v];
  }

  /** An occurrence of an option that a later pass assigns again can be dropped without changing the scan. */
  lemma EarlierOccurrenceIgnored(schema: Schema, argv: seq<string>, acc: ParseResult, name: string, v: Value, k: nat)
    requires argv != [] && StepAt(schema, argv) == Step(Assign(name, v), k)
    requires k <= |argv| && AssignsLater(schema, argv[k..], name)
    ensures Scan(schema, argv, acc) == Scan(schema, argv[k..], acc)
  {
    ScanAssign(schema, argv, acc, name, v, k);
    UpdateThenRemove(acc.options, name, v);
    LastAssignmentDecides(schema, argv[k..], acc.(options := acc.options[name := v]), acc, name);
  }

  lemma UpdateThenRemove(m: map<string, Value>, name: string, v: Value)
    ensures m[name := v] - {name} == m - {name}
  {
  }

  /**
   * A pass that does not stop the scan only adds: an assignment sets one
   * option and keeps the others, a token is appended to one of the two lists.
   */
  lemma ApplyOnlyAdds(acc: ParseResult, a: Action)
    ensures var r := Apply(acc, a);
      r.options.Keys == acc.options.Keys + (if a.Assign? then {a.name} else {})
      && (a.Assign? ==> r.options[a.name] == a.value)
      && (forall n :: n in acc.options && !(a.Assign? && n == a.name) ==> r.options[n] == acc.options[n])
      && r.unknownOptions == acc.unknownOptions + (if a.Unknown? then [a.token] else [])
      && r.positionals == acc.positionals + (if a.Positional? then [a.token] else [])
  {
  }

  // ----- unmatched tokens -----

  /** The flag-like tokens of `argv` that match no option, in input order. */
  function UnmatchedFlags(schema: Schema, argv: seq<string>): (r: seq<string>)
    ensures forall t :: t in r ==> t in argv && IsOption(t) && FindOptionInFlags(schema, t).None?
  {
    if argv == [] then []
    else (if IsOption(argv[0]) && FindOptionInFlags(schema, argv[0]).None? then [argv[0]] else [])
         + UnmatchedFlags(schema, argv[1..])
  }

  /** The token matches a string or number option without `=`, so the scan takes the next token as its value. */
  predicate TakesNext(schema: Schema, t: string) {
    var i := FindOptionInFlags(schema, t);
    i.Some? && '=' !in t && schema[i.value].spec.kind != Boolean
  }

  /**
   * The tokens of `argv` that do not start with `-`, in input order, leaving
   * out each one that follows a `TakesNext` token; `skip` says that the first
   * token follows one.
   */
  function FreeWords(schema: Schema, argv: seq<string>, skip: bool): (r: seq<string>)
    ensures forall t :: t in r ==> t in argv && !IsOption(t)
  {
    if argv == [] then []
    else (if !skip && !IsOption(argv[0]) then [argv[0]] else [])
         + FreeWords(schema, argv[1..], !skip && TakesNext(schema, argv[0]))
  }

  /**
   * What an assigning step takes: a token that matches an option, and the
   * token after it exactly when that token is the value of a `TakesNext`
   * flag, a value that is never flag-like itself.
   */
  lemma StepShape(schema: Schema, argv: seq<string>)
    requires argv != []
    ensures var s := StepAt(schema, argv);
      s.action.Assign? ==>
        FindOptionInFlags(schema, argv[0]).Some? && IsOption(argv[0])
        && (s.taken == 2 <==> TakesNext(schema, argv[0]) && |argv| > 1)
        && (s.taken == 2 ==> !IsOption(argv[1]))
  {
    match FindOptionInFlags(schema, argv[0])
    case None =>
    case Some(i) =>
      assert StepAt(schema, argv) == OptionStep(schema[i], argv);
  }

  /**
   * The first pass of a scan, named: which action it takes, how many tokens
   * it removes, how the scan goes on after it, and what `StepShape` and
   * `StepAt` say about the tokens it reads.
   */
  lemma TakeStep(schema: Schema, argv: seq<string>, acc: ParseResult) returns (a: Action, k: nat)
    requires argv != []
    ensures StepAt(schema, argv) == Step(a, k)
    ensures (1 <= k <= 2 && k <= |argv|) || (k == 0 && a.Stuck?)
    ensures a.Stuck? ==> !Scan(schema, argv, acc).outcome.Parsed?
    ensures a.Throw? ==> !Scan(schema, argv, acc).outcome.Parsed?
    ensures !a.Stuck? && !a.Throw? ==> Scan(schema, argv, acc) == Scan(schema, argv[k..], Apply(acc, a))
    ensures a.Unknown? ==> a.token == argv[0] && k == 1 && IsOption(argv[0]) && FindOptionInFlags(schema, argv[0]).None?
    ensures a.Positional? ==> a.token == argv[0] && k == 1 && !IsOption(argv[0]) && FindOptionInFlags(schema, argv[0]).None?
    ensures a.Assign? ==>
      FindOptionInFlags(schema, argv[0]).Some? && IsOption(argv[0])
      && (k == 2 <==> TakesNext(schema, argv[0]) && |argv| > 1)
      && (k == 2 ==> !IsOption(argv[1]))
  {
    var s := StepAt(schema, argv);
    a, k := s.action, s.taken;
    if a.Stuck? {
      ScanUnfold(schema, argv, acc);
    } else {
      ScanTakes(schema, argv, acc, a, k);
    }
    StepShape(schema, argv);
  }

  /** One step of `ScanKeepsUnknowns`, stated over the facts `StepAt` and `StepShape` give about the step. */
  lemma UnknownsStep(schema: Schema, argv: seq<string>, a: Action, k: nat, before: seq<string>)
    requires 1 <= k <= 2 && k <= |argv| && (a.Assign? || a.Unknown? || a.Positional?)
    requires a.Unknown? ==> a.token == argv[0] && k == 1 && IsOption(argv[0]) && FindOptionInFlags(schema, argv[0]).None?
    requires a.Positional? ==> k == 1 && !IsOption(argv[0])
    requires a.Assign? ==> FindOptionInFlags(schema, argv[0]).Some? && (k == 2 ==> !IsOption(argv[1]))
    ensures (before + (if a.Unknown? then [a.token] else [])) + UnmatchedFlags(schema, argv[k..])
         == before + UnmatchedFlags(schema, argv)
  {
    var x := argv[0];
    var u := UnmatchedFlags(schema, argv[1..]);
    if a.Unknown? {
      assert UnmatchedFlags(schema, argv) == [x] + u;
      assert (before + [x]) + u == before + ([x] + u);
    } else {
      assert UnmatchedFlags(schema, argv) == [] + u == u;
      assert before + [] == before;
      if k == 2 {
        var tail := argv[1..];
        assert tail[0] == argv[1] && tail[1..] == argv[2..] && !IsOption(tail[0]);
        assert u == [] + UnmatchedFlags(schema, tail[1..]) == UnmatchedFlags(schema, argv[2..]);
      } else {
        assert argv[k..] == argv[1..];
      }
    }
  }

  /** A successful scan appends to `unknownOptions` exactly the flag-like tokens that match no option, in input order. */
  lemma {:induction false} ScanKeepsUnknowns(schema: Schema, argv: seq<string>, acc: ParseResult)
    ensures var r := Scan(schema, argv, acc);
      r.outcome.Parsed? ==> r.outcome.result.unknownOptions == acc.unknownOptions + UnmatchedFlags(schema, argv)
    decreases |argv|
  {
    if argv != [] {
      var a, k := TakeStep(schema, argv, acc);
      if !a.Stuck? && !a.Throw? {
        var acc' := Apply(acc, a);
        var added := if a.Unknown? then [a.token] else [];
        assert acc'.unknownOptions == acc.unknownOptions + added;
        ScanKeepsUnknowns(schema, argv[k..], acc');
        var r := Scan(schema, argv[k..], acc');
        if r.outcome.Parsed? {
          calc {
            r.outcome.result.unknownOptions;
          ==
            (acc.unknownOptions + added) + UnmatchedFlags(schema, argv[k..]);
          == { UnknownsStep(schema, argv, a, k, acc.unknownOptions); }
            acc.unknownOptions + UnmatchedFlags(schema, argv);
          }
        }
      }
    } else {
      assert acc.unknownOptions + [] == acc.unknownOptions;
    }
  }


  /** One step of `ScanKeepsPositionals`, stated over the facts `StepAt` and `StepShape` give about the step. */
  lemma PositionalsStep(schema: Schema, argv: seq<string>, a: Action, k: nat, before: seq<string>)
    requires 1 <= k <= 2 && k <= |argv| && (a.Assign? || a.Unknown? || a.Positional?)
    requires a.Unknown? ==> k == 1 && IsOption(argv[0]) && FindOptionInFlags(schema, argv[0]).None?
    requires a.Positional? ==> a.token == argv[0] && k == 1 && !IsOption(argv[0]) && FindOptionInFlags(schema, argv[0]).None?
    requires a.Assign? ==> IsOption(argv[0]) && (k == 2 <==> TakesNext(schema, argv[0]) && |argv| > 1)
    ensures (before + (if a.Positional? then [a.token] else [])) + FreeWords(schema, argv[k..], false)
         == before + FreeWords(schema, argv, false)
  {
    var x := argv[0];
    var f := FreeWords(schema, argv[1..], TakesNext(schema, x));
    assert FreeWords(schema, argv, false) == (if IsOption(x) then [] else [x]) + f;
    if a.Positional? {
      assert (before + [x]) + f == before + ([x] + f);
    } else {
      assert FreeWords(schema, argv, false) == f;
      assert before + [] == before;
      if k == 2 {
        var tail := argv[1..];
        assert tail[1..] == argv[2..];
        assert f == [] + FreeWords(schema, tail[1..], false) == FreeWords(schema, argv[2..], false);
      } else if TakesNext(schema, x) {
        assert argv[1..] == [] && argv[k..] == [];
        assert f == [];
      } else {
        assert argv[k..] == argv[1..];
      }
    }
  }

  /**
   * A successful scan appends to `positionals` exactly the tokens that do not
   * start with `-` and are not the value of the token before them, in input
   * order.
   */
  lemma {:induction false} ScanKeepsPositionals(schema: Schema, argv: seq<string>, acc: ParseResult)
    ensures var r := Scan(schema, argv, acc);
      r.outcome.Parsed? ==> r.outcome.result.positionals == acc.positionals + FreeWords(schema, argv, false)
    decreases |argv|
  {
    if argv != [] {
      var a, k := TakeStep(schema, argv, acc);
      if !a.Stuck? && !a.Throw? {
        var acc' := Apply(acc, a);
        var added := if a.Positional? then [a.token] else [];
        assert acc'.positionals == acc.positionals + added;
        ScanKeepsPositionals(schema, argv[k..], acc');
        var r := Scan(schema, argv[k..], acc');
        if r.outcome.Parsed? {
          calc {
            r.outcome.result.positionals;
          ==
            (acc.positionals + added) + FreeWords(schema, argv[k..], false);
          == { PositionalsStep(schema, argv, a, k, acc.positionals); }
            acc.positionals + FreeWords(schema, argv, false);
          }
        }
      }
    } else {
      assert acc.positionals + [] == acc.positionals;
    }
  }

  /** The names of the options that the tokens of `argv` match, each token taken on its own. */
  function MatchedNames(schema: Schema, argv: seq<string>): (r: set<string>)
    ensures forall n :: n in r ==> exists i :: 0 <= i < |schema| && schema[i].name == n
  {
    if argv == [] then {}
    else (match FindOptionInFlags(schema, argv[0]) case Some(i) => {schema[i].name} case None => {})
         + MatchedNames(schema, argv[1..])
  }

  /** A token that is not flag-like matches no option. */
  lemma WordMatchesNothing(schema: Schema, t: string)
    requires !IsOption(t)
    ensures FindOptionInFlags(schema, t).None?
  {
    match FindOptionInFlags(schema, t)
    case None =>
    case Some(i) =>
      assert false;
  }

  /** An assigning pass stores under the name of the option its first token matches. */
  lemma StepAssignName(schema: Schema, argv: seq<string>)
    requires argv != []
    ensures var a := StepAt(schema, argv).action;
      a.Assign? ==> FindOptionInFlags(schema, argv[0]).Some? && a.name == schema[FindOptionInFlags(schema, argv[0]).value].name
  {
    match FindOptionInFlags(schema, argv[0])
    case None =>
    case Some(i) =>
      assert StepAt(schema, argv) == OptionStep(schema[i], argv);
  }

  /** One step of `ScanKeepsOptionKeys`, stated over the facts `StepAt` gives about the step. */
  lemma OptionKeysStep(schema: Schema, argv: seq<string>, a: Action, k: nat, before: set<string>)
    requires 1 <= k <= 2 && k <= |argv| && (a.Assign? || a.Unknown? || a.Positional?)
    requires a.Unknown? || a.Positional? ==> k == 1 && FindOptionInFlags(schema, argv[0]).None?
    requires a.Assign? ==>
      FindOptionInFlags(schema, argv[0]).Some?
      && a.name == schema[FindOptionInFlags(schema, argv[0]).value].name
      && (k == 2 ==> !IsOption(argv[1]))
    ensures (before + (if a.Assign? then {a.name} else {})) + MatchedNames(schema, argv[k..])
         == before + MatchedNames(schema, argv)
  {
    var m := MatchedNames(schema, argv[1..]);
    assert MatchedNames(schema, argv) == (if a.Assign? then {a.name} else {}) + m;
    if k == 2 {
      var tail := argv[1..];
      assert tail[0] == argv[1] && tail[1..] == argv[2..];
      WordMatchesNothing(schema, tail[0]);
      assert m == {} + MatchedNames(schema, tail[1..]) == MatchedNames(schema, argv[2..]);
    } else {
      assert argv[k..] == argv[1..];
    }
  }

  /**
   * A successful scan adds to `options` exactly the names of the options the
   * tokens match: every matched option is stored, and nothing else is.
   */
  lemma {:induction false} ScanKeepsOptionKeys(schema: Schema, argv: seq<string>, acc: ParseResult)
    ensures var r := Scan(schema, argv, acc);
      r.outcome.Parsed? ==> r.outcome.result.options.Keys == acc.options.Keys + MatchedNames(schema, argv)
    decreases |argv|
  {
    if argv != [] {
      var a, k := TakeStep(schema, argv, acc);
      if !a.Stuck? && !a.Throw? {
        StepAssignName(schema, argv);
        var acc' := Apply(acc, a);
        var added := if a.Assign? then {a.name} else {};
        assert acc'.options.Keys == acc.options.Keys + added;
        ScanKeepsOptionKeys(schema, argv[k..], acc');
        var r := Scan(schema, argv[k..], acc');
        if r.outcome.Parsed? {
          calc {
            r.outcome.result.options.Keys;
          ==
            (acc.options.Keys + added) + MatchedNames(schema, argv[k..]);
          == { OptionKeysStep(schema, argv, a, k, acc.options.Keys); }
            acc.options.Keys + MatchedNames(schema, argv);
          }
        }
      }
    } else {
      assert acc.options.Keys + {} == acc.options.Keys;
    }
  }


  /** The flag-like tokens of `argv`, in order. */
  function Flags(argv: seq<string>): seq<string> {
    if argv == [] then [] else (if IsOption(argv[0]) then [argv[0]] else []) + Flags(argv[1..])
  }

  /** The other tokens of `argv`, in order. */
  function Words(argv: seq<string>): seq<string> {
    if argv == [] then [] else (if IsOption(argv[0]) then [] else [argv[0]]) + Words(argv[1..])
  }

  /** No token of `argv` matches an option, and none is a bare `--`. */
  predicate NoneMatch(schema: Schema, argv: seq<string>) {
    argv == [] || (FindOptionInFlags(schema, argv[0]).None? && argv[0] != "--" && NoneMatch(schema, argv[1..]))
  }

  /** When no token matches an option (and none is `--`), the scan partitions the tokens by their leading `-`. */
  lemma {:induction false} ScanWithoutOptions(schema: Schema, argv: seq<string>, acc: ParseResult)
    requires NoneMatch(schema, argv)
    ensures Scan(schema, argv, acc)
         == Run(Parsed(ParseResult(acc.options, acc.unknownOptions + Flags(argv), acc.positionals + Words(argv))), [])
    decreases |argv|
  {
    if argv == [] {
      assert acc.unknownOptions + [] == acc.unknownOptions;
      assert acc.positionals + [] == acc.positionals;
    } else {
      var x, rest := argv[0], argv[1..];
      var acc1 := if IsOption(x) then acc.(unknownOptions := acc.unknownOptions + [x])
                  else acc.(positionals := acc.positionals + [x]);
      calc {
        Scan(schema, argv, acc);
      == { ScanUnmatched(schema, argv, acc); }
        Scan(schema, rest, acc1);
      == { ScanWithoutOptions(schema, rest, acc1); }
        Run(Parsed(ParseResult(acc1.options, acc1.unknownOptions + Flags(rest), acc1.positionals + Words(rest))), []);
      == { PartitionStep(argv, acc.unknownOptions, acc.positionals); }
        Run(Parsed(ParseResult(acc.options, acc.unknownOptions + Flags(argv), acc.positionals + Words(argv))), []);
      }
    }
  }

  /** Moving the first token onto the list it belongs to keeps both partitions. */
  lemma PartitionStep(argv: seq<string>, flags: seq<string>, words: seq<string>)
    requires argv != []
    ensures IsOption(argv[0]) ==>
      (flags + [argv[0]]) + Flags(argv[1..]) == flags + Flags(argv) && words + Words(argv[1..]) == words + Words(argv)
    ensures !IsOption(argv[0]) ==>
      flags + Flags(argv[1..]) == flags + Flags(argv) && (words + [argv[0]]) + Words(argv[1..]) == words + Words(argv)
  {
    var x, rest := argv[0], argv[1..];
    if IsOption(x) {
      assert Flags(argv) == [x] + Flags(rest);
      assert Words(argv) == [] + Words(rest);
      assert [] + Words(rest) == Words(rest);
      assert (flags + [x]) + Flags(rest) == flags + ([x] + Flags(rest));
    } else {
      assert Words(argv) == [x] + Words(rest);
      assert Flags(argv) == [] + Flags(rest);
      assert [] + Flags(rest) == Flags(rest);
      assert (words + [x]) + Words(rest) == words + ([x] + Words(rest));
    }
  }


  // ----- how the scan ends -----

  /** What is left of the caller's array is always a suffix of what it held. */
  lemma {:induction false} ScanLeavesSuffix(schema: Schema, argv: seq<string>, acc: ParseResult)
    ensures var r := Scan(schema, argv, acc);
      r.left == argv[|argv| - |r.left|..]
    decreases |argv|
  {
    if argv != [] {
      var s := StepAt(schema, argv);
      if s.action.Stuck? {
        ScanUnfold(schema, argv, acc);
      } else {
        ScanTakes(schema, argv, acc, s.action, s.taken);
      }
      if !s.action.Stuck? && !s.action.Throw? {
        var r := Scan(schema, argv[s.taken..], Apply(acc, s.action));
        ScanLeavesSuffix(schema, argv[s.taken..], Apply(acc, s.action));
        assert argv[s.taken..][|argv[s.taken..]| - |r.left|..] == argv[|argv| - |r.left|..];
      }
    }
  }

  /**
   * The scan only fails to end when it reaches a bare `--` that matches no
   * option; any other pass removes one or two tokens.
   */
  lemma {:induction false} DivergesOnlyOnBareDash(schema: Schema, argv: seq<string>, acc: ParseResult)
    ensures Scan(schema, argv, acc).outcome.Diverges? ==>
      "--" in argv && FindOptionInFlags(schema, "--").None?
    decreases |argv|
  {
    if argv != [] {
      var s := StepAt(schema, argv);
      if s.action.Stuck? {
        ScanUnfold(schema, argv, acc);
      } else {
        ScanTakes(schema, argv, acc, s.action, s.taken);
      }
      if !s.action.Stuck? && !s.action.Throw? {
        DivergesOnlyOnBareDash(schema, argv[s.taken..], Apply(acc, s.action));
        if "--" in argv[s.taken..] {
          var k :| 0 <= k < |argv[s.taken..]| && argv[s.taken..][k] == "--";
          assert argv[s.taken + k] == "--";
        }
      }
    }
  }

  /** Reaching a bare `--` that matches no option, the scan never ends. */
  lemma BareDashDiverges(schema: Schema, rest: seq<string>, acc: ParseResult)
    requires FindOptionInFlags(schema, "--").None?
    ensures Scan(schema, ["--"] + rest, acc) == Run(Diverges, ["--"] + rest)
  {
    var argv := ["--"] + rest;
    assert argv[0] == "--";
    ScanUnfold(schema, argv, acc);
  }

  // ----- option values fit their declarations -----

  predicate UniqueNames(schema: Schema) {
    forall i, j :: 0 <= i < j < |schema| ==> schema[i].name != schema[j].name
  }

  /** The kind of the option declared under `name`. */
  function KindOf(schema: Schema, name: string): Option<OptionType> {
    if schema == [] then None
    else if schema[0].name == name then Some(schema[0].spec.kind)
    else KindOf(schema[1..], name)
  }

  /** A stored value agrees with its option's kind. */
  predicate Fits(v: Value, kind: OptionType) {
    match kind
    case Boolean => v == BoolVal(true)
    case String => v.StrVal? && v.s != "" && !IsOption(v.s)
    case Number => v.NumVal?
  }

  /** Every stored key is a declared option, holding a value of its kind. */
  predicate WellTyped(options: map<string, Value>, schema: Schema) {
    forall n :: n in options ==> KindOf(schema, n).Some? && Fits(options[n], KindOf(schema, n).value)
  }

  lemma {:induction false} KindOfEntry(schema: Schema, i: nat)
    requires UniqueNames(schema) && i < |schema|
    ensures KindOf(schema, schema[i].name) == Some(schema[i].spec.kind)
  {
    if i > 0 {
      assert schema[0].name != schema[i].name;
      assert UniqueNames(schema[1..]);
      assert schema[1..][i - 1] == schema[i];
      KindOfEntry(schema[1..], i - 1);
    }
  }

  lemma StepAssignFits(schema: Schema, argv: seq<string>)
    requires argv != [] && UniqueNames(schema)
    ensures var a := StepAt(schema, argv).action;
      a.Assign? ==> KindOf(schema, a.name).Some? && Fits(a.value, KindOf(schema, a.name).value)
  {
    match FindOptionInFlags(schema, argv[0])
    case None =>
      if argv[0] != "--" {
        StepUnmatched(schema, argv);
      }
    case Some(i) =>
      KindOfEntry(schema, i);
      var o := schema[i];
      if '=' in argv[0] {
        StepInline(schema, argv, i);
        var parts := Split(argv[0], '=');
        ResolveFits(o, parts[0], Some(parts[1]));
      } else if o.spec.kind != Boolean {
        StepNext(schema, argv, i);
        ResolveFits(o, argv[0], if |argv| > 1 then Some(argv[1]) else None);
      } else {
        StepFlag(schema, argv, i);
        ResolveFits(o, argv[0], None);
      }
  }

  lemma ResolveFits(o: NamedOption, flag: string, value: Option<string>)
    ensures var a := Resolve(o, flag, value);
      a.Assign? ==> a.name == o.name && Fits(a.value, o.spec.kind)
  {
  }

  /** A scan stores only declared options, each with a value of its declared kind. */
  lemma {:induction false} ScanWellTyped(schema: Schema, argv: seq<string>, acc: ParseResult)
    requires UniqueNames(schema) && WellTyped(acc.options, schema)
    ensures var r := Scan(schema, argv, acc);
      r.outcome.Parsed? ==> WellTyped(r.outcome.result.options, schema)
    decreases |argv|
  {
    if argv != [] {
      var s := StepAt(schema, argv);
      if s.action.Stuck? {
        ScanUnfold(schema, argv, acc);
      } else {
        ScanTakes(schema, argv, acc, s.action, s.taken);
      }
      if !s.action.Stuck? && !s.action.Throw? {
        StepAssignFits(schema, argv);
        ScanWellTyped(schema, argv[s.taken..], Apply(acc, s.action));
      }
    }
  }

  lemma {:induction false} KeysOfEntry<V>(rec: Record<V>, j: nat)
    requires j < |rec|
    ensures rec[j].0 in Keys(rec)
  {
    if j > 0 {
      KeysOfEntry(rec[1..], j - 1);
    }
  }

  lemma {:induction false} EntriesUnique(options: Options)
    requires Keyed(options)
    ensures UniqueNames(Entries(options))
  {
    if options != [] {
      EntriesUnique(options[1..]);
      var e := Entries(options);
      var e' := Entries(options[1..]);
      forall i, j | 0 <= i < j < |e| ensures e[i].name != e[j].name {
        if i == 0 {
          KeysOfEntry(options[1..], j - 1);
        } else {
          assert e[i] == e'[i - 1] && e[j] == e'[j - 1];
        }
      }
    }
  }

  /** `parseArgv` returns only declared options, each with a value of its declared kind. */
  lemma ParseArgvWellTyped(options: Options, argv: seq<string>, config: ParserConfig)
    requires Keyed(options)
    ensures var r := ParseArgvRun(options, argv, config);
      r.outcome.Parsed? ==> WellTyped(r.outcome.result.options, Entries(options))
  {
    EntriesUnique(options);
    ScanWellTyped(Entries(options), argv, NoResult);
  }

  // ----- strict mode -----

  /**
   * Strict mode changes only a successful scan that saw unknown flags: it
   * fails naming the first of them. Scan errors come first, and the default
   * mode returns the unknown flags.
   */
  lemma StrictMode(options: Options, argv: seq<string>)
    ensures var lax := ParseArgvRun(options, argv, DefaultConfig);
      var strict := ParseArgvRun(options, argv, ParserConfig(true));
      lax == Scan(Entries(options), argv, NoResult)
      && (if lax.outcome.Parsed? && lax.outcome.result.unknownOptions != []
          then strict == Run(Failed(UnknownOption(lax.outcome.result.unknownOptions[0])), [])
          else strict == lax)
  {
  }

  /** The flag strict mode names is a token of the input that starts with `-` and matches no option. */
  lemma StrictNamesUnmatchedFlag(options: Options, argv: seq<string>)
    ensures var r := ParseArgvRun(options, argv, ParserConfig(true));
      r.outcome.Failed? && r.outcome.error.UnknownOption? ==>
        var t := r.outcome.error.token;
        t in argv && IsOption(t) && FindOptionInFlags(Entries(options), t).None?
  {
    var r := ParseArgvRun(options, argv, ParserConfig(true));
    var scan := Scan(Entries(options), argv, NoResult);
    if scan.outcome.Parsed? && scan.outcome.result.unknownOptions != [] {
      ScanKeepsUnknowns(Entries(options), argv, NoResult);
      var u := scan.outcome.result.unknownOptions;
      assert u == [] + UnmatchedFlags(Entries(options), argv);
      assert u[0] in u;
    } else if r.outcome.Failed? && r.outcome.error.UnknownOption? {
      // a scan never throws UnknownOption itself
      ScanNeverThrowsUnknown(Entries(options), argv, NoResult);
    }
  }

  lemma {:induction false} ScanNeverThrowsUnknown(schema: Schema, argv: seq<string>, acc: ParseResult)
    ensures var r := Scan(schema, argv, acc);
      r.outcome.Failed? ==> !r.outcome.error.UnknownOption?
    decreases |argv|
  {
    if argv != [] {
      var s := StepAt(schema, argv);
      if s.action.Stuck? {
        ScanUnfold(schema, argv, acc);
      } else {
        ScanTakes(schema, argv, acc, s.action, s.taken);
      }
      if !s.action.Stuck? && !s.action.Throw? {
        ScanNeverThrowsUnknown(schema, argv[s.taken..], Apply(acc, s.action));
      } else if s.action.Throw? {
        var i := FindOptionInFlags(schema, argv[0]).value;
        ResolveNeverUnknown(schema[i]);
      }
    }
  }

  lemma ResolveNeverUnknown(o: NamedOption)
    ensures forall flag, value :: Resolve(o, flag, value).Throw? ==> !Resolve(o, flag, value).error.UnknownOption?
  {
  }

  // ----- baseOptions -----

  /**
   * The schema `baseOptions` builds starts with `help` (alias `h`) and
   * `version` (alias `v`), each replaced in place by a user option of the same
   * name, and continues with the other user options in their own order.
   */
  lemma BaseOptionsSchema(options: Options)
    requires Keyed(options)
    ensures WithBuiltins(Some(options))
         == [("help", LookupOr(options, "help", HelpOption)), ("version", LookupOr(options, "version", VersionOption))]
            + Without(options, {"help", "version"})
  {
    assert Keys(Builtins[1..]) == {"version"};
    assert Keyed(Builtins);
    SpreadShape(Builtins, options);
    assert Keys(Builtins) == {"help", "version"};
    assert Builtins[1..][1..] == [];
    assert Overridden(Builtins[1..][1..], options) == [];
    assert Overridden(Builtins[1..], options) == [("version", LookupOr(options, "version", VersionOption))];
    assert Overridden(Builtins, options)
        == [("help", LookupOr(options, "help", HelpOption)), ("version", LookupOr(options, "version", VersionOption))];
  }

  /** Without user options the schema is just the two built-in flags. */
  lemma BaseOptionsWithoutOptions()
    ensures WithBuiltins(None) == Builtins
  {
  }
}
