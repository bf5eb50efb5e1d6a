/**
 * The command registry: a builder object holding the program's name,
 * description, argument array, version, named commands and default command.
 */
module Cli {
  import opened Wrappers
  import opened Types
  import opened Parser

  /** What `command()` gives back: the same instance, or the error it throws. */
  datatype Registration = Registered(cli: Clif) | Refused(message: string)

  /** The names `command()` refuses; each has its own builder method. */
  const ReservedNames: seq<string> := ["version", "help"]

  class Clif {
    var name: string
    var description: Option<string>
    var commands: seq<Types.Command>
    var defaultCommand: Option<Types.Command>
    var version: Option<string>
    var argv: ArgVector

    /** Stores the four settings exactly as given; no command is registered yet. */
    constructor (name: string, description: Option<string>, argv: ArgVector, version: Option<string>)
      ensures this.name == name && this.description == description
      ensures this.argv == argv && this.version == version
      ensures commands == [] && defaultCommand == None
    {
      this.name := name;
      this.description := description;
      this.argv := argv;
      this.version := version;
      commands := [];
      defaultCommand := None;
    }

    /**
     * `command(cmd)`: an unnamed command replaces the default command, the
     * reserved names are refused with nothing changed, and any other command
     * is appended to the named commands (duplicates included).
     */
    method Command(cmd: Types.Command) returns (r: Registration)
      modifies this
      ensures name == old(name) && description == old(description)
      ensures argv == old(argv) && version == old(version)
      ensures cmd.name.None? ==>
        r == Registered(this) && defaultCommand == Some(cmd) && commands == old(commands)
      ensures cmd.name.Some? && cmd.name.value in ReservedNames ==>
        r == Refused("Use cli." + cmd.name.value + "() instead")
        && defaultCommand == old(defaultCommand) && commands == old(commands)
      ensures cmd.name.Some? && cmd.name.value !in ReservedNames ==>
        r == Registered(this) && defaultCommand == old(defaultCommand) && commands == old(commands) + [cmd]
    {
      if cmd.name.None? {
        defaultCommand := Some(cmd);
      } else if cmd.name.value in ReservedNames {
        return Refused("Use cli." + cmd.name.value + "() instead");
      } else {
        commands := commands + [cmd];
      }
      r := Registered(this);
    }

    /** `version(v)`: overwrites the stored version and nothing else. */
    method Version(v: string)
      modifies this`version
      ensures version == Some(v)
      ensures commands == old(commands) && defaultCommand == old(defaultCommand)
    {
      version := Some(v);
    }

    /**
     * `parse(argv)`: with no default command nothing happens; otherwise the
     * tokens are parsed, non-strictly, against the default command's options
     * plus the built-in flags, and the outcome is returned where the source
     * logs it. Named commands are not consulted and no action runs.
     */
    method Parse(argv: ArgVector) returns (r: Option<Outcome>)
      modifies argv
      ensures defaultCommand.None? ==> r == None && argv.items == old(argv.items)
      ensures defaultCommand.Some? ==>
        r.Some? &&
        Run(r.value, argv.items)
          == ParseArgvRun(WithBuiltins(Some(defaultCommand.value.options)), old(argv.items), DefaultConfig)
    {
      if defaultCommand.Some? {
        var o := BaseOptions(argv, Some(defaultCommand.value.options), DefaultConfig);
        r := Some(o);
      } else {
        r := None;
      }
    }
  }
}
