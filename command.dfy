/**
 * The command-line registry (`Command` with static state): a fluent builder
 * that registers commands and subcommands under a cursor, the argv parser
 * that separates flags from positionals, and the dispatch rule that picks
 * the action to run.
 */
module Cli {
  import opened Base
  import opened Strings
  import opened OrderedMap

  /** An action function; only its identity matters to the registry */
  datatype ActionRef = ActionRef(id: nat)

  datatype SubCommandDef = SubCommandDef(description: string, action: Option<ActionRef>)

  datatype CommandDef = CommandDef(description: string, action: Option<ActionRef>,
                                   subCommands: Option<Entries<string, SubCommandDef>>)

  /** `commands`, the current command (by name) and `currentSubCommand` */
  datatype Registry = Registry(commands: Entries<string, CommandDef>, current: Option<string>,
                               currentSub: Option<string>)

  const Empty := Registry([], None, None)
  const FreshCommand := CommandDef("", None, None)
  const FreshSubCommand := SubCommandDef("", None)

  /** JavaScript truthiness of a `string | null | undefined` */
  predicate Truthy(s: Option<string>) {
    s.Some? && s.value != ""
  }

  /**
   * The cursor points at registered entries: the current command is in the
   * table, and a current subcommand is in that command's subcommand table.
   */
  ghost predicate WellFormed(r: Registry) {
    (r.current.Some? ==> r.current.value in Keys(r.commands)) &&
    (r.currentSub.Some? ==>
      r.current.Some? && r.current.value in Keys(r.commands) &&
      var d := Get(r.commands, r.current.value).value;
      d.subCommands.Some? && r.currentSub.value in Keys(d.subCommands.value))
  }

  /** The definition of the current command */
  function CurrentDef(r: Registry): CommandDef
    requires WellFormed(r) && r.current.Some?
  {
    Get(r.commands, r.current.value).value
  }

  /** The subcommand table, or an empty one when it was never created */
  function SubTable(d: CommandDef): Entries<string, SubCommandDef> {
    if d.subCommands.Some? then d.subCommands.value else []
  }

  /** `command(name)` */
  function WithCommand(r: Registry, name: string): (r': Registry)
    ensures WellFormed(r')
  {
    KeysPut(r.commands, name, FreshCommand);
    Registry(Put(r.commands, name, FreshCommand), Some(name), None)
  }

  /** `subCommand(name)` */
  function WithSubCommand(r: Registry, name: string): Registry
    requires WellFormed(r)
  {
    if r.current.None? then r
    else
      var d := CurrentDef(r);
      Registry(Put(r.commands, r.current.value, d.(subCommands := Some(Put(SubTable(d), name, FreshSubCommand)))),
               r.current, Some(name))
  }

  /** What `description(desc)` or `action(fn)` assigns */
  datatype Setting = SetDescription(desc: string) | SetAction(fn: ActionRef)

  function ApplyToCommand(d: CommandDef, s: Setting): CommandDef {
    match s
    case SetDescription(desc) => d.(description := desc)
    case SetAction(fn) => d.(action := Some(fn))
  }

  function ApplyToSubCommand(d: SubCommandDef, s: Setting): SubCommandDef {
    match s
    case SetDescription(desc) => d.(description := desc)
    case SetAction(fn) => d.(action := Some(fn))
  }

  /** `description(desc)` / `action(fn)`: the current subcommand when it is truthy, else the current command */
  function WithSetting(r: Registry, s: Setting): Registry
    requires WellFormed(r)
  {
    if r.current.None? then r
    else
      var c := r.current.value;
      var d := CurrentDef(r);
      if Truthy(r.currentSub) then
        var subs := d.subCommands.value;
        var sub := Get(subs, r.currentSub.value).value;
        r.(commands := Put(r.commands, c, d.(subCommands := Some(Put(subs, r.currentSub.value, ApplyToSubCommand(sub, s))))))
      else
        r.(commands := Put(r.commands, c, ApplyToCommand(d, s)))
  }

  /** `command(name)` installs a fresh definition, replacing any earlier one, and moves the cursor to it. */
  lemma CommandInstalls(r: Registry, name: string, k: string)
    ensures var r' := WithCommand(r, name);
      WellFormed(r') &&
      r'.current == Some(name) && r'.currentSub == None &&
      Get(r'.commands, k) == if k == name then Some(FreshCommand) else Get(r.commands, k)
  {
    GetPut(r.commands, name, FreshCommand, k);
    KeysPut(r.commands, name, FreshCommand);
  }

  /**
   * `subCommand(name)` changes nothing without a current command; otherwise it
   * adds or replaces an empty entry in the current command's subcommand table,
   * leaves everything else as it was and makes the entry current.
   */
  lemma SubCommandInstalls(r: Registry, name: string, k: string, other: string)
    requires WellFormed(r)
    ensures r.current.None? ==> WithSubCommand(r, name) == r
    ensures r.current.Some? ==>
      var r' := WithSubCommand(r, name);
      var c := r.current.value;
      WellFormed(r') &&
      r'.current == r.current && r'.currentSub == Some(name) &&
      CurrentDef(r').description == CurrentDef(r).description &&
      CurrentDef(r').action == CurrentDef(r).action &&
      Get(SubTable(CurrentDef(r')), k) == (if k == name then Some(FreshSubCommand) else Get(SubTable(CurrentDef(r)), k)) &&
      (other != c ==> Get(r'.commands, other) == Get(r.commands, other))
  {
    if r.current.Some? {
      var c := r.current.value;
      var d := CurrentDef(r);
      var d' := d.(subCommands := Some(Put(SubTable(d), name, FreshSubCommand)));
      GetPut(r.commands, c, d', c);
      GetPut(r.commands, c, d', other);
      KeysPut(r.commands, c, d');
      GetPut(SubTable(d), name, FreshSubCommand, k);
      KeysPut(SubTable(d), name, FreshSubCommand);
    }
  }

  /**
   * `description`/`action` change nothing without a current command; with a
   * truthy current subcommand they set that subcommand's field only, otherwise
   * the command's own field; the cursor and all other entries stay as they were.
   */
  lemma SettingTarget(r: Registry, s: Setting, k: string, other: string)
    requires WellFormed(r)
    ensures r.current.None? ==> WithSetting(r, s) == r
    ensures r.current.Some? ==>
      var r' := WithSetting(r, s);
      var c := r.current.value;
      WellFormed(r') &&
      r'.current == r.current && r'.currentSub == r.currentSub &&
      (other != c ==> Get(r'.commands, other) == Get(r.commands, other)) &&
      (Truthy(r.currentSub) ==>
        CurrentDef(r').description == CurrentDef(r).description &&
        CurrentDef(r').action == CurrentDef(r).action &&
        Get(SubTable(CurrentDef(r')), k) ==
          (if k == r.currentSub.value then Some(ApplyToSubCommand(Get(SubTable(CurrentDef(r)), k).value, s))
           else Get(SubTable(CurrentDef(r)), k))) &&
      (!Truthy(r.currentSub) ==> CurrentDef(r') == ApplyToCommand(CurrentDef(r), s))
  {
    if r.current.Some? {
      var c := r.current.value;
      var d := CurrentDef(r);
      if Truthy(r.currentSub) {
        var subs := d.subCommands.value;
        var name := r.currentSub.value;
        var sub := Get(subs, name).value;
        var d' := d.(subCommands := Some(Put(subs, name, ApplyToSubCommand(sub, s))));
        GetPut(r.commands, c, d', c);
        GetPut(r.commands, c, d', other);
        KeysPut(r.commands, c, d');
        GetPut(subs, name, ApplyToSubCommand(sub, s), k);
        KeysPut(subs, name, ApplyToSubCommand(sub, s));
      } else {
        var d' := ApplyToCommand(d, s);
        GetPut(r.commands, c, d', c);
        GetPut(r.commands, c, d', other);
        KeysPut(r.commands, c, d');
      }
    }
  }

  /** `subCommand("")` leaves a falsy cursor, so a following setting goes to the command itself. */
  lemma EmptySubCommandSetsCommand(r: Registry, s: Setting)
    requires WellFormed(r) && r.current.Some?
    ensures var r' := WithSubCommand(r, "");
      WellFormed(r') && r'.current.Some? && WellFormed(WithSetting(r', s)) && WithSetting(r', s).current.Some? &&
      CurrentDef(WithSetting(r', s)) == ApplyToCommand(CurrentDef(r'), s)
  {
    SubCommandInstalls(r, "", "", "");
    SettingTarget(WithSubCommand(r, ""), s, "", "");
  }

  /** The errors `execute` reports once the command file is loaded */
  datatype CliError =
    | NotRegistered(name: string)
    | SubCommandNotFound(sub: string, name: string)
    | RequiresSubCommand(name: string)

  function Message(e: CliError): string {
    match e
    case NotRegistered(name) => "Command \"" + name + "\" not registered properly."
    case SubCommandNotFound(sub, name) => "Subcommand \"" + sub + "\" not found for command \"" + name + "\"."
    case RequiresSubCommand(name) => "Command \"" + name + "\" requires a subcommand."
  }

  /** The result of `execute`: the action run with the arguments, or the error logged */
  datatype Outcome = Run(fn: ActionRef, args: seq<string>, flags: seq<string>) | Failed(error: CliError)

  /** The dispatch rule of `execute` */
  function Dispatch(commands: Entries<string, CommandDef>, name: string, sub: Option<string>,
                    args: seq<string>, flags: seq<string>): (o: Outcome)
    ensures o == Failed(NotRegistered(name)) <==> name !in Keys(commands)
    ensures o.Run? ==> o.args == args && o.flags == flags
  {
    match Get(commands, name)
    case None => Failed(NotRegistered(name))
    case Some(d) =>
      if Truthy(sub) && d.subCommands.Some? then
        var entry := Get(d.subCommands.value, sub.value);
        if entry.Some? && entry.value.action.Some? then Run(entry.value.action.value, args, flags)
        else Failed(SubCommandNotFound(sub.value, name))
      else if d.action.Some? then Run(d.action.value, args, flags)
      else Failed(RequiresSubCommand(name))
  }

  /** A registered command with an action and no subcommands runs that action with the arguments and flags given. */
  lemma DispatchCommandAction(r: Registry, name: string, fn: ActionRef, sub: Option<string>,
                              args: seq<string>, flags: seq<string>)
    ensures var r' := WithSetting(WithCommand(r, name), SetAction(fn));
      Dispatch(r'.commands, name, sub, args, flags) == Run(fn, args, flags)
  {
    var r1 := WithCommand(r, name);
    CommandInstalls(r, name, name);
    SettingTarget(r1, SetAction(fn), name, name);
  }

  /**
   * A command built as `command(name).subCommand(sub).action(fn)` runs `fn`
   * for that subcommand, reports any other truthy subcommand as not found, and
   * without a truthy subcommand reports that one is required.
   */
  lemma DispatchSubCommandAction(r: Registry, name: string, sub: string, fn: ActionRef, given: Option<string>,
                                 args: seq<string>, flags: seq<string>)
    requires sub != ""
    ensures WellFormed(WithSubCommand(WithCommand(r, name), sub))
    ensures var r' := WithSetting(WithSubCommand(WithCommand(r, name), sub), SetAction(fn));
      Dispatch(r'.commands, name, given, args, flags) ==
        if given == Some(sub) then Run(fn, args, flags)
        else if Truthy(given) then Failed(SubCommandNotFound(given.value, name))
        else Failed(RequiresSubCommand(name))
  {
    var r1 := WithCommand(r, name);
    CommandInstalls(r, name, name);
    var r2 := WithSubCommand(r1, sub);
    var k := if given.Some? then given.value else sub;
    SubCommandInstalls(r1, sub, k, name);
    assert SubTable(CurrentDef(r1)) == [];
    SettingTarget(r2, SetAction(fn), k, name);
  }

  /** An empty subcommand argument dispatches exactly as no subcommand. */
  lemma DispatchEmptySubCommand(commands: Entries<string, CommandDef>, name: string,
                                args: seq<string>, flags: seq<string>)
    ensures Dispatch(commands, name, Some(""), args, flags) == Dispatch(commands, name, None, args, flags)
  {
  }

  /** `arg.startsWith("-")` */
  predicate IsFlag(arg: string) {
    StartsWith(arg, "-")
  }

  /** The arguments `filter` keeps */
  function Positionals(xs: seq<string>): seq<string> {
    if |xs| == 0 then [] else (if IsFlag(xs[0]) then [] else [xs[0]]) + Positionals(xs[1..])
  }

  /** The arguments the `filter` callback pushes onto `flags` */
  function Flags(xs: seq<string>): seq<string> {
    if |xs| == 0 then [] else (if IsFlag(xs[0]) then [xs[0]] else []) + Flags(xs[1..])
  }

  /** `argv.slice(2)` */
  function UserArgs(argv: seq<string>): seq<string> {
    if |argv| <= 2 then [] else argv[2..]
  }

  lemma {:induction false} PositionalsAppend(xs: seq<string>, x: string)
    ensures Positionals(xs + [x]) == Positionals(xs) + (if IsFlag(x) then [] else [x])
    ensures Flags(xs + [x]) == Flags(xs) + (if IsFlag(x) then [x] else [])
  {
    if |xs| > 0 {
      PositionalsAppend(xs[1..], x);
      assert (xs + [x])[1..] == xs[1..] + [x];
    } else {
      assert xs + [x] == [x];
    }
  }

  /** Every argument lands in exactly one of the two lists: flags are the ones starting with `-`. */
  lemma {:induction false} FlagsPartition(xs: seq<string>, x: string)
    ensures x in Flags(xs) <==> x in xs && IsFlag(x)
    ensures x in Positionals(xs) <==> x in xs && !IsFlag(x)
    ensures |Flags(xs)| + |Positionals(xs)| == |xs|
  {
    if |xs| > 0 {
      FlagsPartition(xs[1..], x);
      assert xs == [xs[0]] + xs[1..];
    }
  }

  /** What `parse` does once flags are separated */
  datatype Invocation =
    | Help
    | Execute(command: string, subCommand: Option<string>, args: seq<string>, flags: seq<string>)

  /** `parse` after the filter: command, subcommand, the rest, and the help rule */
  function Interpret(positionals: seq<string>, flags: seq<string>): Invocation {
    var commandName := if |positionals| > 0 then Some(positionals[0]) else None;
    var sub := if |positionals| > 1 then Some(positionals[1]) else None;
    var rest := if Truthy(sub) then positionals[2..] else if |positionals| > 0 then positionals[1..] else [];
    if !Truthy(commandName) || commandName == Some("help") then Help
    else Execute(commandName.value, sub, rest, flags)
  }

  /** `parse(argv)`: the filter loop, then the choice between help and execute */
  method Parse(argv: seq<string>) returns (inv: Invocation)
    ensures inv == Interpret(Positionals(UserArgs(argv)), Flags(UserArgs(argv)))
  {
    var input := UserArgs(argv);
    var flags: seq<string> := [];
    var args: seq<string> := [];
    for i := 0 to |input|
      invariant args == Positionals(input[..i])
      invariant flags == Flags(input[..i])
    {
      PositionalsAppend(input[..i], input[i]);
      assert input[..i + 1] == input[..i] + [input[i]];
      if StartsWith(input[i], "-") {
        flags := flags + [input[i]];
      } else {
        args := args + [input[i]];
      }
    }
    assert input[..|input|] == input;
    var commandName := if |args| > 0 then Some(args[0]) else None;
    var sub := if |args| > 1 then Some(args[1]) else None;
    if Truthy(sub) {
      args := args[2..];
    } else if |args| > 0 {
      args := args[1..];
    }
    if !Truthy(commandName) || commandName == Some("help") {
      inv := Help;
    } else {
      inv := Execute(commandName.value, sub, args, flags);
    }
  }

  /**
   * Help is shown exactly when there is no positional, or the first is empty
   * or `help`; otherwise the first two positionals are the command and
   * subcommand, and the arguments are what follows them (what follows the
   * command alone when the second positional is missing or empty).
   */
  lemma InterpretRule(positionals: seq<string>, flags: seq<string>)
    ensures Interpret(positionals, flags).Help? <==>
      |positionals| == 0 || positionals[0] == "" || positionals[0] == "help"
    ensures Interpret(positionals, flags).Execute? ==>
      var inv := Interpret(positionals, flags);
      inv.command == positionals[0] && inv.flags == flags &&
      (|positionals| >= 2 && positionals[1] != "" ==> inv.subCommand == Some(positionals[1]) && inv.args == positionals[2..]) &&
      (|positionals| < 2 ==> inv.subCommand == None && inv.args == []) &&
      (|positionals| >= 2 && positionals[1] == "" ==> inv.subCommand == Some("") && inv.args == positionals[1..])
  {
  }

  /** No flag reaches the command or its arguments, and every flag is passed on. */
  lemma ParseSeparatesFlags(argv: seq<string>, x: string)
    ensures var inv := Interpret(Positionals(UserArgs(argv)), Flags(UserArgs(argv)));
      inv.Execute? ==>
        !IsFlag(inv.command) && (x in inv.args ==> !IsFlag(x)) &&
        (x in inv.flags <==> x in UserArgs(argv) && IsFlag(x))
  {
    var ps := Positionals(UserArgs(argv));
    FlagsPartition(UserArgs(argv), x);
    if |ps| > 0 {
      FlagsPartition(UserArgs(argv), ps[0]);
    }
    var inv := Interpret(ps, Flags(UserArgs(argv)));
    if inv.Execute? && x in inv.args {
      assert x in ps;
    }
  }

  /** `Command` itself: the registry and its cursor as static fields */
  class Command {
    var commands: Entries<string, CommandDef>
    var currentCommand: Option<string>
    var currentSubCommand: Option<string>

    function State(): Registry
      reads this
    {
      Registry(commands, currentCommand, currentSubCommand)
    }

    ghost predicate Valid()
      reads this
    {
      WellFormed(State())
    }

    constructor ()
      ensures State() == Empty && Valid()
    {
      commands := [];
      currentCommand := None;
      currentSubCommand := None;
    }

    /** `Command.command(name)` */
    method DefineCommand(name: string)
      requires Valid()
      modifies this
      ensures State() == WithCommand(old(State()), name) && Valid()
    {
      currentSubCommand := None;
      commands := Put(commands, name, FreshCommand);
      currentCommand := Some(name);
      CommandInstalls(old(State()), name, name);
    }

    /** `Command.subCommand(name)` */
    method DefineSubCommand(name: string)
      requires Valid()
      modifies this
      ensures State() == WithSubCommand(old(State()), name) && Valid()
    {
      assert WellFormed(WithSubCommand(State(), name)) by {
        SubCommandInstalls(State(), name, name, name);
      }
      if currentCommand.Some? {
        currentSubCommand := Some(name);
        var d := Get(commands, currentCommand.value).value;
        var subs := if d.subCommands.None? then [] else d.subCommands.value;
        commands := Put(commands, currentCommand.value, d.(subCommands := Some(Put(subs, name, FreshSubCommand))));
      }
    }

    /** `Command.description(desc)` */
    method Describe(desc: string)
      requires Valid()
      modifies this
      ensures State() == WithSetting(old(State()), SetDescription(desc)) && Valid()
    {
      Assign(SetDescription(desc));
    }

    /** `Command.action(fn)` */
    method SetActionOf(fn: ActionRef)
      requires Valid()
      modifies this
      ensures State() == WithSetting(old(State()), SetAction(fn)) && Valid()
    {
      Assign(SetAction(fn));
    }

    method Assign(s: Setting)
      requires Valid()
      modifies this
      ensures State() == WithSetting(old(State()), s) && Valid()
    {
      assert WellFormed(WithSetting(State(), s)) by {
        SettingTarget(State(), s, "", "");
      }
      if currentCommand.Some? {
        var c := currentCommand.value;
        var d := Get(commands, c).value;
        if currentSubCommand.Some? && currentSubCommand.value != "" {
          var subs := d.subCommands.value;
          var sub := Get(subs, currentSubCommand.value).value;
          commands := Put(commands, c, d.(subCommands := Some(Put(subs, currentSubCommand.value, ApplyToSubCommand(sub, s)))));
        } else {
          commands := Put(commands, c, ApplyToCommand(d, s));
        }
      }
    }

    /** The dispatch part of `Command.execute`, in the source's statement form; `Dispatch` is its specification */
    method Execute(name: string, sub: Option<string>, args: seq<string>, flags: seq<string>) returns (o: Outcome)
      ensures o == Dispatch(commands, name, sub, args, flags)
      ensures o.Run? ==> o.args == args && o.flags == flags
    {
      var def := Get(commands, name);
      if def.None? {
        return Failed(NotRegistered(name));
      }
      var d := def.value;
      if sub.Some? && sub.value != "" && d.subCommands.Some? {
        var entry := Get(d.subCommands.value, sub.value);
        if entry.None? || entry.value.action.None? {
          return Failed(SubCommandNotFound(sub.value, name));
        }
        return Run(entry.value.action.value, args, flags);
      } else {
        if d.action.None? {
          return Failed(RequiresSubCommand(name));
        }
        return Run(d.action.value, args, flags);
      }
    }
  }
}

/**
 * The older `Command` instance: one level of commands, a current-command
 * name, dispatch on `argv[2]` only.
 */
module LegacyCli {
  import opened Base
  import opened OrderedMap
  import Cli

  datatype Definition = Definition(description: string, action: Option<Cli.ActionRef>)

  datatype Outcome = Ran(fn: Cli.ActionRef) | NotFound(message: string)

  datatype Invocation = Help | Execute(command: string)

  function NotFoundMessage(name: string): string {
    "Command \"" + name + "\" not found."
  }

  /** `execute(commandName)` */
  function Dispatch(commands: Entries<string, Definition>, name: string): (o: Outcome)
    ensures o.Ran? <==> (exists i :: 0 <= i < |commands| && commands[i].0 == name) && Get(commands, name).value.action.Some?
    ensures o.Ran? ==> Get(commands, name) == Some(Definition(Get(commands, name).value.description, Some(o.fn)))
    ensures o.NotFound? ==> o.message == NotFoundMessage(name)
  {
    var d := Get(commands, name);
    if d.Some? && d.value.action.Some? then Ran(d.value.action.value) else NotFound(NotFoundMessage(name))
  }

  /** `parse(argv)`: `argv[2]` is the command; help when it is missing, empty or `help` */
  function Interpret(argv: seq<string>): (inv: Invocation)
    ensures inv.Help? <==> |argv| <= 2 || argv[2] == "" || argv[2] == "help"
    ensures inv.Execute? ==> inv.command == argv[2]
  {
    if |argv| <= 2 || argv[2] == "" || argv[2] == "help" then Help else Execute(argv[2])
  }

  class Command {
    var commands: Entries<string, Definition>
    var currentCommand: Option<string>

    ghost predicate Valid()
      reads this
    {
      currentCommand.Some? ==> currentCommand.value in Keys(commands)
    }

    /** `new Command()`: an empty registry */
    constructor ()
      ensures commands == [] && currentCommand == None && Valid()
    {
      commands := [];
      currentCommand := None;
    }

    /** `command(name)` */
    method DefineCommand(name: string)
      requires Valid()
      modifies this
      ensures currentCommand == Some(name) && commands == Put(old(commands), name, Definition("", None)) && Valid()
    {
      currentCommand := Some(name);
      commands := Put(commands, name, Definition("", None));
      KeysPut(old(commands), name, Definition("", None));
    }

    /** `description(desc)` and `action(fn)` write to the current entry only, and only when the current name is truthy. */
    method Describe(desc: string)
      requires Valid()
      modifies this
      ensures currentCommand == old(currentCommand) && Valid()
      ensures Cli.Truthy(currentCommand) ==>
        commands == Put(old(commands), currentCommand.value, Get(old(commands), currentCommand.value).value.(description := desc))
      ensures !Cli.Truthy(currentCommand) ==> commands == old(commands)
    {
      if currentCommand.Some? && currentCommand.value != "" {
        var d := Get(commands, currentCommand.value).value;
        commands := Put(commands, currentCommand.value, d.(description := desc));
        KeysPut(old(commands), currentCommand.value, d.(description := desc));
      }
    }

    method SetActionOf(fn: Cli.ActionRef)
      requires Valid()
      modifies this
      ensures currentCommand == old(currentCommand) && Valid()
      ensures Cli.Truthy(currentCommand) ==>
        commands == Put(old(commands), currentCommand.value, Get(old(commands), currentCommand.value).value.(action := Some(fn)))
      ensures !Cli.Truthy(currentCommand) ==> commands == old(commands)
    {
      if currentCommand.Some? && currentCommand.value != "" {
        var d := Get(commands, currentCommand.value).value;
        commands := Put(commands, currentCommand.value, d.(action := Some(fn)));
        KeysPut(old(commands), currentCommand.value, d.(action := Some(fn)));
      }
    }
  }

  /** After `command(name).action(fn)` with a non-empty name, executing `name` runs `fn`; every other name reads as before. */
  lemma DefinedThenRuns(commands: Entries<string, Definition>, name: string, fn: Cli.ActionRef, other: string)
    requires name != ""
    ensures var c1 := Put(commands, name, Definition("", None));
      var c2 := Put(c1, name, Definition("", Some(fn)));
      Dispatch(c2, name) == Ran(fn) &&
      (other != name ==> Dispatch(c2, other) == Dispatch(commands, other))
  {
    var c1 := Put(commands, name, Definition("", None));
    GetPut(commands, name, Definition("", None), name);
    GetPut(commands, name, Definition("", None), other);
    GetPut(c1, name, Definition("", Some(fn)), name);
    GetPut(c1, name, Definition("", Some(fn)), other);
  }
}
