/**
 * The `module add` / `module remove` commands (current and legacy) and the
 * oldest `add` / `remove` commands: guards on the config read, then an
 * append to, or a filter of, the config's module list, then a write. Each
 * command is modelled on the config it read; it returns the config it
 * writes (`None`: nothing is written) and the line it logs.
 */
module ModuleCommand {
  import opened Base
  import opened OrderedMap
  import opened Config
  import Modules

  /** src/commands/module.ts, src/commands/module.js, src/commands/modules.js */
  datatype Variant = Current | Legacy | Oldest

  /** The error for a config without the fields a command needs */
  function NoConfigMessage(v: Variant): string {
    if v == Oldest then "No config file found. Run 'mc init' first."
    else "No config file found. Run \"mc init\" or if you already have a project run \"mc repair\"."
  }

  /** `add` needs a name and an id, except in the oldest variant, which checks only the name. */
  predicate AddGuard(c: Config, v: Variant) {
    Truthy(c.name) && (v == Oldest || Truthy(c.id))
  }

  /** `remove` needs only an id, except in the oldest variant, which checks only the name. */
  predicate RemoveGuard(c: Config, v: Variant) {
    if v == Oldest then Truthy(c.name) else Truthy(c.id)
  }

  /** The config `add` writes: the name pushed at the end of the list */
  function WithModule(c: Config, name: string): Config {
    c.(modules := Some(ModuleList(c) + [name]))
  }

  /** The config `remove` writes: every occurrence of the name filtered out */
  function WithoutModule(c: Config, name: string): Config {
    c.(modules := Some(FilterOut(ModuleList(c), name)))
  }

  /** What `add` writes and logs for the config it read */
  function AddOutcome(config: Config, args: seq<string>, registered: seq<Modules.Entry>, v: Variant): (Option<Config>, LogLine) {
    if !AddGuard(config, v) then (None, LogLine(Error, NoConfigMessage(v)))
    else if |args| == 0 then (None, LogLine(Error, "No module name provided."))
    else if !Modules.AnyNamed(registered, args[0]) then (None, LogLine(Error, "Module " + args[0] + " does not exist."))
    else if args[0] in ModuleList(config) then (None, LogLine(Error, "Module " + args[0] + " is already in the list."))
    else (Some(WithModule(config, args[0])), LogLine(Info, "Added module " + args[0]))
  }

  /**
   * `add` writes exactly when the config has the fields it needs, a name is
   * given, a module by that name exists and the list lacks it; it then
   * appends the name. Each failed guard logs its own error.
   */
  lemma AddCases(config: Config, args: seq<string>, registered: seq<Modules.Entry>, v: Variant)
    ensures var (written, line) := AddOutcome(config, args, registered, v);
      (written.Some? <==>
        AddGuard(config, v) && |args| > 0 && Modules.AnyNamed(registered, args[0]) && args[0] !in ModuleList(config)) &&
      (written.Some? ==>
        written.value == WithModule(config, args[0]) && line == LogLine(Info, "Added module " + args[0])) &&
      (!AddGuard(config, v) ==> line == LogLine(Error, NoConfigMessage(v))) &&
      (AddGuard(config, v) && |args| == 0 ==> line == LogLine(Error, "No module name provided.")) &&
      (AddGuard(config, v) && |args| > 0 && !Modules.AnyNamed(registered, args[0]) ==>
        line == LogLine(Error, "Module " + args[0] + " does not exist.")) &&
      (AddGuard(config, v) && |args| > 0 && Modules.AnyNamed(registered, args[0]) && args[0] in ModuleList(config) ==>
        line == LogLine(Error, "Module " + args[0] + " is already in the list."))
  {
  }

  /** `add`: `registered` stands for the modules `checkIfModuleExists` looks through. */
  method Add(config: Config, args: seq<string>, registered: seq<Modules.Entry>, v: Variant)
    returns (written: Option<Config>, line: LogLine)
    ensures (written, line) == AddOutcome(config, args, registered, v)
  {
    if !Truthy(config.name) || (v != Oldest && !Truthy(config.id)) {
      return None, LogLine(Error, NoConfigMessage(v));
    }
    if |args| == 0 {
      return None, LogLine(Error, "No module name provided.");
    }
    var known := Modules.AnyNamed(registered, args[0]);
    if !known {
      return None, LogLine(Error, "Module " + args[0] + " does not exist.");
    }
    var modules := if config.modules.Some? then config.modules.value else [];
    if args[0] in modules {
      return None, LogLine(Error, "Module " + args[0] + " is already in the list.");
    }
    modules := modules + [args[0]];
    written := Some(config.(modules := Some(modules)));
    line := LogLine(Info, "Added module " + args[0]);
  }

  /** What `remove` writes and logs for the config it read */
  function RemoveOutcome(config: Config, args: seq<string>, v: Variant): (Option<Config>, LogLine) {
    if !RemoveGuard(config, v) then (None, LogLine(Error, NoConfigMessage(v)))
    else if |args| == 0 then (None, LogLine(Error, "No module name provided."))
    else if args[0] !in ModuleList(config) then (None, LogLine(Error, "Module " + args[0] + " is not in the list."))
    else (Some(WithoutModule(config, args[0])), LogLine(Info, "Removed module " + args[0]))
  }

  /**
   * `remove` writes exactly when the config has the field it needs and the
   * named module is listed; it then filters the name out. Each failed guard
   * logs its own error.
   */
  lemma RemoveCases(config: Config, args: seq<string>, v: Variant)
    ensures var (written, line) := RemoveOutcome(config, args, v);
      (written.Some? <==> RemoveGuard(config, v) && |args| > 0 && args[0] in ModuleList(config)) &&
      (written.Some? ==>
        written.value == WithoutModule(config, args[0]) && line == LogLine(Info, "Removed module " + args[0])) &&
      (!RemoveGuard(config, v) ==> line == LogLine(Error, NoConfigMessage(v))) &&
      (RemoveGuard(config, v) && |args| == 0 ==> line == LogLine(Error, "No module name provided.")) &&
      (RemoveGuard(config, v) && |args| > 0 && args[0] !in ModuleList(config) ==>
        line == LogLine(Error, "Module " + args[0] + " is not in the list."))
  {
  }

  /** `remove` */
  method Remove(config: Config, args: seq<string>, v: Variant) returns (written: Option<Config>, line: LogLine)
    ensures (written, line) == RemoveOutcome(config, args, v)
  {
    var guard := if v == Oldest then Truthy(config.name) else Truthy(config.id);
    if !guard {
      return None, LogLine(Error, NoConfigMessage(v));
    }
    if |args| == 0 {
      return None, LogLine(Error, "No module name provided.");
    }
    var modules := if config.modules.Some? then config.modules.value else [];
    if args[0] !in modules {
      return None, LogLine(Error, "Module " + args[0] + " is not in the list.");
    }
    written := Some(config.(modules := Some(FilterOut(modules, args[0]))));
    line := LogLine(Info, "Removed module " + args[0]);
  }

  /**
   * A successful `add` keeps the existing entries in order, puts the name
   * last, and leaves it listed exactly once; nothing else in the config changes.
   */
  lemma AddAppends(c: Config, name: string)
    requires name !in ModuleList(c)
    ensures var l := ModuleList(WithModule(c, name));
      l[..|l| - 1] == ModuleList(c) && l[|l| - 1] == name && |FilterOut(l, name)| == |l| - 1
    ensures WithModule(c, name).(modules := c.modules) == c
  {
    FilterOutAppend(ModuleList(c), [name], name);
    FilterOutAbsent(ModuleList(c), name);
  }

  /** `remove` drops exactly the name: every other entry stays, in its order, and nothing else in the config changes. */
  lemma RemoveFilters(c: Config, name: string)
    ensures WithoutModule(c, name).(modules := c.modules) == c
    ensures forall x :: x in ModuleList(WithoutModule(c, name)) <==> x in ModuleList(c) && x != name
    ensures name !in ModuleList(c) ==> ModuleList(WithoutModule(c, name)) == ModuleList(c)
  {
    forall x {
      FilterOutMembers(ModuleList(c), name, x);
    }
    if name !in ModuleList(c) {
      FilterOutAbsent(ModuleList(c), name);
    }
  }

  /** A successful `add` followed by `remove` of the same name restores the list (defined, if it was absent). */
  lemma AddThenRemove(c: Config, name: string)
    requires name !in ModuleList(c)
    ensures WithoutModule(WithModule(c, name), name) == c.(modules := Some(ModuleList(c)))
  {
    var l := ModuleList(c);
    assert ModuleList(WithModule(c, name)) == l + [name];
    FilterOutAppend(l, [name], name);
    assert FilterOut([name], name) == [];
    FilterOutAbsent(l, name);
    assert FilterOut(l + [name], name) == l + [] == l;
    assert WithoutModule(WithModule(c, name), name).modules == Some(l);
  }
}
