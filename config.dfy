/**
 * The project configuration (`config.json`): the `ConfigManager` read cache
 * over the file, and the `repair` command that fills in missing fields.
 * JSON parsing and printing are parameters: `parse` tells what a text
 * denotes (an object, the value `null`, or no JSON at all, on which
 * `JSON.parse` throws), `render` gives the text written.
 */
module Config {
  import opened Base

  /**
   * The config object: the fields the commands read and write (an absent key
   * is `None`), and every other key (`$schema`, the pack paths, `output`,
   * `awaitWriteFinish`, ...) with the JSON text of its value, carried through
   * untouched to the write.
   */
  datatype Config = Config(
    name: Option<string>, id: Option<string>,
    modules: Option<seq<string>>, description: Option<string>,
    rest: seq<(string, string)>)

  /** `{}` */
  const Empty := Config(None, None, None, None, [])

  /** A JavaScript string field is truthy when present and non-empty. */
  predicate Truthy(s: Option<string>) {
    s.Some? && s.value != ""
  }

  /** `config.modules || []` */
  function ModuleList(c: Config): seq<string> {
    if c.modules.Some? then c.modules.value else []
  }

  /** What `JSON.parse` makes of a text: an object, the value `null`, or a `SyntaxError` */
  datatype Parsed = Object(config: Config) | Null | Invalid

  /** `readFileSync(...) || "{}"`: an empty file is read as the empty object */
  function Text(file: string): string {
    if file == "" then "{}" else file
  }

  /** The manager's state: the cached object and the file text (`None`: no file) */
  datatype Store = Store(cache: Option<Config>, file: Option<string>)

  /**
   * `readConfig`: the cache when set; otherwise `{}` for a missing file, and
   * the parse of the text (`"{}"` for an empty file) for a present one. A
   * text denoting `null` leaves the cache unset and yields `{}`; a text that
   * is not JSON throws (`None`) and leaves the state as it was.
   */
  function Read(s: Store, parse: string -> Parsed): (Store, Option<Config>) {
    if s.cache.Some? then (s, s.cache)
    else if s.file.None? then (s.(cache := Some(Empty)), Some(Empty))
    else
      match parse(Text(s.file.value))
      case Object(c) => (s.(cache := Some(c)), Some(c))
      case Null => (s.(cache := None), Some(Empty))
      case Invalid => (s, None)
  }

  /** `writeConfig(c)`: the file holds the rendering of `c` and the cache holds `c`. */
  function Write(s: Store, c: Config, render: Config -> string): Store {
    Store(Some(c), Some(render(c)))
  }

  /** Once the cache is set, the file is not consulted and nothing changes. */
  lemma CachedRead(s: Store, parse: string -> Parsed, file: Option<string>)
    requires s.cache.Some?
    ensures Read(s.(file := file), parse) == (s.(file := file), s.cache)
  {
  }

  /**
   * Without a cache: a missing file reads as `{}` (cached), an empty one as
   * the parse of `"{}"`; the read throws exactly when the text is not JSON,
   * and then changes nothing.
   */
  lemma UncachedRead(s: Store, parse: string -> Parsed)
    requires s.cache.None?
    ensures s.file.None? ==> Read(s, parse) == (Store(Some(Empty), None), Some(Empty))
    ensures s.file == Some("") ==>
      Read(s, parse).1 == (if parse("{}").Object? then Some(parse("{}").config) else if parse("{}").Null? then Some(Empty) else None) &&
      Read(s, parse).0.cache == (if parse("{}").Object? then Some(parse("{}").config) else None)
    ensures Read(s, parse).1.None? <==> s.file.Some? && parse(Text(s.file.value)).Invalid?
    ensures Read(s, parse).1.None? ==> Read(s, parse).0 == s
    ensures Read(s, parse).0.file == s.file
  {
  }

  /** Two successive reads give the same value and leave the same state. */
  lemma ReadTwice(s: Store, parse: string -> Parsed)
    ensures Read(Read(s, parse).0, parse) == Read(s, parse)
  {
  }

  /** A write makes the next read return what was written, from the cache. */
  lemma WriteThenRead(s: Store, c: Config, render: Config -> string, parse: string -> Parsed)
    ensures Read(Write(s, c, render), parse) == (Write(s, c, render), Some(c))
  {
  }

  /** `ConfigManager`: the static `cache` over the file `./config.json` */
  class ConfigManager {
    var cache: Option<Config>
    var file: Option<string>
    const parse: string -> Parsed
    const render: Config -> string

    function State(): Store
      reads this
    {
      Store(cache, file)
    }

    constructor (file: Option<string>, parse: string -> Parsed, render: Config -> string)
      ensures State() == Store(None, file)
      ensures this.parse == parse && this.render == render
    {
      cache := None;
      this.file := file;
      this.parse := parse;
      this.render := render;
    }

    /** The config read, or `None` when `JSON.parse` throws */
    method ReadConfig() returns (c: Option<Config>)
      modifies this
      ensures (State(), c) == Read(old(State()), parse)
    {
      if cache.Some? {
        return cache;
      }
      if file.None? {
        cache := Some(Empty);
        return cache;
      }
      var parsed := parse(Text(file.value));
      match parsed
      case Object(v) =>
        cache := Some(v);
        c := cache;
      case Null =>
        cache := None;
        c := Some(Empty);
      case Invalid =>
        c := None;
    }

    method WriteConfig(c: Config)
      modifies this
      ensures State() == Write(old(State()), c, render)
    {
      file := Some(render(c));
      cache := Some(c);
    }
  }

  /** A line the command logs */
  datatype Level = Success | Error | Info
  datatype LogLine = LogLine(level: Level, text: string)

  /**
   * The repair of one config: an absent or empty name becomes "default", an
   * absent id the fresh one, absent modules the empty list and an absent
   * description the empty text; the changes name the filled fields in that order.
   */
  function Repair(c: Config, freshId: string): (r: (Config, seq<string>))
    ensures Truthy(r.0.name) && r.0.id.Some? && r.0.modules.Some? && r.0.description.Some?
    ensures r.0.name == (if Truthy(c.name) then c.name else Some("default"))
    ensures r.0.id == (if c.id.Some? then c.id else Some(freshId))
    ensures r.0.modules == (if c.modules.Some? then c.modules else Some([]))
    ensures r.0.description == (if c.description.Some? then c.description else Some(""))
    ensures r.0.rest == c.rest
    ensures r.1 ==
      (if Truthy(c.name) then [] else ["Added name"]) +
      (if c.id.Some? then [] else ["Added an unique id"]) +
      (if c.modules.Some? then [] else ["Added the config array"]) +
      (if c.description.Some? then [] else ["Added an description"])
    ensures r.1 == [] <==> r.0 == c
  {
    var name := if Truthy(c.name) then c.name else Some("default");
    var id := if c.id.Some? then c.id else Some(freshId);
    var modules := if c.modules.Some? then c.modules else Some([]);
    var description := if c.description.Some? then c.description else Some("");
    var changes :=
      (if name == c.name then [] else ["Added name"]) +
      (if id == c.id then [] else ["Added an unique id"]) +
      (if modules == c.modules then [] else ["Added the config array"]) +
      (if description == c.description then [] else ["Added an description"]);
    (Config(name, id, modules, description, c.rest), changes)
  }

  /** A repaired config needs no repair: a second run changes nothing and reports no change. */
  lemma RepairIdempotent(c: Config, freshId: string, otherId: string)
    ensures Repair(Repair(c, freshId).0, otherId) == (Repair(c, freshId).0, [])
  {
  }

  /** What the command logs for the change list */
  function Report(changes: seq<string>): (r: seq<LogLine>)
    ensures changes == [] ==> r == [LogLine(Info, "Config is already up to date and fixed")]
    ensures changes != [] ==>
      |r| == |changes| + 2 &&
      r[..2] == [LogLine(Success, "Succesfully repaired the config!"), LogLine(Info, "Changes made:")] &&
      forall i :: 0 <= i < |changes| ==> r[i + 2] == LogLine(Info, "- " + changes[i])
  {
    if changes == [] then [LogLine(Info, "Config is already up to date and fixed")]
    else [LogLine(Success, "Succesfully repaired the config!"), LogLine(Info, "Changes made:")] + ChangeLines(changes)
  }

  function ChangeLines(changes: seq<string>): (r: seq<LogLine>)
    ensures |r| == |changes|
    ensures forall i :: 0 <= i < |changes| ==> r[i] == LogLine(Info, "- " + changes[i])
  {
    if changes == [] then [] else ChangeLines(changes[..|changes| - 1]) + [LogLine(Info, "- " + changes[|changes| - 1])]
  }

  /** The fields filled in place, in the source's order, with the change list */
  method FillFields(c: Config, freshId: string) returns (r: Config, changes: seq<string>)
    ensures (r, changes) == Repair(c, freshId)
  {
    r := c;
    changes := [];
    if r.name.None? || r.name.value == "" {
      r := r.(name := Some("default"));
      changes := changes + ["Added name"];
    }
    if r.id.None? {
      r := r.(id := Some(freshId));
      changes := changes + ["Added an unique id"];
    }
    if r.modules.None? {
      r := r.(modules := Some([]));
      changes := changes + ["Added the config array"];
    }
    if r.description.None? {
      r := r.(description := Some(""));
      changes := changes + ["Added an description"];
    }
    ghost var expected := Repair(c, freshId).1;
    assert changes == expected;
  }

  /**
   * The `repair` action in src/commands/repair.ts: read, fill, always write,
   * report. When the read throws (`ok` false), nothing is written or logged.
   */
  method RepairAction(manager: ConfigManager, freshId: string) returns (ok: bool, log: seq<LogLine>)
    modifies manager
    ensures var (_, read) := Read(old(manager.State()), manager.parse);
      ok == read.Some? &&
      (read.None? ==> manager.State() == old(manager.State()) && log == []) &&
      (read.Some? ==>
        var (repaired, changes) := Repair(read.value, freshId);
        manager.State() == Store(Some(repaired), Some(manager.render(repaired))) &&
        log == Report(changes))
  {
    var config := manager.ReadConfig();
    if config.None? {
      return false, [];
    }
    var repaired, changes := FillFields(config.value, freshId);
    manager.WriteConfig(repaired);
    ok, log := true, Report(changes);
  }

  /**
   * `readConfig` in src/utils/config.js: no cache and no fallback; `{}` for a
   * missing file, otherwise what the text (`"{}"` for an empty file) parses to.
   */
  function ReadFile(file: Option<string>, parse: string -> Parsed): Parsed {
    if file.None? then Object(Empty) else parse(Text(file.value))
  }

  /**
   * The `repair` action in src/commands/repair.js: the file after the write,
   * and the lines logged. Reading `null` makes `config.name` throw, and text
   * that is not JSON makes the read throw: then nothing is written or logged.
   */
  method LegacyRepairAction(file: Option<string>, parse: string -> Parsed, render: Config -> string, freshId: string)
    returns (written: Option<string>, log: seq<LogLine>)
    ensures written.Some? <==> ReadFile(file, parse).Object?
    ensures !ReadFile(file, parse).Object? ==> log == []
    ensures ReadFile(file, parse).Object? ==>
      var (repaired, changes) := Repair(ReadFile(file, parse).config, freshId);
      written == Some(render(repaired)) && log == Report(changes)
  {
    var config := ReadFile(file, parse);
    if !config.Object? {
      return None, [];
    }
    var repaired, changes := FillFields(config.config, freshId);
    written := Some(render(repaired));
    log := Report(changes);
  }

  /** Repairing twice from the file the first repair wrote reports that the config is up to date. */
  lemma LegacyRepairTwice(file: Option<string>, parse: string -> Parsed, render: Config -> string, id1: string, id2: string)
    requires forall c :: parse(render(c)) == Object(c) && render(c) != ""
    ensures ReadFile(file, parse).Object? ==>
      var first := Repair(ReadFile(file, parse).config, id1).0;
      ReadFile(Some(render(first)), parse) == Object(first) &&
      Repair(first, id2) == (first, []) &&
      Report(Repair(first, id2).1) == [LogLine(Info, "Config is already up to date and fixed")]
  {
    if ReadFile(file, parse).Object? {
      var first := Repair(ReadFile(file, parse).config, id1).0;
      assert parse(render(first)) == Object(first) && render(first) != "";
      RepairIdempotent(ReadFile(file, parse).config, id1, id2);
    }
  }
}
