/**
 * The manifest builders (`ManifestGenerator`, current and legacy): an
 * append-only builder over the `manifest.json` record of a behaviour or
 * resource pack. The uuids the source draws from the `uuid` library are
 * passed in as parameters.
 */
module Manifest {
  import opened Base

  /** One entry of the `modules` list; `language` and `entry` are absent unless given */
  datatype ManifestModule = ManifestModule(
    moduleType: string, uuid: string, version: seq<nat>,
    language: Option<string>, entry: Option<string>)

  /** One entry of the shared `dependencies` list: by `module_name` or by `uuid` */
  datatype Dependency = Dependency(moduleName: Option<string>, uuid: Option<string>, version: string)

  datatype Header = Header(
    name: string, description: string, uuid: string,
    version: seq<nat>, minEngineVersion: seq<nat>)

  /** The manifest record; the three optional sections are created on first use */
  datatype ManifestRecord = ManifestRecord(
    formatVersion: nat, header: Header,
    modules: Option<seq<ManifestModule>>,
    authors: Option<seq<string>>,
    dependencies: Option<seq<Dependency>>)

  /** `min_engine_version` written by the current generator */
  const MinEngine: seq<nat> := [1, 21, 70]
  /** `min_engine_version` written by the legacy generator */
  const LegacyMinEngine: seq<nat> := [1, 20, 80]

  /** The manifest a constructor builds: format 2, version 1.0.0, no optional section */
  function Fresh(name: string, description: string, uuid: string, minEngine: seq<nat>): (m: ManifestRecord)
    ensures m.formatVersion == 2 && m.header.version == [1, 0, 0]
    ensures m.header == Header(name, description, uuid, [1, 0, 0], minEngine)
    ensures m.modules.None? && m.authors.None? && m.dependencies.None?
  {
    ManifestRecord(2, Header(name, description, uuid, [1, 0, 0], minEngine), None, None, None)
  }

  /** A JavaScript optional string argument kept only when truthy (neither null nor empty) */
  function IfTruthy(s: Option<string>): (r: Option<string>)
    ensures r.Some? <==> s.Some? && s.value != ""
    ensures r.Some? ==> r == s
  {
    if s.Some? && s.value != "" then s else None
  }

  /** The module record `addModule` builds */
  function NewModule(moduleType: string, uuid: string, language: Option<string>, entry: Option<string>): (m: ManifestModule)
    ensures m.moduleType == moduleType && m.uuid == uuid && m.version == [1, 0, 0]
    ensures m.language.Some? <==> language.Some? && language.value != ""
    ensures m.entry.Some? <==> entry.Some? && entry.value != ""
    ensures m.language.Some? ==> m.language == language
    ensures m.entry.Some? ==> m.entry == entry
  {
    ManifestModule(moduleType, uuid, [1, 0, 0], IfTruthy(language), IfTruthy(entry))
  }

  /** The list an optional section holds, empty when it was never created */
  function Listed<T>(xs: Option<seq<T>>): seq<T> {
    if xs.Some? then xs.value else []
  }

  /** One call of an add method */
  datatype Call =
    | AddModule(moduleType: string, uuid: string, language: Option<string>, entry: Option<string>)
    | AddAuthor(author: string)
    | AddDependency(moduleName: string, version: string)
    | AddDependencyUuid(uuid: string, version: string)

  /** The manifest after one add call: the section is created if absent and one element pushed */
  function Apply(m: ManifestRecord, c: Call): ManifestRecord {
    match c
    case AddModule(t, u, l, e) => m.(modules := Some(Listed(m.modules) + [NewModule(t, u, l, e)]))
    case AddAuthor(a) => m.(authors := Some(Listed(m.authors) + [a]))
    case AddDependency(n, v) => m.(dependencies := Some(Listed(m.dependencies) + [Dependency(Some(n), None, v)]))
    case AddDependencyUuid(u, v) => m.(dependencies := Some(Listed(m.dependencies) + [Dependency(None, Some(u), v)]))
  }

  /** The manifest after a sequence of add calls, in call order */
  function ApplyAll(m: ManifestRecord, calls: seq<Call>): ManifestRecord {
    if |calls| == 0 then m else Apply(ApplyAll(m, calls[..|calls| - 1]), calls[|calls| - 1])
  }

  /** The modules the calls add, in call order */
  function ModulesOf(calls: seq<Call>): seq<ManifestModule> {
    if |calls| == 0 then []
    else
      var c := calls[|calls| - 1];
      ModulesOf(calls[..|calls| - 1]) + (if c.AddModule? then [NewModule(c.moduleType, c.uuid, c.language, c.entry)] else [])
  }

  /** The authors the calls add, in call order */
  function AuthorsOf(calls: seq<Call>): seq<string> {
    if |calls| == 0 then []
    else
      var c := calls[|calls| - 1];
      AuthorsOf(calls[..|calls| - 1]) + (if c.AddAuthor? then [c.author] else [])
  }

  /** The dependencies both dependency methods add, interleaved in call order */
  function DependenciesOf(calls: seq<Call>): seq<Dependency> {
    if |calls| == 0 then []
    else
      var c := calls[|calls| - 1];
      DependenciesOf(calls[..|calls| - 1]) +
        (if c.AddDependency? then [Dependency(Some(c.moduleName), None, c.version)]
         else if c.AddDependencyUuid? then [Dependency(None, Some(c.uuid), c.version)]
         else [])
  }

  /**
   * No add call touches the format version or the header; each section holds
   * what it held before followed by what the calls added, in call order, and
   * exists afterwards exactly when it existed before or some call added to it.
   */
  lemma ApplyAllSections(m: ManifestRecord, calls: seq<Call>)
    ensures var r := ApplyAll(m, calls);
      r.formatVersion == m.formatVersion && r.header == m.header &&
      Listed(r.modules) == Listed(m.modules) + ModulesOf(calls) &&
      Listed(r.authors) == Listed(m.authors) + AuthorsOf(calls) &&
      Listed(r.dependencies) == Listed(m.dependencies) + DependenciesOf(calls) &&
      (r.modules.Some? <==> m.modules.Some? || ModulesOf(calls) != []) &&
      (r.authors.Some? <==> m.authors.Some? || AuthorsOf(calls) != []) &&
      (r.dependencies.Some? <==> m.dependencies.Some? || DependenciesOf(calls) != [])
  {
    ModulesAfter(m, calls);
    AuthorsAfter(m, calls);
    DependenciesAfter(m, calls);
  }

  /** The header is never changed, and the modules section gains the added modules. */
  lemma {:induction false} ModulesAfter(m: ManifestRecord, calls: seq<Call>)
    ensures var r := ApplyAll(m, calls);
      r.formatVersion == m.formatVersion && r.header == m.header &&
      Listed(r.modules) == Listed(m.modules) + ModulesOf(calls) &&
      (r.modules.Some? <==> m.modules.Some? || ModulesOf(calls) != [])
  {
    if |calls| > 0 {
      var init := calls[..|calls| - 1];
      ModulesAfter(m, init);
      var c := calls[|calls| - 1];
      if c.AddModule? {
        var x := NewModule(c.moduleType, c.uuid, c.language, c.entry);
        assert Listed(m.modules) + ModulesOf(init) + [x] == Listed(m.modules) + (ModulesOf(init) + [x]);
      }
    }
  }

  /** The authors section gains the added authors. */
  lemma {:induction false} AuthorsAfter(m: ManifestRecord, calls: seq<Call>)
    ensures var r := ApplyAll(m, calls);
      Listed(r.authors) == Listed(m.authors) + AuthorsOf(calls) &&
      (r.authors.Some? <==> m.authors.Some? || AuthorsOf(calls) != [])
  {
    if |calls| > 0 {
      var init := calls[..|calls| - 1];
      AuthorsAfter(m, init);
      var c := calls[|calls| - 1];
      if c.AddAuthor? {
        assert Listed(m.authors) + AuthorsOf(init) + [c.author] == Listed(m.authors) + (AuthorsOf(init) + [c.author]);
      }
    }
  }

  /** The dependencies section gains the dependencies of both kinds, in call order. */
  lemma {:induction false} DependenciesAfter(m: ManifestRecord, calls: seq<Call>)
    ensures var r := ApplyAll(m, calls);
      Listed(r.dependencies) == Listed(m.dependencies) + DependenciesOf(calls) &&
      (r.dependencies.Some? <==> m.dependencies.Some? || DependenciesOf(calls) != [])
  {
    if |calls| > 0 {
      var init := calls[..|calls| - 1];
      DependenciesAfter(m, init);
      var c := calls[|calls| - 1];
      if c.AddDependency? || c.AddDependencyUuid? {
        var d := if c.AddDependency? then Dependency(Some(c.moduleName), None, c.version) else Dependency(None, Some(c.uuid), c.version);
        assert Listed(m.dependencies) + DependenciesOf(init) + [d] == Listed(m.dependencies) + (DependenciesOf(init) + [d]);
      }
    }
  }

  /** From a fresh manifest, each section is exactly what the calls added and is absent if nothing was. */
  lemma FreshThenCalls(name: string, description: string, uuid: string, minEngine: seq<nat>, calls: seq<Call>)
    ensures var r := ApplyAll(Fresh(name, description, uuid, minEngine), calls);
      r.formatVersion == 2 && r.header == Header(name, description, uuid, [1, 0, 0], minEngine) &&
      Listed(r.modules) == ModulesOf(calls) && (r.modules.Some? <==> ModulesOf(calls) != []) &&
      Listed(r.authors) == AuthorsOf(calls) && (r.authors.Some? <==> AuthorsOf(calls) != []) &&
      Listed(r.dependencies) == DependenciesOf(calls) && (r.dependencies.Some? <==> DependenciesOf(calls) != [])
  {
    ApplyAllSections(Fresh(name, description, uuid, minEngine), calls);
  }

  /** Every dependency carries exactly one of `module_name` and `uuid`, by the method that added it. */
  lemma {:induction false} DependencyKinds(calls: seq<Call>)
    ensures forall d :: d in DependenciesOf(calls) ==> (d.moduleName.Some? <==> d.uuid.None?)
    ensures (forall c :: c in calls ==> !c.AddDependencyUuid?) ==>
      forall d :: d in DependenciesOf(calls) ==> d.moduleName.Some? && d.uuid.None?
  {
    if |calls| > 0 {
      DependencyKinds(calls[..|calls| - 1]);
      assert forall c :: c in calls[..|calls| - 1] ==> c in calls;
    }
  }

  /** `ManifestGenerator` in src/core/generators/manifestGenerator.ts */
  class ManifestGenerator {
    var mainUUID: string
    var manifest: ManifestRecord
    /** The add calls made so far */
    ghost var calls: seq<Call>
    ghost var initial: ManifestRecord

    ghost predicate Valid()
      reads this
    {
      manifest == ApplyAll(initial, calls) && initial.header.uuid == mainUUID
    }

    constructor (name: string, description: string, mainUUID: string)
      ensures Valid() && calls == []
      ensures this.mainUUID == mainUUID
      ensures manifest == Fresh(name, description, mainUUID, MinEngine)
    {
      this.mainUUID := mainUUID;
      manifest := Fresh(name, description, mainUUID, MinEngine);
      initial := Fresh(name, description, mainUUID, MinEngine);
      calls := [];
    }

    method AddModule(moduleType: string, uuid: string, language: Option<string>, entry: Option<string>)
      requires Valid()
      modifies this
      ensures Valid() && calls == old(calls) + [Call.AddModule(moduleType, uuid, language, entry)]
      ensures mainUUID == old(mainUUID) && initial == old(initial)
      ensures manifest == old(manifest).(modules := Some(Listed(old(manifest).modules) + [NewModule(moduleType, uuid, language, entry)]))
    {
      var listed := if manifest.modules.Some? then manifest.modules.value else [];
      var added := ManifestModule(moduleType, uuid, [1, 0, 0], None, None);
      if language.Some? && language.value != "" {
        added := added.(language := language);
      }
      if entry.Some? && entry.value != "" {
        added := added.(entry := entry);
      }
      manifest := manifest.(modules := Some(listed + [added]));
      calls := calls + [Call.AddModule(moduleType, uuid, language, entry)];
      assert calls[..|calls| - 1] == old(calls);
    }

    method AddAuthor(author: string)
      requires Valid()
      modifies this
      ensures Valid() && calls == old(calls) + [Call.AddAuthor(author)]
      ensures mainUUID == old(mainUUID) && initial == old(initial)
      ensures manifest == old(manifest).(authors := Some(Listed(old(manifest).authors) + [author]))
    {
      if manifest.authors.None? {
        manifest := manifest.(authors := Some([]));
      }
      manifest := manifest.(authors := Some(manifest.authors.value + [author]));
      calls := calls + [Call.AddAuthor(author)];
      assert calls[..|calls| - 1] == old(calls);
    }

    method AddDependency(moduleName: string, version: string)
      requires Valid()
      modifies this
      ensures Valid() && calls == old(calls) + [Call.AddDependency(moduleName, version)]
      ensures mainUUID == old(mainUUID) && initial == old(initial)
      ensures manifest == old(manifest).(dependencies := Some(Listed(old(manifest).dependencies) + [Dependency(Some(moduleName), None, version)]))
    {
      if manifest.dependencies.None? {
        manifest := manifest.(dependencies := Some([]));
      }
      manifest := manifest.(dependencies := Some(manifest.dependencies.value + [Dependency(Some(moduleName), None, version)]));
      calls := calls + [Call.AddDependency(moduleName, version)];
      assert calls[..|calls| - 1] == old(calls);
    }

    method AddDependencyUuid(uuid: string, version: string)
      requires Valid()
      modifies this
      ensures Valid() && calls == old(calls) + [Call.AddDependencyUuid(uuid, version)]
      ensures mainUUID == old(mainUUID) && initial == old(initial)
      ensures manifest == old(manifest).(dependencies := Some(Listed(old(manifest).dependencies) + [Dependency(None, Some(uuid), version)]))
    {
      if manifest.dependencies.None? {
        manifest := manifest.(dependencies := Some([]));
      }
      manifest := manifest.(dependencies := Some(manifest.dependencies.value + [Dependency(None, Some(uuid), version)]));
      calls := calls + [Call.AddDependencyUuid(uuid, version)];
      assert calls[..|calls| - 1] == old(calls);
    }

    /** `generate()`: the manifest built by the calls so far, on top of the fresh one */
    method Generate() returns (m: ManifestRecord)
      requires Valid()
      ensures m == manifest == ApplyAll(initial, calls)
      ensures m.header.uuid == mainUUID
    {
      m := manifest;
      ApplyAllSections(initial, calls);
    }
  }

  /** `ManifestGenerator` in src/models/generators/manifestGenerator.js: no `mainUUID` field and no `addDependencyUUID` */
  class LegacyManifestGenerator {
    var manifest: ManifestRecord
    ghost var calls: seq<Call>
    ghost var initial: ManifestRecord

    ghost predicate Valid()
      reads this
    {
      manifest == ApplyAll(initial, calls) && forall c :: c in calls ==> !c.AddDependencyUuid?
    }

    constructor (name: string, description: string, uuid: string)
      ensures Valid() && calls == []
      ensures manifest == Fresh(name, description, uuid, LegacyMinEngine)
    {
      manifest := Fresh(name, description, uuid, LegacyMinEngine);
      initial := Fresh(name, description, uuid, LegacyMinEngine);
      calls := [];
    }

    method AddModule(moduleType: string, uuid: string, language: Option<string>, entry: Option<string>)
      requires Valid()
      modifies this
      ensures Valid() && calls == old(calls) + [Call.AddModule(moduleType, uuid, language, entry)]
      ensures initial == old(initial)
      ensures manifest == old(manifest).(modules := Some(Listed(old(manifest).modules) + [NewModule(moduleType, uuid, language, entry)]))
    {
      var listed := if manifest.modules.Some? then manifest.modules.value else [];
      var added := ManifestModule(moduleType, uuid, [1, 0, 0], None, None);
      if language.Some? && language.value != "" {
        added := added.(language := language);
      }
      if entry.Some? && entry.value != "" {
        added := added.(entry := entry);
      }
      manifest := manifest.(modules := Some(listed + [added]));
      calls := calls + [Call.AddModule(moduleType, uuid, language, entry)];
      assert calls[..|calls| - 1] == old(calls);
    }

    method AddAuthor(author: string)
      requires Valid()
      modifies this
      ensures Valid() && calls == old(calls) + [Call.AddAuthor(author)]
      ensures initial == old(initial)
      ensures manifest == old(manifest).(authors := Some(Listed(old(manifest).authors) + [author]))
    {
      if manifest.authors.None? {
        manifest := manifest.(authors := Some([]));
      }
      manifest := manifest.(authors := Some(manifest.authors.value + [author]));
      calls := calls + [Call.AddAuthor(author)];
      assert calls[..|calls| - 1] == old(calls);
    }

    method AddDependency(moduleName: string, version: string)
      requires Valid()
      modifies this
      ensures Valid() && calls == old(calls) + [Call.AddDependency(moduleName, version)]
      ensures initial == old(initial)
      ensures manifest == old(manifest).(dependencies := Some(Listed(old(manifest).dependencies) + [Dependency(Some(moduleName), None, version)]))
    {
      if manifest.dependencies.None? {
        manifest := manifest.(dependencies := Some([]));
      }
      manifest := manifest.(dependencies := Some(manifest.dependencies.value + [Dependency(Some(moduleName), None, version)]));
      calls := calls + [Call.AddDependency(moduleName, version)];
      assert calls[..|calls| - 1] == old(calls);
    }

    /** `generate()`; every dependency of the legacy builder names its module */
    method Generate() returns (m: ManifestRecord)
      requires Valid()
      ensures m == manifest == ApplyAll(initial, calls)
      ensures Listed(m.dependencies) == Listed(initial.dependencies) + DependenciesOf(calls)
      ensures forall d :: d in DependenciesOf(calls) ==> d.moduleName.Some? && d.uuid.None?
    {
      m := manifest;
      ApplyAllSections(initial, calls);
      DependencyKinds(calls);
    }
  }
}
