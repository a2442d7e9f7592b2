# MCPE-Tool core, modelled in Dafny

MCPE-Tool is a command-line tool for Minecraft Bedrock add-on projects, and it comes with a Python localisation script. This project models the sequential logic inside that tool and proves properties about the model. The file system, the network, child processes and the terminal are turned into parameters and results.

The components modelled, one module each:

- **Translate** (`translate.dfy`): the localisation script. It covers the capability set, the locale filter, base codes, `.lang` parsing into an insertion-ordered table, and the per-locale output. It also covers the loop that stops at the first failure. The translator, and the package list it works from, are parameters.
- **Cli / LegacyCli** (`command.dfy`): the fluent command registry, which holds a command table plus a cursor on the current command and subcommand. It also covers the argv parser and the dispatch rule of `execute`, in both the current and the legacy version.
- **Modules** (`module_manager.dfy`) and **TsModule** (`ts_module.dfy`): the module registry. This includes the cancel/write decision of `processFile` and the in-place list surgery of `filterModules`: the splice that skips the next pair, and the final loop over a snapshot. TsModule covers the `.ts`/`.d.ts` activator pairs registered by `src/modules/ts.js`.
- **Color / Logging** (`logger.dfy`): the ANSI colour wrappers, and the logger that collapses repeated messages. The logger appears as both `Logger` and `ColorLogger`.
- **Manifest** (`manifest.dfy`): both manifest builders, as append-only builders over the manifest record.
- **Config** (`config.dfy`), **ModuleCommand** (`module_command.dfy`) and **Fix** (`fix.dfy`): the `ConfigManager` read cache, `repair`, `module add/remove` in three variants, and `fix animationNames`.
- **Build**, **Paths**, **Npm** (`build.dfy`, `paths.dfy`, `npm.dfy`): archive-path rewriting, the path predicates, and the choice of the latest stable version.
- **Questions** (`questioner.dfy`): how the three questioners interpret answers. The terminal is the list of lines typed.
- **Schema** (`schema.dfy`): the converter from a TypeScript interface body to a draft-07 JSON schema. It covers the line parser, which tracks doc comments and counts braces, as well as the type mapping and the required fields.
- **Strings** and **OrderedMap** (`strings.dfy`, `ordered_map.dfy`): shared helpers. OrderedMap models a JavaScript object or a Python dict as a list of entries in insertion order. Assigning to an existing key keeps its position and replaces its value.

Where the source changes state in place, the model uses a class with `modifies` clauses. Examples are the logger, the command registry, the module manager, the manifest generators and the config cache. Each method is tied to a specification function of the old state, and the lemmas about that function carry the properties. Loops in the source are `while`/`for` loops with invariants. Examples are the pair-splicing loop, the renaming loop in `fix`, the answer loop, the `.lang` parser and the schema line parser.

Some points where the code and its documentation disagree. The model follows the code in each case:

- The translation script drops every locale code that contains the substring `en` anywhere, not just the English ones.
- The script copies `en_GB.lang` unconditionally.
- Any exception ends the translation run, and so does a code that is not a capability.
- `src/models/questioner.js` records answers only for `confirm` and `input` questions, like the other two questioners. A question of any other kind records nothing.

## Model

| member | source | states |
|---|---|---|
| Translate.CollectCapabilities | external/translate/translateProject.py:5-9 | the capability set holds exactly the target codes of packages translating from "en" |
| Translate.WithoutEn | external/translate/translateProject.py:18 | the filtered list keeps exactly the entries not containing the substring "en" |
| Translate.BaseCode | external/translate/translateProject.py:22 | the base code is the longest prefix without `_`: the whole entry, or the text before its first underscore |
| Translate.ParseLine | external/translate/translateProject.py:34-39 | a line yields an entry iff it contains `=`; the line stripped of Python whitespace is key, `=`, value, and the key has no `=` (split at the first one) |
| Translate.ParseLineOf | external/translate/translateProject.py:36-39 | parsing `key=value` with an `=`-free key, with any Python whitespace around it (such as the kept line end), gives back that key and value |
| Translate.ParseLang | external/translate/translateProject.py:34-39 | the parse loop builds the table of the lines, and its keys are distinct |
| Translate.TableLastWriteWins | external/translate/translateProject.py:39 | a key maps to the value of its last line |
| Translate.TableKeyOrder | external/translate/translateProject.py:39 | the keys are in order of their first line |
| Translate.LocaleLinesShape | external/translate/translateProject.py:53-60 | a locale's text exists iff every entry translates; then it has one `key=value` line per table entry, in table order |
| Translate.PassThroughKept | external/translate/translateProject.py:55-57 | `pack.name` and `pack.description` keep their English value |
| Translate.TranslateLocale | external/translate/translateProject.py:53-62 | the locale's text is its lines joined by newlines with no trailing newline, or nothing when a translation fails |
| Translate.LocaleFailureSticks | external/translate/translateProject.py:58-60 | one failing entry makes the whole locale fail |
| Translate.LocalesStopAtFirstFailure | external/translate/translateProject.py:46-67 | the loop writes the files of the locales before the first failure and stops there; nothing is written for the failing one |
| Translate.LocalesFailureSticks | external/translate/translateProject.py:63-67 | the locales after a failure do not change the outcome |
| Translate.InstallNeeded | external/translate/translateProject.py:25-28 | the packages installed are exactly those from "en" to a wanted base code, in registry order |
| Translate.CollectBaseCodes | external/translate/translateProject.py:20-23 | the wanted codes are exactly the base codes of the filtered entries |
| Translate.LocaleEntries | external/translate/translateProject.py:30 | the i-th locale entry pairs the i-th filtered name with its base code |
| Translate.ProcessLocales | external/translate/translateProject.py:46-67 | the locale loop writes and fails exactly as the specification function of the loop says |
| Translate.RunScript | external/translate/translateProject.py:1-68 | the installs; `languages.json` and the `en_GB.lang` copy written first; then the locale writes up to the first failure |
| Color.Code | src/core/logger/color.ts:5-35 | every colour's SGR code lies in 30..37 |
| Color.PaintShape | src/models/cli/color.js:5-35 | a painted message is the message length plus 9, `ESC[3dm` before the unchanged message and `ESC[0m` after it |
| Color.UnpaintPaint | src/models/cli/color.js:5-35 | stripping the fixed prefix and suffix recovers the colour and the message |
| Color.PaintInjective | src/core/logger/color.ts:5-35 | different colours or messages give different outputs |
| Logging.RepeatCount | src/core/logger/logger.ts:23-32 | after k identical messages following another message, the count is k-1 and the k-th is shown with the suffix `x` k (unchanged when k is 1) |
| Logging.SecondIsRepeat | src/core/logger/logger.ts:24-26 | repeating the last message keeps it, adds one to the count and shows it with the suffix for the count plus 2 |
| Logging.NewMessageResets | src/core/logger/logger.ts:27-31 | a new message becomes the last one with count 0 and is shown unchanged |
| Logging.Logger.constructor | src/core/logger/logger.ts:10-15 | no last message, count 0, nothing printed |
| Logging.Logger.LogMessage | src/core/logger/logger.ts:23-32 | the repeat state advances and the shown message is printed in the given colour |
| Logging.Logger.Success | src/core/logger/logger.ts:38-40 | the shared repeat state advances, whatever the colour; green output |
| Logging.Logger.Error | src/core/logger/logger.ts:46-48 | the shared repeat state advances, whatever the colour; red output |
| Logging.Logger.Info | src/core/logger/logger.ts:54-56 | the shared repeat state advances, whatever the colour; blue output |
| Logging.Logger.Delete | src/core/logger/logger.ts:62-64 | the shared repeat state advances, whatever the colour; magenta output |
| Logging.Logger.ModuleLog | src/core/logger/logger.ts:70-72 | the shared repeat state advances, whatever the colour; cyan output |
| Logging.ColorLogger.constructor | src/models/cli/colorLogger.js:11-17 | no last message, count 0, nothing printed |
| Logging.ColorLogger.LogMessage | src/models/cli/colorLogger.js:25-34 | the repeat state advances and the shown message is printed in the given colour |
| Logging.ColorLogger.Success | src/models/cli/colorLogger.js:40-42 | shared repeat state; green output |
| Logging.ColorLogger.Error | src/models/cli/colorLogger.js:48-50 | shared repeat state; red output |
| Logging.ColorLogger.Info | src/models/cli/colorLogger.js:56-58 | shared repeat state; blue output |
| Logging.ColorLogger.Delete | src/models/cli/colorLogger.js:64-66 | shared repeat state; magenta output |
| Cli.WithCommand | src/core/cli/command.ts:34-40 | registering a command keeps the registry well formed |
| Cli.CommandInstalls | src/core/cli/command.ts:34-40 | `command(name)` installs a fresh definition, replacing any earlier one, makes it current and clears the subcommand; other commands unchanged |
| Cli.SubCommandInstalls | src/core/cli/command.ts:42-52 | without a current command nothing changes; otherwise an empty subcommand is added or replaced and made current, and everything else is kept |
| Cli.SettingTarget | src/core/cli/command.ts:59-84 | description/action change nothing without a current command, set the current subcommand's field when one is set, else the command's own field |
| Cli.EmptySubCommandSetsCommand | src/core/cli/command.ts:42-84 | after `subCommand("")` the cursor is falsy, so a setting goes to the command itself |
| Cli.Dispatch | src/core/cli/command.ts:114-133 | an unregistered name is reported as such, and only then; a run carries the given args and flags |
| Cli.DispatchCommandAction | src/core/cli/command.ts:119-133 | a command given an action runs that action when no subcommand is asked for |
| Cli.DispatchSubCommandAction | src/core/cli/command.ts:119-133 | a subcommand given an action runs it when that subcommand is asked for |
| Cli.DispatchEmptySubCommand | src/core/cli/command.ts:119-133 | an empty subcommand name dispatches like no subcommand |
| Cli.PositionalsAppend | src/core/cli/command.ts:165-172 | each argument goes to the flags if it starts with `-`, else to the positionals, in order |
| Cli.FlagsPartition | src/core/cli/command.ts:165-172 | flags and positionals split the user arguments: every argument is in exactly one, by its leading `-` |
| Cli.Parse | src/core/cli/command.ts:164-186 | the parse loop separates flags from positionals, then interprets them |
| Cli.InterpretRule | src/core/cli/command.ts:174-185 | help iff there is no positional or the first is empty or `help`; else command, subcommand and the rest of the positionals |
| Cli.ParseSeparatesFlags | src/core/cli/command.ts:164-186 | no flag becomes the command or an argument, and every flag is passed on |
| Cli.Command.constructor | src/core/cli/command.ts:24-27 | the registry starts empty with no cursor |
| Cli.Command.DefineCommand | src/core/cli/command.ts:34-40 | the registry becomes the one with the command installed |
| Cli.Command.DefineSubCommand | src/core/cli/command.ts:42-52 | the registry becomes the one with the subcommand installed |
| Cli.Command.Describe | src/core/cli/command.ts:59-68 | the description is set on the target of the cursor |
| Cli.Command.SetActionOf | src/core/cli/command.ts:75-84 | the action is set on the target of the cursor |
| Cli.Command.Assign | src/core/cli/command.ts:59-84 | the setting is applied to the target of the cursor |
| Cli.Command.Execute | src/core/cli/command.ts:114-133 | the outcome is the dispatch rule's, with the args and flags passed through |
| LegacyCli.Dispatch | src/models/cli/command.js:53-59 | an action runs iff the name is registered with an action; otherwise the not-found message |
| LegacyCli.Interpret | src/models/cli/command.js:75-82 | help iff `argv[2]` is missing, empty or `help`; else `argv[2]` is the command |
| LegacyCli.Command.constructor | src/models/cli/command.js:9-11 | an empty registry and no current command |
| LegacyCli.Command.DefineCommand | src/models/cli/command.js:18-22 | the command becomes current and is (re)set to no description and no action |
| LegacyCli.Command.Describe | src/models/cli/command.js:29-34 | only the current command's description changes; nothing before any command |
| LegacyCli.Command.SetActionOf | src/models/cli/command.js:41-46 | only the current command's action changes; nothing before any command |
| LegacyCli.DefinedThenRuns | src/models/cli/command.js:18-59 | after `command(name).action(fn)`, executing `name` runs `fn` and every other name dispatches as before |
| Modules.AnyNamed | src/core/modules/moduleManager.ts:41-43 | true iff some entry has exactly that name |
| Modules.ProcessModules | src/core/modules/moduleManager.ts:50-66 | the result is true iff an activated entry cancels the transfer; the writes are those of the entries in list order |
| Modules.WritesFrom | src/core/modules/moduleManager.ts:54-61 | every write comes from an activated, cancelling entry whose handler produced data, to `newFilePath` or the original path, and each such entry writes |
| Modules.NonCancellingNeverWrite | src/core/modules/moduleManager.ts:54-61 | entries that do not cancel never write |
| Modules.SelectedExactly | src/core/modules/moduleManager.ts:73 | the kept entries are exactly the requested ones, in order: every kept entry was requested, every requested entry is kept at the position after the kept entries before it, and the count is the input minus the dropped |
| Modules.SelectedPlaces | src/core/modules/moduleManager.ts:73 | every requested entry is kept, after exactly the kept entries that precede it in the input |
| Modules.CleanPairs | src/core/modules/moduleManager.ts:77-85 | the in-place splice loop yields the cleaned pair list |
| Modules.SpliceStep | src/core/modules/moduleManager.ts:78-81 | a splice keeps the loop invariant with the index moved past the pair that slid into place |
| Modules.FillStep | src/core/modules/moduleManager.ts:83-84 | a kept pair inherits the module's flag when its own is undefined |
| Modules.CleanedAllActive | src/core/modules/moduleManager.ts:77-85 | pairs that all have activators are all kept, each with its flag filled in |
| Modules.Fills | src/core/modules/moduleManager.ts:83-84 | every pair gets its flag filled in, position by position |
| Modules.SkipAfterSplice | src/core/modules/moduleManager.ts:77-85 | the pair right after a spliced one is never examined: it is kept as it was, even without an activator |
| Modules.AllPushed | src/core/modules/moduleManager.ts:86 | everything the first loop appends is a pair |
| Modules.StageStep | src/core/modules/moduleManager.ts:75-88 | visiting a module updates it in place and appends its pairs |
| Modules.StageLast | src/core/modules/moduleManager.ts:75-88 | once every selected module is visited, the list is the expanded one |
| Modules.ExpandStep | src/core/modules/moduleManager.ts:75-88 | the loop also visits the pairs it appended, and those change nothing |
| Modules.ExpandModules | src/core/modules/moduleManager.ts:75-88 | the first loop yields the updated modules followed by all their pairs |
| Modules.VisitModule | src/core/modules/moduleManager.ts:76-87 | one iteration keeps the loop invariant |
| Modules.PruneModules | src/core/modules/moduleManager.ts:90-97 | the second loop yields the pruned list and runs the launch hooks of the snapshot |
| Modules.WithoutNameKeeps | src/core/modules/moduleManager.ts:95 | the name filter keeps only entries carrying another name |
| Modules.WithoutNameKeepsOthers | src/core/modules/moduleManager.ts:95 | the name filter keeps every entry carrying another name |
| Modules.PrunedFrom | src/core/modules/moduleManager.ts:90-97 | every survivor comes from the list and shares no name with a visited activator-less entry |
| Modules.PrunedKeeps | src/core/modules/moduleManager.ts:90-97 | an entry whose name no visited activator-less entry carries survives |
| Modules.PruneResult | src/core/modules/moduleManager.ts:90-97 | afterwards no entry lacks an activator, and an entry survives iff no activator-less entry shares its name |
| Modules.InactivePairDropsAll | src/core/modules/moduleManager.ts:90-97 | an activator-less pair (no name) removes every pair |
| Modules.LaunchedAll | src/core/modules/moduleManager.ts:90-97 | every entry of the snapshot with a launch hook has it run, even if the loop removed it |
| Modules.LaunchedOnly | src/core/modules/moduleManager.ts:91-93 | only entries with a launch hook are launched |
| Modules.ModuleManager.constructor | src/core/modules/moduleManager.ts:29-30 | no modules, nothing launched |
| Modules.ModuleManager.AddModule | src/core/modules/moduleManager.ts:36-39 | an empty name is an error and changes nothing; otherwise the module is appended |
| Modules.ModuleManager.CheckIfModuleExists | src/core/modules/moduleManager.ts:41-43 | true iff a registered entry has exactly that name |
| Modules.ModuleManager.ProcessFile | src/core/modules/moduleManager.ts:50-66 | cancel iff an activated entry cancels; the writes of the cancelling entries with data |
| Modules.ModuleManager.FilterModules | src/core/modules/moduleManager.ts:68-98 | the list becomes the filtered one and the snapshot's launch hooks run |
| Modules.LegacyModuleManager.constructor | src/models/files/moduleManager.js:20-24 | no modules, nothing launched |
| Modules.LegacyModuleManager.AddModule | src/models/files/moduleManager.js:30-33 | an empty name is an error; otherwise an append |
| Modules.LegacyModuleManager.CheckIfModuleExists | src/models/files/moduleManager.js:35-37 | true iff some entry has exactly that name |
| Modules.LegacyModuleManager.ProcessFile | src/models/files/moduleManager.js:44-59 | every entry needs an activator (called unguarded); cancel iff an activated entry cancels |
| Modules.LegacyModuleManager.FilterModules | src/models/files/moduleManager.js:61-86 | the filtered list, in which every entry has an activator; the launch hooks run |
| TsModule.ActivatorsPartition | src/modules/ts.js:22-31 | the two activators are exclusive and together accept exactly the paths ending in `.ts` |
| TsModule.ToJsShape | src/modules/ts.js:27 | the new path replaces only the final `.ts` with `.js`; same length |
| TsModule.ToJsOther | src/modules/ts.js:27 | a path not ending in `.ts` is unchanged |
| TsModule.TranspiledAsWrittenThrows | src/modules/ts.js:26 | as written, the handler throws on every call |
| TsModule.TranspiledResult | src/modules/ts.js:23-28 | the intended handler writes the transpiled text under the `.js` name |
| TsModule.TsFiltered | src/modules/ts.js:16-34 | after `filterModules(["ts"])` only the two pairs remain, both cancelling |
| TsModule.TsProcessFile | src/modules/ts.js:16-34 | the intended pipeline, with the corrected handler (TranspiledResult): a `.d.ts` file is cancelled with nothing written; a `.ts` source is cancelled and its `.js` written; other files are untouched |
| TsModule.WritesOfTwo | src/core/modules/moduleManager.ts:50-66 | a pass over two entries writes the first's output, then the second's |
| Manifest.Fresh | src/core/generators/manifestGenerator.ts:47-58 | format version 2, header version 1.0.0, the given uuid and engine version, no optional section |
| Manifest.IfTruthy | src/core/generators/manifestGenerator.ts:77-78 | an optional text is kept iff it is present and non-empty |
| Manifest.NewModule | src/core/generators/manifestGenerator.ts:66-81 | version 1.0.0; `language` and `entry` present iff a non-empty argument was given |
| Manifest.ApplyAllSections | src/core/generators/manifestGenerator.ts:66-119 | the header is never changed; each section is its old contents plus what the calls added, and exists iff it existed or something was added |
| Manifest.ModulesAfter | src/core/generators/manifestGenerator.ts:66-81 | the modules section gains the added modules in call order |
| Manifest.AuthorsAfter | src/core/generators/manifestGenerator.ts:87-95 | the authors list gains the added authors in call order |
| Manifest.DependenciesAfter | src/core/generators/manifestGenerator.ts:102-119 | both dependency methods append to one list in call order |
| Manifest.FreshThenCalls | src/core/generators/manifestGenerator.ts:47-119 | from a fresh manifest, each section is exactly what was added, and absent if nothing was |
| Manifest.DependencyKinds | src/core/generators/manifestGenerator.ts:102-119 | each dependency has exactly one of `module_name` and `uuid`, by the method that added it |
| Manifest.ManifestGenerator.constructor | src/core/generators/manifestGenerator.ts:39-58 | a fresh manifest whose header uuid is `mainUUID`, with engine 1.21.70 |
| Manifest.ManifestGenerator.AddModule | src/core/generators/manifestGenerator.ts:66-81 | one module appended, the section created on first use |
| Manifest.ManifestGenerator.AddAuthor | src/core/generators/manifestGenerator.ts:87-95 | one author appended, metadata created on first use |
| Manifest.ManifestGenerator.AddDependency | src/core/generators/manifestGenerator.ts:102-107 | one dependency by module name appended |
| Manifest.ManifestGenerator.AddDependencyUuid | src/core/generators/manifestGenerator.ts:114-119 | one dependency by uuid appended to the same list |
| Manifest.ManifestGenerator.Generate | src/core/generators/manifestGenerator.ts:125-127 | the manifest built by the calls so far; header uuid is `mainUUID` |
| Manifest.LegacyManifestGenerator.constructor | src/models/generators/manifestGenerator.js:12-27 | a fresh manifest with engine 1.20.80 |
| Manifest.LegacyManifestGenerator.AddModule | src/models/generators/manifestGenerator.js:35-50 | one module appended |
| Manifest.LegacyManifestGenerator.AddAuthor | src/models/generators/manifestGenerator.js:56-64 | one author appended |
| Manifest.LegacyManifestGenerator.AddDependency | src/models/generators/manifestGenerator.js:71-76 | one dependency by module name appended |
| Manifest.LegacyManifestGenerator.Generate | src/models/generators/manifestGenerator.js:82-84 | the built manifest; every dependency names its module |
| Build.Components | src/commands/build.ts:65 | splitting on `/` and `\` gives at least one component |
| Build.RelativePaths | src/commands/build.ts:63-74 | same length; the i-th result is the i-th path made relative to the root |
| Build.RootAbsentOrLast | src/commands/build.ts:68-72 | a path whose root component is absent or only last is unchanged |
| Build.RewrittenHasNoBackslash | src/commands/build.ts:65-72 | a result containing `\` is the unchanged path |
| Build.UnderRoot | src/commands/build.ts:63-74 | a path under the root component yields what follows it |
| Build.JoinFree | src/commands/build.ts:69 | joining pieces free of a character with a separator free of it gives a text free of it |
| Build.SplitAfterJoin | src/commands/build.ts:65 | splitting a joined path gives back its components |
| Build.SplitSlashOnly | src/commands/build.ts:65 | without backslashes, splitting on both separators is splitting on `/` |
| Build.Mappings | src/commands/build.ts:86-91 | each archive entry pairs the file with its relative name at the same index |
| Build.AddonEntries | src/commands/build.ts:121-129 | the `.mcaddon` holds the BP and RP packs under `<name>BP.mcpack` and `<name>RP.mcpack` |
| Paths.ExtensionNeedsNoDot | src/utils/path.ts:7-9 | the extension test is a suffix test: "parts" has extension "ts" |
| Paths.AnyExtensionIff | src/utils/path.ts:17-19 | true iff some listed extension is a suffix |
| Paths.SingleExtension | src/utils/path.ts:17-19 | with one extension it is the single test |
| Paths.MoreExtensions | src/utils/path.ts:17-19 | adding extensions never turns true into false |
| Paths.InDirectoryWhenEnclosed | src/utils/path.ts:27-29 | a path containing `/dir/` or `\dir\` is in the directory |
| Paths.LeadingDirectoryDoesNotCount | src/utils/path.ts:27-29 | a leading `dir/` without a separator before it does not count |
| Npm.StableMembers | src/utils/npm.ts:34 | the stable list holds exactly the entries containing "stable", in order |
| Npm.LastStable | src/utils/npm.ts:34-35 | the chosen version is the last registry entry containing "stable", not a semver maximum |
| Npm.JoinPrefix | src/utils/npm.ts:38 | joining the first fields of a split text gives a prefix of it |
| Npm.TruncatedShape | src/utils/npm.ts:38 | the version is a prefix of the chosen entry with at most two dots |
| Npm.ShortVersionKept | src/utils/npm.ts:38 | an entry with at most two dots is kept whole |
| Npm.LatestPackageVersion | src/utils/npm.ts:28-41 | nothing iff the list could not be fetched; else the truncated version and `name@` the full entry |
| Npm.LegacyLatestPackageVersion | src/utils/npm.js:22-28 | the last stable entry, truncated, and `name@` the full entry |
| Questions.YesRule | src/core/cli/questioner.ts:42-43 | yes iff the answer has `y` or `Y`, or (where accepted) `t` or `T` |
| Questions.YesExamples | src/models/questioner.js:24 | "true" confirms only where `t` counts; "no" never |
| Questions.ConfirmValue | src/core/cli/questioner.ts:38-44 | an empty confirm answer gives the default; otherwise the yes test |
| Questions.InputValue | src/core/cli/questioner.ts:45-46 | the typed text if non-empty, else the default |
| Questions.LastAsked | src/core/cli/questioner.ts:28-48 | the last question recording under a name, or none |
| Questions.LastAnswerWins | src/core/cli/questioner.ts:28-48 | each name holds the answer of the last question asked under it; names never asked are absent |
| Questions.Ask | src/core/cli/questioner.ts:28-48 | the loop fills the answers as the specification function says |
| Questions.Prompt | src/core/cli/questioner.ts:21-52 | answers with `y`/`t` confirmation; the default resolved once |
| Questions.LegacyPrompt | src/models/cli/questioner.js:21-43 | the same answers; defaults must be functions, since one is called for display |
| Questions.YesOnlyPrompt | src/models/questioner.js:12-29 | answers where only `y` confirms |
| Questions.PromptConfirm | src/core/cli/questioner.ts:68-83 | true iff the answer has `y` or `t` in either case; an empty answer is false |
| Config.CachedRead | src/core/config/configManager.ts:38-40 | once cached, reading ignores the file and changes nothing |
| Config.UncachedRead | src/core/config/configManager.ts:42-48 | a missing file reads as `{}` and is cached; an empty file is parsed as `"{}"`; the read throws, changing nothing, exactly when the text is not JSON |
| Config.ReadTwice | src/core/config/configManager.ts:37-49 | two reads give the same value and state |
| Config.WriteThenRead | src/core/config/configManager.ts:55-58 | a write makes the next read return what was written |
| Config.ConfigManager.constructor | src/core/config/configManager.ts:28-30 | no cache |
| Config.ConfigManager.ReadConfig | src/core/config/configManager.ts:37-49 | the read specification on the manager's state, with `None` when `JSON.parse` throws |
| Config.ConfigManager.WriteConfig | src/core/config/configManager.ts:55-58 | the file and the cache both hold the written config |
| Config.Repair | src/commands/repair.ts:9-30 | afterwards the name is non-empty and the other fields defined; present fields kept; changes list the filled fields in order; no change iff nothing to fill; every other key is kept |
| Config.RepairIdempotent | src/commands/repair.ts:12-41 | repairing a repaired config changes nothing and reports no change |
| Config.Report | src/commands/repair.ts:33-41 | "already up to date" for no change, else the success line and one line per change |
| Config.ChangeLines | src/commands/repair.ts:36-38 | one `- change` line per change, in order |
| Config.FillFields | src/commands/repair.ts:9-30 | the field-by-field fill yields the repair |
| Config.RepairAction | src/commands/repair.ts:6-42 | reads, repairs, always writes the whole object (other keys included), and reports the changes; a read that throws writes and logs nothing |
| Config.LegacyRepairAction | src/commands/repair.js:6-42 | writes the repaired config, other keys included, and reports the changes exactly when the file reads as an object; for `null` (`readConfig` has no `{}` fallback) or non-JSON text it throws, writing and logging nothing |
| Config.LegacyRepairTwice | src/commands/repair.js:12-41 | when the first read yields an object, a second repair of the written file reads it back and reports "already up to date" |
| ModuleCommand.AddCases | src/commands/module.ts:10-40 | writes iff the guard holds, a name is given, the module exists and is not listed; then it appends; each failed guard logs its error |
| ModuleCommand.Add | src/commands/module.ts:10-40 | the command writes and logs as the outcome function says, for all three variants; the written object is the one read with the list changed |
| ModuleCommand.RemoveCases | src/commands/module.ts:44-66 | writes iff the guard holds and the name is listed; then it filters; each failed guard logs its error |
| ModuleCommand.Remove | src/commands/module.ts:44-66 | the command writes and logs as the outcome function says; the written object is the one read with the list changed |
| ModuleCommand.AddAppends | src/commands/module.ts:37-39 | the old entries stay in order, the name is last and listed once, nothing else in the object (other keys included) changes |
| ModuleCommand.RemoveFilters | src/commands/module.ts:63-65 | exactly the name is removed, every other entry stays, nothing else in the object changes |
| ModuleCommand.AddThenRemove | src/commands/module.ts:37-65 | add followed by remove restores the list |
| Fix.StemIsTextBeforeDot | src/commands/fix.js:35 | the stem is the file name up to its first dot |
| Fix.BaseNameAfterSeparator | src/commands/fix.js:26 | the base name is the component after the last `/` or `\` |
| Fix.NewNameInjective | src/commands/fix.js:35 | different keys get different new names |
| Fix.RenameLog | src/commands/fix.js:36 | one "Renaming" line per key, in order |
| Fix.RenamedAll | src/commands/fix.js:34-39 | the intended result: every entry renamed, values and order kept |
| Fix.DeleteFront | src/commands/fix.js:38 | deleting the key of the first entry leaves the rest |
| Fix.NewNameFresh | src/commands/fix.js:37 | a new name collides with no pending original and no earlier new name |
| Fix.KeyGone | src/commands/fix.js:38 | a renamed key appears nowhere afterwards |
| Fix.StepShape | src/commands/fix.js:37-38 | one iteration moves the front original to the back under its new name |
| Fix.RenamesAll | src/commands/fix.js:34-39 | with distinct keys and no collision, every key is renamed once, in order |
| Fix.NotIdempotent | src/commands/fix.js:34-39 | running it again renames again |
| Fix.RenamesNext | src/commands/fix.js:34-39 | the loop after one more snapshot key |
| Fix.RenamesWhole | src/commands/fix.js:34-39 | over the whole snapshot, every entry is renamed in order |
| Fix.RenameAnimations | src/commands/fix.js:34-39 | the loop over the key snapshot; with distinct keys and no collision, every entry renamed |
| Fix.FixAnimationNames | src/commands/fix.js:20-42 | no `animations` object: an error and no write; otherwise the whole file is written back with the same top-level keys in the same order, `animations` renamed in place and every other key unchanged |
| Schema.OneLineIff | external/scripts/schema.js:55 | `.+` matches exactly the texts free of line terminators |
| Schema.PropertyFrom | external/scripts/schema.js:55 | a match has a word name and a non-empty type |
| Schema.AfterName | external/scripts/schema.js:55 | a match's name is the word scanned so far |
| Schema.PropertyLine | external/scripts/schema.js:55 | a matched line has a word name and a non-empty type |
| Schema.AfterNameShape | external/scripts/schema.js:55 | after the name: optional `?`, `:`, whitespace, then the type |
| Schema.MarkedShape | external/scripts/schema.js:55 | the type follows the mark and the whitespace |
| Schema.SpacesBefore | external/scripts/schema.js:55 | a text is its leading whitespace plus the trimmed rest |
| Schema.PropertyFromShape | external/scripts/schema.js:55 | a match rebuilds the line from its parts |
| Schema.PropertyLineShape | external/scripts/schema.js:55 | a matched line is name, optional `?`, `:`, whitespace and type |
| Schema.PropertyFromSkip | external/scripts/schema.js:55 | scanning over word characters keeps the match |
| Schema.PropertyLineOf | external/scripts/schema.js:55 | a property line built from its parts, with any whitespace run after the colon, matches them back |
| Schema.NestedFrom | external/scripts/schema.js:83-119 | the nested parse ends within the lines |
| Schema.ParseNestedObject | external/scripts/schema.js:83-119 | the loop yields the nested properties and end index |
| Schema.BraceDeltaTrim | external/scripts/schema.js:90-93 | a line holds the same braces trimmed or not, so the count may be taken on the raw line |
| Schema.NestedLine | external/scripts/schema.js:90-115 | one line of the nested loop: the brace count moves by the line's braces, and the comment and properties step as the specification says |
| Schema.NestedEndGeneral | external/scripts/schema.js:89-95 | the loop ends at the first line where the count reaches 0 |
| Schema.NestedEnd | external/scripts/schema.js:59-68 | a nested object ends where the count starting at 1 first reaches 0, or at the end of the lines |
| Schema.TopStep | external/scripts/schema.js:44-78 | each step of the top loop moves forward |
| Schema.CommentAttaches | external/scripts/schema.js:47-76 | a comment is pending until the next property, which takes it as its description and clears it |
| Schema.ParseProperties | external/scripts/schema.js:38-81 | the loop yields the parsed properties |
| Schema.PutWellKeyed | external/scripts/schema.js:104-113 | adding a word-named property keeps keys words |
| Schema.NestedStepWellKeyed | external/scripts/schema.js:104-113 | a nested step keeps keys words |
| Schema.NestedWellKeyed | external/scripts/schema.js:83-119 | the nested parse keeps keys words |
| Schema.TopStepWellKeyed | external/scripts/schema.js:55-75 | a top step keeps keys words |
| Schema.TopWellKeyed | external/scripts/schema.js:38-81 | the parsed properties and nested ones have word keys |
| Schema.Alternatives | external/scripts/schema.js:161-167 | no more alternatives than pieces |
| Schema.AlternativesFrom | external/scripts/schema.js:161-167 | the alternatives are exactly the non-empty unquoted trimmed pieces, with no quotes left |
| Schema.EnumValuesShape | external/scripts/schema.js:161-167 | the enum values are the non-empty unquoted pieces between the bars |
| Schema.TypeMapping | external/scripts/schema.js:150-171 | number, boolean and `string[]` map to their schema; a union to a string enum; all else to string |
| Schema.RequiredFields | external/scripts/schema.js:173-177 | no more names than properties |
| Schema.RequiredFieldsMembers | external/scripts/schema.js:173-177 | the required names are exactly the properties not marked optional |
| Schema.SchemaKeyNotWord | external/scripts/schema.js:122-126 | `$schema` is never a property name |
| Schema.KeyAbsent | external/scripts/schema.js:122-126 | a key no entry carries is absent |
| Schema.SchemasAt | external/scripts/schema.js:128-145 | one schema per property, at the same position |
| Schema.BuildFromShape | external/scripts/schema.js:121-148 | `$schema` first, then one schema per property in order |
| Schema.BuildShape | external/scripts/schema.js:121-148 | with word-named distinct properties, the map is `$schema` and then each property's schema |
| Schema.GenerateShape | external/scripts/schema.js:20-28 | draft-07, titled after the interface, `$schema` then each property, required exactly the non-optional ones |
| Schema.NestedSchemaShape | external/scripts/schema.js:135-139 | a nested object's map also starts with `$schema` and lists its required properties |
| OrderedMap.GetPut | external/translate/translateProject.py:39 | after assignment the key reads the new value, every other key as before |
| OrderedMap.KeysPut | external/translate/translateProject.py:39 | assignment keeps an existing key's position and appends a new key |
| OrderedMap.FilterOutMembers | src/commands/module.ts:63-65 | filtering removes exactly the given value |
| Strings.LowerContains | src/core/cli/questioner.ts:42-43 | a lower-case letter occurs in the lowered text iff it or its capital occurs |
| Strings.NatToStringRoundTrip | src/core/logger/logger.ts:26 | the decimal rendering of the repeat count reads back as the count |

## Left out

- File, network and console I/O. All file reads and writes, `fetch` and the terminal are inputs and results. The loggers' console is a sequence of printed lines.
- argostranslate (`get_available_packages`, `download`, `install_from_path`, `translate`). The package list and the translator are parameters, and a translation may fail.
- Python text-mode newline translation. The `.lang` text arrives with `\n` line ends.
- Lower-casing is ASCII only; Unicode case folding is not modelled. Whitespace follows each language: JavaScript `trim()` and `\s` use the ECMAScript set, Python `strip()` the `str.isspace` set (which adds U+001C to U+001F and U+0085); `\w` is ASCII in both.
- JSON parsing and printing. Both are parameters. `parse` tells an object, the value `null` and text that is not JSON apart; a JSON text denoting a number, string or array is not modelled. Config keys other than name, id, modules and description are carried as their JSON text (booleans and objects such as `awaitWriteFinish` included) and written back unchanged.
- Key ordering of JavaScript objects. Integer-like keys sort first in JavaScript; the model keeps pure insertion order and has no special `__proto__` key.
- Command loading and `help` output: the file lookup and dynamic `import` in `execute` (src/core/cli/command.ts:100-117), `loadAllCommands`, and the help text.
- Config-cache aliasing in `module add`. The mutation `config.modules ||= []` also changes the cached object when nothing is written; the model does not capture it.
- Defaults and answers. A default given as a function is modelled by the value it returns. readline is the list of typed lines, one per question.
- uuid generation, random ids and `Math.random`. These are parameters.
- Config.Repair: the object key order of the write is not modelled. In JavaScript a field the repair adds goes after the existing keys; `render` receives the four fields and the other keys separately.
- Fix.FixAnimationNames: a truthy `animations` value that is not an object is treated as missing. The source would iterate its keys (none for a number or `true`, the indices of a string or an array).
- Fix.FixAnimationNames: does not model the "File not found" branch of src/commands/fix.js:21-25. A read buffer is always truthy, so the branch is dead.
- Fix.RenameAnimations: states the in-order rename only when the keys are distinct and no new name equals an original key. Otherwise only the loop specification `Renames` is stated, step by step.
- Schema.ParseProperties: the interface-body regex, the file write and the console log of `generateFromFile` (external/scripts/schema.js:4-36) are not modelled. The body is an input.
- Schema.PropertyLine: the regex is matched against trimmed lines, where the hand-written matcher agrees with it. Leading whitespace is never present.
- Schema.ParseNestedObject: follows the code, so a `/** ... */` comment line inside a nested object is not recognised unless it starts with `*`.
- `ts.transpileModule`. It is a parameter (`transpile`).
- Manifest.ManifestGenerator.Generate: returns the manifest as a value. src/core/generators/manifestGenerator.ts:125-127 returns the live `this.manifest`, so later `add*` calls also change a manifest already handed out; that aliasing is not modelled.
- Modules.ModuleManager.ProcessFile: the file handler's write is returned as a list of writes rather than performed.
- TsModule.TsProcessFile: the `.js` write is stated for the corrected handler only. As written, src/modules/ts.js:26 throws before returning, so nothing is written (TranspiledAsWrittenThrows).
- Config.Repair: a field holding JSON `null` cannot be represented. src/commands/repair.ts:12-30 tests `=== undefined`, so the source leaves such a field unrepaired, while the model reads it as absent and fills it.
- The file watcher, transports, plugin modules other than `ts.js`, the build polling loop and zipping, and the init/translate/update/wss/make/get commands. These are event-driven, process-spawning or network code.

## Findings

| source | as written | input that shows it | evidently intended | confidence | as-written member | corrected member |
|---|---|---|---|---|---|---|
| src/modules/ts.js:26 | the `.ts` handler logs through `ColorLogger.moduleLog`, which `src/models/cli/colorLogger.js` does not define | any path ending in `.ts` but not `.d.ts`: the handler throws before returning | log, then return the `.js` path with the transpiled text | high, not executed | TsModule.TranspiledAsWrittenThrows | TsModule.TranspiledResult |
