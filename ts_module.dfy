/**
 * The older TypeScript module (`ts`): it registers no activator of its own,
 * cancels the transfer of the files it claims, and carries two
 * activator/handler pairs, one that transpiles `.ts` sources to `.js` and one
 * that swallows `.d.ts` declaration files.
 */
module TsModule {
  import opened Base
  import opened Strings
  import opened Modules
  import Logging

  /** The first pair's activator: a `.ts` source that is not a declaration file */
  predicate IsSource(path: string) {
    !EndsWith(path, ".d.ts") && EndsWith(path, ".ts")
  }

  /** The second pair's activator */
  predicate IsDeclaration(path: string) {
    EndsWith(path, ".d.ts")
  }

  /** The two activators never both fire, and every path ending in `.ts` fires exactly one. */
  lemma ActivatorsPartition(path: string)
    ensures !(IsSource(path) && IsDeclaration(path))
    ensures EndsWith(path, ".ts") <==> IsSource(path) || IsDeclaration(path)
  {
    if IsDeclaration(path) {
      assert path[|path| - 3..] == path[|path| - 5..][2..];
    }
  }

  /** `filePath.replace(/\.ts$/, ".js")` */
  function ToJs(path: string): string {
    if EndsWith(path, ".ts") then path[..|path| - 3] + ".js" else path
  }

  /** The rewrite changes only the final `.ts`, into `.js`, and keeps the length. */
  lemma ToJsShape(path: string)
    requires EndsWith(path, ".ts")
    ensures |ToJs(path)| == |path|
    ensures ToJs(path)[..|path| - 3] == path[..|path| - 3]
    ensures EndsWith(ToJs(path), ".js") && !EndsWith(ToJs(path), ".ts")
  {
    var r := ToJs(path);
    assert r[|r| - 3..] == ".js";
  }

  /** A path without the `.ts` ending is left as it is. */
  lemma ToJsOther(path: string)
    requires !EndsWith(path, ".ts")
    ensures ToJs(path) == path
  {
  }

  /** The first pair's handler: the `.js` path and the transpiler's output for the file's text */
  function Transpiled(transpile: string -> string): Handler {
    path => FileResult(Some(ToJs(path)), Some(transpile(path)))
  }

  /** How the first pair's handler ends, as written */
  datatype HandlerRun = Returned(result: FileResult) | Threw(error: string)

  /**
   * The handler as written: it logs through `ColorLogger.moduleLog` before
   * returning, and `ColorLogger` has no such wrapper.
   */
  function TranspiledAsWritten(transpile: string -> string, path: string): HandlerRun {
    if "moduleLog" in Logging.ColorLoggerWrappers then Returned(Transpiled(transpile)(path))
    else Threw("ColorLogger.moduleLog is not a function")
  }

  /** Every call of the handler as written throws, so no `.ts` source is ever transpiled. */
  lemma TranspiledAsWrittenThrows(transpile: string -> string, path: string)
    ensures TranspiledAsWritten(transpile, path) == Threw("ColorLogger.moduleLog is not a function")
  {
    assert "moduleLog" != "success" && "moduleLog" != "error" && "moduleLog" != "info" && "moduleLog" != "delete";
  }

  /** The handler as intended writes the transpiled text next to the source, under the `.js` name. */
  lemma TranspiledResult(transpile: string -> string, path: string)
    requires IsSource(path)
    ensures var r := Transpiled(transpile)(path);
      r.fileData == Some(transpile(path)) && r.newFilePath.Some? &&
      |r.newFilePath.value| == |path| && EndsWith(r.newFilePath.value, ".js") &&
      r.newFilePath.value[..|path| - 3] == path[..|path| - 3]
  {
    ToJsShape(path);
  }

  function SourcePair(transpile: string -> string): Pair {
    Pair(Some(IsSource), Some(Transpiled(transpile)), None)
  }

  const DeclarationPair: Pair := Pair(Some(IsDeclaration), None, None)

  /** The registered module */
  function Ts(transpile: string -> string): Module {
    Module("ts", Some(true), None, None, false, Some([SourcePair(transpile), DeclarationPair]))
  }

  /** The `ts` pairs with the module's `cancelFileTransfer` filled in */
  function TsFilled(transpile: string -> string): seq<Pair> {
    [SourcePair(transpile).(cancelFileTransfer := Some(true)), DeclarationPair.(cancelFileTransfer := Some(true))]
  }

  /** Selecting `ts` keeps the one registered module. */
  lemma TsSelected(transpile: string -> string)
    ensures Selected([Registered(Ts(transpile))], ["ts"]) == [Registered(Ts(transpile))]
  {
    var es := [Registered(Ts(transpile))];
    assert es[..0] == [];
  }

  /** The first loop: the module with its pairs filled, then those two pairs. */
  lemma TsExpanded(transpile: string -> string)
    ensures Expanded([Registered(Ts(transpile))]) ==
      [Registered(Ts(transpile).(pairs := Some(TsFilled(transpile))))] + AsEntries(TsFilled(transpile))
  {
    var es := [Registered(Ts(transpile))];
    var ps := [SourcePair(transpile), DeclarationPair];
    assert es[..0] == [];
    CleanedAllActive(ps, true, []);
    assert ps + [] == ps;
    assert Cleaned(ps, true) == TsFilled(transpile);
    assert UpdatedAll(es) == [Registered(Ts(transpile).(pairs := Some(TsFilled(transpile))))];
    assert AllPushed(es) == AsEntries(TsFilled(transpile));
  }

  /** The second loop over an activator-less module and two pairs: the module removes itself and the pairs stay. */
  lemma PrunedModuleThenPairs(m: Module, p0: Pair, p1: Pair)
    requires m.activator.None? && p0.activator.Some? && p1.activator.Some?
    ensures Pruned([Registered(m), Pushed(p0), Pushed(p1)], 3) == [Pushed(p0), Pushed(p1)]
  {
    var a := [Registered(m), Pushed(p0), Pushed(p1)];
    assert Pruned(a, 1) == WithoutName(a, Some(m.name));
    assert a[..2][..1] == a[..1] && a[..1][..0] == [];
    assert WithoutName(a[..1], Some(m.name)) == [];
    assert WithoutName(a[..2], Some(m.name)) == [a[1]];
    assert WithoutName(a, Some(m.name)) == [a[1], a[2]];
    assert Pruned(a, 2) == [a[1], a[2]];
  }

  /** After `filterModules(["ts"])` only the two pairs remain, both cancelling the transfer. */
  lemma TsFiltered(transpile: string -> string)
    ensures Filtered([Registered(Ts(transpile))], ["ts"]) ==
      [Pushed(SourcePair(transpile).(cancelFileTransfer := Some(true))), Pushed(DeclarationPair.(cancelFileTransfer := Some(true)))]
  {
    var filled := TsFilled(transpile);
    TsSelected(transpile);
    TsExpanded(transpile);
    assert AsEntries(filled) == [Pushed(filled[0]), Pushed(filled[1])];
    var a := Expanded(Selected([Registered(Ts(transpile))], ["ts"]));
    assert a == [Registered(Ts(transpile).(pairs := Some(filled))), Pushed(filled[0]), Pushed(filled[1])];
    PrunedModuleThenPairs(Ts(transpile).(pairs := Some(filled)), filled[0], filled[1]);
  }

  /**
   * The intended pipeline, with the corrected handler (see TranspiledResult):
   * a declaration file is claimed (its transfer is cancelled) and nothing is
   * written for it; a source file is claimed and its transpiled text is
   * written under the `.js` name. As written, the source handler throws
   * before returning (TranspiledAsWrittenThrows), so no `.js` is written.
   */
  lemma TsProcessFile(transpile: string -> string, path: string)
    ensures var es := Filtered([Registered(Ts(transpile))], ["ts"]);
      (IsDeclaration(path) ==> CancelsTransfer(es, path) && Writes(es, path) == []) &&
      (IsSource(path) ==> CancelsTransfer(es, path) && Writes(es, path) == [(ToJs(path), transpile(path))]) &&
      (!EndsWith(path, ".ts") ==> !CancelsTransfer(es, path) && Writes(es, path) == [])
  {
    TsFiltered(transpile);
    ActivatorsPartition(path);
    var es := Filtered([Registered(Ts(transpile))], ["ts"]);
    WritesOfTwo(es, path);
    if IsDeclaration(path) {
      assert Activated(es[1], path) && Cancels(es[1]);
    } else if IsSource(path) {
      assert Activated(es[0], path) && Cancels(es[0]);
      assert ToJs(path) != "" by {
        ToJsShape(path);
      }
    }
  }

  /** A pass over two entries: the first entry's write, then the second's. */
  lemma WritesOfTwo(es: seq<Entry>, path: string)
    requires |es| == 2
    ensures Writes(es, path) ==
      (if WriteOf(es[0], path).Some? then [WriteOf(es[0], path).value] else []) +
      (if WriteOf(es[1], path).Some? then [WriteOf(es[1], path).value] else [])
    ensures CancelsTransfer(es, path) <==>
      (Activated(es[0], path) && Cancels(es[0])) || (Activated(es[1], path) && Cancels(es[1]))
  {
    assert es[..1] == [es[0]] && es[..1][..0] == [];
    assert Writes(es[..1], path) == (if WriteOf(es[0], path).Some? then [WriteOf(es[0], path).value] else []);
    if Activated(es[0], path) && Cancels(es[0]) {
      assert CancelsTransfer(es, path);
    }
    if Activated(es[1], path) && Cancels(es[1]) {
      assert CancelsTransfer(es, path);
    }
    if CancelsTransfer(es, path) {
      var i :| 0 <= i < |es| && Activated(es[i], path) && Cancels(es[i]);
      assert i == 0 || i == 1;
    }
  }
}
