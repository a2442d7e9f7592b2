/**
 * The module pipeline (`ModuleManager`, in its TypeScript and older
 * JavaScript forms): a registry of modules, the per-file pass that lets
 * activated modules rewrite a file and cancel its transfer, and
 * `filterModules`, which keeps the requested modules, flattens their
 * activator/handler pairs into the list and drops every entry without an
 * activator after running the launch hooks.
 */
module Modules {
  import opened Base

  /** `activator(filePath)` */
  type Activator = string -> bool

  /** What `handleFile` returns: `newFilePath` and `fileData`, each possibly undefined */
  datatype FileResult = FileResult(newFilePath: Option<string>, fileData: Option<string>)

  type Handler = string -> FileResult

  /** An activator/handler pair; each field may be missing */
  datatype Pair = Pair(activator: Option<Activator>, handleFile: Option<Handler>, cancelFileTransfer: Option<bool>)

  /** A registered module; `onLaunch` records whether it has a launch hook */
  datatype Module = Module(name: string, cancelFileTransfer: Option<bool>, activator: Option<Activator>,
                           handleFile: Option<Handler>, onLaunch: bool, pairs: Option<seq<Pair>>)

  /** An element of `modules`: a module as registered, or a pair pushed by `filterModules` */
  datatype Entry = Registered(m: Module) | Pushed(p: Pair)

  /** `entry.name`: pairs have none */
  function Name(e: Entry): Option<string> {
    if e.Registered? then Some(e.m.name) else None
  }

  function ActivatorOf(e: Entry): Option<Activator> {
    if e.Registered? then e.m.activator else e.p.activator
  }

  function HandlerOf(e: Entry): Option<Handler> {
    if e.Registered? then e.m.handleFile else e.p.handleFile
  }

  function CancelOf(e: Entry): Option<bool> {
    if e.Registered? then e.m.cancelFileTransfer else e.p.cancelFileTransfer
  }

  predicate Launches(e: Entry) {
    e.Registered? && e.m.onLaunch
  }

  /** `modules.some(module => module.name === name)` */
  function AnyNamed(es: seq<Entry>, name: string): (b: bool)
    ensures b <==> exists i :: 0 <= i < |es| && Name(es[i]) == Some(name)
  {
    if |es| == 0 then false
    else Name(es[0]) == Some(name) || (assert forall i :: 1 <= i < |es| ==> es[1..][i - 1] == es[i]; AnyNamed(es[1..], name))
  }

  // ---------------------------------------------------------------- processFile

  /** `module.activator && module.activator(filePath)` */
  predicate Activated(e: Entry, path: string) {
    ActivatorOf(e).Some? && ActivatorOf(e).value(path)
  }

  predicate Cancels(e: Entry) {
    CancelOf(e) == Some(true)
  }

  /** The handler's result, or `{}` when there is no handler */
  function Handled(e: Entry, path: string): FileResult {
    if HandlerOf(e).Some? then HandlerOf(e).value(path) else FileResult(None, None)
  }

  /** `newFilePath || filePath` */
  function Target(r: FileResult, path: string): string {
    if r.newFilePath.Some? && r.newFilePath.value != "" then r.newFilePath.value else path
  }

  /** The write one entry causes: only an activated, cancelling entry whose handler produced data writes. */
  function WriteOf(e: Entry, path: string): Option<(string, string)> {
    var r := Handled(e, path);
    if Activated(e, path) && Cancels(e) && r.fileData.Some? then Some((Target(r, path), r.fileData.value)) else None
  }

  /** The writes of a pass over `es`, in list order */
  function Writes(es: seq<Entry>, path: string): seq<(string, string)> {
    if |es| == 0 then []
    else
      var w := WriteOf(es[|es| - 1], path);
      Writes(es[..|es| - 1], path) + (if w.Some? then [w.value] else [])
  }

  ghost predicate CancelsTransfer(es: seq<Entry>, path: string) {
    exists i :: 0 <= i < |es| && Activated(es[i], path) && Cancels(es[i])
  }

  /** `processFile(filePath, fileHandler)`: the result and the writes it asks the file handler for */
  method ProcessModules(modules: seq<Entry>, path: string) returns (value: bool, writes: seq<(string, string)>)
    ensures value <==> CancelsTransfer(modules, path)
    ensures writes == Writes(modules, path)
  {
    value := false;
    writes := [];
    for i := 0 to |modules|
      invariant value <==> CancelsTransfer(modules[..i], path)
      invariant writes == Writes(modules[..i], path)
    {
      assert modules[..i + 1][..i] == modules[..i];
      var e := modules[i];
      var activator := ActivatorOf(e);
      if activator.Some? && activator.value(path) {
        var handler := HandlerOf(e);
        var result := if handler.Some? then handler.value(path) else FileResult(None, None);
        if CancelOf(e) == Some(true) {
          if result.fileData.Some? {
            var target := if result.newFilePath.Some? && result.newFilePath.value != "" then result.newFilePath.value else path;
            writes := writes + [(target, result.fileData.value)];
          }
          value := true;
        }
      }
      assert CancelsTransfer(modules[..i + 1], path) <==>
        CancelsTransfer(modules[..i], path) || (Activated(modules[i], path) && Cancels(modules[i])) by {
        if CancelsTransfer(modules[..i + 1], path) && !(Activated(modules[i], path) && Cancels(modules[i])) {
          var j :| 0 <= j < i + 1 && Activated(modules[..i + 1][j], path) && Cancels(modules[..i + 1][j]);
          assert j < i && modules[..i][j] == modules[..i + 1][j];
        }
        if CancelsTransfer(modules[..i], path) {
          var j :| 0 <= j < i && Activated(modules[..i][j], path) && Cancels(modules[..i][j]);
          assert modules[..i + 1][j] == modules[..i][j];
        }
        if Activated(modules[i], path) && Cancels(modules[i]) {
          assert modules[..i + 1][i] == modules[i];
        }
      }
    }
    assert modules[..|modules|] == modules;
  }

  /** Every write comes from one activated, cancelling entry with data, and every such entry writes. */
  lemma {:induction false} WritesFrom(es: seq<Entry>, path: string, w: (string, string))
    ensures w in Writes(es, path) <==> exists i :: 0 <= i < |es| && WriteOf(es[i], path) == Some(w)
  {
    if |es| > 0 {
      var init := es[..|es| - 1];
      WritesFrom(init, path, w);
      if exists i :: 0 <= i < |es| && WriteOf(es[i], path) == Some(w) {
        var i :| 0 <= i < |es| && WriteOf(es[i], path) == Some(w);
        if i < |es| - 1 {
          assert init[i] == es[i];
        }
      }
      if exists i :: 0 <= i < |init| && WriteOf(init[i], path) == Some(w) {
        var i :| 0 <= i < |init| && WriteOf(init[i], path) == Some(w);
        assert es[i] == init[i];
      }
    }
  }

  /** Entries that do not cancel never cause a write, whatever their handlers return. */
  lemma NonCancellingNeverWrite(es: seq<Entry>, path: string)
    requires forall i :: 0 <= i < |es| ==> !Cancels(es[i])
    ensures Writes(es, path) == []
  {
    if Writes(es, path) != [] {
      WritesFrom(es, path, Writes(es, path)[0]);
    }
  }

  // ---------------------------------------------------------------- filterModules

  /** `modules.filter(module => modulesToAdd.includes(module.name))` */
  function Selected(es: seq<Entry>, toAdd: seq<string>): seq<Entry> {
    if |es| == 0 then []
    else
      var last := es[|es| - 1];
      Selected(es[..|es| - 1], toAdd) + (if Name(last).Some? && Name(last).value in toAdd then [last] else [])
  }

  /** The kept entries are the requested ones, in their original order: an entry is kept exactly when its name was asked for. */
  lemma {:induction false} SelectedExactly(es: seq<Entry>, toAdd: seq<string>)
    ensures forall i :: 0 <= i < |Selected(es, toAdd)| ==>
      Name(Selected(es, toAdd)[i]).Some? && Name(Selected(es, toAdd)[i]).value in toAdd
    ensures forall i :: 0 <= i < |es| && Name(es[i]).Some? && Name(es[i]).value in toAdd ==>
      |Selected(es[..i], toAdd)| < |Selected(es, toAdd)| && Selected(es, toAdd)[|Selected(es[..i], toAdd)|] == es[i]
    ensures |Selected(es, toAdd)| == |es| - Dropped(es, toAdd)
  {
    if |es| > 0 {
      SelectedExactly(es[..|es| - 1], toAdd);
    }
    SelectedPlaces(es, toAdd);
  }

  /**
   * Every requested entry is kept, and it lands after exactly the kept
   * entries that precede it, so the original order is preserved.
   */
  lemma {:induction false} SelectedPlaces(es: seq<Entry>, toAdd: seq<string>)
    ensures forall i :: 0 <= i < |es| && Name(es[i]).Some? && Name(es[i]).value in toAdd ==>
      |Selected(es[..i], toAdd)| < |Selected(es, toAdd)| && Selected(es, toAdd)[|Selected(es[..i], toAdd)|] == es[i]
  {
    if |es| > 0 {
      var init := es[..|es| - 1];
      SelectedPlaces(init, toAdd);
      forall i | 0 <= i < |es| && Name(es[i]).Some? && Name(es[i]).value in toAdd
        ensures |Selected(es[..i], toAdd)| < |Selected(es, toAdd)| && Selected(es, toAdd)[|Selected(es[..i], toAdd)|] == es[i]
      {
        if i < |es| - 1 {
          assert es[..i] == init[..i];
          assert init[i] == es[i];
        } else {
          assert es[..i] == init;
        }
      }
    }
  }

  /** How many entries of `es` were not requested */
  function Dropped(es: seq<Entry>, toAdd: seq<string>): nat {
    if |es| == 0 then 0
    else
      var last := es[|es| - 1];
      Dropped(es[..|es| - 1], toAdd) + (if Name(last).Some? && Name(last).value in toAdd then 0 else 1)
  }

  /** `pair.cancelFileTransfer` is filled in from the module when it is undefined. */
  function Fill(p: Pair, inherit: bool): Pair {
    if p.cancelFileTransfer.None? then p.(cancelFileTransfer := Some(inherit)) else p
  }

  /**
   * The pair loop: a pair without an activator is spliced out, and because
   * the index still advances, the pair that moves into its place is passed
   * over untouched.
   */
  function Cleaned(ps: seq<Pair>, inherit: bool): seq<Pair>
    decreases |ps|
  {
    if |ps| == 0 then []
    else if ps[0].activator.None? then
      (if |ps| == 1 then [] else [ps[1]] + Cleaned(ps[2..], inherit))
    else [Fill(ps[0], inherit)] + Cleaned(ps[1..], inherit)
  }

  /**
   * The pair loop's invariant: what is left to produce is the cleaning of the
   * unvisited suffix (once the index has run past the end after a splice at
   * the last position, the list is final).
   */
  ghost predicate PairLoop(pairs: seq<Pair>, ps: seq<Pair>, i: nat, inherit: bool) {
    if i <= |ps| then Cleaned(pairs, inherit) == ps[..i] + Cleaned(ps[i..], inherit)
    else i == |ps| + 1 && Cleaned(pairs, inherit) == ps
  }

  /** The pair loop of `filterModules`, splicing in place */
  method CleanPairs(pairs: seq<Pair>, inherit: bool) returns (ps: seq<Pair>)
    ensures ps == Cleaned(pairs, inherit)
  {
    ps := pairs;
    var i := 0;
    assert ps[..0] == [] && ps[0..] == ps;
    while i < |ps|
      invariant PairLoop(pairs, ps, i, inherit)
      decreases |ps| + 1 - i
    {
      var pair := ps[i];
      if pair.activator.None? {
        SpliceStep(pairs, ps, i, inherit);
        ps := ps[..i] + ps[i + 1..];
        i := i + 1;
        continue;
      }
      FillStep(pairs, ps, i, inherit);
      if pair.cancelFileTransfer.None? {
        ps := ps[i := pair.(cancelFileTransfer := Some(inherit))];
      }
      i := i + 1;
    }
    if i == |ps| {
      assert ps[i..] == [] && ps[..i] == ps;
    }
  }

  /** One splice of the pair loop: the list shrinks and the index moves past the pair that slid into place. */
  lemma SpliceStep(pairs: seq<Pair>, ps: seq<Pair>, i: nat, inherit: bool)
    requires PairLoop(pairs, ps, i, inherit) && i < |ps| && ps[i].activator.None?
    ensures PairLoop(pairs, ps[..i] + ps[i + 1..], i + 1, inherit)
  {
    var ps' := ps[..i] + ps[i + 1..];
    if i + 1 < |ps| {
      assert ps[i..][2..] == ps[i + 2..];
      assert ps'[..i + 1] == ps[..i] + [ps[i + 1]];
      assert ps'[i + 1..] == ps[i + 2..];
    } else {
      assert ps' == ps[..i];
    }
  }

  /** One kept pair of the pair loop: its flag is filled in and the index advances. */
  lemma FillStep(pairs: seq<Pair>, ps: seq<Pair>, i: nat, inherit: bool)
    requires PairLoop(pairs, ps, i, inherit) && i < |ps| && ps[i].activator.Some?
    ensures PairLoop(pairs, ps[i := Fill(ps[i], inherit)], i + 1, inherit)
    ensures ps[i].cancelFileTransfer.Some? ==> ps[i := Fill(ps[i], inherit)] == ps
  {
    var ps' := ps[i := Fill(ps[i], inherit)];
    assert ps[i..][1..] == ps[i + 1..];
    assert ps'[i + 1..] == ps[i + 1..];
    assert ps'[..i + 1] == ps[..i] + [Fill(ps[i], inherit)];
  }

  /** Pairs that all have an activator are all kept, each with its transfer flag filled in. */
  lemma {:induction false} CleanedAllActive(ps: seq<Pair>, inherit: bool, rest: seq<Pair>)
    requires forall i :: 0 <= i < |ps| ==> ps[i].activator.Some?
    ensures |Cleaned(ps + rest, inherit)| == |ps| + |Cleaned(rest, inherit)|
    ensures Cleaned(ps + rest, inherit) == Fills(ps, inherit) + Cleaned(rest, inherit)
    decreases |ps|
  {
    if |ps| == 0 {
      assert ps + rest == rest;
    } else {
      var head := [Fill(ps[0], inherit)];
      assert (ps + rest)[0] == ps[0] && (ps + rest)[1..] == ps[1..] + rest;
      calc {
        Cleaned(ps + rest, inherit);
        head + Cleaned(ps[1..] + rest, inherit);
        { CleanedAllActive(ps[1..], inherit, rest); }
        head + (Fills(ps[1..], inherit) + Cleaned(rest, inherit));
        (head + Fills(ps[1..], inherit)) + Cleaned(rest, inherit);
        Fills(ps, inherit) + Cleaned(rest, inherit);
      }
    }
  }

  function Fills(ps: seq<Pair>, inherit: bool): (r: seq<Pair>)
    ensures |r| == |ps|
    ensures forall i :: 0 <= i < |ps| ==> r[i] == Fill(ps[i], inherit)
  {
    if |ps| == 0 then [] else [Fill(ps[0], inherit)] + Fills(ps[1..], inherit)
  }

  /**
   * After a run of pairs that have activators, a pair without one is removed
   * and the next pair is kept exactly as it was, even when it has no
   * activator or no transfer flag of its own.
   */
  lemma SkipAfterSplice(ps: seq<Pair>, p: Pair, q: Pair, rest: seq<Pair>, inherit: bool)
    requires forall i :: 0 <= i < |ps| ==> ps[i].activator.Some?
    requires p.activator.None?
    ensures Cleaned(ps + [p, q] + rest, inherit) == Fills(ps, inherit) + [q] + Cleaned(rest, inherit)
  {
    CleanedAllActive(ps, inherit, [p, q] + rest);
    assert ps + [p, q] + rest == ps + ([p, q] + rest);
    assert ([p, q] + rest)[2..] == rest;
  }

  /** `module.cancelFileTransfer || false` */
  function Inherited(m: Module): bool {
    m.cancelFileTransfer == Some(true)
  }

  /** A module as it stands after its pair loop (its pair list is spliced in place) */
  function Updated(e: Entry): Entry {
    if e.Registered? && e.m.pairs.Some? then Registered(e.m.(pairs := Some(Cleaned(e.m.pairs.value, Inherited(e.m)))))
    else e
  }

  function AsEntries(ps: seq<Pair>): (r: seq<Entry>)
    ensures |r| == |ps|
    ensures forall i :: 0 <= i < |ps| ==> r[i] == Pushed(ps[i])
  {
    if |ps| == 0 then [] else [Pushed(ps[0])] + AsEntries(ps[1..])
  }

  /** `this.modules.push(...module.activatorHandlerPairs)` for one entry */
  function PushedBy(e: Entry): seq<Entry> {
    if e.Registered? && e.m.pairs.Some? then AsEntries(Cleaned(e.m.pairs.value, Inherited(e.m))) else []
  }

  /** All pushes of the first loop, in order */
  function AllPushed(es: seq<Entry>): (r: seq<Entry>)
    ensures forall i :: 0 <= i < |r| ==> r[i].Pushed?
  {
    if |es| == 0 then [] else AllPushed(es[..|es| - 1]) + PushedBy(es[|es| - 1])
  }

  function UpdatedAll(es: seq<Entry>): (r: seq<Entry>)
    ensures |r| == |es|
  {
    if |es| == 0 then [] else UpdatedAll(es[..|es| - 1]) + [Updated(es[|es| - 1])]
  }

  /** The list after the first loop: the updated modules, then every pushed pair */
  function Expanded(es: seq<Entry>): seq<Entry> {
    UpdatedAll(es) + AllPushed(es)
  }

  lemma {:induction false} AllPushedPrefix(es: seq<Entry>, j: nat)
    requires j <= |es|
    ensures |AllPushed(es[..j])| <= |AllPushed(es)|
    decreases |es|
  {
    if j < |es| {
      assert es[..|es| - 1][..j] == es[..j];
      AllPushedPrefix(es[..|es| - 1], j);
    } else {
      assert es[..j] == es;
    }
  }

  /** The list after the first loop has visited the first `j` selected modules */
  function Stage(selected: seq<Entry>, j: nat): seq<Entry>
    requires j <= |selected|
  {
    UpdatedAll(selected[..j]) + selected[j..] + AllPushed(selected[..j])
  }

  /** Replacing the element between two segments */
  lemma UpdateMiddle<T>(xs: seq<T>, e: T, u: T, ys: seq<T>)
    ensures (xs + [e] + ys)[|xs| := u] == xs + [u] + ys
  {
  }

  lemma Regroup<T>(a: seq<T>, b: seq<T>, c: seq<T>, d: seq<T>)
    ensures a + (b + c) + d == a + b + (c + d)
  {
  }

  /** The list before visiting module `j`: done, current, later, pushed so far */
  lemma StageSplit(selected: seq<Entry>, j: nat)
    requires j < |selected|
    ensures Stage(selected, j) == UpdatedAll(selected[..j]) + [selected[j]] + (selected[j + 1..] + AllPushed(selected[..j]))
    ensures Stage(selected, j + 1) ==
      UpdatedAll(selected[..j]) + [Updated(selected[j])] + (selected[j + 1..] + AllPushed(selected[..j])) + PushedBy(selected[j])
  {
    StageBefore(selected, j);
    StageAfter(selected, j);
  }

  lemma StageBefore(selected: seq<Entry>, j: nat)
    requires j < |selected|
    ensures Stage(selected, j) == UpdatedAll(selected[..j]) + [selected[j]] + (selected[j + 1..] + AllPushed(selected[..j]))
  {
    assert selected[j..] == [selected[j]] + selected[j + 1..];
    Regroup(UpdatedAll(selected[..j]), [selected[j]], selected[j + 1..], AllPushed(selected[..j]));
  }

  lemma StageAfter(selected: seq<Entry>, j: nat)
    requires j < |selected|
    ensures Stage(selected, j + 1) ==
      UpdatedAll(selected[..j]) + [Updated(selected[j])] + (selected[j + 1..] + AllPushed(selected[..j])) + PushedBy(selected[j])
  {
    var e := selected[j];
    assert selected[..j + 1][..j] == selected[..j];
    assert AllPushed(selected[..j + 1]) == AllPushed(selected[..j]) + PushedBy(e);
    assert UpdatedAll(selected[..j + 1]) == UpdatedAll(selected[..j]) + [Updated(e)];
    Regroup(UpdatedAll(selected[..j]) + [Updated(e)], selected[j + 1..], AllPushed(selected[..j]), PushedBy(e));
  }

  /** Visiting the next module updates it in place and appends its pairs. */
  lemma StageStep(selected: seq<Entry>, j: nat)
    requires j < |selected|
    ensures j < |Stage(selected, j)| && Stage(selected, j)[j] == selected[j]
    ensures Stage(selected, j + 1) == Stage(selected, j)[j := Updated(selected[j])] + PushedBy(selected[j])
    ensures |Stage(selected, j + 1)| <= |Expanded(selected)|
  {
    StageSplit(selected, j);
    UpdateMiddle(UpdatedAll(selected[..j]), selected[j], Updated(selected[j]), selected[j + 1..] + AllPushed(selected[..j]));
    AllPushedPrefix(selected, j + 1);
  }

  /** Once every selected module is visited, the list is the expanded one. */
  lemma StageLast(selected: seq<Entry>)
    ensures Stage(selected, |selected|) == Expanded(selected)
    ensures Stage(selected, 0) == selected
  {
    assert selected[..|selected|] == selected;
    assert selected[..0] == [];
  }

  /** The invariant of the first loop */
  ghost predicate ExpandLoop(selected: seq<Entry>, modules: seq<Entry>, j: nat) {
    j <= |modules| <= |Expanded(selected)| &&
    (j <= |selected| ==> modules == Stage(selected, j)) &&
    (j >= |selected| ==> modules == Expanded(selected))
  }

  /** One visit of the first loop keeps its invariant; past the selected modules only pushed pairs are visited. */
  lemma ExpandStep(selected: seq<Entry>, modules: seq<Entry>, j: nat)
    requires ExpandLoop(selected, modules, j) && j < |modules|
    ensures j < |selected| ==>
      modules[j] == selected[j] && ExpandLoop(selected, modules[j := Updated(selected[j])] + PushedBy(selected[j]), j + 1)
    ensures j >= |selected| ==> modules[j].Pushed? && ExpandLoop(selected, modules, j + 1)
  {
    if j < |selected| {
      StageStep(selected, j);
      if j + 1 == |selected| {
        StageLast(selected);
      }
    } else {
      assert modules[j] == AllPushed(selected)[j - |selected|];
    }
  }

  /**
   * The first loop of `filterModules`: a `for…of` over the list it appends
   * to, so it goes on to visit the pushed pairs (which have no pairs of their own).
   */
  method ExpandModules(selected: seq<Entry>) returns (modules: seq<Entry>)
    ensures modules == Expanded(selected)
  {
    StageLast(selected);
    modules := selected;
    var j := 0;
    while j < |modules|
      invariant ExpandLoop(selected, modules, j)
      decreases |Expanded(selected)| - j
    {
      modules := VisitModule(selected, modules, j);
      j := j + 1;
    }
    if j < |selected| {
      assert false;
    }
  }

  /** One iteration of the first loop: clean the pairs of the entry at `j` and append them. */
  method VisitModule(ghost selected: seq<Entry>, modules: seq<Entry>, j: nat) returns (modules': seq<Entry>)
    requires ExpandLoop(selected, modules, j) && j < |modules|
    ensures ExpandLoop(selected, modules', j + 1)
  {
    ExpandStep(selected, modules, j);
    ghost var next := if j < |selected| then modules[j := Updated(selected[j])] + PushedBy(selected[j]) else modules;
    assert ExpandLoop(selected, next, j + 1);
    var e := modules[j];
    if e.Registered? && e.m.pairs.Some? {
      assert j < |selected| && e == selected[j];
      var cleaned := CleanPairs(e.m.pairs.value, if e.m.cancelFileTransfer == Some(true) then true else false);
      assert Registered(e.m.(pairs := Some(cleaned))) == Updated(e);
      assert AsEntries(cleaned) == PushedBy(e);
      modules' := modules[j := Registered(e.m.(pairs := Some(cleaned)))] + AsEntries(cleaned);
      assert modules' == next;
    } else {
      modules' := modules;
      if j < |selected| {
        assert Updated(selected[j]) == selected[j] && PushedBy(selected[j]) == [];
        assert modules[j := Updated(selected[j])] == modules;
      }
      assert modules' == next;
    }
  }

  /** `modules.filter(m => m.name !== name)` */
  function WithoutName(es: seq<Entry>, name: Option<string>): seq<Entry> {
    if |es| == 0 then []
    else WithoutName(es[..|es| - 1], name) + (if Name(es[|es| - 1]) != name then [es[|es| - 1]] else [])
  }

  /** The list after the second loop has visited `a[..k]`: each entry without an activator removes every entry sharing its name. */
  function Pruned(a: seq<Entry>, k: nat): seq<Entry>
    requires k <= |a|
  {
    if k == 0 then a
    else if ActivatorOf(a[k - 1]).None? then WithoutName(Pruned(a, k - 1), Name(a[k - 1]))
    else Pruned(a, k - 1)
  }

  /** The launch hooks the second loop runs on `a[..k]`, in order */
  function Launched(a: seq<Entry>): seq<Entry> {
    if |a| == 0 then []
    else Launched(a[..|a| - 1]) + (if Launches(a[|a| - 1]) then [a[|a| - 1]] else [])
  }

  /**
   * The second loop of `filterModules`: a `for…of` over the list as it was
   * when the loop started, while `this.modules` is reassigned to filtered copies.
   */
  method PruneModules(a: seq<Entry>) returns (modules: seq<Entry>, launched: seq<Entry>)
    ensures modules == Pruned(a, |a|)
    ensures launched == Launched(a)
  {
    modules := a;
    launched := [];
    for k := 0 to |a|
      invariant modules == Pruned(a, k)
      invariant launched == Launched(a[..k])
    {
      assert a[..k + 1][..k] == a[..k];
      var e := a[k];
      if e.Registered? && e.m.onLaunch {
        launched := launched + [e];
      }
      if ActivatorOf(e).None? {
        modules := WithoutName(modules, Name(e));
      }
    }
    assert a[..|a|] == a;
  }

  /** Every entry `WithoutName` keeps comes from the list and carries another name. */
  lemma {:induction false} WithoutNameKeeps(es: seq<Entry>, name: Option<string>)
    ensures forall i :: 0 <= i < |WithoutName(es, name)| ==>
      Name(WithoutName(es, name)[i]) != name && exists j :: 0 <= j < |es| && WithoutName(es, name)[i] == es[j]
  {
    if |es| > 0 {
      var init := es[..|es| - 1];
      WithoutNameKeeps(init, name);
      var r := WithoutName(es, name);
      forall i | 0 <= i < |r|
        ensures Name(r[i]) != name && exists j :: 0 <= j < |es| && r[i] == es[j]
      {
        if i < |WithoutName(init, name)| {
          var j :| 0 <= j < |init| && WithoutName(init, name)[i] == init[j];
          assert r[i] == es[j];
        } else {
          assert r[i] == es[|es| - 1];
        }
      }
    }
  }

  /** `WithoutName` keeps every entry that carries another name. */
  lemma {:induction false} WithoutNameKeepsOthers(es: seq<Entry>, name: Option<string>, j: nat)
    requires j < |es| && Name(es[j]) != name
    ensures exists i :: 0 <= i < |WithoutName(es, name)| && WithoutName(es, name)[i] == es[j]
  {
    var init := es[..|es| - 1];
    if j < |es| - 1 {
      assert init[j] == es[j];
      WithoutNameKeepsOthers(init, name, j);
      var i :| 0 <= i < |WithoutName(init, name)| && WithoutName(init, name)[i] == init[j];
      assert WithoutName(es, name)[i] == es[j];
    } else {
      assert WithoutName(es, name)[|WithoutName(init, name)|] == es[j];
    }
  }

  /** What survives the second loop after `k` steps: entries of `a` whose name no visited activator-less entry carries. */
  lemma {:induction false} PrunedFrom(a: seq<Entry>, k: nat)
    requires k <= |a|
    ensures forall i :: 0 <= i < |Pruned(a, k)| ==> Pruned(a, k)[i] in a
    ensures forall i, l :: 0 <= i < |Pruned(a, k)| && 0 <= l < k && ActivatorOf(a[l]).None? ==>
      Name(a[l]) != Name(Pruned(a, k)[i])
  {
    var r := Pruned(a, k);
    if k == 0 {
      assert r == a;
    } else {
      PrunedFrom(a, k - 1);
      var prev := Pruned(a, k - 1);
      if ActivatorOf(a[k - 1]).None? {
        WithoutNameKeeps(prev, Name(a[k - 1]));
        forall i | 0 <= i < |r|
          ensures r[i] in a
        {
          var j :| 0 <= j < |prev| && r[i] == prev[j];
        }
        forall i, l | 0 <= i < |r| && 0 <= l < k && ActivatorOf(a[l]).None?
          ensures Name(a[l]) != Name(r[i])
        {
          var j :| 0 <= j < |prev| && r[i] == prev[j];
          if l < k - 1 {
            assert Name(a[l]) != Name(prev[j]);
          }
        }
      } else {
        assert r == prev;
      }
    }
  }

  /** An entry survives when no visited activator-less entry carries its name. */
  lemma {:induction false} PrunedKeeps(a: seq<Entry>, k: nat, j: nat)
    requires k <= |a| && j < |a|
    requires forall l :: 0 <= l < k && ActivatorOf(a[l]).None? ==> Name(a[l]) != Name(a[j])
    ensures exists i :: 0 <= i < |Pruned(a, k)| && Pruned(a, k)[i] == a[j]
  {
    if k == 0 {
      assert Pruned(a, 0)[j] == a[j];
    } else {
      PrunedKeeps(a, k - 1, j);
      var prev := Pruned(a, k - 1);
      var i :| 0 <= i < |prev| && prev[i] == a[j];
      if ActivatorOf(a[k - 1]).None? {
        WithoutNameKeepsOthers(prev, Name(a[k - 1]), i);
        var i' :| 0 <= i' < |WithoutName(prev, Name(a[k - 1]))| && WithoutName(prev, Name(a[k - 1]))[i'] == prev[i];
        assert Pruned(a, k)[i'] == a[j];
      } else {
        assert Pruned(a, k)[i] == a[j];
      }
    }
  }

  /**
   * After the second loop no entry without an activator remains, and an
   * entry stays exactly when no activator-less entry shares its name.
   */
  lemma PruneResult(a: seq<Entry>, j: nat)
    requires j < |a|
    ensures forall i :: 0 <= i < |Pruned(a, |a|)| ==> ActivatorOf(Pruned(a, |a|)[i]).Some?
    ensures (exists i :: 0 <= i < |Pruned(a, |a|)| && Pruned(a, |a|)[i] == a[j]) <==>
      forall l :: 0 <= l < |a| && ActivatorOf(a[l]).None? ==> Name(a[l]) != Name(a[j])
  {
    PrunedFrom(a, |a|);
    var r := Pruned(a, |a|);
    forall i | 0 <= i < |r|
      ensures ActivatorOf(r[i]).Some?
    {
      var l :| 0 <= l < |a| && r[i] == a[l];
    }
    if forall l :: 0 <= l < |a| && ActivatorOf(a[l]).None? ==> Name(a[l]) != Name(a[j]) {
      PrunedKeeps(a, |a|, j);
    }
  }

  /**
   * Pairs have no name, so one surviving pair without an activator makes the
   * second loop remove every pushed pair.
   */
  lemma InactivePairDropsAll(a: seq<Entry>, l: nat)
    requires l < |a| && a[l].Pushed? && a[l].p.activator.None?
    ensures forall i :: 0 <= i < |Pruned(a, |a|)| ==> Pruned(a, |a|)[i].Registered?
  {
    PrunedFrom(a, |a|);
  }

  /** Every entry with a launch hook has it run, including entries the same loop removes. */
  lemma {:induction false} LaunchedAll(a: seq<Entry>, j: nat)
    requires j < |a| && Launches(a[j])
    ensures exists i :: 0 <= i < |Launched(a)| && Launched(a)[i] == a[j]
    ensures forall i :: 0 <= i < |Launched(a)| ==> Launches(Launched(a)[i])
  {
    var init := a[..|a| - 1];
    if j < |a| - 1 {
      assert init[j] == a[j];
      LaunchedAll(init, j);
      var i :| 0 <= i < |Launched(init)| && Launched(init)[i] == init[j];
      assert Launched(a)[i] == a[j];
    } else {
      assert Launched(a)[|Launched(init)|] == a[j];
      if |init| > 0 {
        LaunchedOnly(init);
      }
    }
    LaunchedOnly(a);
  }

  lemma {:induction false} LaunchedOnly(a: seq<Entry>)
    ensures forall i :: 0 <= i < |Launched(a)| ==> Launches(Launched(a)[i])
  {
    if |a| > 0 {
      LaunchedOnly(a[..|a| - 1]);
    }
  }

  /** The whole of `filterModules` on a list of entries */
  function Filtered(modules: seq<Entry>, toAdd: seq<string>): seq<Entry> {
    var a := Expanded(Selected(modules, toAdd));
    Pruned(a, |a|)
  }

  /** `ModuleManager` (TypeScript): `modules` and the launch hooks run so far */
  class ModuleManager {
    var modules: seq<Entry>
    var launched: seq<Entry>

    constructor ()
      ensures modules == [] && launched == []
    {
      modules := [];
      launched := [];
    }

    /** `addModule(data)`: an error for a missing name, else an append */
    method AddModule(data: Module) returns (error: Option<string>)
      modifies this
      ensures data.name == "" ==> error == Some("No Name specified for module") && modules == old(modules)
      ensures data.name != "" ==> error == None && modules == old(modules) + [Registered(data)]
      ensures launched == old(launched)
    {
      if data.name == "" {
        return Some("No Name specified for module");
      }
      modules := modules + [Registered(data)];
      return None;
    }

    /** `checkIfModuleExists(name)` */
    function CheckIfModuleExists(name: string): (b: bool)
      reads this
      ensures b <==> exists i :: 0 <= i < |modules| && Name(modules[i]) == Some(name)
    {
      AnyNamed(modules, name)
    }

    /** `processFile(filePath, fileHandler)` */
    method ProcessFile(path: string) returns (value: bool, writes: seq<(string, string)>)
      ensures value <==> CancelsTransfer(modules, path)
      ensures writes == Writes(modules, path)
    {
      value, writes := ProcessModules(modules, path);
    }

    /** `filterModules(modulesToAdd, bpPath, rpPath)` */
    method FilterModules(toAdd: seq<string>)
      modifies this
      ensures modules == Filtered(old(modules), toAdd)
      ensures launched == old(launched) + Launched(Expanded(Selected(old(modules), toAdd)))
    {
      var selected := Selected(modules, toAdd);
      var expanded := ExpandModules(selected);
      var pruned, hooks := PruneModules(expanded);
      modules := pruned;
      launched := launched + hooks;
    }
  }

  /** The older `ModuleManager` (JavaScript): the same registry, but `processFile` calls every activator unguarded. */
  class LegacyModuleManager {
    var modules: seq<Entry>
    var launched: seq<Entry>

    constructor ()
      ensures modules == [] && launched == []
    {
      modules := [];
      launched := [];
    }

    method AddModule(data: Module) returns (error: Option<string>)
      modifies this
      ensures data.name == "" ==> error == Some("No Name specified for module") && modules == old(modules)
      ensures data.name != "" ==> error == None && modules == old(modules) + [Registered(data)]
      ensures launched == old(launched)
    {
      if data.name == "" {
        return Some("No Name specified for module");
      }
      modules := modules + [Registered(data)];
      return None;
    }

    function CheckIfModuleExists(name: string): (b: bool)
      reads this
      ensures b <==> exists i :: 0 <= i < |modules| && Name(modules[i]) == Some(name)
    {
      AnyNamed(modules, name)
    }

    /** `module.activator(filePath)` throws for an entry without an activator, so every entry must have one. */
    method ProcessFile(path: string) returns (value: bool, writes: seq<(string, string)>)
      requires forall i :: 0 <= i < |modules| ==> ActivatorOf(modules[i]).Some?
      ensures value <==> CancelsTransfer(modules, path)
      ensures writes == Writes(modules, path)
    {
      value, writes := ProcessModules(modules, path);
    }

    method FilterModules(toAdd: seq<string>)
      modifies this
      ensures modules == Filtered(old(modules), toAdd)
      ensures forall i :: 0 <= i < |modules| ==> ActivatorOf(modules[i]).Some?
      ensures launched == old(launched) + Launched(Expanded(Selected(old(modules), toAdd)))
    {
      var selected := Selected(modules, toAdd);
      var expanded := ExpandModules(selected);
      var pruned, hooks := PruneModules(expanded);
      if |expanded| > 0 {
        PruneResult(expanded, 0);
      }
      modules := pruned;
      launched := launched + hooks;
    }
  }
}
