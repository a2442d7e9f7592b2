/**
 * The archive naming of the `build` command: every file under a pack's
 * output folder is stored in the `.mcpack` under its path relative to the
 * pack's root folder, and the `.mcaddon` bundles the two packs under their
 * file names.
 */
module Build {
  import opened Strings

  /** `/[/\\]/`: both path separators */
  const Separators: set<char> := {'/', '\\'}

  /** The components of a path, split at either separator */
  function Components(path: string): (r: seq<string>)
    ensures |r| >= 1
  {
    Split(path, Separators)
  }

  /**
   * `getPathsRelativeToRoot` for one path: the components after the first
   * occurrence of the root component, joined with `/`, or the path itself
   * when the root is absent or is the last component.
   */
  function RelativeToRoot(path: string, root: string): string {
    var parts := Components(path);
    var i := IndexOf(parts, root);
    if i != -1 && i < |parts| - 1 then Join(parts[i + 1..], "/") else path
  }

  /** The whole list, element by element: same length, i-th output from the i-th input */
  function RelativePaths(paths: seq<string>, root: string): (r: seq<string>)
    ensures |r| == |paths|
    ensures forall i :: 0 <= i < |paths| ==> r[i] == RelativeToRoot(paths[i], root)
  {
    if |paths| == 0 then [] else RelativePaths(paths[..|paths| - 1], root) + [RelativeToRoot(paths[|paths| - 1], root)]
  }

  /** `FileMapping`: the file on disk and its name inside the archive */
  datatype FileMapping = FileMapping(filePath: string, outputPath: string)

  /** The archive entries of one pack: each file paired with the relative name at the same index */
  function Mappings(files: seq<string>, root: string): (r: seq<FileMapping>)
    ensures |r| == |files|
    ensures forall i :: 0 <= i < |files| ==> r[i].filePath == files[i] && r[i].outputPath == RelativeToRoot(files[i], root)
  {
    var relative := RelativePaths(files, root);
    seq(|files|, i requires 0 <= i < |files| => FileMapping(files[i], relative[i]))
  }

  /** `./dist/<name><kind>.mcpack` */
  function PackFile(name: string, kind: string): string {
    "./dist/" + name + kind + ".mcpack"
  }

  /** The `.mcaddon` entries: each pack file stored under `file.slice(7)` */
  function AddonEntries(name: string): (r: seq<FileMapping>)
    ensures |r| == 2
    ensures r[0] == FileMapping(PackFile(name, "BP"), name + "BP.mcpack")
    ensures r[1] == FileMapping(PackFile(name, "RP"), name + "RP.mcpack")
  {
    var files := [PackFile(name, "BP"), PackFile(name, "RP")];
    assert files[0][7..] == name + "BP.mcpack";
    assert files[1][7..] == name + "RP.mcpack";
    seq(2, i requires 0 <= i < 2 => FileMapping(files[i], files[i][7..]))
  }

  /** A path whose components before the last never equal the root is returned as it is. */
  lemma RootAbsentOrLast(path: string, root: string)
    requires forall k :: 0 <= k < |Components(path)| - 1 ==> Components(path)[k] != root
    ensures RelativeToRoot(path, root) == path
  {
  }

  /** Joining pieces free of a character with a separator free of it gives a string free of it. */
  lemma {:induction false} JoinFree(parts: seq<string>, sep: string, c: char)
    requires c !in sep
    requires forall p :: p in parts ==> c !in p
    ensures c !in Join(parts, sep)
    decreases |parts|
  {
    if |parts| > 1 {
      assert forall p :: p in parts[1..] ==> p in parts;
      JoinFree(parts[1..], sep, c);
      assert parts[0] in parts;
    } else if |parts| == 1 {
      assert parts[0] in parts;
    }
  }

  /** A rewritten path uses `/` only: a result containing a backslash is the untouched input. */
  lemma RewrittenHasNoBackslash(path: string, root: string)
    ensures '\\' in RelativeToRoot(path, root) ==> RelativeToRoot(path, root) == path
  {
    var parts := Components(path);
    var i := IndexOf(parts, root);
    if i != -1 && i < |parts| - 1 {
      SplitPiecesFree(path, Separators);
      forall p | p in parts[i + 1..] ensures '\\' !in p {
        assert p in parts;
        assert forall k :: 0 <= k < |p| ==> p[k] != '\\';
      }
      JoinFree(parts[i + 1..], "/", '\\');
    }
  }

  /** Splitting text that follows separator-free components joined by one separator */
  lemma {:induction false} SplitAfterJoin(pre: seq<string>, c: char, x: string, seps: set<char>)
    requires c in seps && |pre| >= 1
    requires forall p, k :: p in pre && 0 <= k < |p| ==> p[k] !in seps
    ensures Split(Join(pre, [c]) + [c] + x, seps) == pre + Split(x, seps)
    decreases |pre|
  {
    assert pre[0] in pre;
    if |pre| == 1 {
      SplitAt(pre[0], c, x, seps);
    } else {
      var rest := pre[1..];
      assert forall p :: p in rest ==> p in pre;
      SplitAfterJoin(rest, c, x, seps);
      assert Join(pre, [c]) + [c] + x == pre[0] + [c] + (Join(rest, [c]) + [c] + x);
      SplitAt(pre[0], c, Join(rest, [c]) + [c] + x, seps);
      assert pre == [pre[0]] + rest;
    }
  }

  /** Without backslashes, splitting at either separator is splitting at `/`. */
  lemma {:induction false} SplitSlashOnly(s: string)
    requires '\\' !in s
    ensures Split(s, Separators) == Split(s, {'/'})
    decreases |s|
  {
    if |s| > 0 {
      assert forall c :: c in s[1..] ==> c in s;
      SplitSlashOnly(s[1..]);
    }
  }

  /**
   * A file below the root folder: with the path written as separator-free
   * components `pre` (none of them the root), then the root, then the rest
   * `b` written with `/`, the archive name is exactly `b`.
   */
  lemma UnderRoot(pre: seq<string>, root: string, b: string)
    requires forall p, k :: p in pre + [root] && 0 <= k < |p| ==> p[k] !in Separators
    requires root !in pre && '\\' !in b
    ensures RelativeToRoot(Join(pre + [root], "/") + "/" + b, root) == b
  {
    var path := Join(pre + [root], "/") + "/" + b;
    SplitAfterJoin(pre + [root], '/', b, Separators);
    var parts := Components(path);
    assert parts == pre + [root] + Split(b, Separators);
    var i := IndexOf(parts, root);
    assert parts[|pre|] == root;
    assert forall k :: 0 <= k < |pre| ==> parts[k] == pre[k] && parts[k] != root;
    assert i == |pre|;
    assert parts[i + 1..] == Split(b, Separators);
    SplitSlashOnly(b);
    JoinSplit(b, '/');
  }
}
