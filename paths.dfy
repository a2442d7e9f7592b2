/**
 * The path predicates of src/utils/path.ts: plain suffix and substring tests
 * on the path text, with no notion of a dot or of path normalisation.
 */
module Paths {
  import opened Strings

  /** `pathHasExtension`: a suffix test */
  predicate HasExtension(path: string, extension: string) {
    EndsWith(path, extension)
  }

  /** `pathHasAnyExtension`: `extensions.some(ext => path.endsWith(ext))`, scanning in list order */
  predicate HasAnyExtension(path: string, extensions: seq<string>)
    decreases |extensions|
  {
    |extensions| > 0 && (HasExtension(path, extensions[0]) || HasAnyExtension(path, extensions[1..]))
  }

  /** `pathIsInDirectory`: the directory name enclosed in forward or in back slashes */
  predicate IsInDirectory(path: string, dir: string) {
    Contains(path, "/" + dir + "/") || Contains(path, "\\" + dir + "\\")
  }

  /** No dot is involved: "parts" has the extension "ts". */
  lemma ExtensionNeedsNoDot()
    ensures HasExtension("parts", "ts")
  {
    assert "parts"[3..] == "ts";
  }

  /** `some`: true exactly when one listed extension is a suffix; so false for the empty list. */
  lemma {:induction false} AnyExtensionIff(path: string, extensions: seq<string>)
    ensures HasAnyExtension(path, extensions) <==> exists e :: e in extensions && HasExtension(path, e)
    decreases |extensions|
  {
    if |extensions| > 0 {
      AnyExtensionIff(path, extensions[1..]);
      assert extensions == [extensions[0]] + extensions[1..];
    }
  }

  /** With one extension the two predicates agree. */
  lemma SingleExtension(path: string, extension: string)
    ensures HasAnyExtension(path, [extension]) <==> HasExtension(path, extension)
  {
    AnyExtensionIff(path, [extension]);
  }

  /** Listing more extensions, before or after, never turns a match into a miss. */
  lemma MoreExtensions(path: string, extensions: seq<string>, more: seq<string>)
    requires HasAnyExtension(path, extensions)
    ensures HasAnyExtension(path, extensions + more) && HasAnyExtension(path, more + extensions)
  {
    AnyExtensionIff(path, extensions);
    AnyExtensionIff(path, extensions + more);
    AnyExtensionIff(path, more + extensions);
    var e :| e in extensions && HasExtension(path, e);
    assert e in extensions + more && e in more + extensions;
  }

  /** A path holding `/dir/` or `\dir\` anywhere is in the directory. */
  lemma InDirectoryWhenEnclosed(a: string, dir: string, b: string)
    ensures IsInDirectory(a + "/" + dir + "/" + b, dir)
    ensures IsInDirectory(a + "\\" + dir + "\\" + b, dir)
  {
    assert a + "/" + dir + "/" + b == a + ("/" + dir + "/") + b;
    ContainsInfix(a, "/" + dir + "/", b);
    assert a + "\\" + dir + "\\" + b == a + ("\\" + dir + "\\") + b;
    ContainsInfix(a, "\\" + dir + "\\", b);
  }

  /**
   * A leading `dir/` does not count: a relative path `dir/file` (neither part
   * holding a separator) is not in the directory.
   */
  lemma LeadingDirectoryDoesNotCount(dir: string, file: string)
    requires '/' !in dir && '\\' !in dir && '/' !in file && '\\' !in file
    ensures !IsInDirectory(dir + "/" + file, dir)
  {
    var path := dir + "/" + file;
    var slash := "/" + dir + "/";
    var back := "\\" + dir + "\\";
    forall k | 0 <= k < |path| && k != |dir| ensures path[k] != '/' && path[k] != '\\' {
      if k < |dir| {
        assert path[k] == dir[k] && dir[k] in dir;
      } else {
        assert path[k] == file[k - |dir| - 1] && file[k - |dir| - 1] in file;
      }
    }
    assert path[|dir|] == '/';
    ContainsIff(path, slash);
    ContainsIff(path, back);
    forall i | 0 <= i && i + |slash| <= |path| ensures !OccursAt(path, slash, i) {
      assert slash[0] == '/' && slash[|dir| + 1] == '/';
      if path[i] == '/' {
        assert path[i + |dir| + 1] != '/';
      }
    }
    forall i | 0 <= i && i + |back| <= |path| ensures !OccursAt(path, back, i) {
      assert back[0] == '\\';
      if i == |dir| {
        assert path[i] == '/';
      }
    }
  }
}
