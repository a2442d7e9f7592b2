/**
 * `getLatestPackageVersion` (current and legacy): from the registry's
 * version list (an input here; fetching it is left out), pick the last
 * version whose text contains "stable", and report its first three
 * dot-separated fields and the `name@version` package specifier.
 */
module Npm {
  import opened Base
  import opened Strings

  /** `versions.filter(v => v.includes("stable"))`, in registry order */
  function Stable(versions: seq<string>): seq<string> {
    if |versions| == 0 then []
    else
      var v := versions[|versions| - 1];
      Stable(versions[..|versions| - 1]) + (if Contains(v, "stable") then [v] else [])
  }

  /** The filter keeps exactly the entries containing "stable". */
  lemma {:induction false} StableMembers(versions: seq<string>)
    ensures forall v :: v in Stable(versions) <==> v in versions && Contains(v, "stable")
  {
    if |versions| > 0 {
      var init := versions[..|versions| - 1];
      StableMembers(init);
      assert versions == init + [versions[|versions| - 1]];
    }
  }

  /**
   * The last stable entry is the registry's last entry containing "stable":
   * it sits at some index, and no later entry contains "stable". It is not a
   * semantic-version maximum.
   */
  lemma {:induction false} LastStable(versions: seq<string>)
    requires Stable(versions) != []
    ensures var latest := Stable(versions)[|Stable(versions)| - 1];
      Contains(latest, "stable") &&
      exists i :: 0 <= i < |versions| && versions[i] == latest &&
        forall j :: i < j < |versions| ==> !Contains(versions[j], "stable")
  {
    var n := |versions|;
    var init := versions[..n - 1];
    var latest := Stable(versions)[|Stable(versions)| - 1];
    if Contains(versions[n - 1], "stable") {
      assert Stable(versions) == Stable(init) + [versions[n - 1]];
      assert versions[n - 1] == latest;
    } else {
      assert Stable(versions) == Stable(init);
      LastStable(init);
      var i :| 0 <= i < |init| && init[i] == latest &&
        forall j :: i < j < |init| ==> !Contains(init[j], "stable");
      assert versions[i] == latest;
      forall j | i < j < n
        ensures !Contains(versions[j], "stable")
      {
        if j < n - 1 {
          assert versions[j] == init[j];
        }
      }
    }
  }

  /** `latest.split(".").splice(0, 3).join(".")`: the first three dot-separated fields */
  function Truncated(latest: string): string {
    var fields := Split(latest, {'.'});
    Join(fields[..if |fields| < 3 then |fields| else 3], ".")
  }

  /** Joining the first pieces is a prefix of joining them all. */
  lemma {:induction false} JoinPrefix(parts: seq<string>, k: nat, sep: string)
    requires 1 <= k <= |parts|
    ensures StartsWith(Join(parts, sep), Join(parts[..k], sep))
    decreases k
  {
    if k == 1 {
      assert parts[..1] == [parts[0]];
    } else {
      JoinPrefix(parts[1..], k - 1, sep);
      assert parts[..k][1..] == parts[1..][..k - 1];
      var a := Join(parts[1..][..k - 1], sep);
      var b := Join(parts[1..], sep);
      assert b[..|a|] == a;
      assert (parts[0] + sep + b)[..|parts[0] + sep + a|] == parts[0] + sep + a;
    }
  }

  /** The reported version is a prefix of the chosen one and holds at most two dots. */
  lemma TruncatedShape(latest: string)
    ensures StartsWith(latest, Truncated(latest))
    ensures CountChar(Truncated(latest), '.') <= 2
  {
    var fields := Split(latest, {'.'});
    var k := if |fields| < 3 then |fields| else 3;
    JoinPrefix(fields, k, ".");
    JoinSplit(latest, '.');
    SplitPiecesFree(latest, {'.'});
    assert forall p :: p in fields[..k] ==> p in fields;
    CountCharJoin(fields[..k], '.');
  }

  /** A version with at most two dots is reported as it is. */
  lemma ShortVersionKept(latest: string)
    requires CountChar(latest, '.') <= 2
    ensures Truncated(latest) == latest
  {
    var fields := Split(latest, {'.'});
    SplitPiecesFree(latest, {'.'});
    JoinSplit(latest, '.');
    CountCharJoin(fields, '.');
    assert fields[..|fields|] == fields;
  }

  /** The result: `{ version, package }` */
  datatype Latest = Latest(version: string, package: string)

  /**
   * `getLatestPackageVersion` in src/utils/npm.ts: nothing when the version
   * list could not be obtained; otherwise at least one stable version is
   * needed, since the last one is dereferenced.
   */
  function LatestPackageVersion(name: string, versions: Option<seq<string>>): (r: Option<Latest>)
    requires versions.Some? ==> Stable(versions.value) != []
    ensures r.None? <==> versions.None?
    ensures r.Some? ==>
      var stable := Stable(versions.value);
      var latest := stable[|stable| - 1];
      r.value.version == Truncated(latest) && StartsWith(latest, r.value.version) &&
      r.value.package == name + "@" + latest
  {
    if versions.None? then None
    else
      var stable := Stable(versions.value);
      var latest := stable[|stable| - 1];
      TruncatedShape(latest);
      Some(Latest(Truncated(latest), name + "@" + latest))
  }

  /** `getLatestPackageVersion` in src/utils/npm.js: no guard, so the list and a stable entry are required. */
  function LegacyLatestPackageVersion(name: string, versions: seq<string>): (r: Latest)
    requires Stable(versions) != []
    ensures var stable := Stable(versions); var latest := stable[|stable| - 1];
      Contains(latest, "stable") && latest in versions &&
      r.version == Truncated(latest) && StartsWith(latest, r.version) && CountChar(r.version, '.') <= 2 &&
      r.package == name + "@" + latest
  {
    var stable := Stable(versions);
    var latest := stable[|stable| - 1];
    TruncatedShape(latest);
    StableMembers(versions);
    Latest(Truncated(latest), name + "@" + latest)
  }
}
