/**
 * `fix animationNames <file>`: every key of the file's `animations` object
 * is renamed to `animation.<stem>.<key>`, where the stem is the file name up
 * to its first dot. The JSON object is an insertion-ordered entry list; the
 * parsed file is an input and the object written back the output.
 */
module Fix {
  import opened Base
  import opened Strings
  import opened OrderedMap
  import Build
  import opened Config

  /** `args[0].split(/[\/\\]/).pop()`: the last path component */
  function BaseName(path: string): string {
    var parts := Build.Components(path);
    parts[|parts| - 1]
  }

  /** `name.split(".")[0]` */
  function Stem(name: string): string {
    Split(name, {'.'})[0]
  }

  /** The stem is the file name up to its first dot. */
  lemma StemIsTextBeforeDot(name: string)
    ensures StartsWith(name, Stem(name)) && '.' !in Stem(name)
    ensures |Stem(name)| == |name| || name[|Stem(name)|] == '.'
  {
    SplitHead(name, {'.'});
  }

  /** The component after the last separator is the base name. */
  lemma BaseNameAfterSeparator(dir: seq<string>, file: string)
    requires |dir| >= 1
    requires forall p, k :: p in dir && 0 <= k < |p| ==> p[k] !in Build.Separators
    requires forall k :: 0 <= k < |file| ==> file[k] !in Build.Separators
    ensures BaseName(Join(dir, "/") + "/" + file) == file
  {
    Build.SplitAfterJoin(dir, '/', file, Build.Separators);
    SplitNone(file, Build.Separators);
  }

  /** `animation.${stem}.${originalName}` */
  function NewName(stem: string, key: string): (r: string)
    ensures |r| > |key|
  {
    "animation." + stem + "." + key
  }

  /** Different keys get different names. */
  lemma NewNameInjective(stem: string, k1: string, k2: string)
    requires NewName(stem, k1) == NewName(stem, k2)
    ensures k1 == k2
  {
    var n := |"animation." + stem + "."|;
    assert k1 == NewName(stem, k1)[n..];
    assert k2 == NewName(stem, k2)[n..];
  }

  /**
   * One iteration: the value moves to the new key (assigned, so it goes last
   * unless the key already exists) and the original key is deleted. A key
   * already gone would store `undefined`, which the JSON text drops.
   */
  function Step<V>(m: Entries<string, V>, stem: string, key: string): Entries<string, V> {
    var v := Get(m, key);
    if v.Some? then Delete(Put(m, NewName(stem, key), v.value), key) else Delete(m, key)
  }

  /** The object after the loop has visited the snapshot keys `keys` */
  function Renames<V>(m: Entries<string, V>, stem: string, keys: seq<string>): Entries<string, V> {
    if |keys| == 0 then m else Step(Renames(m, stem, keys[..|keys| - 1]), stem, keys[|keys| - 1])
  }

  /** The lines logged, one per snapshot key */
  function RenameLog(stem: string, keys: seq<string>): (r: seq<LogLine>)
    ensures |r| == |keys|
    ensures forall i :: 0 <= i < |keys| ==> r[i] == LogLine(Info, "Renaming " + keys[i] + " to " + NewName(stem, keys[i]))
  {
    if |keys| == 0 then []
    else RenameLog(stem, keys[..|keys| - 1]) + [LogLine(Info, "Renaming " + keys[|keys| - 1] + " to " + NewName(stem, keys[|keys| - 1]))]
  }

  /** Every entry renamed in place of order: the intended outcome */
  function RenamedAll<V>(m: Entries<string, V>, stem: string): (r: Entries<string, V>)
    ensures |r| == |m|
    ensures forall i :: 0 <= i < |m| ==> r[i] == (NewName(stem, m[i].0), m[i].1)
  {
    if |m| == 0 then [] else RenamedAll(m[..|m| - 1], stem) + [(NewName(stem, m[|m| - 1].0), m[|m| - 1].1)]
  }

  /** No new name equals an original key. */
  ghost predicate NoCollision<V>(m: Entries<string, V>, stem: string) {
    forall i, j :: 0 <= i < |m| && 0 <= j < |m| ==> NewName(stem, m[i].0) != m[j].0
  }

  /** Deleting the key of the first entry, absent from the rest, leaves the rest. */
  lemma DeleteFront<V>(x: (string, V), rest: Entries<string, V>)
    requires x.0 !in Keys(rest)
    ensures Delete([x] + rest, x.0) == rest
  {
    assert ([x] + rest)[1..] == rest;
    DeleteAbsent(rest, x.0);
  }

  /** The new name of the next original is neither a pending original nor an earlier new name. */
  lemma NewNameFresh<V>(m: Entries<string, V>, stem: string, i: nat)
    requires Unique(m) && NoCollision(m, stem) && i < |m|
    ensures NewName(stem, m[i].0) !in Keys(m[i..] + RenamedAll(m[..i], stem))
  {
    var k := m[i].0;
    var done := RenamedAll(m[..i], stem);
    var s := m[i..] + done;
    forall t | 0 <= t < |s| ensures Keys(s)[t] != NewName(stem, k) {
      if t < |m| - i {
        assert s[t] == m[i + t];
      } else {
        var j := t - (|m| - i);
        assert s[t] == done[j];
        if done[j].0 == NewName(stem, k) {
          NewNameInjective(stem, m[j].0, k);
        }
      }
    }
  }

  /** Once renamed, an original key appears nowhere in the object. */
  lemma KeyGone<V>(m: Entries<string, V>, stem: string, i: nat)
    requires Unique(m) && NoCollision(m, stem) && i < |m|
    ensures m[i].0 !in Keys(m[i + 1..] + RenamedAll(m[..i + 1], stem))
  {
    var k := m[i].0;
    var s := m[i + 1..] + RenamedAll(m[..i + 1], stem);
    forall t | 0 <= t < |s| ensures Keys(s)[t] != k {
      if t < |m| - i - 1 {
        assert s[t] == m[i + 1 + t];
      } else {
        assert s[t] == RenamedAll(m[..i + 1], stem)[t - (|m| - i - 1)];
      }
    }
  }

  /** One iteration from the invariant's shape: originals not yet visited, then the renamed ones. */
  lemma StepShape<V>(m: Entries<string, V>, stem: string, i: nat)
    requires Unique(m) && NoCollision(m, stem) && i < |m|
    ensures Step(m[i..] + RenamedAll(m[..i], stem), stem, m[i].0) == m[i + 1..] + RenamedAll(m[..i + 1], stem)
  {
    var k := m[i].0;
    var done := RenamedAll(m[..i], stem);
    var s := m[i..] + done;
    var e := (NewName(stem, k), m[i].1);
    assert Get(s, k) == Some(m[i].1) by {
      assert Keys(s)[0] == k;
    }
    var rest := m[i + 1..] + (done + [e]);
    assert RenamedAll(m[..i + 1], stem) == done + [e] by {
      assert m[..i + 1][..i] == m[..i];
    }
    assert Put(s, NewName(stem, k), m[i].1) == s + [e] by {
      NewNameFresh(m, stem, i);
    }
    assert s + [e] == [m[i]] + rest by {
      assert m[i..] == [m[i]] + m[i + 1..];
    }
    KeyGone(m, stem, i);
    DeleteFront(m[i], rest);
  }

  /**
   * With distinct keys and no new name equal to an original key, the loop
   * renames every entry and keeps the entries in their original order.
   */
  lemma {:induction false} RenamesAll<V>(m: Entries<string, V>, stem: string, i: nat)
    requires Unique(m) && NoCollision(m, stem) && i <= |m|
    ensures Renames(m, stem, Keys(m)[..i]) == m[i..] + RenamedAll(m[..i], stem)
  {
    if i == 0 {
      assert m[0..] + RenamedAll(m[..0], stem) == m;
    } else {
      RenamesAll(m, stem, i - 1);
      assert Keys(m)[..i][..i - 1] == Keys(m)[..i - 1];
      StepShape(m, stem, i - 1);
    }
  }

  /** Running the command again renames again: the keys keep growing, so it is not idempotent. */
  lemma NotIdempotent<V>(m: Entries<string, V>, stem: string)
    requires |m| > 0
    ensures RenamedAll(RenamedAll(m, stem), stem) != RenamedAll(m, stem)
  {
    assert |RenamedAll(RenamedAll(m, stem), stem)[0].0| > |RenamedAll(m, stem)[0].0|;
  }

  /** The loop after one more snapshot key */
  lemma RenamesNext<V>(m: Entries<string, V>, stem: string, keys: seq<string>, i: nat)
    requires i < |keys|
    ensures Renames(m, stem, keys[..i + 1]) == Step(Renames(m, stem, keys[..i]), stem, keys[i])
    ensures RenameLog(stem, keys[..i + 1]) == RenameLog(stem, keys[..i]) + [LogLine(Info, "Renaming " + keys[i] + " to " + NewName(stem, keys[i]))]
  {
    assert keys[..i + 1][..i] == keys[..i];
  }

  /** Over the whole snapshot: every entry renamed, in order. */
  lemma RenamesWhole<V>(m: Entries<string, V>, stem: string)
    requires Unique(m) && NoCollision(m, stem)
    ensures Renames(m, stem, Keys(m)) == RenamedAll(m, stem)
  {
    RenamesAll(m, stem, |m|);
    assert Keys(m)[..|m|] == Keys(m);
    assert m[|m|..] + RenamedAll(m[..|m|], stem) == RenamedAll(m, stem);
  }

  /** The renaming loop over a snapshot of the keys */
  method RenameAnimations<V>(animations: Entries<string, V>, stem: string) returns (r: Entries<string, V>, log: seq<LogLine>)
    ensures r == Renames(animations, stem, Keys(animations))
    ensures log == RenameLog(stem, Keys(animations))
    ensures Unique(animations) && NoCollision(animations, stem) ==> r == RenamedAll(animations, stem)
  {
    var keys := Keys(animations);
    r := animations;
    log := [];
    for i := 0 to |keys|
      invariant r == Renames(animations, stem, keys[..i])
      invariant log == RenameLog(stem, keys[..i])
    {
      RenamesNext(animations, stem, keys, i);
      var newName := NewName(stem, keys[i]);
      log := log + [LogLine(Info, "Renaming " + keys[i] + " to " + newName)];
      var v := Get(r, keys[i]);
      if v.Some? {
        r := Put(r, newName, v.value);
      }
      r := Delete(r, keys[i]);
    }
    assert keys[..|keys|] == keys;
    if Unique(animations) && NoCollision(animations, stem) {
      RenamesWhole(animations, stem);
    }
  }

  /** A top-level value of the parsed file: an object (its entries), or any other JSON value */
  datatype Member<V> = JsonObject(entries: Entries<string, V>) | JsonOther(v: V)

  /** `data.animations` when it is an object */
  function AnimationsOf<V>(data: Entries<string, Member<V>>): Option<Entries<string, V>> {
    var a := Get(data, "animations");
    if a.Some? && a.value.JsonObject? then Some(a.value.entries) else None
  }

  /**
   * The `animationNames` action on the parsed file: without an `animations`
   * object it reports an error and writes nothing; otherwise it writes the
   * whole file back, the `animations` object renamed in its place and every
   * other top-level key as it was.
   */
  method FixAnimationNames<V>(path: string, data: Entries<string, Member<V>>)
    returns (written: Option<Entries<string, Member<V>>>, log: seq<LogLine>)
    ensures AnimationsOf(data).None? ==> written.None? && log == [LogLine(Error, "No animations found in the file!")]
    ensures AnimationsOf(data).Some? ==>
      var animations := AnimationsOf(data).value;
      var stem := Stem(BaseName(path));
      written.Some? &&
      Keys(written.value) == Keys(data) &&
      Get(written.value, "animations") == Some(JsonObject(Renames(animations, stem, Keys(animations)))) &&
      (forall k :: k != "animations" ==> Get(written.value, k) == Get(data, k)) &&
      log == RenameLog(stem, Keys(animations))
  {
    var name := BaseName(path);
    var animations := AnimationsOf(data);
    if animations.None? {
      return None, [LogLine(Error, "No animations found in the file!")];
    }
    var r;
    r, log := RenameAnimations(animations.value, Stem(name));
    written := Some(Put(data, "animations", JsonObject(r)));
    KeysPut(data, "animations", JsonObject(r));
    assert "animations" in Keys(data);
    forall k {
      GetPut(data, "animations", JsonObject(r), k);
    }
  }
}
