/**
 * The localisation script: it collects the language codes reachable from
 * English, drops every manifest entry containing "en", parses the English
 * `.lang` file into an insertion-ordered key/value table, copies that file to
 * `en_GB.lang`, and writes one translated `.lang` file per remaining entry,
 * stopping at the first entry it cannot handle.
 *
 * The package registry, the JSON manifest and the text of `en_US.lang` are
 * inputs; the translation call is the parameter `tr`, which answers `None`
 * where the real call raises; the files written are returned in order.
 */
module Translate {
  import opened Base
  import opened Strings
  import opened OrderedMap

  /** A translation package offered by the registry: a `from_code -> to_code` pair */
  datatype Package = Package(fromCode: string, toCode: string)

  /** Why the script stops early */
  datatype Failure =
    | MissingLanguage(code: string)    // FileExistsError: base code without an en -> code package
    | TranslationFailed(code: string)  // AttributeError raised while translating for this code

  /** `translate(text, from_code, to_code)`; `None` stands for a raised error */
  type Translator = (string, string, string) -> Option<string>

  /** What one run produces: the packages installed, the files written in order, and how it ended */
  datatype Run = Run(installs: seq<Package>, writes: seq<(string, string)>, failure: Option<Failure>)

  const TextsDir := "./RP/texts/"

  /** The target codes of the packages that translate from English */
  ghost function Capabilities(packages: seq<Package>): set<string> {
    set p | p in packages && p.fromCode == "en" :: p.toCode
  }

  /** The loop over the registry that fills `language_codes`, the codes reachable from English */
  method CollectCapabilities(packages: seq<Package>) returns (codes: set<string>)
    ensures forall c :: c in codes <==> exists p :: p in packages && p.fromCode == "en" && p.toCode == c
    ensures codes == Capabilities(packages)
  {
    codes := {};
    for i := 0 to |packages|
      invariant forall c :: c in codes <==> exists j :: 0 <= j < i && packages[j].fromCode == "en" && packages[j].toCode == c
    {
      if packages[i].fromCode == "en" {
        codes := codes + {packages[i].toCode};
      }
    }
    forall c | c in codes ensures exists p :: p in packages && p.fromCode == "en" && p.toCode == c {
      var j :| 0 <= j < |packages| && packages[j].fromCode == "en" && packages[j].toCode == c;
      assert packages[j] in packages;
    }
    forall c | exists p :: p in packages && p.fromCode == "en" && p.toCode == c ensures c in codes {
      var p :| p in packages && p.fromCode == "en" && p.toCode == c;
      var j :| 0 <= j < |packages| && packages[j] == p;
    }
  }

  /** The manifest filter `[item for item in data if 'en' not in item]` */
  function WithoutEn(data: seq<string>): (r: seq<string>)
    ensures |r| <= |data|
    ensures forall x :: x in r <==> x in data && !Contains(x, "en")
  {
    if |data| == 0 then []
    else (if Contains(data[0], "en") then [] else [data[0]]) + WithoutEn(data[1..])
  }

  /** The base code of a manifest entry: `item.split('_')[0] if '_' in item else item` */
  function BaseCode(item: string): (r: string)
    ensures r == TakeUntil(item, {'_'})
    ensures '_' !in r && item[..|r|] == r
    ensures |r| == |item| || item[|r|] == '_'
  {
    SplitHead(item, {'_'});
    if '_' in item then Split(item, {'_'})[0] else item
  }

  /** The reading of one `en_US.lang` line: strip it and split it at its first `=`, if it has one */
  function ParseLine(line: string): (r: Option<(string, string)>)
    ensures r.None? <==> '=' !in line
    ensures r.Some? ==> Trim(line, Py) == r.value.0 + "=" + r.value.1 && '=' !in r.value.0
  {
    if '=' in line then
      TrimKeeps(line, '=', Py);
      var t := Trim(line, Py);
      var key := TakeUntil(t, {'='});
      var j :| 0 <= j < |t| && t[j] == '=';
      assert |key| <= j;
      assert t == key + "=" + t[|key| + 1..];
      Some((key, t[|key| + 1..]))
    else None
  }

  /** The `key_value_pairs` table after reading `lines` in order (`key_value_pairs[key] = value`) */
  function TableOf(lines: seq<string>): Entries<string, string>
    decreases |lines|
  {
    if |lines| == 0 then []
    else
      var t := TableOf(lines[..|lines| - 1]);
      match ParseLine(lines[|lines| - 1])
      case None => t
      case Some(kv) => Put(t, kv.0, kv.1)
  }

  /** The lines of the file as Python iterates them (each without its newline) */
  function LinesOf(text: string): seq<string> {
    Split(text, {'\n'})
  }

  /** The reading of `en_US.lang` into `key_value_pairs`, as the script runs it */
  method ParseLang(lines: seq<string>) returns (table: Entries<string, string>)
    ensures table == TableOf(lines)
    ensures Unique(table)
  {
    table := [];
    for i := 0 to |lines|
      invariant table == TableOf(lines[..i])
      invariant Unique(table)
    {
      assert lines[..i + 1][..i] == lines[..i];
      var parsed := ParseLine(lines[i]);
      if parsed.Some? {
        PutUnique(table, parsed.value.0, parsed.value.1);
        table := Put(table, parsed.value.0, parsed.value.1);
      }
    }
    assert lines[..|lines|] == lines;
  }

  /** The value of the last line that sets `k`, reading `lines` from the end */
  function LastValue(lines: seq<string>, k: string): Option<string>
    decreases |lines|
  {
    if |lines| == 0 then None
    else
      var p := ParseLine(lines[|lines| - 1]);
      if p.Some? && p.value.0 == k then Some(p.value.1) else LastValue(lines[..|lines| - 1], k)
  }

  /** The keys of the parsing lines, in file order, repeats included */
  function LineKeys(lines: seq<string>): seq<string>
    decreases |lines|
  {
    if |lines| == 0 then []
    else
      var p := ParseLine(lines[|lines| - 1]);
      LineKeys(lines[..|lines| - 1]) + (if p.Some? then [p.value.0] else [])
  }

  /** `s` with every repeat after the first occurrence dropped */
  function FirstOccurrences(s: seq<string>): seq<string>
    decreases |s|
  {
    if |s| == 0 then []
    else
      var d := FirstOccurrences(s[..|s| - 1]);
      if s[|s| - 1] in d then d else d + [s[|s| - 1]]
  }

  /** Last write wins: the table maps each key to the value of its last line. */
  lemma {:induction false} TableLastWriteWins(lines: seq<string>, k: string)
    ensures Get(TableOf(lines), k) == LastValue(lines, k)
    decreases |lines|
  {
    if |lines| > 0 {
      var init := lines[..|lines| - 1];
      TableLastWriteWins(init, k);
      var p := ParseLine(lines[|lines| - 1]);
      if p.Some? {
        GetPut(TableOf(init), p.value.0, p.value.1, k);
      }
    }
  }

  /** A repeated key keeps its first position: the keys are the line keys without repeats. */
  lemma {:induction false} TableKeyOrder(lines: seq<string>)
    ensures Keys(TableOf(lines)) == FirstOccurrences(LineKeys(lines))
    decreases |lines|
  {
    if |lines| > 0 {
      var init := lines[..|lines| - 1];
      TableKeyOrder(init);
      var p := ParseLine(lines[|lines| - 1]);
      if p.Some? {
        KeysPut(TableOf(init), p.value.0, p.value.1);
        var ks := LineKeys(lines);
        assert ks[..|ks| - 1] == LineKeys(init);
      } else {
        assert LineKeys(lines) == LineKeys(init);
      }
    }
  }

  /** The per-entry translation of a locale: the pack name and description pass through, the rest is translated */
  function EntryLine(key: string, value: string, to: string, tr: Translator): Option<string> {
    if key == "pack.name" || key == "pack.description" then Some(key + "=" + value)
    else
      match tr(value, "en", to)
      case None => None
      case Some(t) => Some(key + "=" + t)
  }

  /** The `translatedKeys` of one locale, or `None` once a translation raises */
  function LocaleLines(table: Entries<string, string>, to: string, tr: Translator): Option<seq<string>>
    decreases |table|
  {
    if |table| == 0 then Some([])
    else
      match LocaleLines(table[..|table| - 1], to, tr)
      case None => None
      case Some(ls) =>
        var e := table[|table| - 1];
        match EntryLine(e.0, e.1, to, tr)
        case None => None
        case Some(l) => Some(ls + [l])
  }

  /**
   * Every locale gets exactly one line per table key, in table order, and
   * the locale fails exactly when translating some non-pass-through value raises.
   */
  lemma {:induction false} LocaleLinesShape(table: Entries<string, string>, to: string, tr: Translator)
    ensures LocaleLines(table, to, tr).Some? <==> forall i :: 0 <= i < |table| ==> EntryLine(table[i].0, table[i].1, to, tr).Some?
    ensures LocaleLines(table, to, tr).Some? ==>
      var ls := LocaleLines(table, to, tr).value;
      |ls| == |table| &&
      forall i :: 0 <= i < |table| ==> ls[i] == EntryLine(table[i].0, table[i].1, to, tr).value
    decreases |table|
  {
    if |table| > 0 {
      var init := table[..|table| - 1];
      LocaleLinesShape(init, to, tr);
      assert forall i :: 0 <= i < |init| ==> init[i] == table[i];
    }
  }

  /** The two pass-through keys keep their value, whatever the translator does. */
  lemma PassThroughKept(table: Entries<string, string>, to: string, tr: Translator, i: int)
    requires 0 <= i < |table| && (table[i].0 == "pack.name" || table[i].0 == "pack.description")
    requires LocaleLines(table, to, tr).Some?
    ensures var ls := LocaleLines(table, to, tr).value; i < |ls| && ls[i] == table[i].0 + "=" + table[i].1
  {
    LocaleLinesShape(table, to, tr);
  }

  /** The translation of one locale: the text to write, built line by line */
  method TranslateLocale(table: Entries<string, string>, to: string, tr: Translator) returns (text: Option<string>)
    ensures LocaleLines(table, to, tr).None? ==> text.None?
    ensures LocaleLines(table, to, tr).Some? ==> text == Some(Join(LocaleLines(table, to, tr).value, "\n"))
  {
    var translatedKeys: seq<string> := [];
    for i := 0 to |table|
      invariant LocaleLines(table[..i], to, tr) == Some(translatedKeys)
    {
      assert table[..i + 1][..i] == table[..i];
      var (key, value) := table[i];
      if key == "pack.name" || key == "pack.description" {
        translatedKeys := translatedKeys + [key + "=" + value];
        continue;
      }
      var translated := tr(value, "en", to);
      if translated.None? {
        LocaleFailureSticks(table, i, to, tr);
        return None;
      }
      translatedKeys := translatedKeys + [key + "=" + translated.value];
    }
    assert table[..|table|] == table;
    text := Some(Join(translatedKeys, "\n"));
  }

  /** Once a prefix of the table fails, the whole table fails. */
  lemma {:induction false} LocaleFailureSticks(table: Entries<string, string>, i: int, to: string, tr: Translator)
    requires 0 <= i < |table|
    requires LocaleLines(table[..i + 1], to, tr).None?
    ensures LocaleLines(table, to, tr).None?
    decreases |table|
  {
    if i + 1 < |table| {
      var init := table[..|table| - 1];
      assert init[..i + 1] == table[..i + 1];
      LocaleFailureSticks(init, i, to, tr);
    } else {
      assert table[..i + 1] == table;
    }
  }

  /** The locale loop: the files written for `entries` (output name, base code) and how the loop ended */
  function Locales(entries: seq<(string, string)>, caps: set<string>, table: Entries<string, string>, tr: Translator)
    : (seq<(string, string)>, Option<Failure>)
    decreases |entries|
  {
    if |entries| == 0 then ([], None)
    else
      var (writes, failure) := Locales(entries[..|entries| - 1], caps, table, tr);
      var (name, code) := entries[|entries| - 1];
      if failure.Some? then (writes, failure)
      else if code !in caps then (writes, Some(MissingLanguage(code)))
      else match LocaleLines(table, code, tr)
        case None => (writes, Some(TranslationFailed(code)))
        case Some(ls) => (writes + [(TextsDir + name + ".lang", Join(ls, "\n"))], None)
  }

  /** Whether entry `i` would end the loop */
  predicate Fails(entry: (string, string), caps: set<string>, table: Entries<string, string>, tr: Translator) {
    entry.1 !in caps || LocaleLines(table, entry.1, tr).None?
  }

  /**
   * Fail-fast: the loop writes one file per entry, in order, up to the first
   * entry that fails; nothing is written for that entry or after it, and the
   * failure names its code.
   */
  lemma {:induction false} LocalesStopAtFirstFailure(entries: seq<(string, string)>, caps: set<string>,
                                                     table: Entries<string, string>, tr: Translator)
    ensures var (writes, failure) := Locales(entries, caps, table, tr);
      (failure.None? <==> forall i :: 0 <= i < |entries| ==> !Fails(entries[i], caps, table, tr)) &&
      (failure.None? ==> |writes| == |entries|) &&
      (failure.Some? ==> exists j :: 0 <= j < |entries| && |writes| == j && Fails(entries[j], caps, table, tr) &&
                          failure.value.code == entries[j].1 &&
                          forall i :: 0 <= i < j ==> !Fails(entries[i], caps, table, tr)) &&
      forall i :: 0 <= i < |writes| ==>
        writes[i].0 == TextsDir + entries[i].0 + ".lang" &&
        writes[i].1 == Join(LocaleLines(table, entries[i].1, tr).value, "\n")
    decreases |entries|
  {
    if |entries| > 0 {
      var init := entries[..|entries| - 1];
      LocalesStopAtFirstFailure(init, caps, table, tr);
      assert forall i :: 0 <= i < |init| ==> init[i] == entries[i];
    }
  }

  /** The packages from "en" to a wanted code, in registry order */
  function Needed(packages: seq<Package>, wanted: set<string>): seq<Package> {
    if |packages| == 0 then []
    else
      var p := packages[|packages| - 1];
      Needed(packages[..|packages| - 1], wanted) + (if p.fromCode == "en" && p.toCode in wanted then [p] else [])
  }

  /** The package installation: the packages installed, in registry order */
  method InstallNeeded(packages: seq<Package>, wanted: set<string>) returns (installs: seq<Package>)
    ensures installs == Needed(packages, wanted)
    ensures forall p :: p in installs <==> p in packages && p.fromCode == "en" && p.toCode in wanted
    ensures |installs| <= |packages|
  {
    installs := [];
    for i := 0 to |packages|
      invariant |installs| <= i
      invariant installs == Needed(packages[..i], wanted)
      invariant forall p :: p in installs <==> p in packages[..i] && p.fromCode == "en" && p.toCode in wanted
    {
      assert packages[..i + 1] == packages[..i] + [packages[i]];
      assert packages[..i + 1][..i] == packages[..i];
      if packages[i].fromCode == "en" && packages[i].toCode in wanted {
        installs := installs + [packages[i]];
      }
    }
    assert packages[..|packages|] == packages;
  }

  /** The output name and base code of every kept manifest entry (`data[index]` and `parts_behind_underscore`) */
  function LocaleEntries(kept: seq<string>): (r: seq<(string, string)>)
    ensures |r| == |kept|
    ensures forall i :: 0 <= i < |kept| ==> r[i] == (kept[i], BaseCode(kept[i]))
  {
    seq(|kept|, i requires 0 <= i < |kept| => (kept[i], BaseCode(kept[i])))
  }

  /** The locale loop, writing each file once its text is complete */
  method ProcessLocales(entries: seq<(string, string)>, codes: set<string>, table: Entries<string, string>, tr: Translator)
    returns (writes: seq<(string, string)>, failure: Option<Failure>)
    ensures (writes, failure) == Locales(entries, codes, table, tr)
  {
    writes, failure := [], None;
    var index := 0;
    while index < |entries|
      invariant 0 <= index <= |entries|
      invariant (writes, failure) == Locales(entries[..index], codes, table, tr)
      invariant failure.None?
    {
      assert entries[..index + 1][..index] == entries[..index];
      var (name, code) := entries[index];
      if code in codes {
        var text := TranslateLocale(table, code, tr);
        if text.None? {
          failure := Some(TranslationFailed(code));
          LocalesFailureSticks(entries, index, codes, table, tr);
          return;
        }
        writes := writes + [(TextsDir + name + ".lang", text.value)];
      } else {
        failure := Some(MissingLanguage(code));
        LocalesFailureSticks(entries, index, codes, table, tr);
        return;
      }
      index := index + 1;
    }
    assert entries[..index] == entries;
  }

  /** The set `json_language_codes` of base codes of the kept entries */
  method CollectBaseCodes(data: seq<string>) returns (wanted: set<string>)
    ensures forall c :: c in wanted <==> exists x :: x in data && BaseCode(x) == c
  {
    wanted := {};
    for i := 0 to |data|
      invariant forall c :: c in wanted <==> exists x :: x in data[..i] && BaseCode(x) == c
    {
      assert data[..i + 1] == data[..i] + [data[i]];
      wanted := wanted + {BaseCode(data[i])};
    }
    assert data[..|data|] == data;
  }

  /**
   * The script. `manifestJson` is the manifest as `json.dump` writes it
   * (JSON formatting is outside this model).
   */
  method RunScript(packages: seq<Package>, manifest: seq<string>, manifestJson: string, langText: string, tr: Translator)
    returns (run: Run)
    ensures forall p :: p in run.installs <==>
      p in packages && p.fromCode == "en" && exists x :: x in manifest && !Contains(x, "en") && BaseCode(x) == p.toCode
    ensures |run.writes| >= 2
    ensures run.writes[..2] == [(TextsDir + "languages.json", manifestJson), (TextsDir + "en_GB.lang", langText)]
    ensures (run.writes[2..], run.failure) == Locales(LocaleEntries(WithoutEn(manifest)), Capabilities(packages), TableOf(LinesOf(langText)), tr)
  {
    var codes := CollectCapabilities(packages);
    var data := WithoutEn(manifest);
    var wanted := CollectBaseCodes(data);
    var installs := InstallNeeded(packages, wanted);
    var table := ParseLang(LinesOf(langText));
    var copies := [(TextsDir + "languages.json", manifestJson), (TextsDir + "en_GB.lang", langText)];
    var written, failure := ProcessLocales(LocaleEntries(data), codes, table, tr);
    run := Run(installs, copies + written, failure);
    assert run.writes[2..] == written;
  }

  /** Once the loop has failed on a prefix, later entries change nothing. */
  lemma {:induction false} LocalesFailureSticks(entries: seq<(string, string)>, i: int, caps: set<string>,
                                                table: Entries<string, string>, tr: Translator)
    requires 0 <= i < |entries|
    requires Locales(entries[..i + 1], caps, table, tr).1.Some?
    ensures Locales(entries, caps, table, tr) == Locales(entries[..i + 1], caps, table, tr)
    decreases |entries|
  {
    if i + 1 < |entries| {
      var init := entries[..|entries| - 1];
      assert init[..i + 1] == entries[..i + 1];
      LocalesFailureSticks(init, i, caps, table, tr);
    } else {
      assert entries[..i + 1] == entries;
    }
  }

  /**
   * A `key=value` line whose key has no `=`, with any whitespace around it
   * (such as the line end the file iteration keeps), parses to that pair.
   */
  lemma ParseLineOf(key: string, value: string, u: string, w: string)
    requires '=' !in key && |key| > 0 && |value| > 0
    requires !IsSpace(key[0], Py) && !IsSpace(value[|value| - 1], Py)
    requires forall k :: 0 <= k < |u| ==> IsSpace(u[k], Py)
    requires forall k :: 0 <= k < |w| ==> IsSpace(w[k], Py)
    ensures ParseLine(u + key + "=" + value + w) == Some((key, value))
  {
    var body := key + "=" + value;
    var line := u + key + "=" + value + w;
    assert line == u + (body + w);
    assert body[0] == key[0] && body[|body| - 1] == value[|value| - 1];
    TrimStartBlank(u, body + w, Py);
    assert TrimStart(body + w, Py) == body + w;
    TrimEndBlank(body, w, Py);
    TrimUnchanged(body, Py);
    assert Trim(line, Py) == body;
    TakeUntilAt(key, '=', value, {'='});
    assert '=' in line by { assert line[|u| + |key|] == '='; }
  }
}
