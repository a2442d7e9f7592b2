/**
 * `SchemaGenerator` in external/scripts/schema.js: a TypeScript interface
 * body is read line by line into property descriptions (name, optional
 * mark, type text, doc comment; a property typed `{` holds the properties
 * of a nested object), which become a draft-07 JSON schema. Finding the
 * interface body in the file, and rendering and writing the schema, are
 * left out: the body is an input and the schema a value.
 */
module Schema {
  import opened Base
  import opened Strings
  import opened OrderedMap

  /** A parsed property: its type text, or the properties of a nested object */
  datatype PropInfo =
    | Plain(tsType: string, optional: bool, description: string)
    | Nested(optional: bool, description: string, nested: Entries<string, PropInfo>)

  /** `\w`: an ASCII letter, digit or underscore */
  predicate IsWordChar(c: char) {
    'a' <= c <= 'z' || 'A' <= c <= 'Z' || '0' <= c <= '9' || c == '_'
  }

  /** A property name as `(\w+)` captures it */
  predicate IsWord(s: string) {
    |s| > 0 && forall k :: 0 <= k < |s| ==> IsWordChar(s[k])
  }

  /** `\s*`: whitespace only */
  predicate Blank(w: string) {
    forall k :: 0 <= k < |w| ==> IsSpace(w[k])
  }

  /** `.`: any character but a line terminator */
  predicate IsLineChar(c: char) {
    c != '\n' && c != '\r' && c != '\U{2028}' && c != '\U{2029}'
  }

  /** No character of `t` is a line terminator. */
  predicate OneLine(t: string) {
    |t| == 0 || (IsLineChar(t[0]) && OneLine(t[1..]))
  }

  lemma {:induction false} OneLineIff(t: string)
    ensures OneLine(t) <==> forall k :: 0 <= k < |t| ==> IsLineChar(t[k])
  {
    if |t| > 0 {
      OneLineIff(t[1..]);
      assert forall k :: 1 <= k < |t| ==> t[k] == t[1..][k - 1];
    }
  }

  /**
   * The match of a line whose first `n` characters are word characters:
   * the name runs on while word characters follow; after it come an
   * optional `?`, a colon, whitespace and a non-empty type text without a
   * line terminator.
   */
  function PropertyFrom(line: string, n: nat): (r: Option<(string, bool, string)>)
    requires n <= |line| && forall k :: 0 <= k < n ==> IsWordChar(line[k])
    ensures r.Some? ==> IsWord(r.value.0) && r.value.2 != ""
    decreases |line| - n
  {
    if n < |line| && IsWordChar(line[n]) then PropertyFrom(line, n + 1) else AfterName(line, n)
  }

  /** The match once the name `line[..n]` has ended */
  function AfterName(line: string, n: nat): (r: Option<(string, bool, string)>)
    requires n <= |line|
    ensures r.Some? ==> r.value.0 == line[..n] && n > 0 && r.value.2 != ""
  {
    var rest := line[n..];
    var optional := |rest| > 0 && rest[0] == '?';
    var afterMark := if optional then rest[1..] else rest;
    if n == 0 || |afterMark| == 0 || afterMark[0] != ':' then None
    else
      var t := TrimStart(afterMark[1..]);
      if t == "" || !OneLine(t) then None
      else Some((line[..n], optional, t))
  }

  /**
   * `line.match(/^(\w+)(\?)?:\s*(.+);?\s*$/)` on a trimmed line: the name,
   * whether it is optional, and the type text. As the line does not end in
   * whitespace, the type is everything after the colon and the spaces
   * following it, and it must be non-empty and hold no line terminator.
   */
  function PropertyLine(line: string): (r: Option<(string, bool, string)>)
    ensures r.Some? ==> IsWord(r.value.0) && r.value.2 != ""
  {
    PropertyFrom(line, 0)
  }

  /** The split of a line matched once its name has ended */
  lemma AfterNameShape(line: string, n: nat, name: string, optional: bool, t: string)
    requires n <= |line|
    requires AfterName(line, n) == Some((name, optional, t))
    ensures !IsSpace(t[0]) && (forall k :: 0 <= k < |t| ==> IsLineChar(t[k]))
    ensures exists w :: Blank(w) && line == name + (if optional then "?:" else ":") + w + t
  {
    var mark := if optional then "?:" else ":";
    var after := line[n + |mark|..];
    assert line[n..n + |mark|] == mark;
    assert line == line[..n] + line[n..n + |mark|] + after;
    MarkedShape(line, name, mark, after, t);
  }

  /** The name and mark, then the text whose leading whitespace is dropped to give the type */
  lemma MarkedShape(line: string, name: string, mark: string, after: string, t: string)
    requires line == name + mark + after && t == TrimStart(after) && OneLine(t) && t != ""
    ensures !IsSpace(t[0]) && (forall k :: 0 <= k < |t| ==> IsLineChar(t[k]))
    ensures exists w :: Blank(w) && line == name + mark + w + t
  {
    OneLineIff(t);
    var w := SpacesBefore(after);
    assert line == name + mark + w + t;
  }

  /** A text is the whitespace `TrimStart` drops followed by what it keeps. */
  lemma SpacesBefore(s: string) returns (w: string)
    ensures Blank(w) && s == w + TrimStart(s)
    ensures var t := TrimStart(s); |t| == 0 || !IsSpace(t[0])
  {
    TrimStartShape(s);
    var t := TrimStart(s);
    w := s[..|s| - |t|];
    assert s == w + t;
  }

  /** A matched line is the name, the optional mark, the colon, some whitespace and the type. */
  lemma {:induction false} PropertyFromShape(line: string, n: nat)
    requires n <= |line| && forall k :: 0 <= k < n ==> IsWordChar(line[k])
    requires PropertyFrom(line, n).Some?
    ensures var (name, optional, t) := PropertyFrom(line, n).value;
      !IsSpace(t[0]) && (forall k :: 0 <= k < |t| ==> IsLineChar(t[k])) &&
      exists w :: Blank(w) &&
        line == name + (if optional then "?:" else ":") + w + t
    decreases |line| - n
  {
    if n < |line| && IsWordChar(line[n]) {
      PropertyFromShape(line, n + 1);
    } else {
      var (name, optional, t) := AfterName(line, n).value;
      AfterNameShape(line, n, name, optional, t);
    }
  }

  /**
   * A matched line is the name, the optional mark, the colon, some
   * whitespace and the type, which starts with no whitespace and holds no
   * line terminator.
   */
  lemma PropertyLineShape(line: string)
    requires PropertyLine(line).Some?
    ensures var (name, optional, t) := PropertyLine(line).value;
      !IsSpace(t[0]) && (forall k :: 0 <= k < |t| ==> IsLineChar(t[k])) &&
      exists w :: Blank(w) &&
        line == name + (if optional then "?:" else ":") + w + t
  {
    PropertyFromShape(line, 0);
  }

  /** Scanning over word characters does not change the match. */
  lemma {:induction false} PropertyFromSkip(line: string, n: nat, m: nat)
    requires n <= m <= |line| && forall k :: 0 <= k < m ==> IsWordChar(line[k])
    ensures PropertyFrom(line, n) == PropertyFrom(line, m)
    decreases m - n
  {
    if n < m {
      PropertyFromSkip(line, n + 1, m);
    }
  }

  /** A line `name:` or `name?:`, then any whitespace, then the type, matches with that name, mark and type. */
  lemma PropertyLineOf(name: string, optional: bool, w: string, t: string)
    requires IsWord(name) && t != "" && !IsSpace(t[0]) && Blank(w)
    requires forall k :: 0 <= k < |t| ==> IsLineChar(t[k])
    ensures PropertyLine(name + (if optional then "?:" else ":") + w + t) == Some((name, optional, t))
  {
    var mark := if optional then "?:" else ":";
    var rest := w + t;
    var line := name + mark + w + t;
    assert line == name + (mark + rest);
    assert forall k :: 0 <= k < |name| ==> line[k] == name[k];
    PropertyFromSkip(line, 0, |name|);
    assert line[|name|..] == mark + rest;
    assert !IsWordChar(line[|name|]);
    var afterMark := if optional then line[|name| + 1..] else line[|name|..];
    assert afterMark == ":" + rest by {
      if optional {
        assert line[|name| + 1..] == (mark + rest)[1..];
      }
    }
    assert afterMark[1..] == rest;
    TrimStartBlank(w, t);
    assert TrimStart(t) == t;
    OneLineIff(t);
    assert line[..|name|] == name;
  }

  /** `propType.replace(";", "").trim()`: the first `;` dropped */
  function TypeText(t: string): string {
    Trim(RemoveFirst(t, ';'))
  }

  /** Drops the leading `*` run and the whitespace after it. */
  function DropStars(s: string): string
    decreases |s|
  {
    if |s| > 0 && s[0] == '*' then DropStars(s[1..]) else TrimStart(s)
  }

  // The text of a top-level doc-comment line: an optional slash and the
  // run of stars at the start are dropped with the spaces after them, then
  // a closing star-slash at the end, then the rest is trimmed.
  function CommentText(line: string): string {
    var head :=
      if |line| >= 2 && line[0] == '/' && line[1] == '*' then DropStars(line[1..])
      else if |line| >= 1 && line[0] == '*' then DropStars(line)
      else line;
    var closed := if EndsWith(head, "*/") then head[..|head| - 2] else head;
    Trim(closed)
  }

  // The text of a nested comment line starting with a star: that star is
  // dropped, then the rest is trimmed.
  function NestedCommentText(line: string): string
    requires |line| > 0
  {
    Trim(line[1..])
  }

  /** `+1` for a line holding `{`, `-1` for one holding `}` (both: no change) */
  function BraceDelta(line: string): int {
    (if '{' in line then 1 else 0) - (if '}' in line then 1 else 0)
  }

  /** Trimming keeps every brace, so a line counts the same trimmed or not. */
  lemma BraceDeltaTrim(line: string)
    ensures BraceDelta(Trim(line)) == BraceDelta(line)
  {
    TrimChars(line);
    if '{' in line {
      TrimKeeps(line, '{');
    }
    if '}' in line {
      TrimKeeps(line, '}');
    }
  }

  /** The brace count after the lines from `start` up to `j`, counted from 1 */
  function Depth(lines: seq<string>, start: nat, j: nat): int
    requires start <= j <= |lines|
    decreases j
  {
    if j == start then 1 else Depth(lines, start, j - 1) + BraceDelta(lines[j - 1])
  }

  /**
   * `parseNestedObject` from line `i` with brace count `braces`, the pending
   * comment and the properties so far: the properties and the index at which
   * the loop stopped.
   */
  function NestedFrom(lines: seq<string>, i: nat, braces: int, comment: string, props: Entries<string, PropInfo>): (r: (Entries<string, PropInfo>, nat))
    ensures i <= |lines| ==> i <= r.1 <= |lines|
    ensures i > |lines| ==> r.1 == i
    decreases |lines| - i
  {
    if i >= |lines| || braces <= 0 then (props, i)
    else
      var line := Trim(lines[i]);
      var count := braces + BraceDelta(line);
      if count == 0 then (props, i)
      else
        var (c, p) := NestedStep(line, comment, props);
        NestedFrom(lines, i + 1, count, c, p)
  }

  /**
   * The pending comment and the properties after a nested line that does not
   * close the object: a comment line with text replaces the comment, and a
   * property line adds a plain property carrying the comment, which it uses up.
   */
  function NestedStep(line: string, comment: string, props: Entries<string, PropInfo>): (string, Entries<string, PropInfo>) {
    if StartsWith(line, "*") then
      var c := NestedCommentText(line);
      (if c != "" then c else comment, props)
    else
      var m := PropertyLine(line);
      if m.Some? then ("", Put(props, m.value.0, Plain(TypeText(m.value.2), m.value.1, comment)))
      else (comment, props)
  }

  /**
   * One line of the nested loop: the brace count after it, and the pending
   * comment and properties after it (used only when the count stays positive).
   */
  method NestedLine(line: string, braces: int, comment: string, props: Entries<string, PropInfo>)
    returns (count: int, c: string, p: Entries<string, PropInfo>)
    ensures count == braces + BraceDelta(line)
    ensures (c, p) == NestedStep(line, comment, props)
  {
    count := braces;
    if '{' in line { count := count + 1; }
    if '}' in line { count := count - 1; }
    c, p := comment, props;
    if StartsWith(line, "*") {
      var text := NestedCommentText(line);
      if text != "" {
        c := text;
      }
      return;
    }
    var m := PropertyLine(line);
    if m.Some? {
      p := Put(props, m.value.0, Plain(TypeText(m.value.2), m.value.1, comment));
      c := "";
    }
  }

  /** The nested loop over a line array, starting at `start` with a count of 1 */
  method ParseNestedObject(lines: seq<string>, start: nat) returns (props: Entries<string, PropInfo>, end: nat)
    requires start <= |lines|
    ensures (props, end) == NestedFrom(lines, start, 1, "", [])
    ensures start <= end <= |lines|
  {
    props := [];
    var comment := "";
    var braceCount := 1;
    var i := start;
    while i < |lines| && braceCount > 0
      invariant start <= i <= |lines|
      invariant NestedFrom(lines, i, braceCount, comment, props) == NestedFrom(lines, start, 1, "", [])
      decreases |lines| - i
    {
      var line := Trim(lines[i]);
      var count, c, p := NestedLine(line, braceCount, comment, props);
      if count == 0 {
        braceCount := count;
        break;
      }
      assert NestedFrom(lines, i, braceCount, comment, props) == NestedFrom(lines, i + 1, count, c, p);
      braceCount, comment, props := count, c, p;
      i := i + 1;
    }
    end := i;
  }

  /**
   * The count stays positive on every line before the one where the nested
   * loop stops, and reaches 0 on that line unless the lines ran out.
   */
  lemma {:induction false} NestedEndGeneral(lines: seq<string>, start: nat, i: nat, comment: string, props: Entries<string, PropInfo>)
    requires start <= i <= |lines|
    requires Depth(lines, start, i) > 0
    requires forall j :: start < j <= i ==> Depth(lines, start, j) > 0
    ensures var end := NestedFrom(lines, i, Depth(lines, start, i), comment, props).1;
      i <= end <= |lines| &&
      (forall j :: start < j <= end ==> Depth(lines, start, j) > 0) &&
      (end < |lines| ==> Depth(lines, start, end + 1) == 0)
    decreases |lines| - i
  {
    if i < |lines| {
      var depth := Depth(lines, start, i);
      var count := depth + BraceDelta(lines[i]);
      assert count == Depth(lines, start, i + 1);
      if count == 0 {
        NestedFromStops(lines, i, depth, comment, props);
      } else {
        var c, p := NestedFromNext(lines, i, depth, comment, props);
        NestedEndGeneral(lines, start, i + 1, c, p);
      }
    }
  }

  /** The nested loop stops at a line that brings the count to 0. */
  lemma NestedFromStops(lines: seq<string>, i: nat, braces: int, comment: string, props: Entries<string, PropInfo>)
    requires i < |lines| && braces > 0 && braces + BraceDelta(lines[i]) == 0
    ensures NestedFrom(lines, i, braces, comment, props).1 == i
  {
    BraceDeltaTrim(lines[i]);
  }

  /** A line that leaves the count positive passes the loop on to the next line. */
  lemma NestedFromNext(lines: seq<string>, i: nat, braces: int, comment: string, props: Entries<string, PropInfo>)
    returns (c: string, p: Entries<string, PropInfo>)
    requires i < |lines| && braces > 0 && braces + BraceDelta(lines[i]) != 0
    ensures NestedFrom(lines, i, braces, comment, props) == NestedFrom(lines, i + 1, braces + BraceDelta(lines[i]), c, p)
  {
    BraceDeltaTrim(lines[i]);
    var next := NestedStep(Trim(lines[i]), comment, props);
    c, p := next.0, next.1;
  }

  /**
   * A nested object ends at the first line where the brace count, starting
   * at 1, reaches 0 (or at the end of the lines when it never does).
   */
  lemma NestedEnd(lines: seq<string>, start: nat)
    requires start <= |lines|
    ensures var end := NestedFrom(lines, start, 1, "", []).1;
      start <= end <= |lines| &&
      (forall j :: start < j <= end ==> Depth(lines, start, j) > 0) &&
      (end < |lines| ==> Depth(lines, start, end + 1) == 0)
  {
    NestedEndGeneral(lines, start, start, "", []);
  }

  /**
   * `parseProperties` from line `i` with the pending comment and the
   * properties so far. A property typed `{` takes the nested object's
   * properties, and parsing resumes after the line where that object ended.
   */
  function TopFrom(lines: seq<string>, i: nat, comment: string, props: Entries<string, PropInfo>): Entries<string, PropInfo>
    decreases |lines| + 1 - i
  {
    if i >= |lines| then props
    else
      var (next, c, p) := TopStep(lines, i, comment, props);
      TopFrom(lines, next, c, p)
  }

  /**
   * The line to read next, the pending comment and the properties after line
   * `i`: a doc-comment line sets the comment; a property line adds a property
   * carrying the comment, which it uses up; a property typed `{` takes the
   * nested object's properties and reading resumes after its last line.
   */
  function TopStep(lines: seq<string>, i: nat, comment: string, props: Entries<string, PropInfo>): (r: (nat, string, Entries<string, PropInfo>))
    requires i < |lines|
    ensures i < r.0 <= |lines| + 1
  {
    var line := Trim(lines[i]);
    if StartsWith(line, "/**") then (i + 1, CommentText(line), props)
    else
      var m := PropertyLine(line);
      if m.None? then (i + 1, comment, props)
      else if Trim(m.value.2) == "{" then
        var (nested, end) := NestedFrom(lines, i + 1, 1, "", []);
        (end + 1, "", Put(props, m.value.0, Nested(m.value.1, comment, nested)))
      else (i + 1, "", Put(props, m.value.0, Plain(TypeText(m.value.2), m.value.1, comment)))
  }

  /**
   * A doc-comment line sets the pending comment; the next property line
   * records it as that property's description and clears it; any other line
   * leaves it pending.
   */
  lemma CommentAttaches(lines: seq<string>, i: nat, comment: string, props: Entries<string, PropInfo>)
    requires i < |lines|
    ensures var line := Trim(lines[i]); var (next, c, p) := TopStep(lines, i, comment, props);
      (StartsWith(line, "/**") ==> next == i + 1 && c == CommentText(line) && p == props) &&
      (!StartsWith(line, "/**") && PropertyLine(line).None? ==> next == i + 1 && c == comment && p == props) &&
      (!StartsWith(line, "/**") && PropertyLine(line).Some? ==>
        c == "" && Get(p, PropertyLine(line).value.0).Some? &&
        Get(p, PropertyLine(line).value.0).value.description == comment)
  {
    var line := Trim(lines[i]);
    var m := PropertyLine(line);
    if !StartsWith(line, "/**") && m.Some? {
      if Trim(m.value.2) == "{" {
        var (nested, end) := NestedFrom(lines, i + 1, 1, "", []);
        GetPut(props, m.value.0, Nested(m.value.1, comment, nested), m.value.0);
      } else {
        GetPut(props, m.value.0, Plain(TypeText(m.value.2), m.value.1, comment), m.value.0);
      }
    }
  }

  /** `interfaceBody.split("\n")` */
  function Lines(body: string): seq<string> {
    Split(body, {'\n'})
  }

  /** The properties of an interface body */
  function Properties(body: string): Entries<string, PropInfo> {
    TopFrom(Lines(body), 0, "", [])
  }

  /** The `parseProperties` loop; the index jumps past a nested object. */
  method ParseProperties(body: string) returns (props: Entries<string, PropInfo>)
    ensures props == Properties(body)
  {
    props := [];
    var comment := "";
    var lines := Lines(body);
    var i := 0;
    while i < |lines|
      invariant i <= |lines| + 1
      invariant TopFrom(lines, i, comment, props) == Properties(body)
      decreases |lines| + 1 - i
    {
      ghost var (next, c, p) := TopStep(lines, i, comment, props);
      assert TopFrom(lines, i, comment, props) == TopFrom(lines, next, c, p);
      var line := Trim(lines[i]);
      if StartsWith(line, "/**") {
        comment := CommentText(line);
        i := i + 1;
        assert i == next && comment == c && props == p;
        continue;
      }
      var m := PropertyLine(line);
      if m.Some? {
        if Trim(m.value.2) == "{" {
          var nested, end := ParseNestedObject(lines, i + 1);
          props := Put(props, m.value.0, Nested(m.value.1, comment, nested));
          i := end;
        } else {
          props := Put(props, m.value.0, Plain(TypeText(m.value.2), m.value.1, comment));
        }
        comment := "";
      }
      i := i + 1;
      assert i == next && comment == c && props == p;
    }
  }

  /** Every key is a word and the keys are distinct. */
  ghost predicate WellKeyed(props: Entries<string, PropInfo>) {
    Unique(props) && forall i :: 0 <= i < |props| ==> IsWord(props[i].0)
  }

  /** Assigning a word-named property keeps the keys distinct words. */
  lemma PutWellKeyed(props: Entries<string, PropInfo>, name: string, p: PropInfo)
    requires WellKeyed(props) && IsWord(name)
    ensures WellKeyed(Put(props, name, p))
  {
    PutUnique(props, name, p);
  }

  /** Properties with distinct word keys, none of them an object */
  ghost predicate FlatWellKeyed(props: Entries<string, PropInfo>) {
    WellKeyed(props) && forall k :: 0 <= k < |props| ==> props[k].1.Plain?
  }

  /** One nested line keeps the keys distinct words and the values plain. */
  lemma NestedStepWellKeyed(line: string, comment: string, props: Entries<string, PropInfo>)
    requires FlatWellKeyed(props)
    ensures FlatWellKeyed(NestedStep(line, comment, props).1)
  {
    var m := PropertyLine(line);
    if !StartsWith(line, "*") && m.Some? {
      var p := Plain(TypeText(m.value.2), m.value.1, comment);
      PutWellKeyed(props, m.value.0, p);
      var props' := Put(props, m.value.0, p);
      forall k | 0 <= k < |props'| ensures props'[k].1.Plain? {
        if m.value.0 !in Keys(props) {
          assert props' == props + [(m.value.0, p)];
        }
      }
    }
  }

  /** A nested object's keys are distinct words, and nested properties are never objects themselves. */
  lemma {:induction false} NestedWellKeyed(lines: seq<string>, i: nat, braces: int, comment: string, props: Entries<string, PropInfo>)
    requires FlatWellKeyed(props)
    ensures FlatWellKeyed(NestedFrom(lines, i, braces, comment, props).0)
    decreases |lines| - i
  {
    if i < |lines| && braces > 0 {
      var line := Trim(lines[i]);
      var count := braces + BraceDelta(line);
      if count != 0 {
        NestedStepWellKeyed(line, comment, props);
        var (c, p) := NestedStep(line, comment, props);
        NestedWellKeyed(lines, i + 1, count, c, p);
      }
    }
  }

  /** Properties with distinct word keys, whose nested objects have distinct word keys */
  ghost predicate TopWellKeyedProps(props: Entries<string, PropInfo>) {
    WellKeyed(props) && forall k :: 0 <= k < |props| && props[k].1.Nested? ==> WellKeyed(props[k].1.nested)
  }

  /** One top-level line keeps the keys distinct words, in nested objects too. */
  lemma TopStepWellKeyed(lines: seq<string>, i: nat, comment: string, props: Entries<string, PropInfo>)
    requires i < |lines| && TopWellKeyedProps(props)
    ensures TopWellKeyedProps(TopStep(lines, i, comment, props).2)
  {
    var line := Trim(lines[i]);
    var m := PropertyLine(line);
    if !StartsWith(line, "/**") && m.Some? {
      var p;
      if Trim(m.value.2) == "{" {
        var (nested, end) := NestedFrom(lines, i + 1, 1, "", []);
        NestedWellKeyed(lines, i + 1, 1, "", []);
        p := Nested(m.value.1, comment, nested);
      } else {
        p := Plain(TypeText(m.value.2), m.value.1, comment);
      }
      PutWellKeyed(props, m.value.0, p);
      var props' := Put(props, m.value.0, p);
      forall k | 0 <= k < |props'| && props'[k].1.Nested? ensures WellKeyed(props'[k].1.nested) {
        if m.value.0 !in Keys(props) {
          assert props' == props + [(m.value.0, p)];
        }
      }
    }
  }

  /** The parsed properties have distinct word keys, and a nested object's keys are distinct words too. */
  lemma {:induction false} TopWellKeyed(lines: seq<string>, i: nat, comment: string, props: Entries<string, PropInfo>)
    requires TopWellKeyedProps(props)
    ensures TopWellKeyedProps(TopFrom(lines, i, comment, props))
    decreases |lines| + 1 - i
  {
    if i < |lines| {
      TopStepWellKeyed(lines, i, comment, props);
      var (next, c, p) := TopStep(lines, i, comment, props);
      TopWellKeyed(lines, next, c, p);
    }
  }

  /** The schema type of a property */
  datatype SchemaType =
    | StringType
    | NumberType
    | BooleanType
    /** `{ type: "array", items: { type: "string" }, uniqueItems: true }` */
    | StringArray
    /** `{ type: "string", enum: values }` */
    | StringEnum(values: seq<string>)

  /** One alternative of a union: trimmed, then every quote character removed */
  function Alternative(p: string): string {
    RemoveAll(Trim(p), {'\'', '"'})
  }

  /** The non-empty cleaned alternatives, in order */
  function Alternatives(ps: seq<string>): (r: seq<string>)
    ensures |r| <= |ps|
  {
    if |ps| == 0 then []
    else
      var v := Alternative(ps[|ps| - 1]);
      Alternatives(ps[..|ps| - 1]) + (if v != "" then [v] else [])
  }

  /** `tsType.split("|").map(...).filter(v => v !== "")` */
  function EnumValues(t: string): seq<string> {
    Alternatives(Split(t, {'|'}))
  }

  /** `setPropertyType` */
  function SetPropertyType(t: string): SchemaType {
    if t == "string" then StringType
    else if t == "number" then NumberType
    else if t == "boolean" then BooleanType
    else if t == "string[]" then StringArray
    else if '|' in t then StringEnum(EnumValues(t))
    else StringType
  }

  /**
   * `number`, `boolean` and `string[]` map to their own schema types; a
   * union becomes the string enum of its alternatives; everything else,
   * `string` included, is a string.
   */
  lemma TypeMapping(t: string)
    ensures SetPropertyType(t) == NumberType <==> t == "number"
    ensures SetPropertyType(t) == BooleanType <==> t == "boolean"
    ensures SetPropertyType(t) == StringArray <==> t == "string[]"
    ensures SetPropertyType(t).StringEnum? <==> t !in {"string", "number", "boolean", "string[]"} && '|' in t
    ensures SetPropertyType(t).StringEnum? ==> SetPropertyType(t).values == EnumValues(t)
    ensures SetPropertyType(t) == StringType <==> t !in {"number", "boolean", "string[]"} && (t == "string" || '|' !in t)
  {
  }

  /** Each enum value comes from one piece of the union: non-empty, without quotes and without `|`. */
  lemma {:induction false} AlternativesFrom(ps: seq<string>)
    ensures forall v :: v in Alternatives(ps) <==> v != "" && exists p :: p in ps && Alternative(p) == v
    ensures forall v :: v in Alternatives(ps) ==> '\'' !in v && '"' !in v
  {
    if |ps| > 0 {
      var init := ps[..|ps| - 1];
      AlternativesFrom(init);
      assert ps == init + [ps[|ps| - 1]];
      forall v | v != "" && (exists p :: p in ps && Alternative(p) == v) ensures v in Alternatives(ps) {
        var p :| p in ps && Alternative(p) == v;
        if p != ps[|ps| - 1] {
          assert p in init;
        }
      }
    }
  }

  /** The enum values are the union's alternatives without quotes; none is empty or holds `|`. */
  lemma EnumValuesShape(t: string)
    ensures forall v :: v in EnumValues(t) <==> v != "" && exists p :: p in Split(t, {'|'}) && Alternative(p) == v
    ensures forall v :: v in EnumValues(t) ==> '|' !in v && '\'' !in v && '"' !in v
  {
    AlternativesFrom(Split(t, {'|'}));
    SplitPiecesFree(t, {'|'});
    forall v | v in EnumValues(t) ensures '|' !in v {
      var p :| p in Split(t, {'|'}) && Alternative(p) == v;
      TrimChars(p);
      assert forall c :: c in v ==> c in Trim(p);
    }
  }

  /** The schema of one property; `additionalProperties: false` is implied by `Object`. */
  datatype PropSchema = PropSchema(description: Option<string>, body: Body)
  datatype Body =
    | Typed(schemaType: SchemaType)
    | Object(properties: Entries<string, PropSchema>, required: seq<string>)

  /** The entry every properties map starts with */
  const SchemaEntry: (string, PropSchema) := ("$schema", PropSchema(None, Typed(StringType)))

  /** `getRequiredFields`: the names of the properties not marked optional, in order */
  function RequiredFields(props: Entries<string, PropInfo>): (r: seq<string>)
    ensures |r| <= |props|
  {
    if |props| == 0 then []
    else
      var last := props[|props| - 1];
      RequiredFields(props[..|props| - 1]) + (if !last.1.optional then [last.0] else [])
  }

  /** The required names are exactly the names of the properties not marked optional. */
  lemma {:induction false} RequiredFieldsMembers(props: Entries<string, PropInfo>)
    ensures forall name :: name in RequiredFields(props) <==>
      exists i :: 0 <= i < |props| && props[i].0 == name && !props[i].1.optional
  {
    if |props| > 0 {
      var init := props[..|props| - 1];
      RequiredFieldsMembers(init);
      assert forall i :: 0 <= i < |init| ==> init[i] == props[i];
    }
  }

  /** The schema of one parsed property */
  function PropertySchema(p: PropInfo): PropSchema
    decreases p, if p.Nested? then |p.nested| + 1 else 0
  {
    var description := if p.description != "" then Some(p.description) else None;
    match p
    case Plain(t, _, _) => PropSchema(description, Typed(SetPropertyType(t)))
    case Nested(_, _, nested) => PropSchema(description, Object(BuildFrom(p, |nested|), RequiredFields(nested)))
  }

  /** The properties map of a nested object after its first `n` properties */
  function BuildFrom(p: PropInfo, n: nat): Entries<string, PropSchema>
    requires p.Nested? && n <= |p.nested|
    decreases p, n
  {
    if n == 0 then [SchemaEntry]
    else Put(BuildFrom(p, n - 1), p.nested[n - 1].0, PropertySchema(p.nested[n - 1].1))
  }

  /** `buildSchemaProperties`: `$schema` first, then each property assigned in order */
  function BuildSchemaProperties(props: Entries<string, PropInfo>): Entries<string, PropSchema> {
    BuildFrom(Nested(false, "", props), |props|)
  }

  /** The key `$schema` is not a word, so no property name equals it. */
  lemma SchemaKeyNotWord(name: string)
    requires IsWord(name)
    ensures name != SchemaEntry.0
  {
    assert IsWordChar(name[0]);
  }

  /** A key no entry carries is not among the keys. */
  lemma KeyAbsent<V>(m: Entries<string, V>, k: string)
    requires forall t :: 0 <= t < |m| ==> m[t].0 != k
    ensures k !in Keys(m)
  {
  }

  /** One schema per property, under the property's name, in order */
  function Schemas(props: Entries<string, PropInfo>): Entries<string, PropSchema> {
    if |props| == 0 then []
    else Schemas(props[..|props| - 1]) + [(props[|props| - 1].0, PropertySchema(props[|props| - 1].1))]
  }

  /** Entry `i` of `Schemas` is the schema of property `i` under its name. */
  lemma {:induction false} SchemasAt(props: Entries<string, PropInfo>)
    ensures |Schemas(props)| == |props|
    ensures forall i :: 0 <= i < |props| ==> Schemas(props)[i] == (props[i].0, PropertySchema(props[i].1))
  {
    if |props| > 0 {
      var init := props[..|props| - 1];
      SchemasAt(init);
      assert forall i :: 0 <= i < |init| ==> init[i] == props[i];
    }
  }

  /** Over the first `n` distinct word-named properties: `$schema`, then one schema per property. */
  lemma {:induction false} BuildFromShape(p: PropInfo, n: nat)
    requires p.Nested? && WellKeyed(p.nested) && n <= |p.nested|
    ensures BuildFrom(p, n) == [SchemaEntry] + Schemas(p.nested[..n])
  {
    if n > 0 {
      BuildFromShape(p, n - 1);
      var init := p.nested[..n - 1];
      var r := [SchemaEntry] + Schemas(init);
      var name := p.nested[n - 1].0;
      var e := (name, PropertySchema(p.nested[n - 1].1));
      assert name !in Keys(r) by {
        SchemasAt(init);
        forall t | 0 <= t < |r| ensures r[t].0 != name {
          if t == 0 {
            SchemaKeyNotWord(name);
          } else {
            assert r[t] == Schemas(init)[t - 1];
            assert init[t - 1] == p.nested[t - 1];
          }
        }
        KeyAbsent(r, name);
      }
      assert BuildFrom(p, n) == r + [e];
      assert p.nested[..n][..n - 1] == init;
      assert Schemas(p.nested[..n]) == Schemas(init) + [e];
    }
  }

  /**
   * With distinct word-named properties, the map is `$schema` followed by
   * one schema per property, in property order.
   */
  lemma BuildShape(props: Entries<string, PropInfo>)
    requires WellKeyed(props)
    ensures var r := BuildSchemaProperties(props);
      |r| == |props| + 1 && r[0] == SchemaEntry &&
      forall i :: 0 <= i < |props| ==> r[i + 1] == (props[i].0, PropertySchema(props[i].1))
  {
    BuildFromShape(Nested(false, "", props), |props|);
    assert props[..|props|] == props;
    SchemasAt(props);
  }

  /** The root schema; it is an `object` with `additionalProperties: false`. */
  datatype RootSchema = RootSchema(
    schemaUri: string, title: string, description: string,
    properties: Entries<string, PropSchema>, required: seq<string>)

  const Draft07 := "http://json-schema.org/draft-07/schema#"

  /** The schema of an interface whose body is `body` */
  function Generate(interfaceName: string, body: string): RootSchema {
    var props := Properties(body);
    RootSchema(
      Draft07, "MC " + interfaceName + " Schema", "Auto-generated schema for mc " + interfaceName,
      BuildSchemaProperties(props), RequiredFields(props))
  }

  /**
   * The generated schema: draft-07, titled after the interface, with
   * `$schema` and then one entry per parsed property in order, and the
   * required list naming exactly the properties not marked optional.
   */
  lemma GenerateShape(interfaceName: string, body: string)
    ensures var s := Generate(interfaceName, body); var props := Properties(body);
      s.schemaUri == Draft07 &&
      s.title == "MC " + interfaceName + " Schema" &&
      |s.properties| == |props| + 1 && s.properties[0] == SchemaEntry &&
      (forall i :: 0 <= i < |props| ==> s.properties[i + 1] == (props[i].0, PropertySchema(props[i].1))) &&
      forall name :: name in s.required <==> exists i :: 0 <= i < |props| && props[i].0 == name && !props[i].1.optional
  {
    TopWellKeyed(Lines(body), 0, "", []);
    BuildShape(Properties(body));
    RequiredFieldsMembers(Properties(body));
  }

  /** A nested object's schema also lists `$schema` first, then its properties in order. */
  lemma NestedSchemaShape(body: string, i: nat)
    requires i < |Properties(body)| && Properties(body)[i].1.Nested?
    ensures var nested := Properties(body)[i].1.nested;
      var s := PropertySchema(Properties(body)[i].1);
      s.body.Object? && |s.body.properties| == |nested| + 1 &&
      s.body.properties[0] == SchemaEntry && s.body.required == RequiredFields(nested)
  {
    TopWellKeyed(Lines(body), 0, "", []);
    var p := Properties(body)[i].1;
    BuildFromShape(p, |p.nested|);
    assert p.nested[..|p.nested|] == p.nested;
    SchemasAt(p.nested);
  }
}
