/**
 * String helpers shared by the models: the JavaScript and Python string
 * operations the tool relies on (`startsWith`, `endsWith`, `includes`,
 * `split`, `join`, `trim`, `toLowerCase`, number formatting), written over
 * `string` = `seq<char>`.
 */
module Strings {

  /** `s.startsWith(p)` */
  predicate StartsWith(s: string, p: string) {
    |p| <= |s| && s[..|p|] == p
  }

  /** `s.endsWith(p)` */
  predicate EndsWith(s: string, p: string) {
    |p| <= |s| && s[|s| - |p|..] == p
  }

  /** `s.includes(sub)` (JavaScript) and `sub in s` (Python), by scanning from the left */
  predicate Contains(s: string, sub: string)
    decreases |s|
  {
    StartsWith(s, sub) || (|s| > 0 && Contains(s[1..], sub))
  }

  /** `sub` occurs in `s` at index `i` */
  predicate OccursAt(s: string, sub: string, i: int) {
    0 <= i && i + |sub| <= |s| && s[i..i + |sub|] == sub
  }

  /** The scanning definition of `Contains` agrees with "occurs at some index". */
  lemma {:induction false} ContainsIff(s: string, sub: string)
    ensures Contains(s, sub) <==> exists i :: OccursAt(s, sub, i)
    decreases |s|
  {
    if |s| > 0 {
      ContainsIff(s[1..], sub);
    }
    forall i | OccursAt(s, sub, i)
      ensures i == 0 ==> StartsWith(s, sub)
      ensures i > 0 ==> |s| > 0 && OccursAt(s[1..], sub, i - 1)
    {
      if i > 0 {
        assert s[1..][i - 1..i - 1 + |sub|] == s[i..i + |sub|];
      }
    }
    if StartsWith(s, sub) {
      assert OccursAt(s, sub, 0);
    } else if |s| > 0 && Contains(s[1..], sub) {
      var j :| OccursAt(s[1..], sub, j);
      assert s[j + 1..j + 1 + |sub|] == s[1..][j..j + |sub|];
      assert OccursAt(s, sub, j + 1);
    }
  }

  /** A one-character needle is contained exactly when the character is an element. */
  lemma {:induction false} ContainsChar(s: string, c: char)
    ensures Contains(s, [c]) <==> c in s
    decreases |s|
  {
    if |s| > 0 {
      ContainsChar(s[1..], c);
      assert s == [s[0]] + s[1..];
    }
  }

  /** Whatever contains `a + sub + b` contains `sub`. */
  lemma ContainsInfix(a: string, sub: string, b: string)
    ensures Contains(a + sub + b, sub)
  {
    var s := a + sub + b;
    assert s[|a|..|a| + |sub|] == sub;
    assert OccursAt(s, sub, |a|);
    ContainsIff(s, sub);
  }

  /**
   * `s.split(c)` for a separator class: the pieces between separator
   * characters, in order; the empty string splits into `[""]`.
   */
  function Split(s: string, seps: set<char>): (r: seq<string>)
    ensures |r| >= 1
    decreases |s|
  {
    if |s| == 0 then [""]
    else if s[0] in seps then [""] + Split(s[1..], seps)
    else
      var rest := Split(s[1..], seps);
      [[s[0]] + rest[0]] + rest[1..]
  }

  /** A string without separators is one piece. */
  lemma {:induction false} SplitNone(s: string, seps: set<char>)
    requires forall k :: 0 <= k < |s| ==> s[k] !in seps
    ensures Split(s, seps) == [s]
    decreases |s|
  {
    if |s| > 0 {
      SplitNone(s[1..], seps);
      assert s == [s[0]] + s[1..];
    }
  }

  /** Splitting at the first separator: the piece before it, then the split of the rest. */
  lemma {:induction false} SplitAt(a: string, c: char, b: string, seps: set<char>)
    requires c in seps
    requires forall k :: 0 <= k < |a| ==> a[k] !in seps
    ensures Split(a + [c] + b, seps) == [a] + Split(b, seps)
    decreases |a|
  {
    if |a| == 0 {
      assert a + [c] + b == [c] + b;
      assert ([c] + b)[1..] == b;
    } else {
      SplitAt(a[1..], c, b, seps);
      assert (a + [c] + b)[1..] == a[1..] + [c] + b;
      assert a == [a[0]] + a[1..];
    }
  }

  /** `parts.join(sep)` */
  function Join(parts: seq<string>, sep: string): string {
    if |parts| == 0 then ""
    else if |parts| == 1 then parts[0]
    else parts[0] + sep + Join(parts[1..], sep)
  }

  /** The text before the first separator character (all of `s` when there is none). */
  function TakeUntil(s: string, seps: set<char>): (r: string)
    ensures |r| <= |s| && r == s[..|r|]
    ensures forall k :: 0 <= k < |r| ==> r[k] !in seps
    ensures |r| == |s| || s[|r|] in seps
    decreases |s|
  {
    if |s| == 0 || s[0] in seps then "" else [s[0]] + TakeUntil(s[1..], seps)
  }

  /** The text before a separator that follows separator-free text */
  lemma {:induction false} TakeUntilAt(a: string, c: char, b: string, seps: set<char>)
    requires c in seps
    requires forall k :: 0 <= k < |a| ==> a[k] !in seps
    ensures TakeUntil(a + [c] + b, seps) == a
    decreases |a|
  {
    if |a| > 0 {
      TakeUntilAt(a[1..], c, b, seps);
      assert (a + [c] + b)[1..] == a[1..] + [c] + b;
      assert a == [a[0]] + a[1..];
    }
  }

  /** The first piece of a split is the text before the first separator. */
  lemma {:induction false} SplitHead(s: string, seps: set<char>)
    ensures Split(s, seps)[0] == TakeUntil(s, seps)
    decreases |s|
  {
    if |s| > 0 && s[0] !in seps {
      SplitHead(s[1..], seps);
    }
  }

  /** No piece of a split contains a separator character. */
  lemma {:induction false} SplitPiecesFree(s: string, seps: set<char>)
    ensures forall p, k :: p in Split(s, seps) && 0 <= k < |p| ==> p[k] !in seps
    decreases |s|
  {
    if |s| > 0 {
      SplitPiecesFree(s[1..], seps);
      var rest := Split(s[1..], seps);
      if s[0] !in seps {
        forall k | 0 <= k < |[s[0]] + rest[0]| ensures ([s[0]] + rest[0])[k] !in seps {
          if k > 0 {
            assert rest[0] in rest;
            assert ([s[0]] + rest[0])[k] == rest[0][k - 1];
          }
        }
        forall p | p in rest[1..] ensures p in rest { }
      }
    }
  }

  /** Joining the pieces of a split with the one separator gives back the string. */
  lemma {:induction false} JoinSplit(s: string, c: char)
    ensures Join(Split(s, {c}), [c]) == s
    decreases |s|
  {
    if |s| > 0 {
      JoinSplit(s[1..], c);
      if s[0] == c {
        JoinSplitAtSeparator(s, c);
      } else {
        JoinSplitInPiece(s, c);
      }
    }
  }

  /** A leading separator opens an empty first piece. */
  lemma JoinSplitAtSeparator(s: string, c: char)
    requires |s| > 0 && s[0] == c && Join(Split(s[1..], {c}), [c]) == s[1..]
    ensures Join(Split(s, {c}), [c]) == s
  {
    var rest := Split(s[1..], {c});
    var pieces := Split(s, {c});
    assert pieces == [""] + rest;
    assert pieces[1..] == rest;
    calc {
      Join(pieces, [c]);
      "" + [c] + Join(rest, [c]);
      [c] + s[1..];
      s;
    }
  }

  /** Any other leading character joins the first piece. */
  lemma JoinSplitInPiece(s: string, c: char)
    requires |s| > 0 && s[0] != c && Join(Split(s[1..], {c}), [c]) == s[1..]
    ensures Join(Split(s, {c}), [c]) == s
  {
    var rest := Split(s[1..], {c});
    assert Split(s, {c}) == [[s[0]] + rest[0]] + rest[1..];
    JoinCons(s[0], rest, [c]);
    assert s == [s[0]] + s[1..];
  }

  /** Prefixing the first piece prefixes the join. */
  lemma JoinCons(x: char, pieces: seq<string>, sep: string)
    requires |pieces| >= 1
    ensures Join([[x] + pieces[0]] + pieces[1..], sep) == [x] + Join(pieces, sep)
  {
    var joined := [[x] + pieces[0]] + pieces[1..];
    if |pieces| > 1 {
      assert joined[1..] == pieces[1..];
      var tail := Join(pieces[1..], sep);
      calc {
        Join(joined, sep);
        ([x] + pieces[0]) + sep + tail;
        [x] + (pieces[0] + sep + tail);
      }
    }
  }

  /** A join of pieces free of `c`, with separator `c`, has one `c` fewer than it has pieces. */
  function CountChar(s: string, c: char): nat {
    if |s| == 0 then 0 else (if s[0] == c then 1 else 0) + CountChar(s[1..], c)
  }

  lemma {:induction false} CountCharAppend(a: string, b: string, c: char)
    ensures CountChar(a + b, c) == CountChar(a, c) + CountChar(b, c)
    decreases |a|
  {
    if |a| > 0 {
      CountCharAppend(a[1..], b, c);
      assert (a + b)[1..] == a[1..] + b;
    } else {
      assert a + b == b;
    }
  }

  lemma {:induction false} CountCharJoin(parts: seq<string>, c: char)
    requires |parts| >= 1
    requires forall p, k :: p in parts && 0 <= k < |p| ==> p[k] != c
    ensures CountChar(Join(parts, [c]), c) == |parts| - 1
    decreases |parts|
  {
    if |parts| == 1 {
      CountCharFree(parts[0], c);
    } else {
      CountCharJoin(parts[1..], c);
      CountCharFree(parts[0], c);
      CountCharAppend(parts[0], [c], c);
      CountCharAppend(parts[0] + [c], Join(parts[1..], [c]), c);
      assert CountChar([c], c) == 1 by { assert [c][1..] == []; }
    }
  }

  lemma {:induction false} CountCharFree(s: string, c: char)
    requires forall k :: 0 <= k < |s| ==> s[k] != c
    ensures CountChar(s, c) == 0
    decreases |s|
  {
    if |s| > 0 {
      CountCharFree(s[1..], c);
    }
  }

  /** Whose whitespace: JavaScript's `trim()` and `\s`, or Python's `str.strip()` */
  datatype Space = Js | Py

  /**
   * Whitespace: for JavaScript the WhiteSpace and LineTerminator characters
   * of ECMAScript, for Python the characters `str.isspace` accepts. Both take
   * the ASCII controls from tab to carriage return, the space and the Unicode
   * space separators; JavaScript adds the byte order mark, Python the
   * separators U+001C to U+001F and U+0085.
   */
  predicate IsSpace(c: char, f: Space := Js) {
    c == ' ' || '\t' <= c <= '\r' || c == '\U{A0}' || c == '\U{1680}' || '\U{2000}' <= c <= '\U{200A}' ||
    c == '\U{2028}' || c == '\U{2029}' || c == '\U{202F}' || c == '\U{205F}' || c == '\U{3000}' ||
    (if f == Js then c == '\U{FEFF}' else '\U{1C}' <= c <= '\U{1F}' || c == '\U{85}')
  }

  /** `s.trimStart()` (`f` = `Py`: `s.lstrip()`) */
  function TrimStart(s: string, f: Space := Js): (r: string)
    ensures |r| <= |s|
    decreases |s|
  {
    if |s| > 0 && IsSpace(s[0], f) then TrimStart(s[1..], f) else s
  }

  /** `trimStart` drops exactly the leading whitespace: what remains is a suffix not starting with it. */
  lemma {:induction false} TrimStartShape(s: string, f: Space := Js)
    ensures var r := TrimStart(s, f);
      r == s[|s| - |r|..] && (|r| == 0 || !IsSpace(r[0], f)) &&
      forall k :: 0 <= k < |s| - |r| ==> IsSpace(s[k], f)
    decreases |s|
  {
    if |s| > 0 && IsSpace(s[0], f) {
      TrimStartShape(s[1..], f);
    }
  }

  /** `s.trimEnd()` (`f` = `Py`: `s.rstrip()`) */
  function TrimEnd(s: string, f: Space := Js): (r: string)
    ensures |r| <= |s|
    decreases |s|
  {
    if |s| > 0 && IsSpace(s[|s| - 1], f) then TrimEnd(s[..|s| - 1], f) else s
  }

  /** `trimEnd` drops exactly the trailing whitespace: what remains is a prefix not ending with it. */
  lemma {:induction false} TrimEndShape(s: string, f: Space := Js)
    ensures var r := TrimEnd(s, f);
      r == s[..|r|] && (|r| == 0 || !IsSpace(r[|r| - 1], f)) &&
      forall k :: |r| <= k < |s| ==> IsSpace(s[k], f)
    decreases |s|
  {
    if |s| > 0 && IsSpace(s[|s| - 1], f) {
      TrimEndShape(s[..|s| - 1], f);
    }
  }

  /** `s.trim()` (`f` = `Py`: `s.strip()`) */
  function Trim(s: string, f: Space := Js): string {
    TrimEnd(TrimStart(s, f), f)
  }

  /** A trimmed text neither starts nor ends with whitespace. */
  lemma TrimEnds(s: string, f: Space := Js)
    ensures var r := Trim(s, f); |r| == 0 || (!IsSpace(r[0], f) && !IsSpace(r[|r| - 1], f))
  {
    TrimStartShape(s, f);
    TrimEndShape(TrimStart(s, f), f);
    var t := TrimStart(s, f);
    assert |TrimEnd(t, f)| > 0 ==> TrimEnd(t, f)[0] == t[0];
  }

  /** Leading whitespace is dropped by `trimStart`. */
  lemma {:induction false} TrimStartBlank(u: string, s: string, f: Space := Js)
    requires forall k :: 0 <= k < |u| ==> IsSpace(u[k], f)
    ensures TrimStart(u + s, f) == TrimStart(s, f)
    decreases |u|
  {
    if |u| > 0 {
      assert (u + s)[0] == u[0] && IsSpace(u[0], f) && (u + s)[1..] == u[1..] + s;
      assert TrimStart(u + s, f) == TrimStart(u[1..] + s, f);
      TrimStartBlank(u[1..], s, f);
    } else {
      assert u + s == s;
    }
  }

  /** Trailing whitespace is dropped by `trimEnd`. */
  lemma {:induction false} TrimEndBlank(s: string, w: string, f: Space := Js)
    requires forall k :: 0 <= k < |w| ==> IsSpace(w[k], f)
    ensures TrimEnd(s + w, f) == TrimEnd(s, f)
    decreases |w|
  {
    if |w| > 0 {
      assert (s + w)[|s + w| - 1] == w[|w| - 1] && IsSpace(w[|w| - 1], f) && (s + w)[..|s + w| - 1] == s + w[..|w| - 1];
      assert TrimEnd(s + w, f) == TrimEnd(s + w[..|w| - 1], f);
      TrimEndBlank(s, w[..|w| - 1], f);
    } else {
      assert s + w == s;
    }
  }

  /** Text that neither starts nor ends with whitespace is its own trim. */
  lemma TrimUnchanged(s: string, f: Space := Js)
    requires |s| == 0 || (!IsSpace(s[0], f) && !IsSpace(s[|s| - 1], f))
    ensures Trim(s, f) == s
  {
  }

  /** Trimming keeps every character that is not whitespace. */
  lemma TrimKeeps(s: string, c: char, f: Space := Js)
    requires c in s && !IsSpace(c, f)
    ensures c in Trim(s, f)
  {
    var t := TrimStart(s, f);
    TrimStartShape(s, f);
    TrimEndShape(t, f);
    var k :| 0 <= k < |s| && s[k] == c;
    assert k >= |s| - |t|;
    assert t[k - (|s| - |t|)] == c;
    var u := TrimEnd(t, f);
    assert k - (|s| - |t|) < |u|;
    assert u[k - (|s| - |t|)] == c;
  }

  /** Every character of a trimmed text is a character of the text. */
  lemma TrimChars(s: string, f: Space := Js)
    ensures forall c :: c in Trim(s, f) ==> c in s
  {
    var t := TrimStart(s, f);
    TrimStartShape(s, f);
    TrimEndShape(t, f);
    forall c | c in Trim(s, f) ensures c in s {
      var k :| 0 <= k < |Trim(s, f)| && Trim(s, f)[k] == c;
      assert t[k] == c;
      assert s[k + (|s| - |t|)] == c;
    }
  }

  /** ASCII `toLowerCase` of one character */
  function LowerChar(c: char): char {
    if 'A' <= c <= 'Z' then (c as int + 32) as char else c
  }

  /** `s.toLowerCase()` on ASCII letters */
  function ToLower(s: string): (r: string)
    ensures |r| == |s|
    ensures forall k :: 0 <= k < |s| ==> r[k] == LowerChar(s[k])
  {
    seq(|s|, k requires 0 <= k < |s| => LowerChar(s[k]))
  }

  /** A lower-case letter occurs in the lower-cased text exactly when either case of it occurs in the text. */
  lemma LowerContains(s: string, c: char)
    requires 'a' <= c <= 'z'
    ensures c in ToLower(s) <==> (c in s || ((c as int - 32) as char) in s)
  {
    var r := ToLower(s);
    if c in r {
      var k :| 0 <= k < |r| && r[k] == c;
      assert LowerChar(s[k]) == c;
    }
    if c in s {
      var k :| 0 <= k < |s| && s[k] == c;
      assert r[k] == c;
    }
    if ((c as int - 32) as char) in s {
      var k :| 0 <= k < |s| && s[k] == (c as int - 32) as char;
      assert r[k] == c;
    }
  }

  /** One decimal digit */
  function DigitChar(d: nat): char
    requires d < 10
  {
    "0123456789"[d]
  }

  /** The decimal numeral of `n`, as template literals and f-strings print a number */
  function NatToString(n: nat): (r: string)
    ensures |r| >= 1
    ensures forall k :: 0 <= k < |r| ==> '0' <= r[k] <= '9'
  {
    if n < 10 then [DigitChar(n)] else NatToString(n / 10) + [DigitChar(n % 10)]
  }

  /** Reading a numeral back */
  function ParseDigits(s: string): nat
    requires forall k :: 0 <= k < |s| ==> '0' <= s[k] <= '9'
  {
    if |s| == 0 then 0 else ParseDigits(s[..|s| - 1]) * 10 + (s[|s| - 1] as int - '0' as int)
  }

  /** The numeral denotes `n`. */
  lemma {:induction false} NatToStringRoundTrip(n: nat)
    ensures ParseDigits(NatToString(n)) == n
  {
    var r := NatToString(n);
    if n >= 10 {
      NatToStringRoundTrip(n / 10);
      assert r[..|r| - 1] == NatToString(n / 10);
    }
  }

  /** Distinct numbers have distinct numerals. */
  lemma NatToStringInjective(m: nat, n: nat)
    requires NatToString(m) == NatToString(n)
    ensures m == n
  {
    NatToStringRoundTrip(m);
    NatToStringRoundTrip(n);
  }

  /** `s` with every character of `drop` removed (`replace(/['"]/g, "")`) */
  function RemoveAll(s: string, drop: set<char>): (r: string)
    ensures forall k :: 0 <= k < |r| ==> r[k] !in drop
    ensures forall c :: c in r ==> c in s
  {
    if |s| == 0 then ""
    else if s[0] in drop then RemoveAll(s[1..], drop)
    else [s[0]] + RemoveAll(s[1..], drop)
  }

  /** `s.replace(c, "")` with a string pattern: only the first occurrence goes */
  function RemoveFirst(s: string, c: char): (r: string)
    ensures c in s ==> |r| == |s| - 1
    ensures c !in s ==> r == s
  {
    if |s| == 0 then ""
    else if s[0] == c then s[1..]
    else [s[0]] + RemoveFirst(s[1..], c)
  }

  /** The position of the first element equal to `x`, or -1 (`indexOf`) */
  function IndexOf<T(==)>(s: seq<T>, x: T): (r: int)
    ensures -1 <= r < |s|
    ensures r == -1 <==> x !in s
    ensures r >= 0 ==> s[r] == x && forall k :: 0 <= k < r ==> s[k] != x
  {
    if |s| == 0 then -1
    else if s[0] == x then 0
    else var r := IndexOf(s[1..], x); if r == -1 then -1 else r + 1
  }
}
