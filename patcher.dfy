/**
 * `check_config_files` and `update_file`: the idempotent key-assignment
 * patcher over one configuration file.
 *
 * `CheckConfig`, `Located`, `UpdateStatus` and `UpdatedContent` say on the
 * file's text what the two functions compute; `ConfigFile` holds the file's
 * text and rewrites it in place. The lemmas read those definitions back on
 * the raw text, through `Matcher.MatchOverRepr`.
 */
module Patcher {
  import opened Text
  import opened PyRepr
  import opened Matcher

  /** Why an operation stops early: `[0]` of an empty `findall` list raises
      `IndexError`, and `set_konsole` raises `RuntimeError` when
      `update_file` returns False. */
  datatype Fault = KeyNotFound | ProfileNotUpdated

  datatype Outcome<T> = Ok(value: T) | Err(fault: Fault)

  /** The two `str.replace` calls of `check_config_files`: every newline,
      then every escaped `\n`, removed. */
  function StripNewlines(m: string): string {
    ReplaceAll(ReplaceAll(m, "\n", ""), "\\n", "")
  }

  /** `check_config_files(path, filename, key, value)` on a file holding `s`. */
  function CheckConfig(s: string, key: string, value: string): Outcome<bool> {
    match FirstMatch(key, CheckValues, ReadlinesRepr(s))
    case None => Err(KeyNotFound)
    case Some(m) => Ok(StripNewlines(m) == key + value)
  }

  /** Python's `m[:-2]`. */
  function DropLast2(m: string): string {
    if |m| >= 2 then m[..|m| - 2] else []
  }

  /** The assignment `update_file` looks for: its match with the last two
      characters dropped. */
  function Located(copy: Copy, s: string, key: string): Option<string> {
    match FirstMatch(key, UpdateValues(copy), ReadlinesRepr(s))
    case None => None
    case Some(m) => Some(DropLast2(m))
  }

  /** What `update_file` returns, with `KeyNotFound` for the `IndexError`. */
  function UpdateStatus(copy: Copy, s: string, key: string): Outcome<bool> {
    match Located(copy, s, key)
    case None => Err(KeyNotFound)
    case Some(current) => Ok(Contains(s, current))
  }

  /** The new line: the key with every backslash removed, then the value. */
  function Replacement(key: string, add: string): string {
    ReplaceAll(key, "\\", "") + add
  }

  /** The file's text after `update_file(path, filename, key, add)`. */
  function UpdatedContent(copy: Copy, s: string, key: string, add: string): string {
    match Located(copy, s, key)
    case None => s
    case Some(current) =>
      if Contains(s, current) then ReplaceAll(s, current, Replacement(key, add)) else s
  }

  /** A configuration file: its whole text. */
  class ConfigFile {
    var content: string

    constructor(text: string)
      ensures content == text
    {
      content := text;
    }

    /** `check_config_files`: reads the file and leaves it as it is. */
    method CheckConfigFiles(key: string, themeName: string) returns (r: Outcome<bool>)
      ensures r == CheckConfig(content, key, themeName)
    {
      var found := FirstMatch(key, CheckValues, ReadlinesRepr(content));
      if found.None? {
        return Err(KeyNotFound);
      }
      var stringFound := ReplaceAll(found.value, "\n", "");
      stringFound := ReplaceAll(stringFound, "\\n", "");
      r := Ok(stringFound == key + themeName);
    }

    /** `update_file`: locates the current assignment, gives up when the
        file does not hold it, and otherwise rewrites every copy of it. */
    method UpdateFile(copy: Copy, key: string, add: string) returns (r: Outcome<bool>)
      modifies this
      ensures r == UpdateStatus(copy, old(content), key)
      ensures content == UpdatedContent(copy, old(content), key, add)
    {
      var found := FirstMatch(key, UpdateValues(copy), ReadlinesRepr(content));
      if found.None? {
        return Err(KeyNotFound);
      }
      var currentTheme := DropLast2(found.value);
      var s := content;
      if !Contains(s, currentTheme) {
        return Ok(false);
      }
      content := ReplaceAll(s, currentTheme, Replacement(key, add));
      r := Ok(true);
    }
  }

  // ---------------------------------------------------------------------
  // Helpers on escaped text

  /** No newline, and every backslash starts a `\t`. */
  predicate TabEscapesOnly(x: string) {
    (forall k :: 0 <= k < |x| ==> x[k] != '\n')
    && (forall k :: 0 <= k < |x| && x[k] == '\\' ==> k + 1 < |x| && x[k + 1] == 't')
  }

  lemma TabEscapesConcat(a: string, b: string)
    requires TabEscapesOnly(a) && TabEscapesOnly(b)
    ensures TabEscapesOnly(a + b)
  {
    forall k | 0 <= k < |a + b| && (a + b)[k] == '\\' ensures k + 1 < |a + b| && (a + b)[k + 1] == 't' {
      if k < |a| {
        assert a[k] == '\\';
      } else {
        assert b[k - |a|] == '\\';
      }
    }
  }

  predicate PlainOrTab(v: string) {
    forall k :: 0 <= k < |v| ==> PlainChar(v[k]) || v[k] == '\t'
  }

  lemma {:induction false} EscapeLineTabsOnly(v: string)
    requires PlainOrTab(v)
    ensures TabEscapesOnly(EscapeLine(v))
    decreases |v|
  {
    if v != [] {
      EscapeLineTabsOnly(v[1..]);
      TabEscapesConcat(EscapeChar(v[0]), EscapeLine(v[1..]));
    }
  }

  lemma NoNewlineChar(y: string)
    requires forall k :: 0 <= k < |y| ==> y[k] != '\n'
    ensures !Contains(y, "\n")
  {
    forall j: nat ensures !OccursAt(y, "\n", j) {
      if j < |y| { assert y[j..j + 1][0] == y[j]; }
    }
  }

  lemma NoEscapedNewlineBefore(y: string, x: string)
    requires TabEscapesOnly(x) && |x| <= |y| && y[..|x|] == x
    ensures forall j: nat :: j < |x| ==> !OccursAt(y, "\\n", j)
  {
    forall j: nat | j < |x| ensures !OccursAt(y, "\\n", j) {
      if j + 2 <= |y| {
        assert y[j..j + 2][0] == y[j] == x[j];
        if x[j] == '\\' {
          assert y[j..j + 2][1] == y[j + 1] == x[j + 1];
        }
      }
    }
  }

  /** The stripping in `check_config_files` takes off exactly the escaped
      newline the match may end with. */
  lemma StripMatch(x: string, nl: string)
    requires TabEscapesOnly(x) && (nl == [] || nl == "\\n")
    ensures StripNewlines(x + nl) == x
  {
    var y := x + nl;
    NoNewlineChar(y);
    ReplaceAbsent(y, "\n", "");
    NoEscapedNewlineBefore(y, x);
    if nl == [] {
      assert y == x;
      forall j: nat ensures !OccursAt(y, "\\n", j) {
        if j >= |x| { assert j + 2 > |y|; }
      }
      FindFirstNone(y, "\\n");
      ReplaceAbsent(y, "\\n", "");
    } else {
      assert OccursAt(y, "\\n", |x|);
      FindFirstIs(y, "\\n", |x|);
      assert y == x + "\\n" + [];
      ReplaceFromFirst(x, "\\n", [], "");
    }
  }

  /** The value run of a modelled text holds plain characters and tabs. */
  lemma ValueRunChars(cls: Class, u: string)
    requires IsText(u)
    ensures PlainOrTab(ValueRun(cls, u))
  {
    var v := ValueRun(cls, u);
    forall k | 0 <= k < |v| ensures PlainChar(v[k]) || v[k] == '\t' {
      assert v[k] == u[k];
    }
  }

  lemma PlainTabsOnly(key: string)
    requires IsPlain(key)
    ensures TabEscapesOnly(key)
  {
  }

  // ---------------------------------------------------------------------
  // check_config_files

  lemma CheckFromMatch(s: string, key: string, value: string, m: string)
    requires FirstMatch(key, CheckValues, ReadlinesRepr(s)) == Some(m)
    ensures CheckConfig(s, key, value) == Ok(StripNewlines(m) == key + value)
  {
  }

  lemma SameAfterKey(key: string, e: string, value: string)
    ensures (key + e == key + value) == (e == value)
  {
    if key + e == key + value {
      assert e == (key + e)[|key|..] == (key + value)[|key|..] == value;
    }
  }

  /** Where the key first occurs at `i`, `check_config_files` answers whether
      the escaped value run after it is exactly the theme name. */
  lemma CheckConfigMeaning(s: string, key: string, value: string, i: nat)
    requires IsText(s) && ValidKey(key) && FindFirst(s, key) == Some(i)
    ensures i + |key| <= |s|
    ensures CheckConfig(s, key, value) == Ok(EscapeLine(ValueRun(CheckValues, s[i + |key|..])) == value)
  {
    var u := s[i + |key|..];
    var e := EscapeLine(ValueRun(CheckValues, u));
    var nl := NewlineMark(CheckValues, u);
    MatchOverRepr(key, CheckValues, s);
    LineMatchAt(key, CheckValues, s, i);
    CheckFromMatch(s, key, value, key + e + nl);
    assert StripNewlines(key + e + nl) == key + e by {
      TextSuffix(s, i + |key|);
      ValueRunChars(CheckValues, u);
      EscapeLineTabsOnly(ValueRun(CheckValues, u));
      PlainTabsOnly(key);
      TabEscapesConcat(key, e);
      StripMatch(key + e, nl);
    }
    SameAfterKey(key, e, value);
  }

  /** Where the key is nowhere in the file, `check_config_files` raises. */
  lemma CheckConfigAbsent(s: string, key: string, value: string)
    requires IsText(s) && ValidKey(key) && FindFirst(s, key).None?
    ensures CheckConfig(s, key, value) == Err(KeyNotFound)
  {
    MatchOverRepr(key, CheckValues, s);
    assert LineMatch(key, CheckValues, s) == None;
  }

  /** When the value holds no tab, the check compares the raw text after the
      key, up to the first character outside the class, with the theme name. */
  lemma CheckConfigRaw(s: string, key: string, value: string, i: nat)
    requires IsText(s) && ValidKey(key) && FindFirst(s, key) == Some(i)
    requires NoTab(ValueRun(CheckValues, s[i + |key|..]))
    ensures CheckConfig(s, key, value) == Ok(ValueRun(CheckValues, s[i + |key|..]) == value)
  {
    CheckConfigMeaning(s, key, value, i);
    var u := s[i + |key|..];
    TextSuffix(s, i + |key|);
    ValueRunChars(CheckValues, u);
    EscPlain(ValueRun(CheckValues, u));
  }

  predicate NoTab(v: string) {
    forall k :: 0 <= k < |v| ==> v[k] != '\t'
  }

  // ---------------------------------------------------------------------
  // update_file

  lemma LocatedFromMatch(copy: Copy, s: string, key: string, m: string)
    requires FirstMatch(key, UpdateValues(copy), ReadlinesRepr(s)) == Some(m)
    ensures Located(copy, s, key) == Some(DropLast2(m))
  {
  }

  lemma DropEscapedNewline(x: string)
    ensures DropLast2(x + "\\n") == x
  {
  }

  lemma ContainsAt(s: string, x: string, i: nat)
    requires i + |x| <= |s| && s[i..i + |x|] == x
    ensures Contains(s, x)
  {
    assert OccursAt(s, x, i);
  }

  lemma PlainValue(v: string)
    requires PlainOrTab(v) && NoTab(v)
    ensures IsPlain(v)
  {
  }

  lemma LocatedAt(copy: Copy, s: string, key: string, i: nat)
    requires IsText(s) && ValidKey(key) && FindFirst(s, key) == Some(i)
    requires NoTab(ValueRun(UpdateValues(copy), s[i + |key|..]))
    ensures i + |key| <= |s|
    ensures
      var u := s[i + |key|..];
      Located(copy, s, key) == Some(DropLast2(key + ValueRun(UpdateValues(copy), u) + NewlineMark(UpdateValues(copy), u)))
  {
    var cls := UpdateValues(copy);
    var u := s[i + |key|..];
    var v := ValueRun(cls, u);
    MatchOverRepr(key, cls, s);
    LineMatchAt(key, cls, s, i);
    LocatedFromMatch(copy, s, key, key + EscapeLine(v) + NewlineMark(cls, u));
    assert EscapeLine(v) == v by {
      TextSuffix(s, i + |key|);
      ValueRunChars(cls, u);
      PlainValue(v);
      EscPlain(v);
    }
  }

  lemma SpanIsAssignment(s: string, key: string, i: nat, v: string)
    requires i + |key| <= |s| && s[i..i + |key|] == key
    requires |v| <= |s| - i - |key| && v == s[i + |key|..][..|v|]
    ensures s[i..i + |key| + |v|] == key + v
  {
    assert s[i..i + |key| + |v|] == s[i..i + |key|] + s[i + |key|..i + |key| + |v|];
  }

  lemma StatusFromLocated(copy: Copy, s: string, key: string, current: string)
    requires Located(copy, s, key) == Some(current)
    ensures UpdateStatus(copy, s, key) == Ok(Contains(s, current))
  {
  }

  lemma ContentFromLocated(copy: Copy, s: string, key: string, add: string, current: string)
    requires Located(copy, s, key) == Some(current) && Contains(s, current)
    ensures UpdatedContent(copy, s, key, add) == ReplaceAll(s, current, Replacement(key, add))
  {
  }

  lemma ContainsFront(s: string, line: string, i: nat, n: nat)
    requires i + |line| <= |s| && s[i..i + |line|] == line && n <= |line|
    ensures Contains(s, line[..n])
  {
    assert s[i..i + n] == line[..n];
    ContainsAt(s, line[..n], i);
  }

  /** Where the value run after the key at `i` ends. */
  function ValueEnd(copy: Copy, s: string, key: string, i: nat): (e: nat)
    requires i + |key| <= |s|
    ensures i + |key| <= e <= |s|
  {
    i + |key| + |ValueRun(UpdateValues(copy), s[i + |key|..])|
  }

  /** The raw text from the key at `i` to the end of its value run when a
      newline follows it; when the run stops anywhere else (at the end of
      the text, or mid-line at a character outside the class), that text
      two characters short. */
  function AssignmentAt(copy: Copy, s: string, key: string, i: nat): string
    requires i + |key| <= |s|
  {
    var e := ValueEnd(copy, s, key, i);
    if EndsLine(UpdateValues(copy), s[i + |key|..]) then s[i..e] else DropLast2(s[i..e])
  }

  /** The assignment at an occurrence of the key is what `update_file`
      makes of the match there: the key, the value run, and the escaped
      newline when the run reaches one, less the last two characters. */
  lemma AssignmentIs(copy: Copy, s: string, key: string, i: nat)
    requires OccursAt(s, key, i)
    ensures
      var u := s[i + |key|..];
      var nl := NewlineMark(UpdateValues(copy), u);
      AssignmentAt(copy, s, key, i) == DropLast2(key + ValueRun(UpdateValues(copy), u) + nl)
  {
    var cls := UpdateValues(copy);
    var u := s[i + |key|..];
    var v := ValueRun(cls, u);
    var e := ValueEnd(copy, s, key, i);
    assert e == i + |key| + |v|;
    assert s[i..e] == key + v by {
      SpanIsAssignment(s, key, i, v);
    }
    MarkDropped(key + v, NewlineMark(cls, u), EndsLine(cls, u));
  }

  lemma MarkDropped(x: string, nl: string, ends: bool)
    requires ends ==> nl == "\\n"
    requires !ends ==> nl == []
    ensures DropLast2(x + nl) == if ends then x else DropLast2(x)
  {
    if ends {
      DropEscapedNewline(x);
    } else {
      assert x + nl == x;
    }
  }

  /** Where the key first occurs at `i` and its value run holds no tab,
      `update_file` locates the raw assignment there. */
  lemma LocatedMeaning(copy: Copy, s: string, key: string, i: nat)
    requires IsText(s) && ValidKey(key) && FindFirst(s, key) == Some(i)
    requires NoTab(ValueRun(UpdateValues(copy), s[i + |key|..]))
    ensures i + |key| + |ValueRun(UpdateValues(copy), s[i + |key|..])| <= |s|
    ensures Located(copy, s, key) == Some(AssignmentAt(copy, s, key, i))
  {
    AssignmentIs(copy, s, key, i);
    LocatedAt(copy, s, key, i);
  }

  lemma LocatedInText(s: string, line: string, i: nat, current: string)
    requires i + |line| <= |s| && s[i..i + |line|] == line
    requires current == line || current == DropLast2(line)
    ensures Contains(s, current)
  {
    assert current == line[..|current|];
    ContainsFront(s, line, i, |current|);
  }

  lemma AssignmentInText(copy: Copy, s: string, key: string, i: nat)
    requires OccursAt(s, key, i)
    ensures Contains(s, AssignmentAt(copy, s, key, i))
  {
    var e := i + |key| + |ValueRun(UpdateValues(copy), s[i + |key|..])|;
    LocatedInText(s, s[i..e], i, AssignmentAt(copy, s, key, i));
  }

  /** The located assignment is then in the file, so `update_file` goes on
      to write, returns True, and replaces every copy of that assignment. */
  lemma LocatedWrites(copy: Copy, s: string, key: string, add: string, i: nat)
    requires IsText(s) && ValidKey(key) && FindFirst(s, key) == Some(i)
    requires NoTab(ValueRun(UpdateValues(copy), s[i + |key|..]))
    ensures i + |key| <= |s|
    ensures UpdateStatus(copy, s, key) == Ok(true)
    ensures UpdatedContent(copy, s, key, add) == ReplaceAll(s, AssignmentAt(copy, s, key, i), Replacement(key, add))
  {
    LocatedMeaning(copy, s, key, i);
    AssignmentInText(copy, s, key, i);
    StatusFromLocated(copy, s, key, AssignmentAt(copy, s, key, i));
    ContentFromLocated(copy, s, key, add, AssignmentAt(copy, s, key, i));
  }

  /** Where the key is nowhere in the file, `update_file` raises before it
      writes anything. */
  lemma UpdateAbsent(copy: Copy, s: string, key: string, add: string)
    requires IsText(s) && ValidKey(key) && FindFirst(s, key).None?
    ensures UpdateStatus(copy, s, key) == Err(KeyNotFound)
    ensures UpdatedContent(copy, s, key, add) == s
  {
    MatchOverRepr(key, UpdateValues(copy), s);
    assert LineMatch(key, UpdateValues(copy), s) == None;
  }

  lemma {:induction false} EscapeLineShowsTab(v: string)
    requires !NoTab(v)
    ensures '\\' in EscapeLine(v)
    decreases |v|
  {
    if v[0] == '\t' {
      assert EscapeLine(v)[0] == '\\';
    } else {
      EscapeLineShowsTab(v[1..]);
      assert EscapeLine(v) == EscapeChar(v[0]) + EscapeLine(v[1..]);
    }
  }

  lemma NoBackslashInText(s: string, x: string)
    requires IsText(s) && '\\' in x
    ensures !Contains(s, x)
  {
    var k :| 0 <= k < |x| && x[k] == '\\';
    forall j: nat ensures !OccursAt(s, x, j) {
      if j + |x| <= |s| {
        assert s[j..j + |x|][k] == s[j + k];
      }
    }
  }

  /** A tab in the value of a line that ends in a newline: the located text
      keeps the tab's escape `\t`, which the raw text never holds, so
      `update_file` returns False and leaves the file as it was. */
  lemma StaleWhenTab(copy: Copy, s: string, key: string, add: string, i: nat)
    requires IsText(s) && ValidKey(key) && FindFirst(s, key) == Some(i)
    requires !NoTab(ValueRun(UpdateValues(copy), s[i + |key|..]))
    requires EndsLine(UpdateValues(copy), s[i + |key|..])
    ensures UpdateStatus(copy, s, key) == Ok(false)
    ensures UpdatedContent(copy, s, key, add) == s
  {
    var cls := UpdateValues(copy);
    var u := s[i + |key|..];
    var e := EscapeLine(ValueRun(cls, u));
    MatchOverRepr(key, cls, s);
    LineMatchAt(key, cls, s, i);
    LocatedFromMatch(copy, s, key, key + e + "\\n");
    DropEscapedNewline(key + e);
    EscapeLineShowsTab(ValueRun(cls, u));
    assert '\\' in key + e;
    NoBackslashInText(s, key + e);
  }

  /** The keys the model covers hold no backslash, so the new line is the
      key followed by the value. */
  lemma ReplacementOfKey(key: string, add: string)
    requires ValidKey(key)
    ensures Replacement(key, add) == key + add
  {
    forall j: nat ensures !OccursAt(key, "\\", j) {
      if j < |key| { assert key[j..j + 1][0] == key[j]; }
    }
    FindFirstNone(key, "\\");
    ReplaceAbsent(key, "\\", "");
  }

  lemma PrefixOccurs(s: string, key: string, line: string, j: nat)
    requires |key| <= |line| && line[..|key|] == key
    ensures OccursAt(s, line, j) ==> OccursAt(s, key, j)
  {
    if OccursAt(s, line, j) {
      assert s[j..j + |key|] == s[j..j + |line|][..|key|];
    }
  }

  /** The first occurrence of a text that starts with the key is the first
      occurrence of the key, when the text occurs there. */
  lemma FirstOfAssignment(s: string, key: string, line: string, i: nat)
    requires FindFirst(s, key) == Some(i) && |key| <= |line| && line[..|key|] == key
    requires i + |line| <= |s| && s[i..i + |line|] == line
    ensures FindFirst(s, line) == Some(i)
  {
    forall j: nat | j < i ensures !OccursAt(s, line, j) {
      PrefixOccurs(s, key, line, j);
    }
    FindFirstIs(s, line, i);
  }

  /** The key's first occurrence at `i`, a value without a tab, and a line
      ending in a newline: the assignment `update_file` can rewrite. */
  predicate Updatable(copy: Copy, s: string, key: string, i: nat) {
    IsText(s) && ValidKey(key) && FindFirst(s, key) == Some(i)
    && i + |key| <= |s|
    && NoTab(ValueRun(UpdateValues(copy), s[i + |key|..]))
    && EndsLine(UpdateValues(copy), s[i + |key|..])
  }

  /** The key occurs nowhere after the occurrence at `i`. */
  predicate AbsentAfter(s: string, key: string, i: nat) {
    i + |key| <= |s| && !Contains(s[i + |key|..], key)
  }

  lemma Around(s: string, i: nat, e: nat)
    requires i <= e <= |s|
    ensures s[..i] + s[i..e] + s[e..] == s
  {
  }

  /** `update_file` on such a line: the text before the first assignment is
      kept, the assignment becomes the key and the new value, the newline
      after it stays, and later copies of the old assignment are replaced
      too. */
  lemma UpdateRewritesLine(copy: Copy, s: string, key: string, add: string, i: nat)
    requires Updatable(copy, s, key, i)
    ensures ValueEnd(copy, s, key, i) < |s| && s[ValueEnd(copy, s, key, i)] == '\n'
    ensures
      var e := ValueEnd(copy, s, key, i);
      UpdatedContent(copy, s, key, add) == s[..i] + (key + add) + ReplaceAll(s[e..], s[i..e], key + add)
  {
    var e := ValueEnd(copy, s, key, i);
    assert e < |s| && s[e] == '\n' by {
      LineEnd(UpdateValues(copy), s[i + |key|..]);
    }
    assert AssignmentAt(copy, s, key, i) == s[i..e];
    ReplaceLine(s, key, key + add, i, e);
    ReplacementOfKey(key, add);
    LocatedWrites(copy, s, key, add, i);
  }

  lemma LineEnd(cls: Class, u: string)
    requires EndsLine(cls, u)
    ensures |ValueRun(cls, u)| < |u| && u[|ValueRun(cls, u)|] == '\n'
  {
  }

  /** Replacing every copy of the line that holds the first occurrence of
      the key leaves what precedes it alone. */
  lemma ReplaceLine(s: string, key: string, r: string, i: nat, e: nat)
    requires key != [] && FindFirst(s, key) == Some(i) && i + |key| <= e <= |s| && OccursAt(s, key, i)
    ensures ReplaceAll(s, s[i..e], r) == s[..i] + r + ReplaceAll(s[e..], s[i..e], r)
  {
    var line := s[i..e];
    assert line[..|key|] == key;
    FirstOfAssignment(s, key, line, i);
    assert |s[..i]| == i;
    Around(s, i, e);
    ReplaceFromFirst(s[..i], line, s[e..], r);
  }

  lemma ReplaceKeepsHead(b: string, target: string, replacement: string)
    requires b != [] && target != [] && b[0] != target[0]
    ensures ReplaceAll(b, target, replacement) != []
    ensures ReplaceAll(b, target, replacement)[0] == b[0]
  {
    if |b| >= |target| {
      assert b[..|target|][0] == b[0];
    }
  }

  lemma SameFront(s: string, s2: string, n: nat, j: nat, len: nat)
    requires n <= |s| && n <= |s2| && s2[..n] == s[..n] && j + len <= n
    ensures s2[j..j + len] == s[j..j + len]
  {
    assert s2[j..j + len] == s2[..n][j..j + len];
    assert s[j..j + len] == s[..n][j..j + len];
  }

  lemma OccursSame(s: string, s2: string, key: string, j: nat)
    requires j + |key| <= |s| && j + |key| <= |s2| && s2[j..j + |key|] == s[j..j + |key|]
    ensures OccursAt(s2, key, j) == OccursAt(s, key, j)
  {
  }

  lemma NoEarlierKey(s: string, s2: string, key: string, i: nat, j: nat)
    requires j < i && !OccursAt(s, key, j)
    requires i + |key| <= |s| && i + |key| <= |s2| && s2[..i + |key|] == s[..i + |key|]
    ensures !OccursAt(s2, key, j)
  {
    SameFront(s, s2, i + |key|, j, |key|);
    OccursSame(s, s2, key, j);
  }

  lemma FirstKeyKept(s: string, s2: string, key: string, i: nat)
    requires FindFirst(s, key) == Some(i)
    requires i + |key| <= |s2| && s2[..i + |key|] == s[..i + |key|]
    ensures FindFirst(s2, key) == Some(i)
  {
    SameFront(s, s2, i + |key|, i, |key|);
    forall j: nat | j < i ensures !OccursAt(s2, key, j) {
      NoEarlierKey(s, s2, key, i, j);
    }
    FindFirstIs(s2, key, i);
  }

  lemma Regroup4(a: string, key: string, add: string, rest: string)
    ensures a + (key + add) + rest == (a + key) + (add + rest)
  {
  }

  /** What follows the rewritten line keeps the newline that ended it and
      stays a modelled text. */
  lemma RestAfterLine(s: string, key: string, add: string, i: nat, e: nat)
    requires IsText(s) && ValidKey(key) && IsPlain(add) && OccursAt(s, key, i)
    requires i + |key| <= e < |s| && s[e] == '\n'
    ensures IsText(ReplaceAll(s[e..], s[i..e], key + add))
    ensures ReplaceAll(s[e..], s[i..e], key + add) != []
    ensures ReplaceAll(s[e..], s[i..e], key + add)[0] == '\n'
  {
    assert s[i..e][0] == key[0];
    ReplaceKeepsHead(s[e..], s[i..e], key + add);
    TextSuffix(s, e);
    TextConcat(key, add);
    ReplaceKeepsText(s[e..], s[i..e], key + add);
  }

  /** The text a rewrite produces: still a modelled text, the key still
      first at `i`, and followed by the new value and what came after the
      old line. */
  lemma SpliceShape(s: string, key: string, add: string, i: nat, rest: string)
    requires IsText(s) && ValidKey(key) && IsPlain(add) && IsText(rest)
    requires FindFirst(s, key) == Some(i) && i + |key| <= |s|
    ensures IsText(s[..i] + (key + add) + rest)
    ensures FindFirst(s[..i] + (key + add) + rest, key) == Some(i)
    ensures i + |key| <= |s[..i] + (key + add) + rest|
    ensures (s[..i] + (key + add) + rest)[i + |key|..] == add + rest
  {
    var s2 := s[..i] + (key + add) + rest;
    TextSuffix(s, i);
    TextConcat(key, add);
    TextConcat(s[..i], key + add);
    TextConcat(s[..i] + (key + add), rest);
    Regroup4(s[..i], key, add, rest);
    DropFront(s[..i] + key, add + rest);
    assert s2[..i + |key|] == s[..i] + key == s[..i + |key|];
    FirstKeyKept(s, s2, key, i);
  }

  /** The file after a successful rewrite of such a line has that shape. */
  lemma UpdatedShape(copy: Copy, s: string, key: string, add: string, i: nat) returns (rest: string)
    requires Updatable(copy, s, key, i) && IsPlain(add)
    ensures IsText(UpdatedContent(copy, s, key, add))
    ensures FindFirst(UpdatedContent(copy, s, key, add), key) == Some(i)
    ensures i + |key| <= |UpdatedContent(copy, s, key, add)|
    ensures UpdatedContent(copy, s, key, add)[i + |key|..] == add + rest
    ensures rest != [] && rest[0] == '\n'
  {
    var e := ValueEnd(copy, s, key, i);
    rest := ReplaceAll(s[e..], s[i..e], key + add);
    assert OccursAt(s, key, i);
    RestAfterLine(s, key, add, i, e);
    SpliceShape(s, key, add, i, rest);
    UpdateRewritesLine(copy, s, key, add, i);
  }

  lemma {:induction false} ValueRunPrefix(cls: Class, x: string, y: string)
    requires forall k :: 0 <= k < |x| ==> RawInClass(cls, x[k])
    requires y == [] || !RawInClass(cls, y[0])
    ensures ValueRun(cls, x + y) == x
    decreases |x|
  {
    if x != [] {
      assert (x + y)[0] == x[0] && (x + y)[1..] == x[1..] + y;
      ValueRunPrefix(cls, x[1..], y);
      assert x == [x[0]] + x[1..];
    } else {
      assert x + y == y;
    }
  }

  /** A value `check_config_files` reads back whole. */
  predicate CheckableValue(v: string) {
    IsPlain(v) && forall k :: 0 <= k < |v| ==> InClass(CheckValues, v[k])
  }

  /** A value `update_file` of one copy locates again whole. */
  predicate UpdatableValue(copy: Copy, v: string) {
    IsPlain(v) && forall k :: 0 <= k < |v| ==> InClass(UpdateValues(copy), v[k])
  }

  /** `check_config_files` on a text of that shape reads the new value. */
  lemma CheckOfShape(s2: string, key: string, add: string, rest: string, value: string, i: nat)
    requires IsText(s2) && ValidKey(key) && FindFirst(s2, key) == Some(i) && i + |key| <= |s2|
    requires s2[i + |key|..] == add + rest && rest != [] && rest[0] == '\n'
    requires CheckableValue(add)
    ensures CheckConfig(s2, key, value) == Ok(add == value)
  {
    ValueRunPrefix(CheckValues, add, rest);
    EscPlain(add);
    CheckConfigMeaning(s2, key, value, i);
  }

  /** Write, then check: after `update_file(key, add)` on such a line,
      `check_config_files(key, value)` is True exactly when `value` is `add`. */
  lemma CheckAfterUpdate(copy: Copy, s: string, key: string, add: string, value: string, i: nat)
    requires Updatable(copy, s, key, i) && CheckableValue(add)
    ensures CheckConfig(UpdatedContent(copy, s, key, add), key, value) == Ok(add == value)
  {
    var rest := UpdatedShape(copy, s, key, add, i);
    CheckOfShape(UpdatedContent(copy, s, key, add), key, add, rest, value, i);
  }

  lemma AssignmentOfValue(copy: Copy, s: string, key: string, v: string, i: nat)
    requires OccursAt(s, key, i)
    requires ValueRun(UpdateValues(copy), s[i + |key|..]) == v
    requires EndsLine(UpdateValues(copy), s[i + |key|..])
    ensures AssignmentAt(copy, s, key, i) == key + v
  {
    assert ValueEnd(copy, s, key, i) == i + |key| + |v|;
    SpanIsAssignment(s, key, i, v);
  }

  /** `update_file` on a text of that shape finds the new assignment,
      returns True and changes nothing. */
  lemma RewriteAgain(copy: Copy, s2: string, key: string, add: string, rest: string, i: nat)
    requires IsText(s2) && ValidKey(key) && FindFirst(s2, key) == Some(i) && i + |key| <= |s2|
    requires s2[i + |key|..] == add + rest && rest != [] && rest[0] == '\n'
    requires UpdatableValue(copy, add)
    ensures Updatable(copy, s2, key, i)
    ensures UpdateStatus(copy, s2, key) == Ok(true)
    ensures UpdatedContent(copy, s2, key, add) == s2
  {
    ValueRunPrefix(UpdateValues(copy), add, rest);
    assert (add + rest)[|add|] == '\n';
    AssignmentOfValue(copy, s2, key, add, i);
    ReplacementOfKey(key, add);
    ReplaceSelf(s2, key + add);
    LocatedWrites(copy, s2, key, add, i);
  }

  /** Updating twice with the same value: the first update leaves a line the
      next one can rewrite again, and the second finds the new assignment and
      changes nothing. */
  lemma UpdateIdempotent(copy: Copy, s: string, key: string, add: string, i: nat)
    requires Updatable(copy, s, key, i) && UpdatableValue(copy, add)
    ensures Updatable(copy, UpdatedContent(copy, s, key, add), key, i)
    ensures UpdateStatus(copy, UpdatedContent(copy, s, key, add), key) == Ok(true)
    ensures UpdatedContent(copy, UpdatedContent(copy, s, key, add), key, add) == UpdatedContent(copy, s, key, add)
  {
    var rest := UpdatedShape(copy, s, key, add, i);
    RewriteAgain(copy, UpdatedContent(copy, s, key, add), key, add, rest, i);
  }

  /** `str.replace` in `update_file` keeps every piece of the text between
      copies of the located assignment and swaps each copy for the new line;
      no piece holds the assignment. */
  lemma UpdateKeepsPieces(copy: Copy, s: string, key: string, add: string, current: string)
    requires Located(copy, s, key) == Some(current) && current != [] && Contains(s, current)
    ensures s == Join(Split(s, current), current)
    ensures UpdatedContent(copy, s, key, add) == Join(Split(s, current), Replacement(key, add))
    ensures forall k :: 0 <= k < |Split(s, current)| ==> !Contains(Split(s, current)[k], current)
  {
    SplitJoin(s, current);
    ReplaceViaSplit(s, current, Replacement(key, add));
    SplitPiecesFree(s, current);
  }

  lemma EmptyFront(a: string, b: string)
    ensures [] + a + b == a + b
  {
    assert [] + a == a;
  }

  /** A text that starts with a piece beginning with the key, and holds the
      key nowhere after it, has exactly one copy of that piece to replace. */
  lemma ReplaceHead(located: string, tail: string, key: string, r: string)
    requires key != [] && |key| <= |located| && located[..|key|] == key
    requires !Contains(tail, key)
    ensures ReplaceAll(located + tail, located, r) == r + tail
  {
    forall j: nat ensures !OccursAt(tail, located, j) {
      PrefixOccurs(tail, key, located, j);
    }
    FindFirstNone(tail, located);
    ReplaceAbsent(tail, located, r);
    assert OccursAt(located + tail, located, 0);
    FindFirstIs(located + tail, located, 0);
    EmptyFront(located, tail);
    ReplaceFromFirst([], located, tail, r);
  }

  /** On a last line without a final newline, the two characters `m[:-2]`
      drops are part of the value: they stay behind the new value, so `K=ab`
      updated with `c` becomes `K=cab`. */
  lemma TruncatedLastLine(copy: Copy, key: string, v: string, add: string)
    requires ValidKey(key) && UpdatableValue(copy, v) && |v| >= 2
    requires !Contains(v[|v| - 2..], key)
    ensures UpdateStatus(copy, key + v, key) == Ok(true)
    ensures UpdatedContent(copy, key + v, key, add) == key + add + v[|v| - 2..]
  {
    var s := key + v;
    var located := key + v[..|v| - 2];
    var tail := v[|v| - 2..];
    assert s == located + tail;
    assert FindFirst(s, key) == Some(0) by {
      assert OccursAt(s, key, 0);
      FindFirstIs(s, key, 0);
    }
    assert IsText(s) by {
      TextConcat(key, v);
    }
    assert ValueRun(UpdateValues(copy), s[|key|..]) == v by {
      assert s[|key|..] == v + [];
      ValueRunPrefix(UpdateValues(copy), v, []);
    }
    assert AssignmentAt(copy, s, key, 0) == located by {
      assert ValueEnd(copy, s, key, 0) == |s|;
      assert s[0..|s|] == s;
    }
    assert ReplaceAll(s, located, key + add) == key + add + tail by {
      ReplaceHead(located, tail, key, key + add);
    }
    ReplacementOfKey(key, add);
    LocatedWrites(copy, s, key, add, 0);
  }

  /** A value stopped mid-line by a character outside the patcher's class
      (`+`, `/`, `'`, ...) loses its last two characters to `m[:-2]` as
      well: they stay behind the new value, so `K=ab+c` updated with `d`
      becomes `K=dab+c`. */
  lemma TruncatedMidLine(copy: Copy, key: string, v: string, c: char, t: string, add: string)
    requires ValidKey(key) && UpdatableValue(copy, v) && |v| >= 2
    requires TextChar(c) && c != '\n' && !RawInClass(UpdateValues(copy), c) && IsText(t)
    requires !Contains(v[|v| - 2..] + [c] + t, key)
    ensures UpdateStatus(copy, key + v + [c] + t, key) == Ok(true)
    ensures UpdatedContent(copy, key + v + [c] + t, key, add) == key + add + v[|v| - 2..] + [c] + t
  {
    var w := v + ([c] + t);
    var s := key + v + [c] + t;
    var located := key + v[..|v| - 2];
    var tail := v[|v| - 2..] + [c] + t;
    MidLineSplit(key, v, c, t, add);
    MidLineAssignment(copy, key, v, c, t, w, s);
    LocatedWrites(copy, s, key, add, 0);
    ReplacementOfKey(key, add);
    ReplaceHead(located, tail, key, key + add);
  }

  lemma MidLineSplit(key: string, v: string, c: char, t: string, add: string)
    requires |v| >= 2
    ensures key + v + [c] + t == key + (v + ([c] + t))
    ensures key + v + [c] + t == (key + v[..|v| - 2]) + (v[|v| - 2..] + [c] + t)
    ensures key + add + (v[|v| - 2..] + [c] + t) == key + add + v[|v| - 2..] + [c] + t
  {
    assert v == v[..|v| - 2] + v[|v| - 2..];
  }

  /** Where `TruncatedMidLine` finds the assignment. */
  lemma MidLineAssignment(copy: Copy, key: string, v: string, c: char, t: string, w: string, s: string)
    requires ValidKey(key) && UpdatableValue(copy, v) && |v| >= 2
    requires TextChar(c) && c != '\n' && !RawInClass(UpdateValues(copy), c) && IsText(t)
    requires w == v + ([c] + t) && s == key + w
    ensures IsText(s) && FindFirst(s, key) == Some(0) && |key| <= |s|
    ensures NoTab(ValueRun(UpdateValues(copy), s[|key|..]))
    ensures AssignmentAt(copy, s, key, 0) == key + v[..|v| - 2]
  {
    assert FindFirst(s, key) == Some(0) by {
      assert OccursAt(s, key, 0);
      FindFirstIs(s, key, 0);
    }
    assert IsText(s) by {
      TextConcat([c], t);
      TextConcat(v, [c] + t);
      TextConcat(key, w);
    }
    MidLineSpan(copy, key, v, c, t, w, s);
  }

  lemma MidLineSpan(copy: Copy, key: string, v: string, c: char, t: string, w: string, s: string)
    requires UpdatableValue(copy, v) && |v| >= 2
    requires c != '\n' && !RawInClass(UpdateValues(copy), c)
    requires w == v + ([c] + t) && s == key + w
    ensures NoTab(ValueRun(UpdateValues(copy), s[|key|..]))
    ensures AssignmentAt(copy, s, key, 0) == key + v[..|v| - 2]
  {
    var cls := UpdateValues(copy);
    assert s[|key|..] == w;
    assert ValueRun(cls, w) == v by {
      ValueRunPrefix(cls, v, [c] + t);
    }
    assert !EndsLine(cls, w) by {
      assert w[|v|] == c;
    }
    assert ValueEnd(copy, s, key, 0) == |key| + |v|;
    assert s[0..|key| + |v|] == key + v;
  }

  // ---------------------------------------------------------------------
  // A rewritten line elsewhere in the text

  /** A key that occurs nowhere after its first occurrence leaves no copy of
      that occurrence's line further on. */
  lemma KeyOnceAfter(s: string, key: string, i: nat, e: nat)
    requires key != [] && OccursAt(s, key, i) && i + |key| <= e <= |s|
    requires !Contains(s[i + |key|..], key)
    ensures !Contains(s[e..], s[i..e])
  {
    var x := s[i + |key|..];
    var d := e - i - |key|;
    assert x[d..] == s[e..];
    forall t: nat ensures !OccursAt(s[e..], s[i..e], t) {
      PrefixOccurs(s[e..], key, s[i..e], t);
      OccursAfter(x, key, d, t);
    }
    FindFirstNone(s[e..], s[i..e]);
  }

  /** No occurrence of a key lies in the text before its first occurrence. */
  lemma PrefixFree(s: string, key: string, j: nat, i: nat)
    requires key != [] && FindFirst(s, key) == Some(j) && i <= j && i <= |s|
    ensures !Contains(s[..i], key)
  {
    forall k: nat ensures !OccursAt(s[..i], key, k) {
      if OccursAt(s[..i], key, k) {
        assert s[..i][k..k + |key|] == s[k..k + |key|];
        assert OccursAt(s, key, k);
      }
    }
    FindFirstNone(s[..i], key);
  }

  /** The value run is decided by the text up to the character that stops
      it. */
  lemma RunDeterminedBy(cls: Class, u: string, u1: string, n: nat)
    requires n <= |u| && n <= |u1| && u[..n] == u1[..n] && |ValueRun(cls, u)| < n
    ensures ValueRun(cls, u1) == ValueRun(cls, u)
  {
    var r := ValueRun(cls, u);
    assert u1[|r|] == u[|r|];
    assert u1 == r + u1[|r|..];
    ValueRunPrefix(cls, r, u1[|r|..]);
  }

  /** A newline stops every value run. */
  lemma RunBeforeNewline(cls: Class, u: string, n: nat)
    requires 0 < n <= |u| && u[n - 1] == '\n'
    ensures |ValueRun(cls, u)| < n
  {
  }

  /** What follows a key, up to the newline that ends its line, decides
      what both functions read there. */
  lemma RunsKept(copy: Copy, u: string, u1: string, n: nat)
    requires NoTab(ValueRun(UpdateValues(copy), u)) && EndsLine(UpdateValues(copy), u)
    requires n == |ValueRun(UpdateValues(copy), u)| + 1 && n <= |u1| && u[..n] == u1[..n]
    ensures NoTab(ValueRun(UpdateValues(copy), u1)) && EndsLine(UpdateValues(copy), u1)
    ensures ValueRun(UpdateValues(copy), u1) == ValueRun(UpdateValues(copy), u)
    ensures ValueRun(CheckValues, u1) == ValueRun(CheckValues, u)
  {
    RunDeterminedBy(UpdateValues(copy), u, u1, n);
    assert u1[n - 1] == u[n - 1];
    RunBeforeNewline(CheckValues, u, n);
    RunDeterminedBy(CheckValues, u, u1, n);
  }

  /** Changing the text only after the end of the line of a key's first
      occurrence leaves that line as both functions read it. */
  lemma LineKeptBefore(copy: Copy, s: string, s1: string, key: string, value: string, j: nat, i: nat)
    requires Updatable(copy, s, key, j)
    requires IsText(s1) && ValueEnd(copy, s, key, j) < i <= |s1| && i <= |s| && s1[..i] == s[..i]
    ensures Updatable(copy, s1, key, j)
    ensures ValueEnd(copy, s1, key, j) == ValueEnd(copy, s, key, j)
    ensures CheckConfig(s1, key, value) == CheckConfig(s, key, value)
  {
    var u := s[j + |key|..];
    var u1 := s1[j + |key|..];
    var n := ValueEnd(copy, s, key, j) + 1 - (j + |key|);
    assert u[..n] == u1[..n] by {
      assert u[..n] == s[j + |key|..j + |key| + n] == s[..i][j + |key|..j + |key| + n];
      assert u1[..n] == s1[j + |key|..j + |key| + n] == s1[..i][j + |key|..j + |key| + n];
    }
    assert FindFirst(s1, key) == Some(j) by {
      assert s1[..j + |key|] == s[..i][..j + |key|];
      FirstKeyKept(s, s1, key, j);
    }
    RunsKept(copy, u, u1, n);
    CheckConfigMeaning(s, key, value, j);
    CheckConfigMeaning(s1, key, value, j);
  }

  /** Changing only the text before position `e`, in a way that puts no
      occurrence of a key before the new position `m` of that text, moves the
      key's first line and leaves it as both functions read it. */
  lemma LineKeptAfter(copy: Copy, s: string, s1: string, key: string, value: string, e: nat, m: nat, j: nat)
    returns (j1: nat)
    requires Updatable(copy, s, key, j) && IsText(s1)
    requires e <= j && m <= |s1| && s1[m..] == s[e..]
    requires forall k: nat :: k < m ==> !OccursAt(s1, key, k)
    ensures j1 == j - e + m
    ensures Updatable(copy, s1, key, j1)
    ensures s1[j1 + |key|..] == s[j + |key|..]
    ensures CheckConfig(s1, key, value) == CheckConfig(s, key, value)
  {
    j1 := FirstMoved(s, s1, key, e, m, j);
    assert s1[j1 + |key|..] == s[j + |key|..] by {
      assert s1[j1 + |key|..] == s1[m..][j - e + |key|..];
      assert s[j + |key|..] == s[e..][j - e + |key|..];
    }
    CheckConfigMeaning(s, key, value, j);
    CheckConfigMeaning(s1, key, value, j1);
  }

  /** A first occurrence past `e` moves with the text that follows `e`. */
  lemma FirstMoved(s: string, s1: string, key: string, e: nat, m: nat, j: nat) returns (j1: nat)
    requires FindFirst(s, key) == Some(j) && e <= j && e <= |s|
    requires m <= |s1| && s1[m..] == s[e..]
    requires forall k: nat :: k < m ==> !OccursAt(s1, key, k)
    ensures j1 == j - e + m && FindFirst(s1, key) == Some(j1)
  {
    j1 := j - e + m;
    FirstFrom(s, key, e, j);
    FirstBeyond(s1, key, m, s[e..], j - e);
  }

  /** `update_file` on a key that occurs once rewrites only that key's line:
      the text before the key and from the line's newline on is kept. */
  lemma UpdateOnce(copy: Copy, s: string, key: string, add: string, i: nat)
    requires Updatable(copy, s, key, i) && !Contains(s[i + |key|..], key)
    ensures ValueEnd(copy, s, key, i) < |s| && s[ValueEnd(copy, s, key, i)] == '\n'
    ensures UpdatedContent(copy, s, key, add) == s[..i] + (key + add) + s[ValueEnd(copy, s, key, i)..]
  {
    var e := ValueEnd(copy, s, key, i);
    UpdateRewritesLine(copy, s, key, add, i);
    assert !Contains(s[e..], s[i..e]) by {
      KeyOnceAfter(s, key, i, e);
    }
    ReplaceAbsent(s[e..], s[i..e], key + add);
  }

  /** A text without a key holds it in none of its prefixes. */
  lemma PrefixNone(x: string, key: string, n: nat)
    requires n <= |x| && !Contains(x, key)
    ensures !Contains(x[..n], key)
  {
    forall k: nat ensures !OccursAt(x[..n], key, k) {
      if k + |key| <= n {
        assert x[..n][k..k + |key|] == x[k..k + |key|];
        assert !OccursAt(x, key, k);
      }
    }
    FindFirstNone(x[..n], key);
  }

  /** A text without a key holds it in none of its suffixes. */
  lemma SuffixNone(x: string, key: string, d: nat)
    requires d <= |x| && !Contains(x, key)
    ensures !Contains(x[d..], key)
  {
    forall k: nat ensures !OccursAt(x[d..], key, k) {
      OccursAfter(x, key, d, k);
    }
    FindFirstNone(x[d..], key);
  }

  /** A line whose text after the key is unchanged ends at the same
      distance from the key. */
  lemma ValueEndMoved(copy: Copy, s: string, s1: string, key: string, j: nat, j1: nat)
    requires j + |key| <= |s| && j1 + |key| <= |s1| && s1[j1 + |key|..] == s[j + |key|..]
    ensures ValueEnd(copy, s1, key, j1) == ValueEnd(copy, s, key, j) - j + j1
  {
  }

  /** A key absent from the tail of a text occurs nowhere inside that tail. */
  lemma NoneInTail(w: string, a: string, q: string, key: string, k: nat)
    requires w == a + q && !Contains(q, key) && |a| <= k
    ensures !OccursAt(w, key, k)
  {
    assert w[|a|..] == q;
    OccursAfter(w, key, |a|, k - |a|);
  }

  /** Splicing `t` over `s[i..e]` leaves the key absent from the kept text
      around it, when it was absent from everything after `n`. */
  lemma AbsentAroundSplice(s: string, t: string, s1: string, key: string, n: nat, i: nat, e: nat)
    requires n <= i <= e <= |s| && s1 == s[..i] + t + s[e..] && !Contains(s[n..], key)
    ensures s1[n..] == s[n..i] + t + s[e..]
    ensures !Contains(s[n..i], key) && !Contains(s[e..], key)
  {
    SpliceTail(s, t, s1, n, i, e);
    PrefixNone(s[n..], key, i - n);
    SuffixNone(s[n..], key, e - n);
  }

  /** `LineKeptAfter` for a text that splices `t` over `s[i..e]`. */
  lemma LineKeptAfterSplice(copy: Copy, s: string, t: string, s1: string, key: string, value: string,
                            i: nat, e: nat, j: nat)
    returns (j1: nat)
    requires Updatable(copy, s, key, j) && IsText(s1)
    requires i <= e <= j && s1 == s[..i] + t + s[e..]
    requires forall k: nat :: k < i + |t| ==> !OccursAt(s1, key, k)
    ensures j1 == j - e + i + |t|
    ensures Updatable(copy, s1, key, j1)
    ensures s1[j1 + |key|..] == s[j + |key|..]
    ensures CheckConfig(s1, key, value) == CheckConfig(s, key, value)
    ensures ValueEnd(copy, s1, key, j1) == ValueEnd(copy, s, key, j) - j + j1
    ensures AbsentAfter(s, key, j) ==> AbsentAfter(s1, key, j1)
  {
    assert s1[i + |t|..] == s[e..];
    j1 := LineKeptAfter(copy, s, s1, key, value, e, i + |t|, j);
    ValueEndMoved(copy, s, s1, key, j, j1);
  }

  /** Once `t` has been spliced over `s[i..e]`, a line of `key` that ended
      before the splice is rewritten in place by a second update, and the
      text around both writes is the original. */
  lemma SecondWriteEarlier(copy: Copy, s: string, t: string, s1: string, key: string,
                           add: string, i: nat, e: nat, j: nat)
    requires Updatable(copy, s1, key, j) && AbsentAfter(s1, key, j)
    requires j + |key| <= |s| && ValueEnd(copy, s1, key, j) == ValueEnd(copy, s, key, j)
    requires ValueEnd(copy, s, key, j) < i <= e <= |s| && s1 == s[..i] + t + s[e..]
    ensures UpdatedContent(copy, s1, key, add)
      == s[..j] + (key + add) + s[ValueEnd(copy, s, key, j)..i] + t + s[e..]
  {
    UpdateOnce(copy, s1, key, add, j);
    SpliceEarlier(s, t, key + add, s1, i, e, j, ValueEnd(copy, s, key, j));
  }

  /** Once `t` has been spliced over `s[i..e]`, a line of `key` after the
      splice that moved to `j1`, with nothing after it changed, is rewritten
      by a second update, and the text around both writes is the original. */
  lemma SecondWriteLater(copy: Copy, s: string, t: string, s1: string, key: string,
                         add: string, i: nat, e: nat, j: nat, j1: nat)
    requires Updatable(copy, s1, key, j1) && AbsentAfter(s1, key, j1)
    requires j + |key| <= |s| && ValueEnd(copy, s1, key, j1) == ValueEnd(copy, s, key, j) - j + j1
    requires i <= e <= j && s1 == s[..i] + t + s[e..] && j1 == j - e + i + |t|
    ensures UpdatedContent(copy, s1, key, add)
      == s[..i] + t + s[e..j] + (key + add) + s[ValueEnd(copy, s, key, j)..]
  {
    var f := ValueEnd(copy, s, key, j);
    UpdateOnce(copy, s1, key, add, j1);
    SpliceLater(s, t, key + add, s1, i, e, j, f, j1, f - j + j1);
  }
}
