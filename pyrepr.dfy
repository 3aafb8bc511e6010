/**
 * What `str(f.readlines())` produces for a configuration file.
 *
 * `readlines()` cuts the text after every newline; `str` of the resulting
 * list is `[`, the `repr` of each line joined by `, `, and `]`. For the
 * alphabet below, the `repr` of a line is the line between single quotes with
 * a newline written as the two characters `\` `n` and a tab as `\` `t`.
 */
module PyRepr {
  import opened Text

  /** Characters that Python's `repr` prints as themselves inside single
      quotes: printable ASCII except the quote and the backslash, the
      printable Latin-1 letters and signs, and the Greek beta. */
  predicate PlainChar(c: char) {
    (' ' <= c <= '~' && c != '\'' && c != '\\')
    || ('\U{A1}' <= c <= '\U{FF}' && c != '\U{AD}')
    || c == '\U{3B2}'
  }

  /** Characters a modelled configuration file may hold. */
  predicate TextChar(c: char) {
    PlainChar(c) || c == '\t' || c == '\n'
  }

  predicate IsText(s: string) {
    forall k :: 0 <= k < |s| ==> TextChar(s[k])
  }

  predicate IsPlain(s: string) {
    forall k :: 0 <= k < |s| ==> PlainChar(s[k])
  }

  /** `f.readlines()`: the text cut after each newline; the last line keeps
      whatever follows the last newline, when that is not empty. */
  function Lines(s: string): (lines: seq<string>)
    ensures s == [] <==> lines == []
    decreases |s|
  {
    if s == [] then []
    else if s[0] == '\n' then ["\n"] + Lines(s[1..])
    else if |s| == 1 then [s]
    else
      var rest := Lines(s[1..]);
      [[s[0]] + rest[0]] + rest[1..]
  }

  /** `"".join(lines)`. */
  function Concat(lines: seq<string>): string {
    if lines == [] then [] else lines[0] + Concat(lines[1..])
  }

  /** Every line non-empty, a newline only as the last character of a line,
      and every line but the last ended by one. */
  predicate LinesShaped(ls: seq<string>) {
    (forall k :: 0 <= k < |ls| ==> ls[k] != [])
    && (forall k, j :: 0 <= k < |ls| && 0 <= j < |ls[k]| - 1 ==> ls[k][j] != '\n')
    && (forall k :: 0 <= k < |ls| - 1 ==> ls[k][|ls[k]| - 1] == '\n')
  }

  lemma ShapedNewline(rest: seq<string>)
    requires LinesShaped(rest)
    ensures LinesShaped(["\n"] + rest)
  {
    var ls := ["\n"] + rest;
    forall k | 0 < k < |ls| ensures ls[k] == rest[k - 1] {
    }
  }

  lemma ShapedCons(c: char, rest: seq<string>)
    requires c != '\n' && |rest| >= 1 && LinesShaped(rest)
    ensures LinesShaped([[c] + rest[0]] + rest[1..])
  {
    var ls := [[c] + rest[0]] + rest[1..];
    forall k | 0 < k < |ls| ensures ls[k] == rest[k] {
    }
    forall j | 0 < j < |ls[0]| ensures ls[0][j] == rest[0][j - 1] {
    }
  }

  lemma ConcatCons(c: char, rest: seq<string>)
    requires |rest| >= 1
    ensures Concat([[c] + rest[0]] + rest[1..]) == [c] + Concat(rest)
  {
    var ls := [[c] + rest[0]] + rest[1..];
    assert ls[1..] == rest[1..];
  }

  /** `readlines` loses nothing, keeps every newline at the end of its line,
      and ends every line but the last with one. */
  lemma {:induction false} LinesPartition(s: string)
    ensures Concat(Lines(s)) == s
    ensures LinesShaped(Lines(s))
    decreases |s|
  {
    if s == [] {
    } else if s[0] == '\n' {
      LinesPartition(s[1..]);
      var rest := Lines(s[1..]);
      assert Lines(s) == ["\n"] + rest;
      assert (["\n"] + rest)[1..] == rest;
      ShapedNewline(rest);
      assert s == "\n" + s[1..];
    } else if |s| == 1 {
      assert Lines(s) == [s];
    } else {
      LinesPartition(s[1..]);
      var rest := Lines(s[1..]);
      assert Lines(s) == [[s[0]] + rest[0]] + rest[1..];
      ShapedCons(s[0], rest);
      ConcatCons(s[0], rest);
      assert s == [s[0]] + s[1..];
    }
  }

  /** `repr` of one character inside a quoted line. */
  function EscapeChar(c: char): string {
    if c == '\n' then "\\n" else if c == '\t' then "\\t" else [c]
  }

  function EscapeLine(line: string): string {
    if line == [] then [] else EscapeChar(line[0]) + EscapeLine(line[1..])
  }

  /** `repr(line)` for a line without a single quote. */
  function Quote(line: string): string {
    "'" + EscapeLine(line) + "'"
  }

  function JoinQuoted(lines: seq<string>): string {
    if lines == [] then []
    else if |lines| == 1 then Quote(lines[0])
    else Quote(lines[0]) + ", " + JoinQuoted(lines[1..])
  }

  /** `str(lines)` for a list of strings. */
  function ListRepr(lines: seq<string>): string {
    "[" + JoinQuoted(lines) + "]"
  }

  /** `str(f.readlines())`, the text the patcher's regular expressions scan. */
  function ReadlinesRepr(s: string): string {
    ListRepr(Lines(s))
  }

  /** The same text, written character by character: a newline that is not
      the last character closes one quoted line and opens the next. */
  function Esc(s: string): string
    decreases |s|
  {
    if s == [] then []
    else if s[0] == '\n' && |s| > 1 then "\\n', '" + Esc(s[1..])
    else EscapeChar(s[0]) + Esc(s[1..])
  }

  /** `Esc` of a part that is followed by more text. */
  function EscMid(s: string): string
    decreases |s|
  {
    if s == [] then []
    else (if s[0] == '\n' then "\\n', '" else EscapeChar(s[0])) + EscMid(s[1..])
  }

  /** The flat form of `str(f.readlines())`. */
  function Repr(s: string): string {
    if s == [] then "[]" else "['" + Esc(s) + "']"
  }

  lemma EscapeLineCons(c: char, line: string)
    ensures EscapeLine([c] + line) == EscapeChar(c) + EscapeLine(line)
  {
    assert ([c] + line)[1..] == line;
  }

  lemma JoinQuotedLastNewline()
    ensures JoinQuoted(Lines("\n")) == "'" + Esc("\n") + "'"
  {
    assert Lines("\n") == ["\n"];
    assert EscapeLine("\n") == "\\n";
  }

  lemma NewlineLiterals(x: string)
    ensures Quote("\n") + ", " + ("'" + x + "'") == "'" + ("\\n', '" + x) + "'"
  {
    assert EscapeLine("\n") == "\\n";
  }

  lemma JoinQuotedNewline(t: string)
    requires |t| > 1 && t[0] == '\n'
    requires JoinQuoted(Lines(t[1..])) == "'" + Esc(t[1..]) + "'"
    ensures JoinQuoted(Lines(t)) == "'" + Esc(t) + "'"
  {
    var rest := Lines(t[1..]);
    assert Lines(t) == ["\n"] + rest;
    assert (["\n"] + rest)[1..] == rest;
    assert JoinQuoted(Lines(t)) == Quote("\n") + ", " + JoinQuoted(rest);
    assert Esc(t) == "\\n', '" + Esc(t[1..]);
    NewlineLiterals(Esc(t[1..]));
  }

  lemma JoinQuotedSingle(t: string)
    requires |t| == 1 && t[0] != '\n'
    ensures JoinQuoted(Lines(t)) == "'" + Esc(t) + "'"
  {
    assert Lines(t) == [t];
    assert EscapeLine(t) == EscapeChar(t[0]) + EscapeLine([]);
  }

  /** The literal bookkeeping of `JoinQuotedExtend`, over plain strings. */
  lemma Regroup(whole: string, tail: string, esc: string, e: string, l: string, m: string, x: string)
    requires whole == "'" + (e + l) + "'" + m
    requires tail == "'" + l + "'" + m && tail == "'" + x + "'"
    requires esc == e + x
    ensures whole == "'" + esc + "'"
  {
    assert l + "'" + m == tail[1..] == x + "'";
    assert whole == "'" + e + (l + "'" + m);
  }

  /** What follows the first quoted line in `JoinQuoted(lines)`. */
  function MoreLines(lines: seq<string>): string {
    if |lines| <= 1 then [] else ", " + JoinQuoted(lines[1..])
  }

  lemma JoinQuotedFirst(lines: seq<string>)
    requires lines != []
    ensures JoinQuoted(lines) == "'" + EscapeLine(lines[0]) + "'" + MoreLines(lines)
  {
    assert JoinQuoted(lines) == Quote(lines[0]) + MoreLines(lines) by {
      JoinQuotedSplit(lines);
    }
  }

  lemma JoinQuotedSplit(lines: seq<string>)
    requires lines != []
    ensures JoinQuoted(lines) == Quote(lines[0]) + MoreLines(lines)
  {
    if |lines| > 1 {
      Assoc(Quote(lines[0]), ", ", JoinQuoted(lines[1..]));
    }
  }

  lemma JoinQuotedGrow(t: string)
    requires |t| > 1 && t[0] != '\n'
    ensures Lines(t[1..]) != []
    ensures JoinQuoted(Lines(t)) == "'" + (EscapeChar(t[0]) + EscapeLine(Lines(t[1..])[0])) + "'" + MoreLines(Lines(t[1..]))
  {
    var rest := Lines(t[1..]);
    var ls := Lines(t);
    assert ls == [[t[0]] + rest[0]] + rest[1..];
    assert |ls| == |rest| && ls[1..] == rest[1..];
    JoinQuotedFirst(ls);
    EscapeLineCons(t[0], rest[0]);
  }

  lemma JoinQuotedExtend(t: string)
    requires |t| > 1 && t[0] != '\n'
    requires JoinQuoted(Lines(t[1..])) == "'" + Esc(t[1..]) + "'"
    ensures JoinQuoted(Lines(t)) == "'" + Esc(t) + "'"
  {
    var rest := Lines(t[1..]);
    JoinQuotedGrow(t);
    JoinQuotedFirst(rest);
    assert Esc(t) == EscapeChar(t[0]) + Esc(t[1..]);
    Regroup(JoinQuoted(Lines(t)), JoinQuoted(rest), Esc(t), EscapeChar(t[0]), EscapeLine(rest[0]), MoreLines(rest), Esc(t[1..]));
  }

  lemma {:induction false} JoinQuotedLines(t: string)
    requires t != []
    ensures JoinQuoted(Lines(t)) == "'" + Esc(t) + "'"
    decreases |t|
  {
    if |t| == 1 && t[0] == '\n' {
      JoinQuotedLastNewline();
    } else if t[0] == '\n' {
      JoinQuotedLines(t[1..]);
      JoinQuotedNewline(t);
    } else if |t| == 1 {
      JoinQuotedSingle(t);
    } else {
      JoinQuotedLines(t[1..]);
      JoinQuotedExtend(t);
    }
  }

  /** The list form and the flat form of `str(f.readlines())` agree. */
  lemma ReadlinesReprFlat(s: string)
    ensures ReadlinesRepr(s) == Repr(s)
  {
    if s != [] {
      JoinQuotedLines(s);
    }
  }

  lemma {:induction false} EscMidAppend(a: string, b: string)
    ensures EscMid(a + b) == EscMid(a) + EscMid(b)
    decreases |a|
  {
    if a != [] {
      EscMidAppend(a[1..], b);
      assert (a + b)[1..] == a[1..] + b;
    } else {
      assert a + b == b;
    }
  }

  /** `Esc` of a text cut anywhere before its end, or after a character
      that is not a newline. */
  lemma {:induction false} EscSplit(a: string, b: string)
    requires b != [] || a == [] || a[|a| - 1] != '\n'
    ensures Esc(a + b) == EscMid(a) + Esc(b)
    decreases |a|
  {
    if a != [] {
      EscSplit(a[1..], b);
      assert (a + b)[1..] == a[1..] + b;
      if a[0] == '\n' {
        assert |a + b| > 1;
      }
    } else {
      assert a + b == b;
    }
  }

  lemma {:induction false} EscMidLength(a: string)
    ensures |EscMid(a)| >= |a|
    decreases |a|
  {
    if a != [] { EscMidLength(a[1..]); }
  }

  /** Plain text is its own `repr` body. */
  lemma {:induction false} EscPlain(a: string)
    requires IsPlain(a)
    ensures Esc(a) == a && EscMid(a) == a && EscapeLine(a) == a
    decreases |a|
  {
    if a != [] {
      EscPlain(a[1..]);
      assert a == [a[0]] + a[1..];
    }
  }

  /** What follows the opening `['` of `str(f.readlines())` for a non-empty
      text. */
  function Body(s: string): string {
    Esc(s) + "']"
  }

  lemma ReprBody(s: string)
    requires s != []
    ensures Repr(s) == "['" + Body(s)
  {
  }

  lemma BodyPlain(s: string)
    requires s != [] && PlainChar(s[0])
    ensures Body(s) == [s[0]] + Body(s[1..])
  {
    assert Esc(s) == [s[0]] + Esc(s[1..]);
  }

  lemma BodyTab(s: string)
    requires s != [] && s[0] == '\t'
    ensures Body(s) == "\\t" + Body(s[1..])
  {
    assert Esc(s) == "\\t" + Esc(s[1..]);
  }

  lemma BodyNewline(s: string)
    requires |s| > 1 && s[0] == '\n'
    ensures Body(s) == "\\n', '" + Body(s[1..])
  {
    assert Esc(s) == "\\n', '" + Esc(s[1..]);
  }

  lemma BodyLastNewline()
    ensures Body("\n") == "\\n']"
  {
    assert Esc("\n") == "\\n";
  }

  lemma Assoc3(a: string, b: string, c: string, d: string)
    ensures a + (b + c) + d == a + b + (c + d)
  {
  }

  /** Where an occurrence of a plain key sits in `str(f.readlines())`: after
      `['` and the escaped text before it, and followed by the escaped rest. */
  lemma ReprAt(s: string, key: string, i: nat)
    requires IsText(s) && IsPlain(key) && key != []
    requires i + |key| <= |s| && s[i..i + |key|] == key
    ensures Repr(s) == "['" + EscMid(s[..i]) + key + Body(s[i + |key|..])
  {
    var u := s[i + |key|..];
    assert s == s[..i] + (key + u);
    EscSplit(s[..i], key + u);
    EscSplit(key, u);
    EscPlain(key);
    assert Esc(s) == EscMid(s[..i]) + (key + Esc(u));
    Assoc3("['" + EscMid(s[..i]), key, Esc(u), "']");
  }

  lemma TextSuffix(s: string, k: nat)
    requires IsText(s) && k <= |s|
    ensures IsText(s[k..]) && IsText(s[..k])
  {
    assert forall j :: 0 <= j < |s| - k ==> s[k..][j] == s[k + j];
  }

  lemma TextConcat(a: string, b: string)
    ensures IsText(a + b) <==> IsText(a) && IsText(b)
  {
    if IsText(a + b) {
      forall k | 0 <= k < |a| ensures TextChar(a[k]) {
        assert (a + b)[k] == a[k];
      }
      forall k | 0 <= k < |b| ensures TextChar(b[k]) {
        assert (a + b)[|a| + k] == b[k];
      }
    }
    if IsText(a) && IsText(b) {
      forall k | 0 <= k < |a + b| ensures TextChar((a + b)[k]) {
        if k >= |a| { assert (a + b)[k] == b[k - |a|]; }
      }
    }
  }

  /** `str.replace` on a modelled text with a modelled replacement gives a
      modelled text. */
  lemma {:induction false} ReplaceKeepsText(s: string, target: string, replacement: string)
    requires IsText(s) && IsText(replacement)
    ensures IsText(ReplaceAll(s, target, replacement))
    decreases |s|
  {
    if target == [] {
      if s != [] {
        ReplaceKeepsText(s[1..], target, replacement);
        TextConcat(replacement, [s[0]]);
        TextConcat(replacement + [s[0]], ReplaceAll(s[1..], target, replacement));
      }
    } else if |s| < |target| {
    } else if s[..|target|] == target {
      ReplaceKeepsText(s[|target|..], target, replacement);
      TextConcat(replacement, ReplaceAll(s[|target|..], target, replacement));
    } else {
      ReplaceKeepsText(s[1..], target, replacement);
      TextConcat([s[0]], ReplaceAll(s[1..], target, replacement));
    }
  }
}
