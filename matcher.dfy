/**
 * The matcher shared by `check_config_files` and `update_file`:
 * `re.findall(key + "[class]*", str(f.readlines()))[0]`.
 *
 * The search runs over the `repr` of the list of lines, so its result is
 * first described on that text (`FirstMatch`) and then, by `MatchOverRepr`,
 * on the raw text (`LineMatch`): the key's first occurrence in the file,
 * followed by the run of characters the class accepts, which ends inside the
 * key's line.
 */
module Matcher {
  import opened Text
  import opened PyRepr

  /** The two copies of the program: `src/LightHouse.py` and the older
      `LightHouse.py`. */
  datatype Copy = Current | Legacy

  /** The character class after the key: the checker's, or the patcher's of
      one copy. */
  datatype Class = CheckValues | UpdateValues(copy: Copy)

  /** The class `[A-z 0-9 \.\-\,=:_]` of `check_config_files`, and
      `[A-z \.,\-0-9();\"Î²]` (newer copy) or `[A-z \.,\-0-9();\"β]` (older
      copy) of `update_file`. The range `A-z` also holds `[ \ ] ^ _` and the
      backtick. */
  predicate InClass(cls: Class, c: char) {
    ('A' <= c <= 'z') || c == ' ' || ('0' <= c <= '9') || c == '.' || c == '-' || c == ','
    || match cls
       case CheckValues => c == '=' || c == ':' || c == '_'
       case UpdateValues(copy) =>
         c == '(' || c == ')' || c == ';' || c == '"'
         || (if copy == Current then c == '\U{CE}' || c == '\U{B2}' else c == '\U{3B2}')
  }

  /** The greedy `[class]*`: the longest start of `x` made of class characters. */
  function Run(cls: Class, x: string): (run: string)
    ensures |run| <= |x| && run == x[..|run|]
    ensures forall k :: 0 <= k < |run| ==> InClass(cls, run[k])
    ensures |run| == |x| || !InClass(cls, x[|run|])
    decreases |x|
  {
    if x == [] || !InClass(cls, x[0]) then [] else [x[0]] + Run(cls, x[1..])
  }

  /** `re.findall(key + "[class]*", text)[0]` for a key without regular
      expression operators, or `None` where `findall` finds nothing and `[0]`
      raises. */
  function FirstMatch(key: string, cls: Class, text: string): (m: Option<string>)
    ensures m.None? <==> !Contains(text, key)
    ensures m.Some? ==> |m.value| >= |key| && m.value[..|key|] == key
    ensures m.Some? ==> OccursAt(text, m.value, FindFirst(text, key).value)
  {
    match FindFirst(text, key)
    case None => None
    case Some(i) =>
      var run := Run(cls, text[i + |key|..]);
      KeyThenRun(text, key, i, run);
      Some(key + run)
  }

  lemma KeyThenRun(text: string, key: string, i: nat, run: string)
    requires OccursAt(text, key, i) && |run| <= |text[i + |key|..]|
    requires run == text[i + |key|..][..|run|]
    ensures OccursAt(text, key + run, i)
  {
    assert text[i..i + |key| + |run|] == text[i..i + |key|] + text[i + |key|..i + |key| + |run|];
  }

  /** The raw characters whose `repr` the class accepts in full: a tab is
      written `\t`, and both of its characters lie in `A-z`. */
  predicate RawInClass(cls: Class, c: char) {
    c == '\t' || InClass(cls, c)
  }

  /** The longest start of the raw text `u` made of such characters. */
  function ValueRun(cls: Class, u: string): (run: string)
    ensures |run| <= |u| && run == u[..|run|]
    ensures forall k :: 0 <= k < |run| ==> RawInClass(cls, run[k])
    ensures |run| == |u| || !RawInClass(cls, u[|run|])
    decreases |u|
  {
    if u == [] || !RawInClass(cls, u[0]) then [] else [u[0]] + ValueRun(cls, u[1..])
  }

  /** The value run stopped at the newline that ends its line. */
  predicate EndsLine(cls: Class, u: string) {
    |ValueRun(cls, u)| < |u| && u[|ValueRun(cls, u)|] == '\n'
  }

  /** The escaped newline the match takes in when the run reaches the end of
      its line. */
  function NewlineMark(cls: Class, u: string): string {
    if EndsLine(cls, u) then "\\n" else []
  }

  /** Keys the model covers: plain text whose first character cannot start an
      occurrence inside the list punctuation `[`, `]`, `, `, `'` or the escapes
      `\n`, `\t`, and with no regular-expression operator other than `.`. */
  predicate ValidKey(key: string) {
    key != [] && IsPlain(key)
    && !ListMark(key[0])
    && forall k :: 0 <= k < |key| ==> !RegexOperator(key[k])
  }

  /** The plain characters of the list punctuation and of the escapes. */
  predicate ListMark(c: char) {
    c == '[' || c == ']' || c == ',' || c == ' ' || c == 'n' || c == 't'
  }

  predicate RegexOperator(c: char) {
    c == '^' || c == '$' || c == '*' || c == '+' || c == '?' || c == '{' || c == '}'
    || c == '[' || c == ']' || c == '|' || c == '(' || c == ')'
  }

  /** The match described on the raw text: the key's first occurrence, the
      escaped value run after it, and `\n` when that run reaches the newline
      ending the line. */
  function LineMatch(key: string, cls: Class, s: string): (m: Option<string>)
    ensures m.None? <==> !Contains(s, key)
  {
    match FindFirst(s, key)
    case None => None
    case Some(i) =>
      var u := s[i + |key|..];
      Some(key + EscapeLine(ValueRun(cls, u)) + NewlineMark(cls, u))
  }

  /** The value run never crosses a newline: a match stays within the line
      where the key occurs. */
  lemma RunWithinLine(cls: Class, u: string)
    ensures forall k :: 0 <= k < |ValueRun(cls, u)| ==> ValueRun(cls, u)[k] != '\n'
  {
  }

  /** Position of raw index `i` inside the body of the `repr`. */
  function Pos(s: string, i: nat): nat
    requires i <= |s|
  {
    |EscMid(s[..i])|
  }

  function PosOf(s: string, r: Option<nat>): Option<nat>
    requires r.Some? ==> r.value <= |s|
  {
    if r.None? then None else Some(Pos(s, r.value))
  }

  lemma PosCons(s: string, i: nat)
    requires i < |s|
    ensures Pos(s, i + 1) == |EscMid([s[0]])| + Pos(s[1..], i)
  {
    assert s[..i + 1] == [s[0]] + s[1..][..i];
    EscMidAppend([s[0]], s[1..][..i]);
  }

  lemma StartsNotPlain(b: string, w: string)
    requires IsPlain(w) && w != [] && b != [] && !PlainChar(b[0])
    ensures !(|w| <= |b| && b[..|w|] == w)
  {
    if |w| <= |b| {
      assert b[..|w|][0] == b[0];
    }
  }

  lemma ConsPrefixOf(c: char, x: string, w: string)
    requires w != [] && |w| <= |[c] + x| && ([c] + x)[..|w|] == w
    ensures w[0] == c && |w| - 1 <= |x| && x[..|w| - 1] == w[1..]
  {
    assert w[1..] == ([c] + x)[..|w|][1..];
  }

  lemma ConsPrefixBack(t: string, w: string)
    requires t != [] && w != [] && w[0] == t[0] && |w| - 1 <= |t[1..]| && t[1..][..|w| - 1] == w[1..]
    ensures |w| <= |t| && t[..|w|] == w
  {
    assert t[..|w|] == [t[0]] + t[1..][..|w| - 1];
    assert w == [w[0]] + w[1..];
  }

  lemma BodyStartsPlainStep(t: string, w: string)
    requires IsPlain(w) && w != [] && t != [] && PlainChar(t[0])
    requires Body(t) == [t[0]] + Body(t[1..])
    requires |w| - 1 <= |Body(t[1..])| && Body(t[1..])[..|w| - 1] == w[1..] ==> |w| - 1 <= |t[1..]| && t[1..][..|w| - 1] == w[1..]
    ensures |w| <= |Body(t)| && Body(t)[..|w|] == w ==> |w| <= |t| && t[..|w|] == w
  {
    if |w| <= |Body(t)| && Body(t)[..|w|] == w {
      ConsPrefixOf(t[0], Body(t[1..]), w);
      ConsPrefixBack(t, w);
    }
  }

  /** A plain string at the start of the body is at the start of the raw
      text: the body shows every character that is not plain as `\` or `'`. */
  lemma {:induction false} BodyStartsPlain(t: string, w: string)
    requires IsText(t) && IsPlain(w)
    ensures |w| <= |Body(t)| && Body(t)[..|w|] == w ==> |w| <= |t| && t[..|w|] == w
    decreases |w|
  {
    if w == [] {
    } else if t != [] && PlainChar(t[0]) {
      BodyPlain(t);
      BodyStartsPlain(t[1..], w[1..]);
      BodyStartsPlainStep(t, w);
    } else {
      if t == [] {
      } else if t[0] == '\t' {
        BodyTab(t);
      } else if |t| > 1 {
        BodyNewline(t);
      } else {
        BodyLastNewline();
        assert t == "\n";
      }
      StartsNotPlain(Body(t), w);
    }
  }

  /** A key at the start of the body of a text that starts with a plain
      character is a key at the start of the text. */
  lemma PlainKeyStart(s: string, key: string)
    requires IsText(s) && ValidKey(key) && s != [] && PlainChar(s[0])
    ensures OccursAt(Body(s), key, 0) ==> OccursAt(s, key, 0)
  {
    var b := Body(s);
    BodyPlain(s);
    BodyStartsPlain(s[1..], key[1..]);
    if OccursAt(b, key, 0) {
      ConsPrefixOf(s[0], Body(s[1..]), key);
      ConsPrefixBack(s, key);
    }
  }

  /** The occurrences of the key inside an escape or the list punctuation:
      none, since the key cannot start with any of those characters. */
  lemma NoKeyIn(b: string, key: string, k: nat, lead: string)
    requires ValidKey(key) && k <= |lead| && k <= |b| && b[..k] == lead[..k]
    requires forall j :: 0 <= j < |lead| ==> ListMark(lead[j]) || !PlainChar(lead[j])
    ensures forall j: nat :: j < k ==> !OccursAt(b, key, j)
  {
    forall j: nat | j < k ensures !OccursAt(b, key, j) {
      if j + |key| <= |b| {
        assert b[j..j + |key|][0] == b[j] == b[..k][j] == lead[j];
      }
    }
  }

  lemma FindInBodyEmpty(key: string)
    requires ValidKey(key)
    ensures FindFirst(Body([]), key) == None
  {
    var b := Body([]);
    assert b == "']";
    NoKeyIn(b, key, 2, "']");
    forall j: nat ensures !OccursAt(b, key, j) {
      if j >= 2 { assert j + |key| > |b|; }
    }
    FindFirstNone(b, key);
  }

  lemma CancelFront(p: string, x: string, y: string)
    requires p + x == p + y
    ensures x == y
  {
    assert x == (p + x)[|p|..];
  }

  lemma OccursAtFront(key: string, rest: string)
    ensures OccursAt(key + rest, key, 0)
  {
    assert (key + rest)[..|key|] == key;
  }

  lemma EmptyMid(p: string, mid: string, key: string, rest: string)
    requires mid == []
    ensures p + mid + key + rest == p + (key + rest)
  {
  }

  lemma BodyAtKey(s: string, key: string)
    requires IsText(s) && ValidKey(key) && OccursAt(s, key, 0)
    ensures Body(s) == key + Body(s[|key|..])
  {
    var rest := Body(s[|key|..]);
    var mid := EscMid(s[..0]);
    assert mid == [] by {
      assert s[..0] == [];
    }
    assert Repr(s) == "['" + mid + key + rest by {
      ReprAt(s, key, 0);
    }
    assert Repr(s) == "['" + Body(s) by {
      ReprBody(s);
    }
    EmptyMid("['", mid, key, rest);
    CancelFront("['", Body(s), key + rest);
  }

  lemma FindInBodyAtStart(s: string, key: string)
    requires IsText(s) && ValidKey(key) && OccursAt(s, key, 0)
    ensures FindFirst(s, key) == Some(0)
    ensures FindFirst(Body(s), key) == Some(Pos(s, 0))
  {
    BodyAtKey(s, key);
    OccursAtFront(key, Body(s[|key|..]));
    FindFirstIs(Body(s), key, 0);
    FindFirstIs(s, key, 0);
    assert s[..0] == [];
  }

  /** One raw character that is not the start of an occurrence, shown as
      `lead` in the body. */
  lemma FindInBodyStep(s: string, key: string, lead: string)
    requires IsText(s) && ValidKey(key) && s != [] && !OccursAt(s, key, 0)
    requires Body(s) == lead + Body(s[1..]) && |lead| == |EscMid([s[0]])|
    requires !OccursAt(Body(s), key, 0)
    requires forall j: nat :: 0 < j < |lead| ==> !OccursAt(Body(s), key, j)
    requires FindFirst(s[1..], key).Some? ==> FindFirst(s[1..], key).value <= |s[1..]|
    requires FindFirst(Body(s[1..]), key) == PosOf(s[1..], FindFirst(s[1..], key))
    ensures FindFirst(s, key).Some? ==> FindFirst(s, key).value <= |s|
    ensures FindFirst(Body(s), key) == PosOf(s, FindFirst(s, key))
  {
    var r := FindFirst(s[1..], key);
    assert FindFirst(Body(s), key) == ShiftBy(FindFirst(Body(s[1..]), key), |lead|) by {
      DropFront(lead, Body(s[1..]));
      FindFirstAfter(Body(s), key, |lead|);
    }
    assert FindFirst(s, key) == ShiftBy(r, 1) by {
      FindFirstAfter(s, key, 1);
    }
    PosShift(s, r);
  }

  lemma PosShift(s: string, r: Option<nat>)
    requires s != [] && (r.Some? ==> r.value <= |s[1..]|)
    ensures ShiftBy(r, 1).Some? ==> ShiftBy(r, 1).value <= |s|
    ensures PosOf(s, ShiftBy(r, 1)) == ShiftBy(PosOf(s[1..], r), |EscMid([s[0]])|)
  {
    if r.Some? {
      PosCons(s, r.value);
    }
  }

  lemma FindInBodyLastNewline(key: string)
    requires ValidKey(key)
    ensures FindFirst("\n", key) == None
    ensures FindFirst(Body("\n"), key) == None
  {
    var b := Body("\n");
    BodyLastNewline();
    NoKeyIn(b, key, 4, "\\n']");
    forall j: nat ensures !OccursAt(b, key, j) {
      if j >= 4 { assert j + |key| > |b|; }
    }
    FindFirstNone(b, key);
    forall j: nat ensures !OccursAt("\n", key, j) {
      if j + |key| <= 1 { assert "\n"[j..j + |key|][0] == '\n'; }
    }
    FindFirstNone("\n", key);
  }

  /** Where the first occurrence sits in the body: at the position of the
      first raw occurrence. */
  lemma {:induction false} FindInBody(s: string, key: string)
    requires IsText(s) && ValidKey(key)
    ensures FindFirst(s, key).Some? ==> FindFirst(s, key).value <= |s|
    ensures FindFirst(Body(s), key) == PosOf(s, FindFirst(s, key))
    decreases |s|
  {
    if s == [] {
      FindInBodyEmpty(key);
    } else if OccursAt(s, key, 0) {
      FindInBodyAtStart(s, key);
    } else if s == "\n" {
      FindInBodyLastNewline(key);
    } else {
      TextSuffix(s, 1);
      FindInBody(s[1..], key);
      FindInBodyLater(s, key);
    }
  }

  /** A text whose first character does not start the key: the search in
      the body goes past that character's escape. */
  lemma FindInBodyLater(s: string, key: string)
    requires IsText(s) && ValidKey(key) && s != [] && s != "\n" && !OccursAt(s, key, 0)
    requires FindFirst(s[1..], key).Some? ==> FindFirst(s[1..], key).value <= |s[1..]|
    requires FindFirst(Body(s[1..]), key) == PosOf(s[1..], FindFirst(s[1..], key))
    ensures FindFirst(s, key).Some? ==> FindFirst(s, key).value <= |s|
    ensures FindFirst(Body(s), key) == PosOf(s, FindFirst(s, key))
  {
    if PlainChar(s[0]) {
      FindPastPlain(s, key);
    } else if s[0] == '\t' {
      FindPastTab(s, key);
    } else {
      FindPastNewline(s, key);
    }
  }

  lemma FindPastPlain(s: string, key: string)
    requires IsText(s) && ValidKey(key) && s != [] && PlainChar(s[0]) && !OccursAt(s, key, 0)
    requires FindFirst(s[1..], key).Some? ==> FindFirst(s[1..], key).value <= |s[1..]|
    requires FindFirst(Body(s[1..]), key) == PosOf(s[1..], FindFirst(s[1..], key))
    ensures FindFirst(s, key).Some? ==> FindFirst(s, key).value <= |s|
    ensures FindFirst(Body(s), key) == PosOf(s, FindFirst(s, key))
  {
    BodyPlain(s);
    PlainKeyStart(s, key);
    FindInBodyStep(s, key, [s[0]]);
  }

  lemma FindPastTab(s: string, key: string)
    requires IsText(s) && ValidKey(key) && s != [] && s[0] == '\t' && !OccursAt(s, key, 0)
    requires FindFirst(s[1..], key).Some? ==> FindFirst(s[1..], key).value <= |s[1..]|
    requires FindFirst(Body(s[1..]), key) == PosOf(s[1..], FindFirst(s[1..], key))
    ensures FindFirst(s, key).Some? ==> FindFirst(s, key).value <= |s|
    ensures FindFirst(Body(s), key) == PosOf(s, FindFirst(s, key))
  {
    BodyTab(s);
    NoKeyIn(Body(s), key, 2, "\\t");
    FindInBodyStep(s, key, "\\t");
  }

  lemma FindPastNewline(s: string, key: string)
    requires IsText(s) && ValidKey(key) && |s| > 1 && s[0] == '\n' && !OccursAt(s, key, 0)
    requires FindFirst(s[1..], key).Some? ==> FindFirst(s[1..], key).value <= |s[1..]|
    requires FindFirst(Body(s[1..]), key) == PosOf(s[1..], FindFirst(s[1..], key))
    ensures FindFirst(s, key).Some? ==> FindFirst(s, key).value <= |s|
    ensures FindFirst(Body(s), key) == PosOf(s, FindFirst(s, key))
  {
    BodyNewline(s);
    NoKeyIn(Body(s), key, 6, "\\n', '");
    FindInBodyStep(s, key, "\\n', '");
  }

  lemma RunCons(cls: Class, c: char, rest: string)
    requires InClass(cls, c)
    ensures Run(cls, [c] + rest) == [c] + Run(cls, rest)
  {
    assert ([c] + rest)[1..] == rest;
  }

  lemma ConsAssoc(c: char, a: string, b: string)
    ensures [c] + (a + b) == [c] + a + b
  {
  }

  lemma ConsSplit(x: string, y: string)
    requires x != []
    ensures [x[0]] + (x[1..] + y) == x + y && [x[0]] + x[1..] == x
  {
    assert x == [x[0]] + x[1..];
  }

  lemma {:induction false} RunPrefix(cls: Class, x: string, y: string)
    requires forall k :: 0 <= k < |x| ==> InClass(cls, x[k])
    ensures Run(cls, x + y) == x + Run(cls, y)
    decreases |x|
  {
    if x != [] {
      RunPrefix(cls, x[1..], y);
      ConsSplit(x, y);
      RunCons(cls, x[0], x[1..] + y);
      ConsAssoc(x[0], x[1..], Run(cls, y));
    } else {
      assert x + y == y;
    }
  }

  lemma ValueRunCons(cls: Class, u: string)
    requires u != [] && RawInClass(cls, u[0])
    ensures ValueRun(cls, u) == [u[0]] + ValueRun(cls, u[1..])
    ensures NewlineMark(cls, u) == NewlineMark(cls, u[1..])
  {
    var v := ValueRun(cls, u[1..]);
    assert ValueRun(cls, u) == [u[0]] + v;
    assert EndsLine(cls, u) == EndsLine(cls, u[1..]);
  }

  lemma RunTailStep(cls: Class, u: string, lead: string)
    requires u != [] && RawInClass(cls, u[0]) && lead == EscapeChar(u[0])
    requires Run(cls, Body(u)) == lead + Run(cls, Body(u[1..]))
    requires Run(cls, Body(u[1..])) == EscapeLine(ValueRun(cls, u[1..])) + NewlineMark(cls, u[1..])
    ensures Run(cls, Body(u)) == EscapeLine(ValueRun(cls, u)) + NewlineMark(cls, u)
  {
    var v := ValueRun(cls, u[1..]);
    ValueRunCons(cls, u);
    EscapeLineCons(u[0], v);
    Assoc(lead, EscapeLine(v), NewlineMark(cls, u[1..]));
  }

  lemma RunAfterNewline(cls: Class, rest: string)
    requires rest != [] && rest[0] == '\''
    ensures Run(cls, "\\n" + rest) == "\\n"
  {
    RunPrefix(cls, "\\n", rest);
  }

  lemma NewlineEndsValue(cls: Class, u: string)
    requires u != [] && u[0] == '\n'
    ensures EscapeLine(ValueRun(cls, u)) + NewlineMark(cls, u) == "\\n"
  {
    assert ValueRun(cls, u) == [];
  }

  lemma RunTailNewline(cls: Class, u: string)
    requires |u| > 1 && u[0] == '\n'
    ensures Run(cls, Body(u)) == EscapeLine(ValueRun(cls, u)) + NewlineMark(cls, u)
  {
    BodyNewline(u);
    var rest := "', '" + Body(u[1..]);
    assert "\\n', '" + Body(u[1..]) == "\\n" + rest;
    RunAfterNewline(cls, rest);
    NewlineEndsValue(cls, u);
  }

  lemma RunTailLastNewline(cls: Class)
    ensures Run(cls, Body("\n")) == EscapeLine(ValueRun(cls, "\n")) + NewlineMark(cls, "\n")
  {
    BodyLastNewline();
    assert "\\n']" == "\\n" + "']";
    RunAfterNewline(cls, "']");
    NewlineEndsValue(cls, "\n");
  }

  lemma RunTailStop(cls: Class, u: string)
    requires u != [] && PlainChar(u[0]) && !InClass(cls, u[0])
    ensures Run(cls, Body(u)) == EscapeLine(ValueRun(cls, u)) + NewlineMark(cls, u)
  {
    assert ValueRun(cls, u) == [] by {
      assert !RawInClass(cls, u[0]);
    }
    assert NewlineMark(cls, u) == [] by {
      assert u[0] != '\n';
    }
    assert Run(cls, Body(u)) == [] by {
      BodyPlain(u);
      StopAtHead(cls, Body(u), u[0]);
    }
  }

  lemma StopAtHead(cls: Class, x: string, c: char)
    requires x != [] && x[0] == c && !InClass(cls, c)
    ensures Run(cls, x) == []
  {
  }

  /** The greedy run after an occurrence, read off the body: the escaped
      value run, and the escaped newline when the run reaches the end of its
      line; the quote that closes each line of the list stops it. */
  lemma RunTailTab(cls: Class, u: string)
    requires u != [] && u[0] == '\t'
    requires Run(cls, Body(u[1..])) == EscapeLine(ValueRun(cls, u[1..])) + NewlineMark(cls, u[1..])
    ensures Run(cls, Body(u)) == EscapeLine(ValueRun(cls, u)) + NewlineMark(cls, u)
  {
    BodyTab(u);
    RunPrefix(cls, "\\t", Body(u[1..]));
    RunTailStep(cls, u, "\\t");
  }

  lemma RunTailPlain(cls: Class, u: string)
    requires u != [] && InClass(cls, u[0]) && PlainChar(u[0])
    requires Run(cls, Body(u[1..])) == EscapeLine(ValueRun(cls, u[1..])) + NewlineMark(cls, u[1..])
    ensures Run(cls, Body(u)) == EscapeLine(ValueRun(cls, u)) + NewlineMark(cls, u)
  {
    BodyPlain(u);
    RunPrefix(cls, [u[0]], Body(u[1..]));
    RunTailStep(cls, u, [u[0]]);
  }

  lemma {:induction false} RunTail(cls: Class, u: string)
    requires IsText(u)
    ensures Run(cls, Body(u)) == EscapeLine(ValueRun(cls, u)) + NewlineMark(cls, u)
    decreases |u|
  {
    if u == [] {
      assert Body(u) == "']";
    } else if u[0] == '\t' {
      TextSuffix(u, 1);
      RunTail(cls, u[1..]);
      RunTailTab(cls, u);
    } else if u[0] == '\n' {
      if |u| > 1 {
        RunTailNewline(cls, u);
      } else {
        assert u == "\n";
        RunTailLastNewline(cls);
      }
    } else if InClass(cls, u[0]) {
      TextSuffix(u, 1);
      RunTail(cls, u[1..]);
      RunTailPlain(cls, u);
    } else {
      RunTailStop(cls, u);
    }
  }

  lemma DropFront(a: string, b: string)
    ensures (a + b)[|a|..] == b
  {
  }

  lemma LineMatchAt(key: string, cls: Class, s: string, i: nat)
    requires FindFirst(s, key) == Some(i)
    ensures i + |key| <= |s|
    ensures LineMatch(key, cls, s) == Some(key + EscapeLine(ValueRun(cls, s[i + |key|..])) + NewlineMark(cls, s[i + |key|..]))
  {
    assert OccursAt(s, key, i);
    var u := s[i + |key|..];
    assert LineMatch(key, cls, s) == Some(key + EscapeLine(ValueRun(cls, u)) + NewlineMark(cls, u));
  }

  lemma FirstMatchAt(key: string, cls: Class, text: string, j: nat, tail: string)
    requires FindFirst(text, key) == Some(j) && j + |key| <= |text| && text[j + |key|..] == tail
    ensures FirstMatch(key, cls, text) == Some(key + Run(cls, tail))
  {
  }

  /** In the repr, the key's first occurrence is followed by the body of
      what follows it in the raw text. */
  lemma ReprAfterKey(s: string, key: string, i: nat)
    requires IsText(s) && ValidKey(key) && OccursAt(s, key, i)
    ensures 2 + Pos(s, i) + |key| <= |Repr(s)|
    ensures Repr(s)[2 + Pos(s, i) + |key|..] == Body(s[i + |key|..])
  {
    var front := "['" + EscMid(s[..i]) + key;
    assert Repr(s) == front + Body(s[i + |key|..]) by {
      ReprAt(s, key, i);
    }
    assert |front| == 2 + Pos(s, i) + |key|;
    DropFront(front, Body(s[i + |key|..]));
  }

  lemma MatchAt(key: string, cls: Class, s: string, i: nat, text: string, j: nat)
    requires IsText(s) && FindFirst(s, key) == Some(i)
    requires FindFirst(text, key) == Some(j)
    requires j + |key| <= |text| && text[j + |key|..] == Body(s[i + |key|..])
    ensures FirstMatch(key, cls, text) == LineMatch(key, cls, s)
  {
    assert i + |key| <= |s| by {
      assert OccursAt(s, key, i);
    }
    var u := s[i + |key|..];
    var e, nl := EscapeLine(ValueRun(cls, u)), NewlineMark(cls, u);
    assert Run(cls, Body(u)) == e + nl by {
      TextSuffix(s, i + |key|);
      RunTail(cls, u);
    }
    FirstMatchAt(key, cls, text, j, Body(u));
    LineMatchAt(key, cls, s, i);
    SameMatch(FirstMatch(key, cls, text), LineMatch(key, cls, s), key, Run(cls, Body(u)), e, nl);
  }

  lemma SameMatch(m: Option<string>, n: Option<string>, key: string, run: string, e: string, nl: string)
    requires m == Some(key + run) && run == e + nl && n == Some(key + e + nl)
    ensures m == n
  {
    assert key + run == key + e + nl;
  }

  /** The match over `str(f.readlines())` is the match read off the raw
      lines: the same first occurrence of the key, and a run that ends in the
      key's line. */
  lemma MatchOverRepr(key: string, cls: Class, s: string)
    requires IsText(s) && ValidKey(key)
    ensures FirstMatch(key, cls, ReadlinesRepr(s)) == LineMatch(key, cls, s)
  {
    var text := ReadlinesRepr(s);
    assert text == Repr(s) by {
      ReadlinesReprFlat(s);
    }
    if s == [] {
      MatchInEmpty(key, cls, text);
    } else {
      MatchInBody(key, cls, s, text);
    }
  }

  /** The repr of a non-empty text holds the key first where the body does,
      two characters further on. */
  lemma ReprFind(s: string, key: string)
    requires IsText(s) && ValidKey(key) && s != []
    ensures FindFirst(s, key).Some? ==> FindFirst(s, key).value <= |s|
    ensures FindFirst(Repr(s), key) == ShiftBy(PosOf(s, FindFirst(s, key)), 2)
  {
    assert FindFirst(Repr(s), key) == ShiftBy(FindFirst(Body(s), key), 2) by {
      ReprBody(s);
      FindAfterOpening(Repr(s), key, Body(s));
    }
    FindInBody(s, key);
  }

  /** The opening `['` of the list holds no part of an occurrence. */
  lemma FindAfterOpening(text: string, key: string, b: string)
    requires ValidKey(key) && text == "['" + b
    ensures FindFirst(text, key) == ShiftBy(FindFirst(b, key), 2)
  {
    NoKeyIn(text, key, 2, "['");
    DropFront("['", b);
    FindFirstAfter(text, key, 2);
  }

  lemma MatchInBody(key: string, cls: Class, s: string, text: string)
    requires IsText(s) && ValidKey(key) && s != [] && text == Repr(s)
    ensures FirstMatch(key, cls, text) == LineMatch(key, cls, s)
  {
    ReprFind(s, key);
    match FindFirst(s, key)
    case None =>
      MatchNone(key, cls, s, text);
    case Some(i) =>
      MatchInBodyAt(key, cls, s, text, i);
  }

  lemma MatchNone(key: string, cls: Class, s: string, text: string)
    requires FindFirst(s, key) == None && FindFirst(text, key) == None
    ensures FirstMatch(key, cls, text) == LineMatch(key, cls, s)
  {
  }

  lemma MatchInBodyAt(key: string, cls: Class, s: string, text: string, i: nat)
    requires IsText(s) && ValidKey(key) && text == Repr(s)
    requires FindFirst(s, key) == Some(i) && i <= |s|
    requires FindFirst(text, key) == Some(2 + Pos(s, i))
    ensures FirstMatch(key, cls, text) == LineMatch(key, cls, s)
  {
    assert OccursAt(s, key, i);
    ReprAfterKey(s, key, i);
    MatchAt(key, cls, s, i, text, 2 + Pos(s, i));
  }

  lemma MatchInEmpty(key: string, cls: Class, text: string)
    requires ValidKey(key) && text == Repr([])
    ensures FirstMatch(key, cls, text) == LineMatch(key, cls, [])
  {
    assert text == "[]";
    NoKeyIn(text, key, 2, "[]");
    forall j: nat ensures !OccursAt(text, key, j) {
      if j >= 2 { assert j + |key| > |text|; }
    }
    FindFirstNone(text, key);
    assert !OccursAt([], key, 0);
    FindFirstNone([], key);
  }
}
