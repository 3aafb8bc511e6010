/**
 * String primitives of the Python runtime that the patcher relies on:
 * the `in` operator on strings, the leftmost literal search that `re.findall`
 * performs for a plain prefix, the greedy run of a character class, and
 * `str.replace` / `str.split` / `str.join`.
 */
module Text {

  datatype Option<T> = None | Some(value: T)

  /** `needle` occurs in `s` starting at index `i`. */
  predicate OccursAt(s: string, needle: string, i: nat) {
    i + |needle| <= |s| && s[i..i + |needle|] == needle
  }

  lemma OccursShift(s: string, needle: string, k: nat)
    requires |s| > 0
    ensures OccursAt(s[1..], needle, k) <==> OccursAt(s, needle, k + 1)
  {
    if k + 1 + |needle| <= |s| {
      assert s[1..][k..k + |needle|] == s[k + 1..k + 1 + |needle|];
    }
  }

  /** The leftmost index at which `needle` occurs in `s`, if any. */
  function FindFirst(s: string, needle: string): (r: Option<nat>)
    ensures r.Some? ==> OccursAt(s, needle, r.value)
    ensures r.Some? ==> forall j: nat :: j < r.value ==> !OccursAt(s, needle, j)
    ensures r.None? ==> forall j: nat :: !OccursAt(s, needle, j)
    decreases |s|
  {
    if |s| < |needle| then None
    else if s[..|needle|] == needle then Some(0)
    else
      var rest := FindFirst(s[1..], needle);
      if rest.None? then
        assert forall j: nat :: !OccursAt(s, needle, j) by {
          forall j: nat ensures !OccursAt(s, needle, j) {
            if j > 0 { OccursShift(s, needle, j - 1); }
          }
        }
        None
      else
        var k := rest.value;
        OccursShift(s, needle, k);
        assert forall j: nat :: j < k + 1 ==> !OccursAt(s, needle, j) by {
          forall j: nat | j < k + 1 ensures !OccursAt(s, needle, j) {
            if j > 0 { OccursShift(s, needle, j - 1); }
          }
        }
        Some(k + 1)
  }

  /** The leftmost occurrence is determined by the occurrences alone. */
  lemma FindFirstIs(s: string, needle: string, i: nat)
    requires OccursAt(s, needle, i)
    requires forall j: nat :: j < i ==> !OccursAt(s, needle, j)
    ensures FindFirst(s, needle) == Some(i)
  {
  }

  lemma FindFirstNone(s: string, needle: string)
    requires forall j: nat :: !OccursAt(s, needle, j)
    ensures FindFirst(s, needle) == None
  {
  }

  lemma OccursAfter(s: string, needle: string, k: nat, j: nat)
    requires k <= |s|
    ensures OccursAt(s[k..], needle, j) <==> OccursAt(s, needle, j + k)
  {
    if j + k + |needle| <= |s| {
      assert s[k..][j..j + |needle|] == s[j + k..j + k + |needle|];
    }
  }

  function ShiftBy(r: Option<nat>, k: nat): Option<nat> {
    if r.None? then None else Some(r.value + k)
  }

  /** Searching a text whose first `k` positions hold no occurrence is
      searching what follows them. */
  lemma FindFirstAfter(s: string, needle: string, k: nat)
    requires k <= |s|
    requires forall j: nat :: j < k ==> !OccursAt(s, needle, j)
    ensures FindFirst(s, needle) == ShiftBy(FindFirst(s[k..], needle), k)
  {
    var r := FindFirst(s[k..], needle);
    if r.None? {
      forall j: nat ensures !OccursAt(s, needle, j) {
        if j >= k { OccursAfter(s, needle, k, j - k); }
      }
      FindFirstNone(s, needle);
    } else {
      OccursAfter(s, needle, k, r.value);
      forall j: nat | j < r.value + k ensures !OccursAt(s, needle, j) {
        if j >= k { OccursAfter(s, needle, k, j - k); }
      }
      FindFirstIs(s, needle, r.value + k);
    }
  }

  /** A first occurrence past `k` is, seen from `k`, the first occurrence
      in what follows. */
  lemma FirstFrom(s: string, needle: string, k: nat, j: nat)
    requires FindFirst(s, needle) == Some(j) && k <= j && k <= |s|
    ensures FindFirst(s[k..], needle) == Some(j - k)
  {
    FindFirstAfter(s, needle, k);
  }

  /** A first occurrence in what follows `k`, with none before `k`, is the
      first occurrence in the whole text. */
  lemma FirstBeyond(s: string, needle: string, k: nat, rest: string, v: nat)
    requires k <= |s| && s[k..] == rest && FindFirst(rest, needle) == Some(v)
    requires forall j: nat :: j < k ==> !OccursAt(s, needle, j)
    ensures FindFirst(s, needle) == Some(v + k)
  {
    FindFirstAfter(s, needle, k);
    assert FindFirst(s[k..], needle) == Some(v);
  }

  /** Python's `needle in s`. */
  predicate Contains(s: string, needle: string) {
    FindFirst(s, needle).Some?
  }

  /** Python's `s.replace(target, replacement)`: every non-overlapping
      occurrence, scanned from the left; an empty target is inserted between
      every two characters and at both ends. */
  function ReplaceAll(s: string, target: string, replacement: string): string
    decreases |s|
  {
    if target == [] then
      if s == [] then replacement else replacement + [s[0]] + ReplaceAll(s[1..], target, replacement)
    else if |s| < |target| then s
    else if s[..|target|] == target then replacement + ReplaceAll(s[|target|..], target, replacement)
    else [s[0]] + ReplaceAll(s[1..], target, replacement)
  }

  /** Python's `sep.join(parts)`. */
  function Join(parts: seq<string>, sep: string): string {
    if |parts| == 0 then []
    else if |parts| == 1 then parts[0]
    else parts[0] + sep + Join(parts[1..], sep)
  }

  /** Python's `s.split(sep)` for a non-empty separator. */
  function Split(s: string, sep: string): (parts: seq<string>)
    requires sep != []
    ensures |parts| >= 1
    decreases |s|
  {
    if |s| < |sep| then [s]
    else if s[..|sep|] == sep then [[]] + Split(s[|sep|..], sep)
    else
      var rest := Split(s[1..], sep);
      [[s[0]] + rest[0]] + rest[1..]
  }

  lemma JoinExtendHead(x: string, parts: seq<string>, sep: string)
    requires |parts| >= 1
    ensures Join([x + parts[0]] + parts[1..], sep) == x + Join(parts, sep)
  {
    var ps := [x + parts[0]] + parts[1..];
    assert ps[1..] == parts[1..];
  }

  lemma JoinEmptyHead(parts: seq<string>, sep: string)
    requires |parts| >= 1
    ensures Join([[]] + parts, sep) == sep + Join(parts, sep)
  {
    assert ([[]] + parts)[1..] == parts;
  }

  lemma SplitAt(s: string, k: nat)
    requires k <= |s|
    ensures s[..k] + s[k..] == s
  {
  }

  /** Splitting and joining with the same separator gives the text back. */
  lemma {:induction false} SplitJoin(s: string, sep: string)
    requires sep != []
    ensures Join(Split(s, sep), sep) == s
    decreases |s|
  {
    if |s| < |sep| {
    } else if s[..|sep|] == sep {
      SplitJoin(s[|sep|..], sep);
      var rest := Split(s[|sep|..], sep);
      assert Split(s, sep) == [[]] + rest;
      JoinEmptyHead(rest, sep);
      SplitAt(s, |sep|);
    } else {
      SplitJoin(s[1..], sep);
      var rest := Split(s[1..], sep);
      assert Split(s, sep) == [[s[0]] + rest[0]] + rest[1..];
      JoinExtendHead([s[0]], rest, sep);
      SplitAt(s, 1);
    }
  }

  /** The first piece of a split starts the text. */
  lemma {:induction false} FirstPiecePrefix(s: string, sep: string)
    requires sep != []
    ensures |Split(s, sep)[0]| <= |s| && Split(s, sep)[0] == s[..|Split(s, sep)[0]|]
    decreases |s|
  {
    if |s| >= |sep| && s[..|sep|] != sep {
      FirstPiecePrefix(s[1..], sep);
      var r := Split(s[1..], sep)[0];
      assert Split(s, sep)[0] == [s[0]] + r;
      ConsPrefix(s, r);
    }
  }

  lemma ConsPrefix(s: string, r: string)
    requires |s| >= 1 && |r| <= |s| - 1 && r == s[1..][..|r|]
    ensures [s[0]] + r == s[..1 + |r|]
  {
  }

  lemma PrefixNotAtZero(head: string, s: string, sep: string)
    requires |head| <= |s| && head == s[..|head|]
    requires |s| >= |sep| && s[..|sep|] != sep
    ensures !OccursAt(head, sep, 0)
  {
    if |sep| <= |head| {
      assert head[..|sep|] == s[..|sep|];
    }
  }

  lemma ConsFree(c: char, r: string, sep: string)
    requires !Contains(r, sep) && !OccursAt([c] + r, sep, 0)
    ensures !Contains([c] + r, sep)
  {
    forall j: nat ensures !OccursAt([c] + r, sep, j) {
      if j > 0 {
        OccursShift([c] + r, sep, j - 1);
        assert ([c] + r)[1..] == r;
      }
    }
  }

  /** The first piece of a text that does not start with the separator:
      its first character, then the first piece of the rest. */
  lemma HeadPieceFree(s: string, sep: string)
    requires sep != [] && |s| >= |sep| && s[..|sep|] != sep
    requires !Contains(Split(s[1..], sep)[0], sep)
    ensures !Contains([s[0]] + Split(s[1..], sep)[0], sep)
  {
    var rest0 := Split(s[1..], sep)[0];
    FirstPiecePrefix(s[1..], sep);
    ConsPrefix(s, rest0);
    PrefixNotAtZero([s[0]] + rest0, s, sep);
    ConsFree(s[0], rest0, sep);
  }

  /** No piece of a split holds the separator. */
  lemma {:induction false} SplitPiecesFree(s: string, sep: string)
    requires sep != []
    ensures forall k :: 0 <= k < |Split(s, sep)| ==> !Contains(Split(s, sep)[k], sep)
    decreases |s|
  {
    var parts := Split(s, sep);
    if |s| < |sep| {
      assert parts == [s];
      assert !OccursAt(s, sep, 0);
    } else if s[..|sep|] == sep {
      SplitPiecesFree(s[|sep|..], sep);
      var rest := Split(s[|sep|..], sep);
      assert parts == [[]] + rest;
      assert !OccursAt([], sep, 0);
      forall k | 0 <= k < |parts| ensures !Contains(parts[k], sep) {
        if k > 0 { assert parts[k] == rest[k - 1]; }
      }
    } else {
      SplitPiecesFree(s[1..], sep);
      var rest := Split(s[1..], sep);
      HeadPieceFree(s, sep);
      assert parts == [[s[0]] + rest[0]] + rest[1..];
      forall k | 0 <= k < |parts| ensures !Contains(parts[k], sep) {
        if k > 0 { assert parts[k] == rest[k]; }
      }
    }
  }

  /** `str.replace` keeps every piece between occurrences and swaps each
      occurrence for the replacement: `s.replace(a, b) == b.join(s.split(a))`. */
  lemma {:induction false} ReplaceViaSplit(s: string, target: string, replacement: string)
    requires target != []
    ensures ReplaceAll(s, target, replacement) == Join(Split(s, target), replacement)
    decreases |s|
  {
    if |s| < |target| {
    } else if s[..|target|] == target {
      ReplaceViaSplit(s[|target|..], target, replacement);
      var rest := Split(s[|target|..], target);
      JoinEmptyHead(rest, replacement);
      assert Split(s, target) == [[]] + rest;
      assert ReplaceAll(s, target, replacement) == replacement + ReplaceAll(s[|target|..], target, replacement);
    } else {
      ReplaceViaSplit(s[1..], target, replacement);
      var rest := Split(s[1..], target);
      JoinExtendHead([s[0]], rest, replacement);
      assert Split(s, target) == [[s[0]] + rest[0]] + rest[1..];
      assert ReplaceAll(s, target, replacement) == [s[0]] + ReplaceAll(s[1..], target, replacement);
    }
  }

  /** A text that does not contain the target is returned as it is. */
  lemma {:induction false} ReplaceAbsent(s: string, target: string, replacement: string)
    requires target != [] && !Contains(s, target)
    ensures ReplaceAll(s, target, replacement) == s
    decreases |s|
  {
    if |s| >= |target| {
      assert !OccursAt(s, target, 0);
      forall j: nat ensures !OccursAt(s[1..], target, j) {
        OccursShift(s, target, j);
      }
      ReplaceAbsent(s[1..], target, replacement);
      assert s == [s[0]] + s[1..];
    }
  }

  lemma ReplaceSkip(s: string, target: string, replacement: string)
    requires target != [] && |s| >= |target| && !OccursAt(s, target, 0)
    ensures ReplaceAll(s, target, replacement) == [s[0]] + ReplaceAll(s[1..], target, replacement)
  {
  }

  lemma Assoc(a: string, b: string, c: string)
    ensures a + (b + c) == a + b + c
  {
  }

  lemma PrependAssoc(c: char, x: string, r: string, y: string)
    ensures [c] + (x + r + y) == ([c] + x) + r + y
  {
  }

  /** Replacing from the leftmost occurrence, which ends the prefix `a`:
      `a` is kept as it is and the occurrence becomes the replacement. */
  lemma {:induction false} ReplaceFromFirst(a: string, target: string, b: string, replacement: string)
    requires target != [] && FindFirst(a + target + b, target) == Some(|a|)
    ensures ReplaceAll(a + target + b, target, replacement) == a + replacement + ReplaceAll(b, target, replacement)
    decreases |a|
  {
    var s := a + target + b;
    if a == [] {
      ReplaceAtStart(a, target, b, replacement);
    } else {
      var a' := a[1..];
      var rb := ReplaceAll(b, target, replacement);
      TailOfConcat(a, target, b);
      ReplaceSkip(s, target, replacement);
      ReplaceFromFirst(a', target, b, replacement);
      PrependAssoc(a[0], a', replacement, rb);
    }
  }

  lemma ReplaceAtStart(a: string, target: string, b: string, replacement: string)
    requires target != [] && a == []
    ensures ReplaceAll(a + target + b, target, replacement) == a + replacement + ReplaceAll(b, target, replacement)
  {
    var s := a + target + b;
    assert s[..|target|] == target && s[|target|..] == b;
  }

  lemma TailOfConcat(a: string, target: string, b: string)
    requires a != []
    ensures (a + target + b)[1..] == a[1..] + target + b
    ensures [a[0]] + a[1..] == a
  {
  }

  /** Replacing a text by itself changes nothing. */
  lemma {:induction false} ReplaceSelf(s: string, target: string)
    ensures ReplaceAll(s, target, target) == s
    decreases |s|
  {
    if target == [] {
      if s != [] {
        ReplaceSelf(s[1..], target);
        assert s == [s[0]] + s[1..];
      }
    } else if |s| < |target| {
    } else if s[..|target|] == target {
      ReplaceSelf(s[|target|..], target);
      assert s == s[..|target|] + s[|target|..];
    } else {
      ReplaceSelf(s[1..], target);
      assert s == [s[0]] + s[1..];
    }
  }

  /** Splicing `r` over `s1[j..f]`, where `s1` is `s` with `t` spliced over
      `s[i..e]` and the second span lies before the first. */
  lemma SpliceEarlier(s: string, t: string, r: string, s1: string, i: nat, e: nat, j: nat, f: nat)
    requires j <= f <= i <= e <= |s| && s1 == s[..i] + t + s[e..]
    ensures s1[..j] + r + s1[f..] == s[..j] + r + s[f..i] + t + s[e..]
  {
    assert s1[..j] == s[..j];
    assert s1[f..] == s[f..i] + t + s[e..];
  }

  /** The same with the second span after the first, in the positions of
      `s1`. */
  lemma SpliceLater(s: string, t: string, r: string, s1: string, i: nat, e: nat, j: nat, f: nat, j1: nat, f1: nat)
    requires i <= e <= j <= f <= |s| && s1 == s[..i] + t + s[e..]
    requires j1 == j - e + i + |t| && f1 == f - e + i + |t|
    ensures s1[..j1] + r + s1[f1..] == s[..i] + t + s[e..j] + r + s[f..]
  {
    assert s1[..j1] == s[..i] + t + s[e..j];
    assert s1[f1..] == s[f..];
  }

  /** The part of a spliced text from `n` on, for `n` before the splice. */
  lemma SpliceTail(s: string, t: string, s1: string, n: nat, i: nat, e: nat)
    requires n <= i <= e <= |s| && s1 == s[..i] + t + s[e..]
    ensures s1[n..] == s[n..i] + t + s[e..]
    ensures s[n..i] == s[n..][..i - n] && s[e..] == s[n..][e - n..]
  {
  }

  lemma SpliceHead(s: string, t: string, s1: string, i: nat, e: nat)
    requires i <= e <= |s| && s1 == s[..i] + t + s[e..]
    ensures i <= |s1| && s1[..i] == s[..i]
  {
  }
}
