/**
 * The theme setters that write through the patcher, and the top-level run
 * that decides whether anything has to be done at all.
 *
 * Each setter edits one `ConfigFile`: `kdeglobals` for the Plasma global
 * theme, `konsolerc` for the default Konsole profile and VS Code's
 * `settings.json` for the colour theme and the PDF viewer's inversion.
 * The live side of each setter (running `lookandfeeltool`, talking to
 * Konsole sessions over D-Bus) is not part of this model.
 */
module Setters {
  import opened Text
  import opened PyRepr
  import opened Matcher
  import opened Patcher

  const PlasmaKey := "LookAndFeelPackage="
  const KonsoleKey := "DefaultProfile="
  const ThemeKey := "\"workbench.colorTheme\":"
  const InvertKey := "\"latex-workshop.view.pdf.invert\":"
  const InvertOn := " 1,"
  const InvertOff := " 0,"

  /** What a setter hands back to its caller: Python's `None` or a boolean. */
  type Returned = Option<bool>

  /** A setter that reports success in the newer copy returns that report;
      the older copy's setters return nothing. */
  function Report(copy: Copy, b: bool): (r: Returned)
    ensures copy == Current <==> r.Some?
    ensures r.Some? ==> r.value == b
  {
    if copy == Current then Some(b) else None
  }

  /** The value `set_vscode` writes after the colour-theme key. */
  function ThemeValue(theme: string): (v: string)
    ensures |v| == |theme| + 4
    ensures v[..2] == " \"" && v[2..|v| - 2] == theme && v[|v| - 2..] == "\","
  {
    " \"" + theme + "\","
  }

  /** The value `set_konsole` writes after `DefaultProfile=`. */
  function ProfileValue(profile: string): (v: string)
    ensures |v| == |profile| + 8
    ensures v[..|profile|] == profile && v[|profile|..] == ".profile"
  {
    profile + ".profile"
  }

  /** Whether the checker, or the patcher of one copy, takes a whole value
      is decided character by character. */
  lemma CheckableConcat(a: string, b: string)
    ensures CheckableValue(a + b) <==> CheckableValue(a) && CheckableValue(b)
  {
    if CheckableValue(a) && CheckableValue(b) {
      forall k | 0 <= k < |a + b| ensures PlainChar((a + b)[k]) && InClass(CheckValues, (a + b)[k]) {
        if k >= |a| {
          assert (a + b)[k] == b[k - |a|];
        }
      }
    }
    if CheckableValue(a + b) {
      forall k | 0 <= k < |b| ensures PlainChar(b[k]) && InClass(CheckValues, b[k]) {
        assert (a + b)[|a| + k] == b[k];
      }
      forall k | 0 <= k < |a| ensures PlainChar(a[k]) && InClass(CheckValues, a[k]) {
        assert (a + b)[k] == a[k];
      }
    }
  }

  lemma UpdatableConcat(copy: Copy, a: string, b: string)
    ensures UpdatableValue(copy, a + b) <==> UpdatableValue(copy, a) && UpdatableValue(copy, b)
  {
    var cls := UpdateValues(copy);
    if UpdatableValue(copy, a) && UpdatableValue(copy, b) {
      forall k | 0 <= k < |a + b| ensures PlainChar((a + b)[k]) && InClass(cls, (a + b)[k]) {
        if k >= |a| {
          assert (a + b)[k] == b[k - |a|];
        }
      }
    }
    if UpdatableValue(copy, a + b) {
      forall k | 0 <= k < |b| ensures PlainChar(b[k]) && InClass(cls, b[k]) {
        assert (a + b)[|a| + k] == b[k];
      }
      forall k | 0 <= k < |a| ensures PlainChar(a[k]) && InClass(cls, a[k]) {
        assert (a + b)[k] == a[k];
      }
    }
  }

  /** The Konsole value is read back by the checker, and rewritten whole by
      the patcher, exactly when the profile name is. */
  lemma ProfileValueCheckable(profile: string)
    ensures CheckableValue(ProfileValue(profile)) <==> CheckableValue(profile)
  {
    ProfileSuffixPlain(Current);
    CheckableConcat(profile, ".profile");
  }

  lemma ProfileValueUpdatable(copy: Copy, profile: string)
    ensures UpdatableValue(copy, ProfileValue(profile)) <==> UpdatableValue(copy, profile)
  {
    ProfileSuffixPlain(copy);
    UpdatableConcat(copy, profile, ".profile");
  }

  lemma ProfileSuffixPlain(copy: Copy)
    ensures CheckableValue(".profile") && UpdatableValue(copy, ".profile")
  {
    forall k | 0 <= k < |".profile"| ensures PlainChar(".profile"[k]) && InClass(CheckValues, ".profile"[k]) {
    }
    forall k | 0 <= k < |".profile"| ensures InClass(UpdateValues(copy), ".profile"[k]) {
    }
  }

  /** The colour-theme value is rewritten whole by the patcher exactly when
      the theme name is; the checker's class has no `"`, so it never reads
      such a value whole. */
  lemma ThemeValueUpdatable(copy: Copy, theme: string)
    ensures UpdatableValue(copy, ThemeValue(theme)) <==> UpdatableValue(copy, theme)
    ensures !CheckableValue(ThemeValue(theme))
  {
    var cls := UpdateValues(copy);
    forall k | 0 <= k < |" \""| ensures PlainChar(" \""[k]) && InClass(cls, " \""[k]) {
    }
    forall k | 0 <= k < |"\","| ensures PlainChar("\","[k]) && InClass(cls, "\","[k]) {
    }
    UpdatableConcat(copy, " \"", theme);
    UpdatableConcat(copy, " \"" + theme, "\",");
    assert ThemeValue(theme)[1] == '"';
  }

  /** The characters of the four keys: letters, and `=`, `"`, `:`, `.`,
      `-`. */
  predicate KeyChar(c: char) {
    ('A' <= c <= 'Z') || ('a' <= c <= 'z') || c == '=' || c == '"' || c == ':' || c == '.' || c == '-'
  }

  lemma KeyCharsValid(key: string)
    requires key != [] && !ListMark(key[0])
    requires forall k :: 0 <= k < |key| ==> KeyChar(key[k])
    ensures ValidKey(key)
  {
  }

  /** The four keys the setters use are literal keys the matcher handles. */
  lemma KeysValid()
    ensures ValidKey(PlasmaKey) && ValidKey(KonsoleKey)
    ensures ValidKey(ThemeKey) && ValidKey(InvertKey)
  {
    PlasmaKeyValid();
    KonsoleKeyValid();
    ThemeKeyValid();
    InvertKeyValid();
  }

  lemma PlasmaKeyValid()
    ensures ValidKey(PlasmaKey)
  {
    forall k | 0 <= k < |PlasmaKey| ensures KeyChar(PlasmaKey[k]) {
    }
    KeyCharsValid(PlasmaKey);
  }

  lemma KonsoleKeyValid()
    ensures ValidKey(KonsoleKey)
  {
    forall k | 0 <= k < |KonsoleKey| ensures KeyChar(KonsoleKey[k]) {
    }
    KeyCharsValid(KonsoleKey);
  }

  lemma ThemeKeyValid()
    ensures ValidKey(ThemeKey)
  {
    forall k | 0 <= k < |ThemeKey| ensures KeyChar(ThemeKey[k]) {
    }
    KeyCharsValid(ThemeKey);
  }

  lemma InvertKeyValid()
    ensures ValidKey(InvertKey)
  {
    forall k | 0 <= k < |InvertKey| ensures KeyChar(InvertKey[k]) {
    }
    KeyCharsValid(InvertKey);
  }

  /** Both inversion values are read back by the checker and rewritten by
      the patcher of either copy. */
  lemma InvertValuesPlain(copy: Copy)
    ensures CheckableValue(InvertOn) && CheckableValue(InvertOff)
    ensures UpdatableValue(copy, InvertOn) && UpdatableValue(copy, InvertOff)
    ensures InvertOn != InvertOff
  {
    assert InvertOn[1] == '1' && InvertOff[1] == '0';
  }

  // ---------------------------------------------------------------------
  // set_vscode

  /** The inversion value `set_vscode` writes: ` 0,` when the checker reads
      ` 1,`, and ` 1,` otherwise; the checker's `IndexError` escapes. */
  function FlipValue(s: string): (r: Outcome<string>)
    ensures r.Err? <==> CheckConfig(s, InvertKey, InvertOn).Err?
    ensures r.Ok? ==> (r.value == InvertOff <==> CheckConfig(s, InvertKey, InvertOn) == Ok(true))
    ensures r.Ok? ==> r.value == InvertOff || r.value == InvertOn
  {
    match CheckConfig(s, InvertKey, InvertOn)
    case Err(f) => Err(f)
    case Ok(on) => Ok(if on then InvertOff else InvertOn)
  }

  /** The text after the colour-theme update of `set_vscode`. */
  function ThemeUpdated(copy: Copy, s: string, theme: string): string {
    UpdatedContent(copy, s, ThemeKey, ThemeValue(theme))
  }

  /** Whether `set_vscode` goes on to the inversion after the colour-theme
      update: the older copy always does, the newer one only when the update
      returned True. */
  predicate GoesOn(copy: Copy, status: Outcome<bool>) {
    status.Ok? && (copy == Legacy || status.value)
  }

  /** The text `set_vscode` leaves in `settings.json`. */
  function VSCodeContent(copy: Copy, s: string, theme: string): string {
    var s1 := ThemeUpdated(copy, s, theme);
    if !GoesOn(copy, UpdateStatus(copy, s, ThemeKey)) then s1
    else match FlipValue(s1)
      case Err(_) => s1
      case Ok(v) => UpdatedContent(copy, s1, InvertKey, v)
  }

  /** What `set_vscode` returns, or the exception it raises. */
  function VSCodeStatus(copy: Copy, s: string, theme: string): Outcome<Returned> {
    var status := UpdateStatus(copy, s, ThemeKey);
    var s1 := ThemeUpdated(copy, s, theme);
    if status.Err? then Err(status.fault)
    else if !GoesOn(copy, status) then Ok(Some(false))
    else match FlipValue(s1)
      case Err(f) => Err(f)
      case Ok(v) =>
        match UpdateStatus(copy, s1, InvertKey)
        case Err(f) => Err(f)
        case Ok(b) => Ok(Report(copy, b))
  }

  // ---------------------------------------------------------------------
  // The setters on their files

  /** `set_plasma_global_theme`: records the theme in `kdeglobals`. */
  method SetPlasmaGlobalTheme(kdeglobals: ConfigFile, copy: Copy, theme: string) returns (r: Outcome<Returned>)
    modifies kdeglobals
    ensures r.Err? <==> UpdateStatus(copy, old(kdeglobals.content), PlasmaKey).Err?
    ensures r.Ok? ==> r.value == Report(copy, UpdateStatus(copy, old(kdeglobals.content), PlasmaKey).value)
    ensures kdeglobals.content == UpdatedContent(copy, old(kdeglobals.content), PlasmaKey, theme)
  {
    var updated := kdeglobals.UpdateFile(copy, PlasmaKey, theme);
    if updated.Err? {
      return Err(updated.fault);
    }
    r := Ok(Report(copy, updated.value));
  }

  /** `set_konsole`'s write of the default profile: the newer copy raises
      `RuntimeError` when `update_file` returns False, the older one only
      logs it. */
  method SetKonsole(konsolerc: ConfigFile, copy: Copy, profile: string) returns (r: Outcome<Returned>)
    modifies konsolerc
    ensures UpdateStatus(copy, old(konsolerc.content), KonsoleKey).Err? ==> r == Err(KeyNotFound)
    ensures UpdateStatus(copy, old(konsolerc.content), KonsoleKey) == Ok(false)
      ==> r == (if copy == Current then Err(ProfileNotUpdated) else Ok(None))
    ensures UpdateStatus(copy, old(konsolerc.content), KonsoleKey) == Ok(true) ==> r == Ok(None)
    ensures konsolerc.content == UpdatedContent(copy, old(konsolerc.content), KonsoleKey, ProfileValue(profile))
  {
    var updated := konsolerc.UpdateFile(copy, KonsoleKey, ProfileValue(profile));
    if updated.Err? {
      return Err(updated.fault);
    }
    if !updated.value && copy == Current {
      return Err(ProfileNotUpdated);
    }
    r := Ok(None);
  }

  /** `set_vscode`: the colour theme, then the flip of the PDF viewer's
      inversion. */
  method SetVSCode(settings: ConfigFile, copy: Copy, theme: string) returns (r: Outcome<Returned>)
    modifies settings
    ensures r == VSCodeStatus(copy, old(settings.content), theme)
    ensures settings.content == VSCodeContent(copy, old(settings.content), theme)
  {
    var themed := settings.UpdateFile(copy, ThemeKey, ThemeValue(theme));
    if themed.Err? {
      return Err(themed.fault);
    }
    if copy == Current && !themed.value {
      return Ok(Some(false));
    }
    var on := settings.CheckConfigFiles(InvertKey, InvertOn);
    if on.Err? {
      return Err(on.fault);
    }
    var flipped: Outcome<bool>;
    if on.value {
      flipped := settings.UpdateFile(copy, InvertKey, InvertOff);
    } else {
      flipped := settings.UpdateFile(copy, InvertKey, InvertOn);
    }
    if flipped.Err? {
      return Err(flipped.fault);
    }
    r := Ok(Report(copy, flipped.value));
  }

  // ---------------------------------------------------------------------
  // Properties of the setters

  /** The newer `set_vscode` stops when the colour theme cannot be written:
      it returns False and the file is left as it was. */
  lemma VSCodeStopsEarly(s: string, theme: string)
    requires UpdateStatus(Current, s, ThemeKey) == Ok(false)
    ensures VSCodeStatus(Current, s, theme) == Ok(Some(false))
    ensures VSCodeContent(Current, s, theme) == s
  {
  }

  /** The older `set_vscode` flips the inversion even when the colour theme
      could not be written. */
  lemma VSCodeLegacyGoesOn(s: string, theme: string, v: string)
    requires UpdateStatus(Legacy, s, ThemeKey) == Ok(false) && FlipValue(s) == Ok(v)
    ensures VSCodeContent(Legacy, s, theme) == UpdatedContent(Legacy, s, InvertKey, v)
  {
    assert ThemeUpdated(Legacy, s, theme) == s;
  }

  /** A colour-theme key that is not in the file stops `set_vscode` before
      anything is written. */
  lemma VSCodeKeyMissing(copy: Copy, s: string, theme: string)
    requires IsText(s) && FindFirst(s, ThemeKey).None?
    ensures VSCodeStatus(copy, s, theme) == Err(KeyNotFound)
    ensures VSCodeContent(copy, s, theme) == s
  {
    KeysValid();
    UpdateAbsent(copy, s, ThemeKey, ThemeValue(theme));
  }

  /** The flip is a flip: on an inversion line the patcher can rewrite,
      the checker reads ` 1,` afterwards exactly when it did not before. */
  lemma InvertFlips(copy: Copy, s: string, i: nat)
    requires Updatable(copy, s, InvertKey, i)
    ensures FlipValue(s).Ok? && UpdateStatus(copy, s, InvertKey) == Ok(true)
    ensures CheckConfig(UpdatedContent(copy, s, InvertKey, FlipValue(s).value), InvertKey, InvertOn)
      == Ok(CheckConfig(s, InvertKey, InvertOn) == Ok(false))
  {
    CheckConfigMeaning(s, InvertKey, InvertOn, i);
    InvertValuesPlain(copy);
    CheckAfterUpdate(copy, s, InvertKey, FlipValue(s).value, InvertOn, i);
  }

  /** Flipping twice gives back what the checker read at first, and the
      file's inversion line stays rewritable. */
  lemma InvertFlipsBack(copy: Copy, s: string, i: nat)
    requires Updatable(copy, s, InvertKey, i)
    ensures FlipValue(s).Ok?
    ensures Updatable(copy, UpdatedContent(copy, s, InvertKey, FlipValue(s).value), InvertKey, i)
    ensures
      var s1 := UpdatedContent(copy, s, InvertKey, FlipValue(s).value);
      FlipValue(s1).Ok?
      && CheckConfig(UpdatedContent(copy, s1, InvertKey, FlipValue(s1).value), InvertKey, InvertOn)
         == CheckConfig(s, InvertKey, InvertOn)
  {
    InvertFlips(copy, s, i);
    InvertValuesPlain(copy);
    UpdateIdempotent(copy, s, InvertKey, FlipValue(s).value, i);
    var s1 := UpdatedContent(copy, s, InvertKey, FlipValue(s).value);
    InvertFlips(copy, s1, i);
    CheckConfigMeaning(s, InvertKey, InvertOn, i);
  }

  // ---------------------------------------------------------------------
  // set_vscode's two writes together

  /** `set_vscode` as a whole. On a settings file holding the colour-theme
      key once and each key on a line of its own, the colour theme written
      first leaves the inversion line readable and rewritable. The call
      reports success, and the flip that follows turns the checker's
      reading of ` 1,` around. */
  lemma VSCodeFlipsInversion(copy: Copy, s: string, theme: string, i: nat, j: nat)
    requires Updatable(copy, s, ThemeKey, i) && Updatable(copy, s, InvertKey, j)
    requires ValueEnd(copy, s, InvertKey, j) < i || ValueEnd(copy, s, ThemeKey, i) < j
    requires !Contains(s[i + |ThemeKey|..], ThemeKey)
    requires UpdatableValue(copy, theme)
    ensures VSCodeStatus(copy, s, theme) == Ok(Report(copy, true))
    ensures CheckConfig(VSCodeContent(copy, s, theme), InvertKey, InvertOn)
      == Ok(CheckConfig(s, InvertKey, InvertOn) == Ok(false))
  {
    var e := ValueEnd(copy, s, ThemeKey, i);
    var s1 := ThemeUpdated(copy, s, theme);
    ThemeWriteOnce(copy, s, theme, i);
    var jj := InvertSurvivesTheme(copy, s, theme, i, e, j, s1);
    InvertFlips(copy, s1, jj);
    VSCodeBothWrites(copy, s, theme);
  }

  /** `set_vscode` as a whole, on a settings file holding each of its two
      keys once, on lines of their own: the final text is the original with
      the colour-theme line rewritten to the new theme and the inversion line
      to the flipped value, and nothing else changed. */
  lemma VSCodeKeepsTheme(copy: Copy, s: string, theme: string, i: nat, j: nat)
    requires Updatable(copy, s, ThemeKey, i) && Updatable(copy, s, InvertKey, j)
    requires ValueEnd(copy, s, InvertKey, j) < i || ValueEnd(copy, s, ThemeKey, i) < j
    requires !Contains(s[i + |ThemeKey|..], ThemeKey) && !Contains(s[j + |InvertKey|..], InvertKey)
    requires UpdatableValue(copy, theme)
    ensures FlipValue(s).Ok?
    ensures ValueEnd(copy, s, InvertKey, j) < i ==>
      VSCodeContent(copy, s, theme)
      == s[..j] + (InvertKey + FlipValue(s).value) + s[ValueEnd(copy, s, InvertKey, j)..i]
         + (ThemeKey + ThemeValue(theme)) + s[ValueEnd(copy, s, ThemeKey, i)..]
    ensures ValueEnd(copy, s, ThemeKey, i) < j ==>
      VSCodeContent(copy, s, theme)
      == s[..i] + (ThemeKey + ThemeValue(theme)) + s[ValueEnd(copy, s, ThemeKey, i)..j]
         + (InvertKey + FlipValue(s).value) + s[ValueEnd(copy, s, InvertKey, j)..]
  {
    if ValueEnd(copy, s, InvertKey, j) < i {
      KeepsThemeInvertFirst(copy, s, theme, i, j);
    } else {
      KeepsThemeThemeFirst(copy, s, theme, i, j);
    }
  }

  /** `VSCodeKeepsTheme` when the inversion line comes first. */
  lemma KeepsThemeInvertFirst(copy: Copy, s: string, theme: string, i: nat, j: nat)
    requires Updatable(copy, s, ThemeKey, i) && Updatable(copy, s, InvertKey, j)
    requires ValueEnd(copy, s, InvertKey, j) < i
    requires !Contains(s[i + |ThemeKey|..], ThemeKey) && !Contains(s[j + |InvertKey|..], InvertKey)
    requires UpdatableValue(copy, theme)
    ensures FlipValue(s).Ok?
    ensures VSCodeContent(copy, s, theme)
      == s[..j] + (InvertKey + FlipValue(s).value) + s[ValueEnd(copy, s, InvertKey, j)..i]
         + (ThemeKey + ThemeValue(theme)) + s[ValueEnd(copy, s, ThemeKey, i)..]
  {
    var e := ValueEnd(copy, s, ThemeKey, i);
    var s1 := ThemeUpdated(copy, s, theme);
    var t := ThemeKey + ThemeValue(theme);
    ThemeWriteOnce(copy, s, theme, i);
    InvertFlips(copy, s, j);
    SpliceHead(s, t, s1, i, e);
    InvertBeforeTheme(copy, s, s1, j, i);
    InvertOnceBeforeTheme(copy, s, theme, i, e, j, s1);
    SecondWriteEarlier(copy, s, t, s1, InvertKey, FlipValue(s).value, i, e, j);
    VSCodeFinalWrite(copy, s, theme, s1, j);
  }

  /** `VSCodeKeepsTheme` when the colour-theme line comes first. */
  lemma KeepsThemeThemeFirst(copy: Copy, s: string, theme: string, i: nat, j: nat)
    requires Updatable(copy, s, ThemeKey, i) && Updatable(copy, s, InvertKey, j)
    requires ValueEnd(copy, s, ThemeKey, i) < j
    requires !Contains(s[i + |ThemeKey|..], ThemeKey) && !Contains(s[j + |InvertKey|..], InvertKey)
    requires UpdatableValue(copy, theme)
    ensures FlipValue(s).Ok?
    ensures VSCodeContent(copy, s, theme)
      == s[..i] + (ThemeKey + ThemeValue(theme)) + s[ValueEnd(copy, s, ThemeKey, i)..j]
         + (InvertKey + FlipValue(s).value) + s[ValueEnd(copy, s, InvertKey, j)..]
  {
    assert AbsentAfter(s, InvertKey, j);
    var e := ValueEnd(copy, s, ThemeKey, i);
    var s1 := ThemeUpdated(copy, s, theme);
    var t := ThemeKey + ThemeValue(theme);
    ThemeWriteOnce(copy, s, theme, i);
    InvertFlips(copy, s, j);
    var j1 := InvertAfterTheme(copy, s, theme, i, e, j, s1);
    SecondWriteLater(copy, s, t, s1, InvertKey, FlipValue(s).value, i, e, j, j1);
    VSCodeFinalWrite(copy, s, theme, s1, j1);
  }

  /** After a colour-theme write that succeeded and kept the inversion line
      readable, `set_vscode` writes the flip of the original reading there. */
  lemma VSCodeFinalWrite(copy: Copy, s: string, theme: string, s1: string, jj: nat)
    requires UpdateStatus(copy, s, ThemeKey) == Ok(true) && s1 == ThemeUpdated(copy, s, theme)
    requires Updatable(copy, s1, InvertKey, jj)
    requires CheckConfig(s1, InvertKey, InvertOn) == CheckConfig(s, InvertKey, InvertOn)
    ensures FlipValue(s).Ok?
    ensures VSCodeContent(copy, s, theme) == UpdatedContent(copy, s1, InvertKey, FlipValue(s).value)
  {
    InvertFlips(copy, s1, jj);
    VSCodeBothWrites(copy, s, theme);
  }

  /** An inversion key that occurs once, before the colour-theme line, still
      occurs once after the colour-theme write. */
  lemma InvertOnceBeforeTheme(copy: Copy, s: string, theme: string, i: nat, e: nat, j: nat, s1: string)
    requires UpdatableValue(copy, theme) && j + |InvertKey| <= i <= e < |s| && s[e] == '\n'
    requires !Contains(s[j + |InvertKey|..], InvertKey)
    requires s1 == s[..i] + (ThemeKey + ThemeValue(theme)) + s[e..]
    ensures AbsentAfter(s1, InvertKey, j)
  {
    var n := j + |InvertKey|;
    AbsentAroundSplice(s, ThemeKey + ThemeValue(theme), s1, InvertKey, n, i, e);
    NoInvertAround(copy, s[n..i], theme, s[e..]);
  }

  /** A colour-theme line written between two texts without the inversion
      key, the second starting a new line, adds no inversion key. */
  lemma NoInvertAround(copy: Copy, p: string, theme: string, q: string)
    requires UpdatableValue(copy, theme) && q != [] && q[0] == '\n'
    requires !Contains(p, InvertKey) && !Contains(q, InvertKey)
    ensures !Contains(p + (ThemeKey + ThemeValue(theme)) + q, InvertKey)
  {
    var a := p + (ThemeKey + ThemeValue(theme));
    var w := a + q;
    forall k: nat ensures !OccursAt(w, InvertKey, k) {
      if k < |a| {
        NoInvertBeforeRest(copy, p, theme, q, k);
      } else {
        NoneInTail(w, a, q, InvertKey, k);
      }
    }
    FindFirstNone(w, InvertKey);
  }

  /** When both writes of `set_vscode` find their keys, the call returns
      True and the file holds the flip written over the colour theme. */
  lemma VSCodeBothWrites(copy: Copy, s: string, theme: string)
    requires UpdateStatus(copy, s, ThemeKey) == Ok(true)
    requires FlipValue(ThemeUpdated(copy, s, theme)).Ok?
    requires UpdateStatus(copy, ThemeUpdated(copy, s, theme), InvertKey) == Ok(true)
    ensures VSCodeStatus(copy, s, theme) == Ok(Report(copy, true))
    ensures VSCodeContent(copy, s, theme)
      == UpdatedContent(copy, ThemeUpdated(copy, s, theme), InvertKey, FlipValue(ThemeUpdated(copy, s, theme)).value)
  {
  }

  /** The inversion line, on its own line apart from the colour-theme line
      that ends at `e`, reads the same after the colour-theme write, at
      position `jj`. */
  lemma InvertSurvivesTheme(copy: Copy, s: string, theme: string, i: nat, e: nat, j: nat, s1: string)
    returns (jj: nat)
    requires Updatable(copy, s, InvertKey, j) && UpdatableValue(copy, theme)
    requires i <= e < |s| && s[e] == '\n'
    requires ValueEnd(copy, s, InvertKey, j) < i || e < j
    requires s1 == s[..i] + (ThemeKey + ThemeValue(theme)) + s[e..] && IsText(s1)
    ensures Updatable(copy, s1, InvertKey, jj)
    ensures CheckConfig(s1, InvertKey, InvertOn) == CheckConfig(s, InvertKey, InvertOn)
  {
    if ValueEnd(copy, s, InvertKey, j) < i {
      assert s1[..i] == s[..i];
      InvertBeforeTheme(copy, s, s1, j, i);
      jj := j;
    } else {
      jj := InvertAfterTheme(copy, s, theme, i, e, j, s1);
    }
  }

  /** With the key once in the file, the colour-theme write replaces just
      its own line: the text before the key and from the line's newline on
      stay as they were. */
  lemma ThemeWriteOnce(copy: Copy, s: string, theme: string, i: nat)
    requires Updatable(copy, s, ThemeKey, i) && UpdatableValue(copy, theme)
    requires !Contains(s[i + |ThemeKey|..], ThemeKey)
    ensures UpdateStatus(copy, s, ThemeKey) == Ok(true)
    ensures ValueEnd(copy, s, ThemeKey, i) < |s| && s[ValueEnd(copy, s, ThemeKey, i)] == '\n'
    ensures IsText(ThemeUpdated(copy, s, theme))
    ensures ThemeUpdated(copy, s, theme)
      == s[..i] + (ThemeKey + ThemeValue(theme)) + s[ValueEnd(copy, s, ThemeKey, i)..]
  {
    var e := ValueEnd(copy, s, ThemeKey, i);
    var add := ThemeValue(theme);
    ThemeValueUpdatable(copy, theme);
    UpdateRewritesLine(copy, s, ThemeKey, add, i);
    LocatedWrites(copy, s, ThemeKey, add, i);
    var _ := UpdatedShape(copy, s, ThemeKey, add, i);
    assert !Contains(s[e..], s[i..e]) by {
      KeyOnceAfter(s, ThemeKey, i, e);
    }
    ReplaceAbsent(s[e..], s[i..e], ThemeKey + add);
  }

  /** An inversion line ending before the colour-theme key is untouched by
      the colour-theme write. */
  lemma InvertBeforeTheme(copy: Copy, s: string, s1: string, j: nat, i: nat)
    requires Updatable(copy, s, InvertKey, j)
    requires IsText(s1) && ValueEnd(copy, s, InvertKey, j) < i <= |s1| && i <= |s| && s1[..i] == s[..i]
    ensures Updatable(copy, s1, InvertKey, j)
    ensures ValueEnd(copy, s1, InvertKey, j) == ValueEnd(copy, s, InvertKey, j)
    ensures CheckConfig(s1, InvertKey, InvertOn) == CheckConfig(s, InvertKey, InvertOn)
  {
    LineKeptBefore(copy, s, s1, InvertKey, InvertOn, j, i);
  }

  /** An inversion line after the colour-theme line moves with the length
      of the new line and is otherwise untouched. */
  lemma InvertAfterTheme(copy: Copy, s: string, theme: string, i: nat, e: nat, j: nat, s1: string)
    returns (j1: nat)
    requires Updatable(copy, s, InvertKey, j) && UpdatableValue(copy, theme)
    requires i <= e < j && s[e] == '\n'
    requires s1 == s[..i] + (ThemeKey + ThemeValue(theme)) + s[e..] && IsText(s1)
    ensures j1 == j - e + i + |ThemeKey + ThemeValue(theme)|
    ensures Updatable(copy, s1, InvertKey, j1)
    ensures CheckConfig(s1, InvertKey, InvertOn) == CheckConfig(s, InvertKey, InvertOn)
    ensures ValueEnd(copy, s1, InvertKey, j1) == ValueEnd(copy, s, InvertKey, j) - j + j1
    ensures AbsentAfter(s, InvertKey, j) ==> AbsentAfter(s1, InvertKey, j1)
  {
    NoInvertBeforeLine(copy, s, theme, i, e, j);
    j1 := LineKeptAfterSplice(copy, s, ThemeKey + ThemeValue(theme), s1, InvertKey, InvertOn, i, e, j);
  }

  /** Before the text that follows a freshly written colour-theme line, the
      inversion key does not occur when it did not occur before that line. */
  lemma NoInvertBeforeLine(copy: Copy, s: string, theme: string, i: nat, e: nat, j: nat)
    requires FindFirst(s, InvertKey) == Some(j) && UpdatableValue(copy, theme)
    requires i <= e < |s| && i <= j && s[e] == '\n'
    ensures forall k: nat :: k < i + |ThemeKey + ThemeValue(theme)| ==>
      !OccursAt(s[..i] + (ThemeKey + ThemeValue(theme)) + s[e..], InvertKey, k)
  {
    VSCodeKeyShapes();
    PrefixFree(s, InvertKey, j, i);
    forall k: nat | k < i + |ThemeKey + ThemeValue(theme)|
      ensures !OccursAt(s[..i] + (ThemeKey + ThemeValue(theme)) + s[e..], InvertKey, k)
    {
      NoInvertBeforeRest(copy, s[..i], theme, s[e..], k);
    }
  }

  /** In the text before the rest of a freshly written colour-theme line,
      the inversion key occurs only where it did in the text before that
      line. */
  lemma NoInvertBeforeRest(copy: Copy, p: string, theme: string, q: string, k: nat)
    requires UpdatableValue(copy, theme) && q != [] && q[0] == '\n'
    requires !Contains(p, InvertKey)
    requires k < |p + (ThemeKey + ThemeValue(theme))|
    ensures !OccursAt(p + (ThemeKey + ThemeValue(theme)) + q, InvertKey, k)
  {
    var line := ThemeKey + ThemeValue(theme);
    var w := p + line + q;
    var m := |p|;
    VSCodeKeyShapes();
    if k + 33 > |w| {
    } else if k + 33 <= m {
      assert p[k..k + 33] == w[k..k + 33];
      assert !OccursAt(p, InvertKey, k);
    } else if k < m {
      assert w[m] == '"' && w[m + 1] == 'w';
      if m - k == 31 {
        assert w[k..k + 33][32] != InvertKey[32];
      } else {
        assert w[k..k + 33][m - k] != InvertKey[m - k];
      }
    } else if k + 32 >= |p + line| {
      assert w[|p + line|] == '\n';
      assert w[k..k + 33][|p + line| - k] != InvertKey[|p + line| - k];
    } else {
      var v := ThemeValue(theme);
      assert UpdatableValue(copy, v) by {
        ThemeValueUpdatable(copy, theme);
      }
      assert w[k + 32] == v[k + 32 - m - 23];
      assert InClass(UpdateValues(copy), w[k + 32]);
      assert w[k..k + 33][32] != InvertKey[32];
    }
  }

  /** The characters that keep the two VS Code keys apart. */
  lemma VSCodeKeyShapes()
    ensures |ThemeKey| == 23 && |InvertKey| == 33
    ensures ThemeKey[0] == '"' && ThemeKey[1] == 'w'
    ensures InvertKey[31] == '"' && InvertKey[32] == ':'
    ensures forall t :: 0 < t < 31 ==> InvertKey[t] != '"'
    ensures forall t :: 0 <= t < 33 ==> InvertKey[t] != '\n'
  {
    forall t | 0 < t < 31 ensures InvertKey[t] != '"' {
    }
    forall t | 0 <= t < 33 ensures InvertKey[t] != '\n' {
    }
  }

  /** Writing a colour theme the patcher takes whole a second time finds
      the new line and changes nothing. */
  lemma VSCodeThemeIdempotent(copy: Copy, s: string, theme: string, i: nat)
    requires Updatable(copy, s, ThemeKey, i) && UpdatableValue(copy, theme)
    ensures UpdateStatus(copy, ThemeUpdated(copy, s, theme), ThemeKey) == Ok(true)
    ensures ThemeUpdated(copy, ThemeUpdated(copy, s, theme), theme) == ThemeUpdated(copy, s, theme)
  {
    ThemeValueUpdatable(copy, theme);
    UpdateIdempotent(copy, s, ThemeKey, ThemeValue(theme), i);
  }

  /** VS Code's default theme `Default Dark+`: the `+` stops the value run
      mid-line, `m[:-2]` then leaves `rk` out of the located text, and
      setting the theme `New` leaves `"workbench.colorTheme": "New",rk+",`
      behind. */
  lemma DefaultDarkPlusMangled(copy: Copy)
    ensures UpdateStatus(copy, ThemeKey + " \"Default Dark+\",\n", ThemeKey) == Ok(true)
    ensures ThemeUpdated(copy, ThemeKey + " \"Default Dark+\",\n", "New") == ThemeKey + " \"New\",rk+\",\n"
  {
    var v := " \"Default Dark";
    var t := "\",\n";
    assert ThemeKey + " \"Default Dark+\",\n" == ThemeKey + v + ['+'] + t;
    ThemeKeyValid();
    forall k | 0 <= k < |v| ensures PlainChar(v[k]) && InClass(UpdateValues(copy), v[k]) {
    }
    assert IsText(t);
    assert !Contains(v[|v| - 2..] + ['+'] + t, ThemeKey) by {
      FindFirstNone(v[|v| - 2..] + ['+'] + t, ThemeKey);
    }
    TruncatedMidLine(copy, ThemeKey, v, '+', t, ThemeValue("New"));
    MangledLine(ThemeKey, v, t);
  }

  lemma MangledLine(key: string, v: string, t: string)
    requires v == " \"Default Dark" && t == "\",\n"
    ensures key + ThemeValue("New") + v[|v| - 2..] + ['+'] + t == key + " \"New\",rk+\",\n"
  {
    var w := ThemeValue("New") + v[|v| - 2..] + ['+'] + t;
    assert v[|v| - 2..] == "rk";
    assert w == " \"New\",rk+\",\n";
    assert key + ThemeValue("New") + v[|v| - 2..] + ['+'] + t == key + w;
  }

  /** Once `set_konsole` has written a profile the checker can read, the
      checker reads it back and a second run changes nothing. */
  lemma KonsoleProfileSet(copy: Copy, s: string, profile: string, i: nat)
    requires Updatable(copy, s, KonsoleKey, i)
    requires CheckableValue(profile) && UpdatableValue(copy, profile)
    ensures UpdateStatus(copy, s, KonsoleKey) == Ok(true)
    ensures CheckConfig(UpdatedContent(copy, s, KonsoleKey, ProfileValue(profile)), KonsoleKey, ProfileValue(profile)) == Ok(true)
    ensures
      UpdatedContent(copy, UpdatedContent(copy, s, KonsoleKey, ProfileValue(profile)), KonsoleKey, ProfileValue(profile))
      == UpdatedContent(copy, s, KonsoleKey, ProfileValue(profile))
  {
    var v := ProfileValue(profile);
    ProfileValueCheckable(profile);
    ProfileValueUpdatable(copy, profile);
    assert UpdateStatus(copy, s, KonsoleKey) == Ok(true) by {
      LocatedWrites(copy, s, KonsoleKey, v, i);
    }
    assert CheckConfig(UpdatedContent(copy, s, KonsoleKey, v), KonsoleKey, v) == Ok(true) by {
      CheckAfterUpdate(copy, s, KonsoleKey, v, v, i);
    }
    UpdateIdempotent(copy, s, KonsoleKey, v, i);
  }

  // ---------------------------------------------------------------------
  // The run

  /** The theme names given on the command line; an empty name is an option
      that was not given. */
  datatype Request = Request(plasma: string, konsole: string, vscode: string)

  /** How a run ends: the gate found nothing to do, every requested setter
      ran, or an exception ended the run. */
  datatype RunEnd = NothingToDo | Finished | Aborted(fault: Fault)

  /** `plasma_theme and check_config_files(..., "LookAndFeelPackage=",
      plasma_theme)`: True when the requested global theme is already the
      one `kdeglobals` names. */
  function Gate(plasma: string, kdeglobals: string): Outcome<bool> {
    if plasma == [] then Ok(false) else CheckConfig(kdeglobals, PlasmaKey, plasma)
  }

  /** Whether the Plasma setter ends the run: only the older copy lets its
      exception through. */
  predicate PlasmaAborts(copy: Copy, req: Request, kdeglobals: string) {
    copy == Legacy && req.plasma != [] && UpdateStatus(copy, kdeglobals, PlasmaKey).Err?
  }

  predicate KonsoleAborts(copy: Copy, req: Request, konsolerc: string) {
    copy == Legacy && req.konsole != [] && UpdateStatus(copy, konsolerc, KonsoleKey).Err?
  }

  /** The `__main__` block after argument parsing: the gate, then the
      setters in order. */
  method ApplyThemes(copy: Copy, req: Request, kdeglobals: ConfigFile, konsolerc: ConfigFile, settings: ConfigFile)
    returns (r: RunEnd)
    requires kdeglobals != konsolerc && kdeglobals != settings && konsolerc != settings
    modifies kdeglobals, konsolerc, settings
    ensures Gate(req.plasma, old(kdeglobals.content)) == Ok(true)
      ==> r == NothingToDo && unchanged(kdeglobals, konsolerc, settings)
    ensures Gate(req.plasma, old(kdeglobals.content)).Err?
      ==> r == Aborted(KeyNotFound) && unchanged(kdeglobals, konsolerc, settings)
    ensures Gate(req.plasma, old(kdeglobals.content)) == Ok(false) ==>
      kdeglobals.content == PlasmaContent(copy, req, old(kdeglobals.content))
      && konsolerc.content == KonsoleContent(copy, req, old(kdeglobals.content), old(konsolerc.content))
      && settings.content == SettingsContent(copy, req, old(kdeglobals.content), old(konsolerc.content), old(settings.content))
      && r == RunResult(copy, req, old(kdeglobals.content), old(konsolerc.content), old(settings.content))
  {
    if req.plasma != [] {
      var applied := kdeglobals.CheckConfigFiles(PlasmaKey, req.plasma);
      if applied.Err? {
        return Aborted(applied.fault);
      }
      if applied.value {
        return NothingToDo;
      }
    }
    r := RunSetters(copy, req, kdeglobals, konsolerc, settings);
  }

  /** `kdeglobals` after the setters have run. */
  function PlasmaContent(copy: Copy, req: Request, k: string): string {
    if req.plasma == [] then k else UpdatedContent(copy, k, PlasmaKey, req.plasma)
  }

  /** `konsolerc` after the setters have run: untouched when the Konsole
      option was not given or the Plasma setter ended the run. */
  function KonsoleContent(copy: Copy, req: Request, k: string, c: string): string {
    if req.konsole == [] || PlasmaAborts(copy, req, k) then c
    else UpdatedContent(copy, c, KonsoleKey, ProfileValue(req.konsole))
  }

  /** `settings.json` after the setters have run. */
  function SettingsContent(copy: Copy, req: Request, k: string, c: string, v: string): string {
    if req.vscode == [] || PlasmaAborts(copy, req, k) || KonsoleAborts(copy, req, c) then v
    else VSCodeContent(copy, v, req.vscode)
  }

  /** How a run that passed the gate ends. */
  function RunResult(copy: Copy, req: Request, k: string, c: string, v: string): RunEnd {
    if PlasmaAborts(copy, req, k) || KonsoleAborts(copy, req, c) then Aborted(KeyNotFound)
    else if req.vscode != [] && VSCodeStatus(copy, v, req.vscode).Err?
    then Aborted(VSCodeStatus(copy, v, req.vscode).fault)
    else Finished
  }

  /** The setters in order. The newer copy catches what the Plasma and
      Konsole setters raise; neither copy catches what `set_vscode`
      raises. */
  method RunSetters(copy: Copy, req: Request, kdeglobals: ConfigFile, konsolerc: ConfigFile, settings: ConfigFile)
    returns (r: RunEnd)
    requires kdeglobals != konsolerc && kdeglobals != settings && konsolerc != settings
    modifies kdeglobals, konsolerc, settings
    ensures kdeglobals.content == PlasmaContent(copy, req, old(kdeglobals.content))
    ensures konsolerc.content == KonsoleContent(copy, req, old(kdeglobals.content), old(konsolerc.content))
    ensures settings.content == SettingsContent(copy, req, old(kdeglobals.content), old(konsolerc.content), old(settings.content))
    ensures r == RunResult(copy, req, old(kdeglobals.content), old(konsolerc.content), old(settings.content))
  {
    var stop := RunPlasma(copy, req, kdeglobals);
    if stop {
      return Aborted(KeyNotFound);
    }
    stop := RunKonsole(copy, req, konsolerc);
    if stop {
      return Aborted(KeyNotFound);
    }
    r := RunVSCode(copy, req, settings);
  }

  /** The Plasma step of the run; `stop` when its exception ends the run. */
  method RunPlasma(copy: Copy, req: Request, kdeglobals: ConfigFile) returns (stop: bool)
    modifies kdeglobals
    ensures stop == PlasmaAborts(copy, req, old(kdeglobals.content))
    ensures kdeglobals.content == PlasmaContent(copy, req, old(kdeglobals.content))
  {
    stop := false;
    if req.plasma != [] {
      var plasma := SetPlasmaGlobalTheme(kdeglobals, copy, req.plasma);
      stop := plasma.Err? && copy == Legacy;
    }
  }

  /** The Konsole step of the run; `stop` when its exception ends the run. */
  method RunKonsole(copy: Copy, req: Request, konsolerc: ConfigFile) returns (stop: bool)
    modifies konsolerc
    ensures stop == KonsoleAborts(copy, req, old(konsolerc.content))
    ensures konsolerc.content ==
      (if req.konsole == [] then old(konsolerc.content)
       else UpdatedContent(copy, old(konsolerc.content), KonsoleKey, ProfileValue(req.konsole)))
  {
    stop := false;
    if req.konsole != [] {
      var konsole := SetKonsole(konsolerc, copy, req.konsole);
      stop := konsole.Err? && copy == Legacy;
    }
  }

  /** The VS Code step, last in the run: nothing catches its exception. */
  method RunVSCode(copy: Copy, req: Request, settings: ConfigFile) returns (r: RunEnd)
    modifies settings
    ensures settings.content ==
      (if req.vscode == [] then old(settings.content) else VSCodeContent(copy, old(settings.content), req.vscode))
    ensures r ==
      (if req.vscode != [] && VSCodeStatus(copy, old(settings.content), req.vscode).Err?
       then Aborted(VSCodeStatus(copy, old(settings.content), req.vscode).fault)
       else Finished)
  {
    r := Finished;
    if req.vscode != [] {
      var vscode := SetVSCode(settings, copy, req.vscode);
      if vscode.Err? {
        r := Aborted(vscode.fault);
      }
    }
  }

  /** What makes the cron-driven run idempotent: after a run that rewrote
      the global theme in `kdeglobals`, the next run with the same request
      finds nothing to do. */
  lemma GateAfterApply(copy: Copy, req: Request, s: string, i: nat)
    requires req.plasma != [] && Updatable(copy, s, PlasmaKey, i) && CheckableValue(req.plasma)
    ensures Gate(req.plasma, PlasmaContent(copy, req, s)) == Ok(true)
  {
    CheckAfterUpdate(copy, s, PlasmaKey, req.plasma, req.plasma, i);
  }

  /** The gate reads the same value the Plasma setter writes: a
      `kdeglobals` that names another theme lets the run go ahead. */
  lemma GateOpensForOtherTheme(s: string, plasma: string, i: nat)
    requires plasma != [] && IsText(s) && FindFirst(s, PlasmaKey) == Some(i)
    requires EscapeLine(ValueRun(CheckValues, s[i + |PlasmaKey|..])) != plasma
    ensures Gate(plasma, s) == Ok(false)
  {
    KeysValid();
    CheckConfigMeaning(s, PlasmaKey, plasma, i);
  }
}
