# LightHouse configuration patcher, in Dafny

LightHouse applies a desktop theme to a KDE Plasma session. It sets the Plasma
global theme, the default Konsole profile and the VS Code colour theme. It
then records each choice in the matching configuration file
(`kdeglobals`, `konsolerc`, `settings.json`), so that the next run, usually
started from cron, can tell that nothing is left to do.

Two functions write those files:

- `check_config_files` answers "is this value already there?".
- `update_file` rewrites the current assignment of a key.

This project models both, in the two copies of the program: `src/LightHouse.py` and the older `LightHouse.py`. It also models the setters that call them and the "nothing to do" gate of the main block.

The files:

- `text.dfy` (module `Text`): first occurrence of a substring, Python's
  `str.replace` (`ReplaceAll`), `str.split` and `str.join`, with their laws.
- `pyrepr.dfy` (module `PyRepr`): `f.readlines()` (`Lines`) and
  `str(f.readlines())` (`ReadlinesRepr`), for the texts the model covers.
  Those texts use printable characters without `'` or `\`, Latin-1 letters,
  `β`, tab and newline. `ReadlinesReprFlat` shows that this list repr is the
  flat text `Repr`: `['`, then the text with each newline written `\n', '`
  (`\n` at the very end) and each tab written `\t`, then `']`.
- `matcher.dfy` (module `Matcher`): `re.findall(key + "[class]*", str(f.readlines()))[0]`.
  - `FirstMatch` is the match read on the repr.
  - `LineMatch` is the same match read on the raw text: the key's first occurrence, then the escaped run of class characters after it, then `\n` when the run reaches the end of the line.
  - `MatchOverRepr` proves that the two are equal.
  - The class of `check_config_files` and the two classes of `update_file` are modelled exactly. That includes the range `A-z`, which also takes in `[ \ ] ^ _` and the backtick. This is why the backslash of an escaped newline or tab is swallowed.
- `patcher.dfy` (module `Patcher`):
  - `CheckConfig` says what `check_config_files` returns, and `Located`, `UpdateStatus` and `UpdatedContent` say what `update_file` finds, returns and writes.
  - The class `ConfigFile` holds a file's text. Its methods `CheckConfigFiles` and `UpdateFile` are proved against those functions.
  - The lemmas read the functions back on the raw text: the checker compares the value run with the expected value, and the patcher rewrites every copy of the line holding the key's first occurrence.
  - Checking after an update reads the new value back, and a second update changes nothing.
  - A tab in the value makes the located text stale, so `update_file` returns False and writes nothing.
- `setters.dfy` (module `Setters`):
  - `set_plasma_global_theme`, the profile write of `set_konsole`, and `set_vscode` with its PDF-inversion flip.
  - The run after argument parsing: the gate on `kdeglobals`, then the setters in order, with each copy's own exception handling.

Where the two copies differ, a `Copy` value (`Current` or `Legacy`) selects
the behaviour:

- `update_file` uses a different character class: the newer copy adds `Î` and `²`, the older one `β`.
- `set_vscode` returns early in the newer copy and never in the older one.
- `set_konsole` raises on a failed write only in the newer copy.
- The main block catches setter exceptions only in the newer copy.

`update_file` keeps the match without its last two characters (`[:-2]`).
Only when the value run reaches the newline ending its line are those two
characters the escaped newline `\n`. When the run stops anywhere else, two
characters of the value go:

- at the end of a last line without a newline;
- mid-line, at a character outside the patcher's class, such as `+`, `/`, `=`, `:`, `#` or `'`.

The text left behind keeps those two characters after the new value. The model keeps that behaviour as written:

- `TruncatedLastLine` shows that `K=ab` updated with `c` becomes `K=cab`.
- `TruncatedMidLine` shows that `K=ab+c` updated with `d` becomes `K=dab+c`.
- `DefaultDarkPlusMangled` shows that VS Code's default theme line `"workbench.colorTheme": "Default Dark+",` becomes `"workbench.colorTheme": "New",rk+",` when the theme `New` is set.

Points where the code's behaviour is easy to misread:

- `update_file` never compares before writing. "Already applied" is decided only by the gate, and only for the Plasma theme. When the gate finds the theme applied, the whole run stops, not just that setting.
- A located assignment that is missing from the raw text is reported as `False`, not as an error.
- A failing setter does not always leave the others to run:
  - the older copy lets every exception end the run;
  - the newer copy catches the Plasma and Konsole setters but not `set_vscode`.
- The rewrite replaces every copy of the located assignment, not only the line it was found on (`UpdateKeepsPieces`).

## Model

| member | source | states |
|---|---|---|
| Text.FindFirst | src/LightHouse.py:193 | The first occurrence: the needle occurs at the result, nowhere before it, and nowhere at all when there is no result. |
| Text.FindFirstAfter | src/LightHouse.py:193 | A search whose first `k` positions hold no occurrence is the search of the rest, shifted by `k`. |
| Text.SplitJoin | src/LightHouse.py:205 | Splitting a text at a separator and joining with it gives the text back. |
| Text.SplitPiecesFree | src/LightHouse.py:205 | No piece of a split holds the separator. |
| Text.ReplaceViaSplit | src/LightHouse.py:205 | `s.replace(t, r)` is the split at `t` joined with `r`. |
| Text.ReplaceAbsent | src/LightHouse.py:205 | Replacing a target the text does not hold changes nothing. |
| Text.ReplaceSelf | src/LightHouse.py:205 | Replacing a target by itself changes nothing. |
| Text.ReplaceFromFirst | src/LightHouse.py:205 | When the target first occurs right after `a`, the replace keeps `a`, writes the replacement, and goes on after the target. |
| PyRepr.Lines | src/LightHouse.py:158 | `readlines` gives no line for the empty text and at least one otherwise. |
| PyRepr.LinesPartition | src/LightHouse.py:158 | The lines put together are the text. Each line is non-empty, has a newline only at its end, and every line but the last ends in one. |
| PyRepr.JoinQuotedLines | src/LightHouse.py:158 | The quoted, comma-separated lines of a non-empty text are `'` + the escaped text + `'`. |
| PyRepr.ReadlinesReprFlat | src/LightHouse.py:158 | `str(f.readlines())` is `[]` for an empty file and otherwise `['` + escaped text + `']`. |
| PyRepr.EscSplit | src/LightHouse.py:158 | The escaped form of `a + b` is the mid-text escape of `a` followed by the escaped `b`, unless `a` ends in a newline and `b` is empty. |
| PyRepr.ReprAt | src/LightHouse.py:193 | Around an occurrence of a key, the repr reads: the escaped text before it, the key itself, then the escaped rest. |
| PyRepr.ReplaceKeepsText | src/LightHouse.py:205 | Replacing within a modelled text by a modelled text gives a modelled text. |
| Matcher.Run | src/LightHouse.py:158 | The greedy `[class]*`: a prefix of the input made of class characters, stopped only at the end or at a character outside the class. |
| Matcher.FirstMatch | src/LightHouse.py:158 | `findall(...)[0]` is absent exactly when the key is absent. Otherwise it starts with the key and occurs in the text where the key first occurs. |
| Matcher.ValueRun | src/LightHouse.py:193 | The raw characters whose escapes the class accepts: a prefix of the value, stopped at the end or at a character the class rejects. |
| Matcher.LineMatch | src/LightHouse.py:158 | The match read on the raw text is absent exactly when the raw text lacks the key. |
| Matcher.FindInBody | src/LightHouse.py:158 | The key first occurs in the repr's body at the escaped position of its first raw occurrence, and is absent from the body when absent from the text. |
| Matcher.RunTail | src/LightHouse.py:158 | The run over the repr after the key is the escaped value run, then `\n` when the run reaches a newline; the closing quote stops it. |
| Matcher.MatchOverRepr | src/LightHouse.py:158 | The match over `str(f.readlines())` equals the match read on the raw lines. |
| Matcher.MatchAt | src/LightHouse.py:193 | When the repr holds the key first at the escaped position of its first raw occurrence, followed by the escaped rest, the two matches agree. |
| Patcher.ConfigFile.CheckConfigFiles | src/LightHouse.py:157-169 | Returns `CheckConfig` of the file's text, or raises when the key is missing. It leaves the text as it was. |
| Patcher.ConfigFile.UpdateFile | src/LightHouse.py:192-208 | Returns `UpdateStatus` of the old text and leaves `UpdatedContent` of it. |
| Patcher.ConfigFile.constructor | src/LightHouse.py:188 | A file opened on a text holds that text. |
| Patcher.StripMatch | src/LightHouse.py:160-161 | Removing newlines and escaped `\n` from an escaped value plus its optional `\n` gives the escaped value back. |
| Patcher.CheckConfigMeaning | src/LightHouse.py:157-169 | With the key first at `i`, the check returns whether the escaped value run after it equals the expected value. |
| Patcher.CheckConfigRaw | src/LightHouse.py:162-169 | When that run has no tab, the check compares the raw value run with the expected value. |
| Patcher.CheckConfigAbsent | src/LightHouse.py:158 | With the key absent from the file, the check raises `IndexError`. |
| Patcher.AssignmentIs | src/LightHouse.py:193 | The raw span from the key to the end of its value run, two characters short whenever the run does not stop at a newline (end of text, or a character outside the class mid-line), is what `[:-2]` leaves of the key, the value run and the escaped newline. |
| Patcher.LocatedMeaning | src/LightHouse.py:193 | With the key first at `i` and no tab in its value, `update_file` locates the raw text from the key to the end of its value run. When the run is not stopped by a newline, the last two characters of the run are dropped. |
| Patcher.LocatedWrites | src/LightHouse.py:196-208 | In that case `update_file` returns True and replaces every copy of that assignment by the new line. |
| Patcher.UpdateAbsent | src/LightHouse.py:193 | With the key absent from the file, `update_file` raises and the text is unchanged. |
| Patcher.StaleWhenTab | src/LightHouse.py:196-200 | On a line ending in a newline, a value with a tab gives a located text holding the escape `\t`, which the raw text lacks. `update_file` then returns False and writes nothing. |
| Patcher.ReplacementOfKey | src/LightHouse.py:205 | For a key without backslashes, the new line is the key followed by the new value. |
| Patcher.UpdateRewritesLine | src/LightHouse.py:203-208 | On a line ending in a newline, the text before the key is kept. The assignment becomes key + new value, the newline stays, and later copies of the old line are replaced. |
| Patcher.UpdatedShape | src/LightHouse.py:203-208 | After that update, the text is still a modelled text and the key still first occurs at `i`. It is followed by the new value and then the newline. |
| Patcher.ValueRunPrefix | src/LightHouse.py:193 | A value made of class characters, followed by a non-class character, is exactly the value run. |
| Patcher.CheckAfterUpdate | src/LightHouse.py:143-146 | After a successful update to `add`, checking against `value` returns whether `add == value`. Writing then checking the same value returns True. |
| Patcher.UpdateIdempotent | src/LightHouse.py:203-208 | After an update, the same update again returns True and leaves the text as it is. |
| Patcher.UpdateKeepsPieces | src/LightHouse.py:203-206 | The old text is its pieces joined by the located assignment, and the new text is the same pieces joined by the new line. No piece holds the assignment, so the text outside the replaced copies is untouched. |
| Patcher.TruncatedLastLine | src/LightHouse.py:193 | For a file that is exactly `key + v`, with no newline at the end, `update_file` returns True and leaves `key + add` followed by the last two characters of `v`. |
| Patcher.TruncatedMidLine | src/LightHouse.py:193 | For a text that starts with the key, then the value `v`, then a character outside the class (other than a newline) that stops the value mid-line, and that holds the key nowhere after it: `update_file` returns True and leaves `key + add`, then the last two characters of `v`, then the rest of the text. |
| Setters.DefaultDarkPlusMangled | src/LightHouse.py:386 | Setting the theme `New` over `"workbench.colorTheme": "Default Dark+",` returns True and leaves `"workbench.colorTheme": "New",rk+",`. |
| Setters.ThemeValueUpdatable | src/LightHouse.py:386 | The colour-theme value is rewritten whole by the patcher exactly when the theme name is; the checker, whose class lacks `"`, never takes it whole. |
| Setters.VSCodeThemeIdempotent | src/LightHouse.py:386-388 | For a theme the patcher takes whole, writing it a second time finds the new line, returns True and changes nothing. |
| Setters.ProfileValueCheckable | src/LightHouse.py:371 | The Konsole value is read whole by the checker exactly when the profile name is. |
| Setters.ProfileValueUpdatable | src/LightHouse.py:371 | The Konsole value is rewritten whole by the patcher of a copy exactly when the profile name is. |
| Setters.KeysValid | src/LightHouse.py:229 | `LookAndFeelPackage=`, `DefaultProfile=` and the two VS Code keys are literal keys the matcher handles. |
| Setters.InvertValuesPlain | src/LightHouse.py:392 | ` 1,` and ` 0,` differ, and both the checker and the patcher accept them. |
| Setters.FlipValue | src/LightHouse.py:392-403 | The value written is ` 0,` exactly when the checker reads ` 1,`, and ` 1,` otherwise. A missing key raises. |
| Setters.SetPlasmaGlobalTheme | src/LightHouse.py:229-233 | Raises exactly when `update_file` raises, and otherwise returns its report. It leaves `kdeglobals` as `update_file` writes it. |
| Setters.SetKonsole | src/LightHouse.py:370-373 | A missing key raises. In the newer copy a False from `update_file` raises `RuntimeError`, while the older copy ignores it. `konsolerc` is left as `update_file` writes `DefaultProfile=` + profile + `.profile` (`UpdatedContent`). `KonsoleProfileSet` gives its meaning for a line ending in a newline with a tab-free value. |
| Setters.SetVSCode | src/LightHouse.py:375-403 | Returns `VSCodeStatus` and leaves `VSCodeContent`: the colour theme, then the flip of the PDF inversion. |
| Setters.VSCodeStopsEarly | src/LightHouse.py:386-388 | In the newer copy, a failed colour-theme update returns False and leaves the file unchanged. |
| Setters.VSCodeLegacyGoesOn | LightHouse.py:318-340 | In the older copy, the inversion is flipped even when the colour-theme update failed. |
| Setters.VSCodeKeyMissing | src/LightHouse.py:386 | Without the colour-theme key, `set_vscode` raises before writing anything. |
| Setters.InvertFlips | src/LightHouse.py:392-403 | The flip's `update_file` returns True. Afterwards the checker reads ` 1,` exactly when it did not before. |
| Setters.InvertFlipsBack | src/LightHouse.py:392-403 | Two flips give back the original reading, and the line stays rewritable. |
| Setters.VSCodeFlipsInversion | src/LightHouse.py:375-403 | Both writes of `set_vscode` happen and the call returns True. Afterwards the checker reads ` 1,` on the inversion line exactly when it did not before the call. The final text itself is stated by `VSCodeKeepsTheme`. |
| Setters.VSCodeKeepsTheme | src/LightHouse.py:375-403 | The text `set_vscode` leaves is the original with the colour-theme line set to the key and the new theme, and the inversion line set to the key and the flipped value, in either order of the two lines. Everything before, between and after the two rewritten lines is kept. |
| Setters.ThemeWriteOnce | src/LightHouse.py:386 | With the colour-theme key once in the file, the write replaces only that key's line. The text before the key and from the line's newline on is kept. |
| Setters.InvertSurvivesTheme | src/LightHouse.py:386-392 | The colour-theme write leaves the inversion line, kept apart from it, as both the checker and the patcher read it. |
| Setters.KonsoleProfileSet | src/LightHouse.py:370-373 | A profile the checker can read is read back after `set_konsole`, and writing it again changes nothing. |
| Setters.ApplyThemes | src/LightHouse.py:558-656 | When the gate finds the theme applied, or raises, no file changes. Otherwise each file ends as its setter leaves it, and the run ends as the exception handling of each copy dictates. |
| Setters.RunSetters | src/LightHouse.py:573-656 | Plasma, then Konsole, then VS Code. The older copy stops at the first exception; the newer one continues past Plasma and Konsole failures. |
| Setters.RunPlasma | LightHouse.py:465-466 | The Plasma step writes `kdeglobals` and stops the run only on the older copy's exception. |
| Setters.RunKonsole | LightHouse.py:471-472 | The Konsole step writes `konsolerc` and stops the run only on the older copy's exception. |
| Setters.RunVSCode | src/LightHouse.py:644-645 | The VS Code step's exception is never caught. |
| Setters.GateAfterApply | src/LightHouse.py:558 | After the Plasma theme has been written, the next run's gate finds nothing to do. |
| Setters.GateOpensForOtherTheme | LightHouse.py:451 | A `kdeglobals` naming another theme lets the run go ahead. |

## Left out

- Regular-expression meaning of the key: keys are taken literally. The `.` in `"latex-workshop.view.pdf.invert":` is a wildcard in the program. Keys with other regex operators, backslash escapes, or a first character that can occur in the repr's own punctuation (`[ ] , space n t`) are outside `ValidKey`.
- Python `repr` beyond the modelled alphabet: lines holding `'` (quote switching), backslashes (doubling) and control characters other than tab and newline are not modelled. This also covers characters `repr` escapes as `\x..`.
- Matcher.MatchOverRepr: proved for texts of the modelled alphabet and keys in `ValidKey` only, not for every file and key.
- Patcher.CheckAfterUpdate: proved only when the key's line ends in a newline and has no tab in its value, and the new value is plain text the checker's class accepts.
- Patcher.UpdateIdempotent: proved only for a line of that shape and a new value that is plain text inside the patcher's class.
- Setters.InvertFlips: proved only when the inversion line ends in a newline and its value has no tab.
- Setters.InvertFlipsBack: proved under the same condition.
- Setters.KonsoleProfileSet: proved only for a `DefaultProfile=` line of that shape and a profile name both classes accept.
- Setters.VSCodeThemeIdempotent: proved only for a colour-theme line of that shape and a theme name the patcher's class accepts.
- Setters.VSCodeFlipsInversion: proved only when each key sits on a line of its own ending in a newline with a tab-free value, the two lines are apart, the colour-theme key occurs once and the theme name is one the patcher's class accepts.
- Setters.ThemeWriteOnce: proved only for a colour-theme line of that shape that occurs once.
- Setters.InvertSurvivesTheme: proved only under the conditions of `VSCodeFlipsInversion`.
- Setters.VSCodeKeepsTheme: proved only when both keys occur once, each on a line of its own ending in a newline with a tab-free value, the two lines apart, and a theme name the patcher's class accepts.
- Setters.GateAfterApply: proved only for a `LookAndFeelPackage=` line of that shape and a theme name the checker's class accepts.
- Live apply mechanisms: `lookandfeeltool`, the GTK config D-Bus call, the wallpaper script, `pidof`, the Konsole session D-Bus calls and the session-id regex over their introspection XML, and `rstPlasmashell`. They are foreign calls, so their exceptions are not modelled either.
- `set_gtk_theme` and `set_wallpaper`: they write no configuration file through the patcher.
- Notifications, logging and `logging_conf.py`: output only.
- `check_args`, `getopt` parsing, the help page and `sys.exit`: I/O and argument handling. The run starts from the parsed theme names.
- Opening a file: every configuration file is assumed to exist and be readable. `open()` raising `FileNotFoundError` or `PermissionError` (src/LightHouse.py:157, :188, :196, :203) is not modelled. A missing `settings.json` or `konsolerc` is therefore never an outcome of `ApplyThemes`. In the newer copy such an error would end the run at the gate and in `set_vscode`, and would be caught for the Plasma and Konsole setters.
- File I/O: each file is one `ConfigFile` object, and the read–truncate–write sequence is a single assignment. The non-atomic write, concurrent runs and changes between the two reads are not modelled.
