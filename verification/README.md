# monitormenu — a verified model of the selection-to-action pipeline

monitormenu is a launcher-driven monitor manager for Hyprland. It lists the
monitors, shows them in a launcher menu (walker, rofi, dmenu or fuzzel), lets
the user pick one, and then shows that monitor's modes plus one enable or
disable entry. The line the user picks is parsed into an action. The action
is then applied through `hyprctl keyword monitor`.

This project models the text side of that pipeline and proves its properties:

- `text.dfy` (module `Text`): the parts of Rust's `str` API the code relies on.
  These are `starts_with`, `split` with a character or a string pattern,
  `trim_start_matches` and `trim_end_matches`. `Split` is defined through the
  leftmost `Find`. Its pieces are specified by a join round trip and by the
  statement that each cut is at the leftmost occurrence, which also fixes the
  pieces for ` @ `, a pattern that overlaps itself.
- `numbers.dfy` (module `Numbers`):
  - Rust's `i32` with `parse::<i32>` and `{}`.
  - Refresh rates, kept in `f32` in the source, modelled here as whole
    millihertz. They are read with a decimal parser and printed with two
    decimals, like `{:.2}`.
- `seqs.dfy` (module `Seqs`): `iter().map(f).collect()` and
  `iter().filter_map(f).collect()`, with what the latter keeps, in what
  order, and what it drops.
- `hyprland.dfy` (module `Hyprland`): the monitor record and `Mode`, the
  best-effort `parse_modes`, and the three `keyword monitor` rule strings.
  `DecodeRule` reads a rule back into the request it came from. It is a
  reference reading written for the proofs, not code of the repository.
- `lib.dfy` (module `MonitorMenu`): `Action`, the monitor-line and mode-line
  formatters with their glyphs, and the two parsers that read a selection
  back: a monitor name, or an action.
- `pipeline.dfy` (module `App`): `run` as an imperative method.
  - Inputs: the monitor query result and the two launcher replies.
  - Outputs: the menus shown and how the run ends. A run ends with no
    monitors, with an error, or with exactly one backend request.

### Behaviour as written

The model follows the code. In four places the code does something a reader
might not expect:

- **A mode line, as shown, is not an action.** `format_mode_for_display`
  puts the current-mode marker and a blank before `Set: ` (src/lib.rs:60-65).
  `parse_from_selection` requires the selection to start with `Set: `
  (src/lib.rs:16). If the launcher hands back the chosen line verbatim,
  then choosing a mode in the action menu ends the run with "failed to parse
  action". The launcher is not part of this model, so this is a condition on it. `MonitorMenu.ModeLineRejected` and `App.OnlyToggleParses` prove
  this: only the trailing enable or disable entry of the action menu parses.
  The round trip holds for the line without its first two characters
  (`MonitorMenu.ModeTextRoundTrip`).
- **The `Hz` unit is optional.** `parse_modes` removes trailing `Hz` with
  `trim_end_matches` (src/backend/hyprland.rs:87), so `1920x1080@60.00`
  is accepted too (`Hyprland.ModeStringParses`, second clause).
- **An unclosed parenthesis still yields a name.** `parse_monitor_name_from_selection`
  takes whatever follows the first `(`, up to the first `)` or the next `(`.
  If neither comes, it takes the rest of the line (`MonitorMenu.MonitorNameCharacterized`).
- **Enabled is `dpms_status`.** src/main.rs:55 reads `selected_monitor.disabled`,
  but the monitor record declares no such field (src/backend/hyprland.rs:5-28).
  The model reads "disabled" as `!dpmsStatus`, the field that the monitor line
  uses for its tick or cross (src/lib.rs:40).

The "current mode" test is a strict `< 0.01` Hz (src/lib.rs:58). A mode
exactly 0.01 Hz away, such as 59.95 against 59.94, is therefore not current.
The model keeps the strict comparison (`MonitorMenu.CurrentBoundary`).

Refresh rates are whole millihertz, so 0.01 Hz is exactly 10. The `f32`
rounding that could move a difference to just under or over 0.01 is not
modelled (see "Left out").

## Model

| member | source | states |
|---|---|---|
| Text.StartsWith | src/lib.rs:16 | `starts_with`: the text begins with the pattern; `StartsWithAppend` and the `ActionClassified` lemma state how the action parser uses it |
| Text.Split | src/lib.rs:19 | `split(...).collect()`: at least one piece, cut at the leftmost occurrences; `SplitSpec`, `SplitLeftmost`, `SplitCount` and `SplitHead` specify the pieces |
| Text.SplitSpec | src/backend/hyprland.rs:75 | joining the pieces of `split` with the separator gives the input back, and no piece contains the separator |
| Text.SplitLeftmost | src/lib.rs:19 | every piece but the last is followed by the separator, and the separator starts nowhere inside the piece, even straddling into that separator |
| Text.SplitCount | src/backend/hyprland.rs:75-83 | splitting on a character gives one more piece than the character's occurrences |
| Text.SplitHead | src/lib.rs:72-73 | the first piece of a split is the text before the first separator, or the whole text when there is none |
| Text.TrimStartMatches | src/lib.rs:17-18 | the result is a suffix of the input and no longer starts with the pattern |
| Text.TrimStartRemovesCopies | src/lib.rs:17-18 | the input is some number of whole copies of the pattern followed by the result, so exactly the leading copies are removed |
| Text.TrimEndMatches | src/backend/hyprland.rs:87 | the result is a prefix of the input and no longer ends with the pattern |
| Text.TrimEndRemovesCopies | src/backend/hyprland.rs:87 | the input is the result followed by some number of whole copies of the pattern, so exactly the trailing copies are removed |
| Numbers.ParseI32 | src/backend/hyprland.rs:85-86 | a parsed `i32` comes from a sign or digit followed by digits only; a leading `-` gives a value of at most 0 |
| Numbers.IntText | src/lib.rs:63-64 | `{}` of an integer: digits with an optional leading `-`, ending in a digit; `IntTextSpelling` fixes the spelling and `IntRoundTrip` is its inverse |
| Numbers.IntTextSpelling | src/lib.rs:63-64 | a `-` exactly for a negative integer, then digits with no leading `0`, zero being the single `0` |
| Numbers.IntRoundTrip | src/lib.rs:24-25 | every `i32` printed with `{}` parses back to itself |
| Numbers.ParseRefresh | src/backend/hyprland.rs:87 | a parsed rate is non-negative unless the text starts with `-`, and non-positive when it does |
| Numbers.Round2 | src/lib.rs:63-64 | the value `{:.2}` shows is a whole number of hundredths, within 5 mHz of the rate |
| Numbers.Render2 | src/lib.rs:63-64 | `{:.2}` of a rate: digits, `-` and `.`, ending in a digit; `Render2Spelling` fixes the spelling, and `RefreshRoundTrip` reads back the `Round2` value it shows |
| Numbers.Render2Spelling | src/lib.rs:63-64 | a `-` exactly for a negative rate, whole digits with no leading `0`, a `.`, and exactly two decimal digits |
| Numbers.RefreshRoundTrip | src/lib.rs:26 | a rate printed with two decimals parses back to the printed value |
| Seqs.Map | src/main.rs:26-29 | `map(...).collect()` gives one result per input, `f` of the input at the same position |
| Seqs.FilterMap | src/backend/hyprland.rs:72-95 | `filter_map(...).collect()`: never more results than inputs; `AcceptedSpec`, `FilterMapInOrder` and `FilterMapSplice` fix which results, in what order |
| Seqs.AcceptedSpec | src/backend/hyprland.rs:72-74 | the accepted positions increase, and a position is listed exactly when its input is accepted |
| Seqs.FilterMapInOrder | src/backend/hyprland.rs:72-74 | the k-th result of `filter_map` is the value of the k-th accepted input |
| Seqs.FilterMapSplice | src/backend/hyprland.rs:72-95 | a rejected input leaves no trace; an accepted one contributes its value at its own position |
| Hyprland.ParseMode | src/backend/hyprland.rs:74-94 | the closure given to `filter_map`; `ModeNeedsOneAt`, `ModeNeedsOneX` and `ModeFields` together fix its result on every string |
| Hyprland.ParseModes | src/backend/hyprland.rs:71-96 | never more modes than mode strings |
| Hyprland.ModeNeedsOneAt | src/backend/hyprland.rs:75-78 | a string without exactly one `@` gives no mode |
| Hyprland.ModeNeedsOneX | src/backend/hyprland.rs:80-83 | a resolution without exactly one `x` gives no mode |
| Hyprland.ModeFields | src/backend/hyprland.rs:80-93 | with the separators in place, the string is a mode exactly when width and height are `i32`s and the rate, with every trailing `Hz` removed, is a number |
| Hyprland.WellFormedFields | src/backend/hyprland.rs:85-93 | fields that parse on their own give that mode, with or without the `Hz` |
| Hyprland.ModeStringParses | src/backend/hyprland.rs:85-93 | Hyprland's `WxH@R.RRHz` spelling parses to that mode, and the same text without `Hz` does too |
| Hyprland.WellFormedModeExact | src/backend/hyprland.rs:85-93 | a rate in whole hundredths comes back unchanged |
| Hyprland.ParseModesSplice | src/backend/hyprland.rs:72-78 | a malformed entry is dropped without affecting the entries around it |
| Hyprland.ParseModesInOrder | src/backend/hyprland.rs:72-95 | the modes are exactly those of the accepted strings, in the strings' order |
| Hyprland.DuplicatesKept | src/backend/hyprland.rs:72-95 | the same string twice gives the same mode twice |
| Hyprland.KeepFirstAndLast | src/backend/hyprland.rs:72-95 | of three entries, the two that parse are kept in order and the middle one that does not is dropped |
| Hyprland.ModeListExample | src/backend/hyprland.rs:71-96 | two listed modes around an entry without `@` give exactly those two modes |
| Hyprland.MonitorRule | src/backend/hyprland.rs:98-116 | every rule starts with the monitor name and a comma; `SetRuleSpelling` gives the set-mode spelling and `RuleRoundTrip` reads every rule back |
| Hyprland.SetRuleSpelling | src/backend/hyprland.rs:99-100 | the set-mode rule is the name, a comma, `<W>x<H>@` and the rate with exactly two decimals (no `Hz`, blank or comma), then `,auto,1` |
| Hyprland.DecodeRule | src/backend/hyprland.rs:98-116 | a reference reading of the three rule strings, not code of the repository; `RuleRoundTrip` proves it undoes `MonitorRule` |
| Hyprland.RuleHead | src/backend/hyprland.rs:100 | the name of a rule ends at its first comma when the name has none |
| Hyprland.DisableRuleRoundTrip | src/backend/hyprland.rs:115 | `<name>,disable` reads back as the disable request for that name |
| Hyprland.EnableRuleRoundTrip | src/backend/hyprland.rs:109 | `<name>,preferred,auto,1` reads back as the enable request for that name |
| Hyprland.SetRuleFields | src/backend/hyprland.rs:100 | `<name>,<mode>,auto,1` with a parsing mode reads back as that mode |
| Hyprland.SetModeRuleRoundTrip | src/backend/hyprland.rs:99-100 | a set-mode rule reads back as its request, with the rate rounded to two decimals |
| Hyprland.RuleRoundTrip | src/backend/hyprland.rs:98-116 | every rule reads back as the request it was built from, for names without a comma |
| MonitorMenu.ParseAction | src/lib.rs:15-36 | a mode change is only ever read from a selection starting with `Set: `; `ActionClassified`, `SetNeedsOneSeparator` and `SetFields` state the rest |
| MonitorMenu.ActionClassified | src/lib.rs:15-35 | `Enable` exactly for `Enable monitor`, `Disable` exactly for `Disable monitor`; a `Set: ` selection is a mode change or nothing; any other text is nothing |
| MonitorMenu.SetNeedsOneSeparator | src/lib.rs:17-23 | after `Set: `, a rest that does not split on ` @ ` into exactly two pieces, or whose first piece has other than one `x`, is no action |
| MonitorMenu.TwoSeparatorsRejected | src/lib.rs:17-21 | two ` @ ` after `Set: `, as in `Set: 1x1 @ 60 @ 60 Hz`, is no action |
| MonitorMenu.ResolutionNeedsOneX | src/lib.rs:22-23 | a resolution with other than one `x`, as in `Set: 1x2x3 @ 60 Hz`, is no action |
| MonitorMenu.SetFields | src/lib.rs:16-29 | after `Set: `, with the separators in place, the selection is a mode change exactly when both dimensions are `i32`s and the rate, without trailing ` Hz`, is a number |
| MonitorMenu.SetFieldsParse | src/lib.rs:22-27 | fields that parse on their own give that mode change |
| MonitorMenu.ModeTextRoundTrip | src/lib.rs:62-65 | `Set: ` plus a mode as the menu spells it reads back as that mode, with the rate as printed |
| MonitorMenu.ModeLineRejected | src/lib.rs:60-65 | a whole mode line, marker included, is never an action |
| MonitorMenu.RepeatedSetPrefix | src/lib.rs:17-18 | one more leading `Set: ` changes nothing, since every copy is removed |
| MonitorMenu.MissingSeparatorRejected | src/lib.rs:17-21 | `Set: ` followed by text without ` @ ` is no action |
| MonitorMenu.ResolutionOnlyRejected | src/lib.rs:16-35 | `Set: ` followed by a resolution alone, such as `Set: 1920x1080`, is no action |
| MonitorMenu.IsCurrent | src/lib.rs:56-58 | same width, same height and less than 10 mHz apart; `CurrentBoundary` pins the strict bound and `FormatModeLine` the marker it decides |
| MonitorMenu.CurrentBoundary | src/lib.rs:56-58 | 10 mHz apart is not current, 5 mHz apart is, and a different height is not |
| MonitorMenu.ModeText | src/lib.rs:63 | `<W>x<H> @ <R:.2> Hz`, the mode part of a mode line; `ModeTextRoundTrip` reads it back after `Set: ` |
| MonitorMenu.FormatModeLine | src/lib.rs:55-66 | the first character is the dot exactly when the mode is current and a blank otherwise; `Set: ` and the mode follow after a blank |
| MonitorMenu.Markers | src/lib.rs:40-41 | four characters, none of them `(` |
| MonitorMenu.GeometryText | src/lib.rs:44 | the geometry text holds no `(` |
| MonitorMenu.FormatMonitorLine | src/lib.rs:39-53 | the monitor line; `MonitorLineMarkers`, `MonitorLineEndsWithName` and `MonitorLineRoundTrip` state its glyphs, its ending and that its name reads back |
| MonitorMenu.MonitorLineMarkers | src/lib.rs:40-45 | the first glyph is a tick exactly when the monitor is on and a cross otherwise; the third is a dot exactly when it is focused and a blank otherwise |
| MonitorMenu.MonitorLineEndsWithName | src/lib.rs:44-51 | the line ends with ` (<name>)` |
| MonitorMenu.HeadHasNoParen | src/lib.rs:43-50 | before the name, a monitor line holds no `(` unless the description does |
| MonitorMenu.ParseMonitorName | src/lib.rs:68-75 | the name after the first `(`; `MonitorNameNeedsParen` and `MonitorNameCharacterized` fix its result on every selection |
| MonitorMenu.MonitorNameNeedsParen | src/lib.rs:69-71 | a name is found exactly when the selection contains `(` |
| MonitorMenu.MonitorNameCharacterized | src/lib.rs:68-75 | the name is the longest stretch after the first `(` free of both parentheses |
| MonitorMenu.NameBeforeParen | src/lib.rs:70-74 | a name free of parentheses, followed by `)`, is read back whole |
| MonitorMenu.MonitorLineRoundTrip | src/lib.rs:39-52 | the name read from a monitor line is the monitor's name, when the description has no `(` and the name no parenthesis |
| App.MonitorOptions | src/main.rs:26-29 | one line per monitor, in list order |
| App.ModeOptions | src/main.rs:43-53 | one line per parsed mode, in order, marked against the given geometry |
| App.ToggleEntry | src/main.rs:55-59 | `Disable monitor` for a monitor that is on, `Enable monitor` otherwise, as `ActionOptions` and `SingleToggle` state |
| App.ActionOptions | src/main.rs:41-59 | the mode lines and then one entry: `Disable monitor` exactly when the monitor is on, `Enable monitor` otherwise |
| App.FirstNamed | src/main.rs:36-39 | the position of the first monitor with that name, or none exactly when no monitor has it |
| App.ActionPrompt | src/main.rs:63 | the prompt `Action for <name>:` of the action menu, which `Run` shows with the chosen name |
| App.SelectMonitor | src/main.rs:31-39 | a cancelled launcher, a line without a name and an unknown name are distinct errors; otherwise the first monitor with the parsed name is chosen |
| App.CallFor | src/main.rs:69-85 | one request addressed to the given name, of the action's kind; a mode change keeps its numbers |
| App.ActionOutcome | src/main.rs:61-85 | a cancelled launcher and an unparsed action are errors; otherwise the request for the parsed action is made |
| App.Run | src/main.rs:14-88 | the failed query, empty list, monitor menu, action menu and dispatch happen in this order with the stated early exits, and the method's result matches the step functions above |
| App.PickMonitorLine | src/main.rs:26-39 | picking a line of the monitor menu selects that monitor, when names are unique and free of parentheses and descriptions have no `(` |
| App.OnlyToggleParses | src/main.rs:43-67 | in the action menu as shown, exactly the trailing entry parses, as `Disable` for a monitor that is on and `Enable` otherwise |
| App.SingleToggle | src/main.rs:55-59 | the action menu holds exactly one enable or disable entry, and it is the last |

## Left out

- Running `hyprctl`, its exit status and stderr (src/backend/hyprland.rs:50-62) are left out. The model stops at the rule string and at the one request the run makes; whether that request then succeeds is not modelled.
- JSON decoding of `hyprctl monitors -j` with serde (src/backend/hyprland.rs:64-69) is left out. The monitor list, or its failure, is an input.
- The launcher module is not part of this model. Each `show_menu` call is the menu it is given plus a reply that is an input. A launcher error and a cancelled menu are both `Cancelled`.
- Command-line parsing and the launcher choice (src/cli/mod.rs) are left out. They select the launcher only.
- `println!`, `eprintln!` and the exit code (src/main.rs:8-11, 22, 72-83) are left out. The outcome of the run stands for them.
- The monitor fields the menu never reads (`id`, `x`, `y`, `scale`, `transform`, `vrr`, `reserved`, `activeWorkspace`) are left out.
- Numbers.ParseRefresh: does not model Rust's `parse::<f32>` in full. Exponents, `inf` and `NaN` are rejected, and digits past the third decimal only round the last millihertz (half up at the fourth digit).
- Numbers.Render2: rounds the exact millihertz value half away from zero. Rust rounds the binary `f32` value, so a rate stored just below a half-hundredth can print one hundredth lower. An exact binary tie goes to the even hundredth in Rust: an `f32` holding exactly 60.125 prints `60.12`, while `Render2(60125)` gives `60.13`.
- MonitorMenu.IsCurrent: compares exact millihertz. `f32` subtraction and `abs` can put a difference of nearly 0.01 Hz on either side of the bound.
