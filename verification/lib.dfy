/**
 * The menu text: how monitors and modes are shown to the launcher, and how a
 * line the launcher returns is read back into a monitor name or an action.
 * The glyphs and literal pieces are named once and shared by the formatters
 * and the parsers.
 */
module MonitorMenu {
  import opened Wrappers
  import opened Text
  import opened Numbers
  import opened Hyprland

  /** What the user asked for in the action menu. */
  datatype Action =
    | SetMode(width: Int32, height: Int32, refresh: MilliHz)
    | Enable
    | Disable

  const ENABLED_GLYPH: char := '\U{2713}'
  const DISABLED_GLYPH: char := '\U{2717}'
  /** Marks the focused monitor and the current mode. */
  const DOT_GLYPH: char := '\U{25CF}'

  const SET_PREFIX: string := "Set: "
  const MODE_SEPARATOR: string := " @ "
  const HZ_SUFFIX: string := " Hz"
  const ENABLE_ENTRY: string := "Enable monitor"
  const DISABLE_ENTRY: string := "Disable monitor"

  /**
   * `Action::parse_from_selection`: the two fixed entries, or `"Set: "`
   * (every leading copy removed), then `<W>x<H> @ <R> Hz` with `i32`
   * dimensions and a numeric rate once every trailing `" Hz"` is removed.
   */
  function ParseAction(selection: string): (r: Option<Action>)
    ensures r.Some? && r.value.SetMode? ==> StartsWith(selection, SET_PREFIX)
  {
    if StartsWith(selection, SET_PREFIX) then
      var parts := Split(TrimStartMatches(selection, SET_PREFIX), MODE_SEPARATOR);
      if |parts| != 2 then None
      else
        var resParts := Split(parts[0], "x");
        if |resParts| != 2 then None
        else
          match (ParseI32(resParts[0]), ParseI32(resParts[1]), ParseRefresh(TrimEndMatches(parts[1], HZ_SUFFIX)))
          case (Some(w), Some(h), Some(rate)) => Some(SetMode(w, h, rate))
          case _ => None
    else if selection == ENABLE_ENTRY then Some(Enable)
    else if selection == DISABLE_ENTRY then Some(Disable)
    else None
  }

  /** `|a|`, for the distance between two refresh rates. */
  function Abs(x: int): (r: nat)
    ensures r == x || r == -x
  {
    if x < 0 then -x else x
  }

  /**
   * The mode is the monitor's current one: same width and height, and a
   * refresh rate less than 0.01 Hz (10 mHz) away.
   */
  predicate IsCurrent(mode: Mode, width: Int32, height: Int32, refresh: MilliHz) {
    mode.width == width && mode.height == height && Abs(mode.refresh - refresh) < 10
  }

  /** `<W>x<H> @ <R:.2> Hz`: a mode as the action menu spells it. */
  function ModeText(mode: Mode): string {
    IntText(mode.width) + "x" + IntText(mode.height) + MODE_SEPARATOR + Render2(mode.refresh) + HZ_SUFFIX
  }

  /**
   * `format_mode_for_display`: the current-mode marker (a dot or a blank),
   * a blank, then `Set: <W>x<H> @ <R:.2> Hz`.
   */
  function FormatModeLine(mode: Mode, width: Int32, height: Int32, refresh: MilliHz): (line: string)
    ensures |line| > 2 + |SET_PREFIX| && line[1] == ' '
    ensures line[0] == DOT_GLYPH <==> IsCurrent(mode, width, height, refresh)
    ensures line[0] == ' ' <==> !IsCurrent(mode, width, height, refresh)
    ensures line[2..] == SET_PREFIX + ModeText(mode)
  {
    var marker := if IsCurrent(mode, width, height, refresh) then DOT_GLYPH else ' ';
    [marker, ' '] + (SET_PREFIX + ModeText(mode))
  }

  /** The status glyph, a blank, the focus glyph (or a blank) and a blank. */
  function Markers(m: Monitor): (r: string)
    ensures |r| == 4 && '(' !in r
  {
    var status := if m.dpmsStatus then ENABLED_GLYPH else DISABLED_GLYPH;
    var focus := if m.focused then DOT_GLYPH else ' ';
    [status, ' ', focus, ' ']
  }

  /** `<W>x<H>@<R:.2>Hz`, the geometry in a monitor line. */
  function GeometryText(width: Int32, height: Int32, refresh: MilliHz): (r: string)
    ensures '(' !in r
  {
    var w, h, rate := IntText(width), IntText(height), Render2(refresh);
    assert '(' !in w && '(' !in h && '(' !in rate;
    w + ("x" + (h + ("@" + (rate + "Hz"))))
  }

  /** The text in a monitor line before ` (<name>)`. */
  function MonitorLineHead(m: Monitor): string {
    Markers(m) + (m.description + (" - " + GeometryText(m.width, m.height, m.refresh)))
  }

  /**
   * `format_monitor_for_display`:
   * `<✓|✗> <●| > <description> - <W>x<H>@<R:.2>Hz (<name>)`.
   */
  function FormatMonitorLine(m: Monitor): string {
    MonitorLineHead(m) + " " + "(" + m.name + ")"
  }

  /**
   * The first glyph is a tick exactly when the monitor is on and a cross
   * otherwise; the third is a dot exactly when it is focused and a blank
   * otherwise.
   */
  lemma MonitorLineMarkers(m: Monitor)
    ensures var line := FormatMonitorLine(m);
      && |line| > 4 && line[1] == ' ' && line[3] == ' '
      && (line[0] == ENABLED_GLYPH <==> m.dpmsStatus)
      && (line[0] == DISABLED_GLYPH <==> !m.dpmsStatus)
      && (line[2] == DOT_GLYPH <==> m.focused)
      && (line[2] == ' ' <==> !m.focused)
  {
    var marks := Markers(m);
    var head := MonitorLineHead(m);
    assert StartsWith(head, marks);
    StartsWithAppend(head, marks, " ");
    StartsWithAppend(head + " ", marks, "(");
    StartsWithAppend(head + " " + "(", marks, m.name);
    StartsWithAppend(head + " " + "(" + m.name, marks, ")");
    var line := FormatMonitorLine(m);
    assert line[..4] == marks;
    assert line[0] == marks[0] && line[1] == marks[1] && line[2] == marks[2] && line[3] == marks[3];
  }

  /** A monitor line ends with the monitor's name in parentheses. */
  lemma MonitorLineEndsWithName(m: Monitor)
    ensures EndsWith(FormatMonitorLine(m), " (" + m.name + ")")
  {
    EndsWithParenthesized(MonitorLineHead(m), m.name);
  }

  /** The part of a monitor line before its name holds no `(` when the description holds none. */
  lemma HeadHasNoParen(m: Monitor)
    requires '(' !in m.description
    ensures '(' !in MonitorLineHead(m) + " "
  {
    var geometry := GeometryText(m.width, m.height, m.refresh);
    assert '(' !in " - " + geometry;
    assert '(' !in m.description + (" - " + geometry);
  }

  /**
   * `parse_monitor_name_from_selection`: the second piece of the selection
   * split on `(`, cut at its first `)`.
   */
  function ParseMonitorName(selection: string): Option<string> {
    var parts := Split(selection, "(");
    if |parts| < 2 then None else Some(Split(parts[1], ")")[0])
  }

  /** A name is found exactly when the selection holds a `(`. */
  lemma MonitorNameNeedsParen(selection: string)
    ensures ParseMonitorName(selection).None? <==> '(' !in selection
  {
    SplitCount(selection, '(');
  }

  /**
   * After the first `(`, the name is the longest stretch holding neither `(`
   * nor `)`: it ends at the first of them, or at the end of the text when
   * the parenthesis is never closed.
   */
  lemma MonitorNameCharacterized(before: string, rest: string)
    requires '(' !in before
    ensures var r := ParseMonitorName(before + "(" + rest);
      && r.Some?
      && StartsWith(rest, r.value)
      && '(' !in r.value && ')' !in r.value
      && (|r.value| == |rest| || rest[|r.value|] == '(' || rest[|r.value|] == ')')
  {
    SplitFirst(before, "(", rest);
    var p := Split(rest, "(")[0];
    SplitHead(rest, '(');
    SplitHead(p, ')');
    var name := Split(p, ")")[0];
    assert name == p[..|name|];
    assert '(' !in name by {
      forall k | 0 <= k < |name| ensures name[k] != '(' {
        assert name[k] == p[k];
      }
    }
    assert rest[..|name|] == name;
    if |name| < |p| {
      assert rest[|name|] == p[|name|];
    }
  }

  /**
   * The name in a monitor line is read back unchanged, provided the
   * description has no `(` and the name has no parenthesis.
   */
  lemma MonitorLineRoundTrip(m: Monitor)
    requires '(' !in m.description && '(' !in m.name && ')' !in m.name
    ensures ParseMonitorName(FormatMonitorLine(m)) == Some(m.name)
  {
    var before := MonitorLineHead(m) + " ";
    HeadHasNoParen(m);
    NameBeforeParen(before, m.name);
  }

  /** A name without parentheses, closed by `)`, is read back whole. */
  lemma NameBeforeParen(before: string, name: string)
    requires '(' !in before && '(' !in name && ')' !in name
    ensures ParseMonitorName(before + "(" + name + ")") == Some(name)
  {
    var rest := name + ")";
    assert before + "(" + name + ")" == before + "(" + rest;
    MonitorNameCharacterized(before, rest);
    assert rest[..|name|] == name && rest[|name|] == ')';
    assert forall k :: 0 <= k < |name| ==> rest[k] == name[k];
  }

  /**
   * Once the separators sit where they belong, a `Set: ` selection is an
   * action exactly when both dimensions are `i32`s and the rate, stripped of
   * every trailing `" Hz"`, is a number.
   */
  lemma SetFields(width: string, height: string, rate: string)
    requires 'S' !in width && 'x' !in width && ' ' !in width
    requires 'x' !in height && ' ' !in height
    requires '@' !in rate
    ensures ParseAction(SET_PREFIX + (width + "x" + height + MODE_SEPARATOR + rate)) ==
      match (ParseI32(width), ParseI32(height), ParseRefresh(TrimEndMatches(rate, HZ_SUFFIX)))
      case (Some(w), Some(h), Some(r)) => Some(SetMode(w, h, r))
      case _ => None
  {
    var body := width + "x" + height + MODE_SEPARATOR + rate;
    var selection := SET_PREFIX + body;
    assert selection[..|SET_PREFIX|] == SET_PREFIX;
    assert body[0] != 'S' by {
      if width == [] { assert body[0] == 'x'; } else { assert body[0] == width[0]; }
    }
    assert selection[|SET_PREFIX|..] == body;
    assert TrimStartMatches(selection, SET_PREFIX) == body;
    MissingChar(rate, MODE_SEPARATOR, 1);
    assert ' ' !in width + "x" + height;
    SplitAround(width + "x" + height, MODE_SEPARATOR, rate);
    CharOccursAt(height, 'x');
    SplitAround(width, "x", height);
  }

  /** Fields that parse on their own parse together after `Set: `. */
  lemma SetFieldsParse(ws: string, hs: string, rt: string, w: Int32, h: Int32, r: MilliHz)
    requires ParseI32(ws) == Some(w) && ParseI32(hs) == Some(h)
    requires ParseRefresh(rt) == Some(r) && !EndsWith(rt, HZ_SUFFIX)
    requires 'S' !in ws && 'x' !in ws && ' ' !in ws
    requires 'x' !in hs && ' ' !in hs && '@' !in rt
    ensures ParseAction(SET_PREFIX + (ws + "x" + hs + MODE_SEPARATOR + rt + HZ_SUFFIX)) == Some(SetMode(w, h, r))
  {
    TrimEndOnce(rt, HZ_SUFFIX);
    assert '@' !in rt + HZ_SUFFIX;
    assert ws + "x" + hs + MODE_SEPARATOR + rt + HZ_SUFFIX == ws + "x" + hs + MODE_SEPARATOR + (rt + HZ_SUFFIX);
    SetFields(ws, hs, rt + HZ_SUFFIX);
  }

  /**
   * A mode as the action menu spells it, after `Set: `, is read back as that
   * mode with the rate as printed: within 5 mHz of the original.
   */
  lemma ModeTextRoundTrip(mode: Mode)
    ensures ParseAction(SET_PREFIX + ModeText(mode)) ==
      Some(SetMode(mode.width, mode.height, Round2(mode.refresh)))
  {
    var ws, hs, rt := IntText(mode.width), IntText(mode.height), Render2(mode.refresh);
    IntRoundTrip(mode.width);
    IntRoundTrip(mode.height);
    RefreshRoundTrip(mode.refresh);
    assert 'S' !in ws && 'x' !in ws && ' ' !in ws && 'x' !in hs && ' ' !in hs && '@' !in rt;
    assert !EndsWith(rt, HZ_SUFFIX) by {
      assert rt[|rt| - 3..][2] == rt[|rt| - 1];
    }
    SetFieldsParse(ws, hs, rt, mode.width, mode.height, Round2(mode.refresh));
  }

  /**
   * A whole mode line, as the menu shows it, is not an action: the marker in
   * front of `Set: ` keeps it from matching the prefix.
   */
  lemma ModeLineRejected(mode: Mode, width: Int32, height: Int32, refresh: MilliHz)
    ensures ParseAction(FormatModeLine(mode, width, height, refresh)) == None
  {
    var line := FormatModeLine(mode, width, height, refresh);
    assert line[..|SET_PREFIX|][0] != SET_PREFIX[0];
    assert line != ENABLE_ENTRY && line != DISABLE_ENTRY by {
      assert ENABLE_ENTRY[0] != line[0] && DISABLE_ENTRY[0] != line[0];
    }
  }

  /** Repeated `Set: ` prefixes are all removed: one more changes nothing. */
  lemma RepeatedSetPrefix(s: string)
    ensures ParseAction(SET_PREFIX + SET_PREFIX + s) == ParseAction(SET_PREFIX + s)
  {
    var once := SET_PREFIX + s;
    var twice := SET_PREFIX + once;
    assert SET_PREFIX + SET_PREFIX + s == twice;
    assert twice[..|SET_PREFIX|] == SET_PREFIX && twice[|SET_PREFIX|..] == once;
    assert once[..|SET_PREFIX|] == SET_PREFIX;
    assert TrimStartMatches(twice, SET_PREFIX) == TrimStartMatches(once, SET_PREFIX);
  }

  /** `Set: ` followed by text without `" @ "` is no action (for instance `Set: 1920x1080`). */
  lemma MissingSeparatorRejected(s: string)
    requires NoOccurrence(s, MODE_SEPARATOR) && !StartsWith(s, SET_PREFIX)
    ensures ParseAction(SET_PREFIX + s) == None
  {
    var selection := SET_PREFIX + s;
    assert selection[..|SET_PREFIX|] == SET_PREFIX && selection[|SET_PREFIX|..] == s;
    assert TrimStartMatches(selection, SET_PREFIX) == s;
    FindSpec(s, MODE_SEPARATOR);
  }

  /**
   * After `Set: `, the rest must split on `" @ "` into exactly two pieces,
   * and the first of them must hold exactly one `x`; otherwise there is no
   * action.
   */
  lemma SetNeedsOneSeparator(s: string)
    requires !StartsWith(s, SET_PREFIX)
    ensures |Split(s, MODE_SEPARATOR)| != 2 ==> ParseAction(SET_PREFIX + s) == None
    ensures var parts := Split(s, MODE_SEPARATOR);
      |parts| == 2 && Count(parts[0], 'x') != 1 ==> ParseAction(SET_PREFIX + s) == None
  {
    var selection := SET_PREFIX + s;
    assert selection[..|SET_PREFIX|] == SET_PREFIX && selection[|SET_PREFIX|..] == s;
    assert TrimStartMatches(selection, SET_PREFIX) == s;
    var parts := Split(s, MODE_SEPARATOR);
    if |parts| == 2 {
      SplitCount(parts[0], 'x');
    }
  }

  /** A text that does not begin with `S` cannot start with `Set: `. */
  lemma NotSetPrefixed(s: string)
    requires s != [] && s[0] != 'S'
    ensures !StartsWith(s, SET_PREFIX)
  {
    if |SET_PREFIX| <= |s| {
      assert s[..|SET_PREFIX|][0] == s[0];
    }
  }

  /** Two `" @ "` after `Set: `, as in `Set: 1x1 @ 60 @ 60 Hz`, is no action. */
  lemma TwoSeparatorsRejected(a: string, b: string, c: string)
    requires 'S' !in a && ' ' !in a && ' ' !in b
    ensures ParseAction(SET_PREFIX + (a + MODE_SEPARATOR + b + MODE_SEPARATOR + c)) == None
  {
    var tail := b + MODE_SEPARATOR + c;
    var s := a + MODE_SEPARATOR + b + MODE_SEPARATOR + c;
    assert s == a + MODE_SEPARATOR + tail;
    assert s[0] != 'S' by {
      if a == [] { assert s[0] == ' '; } else { assert s[0] == a[0]; }
    }
    NotSetPrefixed(s);
    SplitFirst(a, MODE_SEPARATOR, tail);
    SplitFirst(b, MODE_SEPARATOR, c);
    assert |Split(s, MODE_SEPARATOR)| >= 3;
    SetNeedsOneSeparator(s);
  }

  /**
   * A resolution without exactly one `x`, as in `Set: 1x2x3 @ 60 Hz` or
   * `Set: 1920 @ 60 Hz`, is no action.
   */
  lemma ResolutionNeedsOneX(res: string, rate: string)
    requires 'S' !in res && ' ' !in res && '@' !in rate
    requires Count(res, 'x') != 1
    ensures ParseAction(SET_PREFIX + (res + MODE_SEPARATOR + rate)) == None
  {
    var s := res + MODE_SEPARATOR + rate;
    assert s[0] != 'S' by {
      if res == [] { assert s[0] == ' '; } else { assert s[0] == res[0]; }
    }
    NotSetPrefixed(s);
    MissingChar(rate, MODE_SEPARATOR, 1);
    SplitAround(res, MODE_SEPARATOR, rate);
    SetNeedsOneSeparator(s);
  }

  /** A resolution alone after `Set: `, such as `Set: 1920x1080`, is no action. */
  lemma ResolutionOnlyRejected(w: Int32, h: Int32)
    ensures ParseAction(SET_PREFIX + (IntText(w) + "x" + IntText(h))) == None
  {
    var ws := IntText(w);
    var s := ws + "x" + IntText(h);
    assert ' ' !in s;
    MissingChar(s, MODE_SEPARATOR, 0);
    assert s[0] == ws[0] && ws[0] in ws;
    assert !StartsWith(s, SET_PREFIX) by {
      if |SET_PREFIX| <= |s| {
        assert s[..|SET_PREFIX|][0] == s[0];
      }
    }
    MissingSeparatorRejected(s);
  }

  /** The 0.01 Hz window is strict: 10 mHz apart is not current, 5 mHz is. */
  lemma CurrentBoundary()
    ensures !IsCurrent(Mode(1920, 1080, 59_950), 1920, 1080, 59_940)
    ensures !IsCurrent(Mode(1920, 1080, 59_960), 1920, 1080, 59_940)
    ensures IsCurrent(Mode(1920, 1080, 59_945), 1920, 1080, 59_940)
    ensures !IsCurrent(Mode(1920, 1080, 59_940), 1920, 1200, 59_940)
  {
  }

  /**
   * The two fixed entries are read as `Enable` and `Disable`, and nothing
   * else is; a `Set: ` selection can only be a mode change or nothing.
   */
  lemma ActionClassified(selection: string)
    ensures ParseAction(selection) == Some(Enable) <==> selection == ENABLE_ENTRY
    ensures ParseAction(selection) == Some(Disable) <==> selection == DISABLE_ENTRY
    ensures StartsWith(selection, SET_PREFIX) ==> ParseAction(selection).None? || ParseAction(selection).value.SetMode?
    ensures !StartsWith(selection, SET_PREFIX) && selection != ENABLE_ENTRY && selection != DISABLE_ENTRY ==>
      ParseAction(selection).None?
  {
    assert ENABLE_ENTRY[..|SET_PREFIX|][0] != SET_PREFIX[0];
    assert DISABLE_ENTRY[..|SET_PREFIX|][0] != SET_PREFIX[0];
  }
}
