/**
 * The Hyprland backend as far as it is pure: the monitor record reported by
 * `hyprctl monitors -j`, the best-effort parser of its `availableModes`
 * strings (`"<W>x<H>@<R>Hz"`), and the rule strings handed to
 * `hyprctl keyword monitor` to set a mode, enable or disable a monitor.
 */
module Hyprland {
  import opened Wrappers
  import opened Text
  import opened Numbers
  import opened Seqs

  /** One entry of a monitor's mode list. */
  datatype Mode = Mode(width: Int32, height: Int32, refresh: MilliHz)

  /**
   * The fields of a monitor the menu reads. `dpmsStatus` is whether the
   * monitor is on; `refresh` is its current refresh rate.
   */
  datatype Monitor = Monitor(
    name: string,
    description: string,
    width: Int32,
    height: Int32,
    refresh: MilliHz,
    focused: bool,
    dpmsStatus: bool,
    availableModes: seq<string>)

  /**
   * One mode string: exactly one `@`, exactly one `x` before it, two
   * `i32` fields, and a refresh rate once every trailing `Hz` is removed.
   * Anything else is `None`.
   */
  function ParseMode(s: string): (r: Option<Mode>)
  {
    var parts := Split(s, "@");
    if |parts| != 2 then None
    else
      var resParts := Split(parts[0], "x");
      if |resParts| != 2 then None
      else
        match (ParseI32(resParts[0]), ParseI32(resParts[1]), ParseRefresh(TrimEndMatches(parts[1], "Hz")))
        case (Some(w), Some(h), Some(rate)) => Some(Mode(w, h, rate))
        case _ => None
  }

  /**
   * `parse_modes`: each string parsed on its own with `filter_map`, the ones
   * that fail dropped, the others kept in order and without deduplication.
   */
  function ParseModes(modeStrings: seq<string>): (modes: seq<Mode>)
    ensures |modes| <= |modeStrings|
  {
    FilterMap(ParseMode, modeStrings)
  }

  /** A string without exactly one `@` is never a mode. */
  lemma ModeNeedsOneAt(s: string)
    requires Count(s, '@') != 1
    ensures ParseMode(s) == None
  {
    SplitCount(s, '@');
  }

  /** A resolution without exactly one `x` is never a mode. */
  lemma ModeNeedsOneX(resolution: string, rate: string)
    requires '@' !in resolution && '@' !in rate
    requires Count(resolution, 'x') != 1
    ensures ParseMode(resolution + "@" + rate) == None
  {
    CharOccursAt(rate, '@');
    SplitAround(resolution, "@", rate);
    SplitCount(resolution, 'x');
  }

  /**
   * Once the separators are where they belong, a mode string is a mode
   * exactly when both sides of the `x` are `i32`s and the rate, stripped of
   * every trailing `Hz`, is a number.
   */
  lemma ModeFields(width: string, height: string, rate: string)
    requires 'x' !in width && 'x' !in height
    requires '@' !in width && '@' !in height && '@' !in rate
    ensures ParseMode(width + "x" + height + "@" + rate) ==
      match (ParseI32(width), ParseI32(height), ParseRefresh(TrimEndMatches(rate, "Hz")))
      case (Some(w), Some(h), Some(r)) => Some(Mode(w, h, r))
      case _ => None
  {
    CharOccursAt(rate, '@');
    SplitAround(width + "x" + height, "@", rate);
    CharOccursAt(height, 'x');
    SplitAround(width, "x", height);
  }

  /** Fields that parse on their own parse together, with or without the `Hz`. */
  lemma WellFormedFields(ws: string, hs: string, rt: string, w: Int32, h: Int32, r: MilliHz)
    requires ParseI32(ws) == Some(w) && ParseI32(hs) == Some(h)
    requires ParseRefresh(rt) == Some(r) && !EndsWith(rt, "Hz")
    requires 'x' !in ws && 'x' !in hs
    requires '@' !in ws && '@' !in hs && '@' !in rt
    ensures ParseMode(ws + "x" + hs + "@" + rt + "Hz") == Some(Mode(w, h, r))
    ensures ParseMode(ws + "x" + hs + "@" + rt) == Some(Mode(w, h, r))
  {
    TrimEndOnce(rt, "Hz");
    assert '@' !in rt + "Hz";
    assert ws + "x" + hs + "@" + rt + "Hz" == ws + "x" + hs + "@" + (rt + "Hz");
    ModeFields(ws, hs, rt + "Hz");
    ModeFields(ws, hs, rt);
  }

  /**
   * Hyprland's own spelling of a mode, `"<W>x<H>@<R:.2>Hz"`, parses to that
   * mode, with the rate as printed; the same text without the `Hz` parses
   * too, since the parser does not insist on the unit.
   */
  lemma ModeStringParses(w: Int32, h: Int32, rate: MilliHz)
    ensures ParseMode(IntText(w) + "x" + IntText(h) + "@" + Render2(rate) + "Hz") == Some(Mode(w, h, Round2(rate)))
    ensures ParseMode(IntText(w) + "x" + IntText(h) + "@" + Render2(rate)) == Some(Mode(w, h, Round2(rate)))
  {
    var ws, hs, rt := IntText(w), IntText(h), Render2(rate);
    IntRoundTrip(w);
    IntRoundTrip(h);
    RefreshRoundTrip(rate);
    assert 'x' !in ws && '@' !in ws && 'x' !in hs && '@' !in hs && '@' !in rt;
    assert !EndsWith(rt, "Hz") by {
      assert rt[|rt| - 2..][1] == rt[|rt| - 1];
    }
    WellFormedFields(ws, hs, rt, w, h, Round2(rate));
  }

  /** A whole number of hundredths of a hertz comes back unchanged. */
  lemma WellFormedModeExact(w: Int32, h: Int32, rate: MilliHz)
    requires rate % 10 == 0
    ensures ParseMode(IntText(w) + "x" + IntText(h) + "@" + Render2(rate) + "Hz") == Some(Mode(w, h, rate))
  {
    Round2Exact(rate);
    ModeStringParses(w, h, rate);
  }

  /**
   * One entry in the middle of the list contributes its own mode, or nothing,
   * at its own position; the entries around it are parsed as if it were absent.
   */
  lemma ParseModesSplice(before: seq<string>, s: string, after: seq<string>)
    ensures ParseMode(s).None? ==> ParseModes(before + [s] + after) == ParseModes(before) + ParseModes(after)
    ensures ParseMode(s).Some? ==>
      ParseModes(before + [s] + after) == ParseModes(before) + [ParseMode(s).value] + ParseModes(after)
  {
    FilterMapSplice(ParseMode, before, s, after);
  }

  /**
   * `ParseModes` returns exactly the modes of the strings that parse, in the
   * order of those strings: the k-th mode comes from the k-th accepted string.
   */
  lemma ParseModesInOrder(modeStrings: seq<string>)
    ensures var idx := Accepted(ParseMode, modeStrings);
      && |ParseModes(modeStrings)| == |idx|
      && (forall k :: 0 <= k < |idx| ==> ParseMode(modeStrings[idx[k]]) == Some(ParseModes(modeStrings)[k]))
      && (forall k, l :: 0 <= k < l < |idx| ==> idx[k] < idx[l])
      && (forall i :: 0 <= i < |modeStrings| ==> (i in idx <==> ParseMode(modeStrings[i]).Some?))
  {
    FilterMapInOrder(ParseMode, modeStrings);
    AcceptedSpec(ParseMode, modeStrings);
  }

  /** The same mode string twice gives the same mode twice: nothing is deduplicated. */
  lemma DuplicatesKept(s: string)
    requires ParseMode(s).Some?
    ensures ParseModes([s, s]) == [ParseMode(s).value, ParseMode(s).value]
  {
    FilterMapAppend(ParseMode, [s], [s]);
    assert [s, s] == [s] + [s];
    assert [s][1..] == [];
  }

  /** `"<W>x<H>@<R:.2>Hz"`: how Hyprland lists a mode. */
  function ModeString(m: Mode): string {
    IntText(m.width) + "x" + IntText(m.height) + "@" + Render2(m.refresh) + "Hz"
  }

  /**
   * Two listed modes around an entry without `@` give exactly those two
   * modes, in order; the malformed entry leaves no trace.
   */
  lemma ModeListExample(m1: Mode, m2: Mode, junk: string)
    requires m1.refresh % 10 == 0 && m2.refresh % 10 == 0
    requires '@' !in junk
    ensures ParseModes([ModeString(m1), junk, ModeString(m2)]) == [m1, m2]
  {
    WellFormedModeExact(m1.width, m1.height, m1.refresh);
    WellFormedModeExact(m2.width, m2.height, m2.refresh);
    ModeNeedsOneAt(junk);
    KeepFirstAndLast(ModeString(m1), junk, ModeString(m2));
  }

  lemma KeepFirstAndLast(s1: string, junk: string, s2: string)
    requires ParseMode(s1).Some? && ParseMode(junk).None? && ParseMode(s2).Some?
    ensures ParseModes([s1, junk, s2]) == [ParseMode(s1).value, ParseMode(s2).value]
  {
    FilterMapSplice(ParseMode, [s1], junk, [s2]);
    FilterMapSingle(ParseMode, s1);
    FilterMapSingle(ParseMode, s2);
    assert [s1, junk, s2] == [s1] + [junk] + [s2];
  }

  /** A request to the control utility. */
  datatype BackendCall =
    | SetMonitorMode(monitor: string, width: Int32, height: Int32, refresh: MilliHz)
    | EnableMonitor(monitor: string)
    | DisableMonitor(monitor: string)

  /**
   * The rule given as `hyprctl keyword monitor <rule>`:
   * `"<name>,<W>x<H>@<R:.2>,auto,1"`, `"<name>,preferred,auto,1"` or
   * `"<name>,disable"`.
   */
  function MonitorRule(call: BackendCall): (rule: string)
    ensures StartsWith(rule, call.monitor + ",")
  {
    match call
    case SetMonitorMode(name, w, h, rate) =>
      var mode := IntText(w) + "x" + IntText(h) + "@" + Render2(rate);
      name + "," + mode + ",auto,1"
    case EnableMonitor(name) => name + ",preferred,auto,1"
    case DisableMonitor(name) => name + ",disable"
  }

  /** The pieces of `<name>,<mode>,auto,1` sit where they were put. */
  lemma RuleSlices(name: string, mode: string)
    ensures var rule := name + "," + mode + ",auto,1";
      && |rule| == |name| + |mode| + 8
      && rule[..|name| + 1] == name + "," && rule[|rule| - 7..] == ",auto,1"
      && rule[|name| + 1..|rule| - 7] == mode
  {
  }

  /** `<W>x<H>@<R>` from integer texts and a two-decimal rate holds no `H`, blank or comma, and ends like the rate. */
  lemma ModeSpelling(ws: string, hs: string, rs: string)
    requires forall c :: c in ws ==> IsDigit(c) || c == '-'
    requires forall c :: c in hs ==> IsDigit(c) || c == '-'
    requires forall c :: c in rs ==> IsDigit(c) || c == '-' || c == '.'
    requires |rs| >= 4 && rs[|rs| - 3] == '.' && IsDigits(rs[|rs| - 2..])
    ensures var mode := ws + "x" + hs + "@" + rs;
      && 'H' !in mode && ' ' !in mode && ',' !in mode
      && mode[|mode| - 3] == '.' && IsDigits(mode[|mode| - 2..])
  {
    var mode := ws + "x" + hs + "@" + rs;
    assert mode[|mode| - 3..] == rs[|rs| - 3..];
  }

  /**
   * The set-mode rule is the name, a comma, the mode text and `,auto,1`.
   * The mode text is `<W>x<H>@` and the rate with exactly two decimals: no
   * `Hz` unit, no blank and no comma.
   */
  lemma SetRuleSpelling(name: string, w: Int32, h: Int32, rate: MilliHz)
    ensures var rule := MonitorRule(SetMonitorMode(name, w, h, rate));
      && |rule| >= |name| + 8
      && rule[..|name| + 1] == name + "," && rule[|rule| - 7..] == ",auto,1"
      && var mode := rule[|name| + 1..|rule| - 7];
      && mode == IntText(w) + "x" + IntText(h) + "@" + Render2(rate)
      && 'H' !in mode && ' ' !in mode && ',' !in mode
      && mode[|mode| - 3] == '.' && IsDigits(mode[|mode| - 2..])
  {
    var ws, hs, rs := IntText(w), IntText(h), Render2(rate);
    Render2Spelling(rate);
    ModeSpelling(ws, hs, rs);
    var mode := ws + "x" + hs + "@" + rs;
    RuleSlices(name, mode);
  }

  /**
   * A reading of a monitor rule back into a request: the name runs up to the
   * first comma; the rest is `disable`, `preferred,auto,1`, or a mode
   * followed by `,auto,1`.
   */
  function DecodeRule(rule: string): Option<BackendCall>
  {
    match Find(rule, ",")
    case None => None
    case Some(i) =>
      var name, tail := rule[..i], rule[i + 1..];
      if tail == "disable" then Some(DisableMonitor(name))
      else if tail == "preferred,auto,1" then Some(EnableMonitor(name))
      else if EndsWith(tail, ",auto,1") then
        match ParseMode(tail[..|tail| - 7])
        case Some(m) => Some(SetMonitorMode(name, m.width, m.height, m.refresh))
        case None => None
      else None
  }

  /** A rule is read back as its name and the text after the first comma. */
  lemma RuleHead(name: string, tail: string)
    requires ',' !in name
    ensures Find(name + "," + tail, ",") == Some(|name|)
    ensures (name + "," + tail)[..|name|] == name && (name + "," + tail)[|name| + 1..] == tail
  {
    FindAfter(name, ",", tail);
    assert (name + "," + tail)[..|name|] == name;
  }

  lemma DisableRuleRoundTrip(name: string)
    requires ',' !in name
    ensures DecodeRule(MonitorRule(DisableMonitor(name))) == Some(DisableMonitor(name))
  {
    assert MonitorRule(DisableMonitor(name)) == name + "," + "disable";
    RuleHead(name, "disable");
  }

  lemma EnableRuleRoundTrip(name: string)
    requires ',' !in name
    ensures DecodeRule(MonitorRule(EnableMonitor(name))) == Some(EnableMonitor(name))
  {
    assert MonitorRule(EnableMonitor(name)) == name + "," + "preferred,auto,1";
    RuleHead(name, "preferred,auto,1");
  }

  /** A rule carrying a mode text that parses is read back as that mode. */
  lemma SetRuleFields(name: string, mode: string, m: Mode)
    requires ',' !in name && ParseMode(mode) == Some(m)
    requires mode != [] && mode[0] != 'd' && mode[0] != 'p'
    ensures DecodeRule(name + "," + mode + ",auto,1") == Some(SetMonitorMode(name, m.width, m.height, m.refresh))
  {
    var tail := mode + ",auto,1";
    assert name + "," + mode + ",auto,1" == name + "," + tail;
    RuleHead(name, tail);
    assert tail[0] == mode[0];
    assert tail != "disable" && tail != "preferred,auto,1";
    assert EndsWith(tail, ",auto,1") && tail[..|tail| - 7] == mode;
  }

  lemma SetModeRuleRoundTrip(name: string, w: Int32, h: Int32, rate: MilliHz)
    requires ',' !in name
    ensures DecodeRule(MonitorRule(SetMonitorMode(name, w, h, rate))) == Some(SetMonitorMode(name, w, h, Round2(rate)))
  {
    var mode := IntText(w) + "x" + IntText(h) + "@" + Render2(rate);
    ModeStringParses(w, h, rate);
    assert mode[0] == IntText(w)[0] && IntText(w)[0] in IntText(w);
    SetRuleFields(name, mode, Mode(w, h, Round2(rate)));
  }

  /**
   * Each rule names the monitor and the request it was built from; only the
   * refresh rate is rounded to the two decimals the rule carries.
   */
  lemma RuleRoundTrip(call: BackendCall)
    requires ',' !in call.monitor
    ensures DecodeRule(MonitorRule(call)) ==
      Some(if call.SetMonitorMode? then call.(refresh := Round2(call.refresh)) else call)
  {
    match call
    case DisableMonitor(name) => DisableRuleRoundTrip(name);
    case EnableMonitor(name) => EnableRuleRoundTrip(name);
    case SetMonitorMode(name, w, h, rate) => SetModeRuleRoundTrip(name, w, h, rate);
  }
}
