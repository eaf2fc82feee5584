/**
 * `run`: query the monitors, let the user pick one, let the user pick an
 * action for it, and turn that action into one backend request. The monitor
 * query and the two launcher replies are inputs; what the launcher is shown
 * and how the run ends are the output.
 */
module App {
  import opened Wrappers
  import opened Text
  import opened Numbers
  import opened Seqs
  import opened Hyprland
  import opened MonitorMenu

  /** The result of asking the backend for the monitor list. */
  datatype Listing = Listed(monitors: seq<Monitor>) | ListFailed

  /** What the launcher returns: the chosen line, taken to be verbatim, or nothing when it fails or is cancelled. */
  datatype Reply = Picked(line: string) | Cancelled

  /** One menu shown to the launcher. */
  datatype Menu = Menu(prompt: string, options: seq<string>)

  datatype RunError =
    | QueryFailed
    | LauncherFailed
    | NameNotParsed
    | MonitorNotFound
    | ActionNotParsed

  /** How a run ends: nothing to do, an error, or one request to the backend. */
  datatype Outcome = NoMonitors | Failed(error: RunError) | Dispatched(call: BackendCall)

  /** The menus shown, in order, and how the run ended. */
  datatype Trace = Trace(menus: seq<Menu>, outcome: Outcome)

  const MONITOR_PROMPT: string := "Select monitor:"

  function ActionPrompt(name: string): string {
    "Action for " + name + ":"
  }

  /** The monitor menu: one line per monitor, in list order. */
  function MonitorOptions(monitors: seq<Monitor>): (options: seq<string>)
    ensures |options| == |monitors|
    ensures forall i :: 0 <= i < |monitors| ==> options[i] == FormatMonitorLine(monitors[i])
  {
    Map(FormatMonitorLine, monitors)
  }

  /** The mode lines of the action menu: one per mode, in order, marked against the current geometry. */
  function ModeOptions(modes: seq<Mode>, width: Int32, height: Int32, refresh: MilliHz): (options: seq<string>)
    ensures |options| == |modes|
    ensures forall i :: 0 <= i < |modes| ==> options[i] == FormatModeLine(modes[i], width, height, refresh)
  {
    Map((mode: Mode) => FormatModeLine(mode, width, height, refresh), modes)
  }

  /** The one entry that switches the monitor off when it is on, and on when it is off. */
  function ToggleEntry(m: Monitor): string {
    if m.dpmsStatus then DISABLE_ENTRY else ENABLE_ENTRY
  }

  /**
   * The action menu: the monitor's parsed modes formatted against its own
   * geometry, then exactly one trailing enable or disable entry.
   */
  function ActionOptions(m: Monitor): (options: seq<string>)
    ensures var modes := ParseModes(m.availableModes);
      && |options| == |modes| + 1
      && options[..|modes|] == ModeOptions(modes, m.width, m.height, m.refresh)
      && (options[|modes|] == DISABLE_ENTRY <==> m.dpmsStatus)
      && (options[|modes|] == ENABLE_ENTRY <==> !m.dpmsStatus)
  {
    var modes := ParseModes(m.availableModes);
    var options := ModeOptions(modes, m.width, m.height, m.refresh) + [ToggleEntry(m)];
    assert options[..|modes|] == ModeOptions(modes, m.width, m.height, m.refresh);
    options
  }

  /** The position of the first monitor called `name`, as `iter().find` picks it. */
  function FirstNamed(monitors: seq<Monitor>, name: string): (r: Option<nat>)
    ensures r.Some? ==> r.value < |monitors| && monitors[r.value].name == name
    ensures r.Some? ==> forall j :: 0 <= j < r.value ==> monitors[j].name != name
    ensures r.None? <==> forall j :: 0 <= j < |monitors| ==> monitors[j].name != name
  {
    if monitors == [] then None
    else if monitors[0].name == name then Some(0)
    else
      match FirstNamed(monitors[1..], name)
      case None => None
      case Some(i) => Some(i + 1)
  }

  /** The result of the monitor menu: the name read from the reply and the monitor it names. */
  datatype Selection = Chosen(name: string, monitor: Monitor) | NotChosen(error: RunError)

  /**
   * Reading the monitor reply: a cancelled launcher, a line without a name,
   * and a name no monitor has are each an error; otherwise the first monitor
   * with that name is chosen.
   */
  function SelectMonitor(monitors: seq<Monitor>, reply: Reply): (s: Selection)
    ensures s == NotChosen(LauncherFailed) <==> reply.Cancelled?
    ensures s == NotChosen(NameNotParsed) <==> reply.Picked? && ParseMonitorName(reply.line).None?
    ensures s.Chosen? ==> reply.Picked? && ParseMonitorName(reply.line) == Some(s.name)
    ensures s.Chosen? ==> s.monitor.name == s.name && s.monitor in monitors
    ensures s.Chosen? ==> FirstNamed(monitors, s.name).Some? && s.monitor == monitors[FirstNamed(monitors, s.name).value]
    ensures s == NotChosen(MonitorNotFound) <==>
      reply.Picked? && ParseMonitorName(reply.line).Some? &&
      forall j :: 0 <= j < |monitors| ==> monitors[j].name != ParseMonitorName(reply.line).value
    ensures s.NotChosen? ==> s.error in {LauncherFailed, NameNotParsed, MonitorNotFound}
  {
    match reply
    case Cancelled => NotChosen(LauncherFailed)
    case Picked(line) =>
      match ParseMonitorName(line)
      case None => NotChosen(NameNotParsed)
      case Some(name) =>
        match FirstNamed(monitors, name)
        case None => NotChosen(MonitorNotFound)
        case Some(i) => Chosen(name, monitors[i])
  }

  /** The backend request for an action, addressed to `name`; a mode change keeps its numbers. */
  function CallFor(action: Action, name: string): (call: BackendCall)
    ensures call.monitor == name
    ensures action.SetMode? ==> call == SetMonitorMode(name, action.width, action.height, action.refresh)
    ensures call.SetMonitorMode? <==> action.SetMode?
    ensures call == EnableMonitor(name) <==> action == Enable
    ensures call == DisableMonitor(name) <==> action == Disable
  {
    match action
    case SetMode(w, h, rate) => SetMonitorMode(name, w, h, rate)
    case Enable => EnableMonitor(name)
    case Disable => DisableMonitor(name)
  }

  /** How the run ends once the action menu has been answered. */
  function ActionOutcome(reply: Reply, name: string): (o: Outcome)
    ensures o.NoMonitors? == false
    ensures o == Failed(LauncherFailed) <==> reply.Cancelled?
    ensures o == Failed(ActionNotParsed) <==> reply.Picked? && ParseAction(reply.line).None?
    ensures o.Dispatched? <==> reply.Picked? && ParseAction(reply.line).Some?
    ensures o.Dispatched? ==> o.call == CallFor(ParseAction(reply.line).value, name)
  {
    match reply
    case Cancelled => Failed(LauncherFailed)
    case Picked(line) =>
      match ParseAction(line)
      case None => Failed(ActionNotParsed)
      case Some(action) => Dispatched(CallFor(action, name))
  }

  /**
   * `run`, step by step: an empty list ends the run before any menu; the
   * monitor menu is always shown next; the action menu only once a monitor
   * is chosen; and a request is made only for a parsed action.
   */
  method Run(listing: Listing, monitorReply: Reply, actionReply: Reply) returns (t: Trace)
    ensures listing.ListFailed? ==> t == Trace([], Failed(QueryFailed))
    ensures listing == Listed([]) ==> t == Trace([], NoMonitors)
    ensures listing.Listed? && listing.monitors != [] ==>
      var monitorMenu := Menu(MONITOR_PROMPT, MonitorOptions(listing.monitors));
      match SelectMonitor(listing.monitors, monitorReply)
      case NotChosen(e) => t == Trace([monitorMenu], Failed(e))
      case Chosen(name, m) =>
        t == Trace([monitorMenu, Menu(ActionPrompt(name), ActionOptions(m))], ActionOutcome(actionReply, name))
  {
    if listing.ListFailed? {
      return Trace([], Failed(QueryFailed));
    }
    var monitors := listing.monitors;
    if |monitors| == 0 {
      return Trace([], NoMonitors);
    }

    var monitorMenu := Menu(MONITOR_PROMPT, MonitorOptions(monitors));
    if monitorReply.Cancelled? {
      return Trace([monitorMenu], Failed(LauncherFailed));
    }
    var monitorName := ParseMonitorName(monitorReply.line);
    if monitorName.None? {
      return Trace([monitorMenu], Failed(NameNotParsed));
    }
    var name := monitorName.value;
    var index := FirstNamed(monitors, name);
    if index.None? {
      return Trace([monitorMenu], Failed(MonitorNotFound));
    }
    var selected := monitors[index.value];

    var parsedModes := ParseModes(selected.availableModes);
    var actionOptions := ModeOptions(parsedModes, selected.width, selected.height, selected.refresh);
    if selected.dpmsStatus {
      actionOptions := actionOptions + [DISABLE_ENTRY];
    } else {
      actionOptions := actionOptions + [ENABLE_ENTRY];
    }
    var actionMenu := Menu(ActionPrompt(name), actionOptions);
    assert actionOptions == ActionOptions(selected);

    if actionReply.Cancelled? {
      return Trace([monitorMenu, actionMenu], Failed(LauncherFailed));
    }
    var action := ParseAction(actionReply.line);
    if action.None? {
      return Trace([monitorMenu, actionMenu], Failed(ActionNotParsed));
    }
    t := Trace([monitorMenu, actionMenu], Dispatched(CallFor(action.value, name)));
  }

  /**
   * Picking a line of the monitor menu selects that monitor, when no
   * description holds `(`, no name holds a parenthesis, and names are unique.
   */
  lemma PickMonitorLine(monitors: seq<Monitor>, i: nat)
    requires i < |monitors|
    requires forall j :: 0 <= j < |monitors| ==> '(' !in monitors[j].description
    requires forall j :: 0 <= j < |monitors| ==> '(' !in monitors[j].name && ')' !in monitors[j].name
    requires forall j, k :: 0 <= j < k < |monitors| ==> monitors[j].name != monitors[k].name
    ensures SelectMonitor(monitors, Picked(MonitorOptions(monitors)[i])) == Chosen(monitors[i].name, monitors[i])
  {
    MonitorLineRoundTrip(monitors[i]);
    var r := FirstNamed(monitors, monitors[i].name);
    assert r.Some?;
    assert r.value == i;
  }

  /**
   * In the action menu as shown, only the trailing entry is an action: every
   * mode line starts with its marker and is rejected.
   */
  lemma OnlyToggleParses(m: Monitor, k: nat)
    requires k < |ActionOptions(m)|
    ensures ParseAction(ActionOptions(m)[k]).Some? <==> k == |ActionOptions(m)| - 1
    ensures k == |ActionOptions(m)| - 1 ==>
      ParseAction(ActionOptions(m)[k]) == Some(if m.dpmsStatus then Disable else Enable)
  {
    var modes := ParseModes(m.availableModes);
    var options := ActionOptions(m);
    ActionClassified(options[k]);
    if k < |modes| {
      assert options[k] == options[..|modes|][k];
      ModeLineRejected(modes[k], m.width, m.height, m.refresh);
    }
  }

  /** The action menu of a monitor holds exactly one enable or disable entry, and it comes last. */
  lemma SingleToggle(m: Monitor)
    ensures var options := ActionOptions(m);
      forall k :: 0 <= k < |options| ==>
        (options[k] == ENABLE_ENTRY || options[k] == DISABLE_ENTRY <==> k == |options| - 1)
  {
    var options := ActionOptions(m);
    forall k | 0 <= k < |options|
      ensures options[k] == ENABLE_ENTRY || options[k] == DISABLE_ENTRY <==> k == |options| - 1
    {
      OnlyToggleParses(m, k);
      ActionClassified(options[k]);
    }
  }
}
