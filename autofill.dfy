/**
 * The copy panel's one-click autofill: focus the Riot Client window (or ask the
 * operator to click it), then paste the username, press Tab, paste the
 * password and press Enter, through the OS clipboard and synthetic keystrokes.
 *
 * The OS layer is abstracted to a trace of events. Its inputs are the two
 * optional libraries (keystroke injection, window control), what the window
 * search sees, and the first injected step, if any, at which the OS layer raises.
 */
module Autofill {
  import opened Wrappers
  import opened Strings

  /** Modifier of the paste hotkey on a non-macOS host ("command" on macOS). */
  const PasteModifier := "ctrl"
  const PrimaryTitle := "Riot"
  const FallbackTitle := "Riot Client"

  /** Scheduling delay before the injection when the window was activated. */
  const FocusedDelayMs: nat := 400
  /** Scheduling delay that leaves the operator time to click the window by hand. */
  const UnfocusedDelayMs: nat := 2000
  const PasteSettleMs: nat := 100
  const TabSettleMs: nat := 50
  const SubmitDelayMs: nat := 300
  const FilledToastMs: nat := 500

  const FocusHint := "Click the Riot window"
  const FilledMessage := "Filled!"
  const MissingKeystrokesTitle := "pyautogui missing"
  const AutofillFailedTitle := "Autofill failed"

  /** Which optional libraries imported: pyautogui (keystrokes) and pygetwindow (window control). */
  datatype Capabilities = Capabilities(keystrokes: bool, windowControl: bool)

  /** What the window library sees: the open windows' titles, and whether its query or its activate call raises. */
  datatype WindowLayer = WindowLayer(titles: seq<string>, queryRaises: bool, activateRaises: bool)

  datatype Event =
    | ShowError(title: string)         // a modal error box
    | Toast(message: string)           // the panel's transient label
    | Activate(title: string)          // window brought to the front
    | DropTopmost                      // the panel stops being always-on-top
    | After(ms: nat)                   // the rest of the sequence is scheduled after `ms`
    | ClipboardClear
    | ClipboardAppend(text: string)
    | Hotkey(modifier: string, key: string)
    | Press(key: string)
    | Sleep(ms: nat)                   // blocking pause
    | Destroy                          // the application, and with it the panel, is torn down

  /** Events that reach another application: clipboard writes and keystrokes. */
  predicate IsInjection(e: Event) {
    e.ClipboardClear? || e.ClipboardAppend? || e.Hotkey? || e.Press?
  }

  function Injections(events: seq<Event>): seq<Event> {
    if events == [] then []
    else (if IsInjection(events[0]) then [events[0]] else []) + Injections(events[1..])
  }

  function ApplyToClipboard(clipboard: string, e: Event): string {
    match e
    case ClipboardClear => ""
    case ClipboardAppend(text) => clipboard + text
    case _ => clipboard
  }

  /** The clipboard's content after `events`, starting from `clipboard`. */
  function ClipboardAfter(clipboard: string, events: seq<Event>): string
    decreases |events|
  {
    if events == [] then clipboard
    else ApplyToClipboard(ClipboardAfter(clipboard, events[..|events| - 1]), events[|events| - 1])
  }

  // ---------------------------------------------------------------------------
  // Window search
  // ---------------------------------------------------------------------------

  /** `getWindowsWithTitle(query)`: the open windows whose title contains `query`, in order. */
  function WindowsWithTitle(titles: seq<string>, query: string): (r: seq<string>)
    ensures forall w | w in r :: w in titles && Contains(w, query)
    ensures forall w | w in titles && Contains(w, query) :: w in r
  {
    if titles == [] then []
    else (if Contains(titles[0], query) then [titles[0]] else []) + WindowsWithTitle(titles[1..], query)
  }

  /** The first window `getWindowsWithTitle` returns is the first title, in order, that contains the query. */
  lemma {:induction false} FirstWindowIsFirstMatch(titles: seq<string>, query: string)
    ensures var r := WindowsWithTitle(titles, query);
      r != [] ==>
        exists k | 0 <= k < |titles| ::
          && r[0] == titles[k]
          && Contains(titles[k], query)
          && forall j | 0 <= j < k :: !Contains(titles[j], query)
  {
    if titles != [] && !Contains(titles[0], query) {
      var r := WindowsWithTitle(titles[1..], query);
      FirstWindowIsFirstMatch(titles[1..], query);
      if r != [] {
        var k :| 0 <= k < |titles[1..]| && r[0] == titles[1..][k] && Contains(titles[1..][k], query)
          && forall j | 0 <= j < k :: !Contains(titles[1..][j], query);
        assert forall j | 0 <= j < k + 1 :: !Contains(titles[j], query) by {
          forall j | 0 <= j < k + 1 ensures !Contains(titles[j], query) {
            if j > 0 {
              assert titles[j] == titles[1..][j - 1];
            }
          }
        }
        assert r[0] == titles[k + 1];
      }
    }
  }

  /** The window the search would activate: the first "Riot" hit, else the first "Riot Client" hit. */
  function SearchTarget(titles: seq<string>): Option<string> {
    var hits := WindowsWithTitle(titles, PrimaryTitle);
    var candidates := if hits == [] then WindowsWithTitle(titles, FallbackTitle) else hits;
    if candidates == [] then None else Some(candidates[0])
  }

  /** The retry with "Riot Client" never finds a window that the search for "Riot" missed. */
  lemma FallbackSearchFindsNothingNew(titles: seq<string>)
    ensures WindowsWithTitle(titles, PrimaryTitle) == [] ==> WindowsWithTitle(titles, FallbackTitle) == []
    ensures SearchTarget(titles).Some? <==> exists w | w in titles :: Contains(w, PrimaryTitle)
  {
    assert FallbackTitle == PrimaryTitle + " Client";
    forall w | w in WindowsWithTitle(titles, FallbackTitle)
      ensures w in WindowsWithTitle(titles, PrimaryTitle)
    {
      ContainsPrefixOf(w, PrimaryTitle, " Client");
    }
    if exists w | w in titles :: Contains(w, PrimaryTitle) {
      var w :| w in titles && Contains(w, PrimaryTitle);
      assert w in WindowsWithTitle(titles, PrimaryTitle);
    }
  }

  /** `candidates[0]` is the first window, in order, whose title contains "Riot". */
  lemma SearchTargetIsFirstRiotWindow(titles: seq<string>)
    ensures SearchTarget(titles).Some? ==>
      exists k | 0 <= k < |titles| ::
        && SearchTarget(titles).value == titles[k]
        && Contains(titles[k], PrimaryTitle)
        && forall j | 0 <= j < k :: !Contains(titles[j], PrimaryTitle)
  {
    var hits := WindowsWithTitle(titles, PrimaryTitle);
    FallbackSearchFindsNothingNew(titles);
    if hits != [] {
      assert SearchTarget(titles) == Some(hits[0]);
      FirstWindowIsFirstMatch(titles, PrimaryTitle);
    }
  }

  // ---------------------------------------------------------------------------
  // The sequence as a function of its inputs
  // ---------------------------------------------------------------------------

  /** `focused` in autofocus_and_autofill: a window was found and activated without an exception. */
  predicate Focused(caps: Capabilities, layer: WindowLayer) {
    caps.windowControl && !layer.queryRaises && SearchTarget(layer.titles).Some? && !layer.activateRaises
  }

  function FocusPhase(caps: Capabilities, layer: WindowLayer): seq<Event> {
    if Focused(caps, layer) then [Activate(SearchTarget(layer.titles).value), After(FocusedDelayMs)]
    else [Toast(FocusHint), DropTopmost, After(UnfocusedDelayMs)]
  }

  /** Step `i` of the body of do_autofill's `try`. */
  function InjectionStep(username: string, password: string, i: nat): Event
    requires i < 14
  {
    match i
    case 0 => ClipboardClear
    case 1 => ClipboardAppend(Sanitize(username))
    case 2 => Hotkey(PasteModifier, "v")
    case 3 => Sleep(PasteSettleMs)
    case 4 => Press("tab")
    case 5 => Sleep(TabSettleMs)
    case 6 => ClipboardClear
    case 7 => ClipboardAppend(Sanitize(password))
    case 8 => Hotkey(PasteModifier, "v")
    case 9 => Sleep(SubmitDelayMs)
    case 10 => Press("enter")
    case 11 => Toast(FilledMessage)
    case 12 => Sleep(FilledToastMs)
    case 13 => Destroy
  }

  /** The body of do_autofill's `try`, step by step. */
  function InjectionSteps(username: string, password: string): (r: seq<Event>)
    ensures |r| == 14
    ensures forall i | 0 <= i < 14 :: r[i] == InjectionStep(username, password, i)
  {
    seq(14, i requires 0 <= i < 14 => InjectionStep(username, password, i))
  }

  /** How many injection steps complete: all of them, or those before the step that raises. */
  function Reached(fault: Option<nat>, n: nat): nat {
    if fault.Some? && fault.value < n then fault.value else n
  }

  predicate Faulted(fault: Option<nat>) {
    fault.Some? && fault.value < 14
  }

  function InjectionRun(username: string, password: string, fault: Option<nat>): seq<Event> {
    var steps := InjectionSteps(username, password);
    var k := Reached(fault, |steps|);
    steps[..k] + (if k < |steps| then [ShowError(AutofillFailedTitle)] else [])
  }

  /** Everything one press of the autofill button causes, in order. */
  function AutofillTrace(username: string, password: string, caps: Capabilities, layer: WindowLayer, fault: Option<nat>): seq<Event> {
    if !caps.keystrokes then [ShowError(MissingKeystrokesTitle)]
    else FocusPhase(caps, layer) + InjectionRun(username, password, fault)
  }

  // ---------------------------------------------------------------------------
  // Properties of the sequence
  // ---------------------------------------------------------------------------

  /** Without pyautogui the button only shows an error: no clipboard write, no keystroke. */
  lemma MissingKeystrokesInjectsNothing(username: string, password: string, caps: Capabilities,
                                        layer: WindowLayer, fault: Option<nat>, clipboard: string)
    requires !caps.keystrokes
    ensures var trace := AutofillTrace(username, password, caps, layer, fault);
      && Injections(trace) == []
      && ClipboardAfter(clipboard, trace) == clipboard
      && Destroy !in trace
  {
    var trace := AutofillTrace(username, password, caps, layer, fault);
    assert trace[..0] == [];
  }

  /**
   * With pyautogui the injection is scheduled 400 ms later exactly when a Riot
   * window was activated; otherwise the panel drops always-on-top, asks for a
   * click and waits 2000 ms.
   */
  lemma FocusDelay(username: string, password: string, caps: Capabilities, layer: WindowLayer, fault: Option<nat>)
    requires caps.keystrokes
    ensures var trace := AutofillTrace(username, password, caps, layer, fault);
      && (Focused(caps, layer) ==> trace[..2] == [Activate(SearchTarget(layer.titles).value), After(FocusedDelayMs)])
      && (!Focused(caps, layer) ==> trace[..3] == [Toast(FocusHint), DropTopmost, After(UnfocusedDelayMs)])
      && (DropTopmost in trace <==> !Focused(caps, layer))
  {
    var trace := AutofillTrace(username, password, caps, layer, fault);
    var run := InjectionRun(username, password, fault);
    assert DropTopmost !in InjectionSteps(username, password);
    assert DropTopmost !in run by {
      var k := Reached(fault, 14);
      assert run == InjectionSteps(username, password)[..k] + (if k < 14 then [ShowError(AutofillFailedTitle)] else []);
      forall i | 0 <= i < |run| ensures run[i] != DropTopmost {
        if i < k {
          assert run[i] == InjectionSteps(username, password)[i];
        }
      }
    }
    assert trace == FocusPhase(caps, layer) + run;
  }

  lemma InjectionsAppend(a: seq<Event>, b: seq<Event>)
    ensures Injections(a + b) == Injections(a) + Injections(b)
  {
    if a != [] {
      assert (a + b)[0] == a[0];
      assert (a + b)[1..] == a[1..] + b;
      InjectionsAppend(a[1..], b);
    } else {
      assert a + b == b;
    }
  }

  lemma InjectionsFrom(events: seq<Event>, i: nat)
    requires i < |events|
    ensures Injections(events[i..]) == (if IsInjection(events[i]) then [events[i]] else []) + Injections(events[i + 1..])
  {
    assert events[i..][0] == events[i] && events[i..][1..] == events[i + 1..];
  }

  /** The injected events of the password half of the step list. */
  lemma PasswordHalfInjections(username: string, password: string)
    ensures Injections(InjectionSteps(username, password)[6..]) ==
      [ClipboardClear, ClipboardAppend(Sanitize(password)), Hotkey(PasteModifier, "v"), Press("enter")]
  {
    var s := InjectionSteps(username, password);
    assert Injections(s[14..]) == [];
    InjectionsFrom(s, 13);
    InjectionsFrom(s, 12);
    InjectionsFrom(s, 11);
    InjectionsFrom(s, 10);
    InjectionsFrom(s, 9);
    InjectionsFrom(s, 8);
    InjectionsFrom(s, 7);
    InjectionsFrom(s, 6);
  }

  /** The injected events of the complete step list, unrolled from the end. */
  lemma StepInjections(username: string, password: string)
    ensures Injections(InjectionSteps(username, password)) ==
      [ ClipboardClear, ClipboardAppend(Sanitize(username)), Hotkey(PasteModifier, "v"), Press("tab"),
        ClipboardClear, ClipboardAppend(Sanitize(password)), Hotkey(PasteModifier, "v"), Press("enter") ]
  {
    var s := InjectionSteps(username, password);
    PasswordHalfInjections(username, password);
    InjectionsFrom(s, 5);
    InjectionsFrom(s, 4);
    InjectionsFrom(s, 3);
    InjectionsFrom(s, 2);
    InjectionsFrom(s, 1);
    InjectionsFrom(s, 0);
    assert s[0..] == s;
  }

  /**
   * A run that does not raise sends exactly: clipboard := sanitize(username),
   * paste, Tab, clipboard := sanitize(password), paste, Enter.
   */
  lemma CompletedRunInjections(username: string, password: string, caps: Capabilities, layer: WindowLayer, fault: Option<nat>)
    requires caps.keystrokes && !Faulted(fault)
    ensures Injections(AutofillTrace(username, password, caps, layer, fault)) ==
      [ ClipboardClear, ClipboardAppend(Sanitize(username)), Hotkey(PasteModifier, "v"), Press("tab"),
        ClipboardClear, ClipboardAppend(Sanitize(password)), Hotkey(PasteModifier, "v"), Press("enter") ]
  {
    var steps := InjectionSteps(username, password);
    assert steps[..14] == steps;
    assert InjectionRun(username, password, fault) == steps;
    InjectionsAppend(FocusPhase(caps, layer), steps);
    var focus := FocusPhase(caps, layer);
    InjectionsFrom(focus, 0);
    InjectionsFrom(focus, 1);
    if !Focused(caps, layer) {
      InjectionsFrom(focus, 2);
    }
    StepInjections(username, password);
  }

  /** At each paste the clipboard holds what is meant to be pasted: the sanitised username, then the sanitised password. */
  lemma ClipboardAtEachPaste(username: string, password: string, clipboard: string)
    ensures var steps := InjectionSteps(username, password);
      && steps[2] == Hotkey(PasteModifier, "v") && ClipboardAfter(clipboard, steps[..2]) == Sanitize(username)
      && steps[8] == Hotkey(PasteModifier, "v") && ClipboardAfter(clipboard, steps[..8]) == Sanitize(password)
      && ClipboardAfter(clipboard, steps) == Sanitize(password)
  {
    var steps := InjectionSteps(username, password);
    assert steps[..2][..1] == steps[..1] && steps[..1][..0] == [];
    assert ClipboardAfter(clipboard, steps[..1]) == "";
    assert ClipboardAfter(clipboard, steps[..2]) == Sanitize(username);
    assert steps[..8][..7] == steps[..7] && steps[..7][..6] == steps[..6];
    assert ClipboardAfter(clipboard, steps[..7]) == "";
    assert ClipboardAfter(clipboard, steps[..8]) == Sanitize(password);
    var k := 8;
    while k < 14
      invariant 8 <= k <= 14
      invariant ClipboardAfter(clipboard, steps[..k]) == Sanitize(password)
    {
      assert steps[..k + 1][..k] == steps[..k];
      k := k + 1;
    }
    assert steps[..14] == steps;
  }

  /**
   * The application is torn down only when every step went through; when a
   * step raises, the error is shown and the panel stays open.
   */
  lemma DestroyedOnlyOnSuccess(username: string, password: string, caps: Capabilities, layer: WindowLayer, fault: Option<nat>)
    ensures var trace := AutofillTrace(username, password, caps, layer, fault);
      && (Destroy in trace <==> caps.keystrokes && !Faulted(fault))
      && (ShowError(AutofillFailedTitle) in trace <==> caps.keystrokes && Faulted(fault))
  {
    var trace := AutofillTrace(username, password, caps, layer, fault);
    var steps := InjectionSteps(username, password);
    var k := Reached(fault, 14);
    assert Destroy !in FocusPhase(caps, layer) && ShowError(AutofillFailedTitle) !in FocusPhase(caps, layer);
    assert ShowError(AutofillFailedTitle) !in steps;
    if k < 14 {
      forall i | 0 <= i < k ensures steps[..k][i] != Destroy {
        assert steps[..k][i] == steps[i];
      }
    }
    if caps.keystrokes {
      assert trace == FocusPhase(caps, layer) + (steps[..k] + (if k < 14 then [ShowError(AutofillFailedTitle)] else []));
      if !Faulted(fault) {
        assert steps[..k] == steps && steps[13] == Destroy;
      }
    }
  }

  // ---------------------------------------------------------------------------
  // The panel and the OS state it drives
  // ---------------------------------------------------------------------------

  class CopyPanel {
    /** The credentials copied into the panel when it opened. */
    const username: string
    const password: string
    var topmost: bool
    var clipboard: string
    var destroyed: bool
    /** Every event so far, oldest first. */
    var trace: seq<Event>
    ghost const initialClipboard: string

    ghost predicate Valid()
      reads this
    {
      && clipboard == ClipboardAfter(initialClipboard, trace)
      && destroyed == (Destroy in trace)
      && topmost == (DropTopmost !in trace)
    }

    constructor (username: string, password: string, clipboard: string)
      ensures Valid()
      ensures this.username == username && this.password == password && this.clipboard == clipboard
      ensures trace == [] && topmost && !destroyed
    {
      this.username := username;
      this.password := password;
      this.clipboard := clipboard;
      this.initialClipboard := clipboard;
      topmost := true;
      destroyed := false;
      trace := [];
    }

    /** One OS call that completes. */
    method Emit(e: Event)
      requires Valid()
      modifies this
      ensures Valid()
      ensures trace == old(trace) + [e]
    {
      assert (trace + [e])[..|trace|] == trace;
      trace := trace + [e];
      match e {
        case ClipboardClear => clipboard := "";
        case ClipboardAppend(text) => clipboard := clipboard + text;
        case Destroy => destroyed := true;
        case DropTopmost => topmost := false;
        case _ =>
      }
    }

    /**
     * The injection steps before `lo` have completed since `start` and none of
     * them raised.
     */
    ghost predicate InjectedUpTo(lo: nat, fault: Option<nat>, start: seq<Event>)
      reads this
    {
      && lo <= 14
      && !(fault.Some? && fault.value < lo)
      && trace == start + InjectionSteps(username, password)[..lo]
    }

    /**
     * Injection step `index`, the OS call `e`: it raises if it is the faulting
     * step, and otherwise completes.
     */
    method Perform(e: Event, index: nat, fault: Option<nat>, ghost start: seq<Event>) returns (o: Outcome<string>)
      requires Valid() && index < 14 && InjectedUpTo(index, fault, start)
      requires e == InjectionStep(username, password, index)
      modifies this
      ensures Valid()
      ensures o.Pass? <==> fault != Some(index)
      ensures trace == start + InjectionSteps(username, password)[..Reached(fault, index + 1)]
    {
      if fault == Some(index) {
        return Fail("exception from the OS layer");
      }
      ghost var steps := InjectionSteps(username, password);
      assert steps[..index + 1] == steps[..index] + [e];
      Emit(e);
      o := Pass;
    }

    /** Put `text` on the clipboard and paste it with the paste hotkey: steps `index` to `index + 2`. */
    method Paste(text: string, index: nat, fault: Option<nat>, ghost start: seq<Event>) returns (o: Outcome<string>)
      requires Valid() && index + 3 <= 14 && InjectedUpTo(index, fault, start)
      requires InjectionStep(username, password, index) == ClipboardClear
      requires InjectionStep(username, password, index + 1) == ClipboardAppend(text)
      requires InjectionStep(username, password, index + 2) == Hotkey(PasteModifier, "v")
      modifies this
      ensures Valid()
      ensures o.Pass? <==> !(fault.Some? && fault.value < index + 3)
      ensures trace == start + InjectionSteps(username, password)[..Reached(fault, index + 3)]
    {
      o := Perform(ClipboardClear, index, fault, start);
      if o.Fail? { return; }
      :- Perform(ClipboardAppend(text), index + 1, fault, start);
      o := Perform(Hotkey(PasteModifier, "v"), index + 2, fault, start);
    }

    /** Steps 0 to 8: paste the username, press Tab, paste the password. */
    method TypeCredentials(fault: Option<nat>, ghost start: seq<Event>) returns (o: Outcome<string>)
      requires Valid() && trace == start
      modifies this
      ensures Valid()
      ensures o.Pass? <==> !(fault.Some? && fault.value < 9)
      ensures trace == start + InjectionSteps(username, password)[..Reached(fault, 9)]
    {
      o := Paste(Sanitize(username), 0, fault, start);
      if o.Fail? { return; }
      :- Perform(Sleep(PasteSettleMs), 3, fault, start);
      :- Perform(Press("tab"), 4, fault, start);
      :- Perform(Sleep(TabSettleMs), 5, fault, start);
      o := Paste(Sanitize(password), 6, fault, start);
    }

    /** Steps 9 to 13: press Enter, confirm, and tear the application down. */
    method Submit(fault: Option<nat>, ghost start: seq<Event>) returns (o: Outcome<string>)
      requires Valid() && InjectedUpTo(9, fault, start)
      modifies this
      ensures Valid()
      ensures o.Pass? <==> !(fault.Some? && fault.value < 14)
      ensures trace == start + InjectionSteps(username, password)[..Reached(fault, 14)]
    {
      o := Perform(Sleep(SubmitDelayMs), 9, fault, start);
      if o.Fail? { return; }
      :- Perform(Press("enter"), 10, fault, start);
      :- Perform(Toast(FilledMessage), 11, fault, start);
      :- Perform(Sleep(FilledToastMs), 12, fault, start);
      o := Perform(Destroy, 13, fault, start);
    }

    /** The `try` body of do_autofill, stopping at the first step that raises. */
    method InjectCredentials(fault: Option<nat>) returns (o: Outcome<string>)
      requires Valid()
      modifies this
      ensures Valid()
      ensures o.Pass? <==> !Faulted(fault)
      ensures trace == old(trace) + InjectionSteps(username, password)[..Reached(fault, 14)]
    {
      ghost var start := trace;
      :- TypeCredentials(fault, start);
      o := Submit(fault, start);
    }

    /** do_autofill: the injection, and an error box if a step raised. */
    method DoAutofill(fault: Option<nat>)
      requires Valid()
      modifies this
      ensures Valid()
      ensures trace == old(trace) + InjectionRun(username, password, fault)
    {
      var o := InjectCredentials(fault);
      if o.Fail? {
        Emit(ShowError(AutofillFailedTitle));
      }
    }

    /**
     * The focusing half of autofocus_and_autofill: activate the first window the
     * search finds, or drop always-on-top and ask for a click; then schedule
     * the injection.
     */
    method FocusRiotWindow(caps: Capabilities, layer: WindowLayer)
      requires Valid()
      modifies this
      ensures Valid()
      ensures trace == old(trace) + FocusPhase(caps, layer)
    {
      var focused := false;
      if caps.windowControl && !layer.queryRaises {
        var candidates := WindowsWithTitle(layer.titles, PrimaryTitle);
        if candidates == [] {
          candidates := WindowsWithTitle(layer.titles, FallbackTitle);
        }
        if candidates != [] && !layer.activateRaises {
          Emit(Activate(candidates[0]));
          focused := true;
        }
      }
      if !focused {
        Emit(Toast(FocusHint));
        Emit(DropTopmost);
        Emit(After(UnfocusedDelayMs));
      } else {
        Emit(After(FocusedDelayMs));
      }
    }

    /**
     * One press of the autofill button on a live application: autofocus_and_autofill
     * followed by the do_autofill it schedules, with no other handler in between.
     */
    method AutofocusAndAutofill(caps: Capabilities, layer: WindowLayer, fault: Option<nat>)
      requires Valid() && !destroyed
      modifies this
      ensures Valid()
      ensures trace == old(trace) + AutofillTrace(username, password, caps, layer, fault)
    {
      if !caps.keystrokes {
        Emit(ShowError(MissingKeystrokesTitle));
        return;
      }
      FocusRiotWindow(caps, layer);
      DoAutofill(fault);
    }
  }
}
