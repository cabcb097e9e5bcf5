/** The four screens of the game, the events they read and the table of legal
    moves between them (PYGAME_312.py lines 41, 60-89, 117-123, 184-190 and
    the driver loop 216-224). */
module Screens {

  import opened Wrappers

  /** The values of `current_state`: "splash", "menu", "name" and "game". */
  datatype Screen = Splash | Menu | NameEntry | Game

  /** What a screen function ends with: the next value of `current_state`, or
      `pygame.quit(); sys.exit()`. */
  datatype Outcome = GoTo(next: Screen) | Terminate

  /** The keys that the name screen and the puzzle tell apart. */
  datatype Key = Return | Backspace | Escape | OtherKey

  /** One event taken from the pygame queue. `unicode` is the text the key
      produced; `x` and `y` are the pointer position. */
  datatype Event =
    | Quit
    | KeyDown(key: Key, unicode: string)
    | MouseDown(button: int, x: int, y: int)
    | OtherEvent

  /** `probe(i, x, y)` says whether menu button `i` (0 "Play", 1 "Player
      name", 2 "Exit") contains the point; pygame's `collidepoint` decides it. */
  type Probe = (nat, int, int) -> bool

  /** The legal moves of the state machine. Nothing returns to the splash
      screen, and the puzzle is reached only from the menu. */
  predicate Legal(from: Screen, out: Outcome)
    ensures Legal(from, out) ==> out != GoTo(Splash)
    ensures Legal(from, out) && out == GoTo(Game) ==> from == Menu
    ensures Legal(from, out) && out == GoTo(NameEntry) ==> from == Menu
  {
    match from
    case Splash => out == GoTo(Menu)
    case Menu => out in {GoTo(Game), GoTo(NameEntry), Terminate}
    case NameEntry => out in {GoTo(Menu), Terminate}
    case Game => out in {GoTo(Menu), Terminate}
  }

  /** `show_splash`: after the welcome message and the two-second wait it
      always moves to the menu, reading no event. */
  function SplashNext(): (out: Outcome)
    ensures Legal(Splash, out)
  {
    GoTo(Menu)
  }

  /** What one event makes the menu do (lines 77-89): a quit event ends the
      program; a mouse press on the first button whose rectangle holds the
      point picks that button (whatever the mouse button); anything else
      leaves the menu where it is. */
  function MenuExit(e: Event, probe: Probe): (r: Option<Outcome>)
    ensures r.Some? ==> Legal(Menu, r.value)
    ensures e.Quit? ==> r == Some(Terminate)
    ensures r.Some? && !e.Quit? ==> e.MouseDown? && exists i :: 0 <= i < 3 && probe(i, e.x, e.y)
    ensures e.MouseDown? && probe(0, e.x, e.y) ==> r == Some(GoTo(Game))
    ensures e.MouseDown? && !probe(0, e.x, e.y) && probe(1, e.x, e.y) ==> r == Some(GoTo(NameEntry))
    ensures e.MouseDown? && !probe(0, e.x, e.y) && !probe(1, e.x, e.y) && probe(2, e.x, e.y) ==> r == Some(Terminate)
  {
    match e
    case Quit => Some(Terminate)
    case MouseDown(_, x, y) =>
      if probe(0, x, y) then Some(GoTo(Game))
      else if probe(1, x, y) then Some(GoTo(NameEntry))
      else if probe(2, x, y) then Some(Terminate)
      else None
    case _ => None
  }

  /** What one event makes the name screen leave with (lines 113-123): quit
      ends the program, Return and Escape go back to the menu. */
  function NameExit(e: Event): (r: Option<Outcome>)
    ensures r.Some? <==> e.Quit? || (e.KeyDown? && (e.key == Return || e.key == Escape))
    ensures r.Some? ==> Legal(NameEntry, r.value) && (r.value == Terminate <==> e.Quit?)
  {
    match e
    case Quit => Some(Terminate)
    case KeyDown(Return, _) => Some(GoTo(Menu))
    case KeyDown(Escape, _) => Some(GoTo(Menu))
    case _ => None
  }

  /** What one event makes the puzzle leave with (lines 185-190): quit ends
      the program, Escape goes back to the menu and discards the puzzle. */
  function GameExit(e: Event): (r: Option<Outcome>)
    ensures r.Some? <==> e.Quit? || (e.KeyDown? && e.key == Escape)
    ensures r.Some? ==> Legal(Game, r.value) && (r.value == Terminate <==> e.Quit?)
  {
    match e
    case Quit => Some(Terminate)
    case KeyDown(Escape, _) => Some(GoTo(Menu))
    case _ => None
  }

  /** The exit rule of the screen that reads events. The splash screen reads
      none. */
  function ExitOn(s: Screen, e: Event, probe: Probe): (r: Option<Outcome>)
    ensures s == Splash ==> r.None?
    ensures r.Some? ==> Legal(s, r.value)
    ensures e.Quit? && s != Splash ==> r == Some(Terminate)
  {
    match s
    case Splash => None
    case Menu => MenuExit(e, probe)
    case NameEntry => NameExit(e)
    case Game => GameExit(e)
  }

  /** Every legal move is taken by some event: the table holds no move the
      program cannot make. */
  lemma LegalIsReachable(s: Screen, out: Outcome)
    requires Legal(s, out)
    ensures s == Splash ==> out == SplashNext()
    ensures s != Splash ==> exists e: Event, probe: Probe :: ExitOn(s, e, probe) == Some(out)
  {
    var none: Probe := (i, x, y) => false;
    match s
    case Splash =>
    case Menu =>
      var p: Probe :=
        if out == GoTo(Game) then (i, x, y) => i == 0
        else if out == GoTo(NameEntry) then (i, x, y) => i == 1
        else (i, x, y) => i == 2;
      assert ExitOn(s, MouseDown(1, 0, 0), p) == Some(out);
    case NameEntry =>
      var e := if out == Terminate then Quit else KeyDown(Return, "");
      assert ExitOn(s, e, none) == Some(out);
    case Game =>
      var e := if out == Terminate then Quit else KeyDown(Escape, "");
      assert ExitOn(s, e, none) == Some(out);
  }

  /** The index of the event that makes screen `s` leave, reading from
      `from`, or `|events|` when no event does. */
  function FirstExit(s: Screen, events: seq<Event>, from: nat, probe: Probe): (k: nat)
    requires from <= |events|
    ensures from <= k <= |events|
    ensures forall j :: from <= j < k ==> ExitOn(s, events[j], probe).None?
    ensures k < |events| ==> ExitOn(s, events[k], probe).Some?
    decreases |events| - from
  {
    if from == |events| then from
    else if ExitOn(s, events[from], probe).Some? then from
    else FirstExit(s, events, from + 1, probe)
  }

  /** `FirstExit` is the first leaving event at or after `from`. */
  lemma {:induction false} FirstExitIs(s: Screen, events: seq<Event>, from: nat, k: nat, probe: Probe)
    requires from <= k <= |events|
    requires forall j :: from <= j < k ==> ExitOn(s, events[j], probe).None?
    requires k < |events| ==> ExitOn(s, events[k], probe).Some?
    ensures FirstExit(s, events, from, probe) == k
    decreases k - from
  {
    if from < k {
      FirstExitIs(s, events, from + 1, k, probe);
    }
  }

  /** How a screen's session ends: the move it asks for (`None` when the
      events run out first) and the position of the first unread event. */
  function SessionEnd(s: Screen, events: seq<Event>, from: nat, probe: Probe): (r: (Option<Outcome>, nat))
    requires from <= |events|
    ensures r.1 <= |events|
    ensures r.0.Some? ==> Legal(s, r.0.value) && from < r.1
  {
    var k := FirstExit(s, events, from, probe);
    if k < |events| then (ExitOn(s, events[k], probe), k + 1) else (None, k)
  }

  /** The name screen and the puzzle never read the menu's buttons. */
  const NoButtons: Probe := (i, x, y) => false

  /** One pass of the driver loop (lines 216-224) on screen `s`, reading
      from `pos`: the splash screen names the menu and reads nothing; the
      others run their session. */
  function ScreenStep(s: Screen, events: seq<Event>, pos: nat, probe: Probe): (r: (Option<Outcome>, nat))
    requires pos <= |events|
    ensures r.1 <= |events|
    ensures r.0.Some? ==> Legal(s, r.0.value)
    ensures r.0.Some? && s != Splash ==> pos < r.1
    ensures s == Splash ==> r == (Some(GoTo(Menu)), pos)
  {
    match s
    case Splash => (Some(SplashNext()), pos)
    case Menu => SessionEnd(Menu, events, pos, probe)
    case _ => SessionEnd(s, events, pos, NoButtons)
  }

  /** `trace` is a run of the driver loop over `events`: visit `k` begins
      at position `ps[k]` and its `ScreenStep` names screen `k + 1` and the
      position where that visit begins. */
  ghost predicate Follows(trace: seq<Screen>, ps: seq<nat>, events: seq<Event>, probe: Probe)
  {
    |ps| == |trace| && (forall k :: 0 <= k < |ps| ==> ps[k] <= |events|) &&
    forall k :: 0 <= k < |trace| - 1 ==>
      ScreenStep(trace[k], events, ps[k], probe) == (Some(GoTo(trace[k + 1])), ps[k + 1])
  }

  /** Extending a run by one step that names `s` at `next`. */
  lemma FollowsSnoc(trace: seq<Screen>, ps: seq<nat>, events: seq<Event>, probe: Probe, s: Screen, next: nat)
    requires Follows(trace, ps, events, probe) && trace != []
    requires ScreenStep(trace[|trace| - 1], events, ps[|ps| - 1], probe) == (Some(GoTo(s)), next)
    ensures Follows(trace + [s], ps + [next], events, probe)
  {
  }

  /** Every screen change along a run is a legal transition. */
  lemma FollowsLegal(trace: seq<Screen>, ps: seq<nat>, events: seq<Event>, probe: Probe)
    requires Follows(trace, ps, events, probe)
    ensures forall k :: 0 <= k < |trace| - 1 ==> Legal(trace[k], GoTo(trace[k + 1]))
  {
  }

  /** How often `s` occurs in `trace`. */
  function Visits(s: Screen, trace: seq<Screen>): nat
  {
    if trace == [] then 0
    else Visits(s, trace[..|trace| - 1]) + (if trace[|trace| - 1] == s then 1 else 0)
  }

  /** `show_menu`: reads events until one picks a move (lines 75-94). The
      frames in between only redraw the buttons. */
  method ShowMenu(events: seq<Event>, from: nat, probe: Probe) returns (out: Option<Outcome>, next: nat)
    requires from <= |events|
    ensures (out, next) == SessionEnd(Menu, events, from, probe)
  {
    next := from;
    while next < |events|
      invariant from <= next <= |events|
      invariant forall j :: from <= j < next ==> MenuExit(events[j], probe).None?
    {
      var e := events[next];
      next := next + 1;
      match e {
        case Quit =>
          return Some(Terminate), next;
        case MouseDown(_, x, y) =>
          if probe(0, x, y) {
            return Some(GoTo(Game)), next;
          } else if probe(1, x, y) {
            return Some(GoTo(NameEntry)), next;
          } else if probe(2, x, y) {
            return Some(Terminate), next;
          }
        case _ =>
      }
    }
    out := None;
  }
}
