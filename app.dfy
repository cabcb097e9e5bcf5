/** The program's global state and its main loop (PYGAME_312.py lines
    39-42, 96-129 and 215-224): `current_state` names the active screen,
    `player_name` is edited on the name screen, and the loop runs the active
    screen's function until it names the next screen. */
module Driver {

  import opened Wrappers
  import opened Screens
  import opened Puzzle
  import opened NameEntry
  import opened PuzzleBoard

  /** How a run of the main loop ends: the program quit, or the events (or
      the pictures drawn for the puzzle) ran out while a screen waited. */
  datatype Ending = Terminated | InputExhausted

  class App {
    /** `current_state`. */
    var current: Screen
    /** `player_name`. */
    var playerName: string

    /** Lines 40-41. */
    constructor ()
      ensures current == Splash && playerName == ""
    {
      current := Splash;
      playerName := "";
    }

    /** One event on the name screen (lines 113-126): quit, Return and
        Escape leave; Backspace drops the last character; any other key
        appends its text while the name is shorter than 15. */
    method NameKey(e: Event) returns (exit: Option<Outcome>)
      modifies this`playerName
      ensures exit == NameExit(e)
      ensures playerName == Edit(old(playerName), e)
    {
      exit := None;
      match e {
        case Quit =>
          exit := Some(Terminate);
        case KeyDown(Return, _) =>
          exit := Some(GoTo(Menu));
        case KeyDown(Backspace, _) =>
          playerName := DropLast(playerName);
        case KeyDown(Escape, _) =>
          exit := Some(GoTo(Menu));
        case KeyDown(OtherKey, text) =>
          if |playerName| < MaxNameLength {
            playerName := playerName + text;
          }
        case _ =>
      }
    }

    /** `name_input`: edit the name with each event until one leaves the
        screen (lines 103-129). */
    method NameInput(events: seq<Event>, from: nat) returns (out: Option<Outcome>, next: nat)
      requires from <= |events|
      modifies this`playerName
      ensures (out, next) == SessionEnd(NameEntry, events, from, NoButtons)
      ensures playerName == TypeKeys(old(playerName), events[from..FirstExit(NameEntry, events, from, NoButtons)])
      ensures SingleChars(events) && |old(playerName)| <= MaxNameLength ==> |playerName| <= MaxNameLength
    {
      ghost var name0 := playerName;
      next := from;
      while next < |events|
        invariant from <= next <= |events|
        invariant forall j :: from <= j < next ==> ExitOn(NameEntry, events[j], NoButtons).None?
        invariant playerName == TypeKeys(name0, events[from..next])
      {
        var e := events[next];
        var exit := NameKey(e);
        if exit.Some? {
          NameSessionEnds(name0, events, from, next);
          return exit, next + 1;
        }
        TypeKeysStep(name0, events, from, next);
        next := next + 1;
      }
      NameSessionEnds(name0, events, from, next);
      out := None;
    }

    /** One pass of the main loop (lines 216-224): run the active screen
        from `pos`; the puzzle takes setup `games`. */
    method Visit(events: seq<Event>, pos: nat, probe: Probe, setups: seq<Setup>, games: nat)
      returns (out: Option<Outcome>, next: nat)
      requires pos <= |events|
      requires current == Game ==> games < |setups| && IsArrangement(setups[games].order)
      modifies this`playerName
      ensures (out, next) == ScreenStep(current, events, pos, probe)
      ensures playerName == NameStep(current, old(playerName), events, pos)
      ensures SingleChars(events) && |old(playerName)| <= MaxNameLength ==> |playerName| <= MaxNameLength
    {
      next := pos;
      match current {
        case Splash =>
          out := Some(SplashNext());
        case Menu =>
          out, next := ShowMenu(events, pos, probe);
        case NameEntry =>
          out, next := NameInput(events, pos);
        case Game =>
          var board;
          out, next, board := RunGame(events, pos, setups[games]);
      }
    }

    /** Lines 216-224: run the active screen and adopt the screen it names,
        until the program quits or the input runs out. `trace` lists the
        screens visited and `ps` the position in `events` at which each
        visit began; each visit is one `ScreenStep` from there. Each entry
        to the puzzle takes the next `setups` entry. */
    method Run(events: seq<Event>, setups: seq<Setup>, probe: Probe)
      returns (trace: seq<Screen>, ending: Ending, ghost ps: seq<nat>)
      requires forall k :: 0 <= k < |setups| ==> IsArrangement(setups[k].order)
      modifies this
      ensures trace != [] && trace[0] == old(current) && trace[|trace| - 1] == current
      ensures Follows(trace, ps, events, probe) && ps[0] == 0
      ensures forall k :: 0 <= k < |trace| - 1 ==> Legal(trace[k], GoTo(trace[k + 1]))
      ensures ending == InputExhausted <==>
        (current == Game && Visits(Game, trace[..|trace| - 1]) == |setups|) ||
        ScreenStep(current, events, ps[|ps| - 1], probe).0.None?
      ensures ending == Terminated ==>
        ScreenStep(current, events, ps[|ps| - 1], probe).0 == Some(Terminate) && Legal(current, Terminate)
      ensures playerName == NameAfter(old(playerName), trace, ps, events)
      ensures NameEntry !in trace ==> playerName == old(playerName)
      ensures SingleChars(events) && |old(playerName)| <= MaxNameLength ==> |playerName| <= MaxNameLength
    {
      ghost var name0 := playerName;
      var pos, games := 0, 0;
      trace, ps := [current], [0];
      // The visits that have ended, and the positions where they began.
      ghost var visited: seq<Screen>, starts: seq<nat> := [], [];
      while true
        invariant pos <= |events| && games <= |setups|
        invariant trace == visited + [current] && ps == starts + [pos] && |starts| == |visited|
        invariant trace[0] == old(current) && ps[0] == 0
        invariant Follows(trace, ps, events, probe)
        invariant games == Visits(Game, visited)
        invariant playerName == NameAfter(name0, visited, starts, events)
        invariant SingleChars(events) && |old(playerName)| <= MaxNameLength ==> |playerName| <= MaxNameLength
        decreases |events| - pos, if current == Splash then 1 else 0
      {
        FollowsLegal(trace, ps, events, probe);
        NameAfterSnoc(name0, visited, starts, events, current, pos);
        NameUntouched(name0, trace, ps, events);
        VisitsSnoc(Game, visited, current);
        assert trace[..|trace| - 1] == visited;
        if current == Game && games == |setups| {
          ending := InputExhausted;
          return;
        }
        var out, next := Visit(events, pos, probe, setups, games);
        if current == Game {
          games := games + 1;
        }
        match out {
          case None =>
            ending := InputExhausted;
            return;
          case Some(Terminate) =>
            ending := Terminated;
            return;
          case Some(GoTo(s)) =>
            FollowsSnoc(trace, ps, events, probe, s, next);
            visited, starts := trace, ps;
            pos := next;
            current := s;
            trace, ps := trace + [s], ps + [next];
        }
      }
    }
  }

  /** Appending a screen adds one visit exactly when it is `s`. */
  lemma VisitsSnoc(s: Screen, trace: seq<Screen>, t: Screen)
    ensures Visits(s, trace + [t]) == Visits(s, trace) + (if t == s then 1 else 0)
  {
    assert (trace + [t])[..|trace|] == trace;
  }

  /** The name after one visit to screen `s` that reads `events` from
      `from`: the name screen applies the edits of the events it read before
      it left; the other screens leave the name alone, and so does a visit
      that starts past the end of the events. */
  ghost function NameStep(s: Screen, name: string, events: seq<Event>, from: nat): string
  {
    if s == NameEntry && from <= |events|
    then TypeKeys(name, events[from..FirstExit(NameEntry, events, from, NoButtons)])
    else name
  }

  /** The name after a run of the main loop: each visit, in order, applies
      its `NameStep`. */
  ghost function NameAfter(name: string, trace: seq<Screen>, ps: seq<nat>, events: seq<Event>): string
    requires |ps| == |trace|
    decreases |trace|
  {
    if trace == [] then name
    else
      NameStep(trace[|trace| - 1], NameAfter(name, trace[..|trace| - 1], ps[..|ps| - 1], events),
               events, ps[|ps| - 1])
  }

  /** A run that never visits the name screen leaves the name alone. */
  lemma {:induction false} NameUntouched(name: string, trace: seq<Screen>, ps: seq<nat>, events: seq<Event>)
    requires |ps| == |trace|
    ensures NameEntry !in trace ==> NameAfter(name, trace, ps, events) == name
    decreases |trace|
  {
    if trace != [] && NameEntry !in trace {
      assert trace == trace[..|trace| - 1] + [trace[|trace| - 1]];
      NameUntouched(name, trace[..|trace| - 1], ps[..|ps| - 1], events);
    }
  }

  /** One more visit applies its `NameStep` to the name the earlier visits left. */
  lemma NameAfterSnoc(name: string, trace: seq<Screen>, ps: seq<nat>, events: seq<Event>, s: Screen, next: nat)
    requires |ps| == |trace|
    ensures NameAfter(name, trace + [s], ps + [next], events) ==
      NameStep(s, NameAfter(name, trace, ps, events), events, next)
  {
    assert (trace + [s])[..|trace|] == trace;
    assert (ps + [next])[..|ps|] == ps;
  }

  lemma TypeKeysStep(name: string, events: seq<Event>, from: nat, next: nat)
    requires from <= next < |events|
    ensures TypeKeys(name, events[from..next + 1]) == Edit(TypeKeys(name, events[from..next]), events[next])
  {
    var done, e := events[from..next], events[next];
    assert events[from..next + 1] == done + [e];
    TypeKeysLast(name, done, e);
  }

  /** The name screen stops at `k`: the first leaving event, or the end. */
  lemma NameSessionEnds(name: string, events: seq<Event>, from: nat, k: nat)
    requires from <= k <= |events|
    requires forall j :: from <= j < k ==> ExitOn(NameEntry, events[j], NoButtons).None?
    requires k < |events| ==> NameExit(events[k]).Some?
    ensures FirstExit(NameEntry, events, from, NoButtons) == k
    ensures SingleChars(events) && |name| <= MaxNameLength ==> |TypeKeys(name, events[from..k])| <= MaxNameLength
  {
    FirstExitIs(NameEntry, events, from, k, NoButtons);
    if SingleChars(events) && |name| <= MaxNameLength {
      SingleCharsSlice(events, from, k);
      TypeKeysBounded(name, events[from..k]);
    }
  }
}
