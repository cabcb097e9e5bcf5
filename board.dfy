/** The running puzzle of `run_game` (PYGAME_312.py lines 132-213) as an
    object: the working list of tiles is an array swapped in place, and the
    selection, counter and flag are fields the click handler reassigns. */
module PuzzleBoard {

  import opened Wrappers
  import opened Geometry
  import opened Screens
  import opened Puzzle

  /** What entering the puzzle screen draws at random: the chosen picture's
      size and the order `random.shuffle` leaves the fragments in. */
  datatype Setup = Setup(width: nat, height: nat, order: seq<Tile>)

  class Board {
    /** `tiles`: grid position `i` shows fragment `tiles[i]`. */
    const tiles: array<Tile>
    /** `origin_tiles`. */
    const origin: seq<Tile>
    /** The picture region of each fragment. */
    const cuts: seq<Rect>
    const tileWidth: nat
    const tileHeight: nat
    var selected: Option<nat>
    var swaps: nat
    var completed: bool

    ghost predicate Valid()
      reads this, tiles
    {
      tiles.Length == TileCount && origin == Origin() && |cuts| == TileCount &&
      Puzzle.Valid(Current())
    }

    /** The puzzle state the object holds. */
    function Current(): State
      reads this, tiles
    {
      State(tiles[..], selected, swaps, completed)
    }

    /** Lines 143-159: size the fragments, cut them row by row, keep the cut
        order as the origin and start from the shuffled order. */
    constructor (imageWidth: nat, imageHeight: nat, shuffled: seq<Tile>)
      requires IsArrangement(shuffled)
      ensures Valid() && fresh(tiles)
      ensures Current() == Start(shuffled)
      ensures tileWidth == TileWidth(imageWidth) && tileHeight == TileHeight(imageHeight)
      ensures forall k :: 0 <= k < TileCount ==> cuts[k] == CutRect(k, tileWidth, tileHeight)
    {
      tileWidth := TileWidth(imageWidth);
      tileHeight := TileHeight(imageHeight);
      var c := SliceImage(imageWidth, imageHeight);
      cuts := c;
      origin := Origin();
      tiles := new Tile[TileCount](k requires 0 <= k < TileCount => shuffled[k]);
      selected := None;
      swaps := 0;
      completed := false;
      new;
      assert tiles[..] == shuffled;
    }

    /** Lines 199-207: the click on grid position `i`. */
    method ClickTile(i: nat)
      requires Valid() && i < TileCount
      modifies this, tiles
      ensures Valid()
      ensures Current() == Click(old(Current()), i)
    {
      if selected.Some? && selected.value != i {
        var s := selected.value;
        ghost var before := tiles[..];
        tiles[i], tiles[s] := tiles[s], tiles[i];
        assert tiles[..] == Swap(before, i, s);
        selected := None;
        swaps := swaps + 1;
        completed := IsCompleted(tiles[..], origin);
      } else if selected == Some(i) {
        selected := None;
      } else {
        selected := Some(i);
      }
    }

    /** Lines 191-207: a mouse press tests every grid position and acts on
        each one that holds the pointer. The loop never stops early, yet at
        most one position is acted on, because no point is in two of them. */
    method HandleMouse(button: int, mx: int, my: int)
      requires Valid()
      modifies this, tiles
      ensures Valid()
      ensures Current() == MousePress(old(Current()), button, mx, my, tileWidth, tileHeight)
    {
      if button == 1 && !completed {
        ghost var start := Current();
        ghost var hit := HitTile(tileWidth, tileHeight, mx, my);
        for i := 0 to TileCount
          invariant Valid()
          invariant Current() == if hit.Some? && hit.value < i then Click(start, hit.value) else start
        {
          var x := ScreenX(i, tileWidth);
          var y := ScreenY(i, tileHeight);
          HitTileExact(i, tileWidth, tileHeight, mx, my);
          if x <= mx <= x + tileWidth && y <= my <= y + tileHeight {
            ClickTile(i);
          }
        }
      }
    }

    /** Lines 185-207 for one event: quit ends the program, Escape returns
        to the menu, a mouse press goes to the click handler. */
    method HandleEvent(e: Event) returns (exit: Option<Outcome>)
      requires Valid()
      modifies this, tiles
      ensures Valid()
      ensures exit == GameExit(e)
      ensures Current() == GameEdit(old(Current()), e, tileWidth, tileHeight)
    {
      match e {
        case Quit =>
          exit := Some(Terminate);
        case KeyDown(Escape, _) =>
          exit := Some(GoTo(Menu));
        case MouseDown(b, x, y) =>
          HandleMouse(b, x, y);
          exit := None;
        case _ =>
          exit := None;
      }
    }
  }

  lemma {:induction false} PlayEventsLast(g: State, events: seq<Event>, e: Event, tw: nat, th: nat)
    requires Puzzle.Valid(g)
    ensures PlayEvents(g, events + [e], tw, th) == GameEdit(PlayEvents(g, events, tw, th), e, tw, th)
    decreases |events|
  {
    if events == [] {
      assert [e][1..] == [];
    } else {
      assert (events + [e])[1..] == events[1..] + [e];
      PlayEventsLast(GameEdit(g, events[0], tw, th), events[1..], e, tw, th);
    }
  }

  lemma PlayEventsStep(g: State, events: seq<Event>, from: nat, next: nat, tw: nat, th: nat)
    requires Puzzle.Valid(g) && from <= next < |events|
    ensures PlayEvents(g, events[from..next + 1], tw, th) ==
      GameEdit(PlayEvents(g, events[from..next], tw, th), events[next], tw, th)
  {
    var done, e := events[from..next], events[next];
    assert events[from..next + 1] == done + [e];
    PlayEventsLast(g, done, e, tw, th);
  }

  /** `run_game`: build the puzzle, then handle events until one leaves the
      screen. The returned board is the state the screen ends in. */
  method RunGame(events: seq<Event>, from: nat, setup: Setup) returns (out: Option<Outcome>, next: nat, board: Board)
    requires from <= |events| && IsArrangement(setup.order)
    ensures fresh(board) && fresh(board.tiles) && board.Valid()
    ensures board.tileWidth == TileWidth(setup.width) && board.tileHeight == TileHeight(setup.height)
    ensures (out, next) == SessionEnd(Game, events, from, NoButtons)
    ensures board.Current() ==
      PlayEvents(Start(setup.order), events[from..FirstExit(Game, events, from, NoButtons)],
                 board.tileWidth, board.tileHeight)
  {
    board := new Board(setup.width, setup.height, setup.order);
    ghost var start := board.Current();
    next := from;
    while next < |events|
      invariant from <= next <= |events|
      invariant fresh(board) && fresh(board.tiles) && board.Valid()
      invariant forall j :: from <= j < next ==> ExitOn(Game, events[j], NoButtons).None?
      invariant board.Current() == PlayEvents(start, events[from..next], board.tileWidth, board.tileHeight)
    {
      var e := events[next];
      PlayEventsStep(start, events, from, next, board.tileWidth, board.tileHeight);
      var exit := board.HandleEvent(e);
      if exit.Some? {
        FirstExitIs(Game, events, from, next, NoButtons);
        return exit, next + 1, board;
      }
      next := next + 1;
    }
    FirstExitIs(Game, events, from, next, NoButtons);
    out := None;
  }
}
