/** The tile-swap puzzle of `run_game` as values (PYGAME_312.py lines
    147-159, 172-173 and 191-207): the working arrangement, the selection,
    the swap counter and the completion flag, and what a left click does to
    them. A tile is the index of the picture fragment it shows, so the
    arrangement as cut is `0, 1, ..., 24` and tiles compare by identity, as
    pygame surfaces do. */
module Puzzle {

  import opened Wrappers
  import opened Geometry
  import opened Screens

  type Tile = nat

  /** `origin_tiles`: the fragments in the order they were cut. */
  function Origin(): (o: seq<Tile>)
    ensures |o| == TileCount && forall k :: 0 <= k < TileCount ==> o[k] == k
  {
    seq(TileCount, k => k)
  }

  /** A working arrangement: the origin fragments in some order. */
  predicate IsArrangement(t: seq<Tile>)
  {
    |t| == TileCount && multiset(t) == multiset(Origin())
  }

  /** `is_puzzle_completed`: every position holds the fragment that was cut
      for it. */
  function IsCompleted(tiles: seq<Tile>, origin: seq<Tile>): (done: bool)
    requires |tiles| == |origin|
    ensures done <==> tiles == origin
  {
    forall k :: 0 <= k < |tiles| ==> tiles[k] == origin[k]
  }

  /** `tiles[i], tiles[j] = tiles[j], tiles[i]` (line 200). */
  function Swap(t: seq<Tile>, i: nat, j: nat): (r: seq<Tile>)
    requires i < |t| && j < |t|
    ensures |r| == |t| && r[i] == t[j] && r[j] == t[i]
    ensures forall k :: 0 <= k < |t| && k != i && k != j ==> r[k] == t[k]
    ensures multiset(r) == multiset(t)
  {
    t[i := t[j]][j := t[i]]
  }

  /** The puzzle's local state: `tiles`, `selected`, `swaps`, `completed`. */
  datatype State = State(tiles: seq<Tile>, selected: Option<nat>, swaps: nat, completed: bool)

  /** The arrangement is a permutation of the origin and a selection names a
      grid position. */
  predicate Valid(g: State)
  {
    IsArrangement(g.tiles) && (g.selected.Some? ==> g.selected.value < TileCount)
  }

  /** The flag is set exactly when some swap has been made and the pieces
      are back in their cut order. The flag is only recomputed after a swap,
      so a shuffle that happens to leave every piece in place is not reported
      as solved until a swap is made. */
  predicate Consistent(g: State)
  {
    g.completed <==> g.swaps > 0 && g.tiles == Origin()
  }

  /** The state of lines 154-159 for the arrangement `random.shuffle` left. */
  function Start(order: seq<Tile>): (g: State)
    requires IsArrangement(order)
    ensures Valid(g) && Consistent(g)
    ensures g.tiles == order && g.selected.None? && g.swaps == 0
  {
    State(order, None, 0, false)
  }

  /** A left click on grid position `i` (lines 199-207): swap with the
      selected position, deselect it, or select `i`. */
  function Click(g: State, i: nat): (r: State)
    requires Valid(g) && i < TileCount
    ensures Valid(r)
    ensures Consistent(g) ==> Consistent(r)
    ensures r.swaps == g.swaps || r.swaps == g.swaps + 1
  {
    match g.selected
    case Some(s) =>
      if s != i then
        var t := Swap(g.tiles, i, s);
        State(t, None, g.swaps + 1, IsCompleted(t, Origin()))
      else
        g.(selected := None)
    case None => g.(selected := Some(i))
  }

  /** A mouse press (lines 191-198): only the left button counts, only while
      the puzzle is unsolved, and only on the grid position under the pointer. */
  function MousePress(g: State, button: int, mx: int, my: int, tw: nat, th: nat): (r: State)
    requires Valid(g)
    ensures Valid(r)
    ensures Consistent(g) ==> Consistent(r)
    ensures button != 1 || g.completed || HitTile(tw, th, mx, my).None? ==> r == g
  {
    if button == 1 && !g.completed then
      match HitTile(tw, th, mx, my)
      case Some(i) => Click(g, i)
      case None => g
    else g
  }

  /** What an event does to the puzzle state: only mouse presses change it. */
  function GameEdit(g: State, e: Event, tw: nat, th: nat): (r: State)
    requires Valid(g)
    ensures Valid(r)
    ensures Consistent(g) ==> Consistent(r)
    ensures !e.MouseDown? ==> r == g
  {
    match e
    case MouseDown(b, x, y) => MousePress(g, b, x, y, tw, th)
    case _ => g
  }

  /** The puzzle state after a run of events. */
  function PlayEvents(g: State, events: seq<Event>, tw: nat, th: nat): (r: State)
    requires Valid(g)
    ensures Valid(r)
    ensures Consistent(g) ==> Consistent(r)
    ensures r.swaps >= g.swaps
    ensures g.completed ==> r == g
    decreases |events|
  {
    if events == [] then g
    else PlayEvents(GameEdit(g, events[0], tw, th), events[1..], tw, th)
  }

  // ---------------------------------------------------------------------
  // One click

  /** The swap branch (lines 199-203): the two positions trade fragments,
      the selection is cleared, the counter goes up by one and the flag says
      whether the puzzle is now solved. */
  lemma ClickSwaps(g: State, i: nat)
    requires Valid(g) && i < TileCount
    requires g.selected.Some? && g.selected.value != i
    ensures var r, s := Click(g, i), g.selected.value;
      r.tiles[i] == g.tiles[s] && r.tiles[s] == g.tiles[i] &&
      (forall k :: 0 <= k < TileCount && k != i && k != s ==> r.tiles[k] == g.tiles[k]) &&
      r.selected.None? && r.swaps == g.swaps + 1 && (r.completed <==> r.tiles == Origin())
  {
  }

  /** Selecting (nothing selected) or deselecting (the same position) moves
      no fragment and leaves counter and flag alone (lines 204-207). */
  lemma ClickSelects(g: State, i: nat)
    requires Valid(g) && i < TileCount
    requires g.selected.None? || g.selected == Some(i)
    ensures var r := Click(g, i);
      r.tiles == g.tiles && r.swaps == g.swaps && r.completed == g.completed &&
      r.selected == (if g.selected.None? then Some(i) else None)
  {
  }

  /** Selecting a position and clicking it again gives back the state. */
  lemma SelectThenDeselect(g: State, i: nat)
    requires Valid(g) && i < TileCount && g.selected.None?
    ensures Click(Click(g, i), i) == g
  {
  }

  /** A sequence holding the same value twice counts it twice. */
  lemma {:induction false} RepeatCountsTwice(s: seq<Tile>, i: nat, j: nat)
    requires i < j < |s| && s[i] == s[j]
    ensures multiset(s)[s[i]] >= 2
  {
    assert s == s[..i] + [s[i]] + s[i + 1..j] + [s[j]] + s[j + 1..];
  }

  /** A sequence without repeats counts each value at most once. */
  lemma {:induction false} DistinctCountsOnce(s: seq<Tile>, v: Tile)
    requires forall a, b :: 0 <= a < b < |s| ==> s[a] != s[b]
    ensures multiset(s)[v] <= 1
    decreases |s|
  {
    if s != [] {
      assert s == [s[0]] + s[1..];
      DistinctCountsOnce(s[1..], v);
      if s[0] == v {
        assert v !in s[1..] by {
          forall k | 0 <= k < |s| - 1 ensures s[1..][k] != v {
            assert s[1..][k] == s[k + 1];
          }
        }
      }
    }
  }

  /** Different positions of an arrangement hold different fragments. */
  lemma ArrangementDistinct(t: seq<Tile>, i: nat, j: nat)
    requires IsArrangement(t) && i < TileCount && j < TileCount && i != j
    ensures t[i] != t[j]
  {
    if t[i] == t[j] {
      if i < j { RepeatCountsTwice(t, i, j); } else { RepeatCountsTwice(t, j, i); }
      DistinctCountsOnce(Origin(), t[i]);
      assert false;
    }
  }

  /** The counter goes up exactly when a click moves fragments: a select or
      deselect moves nothing, and a swap of two different positions always
      changes the arrangement, because their fragments differ. */
  lemma CounterCountsMoves(g: State, i: nat)
    requires Valid(g) && i < TileCount
    ensures var r := Click(g, i);
      (r.swaps == g.swaps + 1 <==> r.tiles != g.tiles) &&
      (r.swaps == g.swaps <==> r.tiles == g.tiles)
  {
    var r := Click(g, i);
    if g.selected.Some? && g.selected.value != i {
      ArrangementDistinct(g.tiles, i, g.selected.value);
      assert r.tiles[i] != g.tiles[i];
    }
  }

  /** Once solved, a mouse press changes nothing (the guard of line 191). */
  lemma CompletedIsFrozen(g: State, button: int, mx: int, my: int, tw: nat, th: nat)
    requires Valid(g) && g.completed
    ensures MousePress(g, button, mx, my, tw, th) == g
  {
  }

  /** Exchanging `i` and `j` twice (clicks `i`, `j`, `i`, `j`) restores the
      arrangement and adds exactly two to the counter. The clicks go straight
      to the selection handler of lines 199-207, past the `not completed`
      guard of line 191: through real presses, a first exchange that solves
      the puzzle makes the last two presses no-ops. `UndoOnePair`, built on
      `Press`, covers the guarded case. */
  lemma SwapTwiceRestores(g: State, i: nat, j: nat)
    requires Valid(g) && g.selected.None? && i < TileCount && j < TileCount && i != j
    ensures var r := Click(Click(Click(Click(g, i), j), i), j);
      r.tiles == g.tiles && r.swaps == g.swaps + 2 && r.selected.None? &&
      (r.completed <==> g.tiles == Origin())
  {
    var once := Click(Click(g, i), j);
    var twice := Click(Click(once, i), j);
    assert once.tiles == Swap(g.tiles, j, i);
    assert twice.tiles == Swap(once.tiles, j, i);
    assert twice.tiles == g.tiles by {
      forall k | 0 <= k < TileCount ensures twice.tiles[k] == g.tiles[k] {
      }
    }
  }

  // ---------------------------------------------------------------------
  // Clicks on grid positions, and undoing a shuffle

  /** A left press while the pointer is inside grid position `i`: the
      case of `MousePress` where the hit test finds `i`, as `PressOverTile`
      proves. */
  function Press(g: State, i: nat): (r: State)
    requires Valid(g) && i < TileCount
    ensures Valid(r)
  {
    if g.completed then g else Click(g, i)
  }

  /** Pressing the left button over grid position `i` is `Press(g, i)`:
      since no other position is hit, the hit test picks `i`. */
  lemma PressOverTile(g: State, i: nat, mx: int, my: int, tw: nat, th: nat)
    requires Valid(g) && i < TileCount && Hits(i, tw, th, mx, my)
    ensures MousePress(g, 1, mx, my, tw, th) == Press(g, i)
  {
    HitTileExact(i, tw, th, mx, my);
  }

  /** A grid position. */
  type Pos = i: nat | i < TileCount

  /** Two grid positions whose fragments are exchanged. */
  type Pair = (Pos, Pos)

  /** Every pair names two different grid positions. */
  predicate ProperPairs(ps: seq<Pair>)
  {
    forall k :: 0 <= k < |ps| ==> ps[k].0 != ps[k].1
  }

  /** The arrangement after exchanging each pair in turn, first to last. */
  function ApplySwaps(t: seq<Tile>, ps: seq<Pair>): (r: seq<Tile>)
    requires |t| == TileCount
    ensures |r| == |t| && multiset(r) == multiset(t)
    decreases |ps|
  {
    if ps == [] then t
    else
      var last := ps[|ps| - 1];
      Swap(ApplySwaps(t, ps[..|ps| - 1]), last.0, last.1)
  }

  function Reversed(ps: seq<Pair>): (r: seq<Pair>)
    ensures |r| == |ps|
    decreases |ps|
  {
    if ps == [] then [] else [ps[|ps| - 1]] + Reversed(ps[..|ps| - 1])
  }

  /** Click the first position of each pair, then the second. */
  function ReplayPairs(g: State, ps: seq<Pair>): (r: State)
    requires Valid(g)
    ensures Valid(r)
    ensures g.completed ==> r == g
    decreases |ps|
  {
    if ps == [] then g
    else ReplayPairs(Press(Press(g, ps[0].0), ps[0].1), ps[1..])
  }

  /** Clicking `a` then `b` on an unsolved puzzle with nothing selected
      undoes the exchange of `a` and `b`. */
  lemma UndoOnePair(g: State, a: nat, b: nat, before: seq<Tile>)
    requires Valid(g) && Consistent(g) && g.selected.None? && !g.completed
    requires a < TileCount && b < TileCount && a != b
    requires |before| == TileCount && g.tiles == Swap(before, a, b)
    ensures var r := Press(Press(g, a), b);
      r.tiles == before && r.selected.None? && Consistent(r) && (r.completed <==> before == Origin())
  {
    var r := Press(Press(g, a), b);
    assert r.tiles == before by {
      forall k | 0 <= k < TileCount ensures r.tiles[k] == before[k] {
      }
    }
  }

  /** If the shuffle was the swaps `ps`, clicking those swaps back in reverse
      order solves the puzzle and raises the flag, whether or not the puzzle
      was already solved on the way. */
  lemma {:induction false} UndoingTheShuffleSolves(g: State, ps: seq<Pair>)
    requires Valid(g) && Consistent(g) && g.selected.None?
    requires ProperPairs(ps) && ps != []
    requires g.tiles == ApplySwaps(Origin(), ps)
    ensures ReplayPairs(g, Reversed(ps)).completed
    decreases |ps|
  {
    var n := |ps|;
    var last, init := ps[n - 1], ps[..n - 1];
    assert Reversed(ps) == [last] + Reversed(init);
    assert Reversed(ps)[1..] == Reversed(init);
    var g1 := Press(Press(g, last.0), last.1);
    assert ReplayPairs(g, Reversed(ps)) == ReplayPairs(g1, Reversed(init));
    if !g.completed {
      UndoOnePair(g, last.0, last.1, ApplySwaps(Origin(), init));
      if init != [] {
        assert ProperPairs(init) by {
          forall k | 0 <= k < n - 1 ensures init[k].0 != init[k].1 {
            assert init[k] == ps[k];
          }
        }
        UndoingTheShuffleSolves(g1, init);
      }
    }
  }
}
