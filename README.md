# Tile-swap puzzle game: verified model

This project models the logic of a small pygame desktop game (`PYGAME_312.py`).
The game shows a splash screen, then a menu with three buttons: "Play", "Player name" and "Exit".
It also has a screen for typing the player's name and a 5x5 tile-swap puzzle cut from a picture.
The model covers four parts:

- **Geometry** (`geometry.dfy`, module `Geometry`): the fragment size is the picture size integer-divided by 5. Fragments are cut row by row. Each grid position has a screen position with a 2-pixel margin and an inclusive hit rectangle. The key fact proved is that no mouse point lies in two hit rectangles. The click loop never breaks early, and this fact is what makes that loop correct.
- **Puzzle** (`puzzle.dfy`, module `Puzzle`, pure): the puzzle state as a value. It holds the working arrangement, the optional selection, the swap counter and the completion flag, plus what a left click does to them. A tile is the index of the fragment it shows, so the cut order is `0..24`. Tiles compare by identity, as pygame surfaces do.
- **Board** (`board.dfy`, module `PuzzleBoard`): the running puzzle as an object. An array of tiles is swapped in place, and fields are reassigned by the click handler. Every method is proved against the `Puzzle` functions.
- **Screens and driver** (`screens.dfy`, `nameentry.dfy`, `app.dfy`): the four screens, the table of legal moves between them, name editing, and the main loop. The loop's class `App` holds the two globals, `current_state` and `player_name`.

Observations about the code that the proofs make precise:

- The completion flag is only recomputed after a swap. The invariant `Puzzle.Consistent` says the flag is set exactly when a swap has been made and the arrangement equals the cut order. So if the shuffle leaves every piece in place, the game does not report the puzzle solved until the player makes a swap. This is a chance of 1 in 25!.
- Hit rectangles are inclusive, so each one is one pixel wider and taller than the fragment drawn there. A click in the first pixel of the margin right of or below a tile still hits that tile. The 2-pixel margin keeps these rectangles apart.
- The draw and hit code takes the row as `i // ROWS` and the column as `i % COLS`. This is correct only because ROWS = COLS = 5. The model uses those constants.
- A menu button reacts to any mouse button, because `Button.is_clicked` does not look at which one was pressed. The puzzle reacts only to the left button.

## Model

| member | source | states |
|---|---|---|
| `Geometry.TileWidth` | PYGAME_312.py:143-144 | the tile width is `w // 5`: five tiles fit in the picture, with fewer than 5 pixels left over |
| `Geometry.TileHeight` | PYGAME_312.py:143-145 | the same for the height |
| `Geometry.CutRect` | PYGAME_312.py:150 | fragment `k` has the tile size, and for each of the 25 positions it lies within the `5*tw` x `5*th` area of the picture |
| `Geometry.SliceImage` | PYGAME_312.py:147-152 | the nested cutting loops produce 25 rectangles, and rectangle `k` is at column `k % 5`, row `k / 5` |
| `Geometry.CutWithinImage` | PYGAME_312.py:148-151 | every cut rectangle lies inside the `w`x`h` picture |
| `Geometry.CutsDisjoint` | PYGAME_312.py:148-152 | different fragments share no pixel |
| `Geometry.ScreenX` | PYGAME_312.py:164-166 | a tile's left edge is at least the margin, and the tile ends within the grid's width `5 * (tw + 2)` |
| `Geometry.ScreenY` | PYGAME_312.py:164-167 | a tile's top edge is at least the margin, and for each of the 25 positions the tile ends within the grid's height `5 * (th + 2)` |
| `Geometry.Hits` | PYGAME_312.py:194-198 | a point that hits one of the 25 positions lies inside the grid area, between the margin and `5 * (size + 2)` on both axes |
| `Geometry.HitUnique` | PYGAME_312.py:193-198 | with margin 2 and inclusive bounds, no point is inside the hit rectangles of two grid positions |
| `Geometry.HitTile` | PYGAME_312.py:193-198 | the position found is one the point hits; if none is found, the point hits no position |
| `Geometry.HitTileExact` | PYGAME_312.py:193-198 | a position is hit if and only if it is the one `HitTile` finds |
| `Screens.Legal` | PYGAME_312.py:215-224 | no screen moves back to the splash screen, and only the menu leads to the puzzle or the name screen |
| `Screens.SplashNext` | PYGAME_312.py:60-66 | the splash screen always moves to the menu |
| `Screens.MenuExit` | PYGAME_312.py:77-89 | quit terminates; otherwise only a mouse press inside a button leaves; the first button hit, in the order play, name, exit, decides whether the menu goes to the puzzle, the name screen or terminates |
| `Screens.NameExit` | PYGAME_312.py:113-123 | the name screen leaves exactly on quit, Return or Escape; it terminates exactly on quit and otherwise goes back to the menu |
| `Screens.GameExit` | PYGAME_312.py:185-190 | the puzzle leaves exactly on quit or Escape; it terminates exactly on quit and otherwise goes back to the menu |
| `Screens.ExitOn` | PYGAME_312.py:77-190 | the splash screen reads no event; every exit is a legal move; quit terminates every other screen |
| `Screens.LegalIsReachable` | PYGAME_312.py:83-89 | every move in the table is taken on some event: the menu goes to the puzzle, the name screen or exit; the name screen and the puzzle go back to the menu or quit |
| `Screens.FirstExit` | PYGAME_312.py:75-89 | a screen reads events until the first one that makes it leave; no earlier event does |
| `Screens.SessionEnd` | PYGAME_312.py:216-224 | a screen that leaves names a legal move and has read at least one event |
| `Screens.ScreenStep` | PYGAME_312.py:215-224 | one pass of the main loop: the splash screen names the menu without reading events; any other screen that leaves names a legal move and has read at least one event |
| `Screens.ShowMenu` | PYGAME_312.py:68-94 | the menu loop leaves on the first quit event or button press, with the move that button names |
| `Puzzle.IsCompleted` | PYGAME_312.py:172-173 | the puzzle counts as completed if and only if every position holds its origin fragment |
| `Puzzle.Swap` | PYGAME_312.py:200 | two positions trade fragments, every other position keeps its fragment, and the multiset of fragments is unchanged |
| `Puzzle.Start` | PYGAME_312.py:154-159 | the start state is well formed and consistent: nothing selected, no swaps, the shuffled order |
| `Puzzle.Click` | PYGAME_312.py:199-207 | a click keeps the arrangement a permutation of the origin, keeps the flag consistent, and raises the counter by 0 or 1 |
| `Puzzle.MousePress` | PYGAME_312.py:191-198 | a mouse press keeps the state well formed and the flag consistent; a press with another button, on a completed puzzle, or outside every tile changes nothing |
| `Puzzle.GameEdit` | PYGAME_312.py:185-191 | only mouse presses change the puzzle state; the state stays well formed and the flag consistent |
| `Puzzle.PlayEvents` | PYGAME_312.py:184-207 | over any run of events the arrangement stays a permutation, the flag stays consistent, the counter never goes down, and a solved puzzle never changes |
| `Puzzle.ClickSwaps` | PYGAME_312.py:199-203 | with another position selected, a click swaps exactly those two positions, clears the selection, adds one to the counter and sets the flag to "solved now" |
| `Puzzle.ClickSelects` | PYGAME_312.py:204-207 | a select or deselect click moves no fragment and changes neither the counter nor the flag |
| `Puzzle.SelectThenDeselect` | PYGAME_312.py:204-207 | selecting a position and clicking it again restores the state |
| `Puzzle.ArrangementDistinct` | PYGAME_312.py:147-155 | different positions of an arrangement hold different fragments |
| `Puzzle.CounterCountsMoves` | PYGAME_312.py:199-207 | the counter goes up exactly when a click changes the arrangement, and stays the same exactly when it does not |
| `Puzzle.CompletedIsFrozen` | PYGAME_312.py:191 | once completed, no mouse press changes the state |
| `Puzzle.SwapTwiceRestores` | PYGAME_312.py:199-202 | swapping the same two positions twice restores the arrangement and adds exactly 2 to the counter |
| `Puzzle.Press` | PYGAME_312.py:191 | a left press on a position keeps the state well formed; `PressOverTile` proves it is `MousePress` when the pointer is over that position |
| `Puzzle.PressOverTile` | PYGAME_312.py:191-207 | a left press with the pointer over position `i` acts on `i` alone |
| `Puzzle.ApplySwaps` | PYGAME_312.py:155 | a shuffle made of swaps yields a permutation of the same length |
| `Puzzle.ReplayPairs` | PYGAME_312.py:191-207 | replaying pairs of clicks keeps the state well formed and leaves a solved puzzle alone |
| `Puzzle.UndoOnePair` | PYGAME_312.py:199-203 | clicking `a` then `b` undoes the exchange of `a` and `b`, and the flag says whether that solved the puzzle |
| `Puzzle.UndoingTheShuffleSolves` | PYGAME_312.py:155-203 | if the shuffle was a sequence of swaps, clicking those swaps in reverse order always solves the puzzle and raises the flag |
| `NameEntry.DropLast` | PYGAME_312.py:121 | Backspace removes exactly the last character, and an empty name stays empty |
| `NameEntry.Edit` | PYGAME_312.py:117-126 | quit, Return and Escape keep the name; Backspace drops the last character; another key appends its text while the name is shorter than 15 and is ignored from 15 on; events that are not key presses keep the name; a one-character key never takes the name past 15 |
| `NameEntry.TypeKeysLast` | PYGAME_312.py:113-126 | the name after a run of events is the edits applied one after another: one more event is one more `Edit` |
| `NameEntry.TypeKeysNeverGrowsUntyped` | PYGAME_312.py:113-126 | without a typing key among the events, the name never gets longer |
| `NameEntry.TypeKeysKeepsPrefix` | PYGAME_312.py:113-126 | without a Backspace among the events, the old name stays a prefix of the new one |
| `NameEntry.TypeKeysBounded` | PYGAME_312.py:113-126 | after any run of events whose key texts have at most one character, the name has at most 15 characters |
| `NameEntry.BackspaceOnEmpty` | PYGAME_312.py:121 | Backspace on the empty name leaves it empty |
| `NameEntry.ReturnAndEscapeKeepName` | PYGAME_312.py:118-123 | Return and Escape lead to the menu and keep the name |
| `PuzzleBoard.Board.constructor` | PYGAME_312.py:143-159 | the new board has tile size `w // 5` by `h // 5`, the row-major cuts, the cut order as origin and the shuffled order as its state |
| `PuzzleBoard.Board.ClickTile` | PYGAME_312.py:199-207 | the in-place click handler leaves the array and fields equal to `Click` of the old state |
| `PuzzleBoard.Board.HandleMouse` | PYGAME_312.py:191-207 | the hit-test loop, which never breaks early, gives exactly `MousePress` of the old state |
| `PuzzleBoard.Board.HandleEvent` | PYGAME_312.py:185-207 | quit and Escape leave the screen; other events update the state as `GameEdit` does |
| `PuzzleBoard.RunGame` | PYGAME_312.py:132-213 | the puzzle screen builds a new board with tile size `w // 5` by `h // 5`, leaves on the first quit or Escape, and its board ends in the state `PlayEvents` gives for the events before that |
| `Driver.App.constructor` | PYGAME_312.py:40-41 | the program starts on the splash screen with an empty name |
| `Driver.App.NameKey` | PYGAME_312.py:113-126 | one event on the name screen leaves exactly when it is quit, Return or Escape, and edits the name as `Edit` says |
| `Driver.App.NameInput` | PYGAME_312.py:96-129 | the name screen leaves on the first quit, Return or Escape; its name is the edits of the events before that, and it stays within 15 characters when keys carry one character each |
| `Driver.App.Run` | PYGAME_312.py:215-224 | each screen visited is what `ScreenStep` of the previous screen names, from the event position where that screen stopped reading, so the visits form a walk through the table of legal moves; the run ends in `Terminated` exactly when the last screen's step is `Terminate` (and, on the puzzle, a setup was left), and in `InputExhausted` exactly when that step found no exit or the puzzle was entered with no setup left; the name after the run is `NameAfter`: the edits each visit to the name screen made, in order, so a run that never visits the name screen keeps the name; the name bound holds throughout |
| `Driver.App.Visit` | PYGAME_312.py:216-224 | one pass of the loop follows `ScreenStep` of the active screen, and only the name screen changes the name, by the edits of the events it read before it left |
| `Driver.NameUntouched` | PYGAME_312.py:96-129 | a run that never visits the name screen leaves the name unchanged |

## Left out

- Rendering, fonts, the background picture, the music and frame timing are left out: screen fills, blits, outlines, text, `display.flip`, `clock.tick` and the two-second splash wait. They are calls into pygame with no logic to check.
- The `picture` directory, the extension filter and `random.choice` are left out, including the error raised when no picture qualifies. The chosen picture's size is an input (`Setup`).
- `random.shuffle` is left out: the shuffled order is an input, and it must be a permutation of the origin.
- Which menu button contains a point is decided by pygame's `Rect.collidepoint`, which is not modelled. It is the parameter `probe` instead.
- `pygame.event.get()` returns events in batches. When a screen leaves partway through a batch, the source drops the rest of that batch. The model passes those events on to the next screen.
- The puzzle reads the pointer with `pygame.mouse.get_pos()` when it handles a press, which may differ from where the press happened. The model uses one position per press event.
- `pygame.quit()` and `sys.exit()` become the outcome `Terminate`.
- Each screen loop is guarded by `while current_state == ...`. That guard always holds inside the screen, so the model leaves it out. A state string outside the four would make the driver spin forever, and this cannot happen.
- NameEntry.TypeKeysBounded: the 15-character bound is proved only when every key event carries at most one character. Each event appends its whole `unicode` text while the name is shorter than 15, so longer texts could take the name past 15.
- Driver.App.Run: a finite event sequence stands in for the endless main loop. The run also stops when the events run out, or when the puzzle is entered and no setup is left.
