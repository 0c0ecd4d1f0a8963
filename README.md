# Jigsaw puzzle board, modelled in Dafny

This project models the board of an Android jigsaw-puzzle game (the `Puzzle`
class). The board is made of six pieces of one image. The player drags pieces
with a finger. A piece released close enough to its place snaps there. When
every piece is snapped, the puzzle is done. The board is saved and restored
when the activity is re-created.

What is modelled:

- **The piece list as z-order.** `Puzzle.pieces` is a `seq<Piece>` field,
  bottommost piece first. It is both the draw order and the hit-test order.
  - A touch-down scans the list from the last piece to the first. The first
    piece hit is moved to the end (`BringToFront`).
  - A release that snaps the dragged piece moves that piece to index 0
    (`SendToBack`).
- **The drag session.** `dragging` is `None` (idle) or `Some(id)`. It holds
  the id of the dragged piece, where the program holds a reference to it.
  `lastRelX` and `lastRelY` hold the last touch point.
  - DOWN starts a session only on a hit.
  - MOVE translates the dragged piece by the step since the last touch.
  - UP and CANCEL try to snap the piece, and always end the session.
- **Completion.** `IsDone` scans the list for a piece that is not snapped.
- **Save and restore.** Saving writes the ids in list order and the positions
  as one flat array, x then y for each piece. Loading reorders the list by
  swaps until the ids match the saved order. Then it gives each index its
  saved position.

`Puzzle.Valid()` is the board invariant. It says the board always holds
exactly the pieces it was built with: distinct ids, the same multiset of ids
(`Roster`), and each piece with the target recorded for its id (`Targets`).
Every method keeps it, so every operation keeps `pieces` a permutation of the
original pieces.

The piece class is not part of this model. Its operations appear in module
`Pieces`, as the board uses them:

- `move` is a translation.
- `maybeSnap` puts the piece on its target when an uninterpreted test `near`
  holds, and reports whether it did.
- `isSnapped` holds when the piece sits exactly on its target.
- `shuffle` puts the piece at the next draw of a caller-supplied random
  source.
- The hit test is an uninterpreted function `hit(piece, x, y)`.

Two facts about the code are worth stating on their own:

- The load loop's outer bound `i < ids.length - 1` does not skip the last
  index. Once every other index holds its saved id, the one id left over is
  the last saved id (`SavedState.AlignedAtEnd`).
- `Puzzle` calls `move` on the dragged piece whether or not that piece is
  snapped (Puzzle.java:179). In this model, where being snapped means sitting
  on the target, a snapped piece dragged by a nonzero amount is no longer
  snapped (`Pieces.MovedOffTarget`).

## Model

| member | source | states |
|---|---|---|
| `PuzzleBoard.Puzzle.constructor` | app/src/main/java/westjacob/sdsmt/puzzle_west_jacob/Puzzle.java:93-114 | builds the six pieces in order, with the given drawable ids and the image's six targets, then shuffles them: positions are the draws, the session is idle, the board invariant holds, and the board's roster and target map are fixed by the drawables alone, so any two boards built from the same drawables share them |
| `PuzzleBoard.TargetsOf` | app/src/main/java/westjacob/sdsmt/puzzle_west_jacob/Puzzle.java:106-111 | the map from each created piece's id to its target, each id mapped to the target given beside it |
| `PuzzleBoard.Puzzle.OnTouchEvent` | app/src/main/java/westjacob/sdsmt/puzzle_west_jacob/Puzzle.java:155-190 | DOWN behaves as a touch, UP and CANCEL both as a release; MOVE while dragging translates the dragged piece in place by (relX - lastRelX, relY - lastRelY), records the new touch and reports handled; MOVE while idle and any other action report unhandled and change nothing |
| `Pieces.Translate` | app/src/main/java/westjacob/sdsmt/puzzle_west_jacob/Puzzle.java:179 | `move(deltaX, deltaY)` keeps the piece's identity and target and shifts its position by exactly the delta |
| `PuzzleBoard.DragSession` | app/src/main/java/westjacob/sdsmt/puzzle_west_jacob/Puzzle.java:172-184 | a run of MOVE events delivered one by one through the event handler leaves the dragged piece exactly where `DragAlong` puts it, its start displaced by the last touch minus the session's starting touch; every other piece and the order are unchanged, the session is still dragging the same piece, and the last touch is the path's last point |
| `Pieces.DragDisplacement` | app/src/main/java/westjacob/sdsmt/puzzle_west_jacob/Puzzle.java:172-184 | over any run of MOVE events the per-event deltas add up: the piece ends displaced by the last touch minus the touch the session started from, and nothing else about it changes |
| `PuzzleBoard.Puzzle.OnTouched` | app/src/main/java/westjacob/sdsmt/puzzle_west_jacob/Puzzle.java:198-216 | with no piece hit: reports false, and the list, session and last touch are unchanged; otherwise reports true, the topmost piece hit is the dragged piece and is moved to the end of the list, and the touch is recorded as the last touch |
| `ZOrder.TopmostHit` | app/src/main/java/westjacob/sdsmt/puzzle_west_jacob/Puzzle.java:200-203 | the selected index holds a hit piece and no piece above it is hit; there is no selection exactly when no piece is hit |
| `ZOrder.BringToFrontKeeps` | app/src/main/java/westjacob/sdsmt/puzzle_west_jacob/Puzzle.java:209-210 | moving the touched piece to the end keeps the same pieces and distinct ids, puts that piece last, and keeps every other piece in its relative order |
| `ZOrder.RetouchIsStable` | app/src/main/java/westjacob/sdsmt/puzzle_west_jacob/Puzzle.java:198-216 | touching again at the same point selects the same piece, now topmost, and moving it to the end a second time changes nothing |
| `ZOrder.RemoveAtKeeps` | app/src/main/java/westjacob/sdsmt/puzzle_west_jacob/Puzzle.java:209 | removing one piece leaves the others in order, with one piece fewer, its id gone and the ids still distinct |
| `PuzzleBoard.Puzzle.OnReleased` | app/src/main/java/westjacob/sdsmt/puzzle_west_jacob/Puzzle.java:224-255 | while idle: reports false and changes nothing; while dragging: reports true and always ends idle; when the piece snaps it is put on its target and moved to index 0, otherwise the list is unchanged; `done` is true exactly when this snap left every piece snapped |
| `Pieces.MaybeSnap` | app/src/main/java/westjacob/sdsmt/puzzle_west_jacob/Puzzle.java:227 | reports the outcome of the closeness test; on success the piece is snapped, on failure it is unchanged; its id and target never change |
| `ZOrder.IndexOf` | app/src/main/java/westjacob/sdsmt/puzzle_west_jacob/Puzzle.java:228 | finds the first index holding the dragged piece's id, which is the piece that `remove(dragging)` takes out |
| `ZOrder.SendToBackKeeps` | app/src/main/java/westjacob/sdsmt/puzzle_west_jacob/Puzzle.java:228-229 | moving the snapped piece to index 0 keeps the same pieces and distinct ids, puts that piece first, and keeps every other piece in its relative order |
| `PuzzleBoard.Puzzle.IsDone` | app/src/main/java/westjacob/sdsmt/puzzle_west_jacob/Puzzle.java:270-278 | true exactly when every piece in the list is snapped, so one unsnapped piece makes it false |
| `Pieces.MovedOffTarget` | app/src/main/java/westjacob/sdsmt/puzzle_west_jacob/Puzzle.java:272 | what `isSnapped` tests: a snapped piece moved by a delta stays snapped exactly when the delta is zero in both directions |
| `Pieces.ShufflePiece` | app/src/main/java/westjacob/sdsmt/puzzle_west_jacob/Puzzle.java:285 | `shuffle(random)` puts the piece at its draw, whatever its position was, and keeps its identity and target |
| `PuzzleBoard.Puzzle.Shuffle` | app/src/main/java/westjacob/sdsmt/puzzle_west_jacob/Puzzle.java:283-287 | each piece, in list order, gets exactly one draw of the random source; the order, the length, the ids and the session are unchanged |
| `PuzzleBoard.Puzzle.SaveInstanceState` | app/src/main/java/westjacob/sdsmt/puzzle_west_jacob/Puzzle.java:293-306 | writes n ids and 2n locations with ids[i] the id of piece i, locations[2i] its x and locations[2i+1] its y |
| `PuzzleBoard.Puzzle.LoadInstanceState` | app/src/main/java/westjacob/sdsmt/puzzle_west_jacob/Puzzle.java:312-338 | given a permutation of the current ids, the swaps leave a permutation of the pieces with pieces[i] carrying ids[i] at every index, the last included; no swap happens when the order already matches; then each piece gets the saved position of its index; the board invariant and the session are kept |
| `SavedState.SwapInto` | app/src/main/java/westjacob/sdsmt/puzzle_west_jacob/Puzzle.java:321-329 | swapping in the piece with the wanted id puts that id at index i and keeps the same pieces, distinct ids and the loop state |
| `SavedState.AlignedAtEnd` | app/src/main/java/westjacob/sdsmt/puzzle_west_jacob/Puzzle.java:316 | when every index but the last carries its saved id, the whole id list equals the saved ids |
| `SavedState.NoSwapWhenAligned` | app/src/main/java/westjacob/sdsmt/puzzle_west_jacob/Puzzle.java:318-321 | when the piece at index i already carries `ids[i]`, no later piece does, so the inner loop for i swaps nothing; the load loop carries this as an invariant: the inner loop leaves the list untouched whenever index i was aligned on entry |
| `SavedState.SaveLoadRoundTrip` | app/src/main/java/westjacob/sdsmt/puzzle_west_jacob/Puzzle.java:293-338 | a list of the same pieces put in the saved id order and at the saved positions is the saved list, order and positions alike |
| `PuzzleBoard.RecreateFromSaved` | app/src/main/java/westjacob/sdsmt/puzzle_west_jacob/PuzzleActivity.java:26-36 | saving one puzzle and loading the result into another puzzle of the same pieces gives the other puzzle exactly the saved list, and leaves its drag session and last touch as they were |
| `PuzzleBoard.RecreateActivity` | app/src/main/java/westjacob/sdsmt/puzzle_west_jacob/PuzzleActivity.java:19-30 | re-creating the activity builds a new board from the same drawables with fresh draws and loads the saved state into it: the new board is valid, idle, and holds the saved list exactly |

## Left out

- Drawing (`draw`) is left out: canvas rendering, the 0.9 scale of the
  puzzle in the view, and the pixel margins and scale factor.
- The conversion of touch pixels to coordinates relative to the puzzle is
  left out, because it is float division by the puzzle size.
  `OnTouchEvent` takes the relative point as input.
- The completion dialog and its shuffle button are left out. `OnReleased`
  returns the `done` flag instead. The button's action is `Shuffle`.
- The `Bundle` key/value mechanics are left out. Save returns the two arrays
  as sequences, and load takes them as sequences.
- `java.util.Random` is left out. `Shuffle` takes the random draws as a
  parameter, one position per piece.
- `view.invalidate()` is left out: it only requests a redraw.
- `float` arithmetic is modelled by `real`: no rounding.
- The piece class is not part of this model. Its hit geometry, snap tolerance
  and random placement are not modelled. `hit` and `near` are uninterpreted
  parameters.
- Piece objects and references are modelled as records that carry a distinct
  id. The dragged piece is named by its id. The board invariant keeps ids
  distinct, so the id picks out the same piece the program's reference does.
- `Pieces.IsSnapped`: the piece class is not part of this model, so being
  snapped is taken to mean sitting exactly on the target. It is not modelled
  as a stored flag. One consequence is that dragging a snapped piece by any
  nonzero amount unsnaps it, and that feeds the `done` result of a release.
- `PuzzleBoard.Puzzle.LoadInstanceState` requires well-formed saved state:
  the ids must be a permutation of the current ids, with 2n locations. The
  program does not check this. On malformed state it would index out of
  range or misplace pieces, and the model does not cover that.
- The piece drawables' resource ids are constructor parameters. They are
  numbers generated at build time and do not appear in the sources.
