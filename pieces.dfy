/**
 * One puzzle piece, as the board sees it: an identity, the position it belongs
 * at (its target) and the position it is at now, in coordinates relative to
 * the puzzle (0 to 1 across the board).
 *
 * The piece class itself is not part of this model; its operations are taken
 * as the board uses them: `move` translates, `maybeSnap` locks a piece that is
 * close enough onto its target, `isSnapped` holds when the piece sits on its
 * target, `shuffle` puts the piece at a freshly drawn random position. Whether
 * a piece is "close enough" and whether a point "hits" it depend on geometry
 * and a tolerance that live in that class; the board receives them as
 * uninterpreted functions.
 */
module Pieces {

  datatype Piece = Piece(id: int, finalX: real, finalY: real, x: real, y: real)

  /** A piece is snapped when it sits exactly on its target. */
  predicate IsSnapped(p: Piece) {
    p.x == p.finalX && p.y == p.finalY
  }

  /** Every piece of the board is snapped: the puzzle is solved. */
  predicate AllSnapped(s: seq<Piece>) {
    forall i :: 0 <= i < |s| ==> IsSnapped(s[i])
  }

  /**
   * `move(dx, dy)`: translate the piece by the given delta; it stays the
   * same piece with the same target.
   */
  function Translate(p: Piece, dx: real, dy: real): (r: Piece)
    ensures r.id == p.id && r.finalX == p.finalX && r.finalY == p.finalY
    ensures r.x - p.x == dx && r.y - p.y == dy
  {
    p.(x := p.x + dx, y := p.y + dy)
  }

  /**
   * `maybeSnap()`: when the piece is close enough to its target (the
   * uninterpreted test `near`), put it on the target and report true;
   * otherwise leave it as it is and report false.
   */
  function MaybeSnap(p: Piece, near: Piece -> bool): (r: (bool, Piece))
    ensures r.1.id == p.id && r.1.finalX == p.finalX && r.1.finalY == p.finalY
    ensures r.0 == near(p)
    ensures r.0 ==> IsSnapped(r.1)
    ensures !r.0 ==> r.1 == p
  {
    if near(p) then (true, p.(x := p.finalX, y := p.finalY)) else (false, p)
  }

  /**
   * `shuffle(random)`: the piece moves to the position drawn for it, whatever
   * its position was; it stays the same piece with the same target.
   */
  function ShufflePiece(p: Piece, draw: (real, real)): (r: Piece)
    ensures r.id == p.id && r.finalX == p.finalX && r.finalY == p.finalY
    ensures (r.x, r.y) == draw
  {
    p.(x := draw.0, y := draw.1)
  }

  /**
   * Being snapped is a matter of position only: a snapped piece that is moved
   * stays snapped exactly when the move is by zero in both directions.
   */
  lemma MovedOffTarget(p: Piece, dx: real, dy: real)
    requires IsSnapped(p)
    ensures IsSnapped(Translate(p, dx, dy)) <==> dx == 0.0 && dy == 0.0
  {
  }

  /**
   * The piece after a drag session's MOVE events at the touch points of
   * `path`, when the last touch seen before them was (lastX, lastY): each
   * event translates the piece by the step from the previous touch.
   */
  function DragAlong(p: Piece, lastX: real, lastY: real, path: seq<(real, real)>): Piece
    decreases |path|
  {
    if path == [] then p
    else DragAlong(Translate(p, path[0].0 - lastX, path[0].1 - lastY), path[0].0, path[0].1, path[1..])
  }

  /**
   * Over any run of MOVE events the per-event deltas add up: the piece ends
   * displaced by exactly the final touch minus the touch the session started
   * from, and nothing but its position changes.
   */
  lemma {:induction false} DragDisplacement(p: Piece, lastX: real, lastY: real, path: seq<(real, real)>)
    requires path != []
    decreases |path|
    ensures DragAlong(p, lastX, lastY, path)
         == p.(x := p.x + (path[|path| - 1].0 - lastX), y := p.y + (path[|path| - 1].1 - lastY))
  {
    var q := Translate(p, path[0].0 - lastX, path[0].1 - lastY);
    if |path| > 1 {
      DragDisplacement(q, path[0].0, path[0].1, path[1..]);
      assert path[1..][|path[1..]| - 1] == path[|path| - 1];
    }
  }
}
