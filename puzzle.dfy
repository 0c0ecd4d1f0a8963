/**
 * The board of the jigsaw puzzle and its touch handling.
 *
 * The board keeps its pieces in one list that is both the draw order and the
 * hit-test order (last = topmost). A drag session is either idle or dragging
 * one piece, and remembers the last touch point. Touch coordinates arrive
 * already relative to the puzzle; the hit test and the snap tolerance belong
 * to the pieces and are given as uninterpreted functions.
 */
module PuzzleBoard {
  import opened Wrappers
  import opened Pieces
  import opened ZOrder
  import opened SavedState

  /** The touch actions the board tells apart; `Other` is any further action. */
  datatype Action = Down | Up | Cancel | Move | Other

  /** The targets of the six pieces of the puzzle image, in creation order. */
  const FinalPositions: seq<(real, real)> :=
    [(0.264, 0.175), (0.701, 0.239), (0.751, 0.522), (0.335, 0.477), (0.662, 0.792), (0.254, 0.818)]

  /** The map from each id to the target listed at the same index. */
  function TargetsOf(ids: seq<int>, targets: seq<(real, real)>): (m: map<int, (real, real)>)
    requires |ids| == |targets| && Distinct(ids)
    ensures forall i :: 0 <= i < |ids| ==> ids[i] in m && m[ids[i]] == targets[i]
    decreases |ids|
  {
    if ids == [] then map[]
    else
      var n := |ids| - 1;
      TargetsOf(ids[..n], targets[..n])[ids[n] := targets[n]]
  }

  class Puzzle {
    /** The pieces, bottommost first. */
    var pieces: seq<Piece>
    /** The id of the piece being dragged; None when idle. */
    var dragging: Option<int>
    /** The most recent touch while dragging. */
    var lastRelX: real
    var lastRelY: real

    /** The ids of the pieces the puzzle was built with. */
    ghost const Roster: multiset<int>
    /** The target of each of those pieces, by id. */
    ghost const Targets: map<int, (real, real)>

    /**
     * The board always holds exactly the pieces it was built with: distinct
     * ids, the same ids, each piece with its own target; a dragged piece is
     * one of them.
     */
    ghost predicate Valid()
      reads this
    {
      Distinct(IdsOf(pieces)) &&
      multiset(IdsOf(pieces)) == Roster &&
      TargetsAgree(pieces, Targets) &&
      (dragging.Some? ==> dragging.value in IdsOf(pieces))
    }

    /** A touch-down at (x, y) selects the topmost piece hit and brings it to the front. */
    twostate predicate Touched(x: real, y: real, hit: (Piece, real, real) -> bool, handled: bool)
      reads this
    {
      match TopmostHit(old(pieces), hit, x, y)
      case None =>
        !handled && pieces == old(pieces) && dragging == old(dragging) &&
        lastRelX == old(lastRelX) && lastRelY == old(lastRelY)
      case Some(k) =>
        handled && pieces == BringToFront(old(pieces), k) && dragging == Some(old(pieces)[k].id) &&
        lastRelX == x && lastRelY == y
    }

    /**
     * A move to (relX, relY) translates the dragged piece by the step from the
     * last touch, in place, and records the new touch; when idle it does nothing.
     */
    twostate predicate Dragged(relX: real, relY: real, handled: bool)
      reads this
    {
      dragging == old(dragging) &&
      match old(dragging)
      case None =>
        !handled && pieces == old(pieces) && lastRelX == old(lastRelX) && lastRelY == old(lastRelY)
      case Some(d) =>
        handled && d in IdsOf(old(pieces)) &&
        var k := IndexOf(old(pieces), d);
        pieces == old(pieces)[k := Translate(old(pieces)[k], relX - old(lastRelX), relY - old(lastRelY))] &&
        lastRelX == relX && lastRelY == relY
    }

    /**
     * A release ends the drag session whatever happens. When the dragged piece
     * snaps it is sent to the back of the order; `done` reports that this snap
     * completed the puzzle.
     */
    twostate predicate Released(near: Piece -> bool, handled: bool, done: bool)
      reads this
    {
      dragging == None && lastRelX == old(lastRelX) && lastRelY == old(lastRelY) &&
      match old(dragging)
      case None =>
        !handled && !done && pieces == old(pieces)
      case Some(d) =>
        handled && d in IdsOf(old(pieces)) &&
        var k := IndexOf(old(pieces), d);
        var snap := MaybeSnap(old(pieces)[k], near);
        (if snap.0 then pieces == SendToBack(old(pieces)[k := snap.1], k) else pieces == old(pieces)) &&
        done == (snap.0 && AllSnapped(pieces))
    }

    /**
     * Builds the six pieces, with the given drawable ids as their ids and the
     * image's targets, then shuffles them with the given random draws.
     */
    constructor (drawables: seq<int>, draws: seq<(real, real)>)
      requires |drawables| == |FinalPositions| && Distinct(drawables)
      requires |draws| == |FinalPositions|
      ensures Valid()
      ensures Roster == multiset(drawables) && Targets == TargetsOf(drawables, FinalPositions)
      ensures dragging == None && lastRelX == 0.0 && lastRelY == 0.0
      ensures IdsOf(pieces) == drawables
      ensures forall i :: 0 <= i < |pieces| ==>
        (pieces[i].finalX, pieces[i].finalY) == FinalPositions[i] && (pieces[i].x, pieces[i].y) == draws[i]
    {
      var n := |FinalPositions|;
      pieces := seq(n, i requires 0 <= i < n => Piece(drawables[i], FinalPositions[i].0, FinalPositions[i].1, 0.0, 0.0));
      dragging := None;
      lastRelX, lastRelY := 0.0, 0.0;
      Roster := multiset(drawables);
      Targets := TargetsOf(drawables, FinalPositions);
      new;
      assert IdsOf(pieces) == drawables;
      Shuffle(draws);
    }

    /**
     * Every piece is snapped. Scans the list and stops at the first piece that
     * is not.
     */
    method IsDone() returns (done: bool)
      ensures done == AllSnapped(pieces)
    {
      for i := 0 to |pieces|
        invariant forall j :: 0 <= j < i ==> IsSnapped(pieces[j])
      {
        if !IsSnapped(pieces[i]) {
          return false;
        }
      }
      return true;
    }

    /** Moves each piece, in list order, to the next draw of the random source. */
    method Shuffle(draws: seq<(real, real)>)
      requires Valid() && |draws| == |pieces|
      modifies this
      ensures Valid()
      ensures dragging == old(dragging) && lastRelX == old(lastRelX) && lastRelY == old(lastRelY)
      ensures |pieces| == |old(pieces)| && IdsOf(pieces) == IdsOf(old(pieces))
      ensures forall i :: 0 <= i < |pieces| ==> pieces[i] == ShufflePiece(old(pieces)[i], draws[i])
    {
      for i := 0 to |pieces|
        invariant |pieces| == |old(pieces)|
        invariant forall j :: 0 <= j < i ==> pieces[j] == ShufflePiece(old(pieces)[j], draws[j])
        invariant forall j :: i <= j < |pieces| ==> pieces[j] == old(pieces)[j]
        invariant dragging == old(dragging) && lastRelX == old(lastRelX) && lastRelY == old(lastRelY)
      {
        pieces := pieces[i := ShufflePiece(pieces[i], draws[i])];
      }
      assert IdsOf(pieces) == IdsOf(old(pieces));
      forall p | p in pieces ensures p.id in Targets && Targets[p.id] == (p.finalX, p.finalY) {
        var i :| 0 <= i < |pieces| && pieces[i] == p;
        assert old(pieces)[i] in old(pieces);
      }
    }

    /**
     * A touch-down: scan from the topmost piece down; the first piece hit
     * becomes the dragged piece, is moved to the end of the list, and the
     * touch is recorded.
     */
    method OnTouched(x: real, y: real, hit: (Piece, real, real) -> bool) returns (handled: bool)
      requires Valid()
      modifies this
      ensures Valid()
      ensures Touched(x, y, hit, handled)
    {
      var p := |pieces| - 1;
      while p >= 0
        invariant -1 <= p < |pieces|
        invariant forall j :: p < j < |pieces| ==> !hit(pieces[j], x, y)
        invariant pieces == old(pieces) && dragging == old(dragging)
        invariant lastRelX == old(lastRelX) && lastRelY == old(lastRelY)
      {
        if hit(pieces[p], x, y) {
          ghost var s := pieces;
          var piece := pieces[p];
          dragging := Some(piece.id);
          lastRelX, lastRelY := x, y;
          pieces := RemoveAt(pieces, p) + [piece];
          assert TopmostHit(s, hit, x, y) == Some(p);
          assert Valid() by {
            BringToFrontKeeps(s, p);
            TargetsAgreeReordered(s, pieces, Targets);
            assert IdsOf(pieces)[|pieces| - 1] == piece.id;
          }
          return true;
        }
        p := p - 1;
      }
      return false;
    }

    /**
     * A release: when dragging, try to snap the dragged piece; a piece that
     * snaps is moved to the start of the list, and the puzzle is checked for
     * completion. The session ends either way. The release point is not used.
     */
    method OnReleased(x: real, y: real, near: Piece -> bool) returns (handled: bool, done: bool)
      requires Valid()
      modifies this
      ensures Valid()
      ensures Released(near, handled, done)
    {
      if dragging.Some? {
        var k := IndexOf(pieces, dragging.value);
        var snap := MaybeSnap(pieces[k], near);
        ghost var before := pieces;
        pieces := pieces[k := snap.1];
        assert IdsOf(pieces) == IdsOf(before);
        done := false;
        if snap.0 {
          var piece := pieces[k];
          SendToBackKeeps(pieces, k);
          pieces := [piece] + RemoveAt(pieces, k);
          done := IsDone();
        }
        dragging := None;
        return true, done;
      }
      return false, false;
    }

    /**
     * Dispatches one touch event at (relX, relY), relative to the puzzle. A
     * move while dragging is handled here; `done` reports that a release
     * completed the puzzle.
     */
    method OnTouchEvent(action: Action, relX: real, relY: real,
                        hit: (Piece, real, real) -> bool, near: Piece -> bool)
      returns (handled: bool, done: bool)
      requires Valid()
      modifies this
      ensures Valid()
      ensures action == Down ==> Touched(relX, relY, hit, handled) && !done
      ensures action == Up || action == Cancel ==> Released(near, handled, done)
      ensures action == Move ==> Dragged(relX, relY, handled) && !done
      ensures action == Other ==> !handled && !done && unchanged(this)
    {
      done := false;
      match action
      case Down =>
        handled := OnTouched(relX, relY, hit);
      case Up =>
        handled, done := OnReleased(relX, relY, near);
      case Cancel =>
        handled, done := OnReleased(relX, relY, near);
      case Move =>
        if dragging.Some? {
          var k := IndexOf(pieces, dragging.value);
          var deltaX := relX - lastRelX;
          var deltaY := relY - lastRelY;
          ghost var before := pieces;
          pieces := pieces[k := Translate(pieces[k], deltaX, deltaY)];
          assert IdsOf(pieces) == IdsOf(before);
          lastRelX, lastRelY := relX, relY;
          handled := true;
        } else {
          handled := false;
        }
      case Other =>
        handled := false;
    }

    /**
     * Saving: the ids in list order, and the positions flattened as x, y per
     * piece.
     */
    method SaveInstanceState() returns (ids: seq<int>, locations: seq<real>)
      ensures IsSaveOf(pieces, ids, locations)
    {
      var locs := new real[|pieces| * 2];
      var idArray := new int[|pieces|];
      for i := 0 to |pieces|
        invariant forall j :: 0 <= j < i ==>
          idArray[j] == pieces[j].id && locs[2 * j] == pieces[j].x && locs[2 * j + 1] == pieces[j].y
      {
        var piece := pieces[i];
        locs[i * 2] := piece.x;
        locs[i * 2 + 1] := piece.y;
        idArray[i] := piece.id;
      }
      ids, locations := idArray[..], locs[..];
    }

    /**
     * Loading: first reorder the pieces by swaps so that index i holds the
     * piece with id ids[i], then give each index its saved position. The
     * ghost results are the reordered list before positions are assigned and
     * the number of swaps made.
     */
    method LoadInstanceState(ids: seq<int>, locations: seq<real>) returns (ghost aligned: seq<Piece>, ghost swaps: nat)
      requires Valid()
      requires multiset(ids) == multiset(IdsOf(pieces))
      requires |locations| == 2 * |ids|
      modifies this`pieces
      ensures Valid()
      ensures multiset(aligned) == multiset(old(pieces)) && IdsOf(aligned) == ids
      ensures |pieces| == |aligned|
      ensures forall i :: 0 <= i < |pieces| ==> pieces[i] == PlaceAt(aligned[i], locations, i)
      ensures IdsOf(pieces) == ids && PlacedFrom(pieces, locations)
      ensures IdsOf(old(pieces)) == ids ==> swaps == 0 && aligned == old(pieces)
    {
      var n := |ids|;
      AlignedAtStart(pieces, ids);
      swaps := 0;
      var i := 0;
      while i < n - 1
        invariant 0 <= i && (n == 0 || i <= n - 1)
        invariant AlignedBelow(pieces, ids, i)
        invariant multiset(pieces) == multiset(old(pieces)) && Distinct(IdsOf(pieces))
        invariant IdsOf(old(pieces)) == ids ==> pieces == old(pieces) && swaps == 0
      {
        WantedAhead(pieces, ids, i);
        ghost var entry, entrySwaps := pieces, swaps;
        assert IdsOf(old(pieces)) == ids ==> entry[i].id == ids[i] by {
          if IdsOf(old(pieces)) == ids {
            assert IdsOf(entry)[i] == entry[i].id;
          }
        }
        var j := i + 1;
        while j < n
          invariant i + 1 <= j <= n
          invariant AlignedBelow(pieces, ids, i)
          invariant multiset(pieces) == multiset(old(pieces)) && Distinct(IdsOf(pieces))
          invariant pieces[i].id == ids[i] || ids[i] in IdsOf(pieces)[j..]
          invariant entry[i].id == ids[i] ==> pieces == entry && swaps == entrySwaps
        {
          if ids[i] == pieces[j].id {
            assert entry[i].id != ids[i] by {
              if entry[i].id == ids[i] {
                NoSwapWhenAligned(pieces, ids, i, j);
              }
            }
            SwapInto(pieces, ids, i, j);
            pieces := Swap(pieces, i, j);
            swaps := swaps + 1;
          } else if pieces[i].id != ids[i] {
            WantedFurther(pieces, ids[i], j);
          }
          j := j + 1;
        }
        assert IdsOf(pieces)[n..] == [];
        AlignedNext(pieces, ids, i);
        i := i + 1;
      }
      AlignedAtEnd(pieces, ids, i);
      aligned := pieces;
      assert TargetsAgree(aligned, Targets) by {
        TargetsAgreeReordered(old(pieces), aligned, Targets);
      }

      for i := 0 to |pieces|
        invariant |pieces| == n
        invariant forall k :: 0 <= k < i ==> pieces[k] == PlaceAt(aligned[k], locations, k)
        invariant forall k :: i <= k < n ==> pieces[k] == aligned[k]
      {
        pieces := pieces[i := PlaceAt(pieces[i], locations, i)];
      }
      assert IdsOf(pieces) == ids;
      assert Valid() by {
        forall p | p in pieces ensures p.id in Targets && Targets[p.id] == (p.finalX, p.finalY) {
          var k :| 0 <= k < n && pieces[k] == p;
          assert aligned[k] in aligned;
        }
        if dragging.Some? {
          assert dragging.value in multiset(IdsOf(old(pieces)));
        }
      }
    }
  }

  /**
   * A drag session's run of MOVE events, delivered one at a time at the touch
   * points of `path`: the dragged piece ends where `DragAlong` puts it, which
   * is its start displaced by the last touch minus the touch the session
   * started from; every other piece, and the order, stay as they were.
   */
  method DragSession(board: Puzzle, path: seq<(real, real)>,
                     hit: (Piece, real, real) -> bool, near: Piece -> bool)
    requires board.Valid() && board.dragging.Some?
    modifies board
    ensures board.Valid() && board.dragging == old(board.dragging)
    ensures var d := board.dragging.value;
            var k := IndexOf(old(board.pieces), d);
            var moved := DragAlong(old(board.pieces)[k], old(board.lastRelX), old(board.lastRelY), path);
            board.pieces == old(board.pieces)[k := moved] &&
            (path != [] ==>
               moved == old(board.pieces)[k].(x := old(board.pieces)[k].x + (path[|path| - 1].0 - old(board.lastRelX)),
                                              y := old(board.pieces)[k].y + (path[|path| - 1].1 - old(board.lastRelY))) &&
               board.lastRelX == path[|path| - 1].0 && board.lastRelY == path[|path| - 1].1)
    ensures path == [] ==> board.lastRelX == old(board.lastRelX) && board.lastRelY == old(board.lastRelY)
  {
    ghost var s0, x0, y0 := board.pieces, board.lastRelX, board.lastRelY;
    ghost var d := board.dragging.value;
    ghost var k := IndexOf(s0, d);
    for i := 0 to |path|
      invariant board.Valid() && board.dragging == Some(d)
      invariant IdsOf(board.pieces) == IdsOf(s0)
      invariant forall m :: 0 <= m < |s0| && m != k ==> board.pieces[m] == s0[m]
      invariant DragAlong(board.pieces[k], board.lastRelX, board.lastRelY, path[i..]) == DragAlong(s0[k], x0, y0, path)
      invariant i > 0 ==> board.lastRelX == path[i - 1].0 && board.lastRelY == path[i - 1].1
      invariant i == 0 ==> board.lastRelX == x0 && board.lastRelY == y0
    {
      ghost var before := board.pieces;
      var handled, done := board.OnTouchEvent(Move, path[i].0, path[i].1, hit, near);
      IndexOfSameIds(before, s0, d);
      assert path[i..][1..] == path[i + 1..];
    }
    assert path[|path|..] == [];
    if path != [] {
      DragDisplacement(s0[k], x0, y0, path);
    }
  }

  /**
   * The activity's save and re-create cycle: the state one puzzle saves,
   * loaded into a new puzzle built from the same pieces, gives the new puzzle
   * the saved list exactly, order and positions alike.
   */
  method RecreateFromSaved(saved: Puzzle, recreated: Puzzle)
    requires saved != recreated && saved.Valid() && recreated.Valid()
    requires saved.Roster == recreated.Roster && saved.Targets == recreated.Targets
    modifies recreated
    ensures recreated.Valid() && recreated.pieces == saved.pieces
    ensures recreated.dragging == old(recreated.dragging)
    ensures recreated.lastRelX == old(recreated.lastRelX) && recreated.lastRelY == old(recreated.lastRelY)
  {
    var ids, locations := saved.SaveInstanceState();
    assert ids == IdsOf(saved.pieces);
    ghost var aligned, swaps := recreated.LoadInstanceState(ids, locations);
    SaveLoadRoundTrip(saved.pieces, recreated.pieces, ids, locations, saved.Targets);
  }

  /**
   * Re-creating the activity: the view builds a new puzzle from the same
   * drawables, shuffled afresh, and the saved state is loaded into it. The
   * new board holds the saved list exactly and starts idle.
   */
  method RecreateActivity(saved: Puzzle, drawables: seq<int>, draws: seq<(real, real)>)
    returns (recreated: Puzzle)
    requires |drawables| == |FinalPositions| && Distinct(drawables) && |draws| == |FinalPositions|
    requires saved.Valid()
    requires saved.Roster == multiset(drawables) && saved.Targets == TargetsOf(drawables, FinalPositions)
    ensures fresh(recreated)
    ensures recreated.Valid() && recreated.pieces == saved.pieces
    ensures recreated.dragging == None && recreated.lastRelX == 0.0 && recreated.lastRelY == 0.0
  {
    recreated := new Puzzle(drawables, draws);
    RecreateFromSaved(saved, recreated);
  }
}
