/**
 * The saved form of a board: the piece ids in list order, and beside them the
 * piece positions flattened into one array, x then y for each piece.
 */
module SavedState {
  import opened Pieces
  import opened ZOrder

  /** `ids` and `locations` are what saving the list s writes. */
  predicate IsSaveOf(s: seq<Piece>, ids: seq<int>, locations: seq<real>) {
    |ids| == |s| && |locations| == 2 * |s| &&
    forall i :: 0 <= i < |s| ==>
      ids[i] == s[i].id && locations[2 * i] == s[i].x && locations[2 * i + 1] == s[i].y
  }

  /** The piece p moved to the saved position of index k (`setX`, then `setY`). */
  function PlaceAt(p: Piece, locations: seq<real>, k: nat): Piece
    requires 2 * k + 1 < |locations|
  {
    p.(x := locations[2 * k]).(y := locations[2 * k + 1])
  }

  /** Every piece of t sits at the position `locations` gives for its index. */
  predicate PlacedFrom(t: seq<Piece>, locations: seq<real>) {
    |locations| == 2 * |t| &&
    forall i :: 0 <= i < |t| ==> t[i].x == locations[2 * i] && t[i].y == locations[2 * i + 1]
  }

  /** Every piece of s has the target that `targets` records for its id. */
  predicate TargetsAgree(s: seq<Piece>, targets: map<int, (real, real)>) {
    forall p :: p in s ==> p.id in targets && targets[p.id] == (p.finalX, p.finalY)
  }

  /**
   * The state of the load loop before it looks for the piece of index i: the
   * first i pieces carry the saved ids in order, and the rest of the list
   * holds exactly the remaining saved ids.
   */
  predicate AlignedBelow(s: seq<Piece>, ids: seq<int>, i: nat) {
    i <= |s| == |ids| &&
    (forall k :: 0 <= k < i ==> s[k].id == ids[k]) &&
    multiset(IdsOf(s)[i..]) == multiset(ids[i..])
  }

  /** At the start every saved id that the list holds is still ahead. */
  lemma AlignedAtStart(s: seq<Piece>, ids: seq<int>)
    requires multiset(ids) == multiset(IdsOf(s))
    ensures AlignedBelow(s, ids, 0)
  {
    assert |ids| == |multiset(ids)| == |multiset(IdsOf(s))| == |s|;
    assert IdsOf(s)[0..] == IdsOf(s) && ids[0..] == ids;
  }

  /** The id wanted at index i is either there already or further on. */
  lemma WantedAhead(s: seq<Piece>, ids: seq<int>, i: nat)
    requires AlignedBelow(s, ids, i) && i < |s|
    ensures s[i].id == ids[i] || ids[i] in IdsOf(s)[i + 1..]
  {
    assert IdsOf(s)[i..] == [s[i].id] + IdsOf(s)[i + 1..];
    assert ids[i..] == [ids[i]] + ids[i + 1..];
    assert ids[i] in multiset(IdsOf(s)[i..]);
  }

  /** Passing over index j without a match keeps the wanted id ahead. */
  lemma WantedFurther(s: seq<Piece>, want: int, j: nat)
    requires j < |s| && want in IdsOf(s)[j..] && s[j].id != want
    ensures want in IdsOf(s)[j + 1..]
  {
    assert IdsOf(s)[j..] == [s[j].id] + IdsOf(s)[j + 1..];
  }

  /**
   * Swapping the piece with the wanted id from index j into index i keeps
   * the loop state, the same pieces and distinct ids, and puts the wanted id
   * at i.
   */
  lemma SwapInto(s: seq<Piece>, ids: seq<int>, i: nat, j: nat)
    requires AlignedBelow(s, ids, i) && i < j < |s| && s[j].id == ids[i]
    ensures AlignedBelow(Swap(s, i, j), ids, i) && Swap(s, i, j)[i].id == ids[i]
    ensures multiset(Swap(s, i, j)) == multiset(s)
    ensures Distinct(IdsOf(s)) ==> Distinct(IdsOf(Swap(s, i, j)))
  {
    SwapKeeps(s, i, i, j);
  }

  /** Once index i carries its saved id, the loop may move on to i + 1. */
  lemma AlignedNext(s: seq<Piece>, ids: seq<int>, i: nat)
    requires AlignedBelow(s, ids, i) && i < |s| && s[i].id == ids[i]
    ensures AlignedBelow(s, ids, i + 1)
  {
    var a, b := IdsOf(s)[i + 1..], ids[i + 1..];
    assert IdsOf(s)[i..] == [ids[i]] + a;
    assert ids[i..] == [ids[i]] + b;
    var m := multiset{ids[i]};
    assert m + multiset(a) == m + multiset(b);
    forall v ensures multiset(a)[v] == multiset(b)[v] {
      assert (m + multiset(a))[v] == m[v] + multiset(a)[v];
      assert (m + multiset(b))[v] == m[v] + multiset(b)[v];
    }
    assert multiset(a) == multiset(b);
  }

  /**
   * When every index but the last carries its saved id, so does the last:
   * the one id left over can only be the last saved id.
   */
  lemma AlignedAtEnd(s: seq<Piece>, ids: seq<int>, i: nat)
    requires AlignedBelow(s, ids, i) && i + 1 >= |s|
    ensures IdsOf(s) == ids
  {
    if i < |s| {
      assert IdsOf(s)[i..] == [s[i].id];
      assert ids[i..] == [ids[i]];
      assert multiset{s[i].id} == multiset{ids[i]};
      assert s[i].id in multiset{ids[i]};
    }
  }

  /**
   * When the piece at i already carries the wanted id, no later piece does
   * (ids are distinct): the inner loop finds nothing to swap for index i.
   */
  lemma NoSwapWhenAligned(s: seq<Piece>, ids: seq<int>, i: nat, j: nat)
    requires Distinct(IdsOf(s)) && i < j < |s| && i < |ids| && s[i].id == ids[i]
    ensures s[j].id != ids[i]
  {
    UniqueAt(s, i);
  }

  /** Reordering a list keeps every piece with its recorded target. */
  lemma TargetsAgreeReordered(s: seq<Piece>, t: seq<Piece>, targets: map<int, (real, real)>)
    requires multiset(t) == multiset(s) && TargetsAgree(s, targets)
    ensures TargetsAgree(t, targets)
  {
    forall p | p in t ensures p.id in targets && targets[p.id] == (p.finalX, p.finalY) {
      assert p in multiset(s);
    }
  }

  /**
   * Restoring a save brings back the saved board exactly: a list of the same
   * puzzle's pieces (each with the target its id has) put in the saved id
   * order and at the saved positions is the list that was saved, order and
   * positions alike.
   */
  lemma SaveLoadRoundTrip(s: seq<Piece>, t: seq<Piece>, ids: seq<int>, locations: seq<real>,
                          targets: map<int, (real, real)>)
    requires IsSaveOf(s, ids, locations)
    requires TargetsAgree(s, targets) && TargetsAgree(t, targets)
    requires IdsOf(t) == ids && PlacedFrom(t, locations)
    ensures t == s
  {
    assert |t| == |s|;
    forall i | 0 <= i < |s| ensures t[i] == s[i] {
      assert t[i] in t && s[i] in s;
      assert t[i].id == IdsOf(t)[i] == s[i].id;
    }
  }
}
