/**
 * The board's list of pieces is both its draw order and its hit-test order:
 * the last piece is drawn last, on top, and is the first one a touch finds.
 * This module holds the list surgery the board performs on that order and
 * what each step keeps: the same pieces, and the others in the same order.
 */
module ZOrder {
  import opened Wrappers
  import opened Pieces

  /** The ids of the pieces, in list order. */
  function IdsOf(s: seq<Piece>): (ids: seq<int>)
    ensures |ids| == |s|
  {
    seq(|s|, i requires 0 <= i < |s| => s[i].id)
  }

  /** No id occurs twice. */
  predicate Distinct(ids: seq<int>) {
    forall i, j :: 0 <= i < j < |ids| ==> ids[i] != ids[j]
  }

  /** The list with the element at index k taken out (`ArrayList.remove`). */
  function RemoveAt(s: seq<Piece>, k: nat): seq<Piece>
    requires k < |s|
  {
    s[..k] + s[k + 1..]
  }

  /** Remove the piece at index k and append it: it becomes the topmost. */
  function BringToFront(s: seq<Piece>, k: nat): seq<Piece>
    requires k < |s|
  {
    RemoveAt(s, k) + [s[k]]
  }

  /** Remove the piece at index k and insert it at index 0: it becomes the bottommost. */
  function SendToBack(s: seq<Piece>, k: nat): seq<Piece>
    requires k < |s|
  {
    [s[k]] + RemoveAt(s, k)
  }

  /** Exchange the pieces at indexes i and j (two `ArrayList.set` calls). */
  function Swap(s: seq<Piece>, i: nat, j: nat): seq<Piece>
    requires i < |s| && j < |s|
  {
    s[i := s[j]][j := s[i]]
  }

  /** The pieces other than the one with id d, in their list order. */
  function Without(s: seq<Piece>, d: int): seq<Piece>
  {
    if s == [] then []
    else (if s[0].id == d then [] else [s[0]]) + Without(s[1..], d)
  }

  /**
   * The index a touch at (x, y) selects: scanning from the last piece down to
   * the first, the first piece that `hit` reports; none when no piece is hit.
   */
  function TopmostHit(s: seq<Piece>, hit: (Piece, real, real) -> bool, x: real, y: real): (r: Option<nat>)
    ensures r.Some? ==> r.value < |s| && hit(s[r.value], x, y)
    ensures r.Some? ==> forall j :: r.value < j < |s| ==> !hit(s[j], x, y)
    ensures r.None? <==> forall j :: 0 <= j < |s| ==> !hit(s[j], x, y)
    decreases |s|
  {
    if |s| == 0 then None
    else if hit(s[|s| - 1], x, y) then Some(|s| - 1)
    else TopmostHit(s[..|s| - 1], hit, x, y)
  }

  /**
   * The index of the first piece with id d: where a reference to that piece
   * sits in the list (`ArrayList.remove(Object)` removes this one).
   */
  function IndexOf(s: seq<Piece>, d: int): (k: nat)
    requires d in IdsOf(s)
    ensures k < |s| && s[k].id == d
    ensures forall i :: 0 <= i < k ==> s[i].id != d
  {
    if s[0].id == d then 0
    else
      assert IdsOf(s) == [s[0].id] + IdsOf(s[1..]);
      1 + IndexOf(s[1..], d)
  }

  /** Lists with the same ids in the same order find an id at the same index. */
  lemma IndexOfSameIds(s: seq<Piece>, t: seq<Piece>, d: int)
    requires IdsOf(s) == IdsOf(t) && d in IdsOf(s)
    ensures IndexOf(s, d) == IndexOf(t, d)
  {
    forall m | 0 <= m < |s| ensures s[m].id == t[m].id {
      assert IdsOf(s)[m] == s[m].id && IdsOf(t)[m] == t[m].id;
    }
  }

  lemma {:induction false} WithoutAppend(a: seq<Piece>, b: seq<Piece>, d: int)
    ensures Without(a + b, d) == Without(a, d) + Without(b, d)
  {
    if a != [] {
      assert (a + b)[1..] == a[1..] + b;
      WithoutAppend(a[1..], b, d);
    } else {
      assert a + b == b;
    }
  }

  /** A list that does not hold id d loses nothing to `Without`. */
  lemma {:induction false} WithoutAbsent(s: seq<Piece>, d: int)
    requires forall i :: 0 <= i < |s| ==> s[i].id != d
    ensures Without(s, d) == s
  {
    if s != [] {
      WithoutAbsent(s[1..], d);
    }
  }

  lemma IdsOfAppend(a: seq<Piece>, b: seq<Piece>)
    ensures IdsOf(a + b) == IdsOf(a) + IdsOf(b)
  {
  }

  /** The ids left after taking out index k are the ids with index k taken out. */
  lemma IdsOfRemoveAt(s: seq<Piece>, k: nat)
    requires k < |s|
    ensures IdsOf(RemoveAt(s, k)) == IdsOf(s)[..k] + IdsOf(s)[k + 1..]
  {
    IdsOfAppend(s[..k], s[k + 1..]);
  }

  /** Dropping index k of a sequence of distinct ids leaves distinct ids without that id. */
  lemma DistinctDrop(a: seq<int>, k: nat)
    requires k < |a| && Distinct(a)
    ensures Distinct(a[..k] + a[k + 1..])
    ensures a[k] !in a[..k] + a[k + 1..]
    ensures multiset(a[..k] + a[k + 1..]) + multiset{a[k]} == multiset(a)
  {
    var r := a[..k] + a[k + 1..];
    assert forall i :: 0 <= i < |r| ==> r[i] == (if i < k then a[i] else a[i + 1]);
    assert a == a[..k] + [a[k]] + a[k + 1..];
  }

  /** A fresh id added at either end keeps the ids distinct. */
  lemma DistinctExtend(a: seq<int>, d: int)
    requires Distinct(a) && d !in a
    ensures Distinct([d] + a) && Distinct(a + [d])
  {
    var front, back := [d] + a, a + [d];
    forall i, j | 0 <= i < j < |front| ensures front[i] != front[j] {
      assert front[j] == a[j - 1];
      if i > 0 { assert front[i] == a[i - 1]; }
    }
    forall i, j | 0 <= i < j < |back| ensures back[i] != back[j] {
      assert back[i] == a[i];
      if j < |a| { assert back[j] == a[j]; }
    }
  }

  /**
   * Taking out the piece at index k leaves the other pieces, in order, with
   * distinct ids, the removed id absent, and one piece fewer.
   */
  lemma RemoveAtKeeps(s: seq<Piece>, k: nat)
    requires k < |s| && Distinct(IdsOf(s))
    ensures |RemoveAt(s, k)| == |s| - 1
    ensures multiset(RemoveAt(s, k)) + multiset{s[k]} == multiset(s)
    ensures multiset(IdsOf(RemoveAt(s, k))) + multiset{s[k].id} == multiset(IdsOf(s))
    ensures s[k].id !in IdsOf(RemoveAt(s, k))
    ensures Distinct(IdsOf(RemoveAt(s, k)))
    ensures Without(s, s[k].id) == RemoveAt(s, k)
    ensures Without(RemoveAt(s, k), s[k].id) == RemoveAt(s, k)
  {
    var d := s[k].id;
    assert s == s[..k] + [s[k]] + s[k + 1..];
    IdsOfRemoveAt(s, k);
    DistinctDrop(IdsOf(s), k);
    UniqueAt(s, k);
    WithoutRemoveAt(s, k);
  }

  /** With distinct ids, no other piece shares the id of the piece at index k. */
  lemma UniqueAt(s: seq<Piece>, k: nat)
    requires k < |s| && Distinct(IdsOf(s))
    ensures forall i :: 0 <= i < |s| && i != k ==> s[i].id != s[k].id
  {
    forall i | 0 <= i < |s| && i != k ensures s[i].id != s[k].id {
      assert IdsOf(s)[i] == s[i].id && IdsOf(s)[k] == s[k].id;
    }
  }

  /** A piece on its own is all that `Without` removes for its id. */
  lemma WithoutSingle(p: Piece)
    ensures Without([p], p.id) == []
  {
    assert Without([p], p.id) == [] + Without([], p.id);
  }

  lemma {:induction false} WithoutRemoveAt(s: seq<Piece>, k: nat)
    requires k < |s|
    requires forall i :: 0 <= i < |s| && i != k ==> s[i].id != s[k].id
    ensures Without(s, s[k].id) == RemoveAt(s, k)
    ensures Without(RemoveAt(s, k), s[k].id) == RemoveAt(s, k)
  {
    var d := s[k].id;
    if k == 0 {
      WithoutAbsent(s[1..], d);
      assert RemoveAt(s, k) == s[1..];
    } else {
      var t := s[1..];
      assert t[k - 1] == s[k];
      WithoutRemoveAt(t, k - 1);
      assert RemoveAt(s, k) == [s[0]] + RemoveAt(t, k - 1);
    }
    WithoutAbsentAfterRemove(s, k);
  }

  lemma WithoutAbsentAfterRemove(s: seq<Piece>, k: nat)
    requires k < |s|
    requires forall i :: 0 <= i < |s| && i != k ==> s[i].id != s[k].id
    ensures Without(RemoveAt(s, k), s[k].id) == RemoveAt(s, k)
  {
    var r := RemoveAt(s, k);
    assert forall i :: 0 <= i < |r| ==> r[i] == (if i < k then s[i] else s[i + 1]);
    WithoutAbsent(r, s[k].id);
  }

  /**
   * Bringing the piece at index k to the front keeps the same pieces, puts
   * that piece last, and keeps every other piece in its relative order.
   */
  lemma BringToFrontKeeps(s: seq<Piece>, k: nat)
    requires k < |s| && Distinct(IdsOf(s))
    ensures |BringToFront(s, k)| == |s| && BringToFront(s, k)[|s| - 1] == s[k]
    ensures multiset(BringToFront(s, k)) == multiset(s)
    ensures multiset(IdsOf(BringToFront(s, k))) == multiset(IdsOf(s))
    ensures Distinct(IdsOf(BringToFront(s, k)))
    ensures Without(BringToFront(s, k), s[k].id) == Without(s, s[k].id)
  {
    var r := RemoveAt(s, k);
    RemoveAtKeeps(s, k);
    IdsOfAppend(r, [s[k]]);
    assert IdsOf([s[k]]) == [s[k].id];
    DistinctExtend(IdsOf(r), s[k].id);
    WithoutAppend(r, [s[k]], s[k].id);
    WithoutSingle(s[k]);
  }

  /**
   * Sending the piece at index k to the back keeps the same pieces, puts that
   * piece first, and keeps every other piece in its relative order.
   */
  lemma SendToBackKeeps(s: seq<Piece>, k: nat)
    requires k < |s| && Distinct(IdsOf(s))
    ensures |SendToBack(s, k)| == |s| && SendToBack(s, k)[0] == s[k]
    ensures multiset(SendToBack(s, k)) == multiset(s)
    ensures multiset(IdsOf(SendToBack(s, k))) == multiset(IdsOf(s))
    ensures Distinct(IdsOf(SendToBack(s, k)))
    ensures Without(SendToBack(s, k), s[k].id) == Without(s, s[k].id)
  {
    var r := RemoveAt(s, k);
    RemoveAtKeeps(s, k);
    IdsOfAppend([s[k]], r);
    assert IdsOf([s[k]]) == [s[k].id];
    DistinctExtend(IdsOf(r), s[k].id);
    WithoutAppend([s[k]], r, s[k].id);
    WithoutSingle(s[k]);
  }

  /**
   * Touching again at the same point right after a touch selected a piece
   * selects that same piece, now the topmost, and bringing it to the front a
   * second time changes nothing.
   */
  lemma RetouchIsStable(s: seq<Piece>, hit: (Piece, real, real) -> bool, x: real, y: real)
    requires TopmostHit(s, hit, x, y).Some?
    ensures var t := BringToFront(s, TopmostHit(s, hit, x, y).value);
            TopmostHit(t, hit, x, y) == Some(|s| - 1) && BringToFront(t, |s| - 1) == t
  {
    var k := TopmostHit(s, hit, x, y).value;
    var t := BringToFront(s, k);
    var n := |t|;
    assert n == |s| && t[n - 1] == s[k];
    assert TopmostHit(t, hit, x, y) == Some(n - 1);
    assert t[..n - 1] + t[n..] + [t[n - 1]] == t;
  }

  /** Exchanging two pieces keeps the same pieces, and from index lo on the same ids. */
  lemma SwapKeeps(s: seq<Piece>, lo: nat, i: nat, j: nat)
    requires lo <= i < |s| && lo <= j < |s|
    ensures |Swap(s, i, j)| == |s|
    ensures multiset(Swap(s, i, j)) == multiset(s)
    ensures multiset(IdsOf(Swap(s, i, j))[lo..]) == multiset(IdsOf(s)[lo..])
    ensures Distinct(IdsOf(s)) ==> Distinct(IdsOf(Swap(s, i, j)))
  {
    var a := IdsOf(s);
    var b := IdsOf(Swap(s, i, j));
    assert b == a[i := a[j]][j := a[i]];
    assert b[lo..] == a[lo..][i - lo := a[j]][j - lo := a[i]];
    if Distinct(a) {
      forall p, q | 0 <= p < q < |b| ensures b[p] != b[q] {
        var p' := if p == i then j else if p == j then i else p;
        var q' := if q == i then j else if q == j then i else q;
        assert b[p] == a[p'] && b[q] == a[q'] && p' != q';
      }
    }
  }
}
