/** Byte pieces laid out one behind the other, in some order. */
module Pieces {
  import opened Octets
  import opened Seqs

  function PieceNo(pieces: seq<Bytes>, i: nat): Bytes {
    if i < |pieces| then pieces[i] else []
  }

  /** The pieces named by `order`, one behind the other. */
  function Joined(pieces: seq<Bytes>, order: seq<nat>): Bytes {
    if order == [] then [] else Joined(pieces, order[..|order| - 1]) + PieceNo(pieces, order[|order| - 1])
  }

  /** Where the piece at place `k` of the order starts. */
  function Place(pieces: seq<Bytes>, order: seq<nat>, k: nat): nat
    requires k <= |order|
  {
    |Joined(pieces, order[..k])|
  }

  lemma JoinedMore(pieces: seq<Bytes>, order: seq<nat>, i: nat)
    ensures Joined(pieces, order + [i]) == Joined(pieces, order) + PieceNo(pieces, i)
  {
    assert (order + [i])[..|order|] == order;
  }

  lemma {:induction false} JoinedAppend(pieces: seq<Bytes>, a: seq<nat>, b: seq<nat>)
    ensures Joined(pieces, a + b) == Joined(pieces, a) + Joined(pieces, b)
  {
    if b == [] {
      assert a + b == a;
    } else {
      var n := |b| - 1;
      assert a + b == (a + b[..n]) + [b[n]] && b == b[..n] + [b[n]];
      JoinedAppend(pieces, a, b[..n]);
      hide Joined, PieceNo;
      JoinedMore(pieces, a + b[..n], b[n]);
      JoinedMore(pieces, b[..n], b[n]);
      Assoc(Joined(pieces, a), Joined(pieces, b[..n]), PieceNo(pieces, b[n]));
    }
  }

  lemma Middle(a: Bytes, b: Bytes, c: Bytes, whole: Bytes)
    requires whole == (a + b) + c
    ensures |a| + |b| <= |whole| && whole[|a|..|a| + |b|] == b
  {
  }

  /** The piece at place `k` stands where it starts, before all later ones. */
  lemma PieceAt(pieces: seq<Bytes>, order: seq<nat>, k: nat)
    requires k < |order|
    ensures Place(pieces, order, k + 1) == Place(pieces, order, k) + |PieceNo(pieces, order[k])| <= |Joined(pieces, order)|
    ensures StandsAt(Joined(pieces, order), Place(pieces, order, k), PieceNo(pieces, order[k]))
  {
    hide Joined;
    assert order[..k + 1] == order[..k] + [order[k]] && order == order[..k + 1] + order[k + 1..];
    JoinedMore(pieces, order[..k], order[k]);
    JoinedAppend(pieces, order[..k + 1], order[k + 1..]);
    Middle(Joined(pieces, order[..k]), PieceNo(pieces, order[k]), Joined(pieces, order[k + 1..]), Joined(pieces, order));
  }

  lemma {:induction false} PlaceGrows(pieces: seq<Bytes>, order: seq<nat>, j: nat, k: nat)
    requires j <= k <= |order|
    ensures Place(pieces, order, j) <= Place(pieces, order, k)
  {
    hide Joined, StandsAt;
    if j < k {
      PlaceGrows(pieces, order, j, k - 1);
      PieceAt(pieces, order, k - 1);
    }
  }

  /** Every place of the whole belongs to a piece. */
  lemma {:induction false} PieceOf(pieces: seq<Bytes>, order: seq<nat>, p: nat, n: nat) returns (k: nat)
    requires n <= |order| && p < Place(pieces, order, n)
    ensures k < n && Place(pieces, order, k) <= p < Place(pieces, order, k + 1)
  {
    if p < Place(pieces, order, n - 1) {
      k := PieceOf(pieces, order, p, n - 1);
    } else {
      k := n - 1;
    }
  }

  /* ---- the total of pieces does not depend on their order ---- */

  ghost predicate Distinct(order: seq<nat>) {
    forall j, k :: 0 <= j < k < |order| ==> order[j] != order[k]
  }

  ghost function IndexSet(order: seq<nat>): set<nat> {
    set i | i in order
  }

  /** The length of the pieces below `n` in the set. */
  ghost function SumTo(pieces: seq<Bytes>, S: set<nat>, n: nat): nat {
    if n == 0 then 0 else SumTo(pieces, S, n - 1) + if n - 1 in S then |PieceNo(pieces, n - 1)| else 0
  }

  lemma {:induction false} SumMore(pieces: seq<Bytes>, S: set<nat>, i: nat, n: nat)
    requires i !in S
    ensures SumTo(pieces, S + {i}, n) == SumTo(pieces, S, n) + if i < n then |PieceNo(pieces, i)| else 0
  {
    if n > 0 {
      SumMore(pieces, S, i, n - 1);
    }
  }

  lemma {:induction false} SumNone(pieces: seq<Bytes>, n: nat)
    ensures SumTo(pieces, {}, n) == 0
  {
    if n > 0 {
      SumNone(pieces, n - 1);
    }
  }

  lemma {:induction false} JoinedLength(pieces: seq<Bytes>, order: seq<nat>)
    requires Distinct(order) && forall i :: i in order ==> i < |pieces|
    ensures |Joined(pieces, order)| == SumTo(pieces, IndexSet(order), |pieces|)
    decreases |order|
  {
    if order == [] {
      assert IndexSet(order) == {};
      SumNone(pieces, |pieces|);
    } else {
      var n := |order| - 1;
      var rest := order[..n];
      forall i | i in rest ensures i in order {}
      JoinedLength(pieces, rest);
      assert order == rest + [order[n]];
      assert IndexSet(order) == IndexSet(rest) + {order[n]};
      assert order[n] in order;
      SumMore(pieces, IndexSet(rest), order[n], |pieces|);
    }
  }

  /** The length of all pieces. */
  function Size(pieces: seq<Bytes>): nat {
    if pieces == [] then 0 else Size(pieces[..|pieces| - 1]) + |pieces[|pieces| - 1]|
  }

  lemma {:induction false} SumAll(pieces: seq<Bytes>, S: set<nat>, n: nat)
    requires n <= |pieces| && forall i: nat :: i < n ==> i in S
    ensures SumTo(pieces, S, n) == Size(pieces[..n])
  {
    if n > 0 {
      SumAll(pieces, S, n - 1);
      assert pieces[..n][..n - 1] == pieces[..n - 1];
    }
  }

  /* ---- tiles ---- */

  /** Each index below `n` comes exactly once. */
  ghost predicate Permutation(order: seq<nat>, n: nat) {
    && (forall i :: i in order ==> i < n)
    && (forall i {:trigger i in order} :: 0 <= i < n ==> i in order)
    && (forall j, k :: 0 <= j < k < |order| ==> order[j] != order[k])
  }

  ghost predicate Within(pieces: seq<Bytes>, starts: seq<nat>, i: nat, p: nat) {
    i < |pieces| && i < |starts| && starts[i] <= p < starts[i] + |pieces[i]|
  }

  ghost predicate Before(pieces: seq<Bytes>, starts: seq<nat>, i: nat, j: nat)
    requires i < |pieces| && |starts| == |pieces| && j < |pieces|
  {
    starts[i] + |pieces[i]| <= starts[j]
  }

  ghost predicate StandsAt(area: Bytes, start: nat, piece: Bytes) {
    start + |piece| <= |area| && area[start..start + |piece|] == piece
  }

  ghost predicate InSome(pieces: seq<Bytes>, starts: seq<nat>, p: nat) {
    exists i: nat :: Within(pieces, starts, i, p)
  }

  /** Piece `i` stands at its start, no two overlap, and together they fill the area. */
  ghost predicate Tiles(area: Bytes, starts: seq<nat>, pieces: seq<Bytes>) {
    && |starts| == |pieces|
    && (forall i :: 0 <= i < |pieces| ==> StandsAt(area, starts[i], pieces[i]))
    && (forall i, j :: 0 <= i < |pieces| && 0 <= j < |pieces| && i != j ==> Before(pieces, starts, i, j) || Before(pieces, starts, j, i))
    && (forall p :: 0 <= p < |area| ==> InSome(pieces, starts, p))
    && |area| == Size(pieces)
  }

  /** The pieces named by `order` start one behind the other from `base` on. */
  ghost predicate StartAt(starts: seq<nat>, pieces: seq<Bytes>, order: seq<nat>, base: nat) {
    && |starts| == |pieces| && (forall k :: 0 <= k < |order| ==> order[k] < |pieces|)
    && forall k :: 0 <= k < |order| ==> starts[order[k]] == base + Place(pieces, order, k)
  }

  lemma PlaceOfIndex(order: seq<nat>, i: nat) returns (k: nat)
    requires i in order
    ensures k < |order| && order[k] == i
  {
    k :| 0 <= k < |order| && order[k] == i;
  }

  /** Where piece `i` stands, and that it stands before later ones. */
  lemma IndexPlace(pieces: seq<Bytes>, order: seq<nat>, starts: seq<nat>, i: nat) returns (k: nat)
    requires Permutation(order, |pieces|) && StartAt(starts, pieces, order, 0) && i < |pieces|
    ensures k < |order| && order[k] == i && starts[i] == Place(pieces, order, k)
    ensures Place(pieces, order, k + 1) == starts[i] + |pieces[i]|
    ensures StandsAt(Joined(pieces, order), starts[i], pieces[i])
  {
    hide Joined, StandsAt, Place;
    k := PlaceOfIndex(order, i);
    PieceAt(pieces, order, k);
  }

  lemma ApartAt(pieces: seq<Bytes>, order: seq<nat>, starts: seq<nat>, i: nat, j: nat)
    requires Permutation(order, |pieces|) && StartAt(starts, pieces, order, 0) && i < |pieces| && j < |pieces| && i != j
    ensures Before(pieces, starts, i, j) || Before(pieces, starts, j, i)
  {
    hide Joined, StandsAt, Place, Permutation, StartAt;
    assert |starts| == |pieces| by { StartsLength(pieces, order, starts); }
    var k := IndexPlace(pieces, order, starts, i);
    var l := IndexPlace(pieces, order, starts, j);
    if k < l {
      PlaceGrows(pieces, order, k + 1, l);
    } else {
      PlaceGrows(pieces, order, l + 1, k);
    }
  }

  lemma StartsLength(pieces: seq<Bytes>, order: seq<nat>, starts: seq<nat>)
    requires StartAt(starts, pieces, order, 0)
    ensures |starts| == |pieces|
  {
  }

  lemma CoveredAt(pieces: seq<Bytes>, order: seq<nat>, starts: seq<nat>, p: nat)
    requires Permutation(order, |pieces|) && StartAt(starts, pieces, order, 0) && p < |Joined(pieces, order)|
    ensures InSome(pieces, starts, p)
  {
    hide Joined;
    assert order[..|order|] == order;
    var k := PieceOf(pieces, order, p, |order|);
    PieceAt(pieces, order, k);
    assert order[k] in order && Within(pieces, starts, order[k], p);
  }

  /** Pieces laid out in any order tile the whole. */
  lemma ArrangedTiles(pieces: seq<Bytes>, order: seq<nat>, starts: seq<nat>)
    requires Permutation(order, |pieces|) && StartAt(starts, pieces, order, 0)
    ensures Tiles(Joined(pieces, order), starts, pieces)
  {
    hide Joined, StandsAt, Place, Permutation, StartAt, InSome, Before;
    StartsLength(pieces, order, starts);
    forall i | 0 <= i < |pieces| ensures StandsAt(Joined(pieces, order), starts[i], pieces[i]) {
      var k := IndexPlace(pieces, order, starts, i);
    }
    forall i, j | 0 <= i < |pieces| && 0 <= j < |pieces| && i != j
      ensures Before(pieces, starts, i, j) || Before(pieces, starts, j, i)
    {
      ApartAt(pieces, order, starts, i, j);
    }
    forall p | 0 <= p < |Joined(pieces, order)| ensures InSome(pieces, starts, p) {
      CoveredAt(pieces, order, starts, p);
    }
    ArrangedSize(pieces, order);
  }

  lemma ArrangedSize(pieces: seq<Bytes>, order: seq<nat>)
    requires Permutation(order, |pieces|)
    ensures |Joined(pieces, order)| == Size(pieces)
  {
    JoinedLength(pieces, order);
    SumAll(pieces, IndexSet(order), |pieces|);
    assert pieces[..|pieces|] == pieces;
  }
}
