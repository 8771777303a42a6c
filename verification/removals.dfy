/** What a removal does to the nodes of its level: which nodes are merged or unlinked, and when the root gives way
(extractor/vdfs-tools/lib/btree.c). */
module Removals {
  import opened Order
  import opened Nodes
  import opened Levels
  import opened Towers
  import opened Steps

  /** Records `q` and `q + 1` of node `p` above lead to nodes `a` and `a + 1` of level `L`. */
  ghost predicate Adjacent(t: Tree, L: nat, a: nat, p: nat, q: nat) {
    && L + 1 < |t.levels| && a + 1 < |t.levels[L]| && p < |t.levels[L + 1]|
    && var recs := RecsOf(t.nodes, t.levels[L + 1][p]);
       q + 1 < |recs| && recs[q].val == Child(t.levels[L][a]) && recs[q + 1].val == Child(t.levels[L][a + 1])
  }

  /** Nodes `a` and `a + 1` of the level are under one parent. */
  ghost predicate SameParent(t: Tree, L: nat, a: int) {
    a >= 0 && exists p: nat, q: nat :: Adjacent(t, L, a, p, q)
  }

  /** The left one of the two nodes that node `i` may be merged with or into: its left neighbour under the same parent
  and itself, or else itself and its right one; -1 when it is its parent's only child. */
  ghost function Partner(t: Tree, L: nat, i: nat): int {
    if SameParent(t, L, i - 1) then i - 1 else if SameParent(t, L, i) then i else -1
  }

  /** The free bytes of nodes `a` and `a + 1` fill a node. */
  ghost predicate Fits(cfg: Config, t: Tree, L: nat, a: nat) {
    && L < |t.levels| && a + 1 < |t.levels[L]| && t.levels[L][a] in t.nodes && t.levels[L][a + 1] in t.nodes
    && t.nodes[t.levels[L][a]].free + t.nodes[t.levels[L][a + 1]].free >= cfg.size
  }

  /** Node `a + 1` of the level has been emptied into node `a` and freed; the other nodes keep their records. */
  ghost predicate MergedAt(t: Tree, t': Tree, L: nat, a: nat) {
    && L < |t.levels| && L < |t'.levels| && a + 1 < |t.levels[L]|
    && t'.levels[L] == RemoveAt(t.levels[L], a + 1) && t.levels[L][a + 1] !in t'.nodes
    && forall k :: 0 <= k < |t'.levels[L]| ==>
         RecsOf(t'.nodes, t'.levels[L][k]) ==
           if k == a then RecsOf(t.nodes, t.levels[L][a]) + RecsOf(t.nodes, t.levels[L][a + 1])
           else RecsOf(t.nodes, t'.levels[L][k])
  }

  /** Where a removal took record `pos` of node `i`, the tree just after that, and what became of the level above. */
  datatype Removal = Removal(i: nat, pos: nat, mid: Tree, above: Above)

  /** The removal of an index record, from the tree in which its node has just left its level. */
  datatype Above = Nothing | Above(before: Tree, after: Tree, how: Removal)

  /** The index record of node `gone` has been removed from the level above, like any other record. */
  ghost predicate IndexRemoved(cfg: Config, t: Tree, L: nat, gone: nat, up: Above)
    decreases up, 0
  {
    && up.Above? && L < |t.levels| && gone < |t.levels[L]| && AboveKept(t, up.before, L)
    && RemovedFrom(cfg, up.before, up.after, L + 1, up.how)
    && up.before.nodes[up.before.levels[L + 1][up.how.i]].recs[up.how.pos].val == Child(t.levels[L][gone])
  }

  /** Node `i` is to be merged: it has a partner, and the free bytes of the two fill a node. */
  ghost predicate Merges(cfg: Config, t: Tree, L: nat, i: nat) {
    Partner(t, L, i) >= 0 && Fits(cfg, t, L, Partner(t, L, i))
  }

  /** Rebalancing node `i` merges it with its partner, or changes nothing. */
  ghost predicate Rebalanced(cfg: Config, t: Tree, t': Tree, L: nat, i: nat, up: Above)
    decreases up, 1
  {
    var a := Partner(t, L, i);
    if Merges(cfg, t, L, i) then
      && MergedAt(t, t', L, a) && IndexRemoved(cfg, t, L, a + 1, up)
      && t' == up.after.(nodes := up.after.nodes - {t.levels[L][a + 1]}, lvl := up.after.lvl - {t.levels[L][a + 1]})
    else t' == t
  }

  /** The root has given way to its only child. */
  ghost predicate Collapsed(t: Tree, t': Tree) {
    && |t.levels| > 0 && t'.levels == t.levels[..|t.levels| - 1] && t'.nodes == t.nodes - {t.root} && t'.lvl == t.lvl - {t.root}
    && |RecsOf(t.nodes, t.root)| == 1 && RecsOf(t.nodes, t.root)[0].val == Child(t'.root)
  }

  /** Node `i` of the level has lost record `pos`, and no other node of the level has changed its records. Only when it
  was a first record have the levels above changed. */
  ghost predicate TakenFrom(cfg: Config, t: Tree, t': Tree, L: nat, i: nat, pos: nat) {
    && L < |t.levels| && L < |t'.levels| && i < |t.levels[L]| && t.levels[L][i] in t.nodes
    && t'.levels[L] == t.levels[L] && Tower(cfg, t', L, {}) && Frame(t, t', L)
    && var (id, nd) := (t.levels[L][i], t.nodes[t.levels[L][i]]);
       && pos < |nd.recs| && id in t'.nodes && t'.nodes[id] == WithoutRecord(nd, pos)
       && (forall k :: 0 <= k < |t.levels[L]| && k != i ==> RecsOf(t'.nodes, t.levels[L][k]) == RecsOf(t.nodes, t.levels[L][k]))
       && (pos > 0 || L + 1 == |t.levels| ==> t' == t.(nodes := t.nodes[id := t'.nodes[id]]))
  }

  /** What follows: a node left with more than a third free is rebalanced; a root left with one child gives way. */
  ghost predicate Settled(cfg: Config, t: Tree, t': Tree, L: nat, i: nat, up: Above)
    decreases up, 2
  {
    && L < |t.levels| && i < |t.levels[L]| && t.levels[L][i] in t.nodes
    && var (id, nd) := (t.levels[L][i], t.nodes[t.levels[L][i]]);
       if nd.free <= cfg.size / 3 then t' == t
       else if id != t.root then Rebalanced(cfg, t, t', L, i, up)
       else if |nd.recs| == 1 && |t.levels| > 1 then Collapsed(t, t')
       else t' == t
  }

  /** Node `i` has left the level; the other nodes keep their records. */
  ghost predicate Unlinked(t: Tree, t': Tree, L: nat, i: nat) {
    && L < |t.levels| && L < |t'.levels| && i < |t.levels[L]|
    && t'.levels[L] == RemoveAt(t.levels[L], i)
    && forall k :: 0 <= k < |t'.levels[L]| ==> RecsOf(t'.nodes, t'.levels[L][k]) == RecsOf(t.nodes, t'.levels[L][k])
  }

  /** What a removal does to its level and, by way of the index records, to the levels above. */
  ghost predicate RemovedFrom(cfg: Config, t: Tree, t': Tree, L: nat, how: Removal)
    decreases how
  {
    && L < |t.levels| && how.i < |t.levels[L]| && t.levels[L][how.i] in t.nodes
    && how.pos < |t.nodes[t.levels[L][how.i]].recs|
    && if |t.nodes[t.levels[L][how.i]].recs| == 1 then
         Unlinked(t, t', L, how.i) && IndexRemoved(cfg, t, L, how.i, how.above) && t' == how.above.after
       else
         TakenFrom(cfg, t, how.mid, L, how.i, how.pos) && Settled(cfg, how.mid, t', L, how.i, how.above)
  }

  /** Node `id` is a root above other nodes with two records: the case in which the tree gets lower. */
  ghost predicate LastTwo(t: Tree, id: nat) {
    |t.levels| > 1 && id == t.root && id in t.nodes && |t.nodes[id].recs| == 2
  }

  /** The root of two records loses one, so the child of the other becomes the root. */
  ghost predicate Lowered(t: Tree, t': Tree, id: nat, pos: nat) {
    && |t'.levels| == |t.levels| - 1 && id in t.nodes && |t.nodes[id].recs| == 2 && pos < 2
    && t.nodes[id].recs[1 - pos].val == Child(t'.root) && id !in t'.nodes
  }

  /* ---- proofs ---- */

  /** Changes above the level leave its nodes alone. */
  lemma LevelKept(t1: Tree, t2: Tree, L: nat, x: nat)
    requires L < |t1.levels| && Frame(t1, t2, L + 1) && x in t1.nodes && x in t1.lvl && t1.lvl[x] == L
    ensures t2.levels[L] == t1.levels[L] && RecsOf(t2.nodes, x) == RecsOf(t1.nodes, x) && x in t2.nodes && t2.nodes[x] == t1.nodes[x]
  {
  }

  lemma SameLevel(t1: Tree, t2: Tree, L: nat)
    requires L < |t1.levels| && Frame(t1, t2, L + 1)
    ensures L < |t2.levels| && t2.levels[L] == t1.levels[L]
  {
  }

  /** What joining two neighbours and removing the index record of the right one amounts to. */
  lemma MergedIs(cfg: Config, t0: Tree, t1: Tree, t2: Tree, t3: Tree, L: nat, li: nat, left: nat, right: nat, merged: Node)
    requires Tower(cfg, t0, L, {}) && L < |t0.levels| && IsNode(t0, L, li, left) && IsNode(t0, L, li + 1, right)
    requires merged.recs == t0.nodes[left].recs + t0.nodes[right].recs
    requires SpliceOut(t0.nodes[left := merged], t1.nodes, t0.levels[L], li + 1)
    requires t1.levels == t0.levels[L := RemoveAt(t0.levels[L], li + 1)] && t1.lvl == t0.lvl
    requires Frame(t1, t2, L + 1) && t3 == t2.(nodes := t2.nodes - {right}, lvl := t2.lvl - {right})
    ensures MergedAt(t0, t3, L, li)
  {
    hide FlatTo, UsedTo, NodeOk, Tower, ChainOk, Indexes, Frame, SpliceOut;
    TowerChain(cfg, t0, L, {});
    TowerPlaced(cfg, t0, L, {});
    SameLevel(t1, t2, L);
    var ids, ids' := t0.levels[L], t1.levels[L];
    forall k | 0 <= k < |ids'|
      ensures RecsOf(t3.nodes, ids'[k]) == if k == li then RecsOf(t0.nodes, left) + RecsOf(t0.nodes, right) else RecsOf(t0.nodes, ids'[k])
    {
      var o := if k <= li then k else k + 1;
      assert ids'[k] == ids[o] && ids[o] != right && (k != li ==> ids[o] != left);
      SplicedNode(t0.nodes[left := merged], t1.nodes, ids, li + 1, o);
      LevelKept(t1, t2, L, ids[o]);
    }
    assert ids'[li] == left;
  }

  lemma SplicedNode(nodes: NodeMap, nodes': NodeMap, ids: seq<nat>, i: nat, k: nat)
    requires i < |ids| && SpliceOut(nodes, nodes', ids, i) && k < |ids| && k != i
    ensures ids[k] in nodes && ids[k] in nodes' && nodes'[ids[k]].recs == nodes[ids[k]].recs
  {
  }

  lemma UnlinkedIs(cfg: Config, t0: Tree, t1: Tree, t2: Tree, L: nat, i: nat, id: nat)
    requires Tower(cfg, t0, L, {}) && L < |t0.levels| && IsNode(t0, L, i, id)
    requires SpliceOut(t0.nodes, t1.nodes, t0.levels[L], i)
    requires t1.levels == t0.levels[L := RemoveAt(t0.levels[L], i)] && t1.lvl == t0.lvl - {id}
    requires Frame(t1, t2, L + 1)
    ensures Unlinked(t0, t2, L, i)
  {
    hide FlatTo, UsedTo, NodeOk, Tower, ChainOk, Indexes, SpliceOut;
    TowerChain(cfg, t0, L, {});
    TowerPlaced(cfg, t0, L, {});
    var ids, ids' := t0.levels[L], t1.levels[L];
    assert t2.levels[L] == ids';
    forall k | 0 <= k < |ids'| ensures RecsOf(t2.nodes, ids'[k]) == RecsOf(t0.nodes, ids'[k]) {
      var o := if k < i then k else k + 1;
      assert ids'[k] == ids[o] && ids[o] != id;
      SplicedNode(t0.nodes, t1.nodes, ids, i, o);
      LevelKept(t1, t2, L, ids[o]);
    }
  }

  /** After the record was taken, and its node's index record renamed if need be. */
  lemma TakenIs(cfg: Config, t0: Tree, t1: Tree, t2: Tree, L: nat, i: nat, id: nat, pos: nat)
    requires Tower(cfg, t0, L, {}) && L < |t0.levels| && IsNode(t0, L, i, id) && pos < |t0.nodes[id].recs|
    requires t1 == t0.(nodes := t0.nodes[id := WithoutRecord(t0.nodes[id], pos)])
    requires Frame(t1, t2, L + 1) && Frame(t0, t2, L) && Tower(cfg, t2, L, {}) && L < |t2.levels|
    requires pos > 0 || L + 1 == |t0.levels| ==> t2 == t1
    ensures TakenFrom(cfg, t0, t2, L, i, pos)
  {
    hide FlatTo, UsedTo, NodeOk, Tower, ChainOk, Indexes, Frame;
    TowerChain(cfg, t0, L, {});
    TowerPlaced(cfg, t0, L, {});
    forall k | 0 <= k < |t0.levels[L]|
      ensures RecsOf(t2.nodes, t0.levels[L][k]) == RecsOf(t1.nodes, t0.levels[L][k]) && t2.levels[L] == t0.levels[L]
      ensures t0.levels[L][k] in t2.nodes && t2.nodes[t0.levels[L][k]] == t1.nodes[t0.levels[L][k]]
    {
      LevelKept(t1, t2, L, t0.levels[L][k]);
    }
    assert t0.levels[L][i] == id;
  }

  /** The records on either side of the index record of node `i`, in the same parent or not. */
  lemma ParentSides(cfg: Config, t: Tree, L: nat, i: nat, pi: nat, parent: nat, pos: nat)
    requires ConfigOk(cfg) && Tower(cfg, t, L, {}) && L + 1 < |t.levels| && i < |t.levels[L]|
    requires IsNode(t, L + 1, pi, parent) && pos < |t.nodes[parent].recs| && PlaceOf(t, L + 1, pi, pos) == i
    ensures SameParent(t, L, i - 1) <==> pos > 0
    ensures SameParent(t, L, i) <==> pos + 1 < |t.nodes[parent].recs|
  {
    hide FlatTo, UsedTo, Tower, ChainOk, Indexes, NodeOk;
    TowerIndex(cfg, t, L);
    TowerChain(cfg, t, L, {});
    if pos > 0 {
      FlatAt(t.nodes, t.levels[L + 1], pi, pos);
      FlatAt(t.nodes, t.levels[L + 1], pi, pos - 1);
      assert Adjacent(t, L, i - 1, pi, pos - 1);
    }
    if pos + 1 < |t.nodes[parent].recs| {
      FlatAt(t.nodes, t.levels[L + 1], pi, pos);
      FlatAt(t.nodes, t.levels[L + 1], pi, pos + 1);
      assert Adjacent(t, L, i, pi, pos);
    }
    forall a: nat, p: nat, q: nat | Adjacent(t, L, a, p, q)
      ensures PlaceOf(t, L + 1, p, q) == a && PlaceOf(t, L + 1, p, q + 1) == a + 1
    {
      AdjacentPlace(cfg, t, L, a, p, q);
    }
    if SameParent(t, L, i - 1) {
      var p: nat, q: nat :| Adjacent(t, L, i - 1, p, q);
      PlaceUnique(t.nodes, t.levels[L + 1], p, q + 1, pi, pos);
    }
    if SameParent(t, L, i) {
      var p: nat, q: nat :| Adjacent(t, L, i, p, q);
      PlaceUnique(t.nodes, t.levels[L + 1], p, q, pi, pos);
    }
  }

  lemma AdjacentPlace(cfg: Config, t: Tree, L: nat, a: nat, p: nat, q: nat)
    requires ConfigOk(cfg) && Tower(cfg, t, L, {}) && Adjacent(t, L, a, p, q)
    ensures PlaceOf(t, L + 1, p, q) == a && PlaceOf(t, L + 1, p, q + 1) == a + 1
  {
    hide FlatTo, UsedTo, Tower, ChainOk, Indexes, NodeOk;
    TowerIndex(cfg, t, L);
    TowerChain(cfg, t, L, {});
    FlatAt(t.nodes, t.levels[L + 1], p, q);
    FlatAt(t.nodes, t.levels[L + 1], p, q + 1);
    var k := PlaceOf(t, L + 1, p, q);
    assert t.levels[L][k] == t.levels[L][a] && t.levels[L][k + 1] == t.levels[L][a + 1];
  }

  /** Taking a node out of its level changes nothing above. */
  lemma SplicedAbove(cfg: Config, t: Tree, t': Tree, L: nat, i: nat)
    requires Tower(cfg, t, L, {}) && L < |t.levels| && i < |t.levels[L]|
    requires t.nodes.Keys - {t.levels[L][i]} <= t'.nodes.Keys <= t.nodes.Keys && |t'.levels| == |t.levels|
    requires forall l :: L < l < |t.levels| ==> t'.levels[l] == t.levels[l]
    requires forall x :: x in t'.nodes && x !in t.levels[L] ==> t'.nodes[x] == t.nodes[x]
    ensures AboveKept(t, t', L)
  {
    hide FlatTo, UsedTo, Tower, ChainOk, Indexes;
    TowerPlaced(cfg, t, L, {});
  }

  /** The record removed above is the index record of the node that has gone. */
  lemma IndexIs(cfg: Config, t: Tree, before: Tree, after: Tree, L: nat, gone: nat, id: nat, g: nat, how: Removal)
    requires ConfigOk(cfg) && Tower(cfg, t, L, {}) && L + 1 < |t.levels| && IsNode(t, L, gone, id) && |t.nodes[id].recs| > 0
    requires AboveKept(t, before, L) && L + 1 < |before.levels| && Row(before, L + 1) == Row(t, L + 1)
    requires RemovedFrom(cfg, before, after, L + 1, how) && PlaceOf(before, L + 1, how.i, how.pos) == g
    requires g < |Row(t, L + 1)| && Row(t, L + 1)[g].key == t.nodes[id].recs[0].key
    ensures IndexRemoved(cfg, t, L, gone, Above(before, after, how))
  {
    hide FlatTo, UsedTo, Tower, ChainOk, Indexes, NodeOk, AboveKept, TakenFrom, Settled, Unlinked;
    TowerIndex(cfg, t, L);
    FlatAt(before.nodes, before.levels[L + 1], how.i, how.pos);
    TowerChain(cfg, t, L, {});
    KeyPlace(cfg.cmp, Row(t, L + 1), g, gone);
  }

  lemma KeyPlace(cmp: CmpFn, f: seq<Rec>, g: nat, h: nat)
    requires TotalOrder(cmp) && Sorted(cmp, f) && g < |f| && h < |f| && f[g].key == f[h].key
    ensures g == h
  {
    Flip(cmp, f[g].key, f[g].key);
  }

  /** A node with one record is more than a third free. */
  lemma OneRecordFree(nd: Node, size: nat, leaf: bool)
    requires size >= 1024 && NodeOk(nd, size, leaf) && |nd.recs| == 1
    ensures nd.free > size / 3
  {
    assert UsedTo(nd.recs, 1) == UsedTo(nd.recs, 0) + nd.recs[0].recLen + SLOT;
    assert Bounded(nd.recs[0], size);
  }

  lemma MergeCount(cfg: Config, t: Tree, t': Tree, L: nat, i: nat, up: Above)
    requires Rebalanced(cfg, t, t', L, i, up) && L < |t.levels|
    ensures L < |t'.levels| && |t'.levels[L]| == |t.levels[L]| - if Merges(cfg, t, L, i) then 1 else 0
  {
    hide RemovedFrom, SameParent;
  }

  /** A level below the root loses a node to a merge exactly when the node that has lost a record is more than a third
  free and the free bytes of it and its partner fill a node. */
  lemma SparseMerges(cfg: Config, t: Tree, t': Tree, L: nat, i: nat, up: Above)
    requires Settled(cfg, t, t', L, i, up) && t.levels[L][i] != t.root
    ensures L < |t'.levels|
    ensures |t'.levels[L]| == |t.levels[L]| - if t.nodes[t.levels[L][i]].free > cfg.size / 3 && Merges(cfg, t, L, i) then 1 else 0
  {
    hide Rebalanced;
    if t.nodes[t.levels[L][i]].free > cfg.size / 3 {
      MergeCount(cfg, t, t', L, i, up);
    }
  }

  /** A root of two records that loses one gives way. */
  lemma GivesWay(cfg: Config, t: Tree, mid: Tree, t': Tree, L: nat, i: nat, pos: nat, up: Above)
    requires ConfigOk(cfg) && TakenFrom(cfg, t, mid, L, i, pos) && Settled(cfg, mid, t', L, i, up) && LastTwo(t, t.levels[L][i])
    requires L + 1 == |t.levels|
    ensures Lowered(t, t', t.levels[L][i], pos)
  {
    hide FlatTo, UsedTo, Tower, ChainOk, Indexes, NodeOk, Frame;
    TowerChain(cfg, mid, L, {});
    OneRecordFree(mid.nodes[t.root], cfg.size, L == 0);
  }
}
