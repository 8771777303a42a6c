/** A tree as a tower of levels: level 0 holds the leaves, each higher level holds
index records for the nodes of the level below, the top level is the root.

The invariant speaks of the levels from a given one up, because insertion and
removal repair one level after the other (extractor/vdfs-tools/lib/btree.c). */
module Towers {
  import opened Keys
  import opened Order
  import opened Nodes
  import opened Levels

  /** The nodes, the level each belongs to, the sibling order of each level, and the root. */
  datatype Tree = Tree(nodes: NodeMap, lvl: map<nat, nat>, levels: seq<seq<nat>>, root: nat)

  ghost predicate HasEntry(f: seq<Rec>, id: nat) {
    exists j :: 0 <= j < |f| && f[j].val == Child(id)
  }

  /** The index records `f` point to the nodes `lower`, each under its first key;
  exactly the nodes of `D` (the dangling ones) have none. */
  ghost predicate Indexes(nodes: NodeMap, lower: seq<nat>, f: seq<Rec>, D: set<nat>) {
    && |lower| > 0 && |f| > 0
    && (forall i :: 0 <= i < |lower| ==> lower[i] in nodes && |nodes[lower[i]].recs| > 0)
    && f[0].val == Child(lower[0])
    && (forall j :: 0 <= j < |f| ==> f[j].val.Child? && f[j].val.id in lower && f[j].key == First(nodes, f[j].val.id))
    && (forall i :: 0 <= i < |lower| ==> (lower[i] in D <==> !HasEntry(f, lower[i])))
  }

  ghost predicate Placed(t: Tree, l: nat)
    requires l < |t.levels|
  {
    forall i :: 0 <= i < |t.levels[l]| ==> t.levels[l][i] in t.lvl && t.lvl[t.levels[l][i]] == l
  }

  /** Every node of level `L` or above stands in its level. */
  ghost predicate NoStray(t: Tree, L: nat) {
    forall id :: id in t.nodes && id in t.lvl && t.lvl[id] >= L ==>
      t.lvl[id] < |t.levels| && id in t.levels[t.lvl[id]]
  }

  ghost predicate TopOk(t: Tree, D: set<nat>)
    requires |t.levels| > 0
  {
    var top := t.levels[|t.levels| - 1];
    |top| > 0 && top[0] == t.root && forall i :: 0 < i < |top| ==> top[i] in D
  }

  /** The invariant of the levels from `L` up, the nodes of `D` being dangling. */
  ghost predicate Tower(cfg: Config, t: Tree, L: nat, D: set<nat>) {
    && L < |t.levels|
    && t.lvl.Keys == t.nodes.Keys && NO_NODE !in t.nodes
    && (forall l :: L <= l < |t.levels| ==> ChainOk(cfg, t.nodes, t.levels[l], l == 0) && Placed(t, l))
    && (forall l :: L < l < |t.levels| ==> Indexes(t.nodes, t.levels[l - 1], Flat(t.nodes, t.levels[l]), D))
    && TopOk(t, D)
    && NoStray(t, L)
  }

  /** The record sequence of level `l`. */
  ghost function Row(t: Tree, l: nat): seq<Rec>
    requires l < |t.levels|
  {
    Flat(t.nodes, t.levels[l])
  }

  /** Nothing below level `L` has changed. */
  ghost predicate Frame(t: Tree, t': Tree, L: nat) {
    && L <= |t.levels| && L <= |t'.levels|
    && (forall l :: 0 <= l < L ==> t'.levels[l] == t.levels[l])
    && (forall id :: id in t.nodes && id in t.lvl && t.lvl[id] < L ==>
          id in t'.nodes && id in t'.lvl && t'.nodes[id] == t.nodes[id] && t'.lvl[id] == t.lvl[id])
    && (forall id :: id in t'.nodes && id in t'.lvl && t'.lvl[id] < L ==>
          id in t.nodes && id in t.lvl && t.lvl[id] == t'.lvl[id])
  }

  lemma FrameTransitive(t: Tree, t': Tree, t'': Tree, L: nat, M: nat)
    requires L <= M && Frame(t, t', L) && Frame(t', t'', M)
    ensures Frame(t, t'', L)
  {
  }

  /** The levels from `L` to below `M`, as far as they do not depend on level `M`;
  the nodes of `S` may be unlinked already but not yet freed. */
  ghost predicate Base(cfg: Config, t: Tree, L: nat, M: nat, S: set<nat>) {
    && L <= M <= |t.levels|
    && t.lvl.Keys == t.nodes.Keys && NO_NODE !in t.nodes
    && (forall l :: L <= l < M ==> ChainOk(cfg, t.nodes, t.levels[l], l == 0) && Placed(t, l))
    && (forall l :: L < l < M ==> Indexes(t.nodes, t.levels[l - 1], Flat(t.nodes, t.levels[l]), {}))
    && (forall id :: id in t.nodes && id in t.lvl && L <= t.lvl[id] < M ==> id in t.levels[t.lvl[id]] || id in S)
  }

  lemma TowerSplit(cfg: Config, t: Tree, L: nat, M: nat, D: set<nat>)
    requires Tower(cfg, t, L, D) && L <= M < |t.levels|
    requires forall id :: id in D ==> id in t.lvl && t.lvl[id] + 1 >= M
    ensures Base(cfg, t, L, M, {}) && Tower(cfg, t, M, D)
  {
    hide Flat, ChainOk;
    forall l | L < l < M ensures Indexes(t.nodes, t.levels[l - 1], Flat(t.nodes, t.levels[l]), {}) {
      assert Placed(t, l - 1);
      assert Indexes(t.nodes, t.levels[l - 1], Flat(t.nodes, t.levels[l]), D);
    }
  }

  /** The dangling nodes of lower levels do not matter above. */
  lemma TowerDrop(cfg: Config, t: Tree, M: nat, D: set<nat>)
    requires Tower(cfg, t, M, D)
    requires forall id :: id in D ==> id in t.lvl && t.lvl[id] < M
    ensures Tower(cfg, t, M, {})
  {
    hide Flat, ChainOk;
    forall l | M < l < |t.levels| ensures Indexes(t.nodes, t.levels[l - 1], Flat(t.nodes, t.levels[l]), {}) {
      assert Placed(t, l - 1);
      assert Indexes(t.nodes, t.levels[l - 1], Flat(t.nodes, t.levels[l]), D);
    }
    NotDangling(t, M, D);
  }

  lemma NotDangling(t: Tree, M: nat, D: set<nat>)
    requires |t.levels| > M && Placed(t, |t.levels| - 1)
    requires forall id :: id in D ==> id in t.lvl && t.lvl[id] < M
    ensures forall id :: id in t.levels[|t.levels| - 1] ==> id !in D
  {
  }

  lemma IndexesFrame(nodes: NodeMap, nodes': NodeMap, lower: seq<nat>, f: seq<Rec>, D: set<nat>)
    requires Indexes(nodes, lower, f, D)
    requires FirstsKept(nodes, nodes', lower)
    ensures Indexes(nodes', lower, f, D)
  {
  }

  /** Lower levels that have not changed still stand. */
  lemma BaseFrame(cfg: Config, t: Tree, t': Tree, L: nat, M: nat, S: set<nat>)
    requires Base(cfg, t, L, M, S) && Frame(t, t', M)
    requires t'.lvl.Keys == t'.nodes.Keys && NO_NODE !in t'.nodes
    ensures Base(cfg, t', L, M, S)
  {
    hide Flat, ChainOk;
    forall l | L <= l < M
      ensures ChainOk(cfg, t'.nodes, t'.levels[l], l == 0) && Placed(t', l) && Flat(t'.nodes, t'.levels[l]) == Flat(t.nodes, t.levels[l])
    {
      assert Placed(t, l);
      LevelNodes(cfg, t.nodes, t.levels[l], l == 0);
      ChainFrame(cfg, t.nodes, t'.nodes, t.levels[l], l == 0);
    }
    forall l | L < l < M ensures Indexes(t'.nodes, t'.levels[l - 1], Flat(t'.nodes, t'.levels[l]), {}) {
      assert Placed(t, l - 1);
      IndexesFrame(t.nodes, t'.nodes, t.levels[l - 1], Flat(t.nodes, t.levels[l]), {});
    }
  }

  lemma LevelNodes(cfg: Config, nodes: NodeMap, ids: seq<nat>, leaf: bool)
    requires ChainOk(cfg, nodes, ids, leaf)
    ensures |ids| > 0 && forall i :: 0 <= i < |ids| ==> ids[i] in nodes && |nodes[ids[i]].recs| > 0 && ids[i] != NO_NODE
  {
  }

  /** A base and the tower above it make a tower when the index fits. */
  lemma Rejoin(cfg: Config, t: Tree, L: nat, M: nat, D: set<nat>)
    requires Base(cfg, t, L, M, {}) && L < M
    requires if M < |t.levels| then Tower(cfg, t, M, D) && Indexes(t.nodes, t.levels[M - 1], Row(t, M), D)
             else M == |t.levels| && TopOk(t, D) && NoStray(t, M)
    requires forall id :: id in D ==> id in t.lvl && t.lvl[id] + 1 >= M
    ensures Tower(cfg, t, L, D)
  {
    hide Flat, ChainOk;
    forall l | L < l < |t.levels| ensures Indexes(t.nodes, t.levels[l - 1], Flat(t.nodes, t.levels[l]), D) {
      if l < M {
        assert Placed(t, l - 1);
        assert Indexes(t.nodes, t.levels[l - 1], Flat(t.nodes, t.levels[l]), {});
      }
    }
  }

  /** The upper end of a tower may have been cut down to the node below it. */
  ghost predicate Upper(cfg: Config, t: Tree, L: nat, f: seq<Rec>) {
    if L < |t.levels| then Tower(cfg, t, L, {}) && Row(t, L) == f
    else L == |t.levels| > 0 && |f| == 1 && f[0].val == Child(t.root)
         && t.lvl.Keys == t.nodes.Keys && NO_NODE !in t.nodes && NoStray(t, L)
  }

  lemma FirstTwo(ids: seq<nat>)
    requires Distinct(ids)
    ensures |ids| > 1 ==> ids[0] != ids[1]
  {
  }

  /** A level below a repaired upper part: the two make a tower again. */
  lemma RejoinUpper(cfg: Config, t: Tree, L: nat, f: seq<Rec>)
    requires Base(cfg, t, L, L + 1, {}) && Upper(cfg, t, L + 1, f)
    requires Indexes(t.nodes, t.levels[L], f, {})
    ensures Tower(cfg, t, L, {})
  {
    hide Flat, ChainOk;
    if L + 1 == |t.levels| {
      LevelNodes(cfg, t.nodes, t.levels[L], L == 0);
      var ids := t.levels[L];
      assert f[0].val == Child(ids[0]);
      assert Distinct(ids) by { ChainDistinct(cfg, t.nodes, ids, L == 0); }
      FirstTwo(ids);
      forall k | 0 <= k < |ids| ensures ids[k] == ids[0] {
        assert HasEntry(f, ids[k]);
      }
    }
    Rejoin(cfg, t, L, L + 1, {});
  }

  lemma ChainDistinct(cfg: Config, nodes: NodeMap, ids: seq<nat>, leaf: bool)
    requires ChainOk(cfg, nodes, ids, leaf)
    ensures Distinct(ids)
  {
  }

  /** What an operation on level `M` has to show to keep the tower from `M` up,
  leaving the nodes of `D` without index records. */
  ghost predicate LevelStep(cfg: Config, t: Tree, t': Tree, M: nat, D: set<nat>) {
    && M < |t.levels| && |t'.levels| == |t.levels| && t'.root == t.root
    && (forall l :: 0 <= l < |t.levels| && l != M ==> t'.levels[l] == t.levels[l])
    && t'.lvl.Keys == t'.nodes.Keys && NO_NODE !in t'.nodes
    && (forall id :: id in t.nodes && id in t.lvl && t.lvl[id] != M ==>
          id in t'.nodes && id in t'.lvl && t'.nodes[id] == t.nodes[id] && t'.lvl[id] == t.lvl[id])
    && (forall id :: id in t'.nodes && id in t'.lvl && t'.lvl[id] != M ==>
          id in t.nodes && id in t.lvl && t.lvl[id] == t'.lvl[id])
    && ChainOk(cfg, t'.nodes, t'.levels[M], M == 0) && Placed(t', M)
    && (forall id :: id in t'.nodes && id in t'.lvl && t'.lvl[id] == M ==> id in t'.levels[M])
    && (forall id :: id in D ==> id in t'.lvl && t'.lvl[id] == M)
    && (if M + 1 < |t.levels| then Indexes(t'.nodes, t'.levels[M], Row(t, M + 1), D) else TopOk(t', D))
  }

  /** Nothing above level `M` has changed. */
  ghost predicate AboveKept(t: Tree, t': Tree, M: nat) {
    && |t'.levels| == |t.levels|
    && (forall l :: M < l < |t.levels| ==> t'.levels[l] == t.levels[l])
    && (forall id :: id in t.nodes && id in t.lvl && t.lvl[id] > M ==> id in t'.nodes && t'.nodes[id] == t.nodes[id])
  }

  lemma LevelStepKeeps(cfg: Config, t: Tree, t': Tree, M: nat, D: set<nat>)
    requires Tower(cfg, t, M, {}) && LevelStep(cfg, t, t', M, D)
    ensures Tower(cfg, t', M, D) && Frame(t, t', M) && AboveKept(t, t', M)
    ensures M + 1 < |t.levels| ==> Row(t', M + 1) == Row(t, M + 1)
  {
    hide Flat, ChainOk, Indexes, Placed, TopOk;
    forall l | M < l < |t.levels|
      ensures ChainOk(cfg, t'.nodes, t'.levels[l], l == 0) && Placed(t', l) && Flat(t'.nodes, t'.levels[l]) == Flat(t.nodes, t.levels[l])
    {
      LevelStepAbove(cfg, t, t', M, D, l);
    }
    forall l | M < l < |t.levels| ensures Indexes(t'.nodes, t'.levels[l - 1], Flat(t'.nodes, t'.levels[l]), D) {
      if l > M + 1 {
        LevelStepIndex(cfg, t, t', M, D, l);
      }
    }
    LevelStepTop(cfg, t, t', M, D);
  }

  lemma LevelStepAbove(cfg: Config, t: Tree, t': Tree, M: nat, D: set<nat>, l: nat)
    requires Tower(cfg, t, M, {}) && LevelStep(cfg, t, t', M, D) && M < l < |t.levels|
    ensures ChainOk(cfg, t'.nodes, t'.levels[l], l == 0) && Placed(t', l)
    ensures Flat(t'.nodes, t'.levels[l]) == Flat(t.nodes, t.levels[l])
  {
    hide Flat, ChainOk, Indexes, TopOk;
    assert Placed(t, l);
    LevelNodes(cfg, t.nodes, t.levels[l], l == 0);
    ChainFrame(cfg, t.nodes, t'.nodes, t.levels[l], l == 0);
  }

  lemma LevelStepIndex(cfg: Config, t: Tree, t': Tree, M: nat, D: set<nat>, l: nat)
    requires Tower(cfg, t, M, {}) && LevelStep(cfg, t, t', M, D) && M + 1 < l < |t.levels|
    ensures Indexes(t'.nodes, t'.levels[l - 1], Flat(t.nodes, t.levels[l]), D)
  {
    hide Flat, ChainOk, Indexes, TopOk;
    assert Placed(t, l - 1);
    LevelNodes(cfg, t.nodes, t.levels[l - 1], l - 1 == 0);
    IndexesFrame(t.nodes, t'.nodes, t.levels[l - 1], Flat(t.nodes, t.levels[l]), {});
    IndexesOther(t'.nodes, t'.levels[l - 1], Flat(t.nodes, t.levels[l]), D);
  }

  lemma LevelStepTop(cfg: Config, t: Tree, t': Tree, M: nat, D: set<nat>)
    requires Tower(cfg, t, M, {}) && LevelStep(cfg, t, t', M, D)
    ensures TopOk(t', D) && NoStray(t', M)
  {
    hide Flat, ChainOk, Indexes;
    forall id | id in t'.nodes && id in t'.lvl && t'.lvl[id] >= M
      ensures t'.lvl[id] < |t'.levels| && id in t'.levels[t'.lvl[id]]
    {
      assert id in t.nodes || t'.lvl[id] == M;
    }
  }

  lemma IndexesOther(nodes: NodeMap, lower: seq<nat>, f: seq<Rec>, D: set<nat>)
    requires Indexes(nodes, lower, f, {})
    requires forall i :: 0 <= i < |lower| ==> lower[i] !in D
    ensures Indexes(nodes, lower, f, D)
  {
  }

  /* ---- searching ---- */

  /** All levels start with the same key. */
  lemma {:induction false} SameFirst(cfg: Config, t: Tree, L: nat, l: nat, D: set<nat>)
    requires Tower(cfg, t, L, D) && L <= l < |t.levels|
    ensures |Row(t, L)| > 0 && |t.levels[l]| > 0 && t.levels[l][0] in t.nodes && |t.nodes[t.levels[l][0]].recs| > 0
    ensures First(t.nodes, t.levels[l][0]) == Row(t, L)[0].key
    decreases l
  {
    hide ChainOk, FlatTo, Placed;
    LevelNodes(cfg, t.nodes, t.levels[l], l == 0);
    FlatFirst(t.nodes, t.levels[l]);
    if l > L {
      SameFirst(cfg, t, L, l - 1, D);
      assert Indexes(t.nodes, t.levels[l - 1], Flat(t.nodes, t.levels[l]), D);
    }
  }

  /** A node that starts at or below the key and right of the child found for the key is dangling. */
  lemma WalkedIsDangling(cfg: Config, nodes: NodeMap, lower: seq<nat>, leaf: bool, f: seq<Rec>, D: set<nat>,
                         key: Key, g: int, i: nat, j: nat)
    requires ConfigOk(cfg) && ChainOk(cfg, nodes, lower, leaf) && Sorted(cfg.cmp, f) && Indexes(nodes, lower, f, D)
    requires IsFloor(cfg.cmp, f, key, g) && i < j < |lower| && f[g].val == Child(lower[i])
    requires cfg.cmp(First(nodes, lower[j]), key) <= 0
    ensures lower[j] in D
  {
    if lower[j] !in D {
      assert HasEntry(f, lower[j]);
      var h :| 0 <= h < |f| && f[h].val == Child(lower[j]);
      ChainOrder(cfg, nodes, lower, i, 0, j, 0);
      Flip(cfg.cmp, f[g].key, f[h].key);
      assert false;
    }
  }

  /** The index record of node `i` is the floor of every key between its first key and the next node's. */
  lemma EntryIsFloor(cfg: Config, nodes: NodeMap, lower: seq<nat>, leaf: bool, f: seq<Rec>, D: set<nat>, key: Key, i: nat)
    returns (g: nat)
    requires ConfigOk(cfg) && ChainOk(cfg, nodes, lower, leaf) && Sorted(cfg.cmp, f) && Indexes(nodes, lower, f, D)
    requires i < |lower| && lower[i] !in D
    requires cfg.cmp(First(nodes, lower[i]), key) <= 0
    requires forall j :: i < j < |lower| && lower[j] !in D ==> cfg.cmp(First(nodes, lower[j]), key) > 0
    ensures IsFloor(cfg.cmp, f, key, g) && f[g].val == Child(lower[i]) && f[g].key == First(nodes, lower[i])
  {
    hide FlatTo, UsedTo;
    assert HasEntry(f, lower[i]);
    g :| 0 <= g < |f| && f[g].val == Child(lower[i]);
    if g + 1 < |f| {
      var c := f[g + 1].val.id;
      var k :| 0 <= k < |lower| && lower[k] == c;
      assert HasEntry(f, lower[k]);
      Flip(cfg.cmp, f[g].key, f[g + 1].key);
      Flip(cfg.cmp, f[g + 1].key, f[g].key);
      if k < i {
        ChainOrder(cfg, nodes, lower, k, 0, i, 0);
        assert false;
      }
      assert k != i;
    }
    FloorFromNeighbours(cfg.cmp, f, key, g);
  }

  /** A later node starts above every record of an earlier one. */
  lemma LaterAbove(cfg: Config, nodes: NodeMap, ids: seq<nat>, leaf: bool, i: nat, p: nat, j: nat)
    requires ConfigOk(cfg) && ChainOk(cfg, nodes, ids, leaf)
    requires i < j < |ids| && p < |nodes[ids[i]].recs|
    ensures cfg.cmp(First(nodes, ids[j]), nodes[ids[i]].recs[p].key) > 0
  {
    ChainOrder(cfg, nodes, ids, i, p, j, 0);
    Flip(cfg.cmp, nodes[ids[i]].recs[p].key, First(nodes, ids[j]));
  }

  /* ---- index records ---- */

  /** The index record for a node (form_new_adding_record). */
  function EntryOf(nodes: NodeMap, id: nat): Rec
    requires id in nodes && |nodes[id].recs| > 0
  {
    var r := nodes[id].recs[0];
    Rec(r.key, r.keyLen, r.keyLen + INDEX_VALUE, Child(id))
  }

  /** Recording a dangling node completes the index. */
  lemma IndexesInsert(nodes: NodeMap, lower: seq<nat>, f: seq<Rec>, r: nat, g: nat, f': seq<Rec>, rec: Rec)
    requires Indexes(nodes, lower, f, {r}) && r in lower
    requires rec.val == Child(r) && rec.key == First(nodes, r)
    requires g < |f| && f' == InsertAt(f, g + 1, rec)
    ensures Indexes(nodes, lower, f', {})
  {
    forall i | 0 <= i < |lower| ensures HasEntry(f', lower[i]) {
      if lower[i] == r {
        assert f'[g + 1].val == Child(lower[i]);
      } else {
        assert HasEntry(f, lower[i]);
        var j :| 0 <= j < |f| && f[j].val == Child(lower[i]);
        assert f'[if j <= g then j else j + 1] == f[j];
      }
    }
    forall j | 0 <= j < |f'| ensures f'[j] == rec || (exists k :: 0 <= k < |f| && f'[j] == f[k]) {
      if j <= g { assert f'[j] == f[j]; } else if j > g + 1 { assert f'[j] == f[j - 1]; }
    }
  }

  /** The first keys of a level rise from left to right. */
  ghost predicate FirstsRise(cfg: Config, nodes: NodeMap, ids: seq<nat>) {
    && (forall i :: 0 <= i < |ids| ==> ids[i] in nodes && |nodes[ids[i]].recs| > 0)
    && (forall a, b :: 0 <= a < b < |ids| ==> cfg.cmp(First(nodes, ids[a]), First(nodes, ids[b])) < 0)
  }

  lemma RisesFromFirst(cfg: Config, nodes: NodeMap, ids: seq<nat>, k: nat)
    requires FirstsRise(cfg, nodes, ids) && k < |ids|
    ensures k > 0 ==> cfg.cmp(First(nodes, ids[0]), First(nodes, ids[k])) < 0
  {
  }

  lemma ChainFirstsRise(cfg: Config, nodes: NodeMap, ids: seq<nat>, leaf: bool)
    requires ChainOk(cfg, nodes, ids, leaf)
    ensures FirstsRise(cfg, nodes, ids)
  {
    hide FlatTo, UsedTo;
    forall a, b | 0 <= a < b < |ids| ensures cfg.cmp(First(nodes, ids[a]), First(nodes, ids[b])) < 0 {
      ChainOrder(cfg, nodes, ids, a, 0, b, 0);
    }
  }

  /** Every index record points to a node, under its first key. */
  ghost predicate Points(nodes: NodeMap, lower: seq<nat>, f: seq<Rec>) {
    && (forall i :: 0 <= i < |lower| ==> lower[i] in nodes && |nodes[lower[i]].recs| > 0)
    && (forall j :: 0 <= j < |f| ==> f[j].val.Child? && f[j].val.id in lower && f[j].key == First(nodes, f[j].val.id))
  }

  lemma MoveHasEntry(f: seq<Rec>, g: nat, f': seq<Rec>, id: nat)
    requires HasEntry(f, id) && g < |f| && f' == RemoveAt(f, g) && f[g].val != Child(id)
    ensures HasEntry(f', id)
  {
    var j :| 0 <= j < |f| && f[j].val == Child(id);
    assert f'[if j < g then j else j - 1] == f[j];
  }

  /** Dropping a node together with its index record keeps the index. */
  lemma IndexesRemove(cfg: Config, nodes: NodeMap, nodes': NodeMap, lower: seq<nat>, f: seq<Rec>, i: nat, g: nat, f': seq<Rec>)
    requires Indexes(nodes, lower, f, {}) && Distinct(lower) && i < |lower| && |lower| > 1
    requires Sorted(cfg.cmp, f) && TotalOrder(cfg.cmp)
    requires FirstsKept(nodes, nodes', RemoveAt(lower, i))
    requires g < |f| && f[g].val == Child(lower[i]) && f' == RemoveAt(f, g)
    requires FirstsRise(cfg, nodes, lower)
    ensures Indexes(nodes', RemoveAt(lower, i), f', {})
  {
    var lower' := RemoveAt(lower, i);
    forall k | 0 <= k < |lower'| ensures HasEntry(f', lower'[k]) {
      var o := if k < i then k else k + 1;
      assert lower'[k] == lower[o] && HasEntry(f, lower[o]);
      MoveHasEntry(f, g, f', lower[o]);
    }
    PointsRemove(cfg, nodes, nodes', lower, f, i, g, f');
    FirstsRemove(cfg, nodes, nodes', lower, i);
    assert HasEntry(f', lower'[0]);
    SortedRemove(cfg.cmp, f, g, f');
    FirstEntry(cfg, nodes', lower', f');
  }

  lemma FirstsRemove(cfg: Config, nodes: NodeMap, nodes': NodeMap, lower: seq<nat>, i: nat)
    requires FirstsRise(cfg, nodes, lower) && i < |lower|
    requires FirstsKept(nodes, nodes', RemoveAt(lower, i))
    ensures FirstsRise(cfg, nodes', RemoveAt(lower, i))
  {
  }

  lemma PointsRemove(cfg: Config, nodes: NodeMap, nodes': NodeMap, lower: seq<nat>, f: seq<Rec>, i: nat, g: nat, f': seq<Rec>)
    requires Indexes(nodes, lower, f, {}) && Distinct(lower) && i < |lower|
    requires Sorted(cfg.cmp, f) && TotalOrder(cfg.cmp)
    requires FirstsKept(nodes, nodes', RemoveAt(lower, i))
    requires g < |f| && f[g].val == Child(lower[i]) && f' == RemoveAt(f, g)
    ensures Points(nodes', RemoveAt(lower, i), f')
  {
    hide HasEntry;
    var lower' := RemoveAt(lower, i);
    OneEntry(cfg, nodes, lower, f, i, g);
    forall j | 0 <= j < |f'|
      ensures f'[j].val.Child? && f'[j].val.id in lower' && f'[j].key == First(nodes', f'[j].val.id)
    {
      var h := if j < g then j else j + 1;
      assert f'[j] == f[h];
      var k :| 0 <= k < |lower| && lower[k] == f[h].val.id;
      assert k != i;
      assert lower'[if k < i then k else k - 1] == lower[k];
    }
  }

  /** Each node has one index record at most. */
  lemma OneEntry(cfg: Config, nodes: NodeMap, lower: seq<nat>, f: seq<Rec>, i: nat, g: nat)
    requires Indexes(nodes, lower, f, {}) && i < |lower| && Sorted(cfg.cmp, f) && TotalOrder(cfg.cmp)
    requires g < |f| && f[g].val == Child(lower[i])
    ensures forall h :: 0 <= h < |f| && h != g ==> f[h].val != Child(lower[i])
  {
    forall h | 0 <= h < |f| && h != g ensures f[h].val != Child(lower[i]) {
      Flip(cfg.cmp, f[g].key, f[h].key);
      Flip(cfg.cmp, f[h].key, f[g].key);
    }
  }

  /** In a complete sorted index the first record points to the first node. */
  lemma FirstEntry(cfg: Config, nodes: NodeMap, lower: seq<nat>, f: seq<Rec>)
    requires TotalOrder(cfg.cmp) && Sorted(cfg.cmp, f)
    requires |lower| > 0 && |f| > 0 && Points(nodes, lower, f) && FirstsRise(cfg, nodes, lower)
    requires HasEntry(f, lower[0])
    ensures f[0].val == Child(lower[0])
  {
    var h :| 0 <= h < |f| && f[h].val == Child(lower[0]);
    var k :| 0 <= k < |lower| && lower[k] == f[0].val.id;
    Flip(cfg.cmp, f[0].key, f[h].key);
    Flip(cfg.cmp, f[h].key, f[0].key);
    RisesFromFirst(cfg, nodes, lower, k);
  }

  /** Renaming the index record of node `i` to the node's new first key. */
  lemma IndexesRename(nodes: NodeMap, nodes': NodeMap, lower: seq<nat>, f: seq<Rec>, i: nat, g: nat, f': seq<Rec>, rec: Rec)
    requires Indexes(nodes, lower, f, {}) && i < |lower| && Distinct(lower)
    requires lower[i] in nodes' && |nodes'[lower[i]].recs| > 0
    requires FirstsKept(nodes, nodes', RemoveAt(lower, i))
    requires g < |f| && f[g].val == Child(lower[i]) && f' == f[g := rec]
    requires rec.val == Child(lower[i]) && rec.key == First(nodes', lower[i])
    requires forall h :: 0 <= h < |f| && h != g ==> f[h].val != Child(lower[i])
    ensures Indexes(nodes', lower, f', {})
  {
    KeptExcept(nodes, nodes', lower, i);
    forall k | 0 <= k < |lower| ensures HasEntry(f', lower[k]) {
      assert HasEntry(f, lower[k]);
      var j :| 0 <= j < |f| && f[j].val == Child(lower[k]);
      assert f'[j].val == f[j].val;
    }
    assert f'[0].val == f[0].val;
  }

  lemma KeptExcept(nodes: NodeMap, nodes': NodeMap, ids: seq<nat>, i: nat)
    requires i < |ids| && FirstsKept(nodes, nodes', RemoveAt(ids, i))
    ensures forall k :: 0 <= k < |ids| && k != i ==>
      && ids[k] in nodes && |nodes[ids[k]].recs| > 0
      && ids[k] in nodes' && |nodes'[ids[k]].recs| > 0
      && First(nodes', ids[k]) == First(nodes, ids[k])
  {
    forall k | 0 <= k < |ids| && k != i ensures ids[k] == RemoveAt(ids, i)[if k < i then k else k - 1] {
    }
  }
}
