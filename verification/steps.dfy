/** What single changes of a tree's nodes do to the tower above the changed level:
the steps from which insertion and removal are put together. */
module Steps {
  import opened Keys
  import opened Order
  import opened Nodes
  import opened Levels
  import opened Towers

  /** Node `i` of level `l`. */
  ghost predicate IsNode(t: Tree, l: nat, i: nat, id: nat) {
    l < |t.levels| && i < |t.levels[l]| && t.levels[l][i] == id && id in t.nodes
  }

  /** The place in its level of record `p` of node `i`. */
  ghost function PlaceOf(t: Tree, l: nat, i: nat, p: nat): nat
    requires l < |t.levels| && i < |t.levels[l]|
  {
    |FlatTo(t.nodes, t.levels[l], i)| + p
  }

  lemma TowerChain(cfg: Config, t: Tree, M: nat, D: set<nat>)
    requires Tower(cfg, t, M, D)
    ensures M < |t.levels| && ChainOk(cfg, t.nodes, t.levels[M], M == 0) && Placed(t, M)
    ensures Sorted(cfg.cmp, Row(t, M)) && Distinct(t.levels[M]) && |t.levels[M]| > 0
    ensures forall i :: 0 <= i < |t.levels[M]| ==>
      && IsNode(t, M, i, t.levels[M][i])
      && NodeOk(t.nodes[t.levels[M][i]], cfg.size, M == 0)
    ensures M + 1 < |t.levels| ==> Indexes(t.nodes, t.levels[M], Row(t, M + 1), D) && Sorted(cfg.cmp, Row(t, M + 1))
    ensures M + 1 == |t.levels| ==> TopOk(t, D)
    ensures t.lvl.Keys == t.nodes.Keys && NO_NODE !in t.nodes
  {
    if M + 1 < |t.levels| {
      assert Indexes(t.nodes, t.levels[M + 1 - 1], Flat(t.nodes, t.levels[M + 1]), D);
    }
  }

  /* ---- insertion ---- */

  /** A record goes into a node with room for it. */
  lemma InsertStep(cfg: Config, t: Tree, t': Tree, M: nat, i: nat, id: nat, p: nat, rec: Rec)
    requires ConfigOk(cfg) && Tower(cfg, t, M, {}) && IsNode(t, M, i, id) && p < |t.nodes[id].recs|
    requires IsFloor(cfg.cmp, Row(t, M), rec.key, PlaceOf(t, M, i, p)) && t.nodes[id].recs[p].key != rec.key
    requires Bounded(rec, cfg.size) && t.nodes[id].free >= rec.recLen + SLOT
    requires t' == t.(nodes := t.nodes[id := WithRecord(t.nodes[id], p + 1, rec)])
    ensures Tower(cfg, t', M, {}) && Frame(t, t', M) && AboveKept(t, t', M)
    ensures Row(t', M) == InsertAt(Row(t, M), PlaceOf(t, M, i, p) + 1, rec)
    ensures PlaceOf(t', M, i, p) == PlaceOf(t, M, i, p)
    ensures SameFirsts(t, t', M)
  {
    hide FlatTo, UsedTo, ChainOk, Tower, Indexes, IsFloor, Frame, AboveKept;
    TowerChain(cfg, t, M, {});
    InsertInChain(cfg, t.nodes, t'.nodes, t.levels[M], M == 0, i, p, rec);
    ChainDistinct(cfg, t.nodes, t.levels[M], M == 0);
    FlatAgree(t.nodes, t'.nodes, t.levels[M], t.levels[M], i);
    SameLevelStep(cfg, t, t', M);
  }

  /** No node of level `M` has gone or got another first key. */
  ghost predicate SameFirsts(t: Tree, t': Tree, M: nat) {
    && M < |t.levels| && M < |t'.levels|
    && FirstsKept(t.nodes, t'.nodes, t.levels[M])
    && forall k :: 0 <= k < |t.levels[M]| ==> t.levels[M][k] in t'.levels[M]
  }

  /** A change of one node of level `M` that keeps its first key is a level step. */
  lemma SameLevelStep(cfg: Config, t: Tree, t': Tree, M: nat)
    requires Tower(cfg, t, M, {})
    requires t'.levels == t.levels && t'.root == t.root && t'.lvl == t.lvl && t'.nodes.Keys == t.nodes.Keys
    requires forall id :: id in t.nodes && t.lvl[id] != M ==> t'.nodes[id] == t.nodes[id]
    requires ChainOk(cfg, t'.nodes, t.levels[M], M == 0)
    requires FirstsKept(t.nodes, t'.nodes, t.levels[M])
    ensures Tower(cfg, t', M, {}) && Frame(t, t', M) && AboveKept(t, t', M)
    ensures M + 1 < |t.levels| ==> Row(t', M + 1) == Row(t, M + 1)
  {
    hide Tower, LevelStep, Frame, AboveKept;
    SameLevelIsStep(cfg, t, t', M);
    LevelStepKeeps(cfg, t, t', M, {});
  }

  lemma SameLevelIsStep(cfg: Config, t: Tree, t': Tree, M: nat)
    requires Tower(cfg, t, M, {})
    requires t'.levels == t.levels && t'.root == t.root && t'.lvl == t.lvl && t'.nodes.Keys == t.nodes.Keys
    requires forall id :: id in t.nodes && t.lvl[id] != M ==> t'.nodes[id] == t.nodes[id]
    requires ChainOk(cfg, t'.nodes, t.levels[M], M == 0)
    requires FirstsKept(t.nodes, t'.nodes, t.levels[M])
    ensures LevelStep(cfg, t, t', M, {})
  {
    hide FlatTo, UsedTo, ChainOk, Indexes, Flat;
    assert Placed(t, M);
    if M + 1 < |t.levels| {
      assert Indexes(t.nodes, t.levels[M], Flat(t.nodes, t.levels[M + 1]), {});
      IndexesFrame(t.nodes, t'.nodes, t.levels[M], Row(t, M + 1), {});
    }
  }

  /** A full node is split and its new right part dangles. */
  lemma SplitStep(cfg: Config, t: Tree, t': Tree, M: nat, i: nat, id: nat, p: nat, rec: Rec, r: nat, left: Node, right: Node)
    requires ConfigOk(cfg) && Tower(cfg, t, M, {}) && IsNode(t, M, i, id) && p < |t.nodes[id].recs|
    requires IsFloor(cfg.cmp, Row(t, M), rec.key, PlaceOf(t, M, i, p)) && t.nodes[id].recs[p].key != rec.key
    requires Bounded(rec, cfg.size) && SplitParts(cfg, t.nodes[id], p, rec, left, right, M == 0)
    requires r != NO_NODE && r !in t.nodes
    requires SpliceIn(t.nodes, t'.nodes, t.levels[M], i, r, left, right)
    requires t' == t.(nodes := t'.nodes, lvl := t.lvl[r := M], levels := t.levels[M := InsertAt(t.levels[M], i + 1, r)])
    ensures Tower(cfg, t', M, {r}) && Frame(t, t', M) && AboveKept(t, t', M)
    ensures Row(t', M) == InsertAt(Row(t, M), PlaceOf(t, M, i, p) + 1, rec)
    ensures PlaceOf(t', M, i, 0) == PlaceOf(t, M, i, 0)
    ensures SameFirsts(t, t', M)
    ensures M + 1 < |t.levels| ==> Row(t', M + 1) == Row(t, M + 1)
    ensures M + 1 == |t.levels| ==> t'.levels[M] == [t.root, r]
  {
    hide FlatTo, UsedTo, ChainOk, Tower, Indexes, IsFloor, Frame, TopOk, SplitParts, AboveKept;
    var ids := t.levels[M];
    var ids' := InsertAt(ids, i + 1, r);
    TowerChain(cfg, t, M, {});
    SplitInChain(cfg, t.nodes, t'.nodes, ids, M == 0, i, p, rec, r, left, right);
    forall k | 0 <= k < |ids| ensures ids[k] in ids' {
      assert ids'[if k <= i then k else k + 1] == ids[k];
    }
    SplitIsLevelStep(cfg, t, t', M, i, r);
    LevelStepKeeps(cfg, t, t', M, {r});
    FlatAgree(t.nodes, t'.nodes, ids, ids', i);
  }

  lemma SplitIsLevelStep(cfg: Config, t: Tree, t': Tree, M: nat, i: nat, r: nat)
    requires Tower(cfg, t, M, {}) && M < |t.levels| && i < |t.levels[M]| && r != NO_NODE && r !in t.nodes
    requires t'.levels == t.levels[M := InsertAt(t.levels[M], i + 1, r)] && t'.root == t.root && t'.lvl == t.lvl[r := M]
    requires t'.nodes.Keys == t.nodes.Keys + {r}
    requires forall id :: id in t.nodes && id != t.levels[M][i] && id != NextOf(t.levels[M], i) ==> t'.nodes[id] == t.nodes[id]
    requires ChainOk(cfg, t'.nodes, t'.levels[M], M == 0)
    requires FirstsKept(t.nodes, t'.nodes, t.levels[M])
    ensures LevelStep(cfg, t, t', M, {r})
    ensures M + 1 == |t.levels| ==> t'.levels[M] == [t.root, r]
  {
    hide FlatTo, UsedTo, ChainOk, Indexes, NodeOk, Tower, FirstsKept, TopOk;
    var ids, ids' := t.levels[M], t'.levels[M];
    TowerChain(cfg, t, M, {});
    LevelNodes(cfg, t'.nodes, ids', M == 0);
    InsertMembers(ids, i, r);
    assert ids'[i + 1] == r;
    assert forall id :: id in t.nodes && t.lvl[id] == M ==> id in ids by { TowerMembers(cfg, t, M, {}); }
    if M + 1 < |t.levels| {
      IndexesSplit(t.nodes, t'.nodes, ids, Row(t, M + 1), i, r);
    } else {
      RootAlone(t, M);
      assert ids' == [ids[0], r];
      TopPair(t', M, t.root, r);
    }
  }

  lemma TopPair(t: Tree, M: nat, root: nat, r: nat)
    requires |t.levels| == M + 1 && t.levels[M] == [root, r] && t.root == root
    ensures TopOk(t, {r})
  {
  }

  lemma RootAlone(t: Tree, M: nat)
    requires |t.levels| == M + 1 && TopOk(t, {})
    ensures t.levels[M] == [t.root]
  {
    SecondDangles(t, {});
  }

  lemma SecondDangles(t: Tree, D: set<nat>)
    requires |t.levels| > 0 && TopOk(t, D)
    ensures |t.levels[|t.levels| - 1]| > 1 ==> D != {}
  {
    var top := t.levels[|t.levels| - 1];
    if |top| > 1 {
      assert top[1] in D;
    }
  }

  lemma TowerMembers(cfg: Config, t: Tree, M: nat, D: set<nat>)
    requires Tower(cfg, t, M, D)
    ensures forall id :: id in t.nodes && t.lvl[id] == M ==> id in t.levels[M]
    ensures forall id :: id in t.nodes ==> id in t.lvl
  {
  }

  lemma InsertMembers(ids: seq<nat>, i: nat, r: nat)
    requires i < |ids|
    ensures forall id :: id in InsertAt(ids, i + 1, r) <==> id in ids || id == r
  {
    var ids' := InsertAt(ids, i + 1, r);
    assert ids'[i + 1] == r;
    forall id | id in ids ensures id in ids' {
      var k :| 0 <= k < |ids| && ids[k] == id;
      assert ids'[if k <= i then k else k + 1] == id;
    }
  }

  lemma IndexesSplit(nodes: NodeMap, nodes': NodeMap, lower: seq<nat>, f: seq<Rec>, i: nat, r: nat)
    requires Indexes(nodes, lower, f, {}) && i < |lower| && r !in nodes && r in nodes' && |nodes'[r].recs| > 0
    requires FirstsKept(nodes, nodes', lower)
    ensures Indexes(nodes', InsertAt(lower, i + 1, r), f, {r})
  {
    var lower' := InsertAt(lower, i + 1, r);
    assert !HasEntry(f, r);
    hide HasEntry;
    forall k | 0 <= k < |lower'|
      ensures lower'[k] in nodes' && |nodes'[lower'[k]].recs| > 0 && (lower'[k] in {r} <==> !HasEntry(f, lower'[k]))
    {
      assert lower'[k] == if k <= i then lower[k] else if k == i + 1 then r else lower[k - 1];
    }
    forall j | 0 <= j < |f| ensures f[j].val.id in lower' && f[j].key == First(nodes', f[j].val.id) {
      var k :| 0 <= k < |lower| && lower[k] == f[j].val.id;
      assert lower'[if k <= i then k else k + 1] == lower[k];
    }
  }

  /* ---- removal ---- */

  /** The first keys of nodes other than `i` are kept. */
  lemma KeptInRow(cfg: Config, t: Tree, M: nat, D: set<nat>)
    requires Tower(cfg, t, M, D)
    ensures FirstsRise(cfg, t.nodes, t.levels[M])
  {
    hide FlatTo, UsedTo, Indexes;
    ChainFirstsRise(cfg, t.nodes, t.levels[M], M == 0);
  }

  /** A record goes from a node that keeps others. Only its node's index record may
  have become outdated, and only if the record was the node's first. */
  lemma RemoveStep(cfg: Config, t: Tree, t': Tree, M: nat, i: nat, id: nat, p: nat)
    requires ConfigOk(cfg) && Tower(cfg, t, M, {}) && IsNode(t, M, i, id) && p < |t.nodes[id].recs| && |t.nodes[id].recs| > 1
    requires t' == t.(nodes := t.nodes[id := WithoutRecord(t.nodes[id], p)])
    ensures PlaceOf(t, M, i, p) < |Row(t, M)| && Row(t', M) == RemoveAt(Row(t, M), PlaceOf(t, M, i, p))
    ensures Frame(t, t', M) && Base(cfg, t', M, M + 1, {})
    ensures M + 1 < |t.levels| ==> Tower(cfg, t', M + 1, {}) && Row(t', M + 1) == Row(t, M + 1)
    ensures p > 0 || M + 1 == |t.levels| ==> Tower(cfg, t', M, {})
    ensures p == 0 ==> FirstsKept(t.nodes, t'.nodes, RemoveAt(t.levels[M], i))
  {
    hide FlatTo, UsedTo, ChainOk, Tower, Indexes, Frame, Base, NodeOk, FirstsKept, Placed;
    TowerChain(cfg, t, M, {});
    RemoveInChain(cfg, t.nodes, t'.nodes, t.levels[M], M == 0, i, p);
    SameLevelBase(cfg, t, t', M);
    if p > 0 {
      SameLevelStep(cfg, t, t', M);
    } else if M + 1 == |t.levels| {
      SameRoot(cfg, t, t', M);
    }
  }

  /** Whatever happens inside the nodes of level `M`, the levels above stand. */
  lemma SameLevelBase(cfg: Config, t: Tree, t': Tree, M: nat)
    requires Tower(cfg, t, M, {})
    requires t'.levels == t.levels && t'.root == t.root && t'.lvl == t.lvl && t'.nodes.Keys == t.nodes.Keys
    requires forall id :: id in t.nodes && (id in t.lvl ==> t.lvl[id] != M) ==> t'.nodes[id] == t.nodes[id]
    requires ChainOk(cfg, t'.nodes, t.levels[M], M == 0)
    ensures Frame(t, t', M) && Base(cfg, t', M, M + 1, {})
    ensures M + 1 < |t.levels| ==> Tower(cfg, t', M + 1, {}) && Row(t', M + 1) == Row(t, M + 1)
  {
    hide FlatTo, UsedTo, ChainOk, Indexes, Tower, Base, Placed;
    TowerChain(cfg, t, M, {});
    TowerPlaced(cfg, t, M, {});
    TowerMembers(cfg, t, M, {});
    OneLevelBase(cfg, t', M, {});
    if M + 1 < |t.levels| {
      TowerSplit(cfg, t, M, M + 1, {});
      UpperKept(cfg, t, t', M + 1);
    }
  }

  /** A tower stands as long as its own nodes do not change. */
  lemma UpperKept(cfg: Config, t: Tree, t': Tree, M: nat)
    requires Tower(cfg, t, M, {})
    requires t'.root == t.root && |t'.levels| == |t.levels| && forall l :: M <= l < |t.levels| ==> t'.levels[l] == t.levels[l]
    requires t'.lvl.Keys == t'.nodes.Keys && NO_NODE !in t'.nodes
    requires forall id :: id in t.nodes && id in t.lvl && t.lvl[id] >= M ==>
      id in t'.nodes && id in t'.lvl && t'.nodes[id] == t.nodes[id] && t'.lvl[id] == t.lvl[id]
    requires forall id :: id in t'.nodes && id in t'.lvl && t'.lvl[id] >= M ==> id in t.nodes && id in t.lvl && t.lvl[id] == t'.lvl[id]
    ensures Tower(cfg, t', M, {}) && Row(t', M) == Row(t, M)
  {
    hide FlatTo, UsedTo, ChainOk, Indexes;
    forall l | M <= l < |t.levels|
      ensures ChainOk(cfg, t'.nodes, t'.levels[l], l == 0) && Placed(t', l) && Flat(t'.nodes, t'.levels[l]) == Flat(t.nodes, t.levels[l])
    {
      assert Placed(t, l);
      LevelNodes(cfg, t.nodes, t.levels[l], l == 0);
      ChainFrame(cfg, t.nodes, t'.nodes, t.levels[l], l == 0);
    }
    forall l | M < l < |t.levels| ensures Indexes(t'.nodes, t'.levels[l - 1], Flat(t'.nodes, t'.levels[l]), {}) {
      assert Placed(t, l - 1);
      LevelNodes(cfg, t.nodes, t.levels[l - 1], l - 1 == 0);
      IndexesFrame(t.nodes, t'.nodes, t.levels[l - 1], Flat(t.nodes, t.levels[l]), {});
    }
  }

  lemma SameRoot(cfg: Config, t: Tree, t': Tree, M: nat)
    requires Tower(cfg, t, M, {}) && M + 1 == |t.levels|
    requires t'.levels == t.levels && t'.root == t.root && t'.lvl == t.lvl && t'.nodes.Keys == t.nodes.Keys
    requires ChainOk(cfg, t'.nodes, t.levels[M], M == 0)
    ensures Tower(cfg, t', M, {})
  {
    hide FlatTo, UsedTo, ChainOk;
  }

  /** A node goes with its last record; the level's record sequence loses just that. */
  lemma UnlinkStep(cfg: Config, t: Tree, t': Tree, M: nat, i: nat, id: nat)
    requires ConfigOk(cfg) && Tower(cfg, t, M, {}) && IsNode(t, M, i, id) && |t.nodes[id].recs| == 1 && M + 1 < |t.levels|
    requires SpliceOut(t.nodes, t'.nodes, t.levels[M], i)
    requires t'.nodes.Keys == t.nodes.Keys - {id} && t'.lvl == t.lvl - {id}
    requires forall x :: x in t'.nodes && x !in t.levels[M] ==> t'.nodes[x] == t.nodes[x]
    requires t'.levels == t.levels[M := RemoveAt(t.levels[M], i)] && t'.root == t.root
    ensures Frame(t, t', M) && Tower(cfg, t', M + 1, {}) && Row(t', M + 1) == Row(t, M + 1)
    ensures |t.levels[M]| > 1 ==>
      && Base(cfg, t', M, M + 1, {}) && FirstsKept(t.nodes, t'.nodes, t'.levels[M])
      && PlaceOf(t, M, i, 0) < |Row(t, M)| && Row(t', M) == RemoveAt(Row(t, M), PlaceOf(t, M, i, 0))
  {
    hide FlatTo, UsedTo, ChainOk, Tower, Indexes, NodeOk, FirstsKept, Placed, SpliceOut, Base;
    TowerChain(cfg, t, M, {});
    TowerPlaced(cfg, t, M, {});
    TowerSplit(cfg, t, M, M + 1, {});
    assert id in t.lvl && t.lvl[id] == M;
    UpperKept(cfg, t, t', M + 1);
    if |t.levels[M]| > 1 {
      UnlinkInChain(cfg, t.nodes, t'.nodes, t.levels[M], M == 0, i);
      RemoveMembers(t.levels[M], i);
      TowerMembers(cfg, t, M, {});
      OneLevelBase(cfg, t', M, {});
    }
  }

  lemma TowerPlaced(cfg: Config, t: Tree, M: nat, D: set<nat>)
    requires Tower(cfg, t, M, D)
    ensures forall i :: 0 <= i < |t.levels[M]| ==> t.levels[M][i] in t.lvl && t.lvl[t.levels[M][i]] == M
    ensures forall id :: id in t.levels[M] ==> id in t.lvl && t.lvl[id] == M
  {
    assert Placed(t, M);
  }

  lemma RemoveMembers(ids: seq<nat>, i: nat)
    requires i < |ids| && Distinct(ids)
    ensures forall id :: id in RemoveAt(ids, i) <==> id in ids && id != ids[i]
  {
    var ids' := RemoveAt(ids, i);
    forall id | id in ids && id != ids[i] ensures id in ids' {
      var k :| 0 <= k < |ids| && ids[k] == id;
      assert ids'[if k < i then k else k - 1] == id;
    }
    forall id | id in ids' ensures id in ids && id != ids[i] {
      var k :| 0 <= k < |ids'| && ids'[k] == id;
      assert ids[if k < i then k else k + 1] == id;
    }
  }

  /** What a base consisting of one level amounts to. */
  lemma OneLevelBase(cfg: Config, t: Tree, M: nat, S: set<nat>)
    requires M < |t.levels| && t.lvl.Keys == t.nodes.Keys && NO_NODE !in t.nodes
    requires ChainOk(cfg, t.nodes, t.levels[M], M == 0)
    requires forall id :: id in t.levels[M] ==> id in t.lvl && t.lvl[id] == M
    requires forall id :: id in t.nodes && t.lvl[id] == M ==> id in t.levels[M] || id in S
    ensures Base(cfg, t, M, M + 1, S)
  {
    hide FlatTo, UsedTo, ChainOk;
  }

  lemma BaseLevel(cfg: Config, t: Tree, M: nat, S: set<nat>)
    requires Base(cfg, t, M, M + 1, S)
    ensures M < |t.levels| && t.lvl.Keys == t.nodes.Keys && NO_NODE !in t.nodes
    ensures ChainOk(cfg, t.nodes, t.levels[M], M == 0)
    ensures forall id :: id in t.levels[M] ==> id in t.lvl && t.lvl[id] == M
    ensures forall id :: id in t.nodes && t.lvl[id] == M ==> id in t.levels[M] || id in S
  {
    assert Placed(t, M);
  }

  /** The right one of two neighbours has been emptied into the left one but still exists. */
  lemma MergeStep(cfg: Config, t: Tree, t': Tree, M: nat, i: nat, left: nat, right: nat, merged: Node)
    requires ConfigOk(cfg) && Tower(cfg, t, M, {}) && IsNode(t, M, i, left) && IsNode(t, M, i + 1, right) && M + 1 < |t.levels|
    requires merged.recs == t.nodes[left].recs + t.nodes[right].recs && merged.leaf == t.nodes[left].leaf
    requires merged.free == t.nodes[left].free + t.nodes[right].free + OVERHEAD - cfg.size >= 0
    requires merged.prev == t.nodes[left].prev && merged.next == t.nodes[left].next
    requires SpliceOut(t.nodes[left := merged], t'.nodes, t.levels[M], i + 1)
    requires t'.nodes.Keys == t.nodes.Keys && t'.lvl == t.lvl
    requires forall x :: x in t'.nodes && x !in t.levels[M] ==> t'.nodes[x] == t.nodes[x]
    requires t'.levels == t.levels[M := RemoveAt(t.levels[M], i + 1)] && t'.root == t.root
    ensures Frame(t, t', M) && Tower(cfg, t', M + 1, {}) && Row(t', M + 1) == Row(t, M + 1)
    ensures Base(cfg, t', M, M + 1, {right}) && FirstsKept(t.nodes, t'.nodes, t'.levels[M])
    ensures Row(t', M) == Row(t, M)
  {
    hide FlatTo, UsedTo, ChainOk, Tower, Indexes, NodeOk, FirstsKept, Placed, SpliceOut, Base, RemoveAt, ConfigOk;
    TowerChain(cfg, t, M, {});
    TowerPlaced(cfg, t, M, {});
    assert merged.leaf == (M == 0) by { LeafFlag(cfg, t.nodes, t.levels[M], M == 0, i); }
    TowerSplit(cfg, t, M, M + 1, {});
    UpperKept(cfg, t, t', M + 1);
    MergeInChain(cfg, t.nodes, t'.nodes, t.levels[M], M == 0, i, merged);
    RemoveMembers(t.levels[M], i + 1);
    TowerMembers(cfg, t, M, {});
    OneLevelBase(cfg, t', M, {right});
  }

  lemma LeafFlag(cfg: Config, nodes: NodeMap, ids: seq<nat>, leaf: bool, i: nat)
    requires ChainOk(cfg, nodes, ids, leaf) && i < |ids|
    ensures nodes[ids[i]].leaf == leaf
  {
  }

  /** Freeing an unlinked node of the level below a repaired upper part. */
  lemma FreeStep(cfg: Config, t: Tree, t': Tree, M: nat, f: seq<Rec>, x: nat)
    requires Base(cfg, t, M, M + 1, {x}) && Upper(cfg, t, M + 1, f)
    requires x in t.nodes && t.lvl[x] == M && x !in t.levels[M]
    requires t' == t.(nodes := t.nodes - {x}, lvl := t.lvl - {x})
    ensures Base(cfg, t', M, M + 1, {}) && Upper(cfg, t', M + 1, f) && Frame(t, t', M)
    ensures Row(t', M) == Row(t, M) && FirstsKept(t.nodes, t'.nodes, t'.levels[M])
  {
    hide FlatTo, UsedTo, ChainOk, Indexes, Tower, Base, Placed;
    BaseLevel(cfg, t, M, {x});
    LevelNodes(cfg, t.nodes, t.levels[M], M == 0);
    ChainFrame(cfg, t.nodes, t'.nodes, t.levels[M], M == 0);
    OneLevelBase(cfg, t', M, {});
    if M + 1 < |t.levels| {
      UpperKept(cfg, t, t', M + 1);
    }
  }

  /** The root has a single child, which becomes the root. */
  lemma CollapseStep(cfg: Config, t: Tree, t': Tree, M: nat, child: nat)
    requires Tower(cfg, t, M, {}) && M + 1 == |t.levels| && M > 0
    requires t.root in t.nodes && |t.nodes[t.root].recs| == 1 && t.nodes[t.root].recs[0].val == Child(child)
    requires t' == Tree(t.nodes - {t.root}, t.lvl - {t.root}, t.levels[..M], child)
    ensures Upper(cfg, t', M, Row(t, M)) && Frame(t, t', M)
  {
    hide FlatTo, UsedTo, Indexes, NodeOk;
    RootAlone(t, M);
    assert Placed(t, M);
    TowerPlaced(cfg, t, M, {});
    assert Row(t, M) == t.nodes[t.root].recs by {
      FlatStep(t.nodes, t.levels[M], 0);
      FlatNil(t.nodes, t.levels[M]);
    }
    assert NoStray(t', M) by {
      TowerMembers(cfg, t, M, {});
    }
  }

  lemma FlatNil(nodes: NodeMap, ids: seq<nat>)
    ensures FlatTo(nodes, ids, 0) == []
  {
  }

  /* ---- index and level ---- */

  ghost predicate HasKey(f: seq<Rec>, key: Key) {
    exists j :: 0 <= j < |f| && f[j].key == key
  }

  /** A complete index lists the nodes of the level below in order. */
  lemma {:induction false} IndexMatchesTo(cfg: Config, nodes: NodeMap, lower: seq<nat>, f: seq<Rec>, n: nat)
    requires TotalOrder(cfg.cmp) && Indexes(nodes, lower, f, {}) && Sorted(cfg.cmp, f) && FirstsRise(cfg, nodes, lower)
    requires n <= |lower|
    ensures n <= |f| && forall j :: 0 <= j < n ==> f[j].val == Child(lower[j])
  {
    if n > 0 {
      var m := n - 1;
      IndexMatchesTo(cfg, nodes, lower, f, m);
      assert HasEntry(f, lower[m]);
      var h :| 0 <= h < |f| && f[h].val == Child(lower[m]);
      if h < m {
        assert lower[h] == lower[m];
        Flip(cfg.cmp, First(nodes, lower[h]), First(nodes, lower[m]));
        assert false;
      }
      if h > m {
        var k :| 0 <= k < |lower| && lower[k] == f[m].val.id;
        assert cfg.cmp(f[m].key, f[h].key) < 0;
        Flip(cfg.cmp, f[m].key, f[h].key);
        Flip(cfg.cmp, f[h].key, f[m].key);
        assert k < m;
        assert f[k].val == f[m].val;
        Flip(cfg.cmp, f[k].key, f[m].key);
        assert false;
      }
    }
  }

  lemma IndexMatches(cfg: Config, nodes: NodeMap, lower: seq<nat>, f: seq<Rec>)
    requires TotalOrder(cfg.cmp) && Indexes(nodes, lower, f, {}) && Sorted(cfg.cmp, f) && FirstsRise(cfg, nodes, lower)
    ensures |f| == |lower|
    ensures forall j :: 0 <= j < |f| ==> f[j].val == Child(lower[j]) && f[j].key == First(nodes, lower[j])
  {
    IndexMatchesTo(cfg, nodes, lower, f, |lower|);
    if |f| > |lower| {
      var m := |lower|;
      var k :| 0 <= k < |lower| && lower[k] == f[m].val.id;
      assert f[k].val == f[m].val;
      Flip(cfg.cmp, f[k].key, f[m].key);
      assert false;
    }
  }

  /** The index of a tower's level `M`: as many records as nodes, record `j` for node `j`. */
  lemma TowerIndex(cfg: Config, t: Tree, M: nat)
    requires ConfigOk(cfg) && Tower(cfg, t, M, {}) && M + 1 < |t.levels|
    ensures |Row(t, M + 1)| == |t.levels[M]| <= |Row(t, M)|
    ensures forall j :: 0 <= j < |t.levels[M]| ==>
      && IsNode(t, M, j, t.levels[M][j]) && |t.nodes[t.levels[M][j]].recs| > 0
      && Row(t, M + 1)[j].val == Child(t.levels[M][j])
      && Row(t, M + 1)[j].key == First(t.nodes, t.levels[M][j])
    ensures Sorted(cfg.cmp, Row(t, M + 1))
  {
    hide FlatTo, UsedTo, Tower, Indexes, FirstsRise, NodeOk;
    TowerChain(cfg, t, M, {});
    KeptInRow(cfg, t, M, {});
    IndexMatches(cfg, t.nodes, t.levels[M], Row(t, M + 1));
    FlatLength(cfg, t.nodes, t.levels[M], M == 0, |t.levels[M]|) by { ChainLive(cfg, t.nodes, t.levels[M], M == 0); }
    forall j | 0 <= j < |t.levels[M]| ensures |t.nodes[t.levels[M][j]].recs| > 0 {
      NodeNonempty(t.nodes[t.levels[M][j]], cfg.size, M == 0);
    }
  }

  lemma NodeNonempty(nd: Node, size: nat, leaf: bool)
    requires NodeOk(nd, size, leaf)
    ensures |nd.recs| > 0
  {
  }

  lemma ChainLive(cfg: Config, nodes: NodeMap, ids: seq<nat>, leaf: bool)
    requires ChainOk(cfg, nodes, ids, leaf)
    ensures Live(cfg, nodes, ids, leaf) && LinkedUp(nodes, ids)
  {
  }

  /** Keys from a node's first key on and below the next node's lead to its index record. */
  lemma ParentFloor(cfg: Config, t: Tree, M: nat, i: nat, key: Key)
    requires ConfigOk(cfg) && Tower(cfg, t, M, {}) && M + 1 < |t.levels| && i < |t.levels[M]|
    requires t.levels[M][i] in t.nodes && |t.nodes[t.levels[M][i]].recs| > 0
    requires cfg.cmp(First(t.nodes, t.levels[M][i]), key) <= 0
    requires i + 1 < |t.levels[M]| ==> t.levels[M][i + 1] in t.nodes && |t.nodes[t.levels[M][i + 1]].recs| > 0
                                       && cfg.cmp(First(t.nodes, t.levels[M][i + 1]), key) > 0
    ensures IsFloor(cfg.cmp, Row(t, M + 1), key, i)
    ensures Row(t, M + 1)[i].val == Child(t.levels[M][i]) && Row(t, M + 1)[i].key == First(t.nodes, t.levels[M][i])
  {
    hide FlatTo, UsedTo, Tower;
    TowerIndex(cfg, t, M);
    FloorFromNeighbours(cfg.cmp, Row(t, M + 1), key, i);
  }

  /** The first key of a node and all its others lie below the next node. */
  lemma NodeRange(cfg: Config, t: Tree, M: nat, i: nat, p: nat)
    requires ConfigOk(cfg) && Tower(cfg, t, M, {}) && M < |t.levels| && i < |t.levels[M]|
    requires t.levels[M][i] in t.nodes && p < |t.nodes[t.levels[M][i]].recs|
    ensures cfg.cmp(First(t.nodes, t.levels[M][i]), t.nodes[t.levels[M][i]].recs[p].key) <= 0
    ensures i + 1 < |t.levels[M]| ==>
      && t.levels[M][i + 1] in t.nodes && |t.nodes[t.levels[M][i + 1]].recs| > 0
      && cfg.cmp(First(t.nodes, t.levels[M][i + 1]), t.nodes[t.levels[M][i]].recs[p].key) > 0
  {
    hide FlatTo, UsedTo, Tower, Indexes, LinkedUp;
    TowerChain(cfg, t, M, {});
    var ids := t.levels[M];
    if p == 0 {
      Flip(cfg.cmp, First(t.nodes, ids[i]), First(t.nodes, ids[i]));
    } else {
      ChainOrder(cfg, t.nodes, ids, i, 0, i, p);
    }
    if i + 1 < |ids| {
      NodeNonempty(t.nodes[ids[i + 1]], cfg.size, M == 0);
      LaterAbove(cfg, t.nodes, ids, M == 0, i, p, i + 1);
    }
  }

  /** After the index record of node `i` has been renamed, the tower stands again. */
  lemma RenameDone(cfg: Config, t0: Tree, t1: Tree, t2: Tree, M: nat, i: nat, id: nat)
    requires ConfigOk(cfg) && Tower(cfg, t0, M, {}) && M + 1 < |t0.levels| && IsNode(t0, M, i, id)
    requires M + 1 < |t1.levels| && M + 1 < |t2.levels| && i < |Row(t0, M + 1)|
    requires Base(cfg, t1, M, M + 1, {}) && t1.levels[M] == t0.levels[M] && Row(t1, M + 1) == Row(t0, M + 1)
    requires FirstsKept(t0.nodes, t1.nodes, RemoveAt(t0.levels[M], i))
    requires Frame(t1, t2, M + 1) && Tower(cfg, t2, M + 1, {})
    requires id in t2.nodes && |t2.nodes[id].recs| > 0 && Row(t2, M + 1) == Row(t0, M + 1)[i := EntryOf(t2.nodes, id)]
    requires id in t1.nodes && t2.nodes[id] == t1.nodes[id]
    ensures Tower(cfg, t2, M, {}) && Row(t2, M) == Row(t1, M)
  {
    hide FlatTo, UsedTo, Tower, ChainOk, Indexes, FirstsKept, Frame, Base, NodeOk;
    TowerChain(cfg, t2, M + 1, {});
    BaseFrame(cfg, t1, t2, M, M + 1, {});
    BaseLevel(cfg, t1, M, {});
    BaseRow(cfg, t1, t2, M, {});
    TowerChain(cfg, t0, M, {});
    TowerIndex(cfg, t0, M);
    KeptInRow(cfg, t0, M, {});
    OneEntry(cfg, t0.nodes, t0.levels[M], Row(t0, M + 1), i, i);
    KeptTwice(t0, t1, t2, M, i, cfg);
    IndexesRename(t0.nodes, t2.nodes, t0.levels[M], Row(t0, M + 1), i, i, Row(t2, M + 1), EntryOf(t2.nodes, id));
    FrameLevel(t1, t2, M);
    Rejoin(cfg, t2, M, M + 1, {});
  }

  lemma FrameLevel(t: Tree, t': Tree, M: nat)
    requires Frame(t, t', M + 1)
    ensures M < |t.levels| && M < |t'.levels| && t'.levels[M] == t.levels[M]
  {
  }

  /** A level below the changed ones keeps its nodes and records. */
  lemma BaseRow(cfg: Config, t: Tree, t': Tree, M: nat, S: set<nat>)
    requires Base(cfg, t, M, M + 1, S) && Frame(t, t', M + 1)
    ensures M < |t'.levels| && t'.levels[M] == t.levels[M] && Row(t', M) == Row(t, M)
    ensures forall k :: 0 <= k < |t.levels[M]| ==>
      t.levels[M][k] in t.nodes && t.levels[M][k] in t'.nodes && t'.nodes[t.levels[M][k]] == t.nodes[t.levels[M][k]]
  {
    hide FlatTo, UsedTo, ChainOk, Indexes;
    assert Placed(t, M);
    LevelNodes(cfg, t.nodes, t.levels[M], M == 0);
    FlatAgree(t.nodes, t'.nodes, t.levels[M], t.levels[M], |t.levels[M]|);
  }

  lemma KeptTwice(t0: Tree, t1: Tree, t2: Tree, M: nat, i: nat, cfg: Config)
    requires M < |t0.levels| && i < |t0.levels[M]| && M < |t1.levels| && t1.levels[M] == t0.levels[M]
    requires FirstsKept(t0.nodes, t1.nodes, RemoveAt(t0.levels[M], i))
    requires forall k :: 0 <= k < |t1.levels[M]| ==>
      t1.levels[M][k] in t1.nodes && t1.levels[M][k] in t2.nodes && t2.nodes[t1.levels[M][k]] == t1.nodes[t1.levels[M][k]]
    ensures FirstsKept(t0.nodes, t2.nodes, RemoveAt(t0.levels[M], i))
  {
    var ids := RemoveAt(t0.levels[M], i);
    forall k | 0 <= k < |ids| ensures ids[k] in t1.nodes && ids[k] in t2.nodes && t2.nodes[ids[k]] == t1.nodes[ids[k]] {
      assert ids[k] == t1.levels[M][if k < i then k else k + 1];
    }
  }

  /** After a node and its index record have gone, the tower stands again. */
  lemma DropDone(cfg: Config, t0: Tree, t2: Tree, M: nat, i: nat, g: nat)
    requires ConfigOk(cfg) && Tower(cfg, t0, M, {}) && M + 1 < |t0.levels| && i < |t0.levels[M]| && |t0.levels[M]| > 1
    requires Base(cfg, t2, M, M + 1, {}) && t2.levels[M] == RemoveAt(t0.levels[M], i)
    requires FirstsKept(t0.nodes, t2.nodes, t2.levels[M])
    requires t0.levels[M][i] in t0.nodes && |t0.nodes[t0.levels[M][i]].recs| > 0
    requires g < |Row(t0, M + 1)| && Row(t0, M + 1)[g].key == First(t0.nodes, t0.levels[M][i])
    requires Upper(cfg, t2, M + 1, RemoveAt(Row(t0, M + 1), g))
    ensures Tower(cfg, t2, M, {})
  {
    hide FlatTo, UsedTo, Tower, ChainOk, Indexes, FirstsKept, Upper, Base, NodeOk, FirstsRise;
    TowerChain(cfg, t0, M, {});
    TowerIndex(cfg, t0, M);
    KeptInRow(cfg, t0, M, {});
    var f := Row(t0, M + 1);
    assert g == i by {
      Flip(cfg.cmp, f[g].key, f[i].key);
      Flip(cfg.cmp, f[i].key, f[g].key);
    }
    IndexesRemove(cfg, t0.nodes, t2.nodes, t0.levels[M], f, i, g, RemoveAt(f, g));
    RejoinUpper(cfg, t2, M, RemoveAt(f, g));
  }

  /** A level with a node of at least `c` records holds at least `c - 1` records more than nodes. */
  lemma {:induction false} FlatLengthAt(cfg: Config, nodes: NodeMap, ids: seq<nat>, leaf: bool, n: nat, i: nat, c: nat)
    requires Live(cfg, nodes, ids, leaf) && i < |ids| && n <= |ids| && |nodes[ids[i]].recs| >= c >= 1
    ensures |FlatTo(nodes, ids, n)| >= n + (if i < n then c - 1 else 0)
  {
    if n > 0 {
      FlatLengthAt(cfg, nodes, ids, leaf, n - 1, i, c);
    }
  }

  /** Where the records around the insertion point are after a split. */
  lemma SplitPlaces(cfg: Config, t: Tree, t': Tree, M: nat, i: nat, id: nat, p: nat, r: nat, left: seq<Rec>, right: seq<Rec>)
    returns (gi: nat, gp: nat)
    requires ConfigOk(cfg) && Tower(cfg, t', M, {r}) && M < |t.levels| && IsNode(t, M, i, id) && p < |t.nodes[id].recs|
    requires t'.levels == t.levels[M := InsertAt(t.levels[M], i + 1, r)] && PlaceOf(t', M, i, 0) == PlaceOf(t, M, i, 0)
    requires id in t'.nodes && r in t'.nodes && t'.nodes[id].recs == left && t'.nodes[r].recs == right
    requires |left| >= 4 && |right| >= 1 && |left| + |right| == |t.nodes[id].recs| + 1
    ensures gi < |t'.levels[M]| && t'.levels[M][gi] in t'.nodes && gp < |t'.nodes[t'.levels[M][gi]].recs|
    ensures |t'.nodes[t'.levels[M][gi]].recs| > 1 && PlaceOf(t', M, gi, gp) == PlaceOf(t, M, i, p)
    ensures r in t'.levels[M] && cfg.cmp(First(t'.nodes, id), First(t'.nodes, r)) < 0
    ensures |Row(t', M)| >= |t'.levels[M]| + 3
  {
    hide UsedTo, Tower, Indexes, NodeOk, IsFloor, FlatTo;
    TowerChain(cfg, t', M, {r});
    var ids' := t'.levels[M];
    assert ids'[i] == id && ids'[i + 1] == r;
    ChainOrder(cfg, t'.nodes, ids', i, 0, i + 1, 0);
    ChainLive(cfg, t'.nodes, ids', M == 0);
    FlatLengthAt(cfg, t'.nodes, ids', M == 0, |ids'|, i, 4);
    FlatStep(t'.nodes, ids', i);
    gi, gp := if p < |left| then i else i + 1, if p < |left| then p else p - |left|;
  }

  /** The sibling links of a node name its neighbours in the level. */
  lemma Neighbours(cfg: Config, t: Tree, M: nat, D: set<nat>, i: nat)
    requires Tower(cfg, t, M, D) && M < |t.levels| && i < |t.levels[M]|
    ensures t.levels[M][i] in t.nodes
    ensures t.nodes[t.levels[M][i]].next == NextOf(t.levels[M], i) && t.nodes[t.levels[M][i]].prev == PrevOf(t.levels[M], i)
    ensures i + 1 < |t.levels[M]| ==> t.levels[M][i + 1] in t.nodes && t.levels[M][i + 1] != NO_NODE && t.levels[M][i + 1] != t.levels[M][i]
    ensures i > 0 ==> t.levels[M][i - 1] in t.nodes && t.levels[M][i - 1] != NO_NODE && t.levels[M][i - 1] != t.levels[M][i]
  {
    hide FlatTo, UsedTo, Indexes, NodeOk;
    ChainLive(cfg, t.nodes, t.levels[M], M == 0);
    ChainDistinct(cfg, t.nodes, t.levels[M], M == 0);
  }

  /** The nodes after node `id`, if there is one, has got another left neighbour. */
  function WithPrev(nodes: NodeMap, id: nat, prev: nat): (r: NodeMap)
    ensures r.Keys == nodes.Keys
  {
    if id != NO_NODE && id in nodes then nodes[id := nodes[id].(prev := prev)] else nodes
  }

  function WithNext(nodes: NodeMap, id: nat, next: nat): (r: NodeMap)
    ensures r.Keys == nodes.Keys
  {
    if id != NO_NODE && id in nodes then nodes[id := nodes[id].(next := next)] else nodes
  }

  /** What the assignments of split_bnode to the links of three nodes amount to. */
  lemma LinkedIn(nodes: NodeMap, ids: seq<nat>, i: nat, id: nat, r: nat, left: Node, right: Node, next: nat, nodes': NodeMap)
    requires i < |ids| && ids[i] == id && id in nodes && r !in nodes && next == NextOf(ids, i)
    requires left.prev == nodes[id].prev && left.next == r && right.prev == id && right.next == next
    requires next != NO_NODE ==> next in nodes && next != id
    requires nodes' == WithPrev(nodes[id := left][r := right], next, r)
    requires NO_NODE !in nodes
    ensures SpliceIn(nodes, nodes', ids, i, r, left, right)
  {
  }

  /* ---- a new root ---- */

  /** A root above the old one and its only right sibling completes the tower. */
  lemma NewRootStep(cfg: Config, t: Tree, t': Tree, L: nat, r: nat, id: nat, nd: Node)
    requires ConfigOk(cfg) && Tower(cfg, t, L, {r}) && L < |t.levels|
    requires t.levels[|t.levels| - 1] == [t.root, r] && r in t.lvl && t.lvl[r] == |t.levels| - 1
    requires id != NO_NODE && id !in t.nodes
    requires t.root in t.nodes && |t.nodes[t.root].recs| > 0 && r in t.nodes && |t.nodes[r].recs| > 0
    requires nd.recs == [EntryOf(t.nodes, t.root), EntryOf(t.nodes, r)] && !nd.leaf && nd.prev == nd.next == NO_NODE
    requires nd.free == cfg.size - OVERHEAD - Used(nd.recs) >= 0
    requires t' == Tree(t.nodes[id := nd], t.lvl[id := |t.levels|], t.levels + [[id]], id)
    ensures Tower(cfg, t', L, {}) && Frame(t, t', |t.levels|)
  {
    hide FlatTo, UsedTo, Tower, ChainOk, Indexes, Base, Frame;
    var h := |t.levels|;
    TowerBase(cfg, t, L, r);
    NewRootFrame(cfg, t, t', L, r, id, nd);
    BaseFrame(cfg, t, t', L, h, {});
    NewRootChain(cfg, t, t', L, r, id, nd);
    NewRootIndex(cfg, t, t', L, r, id, nd);
    NewRootTop(cfg, t, t', L, r, id, nd);
    Rejoin(cfg, t', L, h, {});
  }

  /** A tower whose dangling node stands on the top level is a base for a new top level. */
  lemma TowerBase(cfg: Config, t: Tree, L: nat, r: nat)
    requires Tower(cfg, t, L, {r}) && r in t.lvl && t.lvl[r] == |t.levels| - 1
    ensures Base(cfg, t, L, |t.levels|, {})
  {
    hide FlatTo, UsedTo, ChainOk;
    forall l | L < l < |t.levels| ensures Indexes(t.nodes, t.levels[l - 1], Flat(t.nodes, t.levels[l]), {}) {
      assert Placed(t, l - 1);
      assert Indexes(t.nodes, t.levels[l - 1], Flat(t.nodes, t.levels[l]), {r});
    }
  }

  lemma NewRootFrame(cfg: Config, t: Tree, t': Tree, L: nat, r: nat, id: nat, nd: Node)
    requires Tower(cfg, t, L, {r}) && id != NO_NODE && id !in t.nodes
    requires t' == Tree(t.nodes[id := nd], t.lvl[id := |t.levels|], t.levels + [[id]], id)
    ensures Frame(t, t', |t.levels|) && t'.lvl.Keys == t'.nodes.Keys && NO_NODE !in t'.nodes
  {
    hide FlatTo, UsedTo, ChainOk, Indexes;
  }

  lemma NewRootChain(cfg: Config, t: Tree, t': Tree, L: nat, r: nat, id: nat, nd: Node)
    requires ConfigOk(cfg) && Tower(cfg, t, L, {r}) && L < |t.levels|
    requires t.levels[|t.levels| - 1] == [t.root, r] && id != NO_NODE
    requires t.root in t.nodes && |t.nodes[t.root].recs| > 0 && r in t.nodes && |t.nodes[r].recs| > 0
    requires nd.recs == [EntryOf(t.nodes, t.root), EntryOf(t.nodes, r)] && !nd.leaf && nd.prev == nd.next == NO_NODE
    requires nd.free == cfg.size - OVERHEAD - Used(nd.recs) >= 0
    requires t' == Tree(t.nodes[id := nd], t.lvl[id := |t.levels|], t.levels + [[id]], id)
    ensures ChainOk(cfg, t'.nodes, [id], false) && Flat(t'.nodes, [id]) == nd.recs
  {
    hide UsedTo, Tower, Indexes;
    var h := |t.levels|;
    var top := t.levels[h - 1];
    TowerTop(cfg, t, L, {r});
    FlatStep(t'.nodes, [id], 0);
    ChainOrder(cfg, t.nodes, top, 0, 0, 1, 0);
    EntryBounded(cfg, t.nodes, top, h - 1 == 0, 0);
    EntryBounded(cfg, t.nodes, top, h - 1 == 0, 1);
    assert LinkedUp(t'.nodes, [id]);
  }

  lemma TowerTop(cfg: Config, t: Tree, L: nat, D: set<nat>)
    requires Tower(cfg, t, L, D)
    ensures |t.levels| > 0 && ChainOk(cfg, t.nodes, t.levels[|t.levels| - 1], |t.levels| - 1 == 0) && TopOk(t, D) && NoStray(t, L)
  {
  }

  lemma EntryBounded(cfg: Config, nodes: NodeMap, ids: seq<nat>, leaf: bool, i: nat)
    requires ConfigOk(cfg) && ChainOk(cfg, nodes, ids, leaf) && i < |ids|
    ensures ids[i] in nodes && |nodes[ids[i]].recs| > 0 && Bounded(EntryOf(nodes, ids[i]), cfg.size)
    ensures Bounded(nodes[ids[i]].recs[0], cfg.size)
  {
    hide FlatTo, UsedTo;
  }

  lemma NewRootIndex(cfg: Config, t: Tree, t': Tree, L: nat, r: nat, id: nat, nd: Node)
    requires t.levels != [] && t.levels[|t.levels| - 1] == [t.root, r] && id !in t.nodes
    requires t.root in t.nodes && |t.nodes[t.root].recs| > 0 && r in t.nodes && |t.nodes[r].recs| > 0
    requires nd.recs == [EntryOf(t.nodes, t.root), EntryOf(t.nodes, r)]
    requires t'.nodes == t.nodes[id := nd]
    ensures Indexes(t'.nodes, [t.root, r], nd.recs, {})
  {
    var f := nd.recs;
    assert f[0].val == Child(t.root) && f[1].val == Child(r);
    assert HasEntry(f, t.root) && HasEntry(f, r);
    var lower := [t.root, r];
    assert lower[0] == t.root && lower[1] == r;
  }

  lemma NewRootTop(cfg: Config, t: Tree, t': Tree, L: nat, r: nat, id: nat, nd: Node)
    requires Tower(cfg, t, L, {r}) && L < |t.levels| && id != NO_NODE && id !in t.nodes
    requires t' == Tree(t.nodes[id := nd], t.lvl[id := |t.levels|], t.levels + [[id]], id)
    requires ChainOk(cfg, t'.nodes, [id], false)
    ensures Tower(cfg, t', |t.levels|, {})
  {
    hide FlatTo, UsedTo, ChainOk, Indexes;
  }

  lemma TowerOneBase(cfg: Config, t: Tree, L: nat, D: set<nat>)
    requires Tower(cfg, t, L, D)
    ensures Base(cfg, t, L, L + 1, {})
  {
    hide FlatTo, UsedTo, ChainOk, Indexes;
  }

  /* ---- completing the index ---- */

  /** A node without index record has no index record under its key either. */
  lemma NotIndexed(cfg: Config, t: Tree, L: nat, M: nat, r: nat, g: nat)
    requires ConfigOk(cfg) && Tower(cfg, t, L, {r}) && L <= M && M + 1 < |t.levels| && r in t.levels[M]
    requires r in t.nodes && |t.nodes[r].recs| > 0 && g < |Row(t, M + 1)|
    ensures Row(t, M + 1)[g].key != First(t.nodes, r)
  {
    hide FlatTo, UsedTo, ChainOk, FirstsRise;
    var f, lower := Row(t, M + 1), t.levels[M];
    assert Indexes(t.nodes, t.levels[M + 1 - 1], Flat(t.nodes, t.levels[M + 1]), {r});
    if f[g].key == First(t.nodes, r) {
      var c := f[g].val.id;
      var k :| 0 <= k < |lower| && lower[k] == c;
      var j :| 0 <= j < |lower| && lower[j] == r;
      assert HasEntry(f, c);
      ChainFirstsRise(cfg, t.nodes, lower, M == 0);
      KeysDiffer(cfg, t.nodes, lower, j, k);
      assert false;
    }
  }

  lemma KeysDiffer(cfg: Config, nodes: NodeMap, ids: seq<nat>, j: nat, k: nat)
    requires TotalOrder(cfg.cmp) && FirstsRise(cfg, nodes, ids) && j < |ids| && k < |ids| && j != k
    ensures First(nodes, ids[j]) != First(nodes, ids[k])
  {
    Flip(cfg.cmp, First(nodes, ids[j]), First(nodes, ids[k]));
    Flip(cfg.cmp, First(nodes, ids[k]), First(nodes, ids[j]));
  }

  /** Recording the dangling node of level `M` one level higher repairs the tower,
  up to the nodes of `D` that may dangle on that level now. */
  lemma IndexDone(cfg: Config, t: Tree, t': Tree, L: nat, M: nat, r: nat, g: nat, D: set<nat>)
    requires ConfigOk(cfg) && Tower(cfg, t, L, {r}) && L <= M && M + 1 < |t.levels| && M + 1 < |t'.levels|
    requires r in t.lvl && t.lvl[r] == M && r in t.levels[M] && r in t.nodes && |t.nodes[r].recs| > 0
    requires Frame(t, t', M + 1) && Tower(cfg, t', M + 1, D)
    requires g < |Row(t, M + 1)| && Row(t', M + 1) == InsertAt(Row(t, M + 1), g + 1, EntryOf(t.nodes, r))
    requires forall id :: id in D ==> id in t'.lvl && t'.lvl[id] == M + 1
    ensures Tower(cfg, t', L, D)
  {
    hide FlatTo, UsedTo, ChainOk, Tower, Indexes, Frame, Base;
    TowerSplit(cfg, t, L, M + 1, {r});
    TowerKeys(cfg, t', M + 1, D);
    BaseFrame(cfg, t, t', L, M + 1, {});
    TowerSplit(cfg, t, L, M, {r});
    TowerOneBase(cfg, t, M, {r});
    BaseRow(cfg, t, t', M, {});
    var lower := t.levels[M];
    TowerChain(cfg, t, M, {r});
    IndexesInsert(t.nodes, lower, Row(t, M + 1), r, g, Row(t', M + 1), EntryOf(t.nodes, r));
    KeptSame(cfg, t, t', M, {r});
    IndexesFrame(t.nodes, t'.nodes, lower, Row(t', M + 1), {});
    TowerPlaced(cfg, t, M, {r});
    FrameLvl(t, t', M);
    IndexesOther(t'.nodes, lower, Row(t', M + 1), D);
    Rejoin(cfg, t', L, M + 1, D);
  }

  lemma TowerKeys(cfg: Config, t: Tree, M: nat, D: set<nat>)
    requires Tower(cfg, t, M, D)
    ensures t.lvl.Keys == t.nodes.Keys && NO_NODE !in t.nodes && M < |t.levels|
  {
  }

  lemma KeptSame(cfg: Config, t: Tree, t': Tree, M: nat, D: set<nat>)
    requires Tower(cfg, t, M, D) && M < |t.levels|
    requires forall k :: 0 <= k < |t.levels[M]| ==>
      t.levels[M][k] in t.nodes && t.levels[M][k] in t'.nodes && t'.nodes[t.levels[M][k]] == t.nodes[t.levels[M][k]]
    ensures FirstsKept(t.nodes, t'.nodes, t.levels[M])
  {
    hide FlatTo, UsedTo, ChainOk, Indexes;
    LevelNodes(cfg, t.nodes, t.levels[M], M == 0);
  }

  lemma FrameLvl(t: Tree, t': Tree, M: nat)
    requires Frame(t, t', M + 1)
    ensures forall id :: id in t.nodes && id in t.lvl && t.lvl[id] == M ==> id in t'.lvl && t'.lvl[id] == M
  {
  }

  lemma KeptThrough(t0: Tree, t1: Tree, t2: Tree, ids: seq<nat>)
    requires FirstsKept(t0.nodes, t1.nodes, ids)
    requires forall k :: 0 <= k < |ids| ==> ids[k] in t1.nodes && ids[k] in t2.nodes && t2.nodes[ids[k]] == t1.nodes[ids[k]]
    ensures FirstsKept(t0.nodes, t2.nodes, ids)
  {
  }

  lemma UpperOf(cfg: Config, t: Tree, L: nat)
    requires Tower(cfg, t, L, {})
    ensures L < |t.levels| && Upper(cfg, t, L, Row(t, L))
  {
  }

  /** What the link assignments of __btree_remove to the neighbours of an emptied node amount to. */
  lemma LinkedOut(cfg: Config, t: Tree, M: nat, i: nat, id: nat, nodes': NodeMap)
    requires Tower(cfg, t, M, {}) && IsNode(t, M, i, id) && M < |t.levels|
    requires nodes'.Keys == t.nodes.Keys - {id}
    requires var nd := t.nodes[id];
             var linked := WithPrev(WithNext(t.nodes, nd.prev, nd.next), nd.next, nd.prev);
             forall x :: x in nodes' ==> nodes'[x] == linked[x]
    ensures SpliceOut(t.nodes, nodes', t.levels[M], i)
    ensures forall x :: x in nodes' && x !in t.levels[M] ==> nodes'[x] == t.nodes[x]
  {
    hide FlatTo, UsedTo, Tower, ChainOk, Indexes, NodeOk;
    TowerChain(cfg, t, M, {});
    Neighbours(cfg, t, M, {}, i);
    ChainDistinct(cfg, t.nodes, t.levels[M], M == 0);
    LevelNodes(cfg, t.nodes, t.levels[M], M == 0);
    SpliceOutBuilt(t.nodes, t.levels[M], i, id, nodes');
  }

  lemma SpliceOutBuilt(nodes: NodeMap, ids: seq<nat>, i: nat, id: nat, nodes': NodeMap)
    requires Distinct(ids) && i < |ids| && ids[i] == id && id in nodes && NO_NODE !in nodes
    requires forall k :: 0 <= k < |ids| ==> ids[k] in nodes
    requires nodes[id].next == NextOf(ids, i) && nodes[id].prev == PrevOf(ids, i)
    requires nodes'.Keys == nodes.Keys - {id}
    requires forall x :: x in nodes' ==> nodes'[x] == WithPrev(WithNext(nodes, nodes[id].prev, nodes[id].next), nodes[id].next, nodes[id].prev)[x]
    ensures SpliceOut(nodes, nodes', ids, i)
    ensures forall x :: x in nodes' && x !in ids ==> nodes'[x] == nodes[x]
  {
    forall k | 0 <= k < |ids| && k != i
      ensures ids[k] in nodes'
      ensures nodes'[ids[k]] == nodes[ids[k]].(next := if k + 1 == i then NextOf(ids, i) else nodes[ids[k]].next,
                                               prev := if k == i + 1 then PrevOf(ids, i) else nodes[ids[k]].prev)
    {
      assert ids[k] != ids[i];
      if i + 1 < |ids| && k != i + 1 { assert ids[k] != ids[i + 1]; }
      if i > 0 && k != i - 1 { assert ids[k] != ids[i - 1]; }
      if k == i + 1 && i > 0 { assert ids[k] != ids[i - 1]; }
    }
  }

  /** What the link assignments of btree_merge amount to. */
  lemma LinkedMerge(cfg: Config, t: Tree, M: nat, i: nat, left: nat, right: nat, merged: Node, nodes': NodeMap)
    requires Tower(cfg, t, M, {}) && IsNode(t, M, i, left) && IsNode(t, M, i + 1, right) && M < |t.levels|
    requires merged.next == t.nodes[left].next && merged.prev == t.nodes[left].prev
    requires nodes' == WithPrev(t.nodes[left := merged.(next := t.nodes[right].next)], t.nodes[right].next, left)
    ensures SpliceOut(t.nodes[left := merged], nodes', t.levels[M], i + 1) && nodes'.Keys == t.nodes.Keys
    ensures forall x :: x in nodes' && x !in t.levels[M] ==> nodes'[x] == t.nodes[x]
  {
    hide FlatTo, UsedTo, Tower, ChainOk, Indexes, NodeOk;
    TowerChain(cfg, t, M, {});
    Neighbours(cfg, t, M, {}, i);
    Neighbours(cfg, t, M, {}, i + 1);
    ChainDistinct(cfg, t.nodes, t.levels[M], M == 0);
    var ids := t.levels[M];
    var mid := t.nodes[left := merged];
    forall k | 0 <= k < |ids| && k != i + 1
      ensures ids[k] in mid && ids[k] in nodes'
      ensures nodes'[ids[k]] == mid[ids[k]].(next := if k + 1 == i + 1 then NextOf(ids, i + 1) else mid[ids[k]].next,
                                             prev := if k == i + 2 then PrevOf(ids, i + 1) else mid[ids[k]].prev)
    {
      assert IsNode(t, M, k, ids[k]);
      if k != i { assert ids[k] != ids[i]; }
      if i + 2 < |ids| && k != i + 2 { assert ids[k] != ids[i + 2]; }
      if i + 2 < |ids| { assert ids[i + 2] != ids[i]; }
    }
  }

  /** A root that holds one record only points to the only node below. */
  lemma KeyStaysInRange(cfg: Config, t: Tree, t': Tree, L: nat, i: nat, id: nat, pos: nat)
    requires ConfigOk(cfg) && Tower(cfg, t, L, {}) && IsNode(t, L, i, id) && 0 < pos < |t.nodes[id].recs|
    requires t' == t.(nodes := t.nodes[id := WithoutRecord(t.nodes[id], pos)])
    ensures L < |t.levels| && i < |t.levels[L]| && |t'.nodes[id].recs| > 0
    ensures cfg.cmp(First(t'.nodes, id), t.nodes[id].recs[pos].key) <= 0
    ensures i + 1 < |t.levels[L]| ==>
      && t.levels[L][i + 1] in t'.nodes && |t'.nodes[t.levels[L][i + 1]].recs| > 0
      && cfg.cmp(First(t'.nodes, t.levels[L][i + 1]), t.nodes[id].recs[pos].key) > 0
  {
    hide FlatTo, UsedTo, Tower, ChainOk, Indexes;
    NodeRange(cfg, t, L, i, pos);
    if i + 1 < |t.levels[L]| {
      Neighbours(cfg, t, L, {}, i);
    }
  }
}
