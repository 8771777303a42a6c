/** One level of a tree: the nodes of a level in sibling order, the record sequence
they hold together, and what a change of one or two nodes does to it. */
module Levels {
  import opened Keys
  import opened Seqs
  import opened Order
  import opened Nodes

  /** The comparison function and the node size of a tree. */
  datatype Config = Config(cmp: CmpFn, size: nat)

  ghost predicate ConfigOk(cfg: Config) {
    TotalOrder(cfg.cmp) && cfg.size >= 1024
  }

  type NodeMap = map<nat, Node>

  ghost function RecsOf(nodes: NodeMap, id: nat): seq<Rec> {
    if id in nodes then nodes[id].recs else []
  }

  /** The records of the first `n` nodes of a level, in order. */
  ghost function FlatTo(nodes: NodeMap, ids: seq<nat>, n: nat): seq<Rec>
    requires n <= |ids|
  {
    if n == 0 then [] else FlatTo(nodes, ids, n - 1) + RecsOf(nodes, ids[n - 1])
  }

  /** The record sequence of a level. */
  ghost function Flat(nodes: NodeMap, ids: seq<nat>): seq<Rec> {
    FlatTo(nodes, ids, |ids|)
  }

  ghost predicate Live(cfg: Config, nodes: NodeMap, ids: seq<nat>, leaf: bool) {
    forall i :: 0 <= i < |ids| ==> ids[i] != NO_NODE && ids[i] in nodes && NodeOk(nodes[ids[i]], cfg.size, leaf)
  }

  ghost predicate Distinct(ids: seq<nat>) {
    forall i, j :: 0 <= i < j < |ids| ==> ids[i] != ids[j]
  }

  ghost function NextOf(ids: seq<nat>, i: int): nat
    requires 0 <= i < |ids|
  {
    if i + 1 < |ids| then ids[i + 1] else NO_NODE
  }

  ghost function PrevOf(ids: seq<nat>, i: int): nat
    requires 0 <= i < |ids|
  {
    if i > 0 then ids[i - 1] else NO_NODE
  }

  ghost predicate LinkedUp(nodes: NodeMap, ids: seq<nat>) {
    forall i {:trigger NextOf(ids, i)} {:trigger PrevOf(ids, i)} :: 0 <= i < |ids| ==>
      ids[i] in nodes && nodes[ids[i]].next == NextOf(ids, i) && nodes[ids[i]].prev == PrevOf(ids, i)
  }

  /** A level: live, distinct nodes with consistent sibling links and strictly sorted records. */
  ghost predicate ChainOk(cfg: Config, nodes: NodeMap, ids: seq<nat>, leaf: bool) {
    && |ids| > 0
    && Live(cfg, nodes, ids, leaf)
    && Distinct(ids)
    && LinkedUp(nodes, ids)
    && Sorted(cfg.cmp, Flat(nodes, ids))
  }

  ghost function First(nodes: NodeMap, id: nat): Key
    requires id in nodes && |nodes[id].recs| > 0
  {
    nodes[id].recs[0].key
  }

  /** The nodes `ids` exist before and after and keep their first keys. */
  ghost predicate FirstsKept(nodes: NodeMap, nodes': NodeMap, ids: seq<nat>) {
    forall k :: 0 <= k < |ids| ==>
      && ids[k] in nodes && |nodes[ids[k]].recs| > 0
      && ids[k] in nodes' && |nodes'[ids[k]].recs| > 0
      && First(nodes', ids[k]) == First(nodes, ids[k])
  }

  /* ---- record sequences ---- */

  lemma FlatStep(nodes: NodeMap, ids: seq<nat>, n: nat)
    requires n < |ids|
    ensures FlatTo(nodes, ids, n + 1) == FlatTo(nodes, ids, n) + RecsOf(nodes, ids[n])
  {
  }

  /** The number of records in the first `n` nodes does not shrink with `n`. */
  lemma {:induction false} FlatGrows(nodes: NodeMap, ids: seq<nat>, m: nat, n: nat)
    requires m <= n <= |ids|
    ensures |FlatTo(nodes, ids, m)| <= |FlatTo(nodes, ids, n)|
    ensures m < n ==> |FlatTo(nodes, ids, m)| + |RecsOf(nodes, ids[m])| <= |FlatTo(nodes, ids, n)|
  {
    if m < n {
      FlatGrows(nodes, ids, m, n - 1);
    }
  }

  lemma {:induction false} FlatPrefix(nodes: NodeMap, ids: seq<nat>, m: nat, n: nat)
    requires m <= n <= |ids|
    ensures |FlatTo(nodes, ids, m)| <= |FlatTo(nodes, ids, n)|
    ensures FlatTo(nodes, ids, n)[..|FlatTo(nodes, ids, m)|] == FlatTo(nodes, ids, m)
  {
    if m < n {
      FlatPrefix(nodes, ids, m, n - 1);
    }
  }

  /** Record `p` of node `i` stands behind all records of the nodes before it. */
  lemma FlatAt(nodes: NodeMap, ids: seq<nat>, i: nat, p: nat)
    requires i < |ids| && p < |RecsOf(nodes, ids[i])|
    ensures |FlatTo(nodes, ids, i)| + p < |FlatTo(nodes, ids, i + 1)| <= |Flat(nodes, ids)|
    ensures |FlatTo(nodes, ids, i + 1)| == |FlatTo(nodes, ids, i)| + |RecsOf(nodes, ids[i])|
    ensures Flat(nodes, ids)[|FlatTo(nodes, ids, i)| + p] == RecsOf(nodes, ids[i])[p]
  {
    FlatPrefix(nodes, ids, i + 1, |ids|);
    var a := FlatTo(nodes, ids, i + 1);
    assert a[|FlatTo(nodes, ids, i)| + p] == RecsOf(nodes, ids[i])[p];
    assert Flat(nodes, ids)[..|a|][|FlatTo(nodes, ids, i)| + p] == a[|FlatTo(nodes, ids, i)| + p];
  }

  /** A place in the record sequence belongs to one place in one node. */
  lemma PlaceUnique(nodes: NodeMap, ids: seq<nat>, i: nat, p: nat, j: nat, q: nat)
    requires i < |ids| && p < |RecsOf(nodes, ids[i])|
    requires j < |ids| && q < |RecsOf(nodes, ids[j])|
    requires |FlatTo(nodes, ids, i)| + p == |FlatTo(nodes, ids, j)| + q
    ensures i == j && p == q
  {
    if i < j {
      FlatGrows(nodes, ids, i, j);
    } else if j < i {
      FlatGrows(nodes, ids, j, i);
    }
  }

  lemma {:induction false} FlatAgree(nodes: NodeMap, nodes': NodeMap, ids: seq<nat>, ids': seq<nat>, n: nat)
    requires n <= |ids| && n <= |ids'|
    requires forall k :: 0 <= k < n ==> ids[k] == ids'[k] && RecsOf(nodes, ids[k]) == RecsOf(nodes', ids[k])
    ensures FlatTo(nodes, ids, n) == FlatTo(nodes', ids', n)
  {
    if n > 0 {
      FlatAgree(nodes, nodes', ids, ids', n - 1);
    }
  }

  /** The record sequence of a level falls into the part of its first `j` nodes and the rest. */
  lemma {:induction false} FlatCut(nodes: NodeMap, ids: seq<nat>, j: nat, n: nat)
    requires j <= n <= |ids|
    ensures FlatTo(nodes, ids, n) == FlatTo(nodes, ids, j) + FlatTo(nodes, ids[j..], n - j)
  {
    if j < n {
      FlatCut(nodes, ids, j, n - 1);
      assert ids[j..][n - j - 1] == ids[n - 1];
      Assoc(FlatTo(nodes, ids, j), FlatTo(nodes, ids[j..], n - 1 - j), RecsOf(nodes, ids[n - 1]));
    } else {
      PlusNil(FlatTo(nodes, ids, j));
    }
  }

  /** Replacing nodes `i..j` of a level by nodes `i..j'` replaces their records. */
  lemma FlatSplice(nodes: NodeMap, nodes': NodeMap, ids: seq<nat>, ids': seq<nat>, i: nat, j: nat, j': nat)
    requires i <= j <= |ids| && i <= j' <= |ids'| && |ids| - j == |ids'| - j'
    requires ids'[..i] == ids[..i] && ids'[j'..] == ids[j..]
    requires forall k :: (0 <= k < i || j <= k < |ids|) ==> RecsOf(nodes, ids[k]) == RecsOf(nodes', ids[k])
    ensures FlatTo(nodes, ids, i) == FlatTo(nodes', ids', i)
    ensures Flat(nodes, ids) == FlatTo(nodes, ids, j) + Flat(nodes, ids[j..])
    ensures Flat(nodes', ids') == FlatTo(nodes', ids', j') + Flat(nodes, ids[j..])
  {
    forall k | 0 <= k < i ensures ids[k] == ids'[k] {
      assert ids[..i][k] == ids'[..i][k];
    }
    FlatAgree(nodes, nodes', ids, ids', i);
    FlatAgree(nodes, nodes', ids[j..], ids'[j'..], |ids| - j);
    FlatCut(nodes, ids, j, |ids|);
    FlatCut(nodes', ids', j', |ids'|);
  }

  /* ---- order ---- */

  lemma SortedInsert(cmp: CmpFn, f: seq<Rec>, rec: Rec, g: int, f': seq<Rec>)
    requires TotalOrder(cmp) && Sorted(cmp, f) && IsFloor(cmp, f, rec.key, g) && f[g].key != rec.key
    requires f' == InsertAt(f, g + 1, rec)
    ensures Sorted(cmp, f')
  {
    forall a | 0 <= a < |f|
      ensures (a <= g ==> cmp(f[a].key, rec.key) < 0) && (a > g ==> cmp(rec.key, f[a].key) < 0)
    {
      Flip(cmp, f[a].key, rec.key);
      if a <= g {
        Flip(cmp, f[g].key, rec.key);
        if a < g {
          Trans(cmp, f[a].key, f[g].key, rec.key);
        }
      }
    }
    hide IsFloor, TotalOrder;
    forall a, b | 0 <= a < b < |f'| ensures cmp(f'[a].key, f'[b].key) < 0 {
      assert f'[a] == if a <= g then f[a] else if a == g + 1 then rec else f[a - 1];
      assert f'[b] == if b <= g then f[b] else if b == g + 1 then rec else f[b - 1];
    }
  }

  lemma SortedRemove(cmp: CmpFn, f: seq<Rec>, g: nat, f': seq<Rec>)
    requires Sorted(cmp, f) && g < |f| && f' == RemoveAt(f, g)
    ensures Sorted(cmp, f')
  {
  }

  /** Each node of a level is sorted, and all its records come before every later node's. */
  lemma ChainOrder(cfg: Config, nodes: NodeMap, ids: seq<nat>, i: nat, p: nat, j: nat, q: nat)
    requires Sorted(cfg.cmp, Flat(nodes, ids))
    requires i < |ids| && p < |RecsOf(nodes, ids[i])|
    requires j < |ids| && q < |RecsOf(nodes, ids[j])|
    requires i < j || (i == j && p < q)
    ensures cfg.cmp(RecsOf(nodes, ids[i])[p].key, RecsOf(nodes, ids[j])[q].key) < 0
  {
    FlatAt(nodes, ids, i, p);
    FlatAt(nodes, ids, j, q);
    if i < j {
      FlatGrows(nodes, ids, i, j);
    }
  }

  lemma NodeSorted(cfg: Config, nodes: NodeMap, ids: seq<nat>, i: nat)
    requires Sorted(cfg.cmp, Flat(nodes, ids)) && i < |ids|
    ensures Sorted(cfg.cmp, RecsOf(nodes, ids[i]))
  {
    forall p, q | 0 <= p < q < |RecsOf(nodes, ids[i])|
      ensures cfg.cmp(RecsOf(nodes, ids[i])[p].key, RecsOf(nodes, ids[i])[q].key) < 0
    {
      ChainOrder(cfg, nodes, ids, i, p, i, q);
    }
  }

  /** A floor in a node is the floor of the level once the next node starts above the key. */
  lemma FloorInChain(cfg: Config, nodes: NodeMap, ids: seq<nat>, key: Key, i: nat, p: nat)
    requires ConfigOk(cfg) && Sorted(cfg.cmp, Flat(nodes, ids))
    requires i < |ids| && IsFloor(cfg.cmp, RecsOf(nodes, ids[i]), key, p)
    requires i + 1 < |ids| ==> |RecsOf(nodes, ids[i + 1])| > 0
    requires i + 1 < |ids| && p == |RecsOf(nodes, ids[i])| - 1 ==> cfg.cmp(RecsOf(nodes, ids[i + 1])[0].key, key) > 0
    ensures IsFloor(cfg.cmp, Flat(nodes, ids), key, |FlatTo(nodes, ids, i)| + p)
  {
    hide FlatTo;
    var f, g := Flat(nodes, ids), |FlatTo(nodes, ids, i)| + p;
    assert RecsOf(nodes, ids[i])[p] == f[g] by { FlatAt(nodes, ids, i, p); }
    if g + 1 < |f| {
      assert cfg.cmp(f[g + 1].key, key) > 0 by {
        FlatAt(nodes, ids, i, p);
        if p + 1 < |RecsOf(nodes, ids[i])| {
          FlatAt(nodes, ids, i, p + 1);
        } else {
          FlatAt(nodes, ids, i + 1, 0);
        }
      }
    }
    FloorFromNeighbours(cfg.cmp, f, key, g);
  }

  /** The first record of a level is the first record of its first node. */
  lemma FlatFirst(nodes: NodeMap, ids: seq<nat>)
    requires |ids| > 0 && ids[0] in nodes && |nodes[ids[0]].recs| > 0
    ensures |Flat(nodes, ids)| > 0 && Flat(nodes, ids)[0] == nodes[ids[0]].recs[0]
  {
    FlatAt(nodes, ids, 0, 0);
  }

  /** A level holds at least as many records as nodes. */
  lemma {:induction false} FlatLength(cfg: Config, nodes: NodeMap, ids: seq<nat>, leaf: bool, n: nat)
    requires Live(cfg, nodes, ids, leaf) && n <= |ids|
    ensures |FlatTo(nodes, ids, n)| >= n
  {
    if n > 0 {
      FlatLength(cfg, nodes, ids, leaf, n - 1);
    }
  }

  lemma ChainFrame(cfg: Config, nodes: NodeMap, nodes': NodeMap, ids: seq<nat>, leaf: bool)
    requires ChainOk(cfg, nodes, ids, leaf)
    requires forall i :: 0 <= i < |ids| ==> ids[i] in nodes' && nodes'[ids[i]] == nodes[ids[i]]
    ensures ChainOk(cfg, nodes', ids, leaf) && Flat(nodes', ids) == Flat(nodes, ids)
  {
    FlatAgree(nodes, nodes', ids, ids, |ids|);
  }

  /* ---- changes of one level ---- */

  lemma InsertInMiddle<T>(a: seq<T>, b: seq<T>, c: seq<T>, p: nat, x: T, b': seq<T>, f: seq<T>, f': seq<T>)
    requires p < |b| && b' == InsertAt(b, p + 1, x)
    requires f == (a + b) + c && f' == (a + b') + c
    ensures f' == InsertAt(f, |a| + p + 1, x)
  {
  }

  lemma RemoveInMiddle<T>(a: seq<T>, b: seq<T>, c: seq<T>, p: nat, b': seq<T>, f: seq<T>, f': seq<T>)
    requires p < |b| && b' == RemoveAt(b, p)
    requires f == (a + b) + c && f' == (a + b') + c
    ensures f' == RemoveAt(f, |a| + p)
  {
  }

  /** Other records for node `i` alone are other records at its place in the level. */
  lemma FlatReplace(nodes: NodeMap, nodes': NodeMap, ids: seq<nat>, i: nat)
    requires i < |ids| && Distinct(ids)
    requires forall k :: 0 <= k < |ids| && k != i ==> RecsOf(nodes', ids[k]) == RecsOf(nodes, ids[k])
    ensures Flat(nodes, ids) == (FlatTo(nodes, ids, i) + RecsOf(nodes, ids[i])) + Flat(nodes, ids[i + 1..])
    ensures Flat(nodes', ids) == (FlatTo(nodes, ids, i) + RecsOf(nodes', ids[i])) + Flat(nodes, ids[i + 1..])
  {
    FlatSplice(nodes, nodes', ids, ids, i, i + 1, i + 1);
  }

  /** A node that keeps its links and stays well-formed keeps the level's links and nodes. */
  lemma UpdateLive(cfg: Config, nodes: NodeMap, nodes': NodeMap, ids: seq<nat>, leaf: bool, i: nat, nd: Node)
    requires Live(cfg, nodes, ids, leaf) && LinkedUp(nodes, ids) && i < |ids|
    requires NodeOk(nd, cfg.size, leaf) && nd.prev == nodes[ids[i]].prev && nd.next == nodes[ids[i]].next
    requires nodes' == nodes[ids[i] := nd]
    ensures Live(cfg, nodes', ids, leaf) && LinkedUp(nodes', ids)
  {
  }

  function WithRecord(nd: Node, p: nat, rec: Rec): Node
    requires p <= |nd.recs|
  {
    nd.(recs := InsertAt(nd.recs, p, rec), free := nd.free - rec.recLen - SLOT)
  }

  function WithoutRecord(nd: Node, p: nat): Node
    requires p < |nd.recs|
  {
    nd.(recs := RemoveAt(nd.recs, p), free := nd.free + nd.recs[p].recLen + SLOT)
  }

  lemma WithRecordOk(nd: Node, p: nat, rec: Rec, size: nat)
    requires NodeOk(nd, size, nd.leaf) && p <= |nd.recs|
    requires Bounded(rec, size) && nd.free >= rec.recLen + SLOT
    ensures NodeOk(WithRecord(nd, p, rec), size, nd.leaf)
  {
    UsedInsert(nd.recs, p, rec);
  }

  lemma WithoutRecordOk(nd: Node, p: nat, size: nat)
    requires NodeOk(nd, size, nd.leaf) && p < |nd.recs| && |nd.recs| > 1
    ensures NodeOk(WithoutRecord(nd, p), size, nd.leaf)
  {
    UsedRemove(nd.recs, p);
  }

  /** Putting a record behind place `p` of node `i`, where it belongs. */
  lemma InsertInChain(cfg: Config, nodes: NodeMap, nodes': NodeMap, ids: seq<nat>, leaf: bool, i: nat, p: nat, rec: Rec)
    requires ConfigOk(cfg) && ChainOk(cfg, nodes, ids, leaf)
    requires i < |ids| && p < |nodes[ids[i]].recs|
    requires Bounded(rec, cfg.size) && nodes[ids[i]].free >= rec.recLen + SLOT
    requires IsFloor(cfg.cmp, Flat(nodes, ids), rec.key, |FlatTo(nodes, ids, i)| + p)
    requires nodes[ids[i]].recs[p].key != rec.key
    requires nodes' == nodes[ids[i] := WithRecord(nodes[ids[i]], p + 1, rec)]
    ensures ChainOk(cfg, nodes', ids, leaf)
    ensures Flat(nodes', ids) == InsertAt(Flat(nodes, ids), |FlatTo(nodes, ids, i)| + p + 1, rec)
    ensures FirstsKept(nodes, nodes', ids)
  {
    hide FlatTo, UsedTo;
    var nd := nodes[ids[i]];
    WithRecordOk(nd, p + 1, rec, cfg.size);
    UpdateLive(cfg, nodes, nodes', ids, leaf, i, WithRecord(nd, p + 1, rec));
    FlatAt(nodes, ids, i, p);
    InsertFlat(nodes, nodes', ids, i, p, rec);
    SortedInsert(cfg.cmp, Flat(nodes, ids), rec, |FlatTo(nodes, ids, i)| + p, Flat(nodes', ids));
  }

  lemma InsertFlat(nodes: NodeMap, nodes': NodeMap, ids: seq<nat>, i: nat, p: nat, rec: Rec)
    requires Distinct(ids)
    requires i < |ids| && p < |RecsOf(nodes, ids[i])|
    requires RecsOf(nodes', ids[i]) == InsertAt(RecsOf(nodes, ids[i]), p + 1, rec)
    requires forall k :: 0 <= k < |ids| && k != i ==> RecsOf(nodes', ids[k]) == RecsOf(nodes, ids[k])
    ensures |FlatTo(nodes, ids, i)| + p < |Flat(nodes, ids)|
    ensures Flat(nodes', ids) == InsertAt(Flat(nodes, ids), |FlatTo(nodes, ids, i)| + p + 1, rec)
  {
    hide FlatTo, RecsOf, Distinct, InsertAt;
    FlatReplace(nodes, nodes', ids, i);
    FlatAt(nodes, ids, i, p);
    var a, b, c := FlatTo(nodes, ids, i), RecsOf(nodes, ids[i]), Flat(nodes, ids[i + 1..]);
    InsertInMiddle(a, b, c, p, rec, RecsOf(nodes', ids[i]), Flat(nodes, ids), Flat(nodes', ids));
  }

  /** Deleting record `p` of node `i`, which keeps at least one record. */
  lemma RemoveInChain(cfg: Config, nodes: NodeMap, nodes': NodeMap, ids: seq<nat>, leaf: bool, i: nat, p: nat)
    requires ConfigOk(cfg) && ChainOk(cfg, nodes, ids, leaf)
    requires i < |ids| && p < |nodes[ids[i]].recs| && |nodes[ids[i]].recs| > 1
    requires nodes' == nodes[ids[i] := WithoutRecord(nodes[ids[i]], p)]
    ensures ChainOk(cfg, nodes', ids, leaf)
    ensures |FlatTo(nodes, ids, i)| + p < |Flat(nodes, ids)|
    ensures Flat(nodes', ids) == RemoveAt(Flat(nodes, ids), |FlatTo(nodes, ids, i)| + p)
    ensures p > 0 ==> FirstsKept(nodes, nodes', ids)
    ensures p == 0 ==> FirstsKept(nodes, nodes', RemoveAt(ids, i)) && First(nodes', ids[i]) == nodes[ids[i]].recs[1].key
  {
    hide FlatTo, UsedTo, Sorted, LinkedUp, FirstsKept;
    var nd := nodes[ids[i]];
    WithoutRecordOk(nd, p, cfg.size);
    UpdateLive(cfg, nodes, nodes', ids, leaf, i, WithoutRecord(nd, p));
    RemovedFirsts(cfg, nodes, nodes', ids, leaf, i, p);
    hide RemoveAt;
    RemoveFlat(nodes, nodes', ids, i, p);
    SortedRemove(cfg.cmp, Flat(nodes, ids), |FlatTo(nodes, ids, i)| + p, Flat(nodes', ids));
  }

  lemma RemovedFirsts(cfg: Config, nodes: NodeMap, nodes': NodeMap, ids: seq<nat>, leaf: bool, i: nat, p: nat)
    requires Live(cfg, nodes, ids, leaf) && Distinct(ids)
    requires i < |ids| && p < |nodes[ids[i]].recs| && |nodes[ids[i]].recs| > 1
    requires nodes' == nodes[ids[i] := WithoutRecord(nodes[ids[i]], p)]
    ensures p > 0 ==> FirstsKept(nodes, nodes', ids)
    ensures p == 0 ==> FirstsKept(nodes, nodes', RemoveAt(ids, i)) && First(nodes', ids[i]) == nodes[ids[i]].recs[1].key
  {
    hide UsedTo;
    if p == 0 {
      forall k | 0 <= k < |ids| && k != i ensures ids[k] in nodes' && nodes'[ids[k]] == nodes[ids[k]] && |nodes[ids[k]].recs| > 0 {
      }
    }
  }

  lemma RemoveFlat(nodes: NodeMap, nodes': NodeMap, ids: seq<nat>, i: nat, p: nat)
    requires Distinct(ids)
    requires i < |ids| && p < |RecsOf(nodes, ids[i])|
    requires RecsOf(nodes', ids[i]) == RemoveAt(RecsOf(nodes, ids[i]), p)
    requires forall k :: 0 <= k < |ids| && k != i ==> RecsOf(nodes', ids[k]) == RecsOf(nodes, ids[k])
    ensures |FlatTo(nodes, ids, i)| + p < |Flat(nodes, ids)|
    ensures Flat(nodes', ids) == RemoveAt(Flat(nodes, ids), |FlatTo(nodes, ids, i)| + p)
  {
    hide FlatTo, RecsOf, Distinct, RemoveAt;
    FlatReplace(nodes, nodes', ids, i);
    var a, b, c := FlatTo(nodes, ids, i), RecsOf(nodes, ids[i]), Flat(nodes, ids[i + 1..]);
    FlatAt(nodes, ids, i, p);
    RemoveInMiddle(a, b, c, p, RecsOf(nodes', ids[i]), Flat(nodes, ids), Flat(nodes', ids));
  }

  lemma UnlinkFlat(cfg: Config, nodes: NodeMap, nodes': NodeMap, ids: seq<nat>, i: nat)
    requires Sorted(cfg.cmp, Flat(nodes, ids)) && Distinct(ids)
    requires i < |ids| && |RecsOf(nodes, ids[i])| == 1
    requires forall k :: 0 <= k < |ids| && k != i ==> RecsOf(nodes', ids[k]) == RecsOf(nodes, ids[k])
    ensures |FlatTo(nodes, ids, i)| < |Flat(nodes, ids)|
    ensures Flat(nodes', RemoveAt(ids, i)) == RemoveAt(Flat(nodes, ids), |FlatTo(nodes, ids, i)|)
    ensures Sorted(cfg.cmp, Flat(nodes', RemoveAt(ids, i)))
  {
    hide FlatTo;
    var ids' := RemoveAt(ids, i);
    assert ids'[..i] == ids[..i] && ids'[i..] == ids[i + 1..];
    FlatSplice(nodes, nodes', ids, ids', i, i + 1, i);
    FlatStep(nodes, ids, i);
    var a, b, c := FlatTo(nodes, ids, i), RecsOf(nodes, ids[i]), Flat(nodes, ids[i + 1..]);
    assert Flat(nodes, ids) == (a + b) + c;
    assert Flat(nodes', ids') == a + c;
    DropMiddle(a, b, c);
    FlatAt(nodes, ids, i, 0);
    SortedRemove(cfg.cmp, Flat(nodes, ids), |FlatTo(nodes, ids, i)|, Flat(nodes', ids'));
  }

  lemma DropMiddle<T>(a: seq<T>, b: seq<T>, c: seq<T>)
    requires |b| == 1
    ensures a + c == RemoveAt((a + b) + c, |a|)
  {
  }

  /** The nodes after node `r` has been spliced into the chain behind node `i`. */
  ghost predicate SpliceIn(nodes: NodeMap, nodes': NodeMap, ids: seq<nat>, i: nat, r: nat, left: Node, right: Node)
    requires i < |ids| && ids[i] in nodes
  {
    var next := NextOf(ids, i);
    && nodes'.Keys == nodes.Keys + {r}
    && nodes'[ids[i]] == left.(prev := nodes[ids[i]].prev, next := r)
    && nodes'[r] == right.(prev := ids[i], next := next)
    && (next != NO_NODE ==> next in nodes && nodes'[next] == nodes[next].(prev := r))
    && (forall id :: id in nodes && id != ids[i] && id != next ==> nodes'[id] == nodes[id])
  }

  ghost predicate SplitParts(cfg: Config, old_: Node, p: nat, rec: Rec, left: Node, right: Node, leaf: bool) {
    && p < |old_.recs|
    && left.recs + right.recs == InsertAt(old_.recs, p + 1, rec)
    && |left.recs| >= 1 && |right.recs| >= 1 && left.leaf == leaf && right.leaf == leaf
    && left.free == cfg.size - OVERHEAD - Used(left.recs) >= 0
    && right.free == cfg.size - OVERHEAD - Used(right.recs) >= 0
  }

  /** Splitting node `i` into itself and the fresh node `r`, with a record put in its place. */
  lemma SplitInChain(cfg: Config, nodes: NodeMap, nodes': NodeMap, ids: seq<nat>, leaf: bool, i: nat, p: nat, rec: Rec,
                     r: nat, left: Node, right: Node)
    requires ConfigOk(cfg) && ChainOk(cfg, nodes, ids, leaf)
    requires i < |ids| && Bounded(rec, cfg.size)
    requires SplitParts(cfg, nodes[ids[i]], p, rec, left, right, leaf)
    requires IsFloor(cfg.cmp, Flat(nodes, ids), rec.key, |FlatTo(nodes, ids, i)| + p)
    requires nodes[ids[i]].recs[p].key != rec.key
    requires r != NO_NODE && r !in nodes
    requires SpliceIn(nodes, nodes', ids, i, r, left, right)
    ensures ChainOk(cfg, nodes', InsertAt(ids, i + 1, r), leaf)
    ensures Flat(nodes', InsertAt(ids, i + 1, r)) == InsertAt(Flat(nodes, ids), |FlatTo(nodes, ids, i)| + p + 1, rec)
    ensures FirstsKept(nodes, nodes', ids)
  {
    hide FlatTo, UsedTo;
    var nd := nodes[ids[i]];
    assert left.recs[0] == nd.recs[0] by {
      assert (left.recs + right.recs)[0] == InsertAt(nd.recs, p + 1, rec)[0];
    }
    SplitLive(cfg, nodes, nodes', ids, leaf, i, p, rec, r, left, right);
    SplitLinks(nodes, nodes', ids, i, r, left, right);
    FlatAt(nodes, ids, i, p);
    SplitFlat(nodes, nodes', ids, i, p, rec, r, left.recs, right.recs);
    SortedInsert(cfg.cmp, Flat(nodes, ids), rec, |FlatTo(nodes, ids, i)| + p, Flat(nodes', InsertAt(ids, i + 1, r)));
  }

  lemma InsertedIds(ids: seq<nat>, i: nat, r: nat)
    requires i < |ids|
    ensures var ids' := InsertAt(ids, i + 1, r);
      |ids'| == |ids| + 1 && ids'[..i] == ids[..i] && ids'[i + 2..] == ids[i + 1..] && ids'[i] == ids[i] && ids'[i + 1] == r
  {
  }

  lemma FlatIs(nodes: NodeMap, ids: seq<nat>)
    ensures Flat(nodes, ids) == FlatTo(nodes, ids, |ids|)
  {
  }

  lemma SplitFlat(nodes: NodeMap, nodes': NodeMap, ids: seq<nat>, i: nat, p: nat, rec: Rec,
                  r: nat, left: seq<Rec>, right: seq<Rec>)
    requires i < |ids| && p < |RecsOf(nodes, ids[i])|
    requires |FlatTo(nodes, ids, i)| + p < |Flat(nodes, ids)|
    requires left + right == InsertAt(RecsOf(nodes, ids[i]), p + 1, rec)
    requires RecsOf(nodes', ids[i]) == left && RecsOf(nodes', r) == right
    requires forall k :: 0 <= k < |ids| && k != i ==> RecsOf(nodes', ids[k]) == RecsOf(nodes, ids[k])
    ensures Flat(nodes', InsertAt(ids, i + 1, r)) == InsertAt(Flat(nodes, ids), |FlatTo(nodes, ids, i)| + p + 1, rec)
  {
    hide FlatTo, InsertAt, RecsOf, Flat;
    var ids' := InsertAt(ids, i + 1, r);
    InsertedIds(ids, i, r);
    assert Flat(nodes, ids) == FlatTo(nodes, ids, |ids|) by { FlatIs(nodes, ids); }
    FlatSplice(nodes, nodes', ids, ids', i, i + 1, i + 2);
    FlatStep(nodes, ids, i);
    FlatStep(nodes', ids', i);
    FlatStep(nodes', ids', i + 1);
    Assoc(FlatTo(nodes, ids, i), left, right);
    InsertInMiddle(FlatTo(nodes, ids, i), RecsOf(nodes, ids[i]), Flat(nodes, ids[i + 1..]), p, rec, left + right, Flat(nodes, ids), Flat(nodes', ids'));
  }

  lemma SplitLive(cfg: Config, nodes: NodeMap, nodes': NodeMap, ids: seq<nat>, leaf: bool, i: nat, p: nat, rec: Rec,
                  r: nat, left: Node, right: Node)
    requires Live(cfg, nodes, ids, leaf) && Distinct(ids)
    requires i < |ids| && Bounded(rec, cfg.size)
    requires SplitParts(cfg, nodes[ids[i]], p, rec, left, right, leaf)
    requires r != NO_NODE && r !in nodes
    requires SpliceIn(nodes, nodes', ids, i, r, left, right)
    ensures Live(cfg, nodes', InsertAt(ids, i + 1, r), leaf) && Distinct(InsertAt(ids, i + 1, r))
  {
    var ids' := InsertAt(ids, i + 1, r);
    var all := InsertAt(nodes[ids[i]].recs, p + 1, rec);
    assert AllBounded(all, cfg.size);
    assert AllBounded(left.recs, cfg.size) by {
      forall k | 0 <= k < |left.recs| ensures Bounded(left.recs[k], cfg.size) { assert left.recs[k] == all[k]; }
    }
    assert AllBounded(right.recs, cfg.size) by {
      forall k | 0 <= k < |right.recs| ensures Bounded(right.recs[k], cfg.size) { assert right.recs[k] == all[|left.recs| + k]; }
    }
    forall k | 0 <= k < |ids'| ensures ids'[k] != NO_NODE && ids'[k] in nodes' && NodeOk(nodes'[ids'[k]], cfg.size, leaf) {
      if k < i {
        assert ids'[k] == ids[k];
      } else if k > i + 1 {
        assert ids'[k] == ids[k - 1];
        if k == i + 2 { assert ids'[k] == NextOf(ids, i); }
      }
    }
  }

  lemma SplitLinks(nodes: NodeMap, nodes': NodeMap, ids: seq<nat>, i: nat, r: nat, left: Node, right: Node)
    requires LinkedUp(nodes, ids) && Distinct(ids) && i < |ids|
    requires forall k :: 0 <= k < |ids| ==> ids[k] != NO_NODE && ids[k] in nodes
    requires r != NO_NODE && r !in nodes
    requires SpliceIn(nodes, nodes', ids, i, r, left, right)
    ensures LinkedUp(nodes', InsertAt(ids, i + 1, r))
  {
    var ids' := InsertAt(ids, i + 1, r);
    forall k | 0 <= k < |ids'|
      ensures ids'[k] in nodes' && nodes'[ids'[k]].next == NextOf(ids', k) && nodes'[ids'[k]].prev == PrevOf(ids', k)
    {
      if k < i {
        assert ids'[k] == ids[k] && ids[k] != ids[i];
        if i + 1 < |ids| { assert ids[k] != ids[i + 1]; }
        var next, prev := NextOf(ids, k), PrevOf(ids, k);
      } else if k == i {
        var next, prev := NextOf(ids, i), PrevOf(ids, i);
      } else if k == i + 1 {
      } else {
        assert ids'[k] == ids[k - 1] && ids[k - 1] != ids[i];
        if k > i + 2 { assert ids[k - 1] != ids[i + 1]; }
        var next, prev := NextOf(ids, k - 1), PrevOf(ids, k - 1);
      }
    }
  }

  /** The nodes after node `i` has been taken out of the chain; it may still exist. */
  ghost predicate SpliceOut(nodes: NodeMap, nodes': NodeMap, ids: seq<nat>, i: nat)
    requires i < |ids|
  {
    forall k :: 0 <= k < |ids| && k != i ==>
      && ids[k] in nodes && ids[k] in nodes'
      && nodes'[ids[k]] == nodes[ids[k]].(next := if k + 1 == i then NextOf(ids, i) else nodes[ids[k]].next,
                                           prev := if k == i + 1 then PrevOf(ids, i) else nodes[ids[k]].prev)
  }

  /** Unlinking node `i` whose last record goes with it. */
  lemma UnlinkInChain(cfg: Config, nodes: NodeMap, nodes': NodeMap, ids: seq<nat>, leaf: bool, i: nat)
    requires ConfigOk(cfg) && ChainOk(cfg, nodes, ids, leaf)
    requires i < |ids| && |ids| > 1 && |nodes[ids[i]].recs| == 1
    requires SpliceOut(nodes, nodes', ids, i)
    ensures ChainOk(cfg, nodes', RemoveAt(ids, i), leaf)
    ensures |FlatTo(nodes, ids, i)| < |Flat(nodes, ids)|
    ensures Flat(nodes', RemoveAt(ids, i)) == RemoveAt(Flat(nodes, ids), |FlatTo(nodes, ids, i)|)
    ensures FirstsKept(nodes, nodes', RemoveAt(ids, i))
  {
    hide FlatTo, UsedTo;
    SpliceOutChain(cfg, nodes, nodes', ids, leaf, i);
    UnlinkFlat(cfg, nodes, nodes', ids, i);
  }

  lemma SpliceOutChain(cfg: Config, nodes: NodeMap, nodes': NodeMap, ids: seq<nat>, leaf: bool, i: nat)
    requires Live(cfg, nodes, ids, leaf) && Distinct(ids) && LinkedUp(nodes, ids)
    requires i < |ids| && |ids| > 1 && SpliceOut(nodes, nodes', ids, i)
    ensures Live(cfg, nodes', RemoveAt(ids, i), leaf) && Distinct(RemoveAt(ids, i)) && LinkedUp(nodes', RemoveAt(ids, i))
  {
    var ids' := RemoveAt(ids, i);
    forall k | 0 <= k < |ids'|
      ensures ids'[k] != NO_NODE && ids'[k] in nodes' && NodeOk(nodes'[ids'[k]], cfg.size, leaf)
      ensures nodes'[ids'[k]].next == NextOf(ids', k) && nodes'[ids'[k]].prev == PrevOf(ids', k)
    {
      var o := if k < i then k else k + 1;
      assert ids'[k] == ids[o];
      assert nodes[ids[o]].next == NextOf(ids, o) && nodes[ids[o]].prev == PrevOf(ids, o);
    }
  }

  /** Merging node `i + 1` into node `i`. */
  lemma MergeInChain(cfg: Config, nodes: NodeMap, nodes': NodeMap, ids: seq<nat>, leaf: bool, i: nat, merged: Node)
    requires ConfigOk(cfg) && ChainOk(cfg, nodes, ids, leaf)
    requires i + 1 < |ids|
    requires merged.recs == nodes[ids[i]].recs + nodes[ids[i + 1]].recs && merged.leaf == leaf
    requires merged.free == nodes[ids[i]].free + nodes[ids[i + 1]].free + OVERHEAD - cfg.size >= 0
    requires merged.prev == nodes[ids[i]].prev && merged.next == nodes[ids[i]].next
    requires SpliceOut(nodes[ids[i] := merged], nodes', ids, i + 1)
    ensures ChainOk(cfg, nodes', RemoveAt(ids, i + 1), leaf)
    ensures Flat(nodes', RemoveAt(ids, i + 1)) == Flat(nodes, ids)
    ensures FirstsKept(nodes, nodes', RemoveAt(ids, i + 1))
  {
    hide FlatTo, UsedTo;
    var mid := nodes[ids[i] := merged];
    MergedOk(nodes[ids[i]], nodes[ids[i + 1]], merged, cfg.size, leaf);
    UpdateLive(cfg, nodes, mid, ids, leaf, i, merged);
    SpliceOutChain(cfg, mid, nodes', ids, leaf, i + 1);
    MergeFlat(nodes, nodes', ids, i);
  }

  lemma MergedOk(left: Node, right: Node, merged: Node, size: nat, leaf: bool)
    requires NodeOk(left, size, leaf) && NodeOk(right, size, leaf)
    requires merged.recs == left.recs + right.recs && merged.leaf == leaf
    requires merged.free == left.free + right.free + OVERHEAD - size >= 0
    ensures NodeOk(merged, size, leaf)
  {
    UsedAppend(left.recs, right.recs);
    forall k | 0 <= k < |merged.recs| ensures Bounded(merged.recs[k], size) {
      assert merged.recs[k] == if k < |left.recs| then left.recs[k] else right.recs[k - |left.recs|];
    }
  }

  lemma MergeFlat(nodes: NodeMap, nodes': NodeMap, ids: seq<nat>, i: nat)
    requires i + 1 < |ids|
    requires RecsOf(nodes', ids[i]) == RecsOf(nodes, ids[i]) + RecsOf(nodes, ids[i + 1])
    requires forall k :: 0 <= k < |ids| && k != i && k != i + 1 ==> RecsOf(nodes', ids[k]) == RecsOf(nodes, ids[k])
    ensures Flat(nodes', RemoveAt(ids, i + 1)) == Flat(nodes, ids)
  {
    var ids' := RemoveAt(ids, i + 1);
    assert ids'[..i] == ids[..i] && ids'[i + 1..] == ids[i + 2..] && ids'[i] == ids[i];
    FlatSplice(nodes, nodes', ids, ids', i, i + 2, i + 1);
    FlatStep(nodes, ids, i);
    FlatStep(nodes, ids, i + 1);
    FlatStep(nodes', ids', i);
    Assoc(FlatTo(nodes, ids, i), RecsOf(nodes, ids[i]), RecsOf(nodes, ids[i + 1]));
  }
}
