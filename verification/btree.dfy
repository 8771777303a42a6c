/** Search, insertion and removal in a VDFS4 B+tree (extractor/vdfs-tools/lib/btree.c).

Levels count from 0 for the leaves (the source counts from 1), so the root of a tree
stands on level height - 1. Ghost state names the level of each node and the order of
the nodes in each level; the methods read and write only what the source does. */
module BTree {
  import opened Keys
  import opened Order
  import opened Nodes
  import opened Levels
  import opened Towers
  import opened Steps
  import opened Removals
  import opened Maps

  /** The error codes of the source; Bug is a VDFS4_BUG_ON that stops the program. */
  datatype Status = Ok | ENOENT | EEXIST | Bug

  /** One visited node of a search (vdfs4_btree_traverse_stack). */
  datatype StackItem = StackItem(id: nat, pos: nat, level: nat)

  /** An index record still to be placed: for node `pointTo`, at or right of the node of
  stack item `parent`; -1 asks for a new root (vdfs4_btree_todo_list). */
  datatype Todo = Todo(parent: int, pointTo: nat, currentRoot: nat)

  /** The visited nodes of levels `till` and above stand on the level their items say, and
  the path never goes left on its way down. */
  ghost predicate StackOk(cfg: Config, t: Tree, stack: seq<StackItem>, till: nat) {
    && till < |t.levels| && |stack| >= |t.levels| - till
    && (forall k :: 0 <= k < |t.levels| - till ==>
          && stack[k].level == |t.levels| - 1 - k
          && stack[k].id in t.levels[stack[k].level]
          && stack[k].id in t.nodes && |t.nodes[stack[k].id].recs| > 0)
    && (forall k :: 0 <= k < |t.levels| - till - 1 ==>
          cfg.cmp(First(t.nodes, stack[k].id), First(t.nodes, stack[k + 1].id)) <= 0)
  }

  class Btree {
    const cfg: Config
    var bnodes: NodeMap
    /** The bits set in the bitmap of the head node. */
    var used: set<nat>
    var root: nat
    var height: nat
    ghost var lvl: map<nat, nat>
    ghost var levels: seq<seq<nat>>

    ghost function T(): Tree
      reads this
    {
      Tree(bnodes, lvl, levels, root)
    }

    ghost predicate Ready()
      reads this
    {
      && ConfigOk(cfg)
      && used == bnodes.Keys + {NO_NODE}
      && NO_NODE !in bnodes
      && lvl.Keys == bnodes.Keys
      && height == |levels|
    }

    /** The invariant of a tree between operations. */
    ghost predicate Valid()
      reads this
    {
      Ready() && Tower(cfg, T(), 0, {})
    }

    /** The records of the tree in order. */
    ghost function Records(): seq<Rec>
      reads this
      requires Valid()
    {
      Row(T(), 0)
    }

    /** The tree as a sorted map. */
    ghost function Contents(): map<Key, Rec>
      reads this
      requires Valid()
    {
      AsMap(Records())
    }

    /** btree_init with a root leaf that holds one record, the smallest of the tree. */
    constructor (cmp: CmpFn, size: nat, first: Rec)
      requires TotalOrder(cmp) && size >= 1024 && Bounded(first, size)
      ensures Valid() && cfg == Config(cmp, size)
      ensures Records() == [first] && height == 1 && root == 1
    {
      cfg := Config(cmp, size);
      root, height := 1, 1;
      used := {0, 1};
      bnodes := map[1 := WithRecord(EmptyNode(size, true), 0, first)];
      lvl := map[1 := 0];
      levels := [[1]];
      new;
      FirstTree(cfg, T(), first);
    }

    /** vdfs4_btree_find: the greatest record not above the key; ENOENT when there is none. */
    method Find(key: Key) returns (st: Status, id: nat, pos: nat, ghost i: nat)
      requires Valid()
      ensures st == Ok || st == ENOENT
      ensures st == ENOENT <==> forall r :: r in Records() ==> cfg.cmp(r.key, key) > 0
      ensures st == Ok ==> IsNode(T(), 0, i, id) && pos < |bnodes[id].recs|
      ensures st == Ok ==> IsFloor(cfg.cmp, Records(), key, PlaceOf(T(), 0, i, pos))
      ensures st == Ok ==> bnodes[id].recs[pos] == Records()[PlaceOf(T(), 0, i, pos)]
    {
      hide Noted, FlatTo, UsedTo, NodeOk, Tower, ChainOk, Indexes;
      ghost var t := T();
      TowerChain(cfg, t, 0, {});
      var stack, todo;
      st, id, pos, stack, todo, i := Traverse(key, 0, {});
      var f := Row(t, 0);
      if st == Ok {
        FlatAt(bnodes, levels[0], i, pos);
        assert f[0] in f;
      } else {
        forall r | r in f ensures cfg.cmp(r.key, key) > 0 {
          var j :| 0 <= j < |f| && f[j] == r;
          Flip(cfg.cmp, f[0].key, key);
          if j > 0 {
            Trans(cfg.cmp, key, f[0].key, f[j].key);
          }
          Flip(cfg.cmp, key, f[j].key);
        }
      }
    }

    /** __vdfs4_get_next_btree_record: from one record to the next, over the sibling link at
    the end of a node; ENOENT behind the last one. */
    method NextRecord(id0: nat, pos0: nat, ghost i0: nat) returns (st: Status, id: nat, pos: nat, ghost i: nat)
      requires Valid() && IsNode(T(), 0, i0, id0) && pos0 < |bnodes[id0].recs|
      ensures st == Ok || st == ENOENT
      ensures st == ENOENT <==> PlaceOf(T(), 0, i0, pos0) + 1 == |Records()|
      ensures st == Ok ==> IsNode(T(), 0, i, id) && pos < |bnodes[id].recs|
      ensures st == Ok ==> PlaceOf(T(), 0, i, pos) == PlaceOf(T(), 0, i0, pos0) + 1 < |Records()|
      ensures st == Ok ==> bnodes[id].recs[pos] == Records()[PlaceOf(T(), 0, i, pos)]
    {
      hide FlatTo, UsedTo, NodeOk, Tower, ChainOk, Indexes;
      ghost var t := T();
      TowerChain(cfg, t, 0, {});
      FlatStep(bnodes, levels[0], i0);
      FlatAt(bnodes, levels[0], i0, pos0);
      if pos0 + 1 < |bnodes[id0].recs| {
        st, id, pos, i := Ok, id0, pos0 + 1, i0;
        FlatAt(bnodes, levels[0], i, pos);
        return;
      }
      Neighbours(cfg, t, 0, {}, i0);
      if bnodes[id0].next == NO_NODE {
        st, id, pos, i := ENOENT, id0, pos0, i0;
        return;
      }
      st, id, pos, i := Ok, bnodes[id0].next, 0, i0 + 1;
      NodeNonempty(bnodes[id], cfg.size, true);
      FlatAt(bnodes, levels[0], i, 0);
    }

    /** vdfs4_btree_insert: adds a record at its sorted place. A present key gives EEXIST, a
    record below the first one ENOENT; both leave the tree as it is. Node ids taken for new
    nodes were free. */
    method Insert(rec: Rec) returns (st: Status, ghost g: nat)
      requires Valid() && Bounded(rec, cfg.size)
      modifies this
      ensures Valid() && (st == Ok || st == ENOENT || st == EEXIST)
      ensures st == EEXIST <==> rec.key in old(Contents())
      ensures st == ENOENT <==> rec.key !in old(Contents()) && cfg.cmp(old(Records())[0].key, rec.key) > 0
      ensures st != Ok ==> Records() == old(Records()) && bnodes == old(bnodes) && root == old(root) && height == old(height)
      ensures st == Ok ==> Contents() == old(Contents())[rec.key := rec]
      ensures st == Ok ==> IsFloor(cfg.cmp, old(Records()), rec.key, g) && Records() == InsertAt(old(Records()), g + 1, rec)
    {
      hide FlatTo, UsedTo, NodeOk, Tower, ChainOk, Indexes, HasKey, AsMap, IsFloor;
      ghost var f, t := Records(), T();
      TowerChain(cfg, t, 0, {});
      SameFirst(cfg, t, 0, 0, {});
      HasKeyAsMap(cfg.cmp, f, rec.key);
      HasKeyAt(f, 0);
      ghost var gi, gp;
      st, g, gi, gp := PlaceDataAtLevel(rec, 0);
      if st == ENOENT {
        AboveAll(cfg, t, 0, rec.key);
      } else if st == Ok {
        AsMapInsert(cfg.cmp, f, g, rec);
      }
    }

    /** vdfs4_btree_remove: removes exactly the record with the key. An absent key gives ENOENT
    and changes nothing. Bug, the stop of the source when a root becomes empty, happens
    exactly when the key's record is the only one of the tree. */
    method Remove(key: Key) returns (st: Status, ghost g: nat, ghost how: Removal)
      requires Valid()
      modifies this
      ensures st == Ok || st == ENOENT || st == Bug
      ensures st == ENOENT <==> key !in old(Contents())
      ensures st == ENOENT ==> Valid() && Records() == old(Records()) && bnodes == old(bnodes) && root == old(root) && height == old(height)
      ensures st == Bug <==> |old(Records())| == 1 && key in old(Contents())
      ensures st == Ok ==> Valid() && Contents() == old(Contents()) - {key}
      ensures st == Ok ==> g < |old(Records())| && old(Records())[g].key == key && Records() == RemoveAt(old(Records()), g)
      ensures st == Ok ==> RemovedFrom(cfg, old(T()), T(), 0, how) && old(PlaceOf(T(), 0, how.i, how.pos)) == g
    {
      hide FlatTo, UsedTo, NodeOk, Tower, ChainOk, Indexes, HasKey, AsMap;
      ghost var f := Records();
      TowerChain(cfg, T(), 0, {});
      HasKeyAsMap(cfg.cmp, f, key);
      if |f| == 1 { OneKey(f, key); }
      st, g, how := BtreeRemove(key, 0);
      if st == Ok {
        AsMapRemove(cfg.cmp, f, g);
      }
    }

    /** vdfs4_alloc_new_bnode: the least id whose bit is clear, with a cleared node. */
    method AllocBnode(leaf: bool, ghost l: nat) returns (id: nat)
      requires Ready()
      modifies this`bnodes, this`used, this`lvl
      ensures Ready()
      ensures id !in old(used) && (forall k :: 0 <= k < id ==> k in old(used))
      ensures bnodes == old(bnodes)[id := EmptyNode(cfg.size, leaf)] && lvl == old(lvl)[id := l]
      ensures used == old(used) + {id}
    {
      id := 0;
      ghost var left := used;
      while id in used
        invariant left <= used && (forall k :: k in used && k >= id ==> k in left)
        invariant forall k :: 0 <= k < id ==> k in used
        decreases left
      {
        left := left - {id};
        id := id + 1;
      }
      used := used + {id};
      bnodes := bnodes[id := EmptyNode(cfg.size, leaf)];
      lvl := lvl[id := l];
    }

    /** vdfs4_destroy_bnode: clears the bit of a node. */
    method DestroyBnode(id: nat)
      requires Ready() && id in bnodes
      modifies this`bnodes, this`used, this`lvl
      ensures Ready()
      ensures bnodes == old(bnodes) - {id} && lvl == old(lvl) - {id} && used == old(used) - {id}
    {
      used := used - {id};
      bnodes := bnodes - {id};
      lvl := lvl - {id};
    }

    /** btree_traverse_level: from node `start` on, the greatest record of the level not
    above `key`; -1 when `start` begins above the key. Walks right while the next node
    still starts at or below the key. */
    method TraverseLevel(key: Key, start: nat, ghost l: nat, ghost i0: nat)
      returns (id: nat, pos: int, walked: seq<nat>, ghost i: nat)
      requires ConfigOk(cfg) && l < |levels| && ChainOk(cfg, bnodes, levels[l], l == 0)
      requires i0 < |levels[l]| && levels[l][i0] == start
      ensures start in bnodes && |bnodes[start].recs| > 0
      ensures pos >= -1 && (pos == -1 <==> cfg.cmp(First(bnodes, start), key) > 0)
      ensures pos != -1 ==>
        && i0 <= i < |levels[l]| && levels[l][i] == id && id in bnodes && pos < |bnodes[id].recs|
        && IsFloor(cfg.cmp, Flat(bnodes, levels[l]), key, |FlatTo(bnodes, levels[l], i)| + pos)
        && walked == levels[l][i0 + 1..i + 1]
        && cfg.cmp(First(bnodes, id), key) <= 0
    {
      hide FlatTo, UsedTo, NodeOk, IsFloor, Sorted, Distinct;
      ghost var ids := levels[l];
      ChainFacts(cfg, bnodes, ids, l == 0);
      id, walked, i := start, [], i0;
      NodeSorted(cfg, bnodes, ids, i0);
      pos := BinarySearch(cfg.cmp, bnodes[id].recs, key);
      if pos == -1 {
        return;
      }
      FloorBounds(cfg.cmp, bnodes[id].recs, key, pos);
      while pos == |bnodes[id].recs| - 1 && bnodes[id].next != NO_NODE
        invariant i0 <= i < |ids| && ids[i] == id && walked == ids[i0 + 1..i + 1]
        invariant 0 <= pos < |bnodes[id].recs| && IsFloor(cfg.cmp, bnodes[id].recs, key, pos)
        invariant cfg.cmp(First(bnodes, id), key) <= 0
        decreases |ids| - i
      {
        var dangId := bnodes[id].next;
        assert bnodes[id].next == NextOf(ids, i);
        NodeSorted(cfg, bnodes, ids, i + 1);
        var dangPos := BinarySearch(cfg.cmp, bnodes[dangId].recs, key);
        if dangPos == -1 {
          break;
        }
        FloorBounds(cfg.cmp, bnodes[dangId].recs, key, dangPos);
        id, pos, i := dangId, dangPos, i + 1;
        walked := walked + [id];
      }
      assert bnodes[id].next == NextOf(ids, i);
      FloorInChain(cfg, bnodes, ids, key, i, pos);
    }

    /** vdfs4_btree_traverse: from the root down to level `till`, the greatest record not
    above `key`; ENOENT exactly when all records of that level are above it. Nodes without
    index records are found through their left neighbours, and noted for indexing. */
    method Traverse(key: Key, till: nat, ghost D: set<nat>)
      returns (st: Status, id: nat, pos: nat, stack: seq<StackItem>, todo: seq<Todo>, ghost i: nat)
      requires Ready() && Tower(cfg, T(), till, D)
      ensures st == Ok || st == ENOENT
      ensures |Row(T(), till)| > 0 && (st == ENOENT <==> cfg.cmp(Row(T(), till)[0].key, key) > 0)
      ensures st == Ok ==> IsNode(T(), till, i, id) && pos < |bnodes[id].recs|
      ensures st == Ok ==> IsFloor(cfg.cmp, Row(T(), till), key, PlaceOf(T(), till, i, pos))
      ensures st == Ok ==> StackOk(cfg, T(), stack, till) && |stack| == height - till && stack[|stack| - 1] == StackItem(id, pos, till)
      ensures forall k :: 0 <= k < |todo| ==> todo[k].pointTo in D
      ensures st == Ok ==> Noted(T(), stack, todo)
    {
      hide FlatTo, UsedTo, NodeOk, Tower, ChainOk, Indexes, IsFloor, First, NotedBy;
      ghost var t := T();
      assert till < height by { TowerChain(cfg, t, till, D); }
      SameFirst(cfg, t, till, height - 1, D);
      TopFirst(cfg, t, till, D);
      var cur, level := root, height;
      ghost var ci := 0;
      st, id, pos, stack, todo, i := Ok, root, 0, [], [], 0;
      ghost var paths := [];
      NotedNone(t);
      while level > till
        invariant till <= level <= height && st == Ok
        invariant level > till ==> IsNode(t, level - 1, ci, cur) && |bnodes[cur].recs| > 0
        invariant level == height ==> stack == [] && cur == root && ci == 0
        invariant NotedBy(t, stack, todo, paths) && |stack| == height - level && (level > till ==> cur == StartAfter(t, stack))
        invariant level < height ==> cfg.cmp(First(bnodes, root), key) <= 0
        invariant till < level < height ==> cfg.cmp(First(bnodes, cur), key) <= 0
        invariant till < level < height ==> Descent(cfg, t, level, i, pos, key, ci)
        invariant level < height ==> IsNode(t, level, i, id) && pos < |bnodes[id].recs|
        invariant till < level < height ==> cfg.cmp(First(bnodes, id), First(bnodes, cur)) <= 0
        invariant level < height ==> IsFloor(cfg.cmp, Row(t, level), key, PlaceOf(t, level, i, pos))
        invariant level < height ==> StackOk(cfg, t, stack, level) && |stack| == height - level && stack[|stack| - 1] == StackItem(id, pos, level)
        invariant forall k :: 0 <= k < |todo| ==> todo[k].pointTo in D
      {
        level := level - 1;
        ghost var i1, pos1, id1 := i, pos, id;
        TowerLevel(cfg, t, till, level, D);
        var found: int, walked: seq<nat>;
        id, found, walked, i := TraverseLevel(key, cur, level, ci);
        if found == -1 {
          st := ENOENT;
          return;
        }
        pos := found;
        ghost var todo1 := todo;
        todo := WithWalked(todo, walked, |stack| - 1, root);
        if level + 1 < height {
          WalkedDangling(cfg, t, till, level, D, key, i1, pos1, ci, i);
        } else {
          TopWalked(cfg, t, till, D, i);
        }
        PathRight(cfg, t, till, level, D, ci, i);
        if level + 1 < height {
          Trans(cfg.cmp, First(bnodes, id1), First(bnodes, cur), First(bnodes, id));
        }
        ghost var stack1 := stack;
        stack := stack + [StackItem(id, pos, level)];
        StackPush(cfg, t, stack1, stack, level);
        NotedMore(t, stack1, stack, todo1, todo, paths, walked, level, ci, i);
        paths := paths + [walked];
        if level > till {
          ci := ChildOf(cfg, t, till, level, D, key, i, pos);
          cur := bnodes[id].recs[pos].val.id;
        }
      }
    }

    /** vdfs4_alloc_new_bnode and split_bnode: splits a full node into itself and a fresh right
    neighbour while putting a record before place `insertPos`. */
    method SplitBnode(id: nat, keyRec: Rec, newLen: nat, val: Value, insertPos: nat, ghost M: nat, ghost i: nat)
      returns (rightId: nat, ghost gi: nat, ghost gp: nat)
      requires Ready() && Tower(cfg, T(), M, {}) && IsNode(T(), M, i, id) && 1 <= insertPos <= |bnodes[id].recs|
      requires bnodes[id].free < newLen + SLOT && bnodes[id].recs[insertPos - 1].key != keyRec.key
      requires IsFloor(cfg.cmp, Row(T(), M), keyRec.key, PlaceOf(T(), M, i, insertPos - 1))
      requires Bounded(keyRec, cfg.size) && Bounded(Rec(keyRec.key, keyRec.keyLen, newLen, val), cfg.size)
      modifies this`bnodes, this`used, this`lvl, this`levels
      ensures Ready() && rightId !in old(used) && rightId in levels[M]
      ensures Frame(old(T()), T(), M) && SameFirsts(old(T()), T(), M) && AboveKept(old(T()), T(), M) && Tower(cfg, T(), M, {rightId})
      ensures Row(T(), M) == InsertAt(old(Row(T(), M)), old(PlaceOf(T(), M, i, insertPos - 1)) + 1,
                                      Rec(keyRec.key, keyRec.keyLen, newLen, val))
      ensures SplitOff(cfg, old(T()), T(), M, id, rightId)
      ensures gi < |levels[M]| && levels[M][gi] in bnodes && gp < |bnodes[levels[M][gi]].recs|
      ensures |bnodes[levels[M][gi]].recs| > 1 && PlaceOf(T(), M, gi, gp) == old(PlaceOf(T(), M, i, insertPos - 1))
    {
      hide FlatTo, UsedTo, NodeOk, Tower, ChainOk, Indexes, IsFloor, First, Frame, SameFirsts, AboveKept, Bounded,
           TopOk, SplitOff, Flat, Sorted, Placed, WithPrev, InsertAt, Used, PlaceOf, SplitPoint;
      ghost var t := T();
      var nd := bnodes[id];
      NodeAt(cfg, t, M, i, id);
      ghost var rec := Rec(keyRec.key, keyRec.keyLen, newLen, val);
      rightId := AllocBnode(nd.leaf, M);
      BoundedParts(rec, cfg.size);
      var left, right, inRight, at := DealOut(cfg.size, nd, keyRec, newLen, val, insertPos);
      left := left.(prev := nd.prev, next := rightId);
      right := right.(prev := id, next := nd.next);
      bnodes := bnodes[id := left][rightId := right];
      assert bnodes == t.nodes[id := left][rightId := right];
      bnodes := WithPrev(bnodes, nd.next, rightId);
      levels := levels[M := InsertAt(levels[M], i + 1, rightId)];
      gi, gp := SplitDone(cfg, t, T(), M, i, id, insertPos - 1, rec, rightId, left, right);
    }

    /** place_key_in_bnode: puts a record with the key of `keyRec` behind place `pos` of node
    `id`. A full node is split; its new right part is left dangling and noted for indexing. */
    method PlaceKey(td: nat, stack: seq<StackItem>, id: nat, pos: nat, keyRec: Rec, newLen: nat, val: Value, todo: seq<Todo>,
                    ghost M: nat, ghost i: nat)
      returns (st: Status, todo': seq<Todo>, ghost split: bool, ghost r: nat, ghost gi: nat, ghost gp: nat)
      requires Ready() && Tower(cfg, T(), M, {}) && IsNode(T(), M, i, id) && pos < |bnodes[id].recs|
      requires IsFloor(cfg.cmp, Row(T(), M), keyRec.key, PlaceOf(T(), M, i, pos))
      requires Bounded(keyRec, cfg.size) && Bounded(Rec(keyRec.key, keyRec.keyLen, newLen, val), cfg.size)
      requires td < |stack| && stack[td].level == M
      modifies this
      ensures Ready() && root == old(root) && height == old(height)
      ensures st == Ok || st == EEXIST
      ensures st == EEXIST <==> old(bnodes[id].recs[pos].key) == keyRec.key
      ensures st == EEXIST ==> T() == old(T()) && todo' == todo
      ensures st == Ok ==> Frame(old(T()), T(), M) && SameFirsts(old(T()), T(), M) && AboveKept(old(T()), T(), M)
      ensures st == Ok ==> Row(T(), M) == InsertAt(old(Row(T(), M)), old(PlaceOf(T(), M, i, pos)) + 1,
                                                  Rec(keyRec.key, keyRec.keyLen, newLen, val))
      ensures st == Ok ==> (split <==> old(bnodes[id].free) < newLen + SLOT)
      ensures st == Ok && !split ==> Tower(cfg, T(), M, {}) && todo' == todo
      ensures st == Ok && split ==> Tower(cfg, T(), M, {r}) && r !in old(used) && r in levels[M] && SplitOff(cfg, old(T()), T(), M, id, r)
      ensures st == Ok && split ==> todo' == [Todo(if M == height - 1 then -1 else td - 1, r, root)] + todo
      ensures st == Ok ==> gi < |levels[M]| && levels[M][gi] in bnodes && gp < |bnodes[levels[M][gi]].recs|
      ensures st == Ok ==> |bnodes[levels[M][gi]].recs| > 1 && PlaceOf(T(), M, gi, gp) == old(PlaceOf(T(), M, i, pos))
    {
      hide FlatTo, UsedTo, NodeOk, Tower, ChainOk, Indexes, IsFloor, First, Frame, SameFirsts, AboveKept, Bounded,
           TopOk;
      ghost var t := T();
      TowerChain(cfg, t, M, {});
      st, todo', split, r, gi, gp := Ok, todo, false, 0, i, pos;
      var nd := bnodes[id];
      Flip(cfg.cmp, nd.recs[pos].key, keyRec.key);
      if cfg.cmp(nd.recs[pos].key, keyRec.key) == 0 {
        st := EEXIST;
        return;
      }
      var rec := Rec(keyRec.key, keyRec.keyLen, newLen, val);
      if nd.free < newLen + SLOT {
        split := true;
        var rightId;
        rightId, gi, gp := SplitBnode(id, keyRec, newLen, val, pos + 1, M, i);
        r := rightId;
        todo' := [Todo(if stack[td].level == height - 1 then -1 else td - 1, rightId, root)] + todo;
      } else {
        bnodes := bnodes[id := WithRecord(nd, pos + 1, rec)];
        InsertStep(cfg, t, T(), M, i, id, pos, rec);
        NodeNonempty(nd, cfg.size, M == 0);
      }
    }

    /** The loop of build_new_root: index records for a node and its right siblings. */
    method IndexSiblings(empty: Node, ghost top: seq<nat>, ghost leaf: bool) returns (newRoot: Node)
      requires ConfigOk(cfg) && NO_NODE !in bnodes && |top| == 2 && top[0] == root && ChainOk(cfg, bnodes, top, leaf)
      requires empty == EmptyNode(cfg.size, false)
      ensures top[0] in bnodes && |bnodes[top[0]].recs| > 0 && top[1] in bnodes && |bnodes[top[1]].recs| > 0
      ensures newRoot.recs == [EntryOf(bnodes, top[0]), EntryOf(bnodes, top[1])]
      ensures newRoot == empty.(recs := newRoot.recs, free := cfg.size - OVERHEAD - Used(newRoot.recs)) && newRoot.free >= 0
    {
      hide FlatTo, UsedTo, NodeOk, ChainOk, Bounded;
      ChainFacts(cfg, bnodes, top, leaf);
      assert top[1] in bnodes && top[1] != NO_NODE;
      UsedNil();
      newRoot := empty;
      var cur := root;
      ghost var n := 0;
      while cur != NO_NODE
        invariant 0 <= n <= 2 && cur == if n < 2 then top[n] else NO_NODE
        invariant newRoot == empty.(recs := newRoot.recs, free := cfg.size - OVERHEAD - Used(newRoot.recs)) && newRoot.free >= 0
        invariant newRoot.recs == if n == 0 then [] else if n == 1 then [EntryOf(bnodes, top[0])]
                                  else [EntryOf(bnodes, top[0]), EntryOf(bnodes, top[1])]
        invariant (n == 0 ==> Used(newRoot.recs) == 0) && (n == 1 ==> 8 * Used(newRoot.recs) <= cfg.size)
        decreases 2 - n
      {
        assert NextOf(top, n) == if n == 0 then top[1] else NO_NODE;
        var key := bnodes[cur].recs[0];
        EntryBounded(cfg, bnodes, top, leaf, n);
        BoundedParts(key, cfg.size);
        if newRoot.free < key.recLen + SLOT {
          break;
        }
        UsedInsert(newRoot.recs, |newRoot.recs|, EntryOf(bnodes, cur));
        newRoot := WithRecord(newRoot, |newRoot.recs|, EntryOf(bnodes, cur));
        cur := bnodes[cur].next;
        n := n + 1;
      }
    }

    /** build_new_root: when the root has got a right sibling, puts a root above both.
    Does nothing when the root is no longer `currentRoot`. */
    method BuildNewRoot(currentRoot: nat, ghost L: nat, ghost r: nat)
      requires Ready() && Tower(cfg, T(), L, {r}) && L < height && r in lvl && lvl[r] == height - 1
      requires levels[height - 1] == [root, r]
      modifies this
      ensures Ready()
      ensures currentRoot != old(root) ==> T() == old(T()) && height == old(height)
      ensures currentRoot == old(root) ==>
        && height == old(height) + 1 && root !in old(used)
        && levels == old(levels) + [[root]] && Tower(cfg, T(), L, {}) && Frame(old(T()), T(), old(height))
    {
      hide FlatTo, UsedTo, NodeOk, Tower, ChainOk, Indexes, Frame;
      if currentRoot != root {
        return;
      }
      ghost var t := T();
      TowerTop(cfg, t, L, {r});
      var empty := EmptyNode(cfg.size, false);
      var newRoot := IndexSiblings(empty, levels[height - 1], height - 1 == 0);
      var newRootId := AllocBnode(false, height);
      bnodes := bnodes[newRootId := newRoot];
      height := height + 1;
      root := newRootId;
      levels := levels + [[newRootId]];
      assert bnodes == t.nodes[newRootId := newRoot];
      NewRootStep(cfg, t, T(), L, r, newRootId, newRoot);
    }

    /** place_index_record: places the index record for the dangling node `w.pointTo` of level
    `M`, by a new root when it stands on the root level. The node that takes the record may
    be split in turn; its right part then is the only dangling node and the only one to do. */
    method PlaceIndexRecord(w: Todo, stack: seq<StackItem>, todo: seq<Todo>, ghost L: nat, ghost M: nat)
      returns (todo': seq<Todo>, ghost r: nat)
      requires Ready() && L <= M && Pending(cfg, T(), L, M, w, stack)
      modifies this
      ensures Ready() && Frame(old(T()), T(), M + 1) && old(height) <= height <= old(height) + 1
      ensures todo' == todo ==> Tower(cfg, T(), L, {})
      ensures todo' != todo ==> M + 1 < height == old(height) && |todo'| > 0 && todo' == [todo'[0]] + todo
                                && Pending(cfg, T(), L, M + 1, todo'[0], stack)
    {
      hide FlatTo, UsedTo, NodeOk, Tower, ChainOk, Indexes, IsFloor, Frame, SameFirsts, AboveKept, Bounded, TopOk,
           StackOk, SplitOff, Pending;
      ghost var t := T();
      var pointTo := w.pointTo;
      r, todo' := pointTo, todo;
      PendingFacts(cfg, t, L, M, w, stack);
      if w.parent == -1 {
        BuildNewRoot(w.currentRoot, L, pointTo);
        assert todo' == todo;
        return;
      }
      var genKey := bnodes[pointTo].recs[0];
      ghost var i0 := PendingParent(cfg, t, L, M, w, stack);
      var id, pos, walked;
      ghost var i;
      id, pos, walked, i := TraverseLevel(genKey.key, stack[w.parent].id, M + 1, i0);
      RoomForIndex(cfg, t, L, M, pointTo, i, id, pos);
      var st;
      ghost var split, gi, gp;
      st, todo', split, r, gi, gp :=
        PlaceKey(w.parent, stack, id, pos, genKey, genKey.keyLen + INDEX_VALUE, Child(pointTo), todo, M + 1, i);
      assert st == Ok;
      PlacedIndex(cfg, t, T(), L, M, w, stack, i0, i, id, pos, split, r, todo', todo);
    }

    /** place_data_at_level: inserts a record on a level at its sorted place, splitting nodes and
    completing the index upwards as needed. ENOENT when the record would come first on the
    level, EEXIST when its key is there already; then nothing changes. */
    method PlaceDataAtLevel(rec: Rec, L: nat) returns (st: Status, ghost g: nat, ghost gi: nat, ghost gp: nat)
      requires Ready() && Tower(cfg, T(), L, {}) && Bounded(rec, cfg.size)
      modifies this
      ensures Ready() && (st == Ok || st == ENOENT || st == EEXIST)
      ensures st == ENOENT <==> old(Row(T(), L))[0].key != rec.key && cfg.cmp(old(Row(T(), L))[0].key, rec.key) > 0
      ensures st == EEXIST <==> HasKey(old(Row(T(), L)), rec.key)
      ensures st != Ok ==> T() == old(T())
      ensures st == Ok ==> Tower(cfg, T(), L, {}) && Frame(old(T()), T(), L)
      ensures st == Ok ==> IsFloor(cfg.cmp, old(Row(T(), L)), rec.key, g) && Row(T(), L) == InsertAt(old(Row(T(), L)), g + 1, rec)
      ensures st == Ok ==> gi < |levels[L]| && levels[L][gi] in bnodes && gp < |bnodes[levels[L][gi]].recs|
      ensures st == Ok ==> |bnodes[levels[L][gi]].recs| > 1 && PlaceOf(T(), L, gi, gp) == g
      ensures st == Ok ==> height == old(height) || (height > old(height) && |levels[L]| + 2 <= |Row(T(), L)|)
    {
      hide Noted, FlatTo, UsedTo, NodeOk, Tower, ChainOk, Indexes, IsFloor, First, Frame, SameFirsts, AboveKept, TopOk,
           StackOk, SplitOff, Pending, HasKey, Bounded;
      ghost var t := T();
      TowerKeys(cfg, t, L, {});
      g, gi, gp := 0, 0, 0;
      var id, pos, stack, todo;
      ghost var i;
      st, id, pos, stack, todo, i := Traverse(rec.key, L, {});
      if st != Ok {
        AboveAll(cfg, t, L, rec.key);
        return;
      }
      g := PlaceOf(t, L, i, pos);
      NothingToDo(todo, {});
      FoundOrNot(cfg, t, L, i, id, pos, rec.key);
      ghost var split, r;
      st, todo, split, r, gi, gp := PlaceKey(|stack| - 1, stack, id, pos, rec, rec.recLen, rec.val, todo, L, i);
      if st != Ok {
        return;
      }
      ghost var t1 := T();
      assert rec == Rec(rec.key, rec.keyLen, rec.recLen, rec.val);
      if split {
        FirstPending(cfg, t, t1, L, stack, id, r, i, todo[0]);
        SplitOffSize(cfg, t, t1, L, id, r);
      }
      TowerOneBase(cfg, t1, L, if split then {r} else {});
      IndexDangling(stack, todo, L);
      BaseRow(cfg, t1, T(), L, {});
      assert PlaceOf(T(), L, gi, gp) == g by { FlatAgree(t1.nodes, bnodes, t1.levels[L], levels[L], gi); }
      FrameTransitive(t, t1, T(), L, L + 1);
    }

    /** The todo loop of place_data_at_level. */
    method IndexDangling(stack: seq<StackItem>, todo0: seq<Todo>, ghost L: nat)
      requires Ready()
      requires if todo0 == [] then Tower(cfg, T(), L, {}) else |todo0| == 1 && Pending(cfg, T(), L, L, todo0[0], stack)
      modifies this
      ensures Ready() && Tower(cfg, T(), L, {}) && Frame(old(T()), T(), L + 1)
      ensures height >= old(height) && (todo0 == [] ==> height == old(height))
    {
      hide FlatTo, UsedTo, NodeOk, Tower, ChainOk, Indexes, First, Frame, TopOk, StackOk, Pending;
      ghost var t1 := T();
      var todo := todo0;
      ghost var M, r := L, 0;
      if todo == [] {
        TowerKeys(cfg, t1, L, {});
      } else {
        PendingFacts(cfg, t1, L, L, todo[0], stack);
      }
      FrameSelf(t1, L + 1);
      while todo != []
        invariant Ready() && L <= M < height && |todo| <= 1 && |t1.levels| <= height
        invariant if todo == [] then Tower(cfg, T(), L, {}) else Pending(cfg, T(), L, M, todo[0], stack)
        invariant Frame(t1, T(), L + 1)
        invariant todo0 == [] ==> todo == [] && height == |t1.levels|
        decreases if todo == [] then 0 else height - M
      {
        var w := todo[0];
        ghost var t2 := T();
        var todo';
        todo', r := PlaceIndexRecord(w, stack, todo[1..], L, M);
        FrameTransitive(t1, t2, T(), L + 1, M + 1);
        FrameSize(t2, T(), M + 1);
        if todo' != [] {
          M := M + 1;
        }
        todo := todo';
      }
    }

    /** btree_update_key: after node `pointTo` of the level below has lost its first record,
    renames its index record from `key` to its present first key; upwards as far as index
    nodes lose their own first record that way. */
    method UpdateKey(key: Key, pointTo: nat, level: nat, ghost g: nat)
      requires Ready() && 0 < level && Tower(cfg, T(), level, {})
      requires pointTo in bnodes && lvl[pointTo] < level && |bnodes[pointTo].recs| > 0
      requires Bounded(EntryOf(bnodes, pointTo), cfg.size)
      requires g < |Row(T(), level)| && Row(T(), level)[g].key == key && Row(T(), level)[g].val == Child(pointTo)
      requires First(bnodes, pointTo) != key && IsFloor(cfg.cmp, Row(T(), level), First(bnodes, pointTo), g)
      modifies this
      ensures Ready() && Tower(cfg, T(), level, {}) && Frame(old(T()), T(), level)
      ensures pointTo in bnodes && bnodes[pointTo] == old(bnodes[pointTo])
      ensures Row(T(), level) == old(Row(T(), level))[g := EntryOf(bnodes, pointTo)]
      decreases |Row(T(), level)|, height - level
    {
      hide Noted, FlatTo, UsedTo, NodeOk, Tower, ChainOk, Indexes, IsFloor, Frame, Bounded, HasKey, Base, StackOk,
           FirstsKept;
      ghost var t0 := T();
      TowerKeys(cfg, t0, level, {});
      var newData := EntryOf(bnodes, pointTo);
      FloorNotThere(cfg, t0, level, newData.key, g);
      var st;
      ghost var g1, gi, gp;
      st, g1, gi, gp := PlaceDataAtLevel(newData, level);
      FloorUnique(cfg.cmp, Row(t0, level), newData.key, g, g1);
      ghost var t1 := T();
      TowerKeys(cfg, t1, level, {});
      var id, pos, stack, todo;
      ghost var i;
      st, id, pos, stack, todo, i := Traverse(key, level, {});
      OldEntryFound(cfg, t0, t1, level, newData, key, g, st, i, id, pos, gi, gp);
      ghost var row1 := Row(t1, level);
      bnodes := bnodes[id := WithoutRecord(bnodes[id], pos)];
      ghost var t2 := T();
      RemoveStep(cfg, t1, t2, level, i, id, pos);
      assert Row(t2, level) == Row(t0, level)[g := newData] by { Renamed(Row(t0, level), g, newData, row1, Row(t2, level)); }
      FrameTransitive(t0, t1, t2, level, level);
      FramePoint(t0, t2, level, pointTo);
      if pos == 0 && level < height - 1 {
        FirstRemoved(cfg, t1, t2, level, i, id);
        UpdateKey(key, id, level + 1, i);
        TowerKeys(cfg, T(), level + 1, {});
        RenameDone(cfg, t1, t2, T(), level, i, id);
        FrameTransitive(t0, t2, T(), level, level + 1);
        FramePoint(t0, T(), level, pointTo);
      }
    }

    /** btree_merge: moves the records of a node into its left neighbour, removes its index
    record and frees it. */
    method Merge(leftId: nat, rightId: nat, level: nat, ghost li: nat) returns (ghost up: Above)
      requires Ready() && Tower(cfg, T(), level, {}) && level + 1 < height
      requires IsNode(T(), level, li, leftId) && IsNode(T(), level, li + 1, rightId)
      requires bnodes[leftId].free + bnodes[rightId].free >= cfg.size
      modifies this
      ensures Ready() && Frame(old(T()), T(), level) && Upper(cfg, T(), level, old(Row(T(), level)))
      ensures MergedAt(old(T()), T(), level, li) && IndexRemoved(cfg, old(T()), level, li + 1, up)
      ensures T() == up.after.(nodes := up.after.nodes - {rightId}, lvl := up.after.lvl - {rightId})
      decreases |Row(T(), level)|, height - level, 0
    {
      hide FlatTo, UsedTo, NodeOk, Tower, ChainOk, Indexes, IsFloor, Frame, Bounded, HasKey, Base, StackOk,
           FirstsKept, WithPrev, SpliceOut, Upper, RemovedFrom, MergedAt, AboveKept;
      ghost var t0 := T();
      var left, right := bnodes[leftId], bnodes[rightId];
      MergeFree(cfg, t0, level, li + 1, rightId);
      var merged := left.(recs := left.recs + right.recs, free := left.free - Used(right.recs));
      bnodes := bnodes[leftId := merged.(next := right.next)];
      bnodes := WithPrev(bnodes, right.next, leftId);
      levels := levels[level := RemoveAt(levels[level], li + 1)];
      ghost var t1 := T();
      LinkedMerge(cfg, t0, level, li, leftId, rightId, merged, bnodes);
      MergeStep(cfg, t0, t1, level, li, leftId, rightId, merged);
      RightGone(cfg, t0, t1, level, li, rightId);
      var st;
      ghost var g;
      AllChildIndex(cfg, t0, level);
      ghost var how;
      st, g, how := BtreeRemove(right.recs[0].key, level + 1);
      ghost var t2 := T();
      assert st == Ok;
      RightWaiting(cfg, t1, t2, level, rightId);
      DestroyBnode(rightId);
      MergeDone(cfg, t0, t1, t2, T(), level, li, rightId, g);
      up := Above(t1, t2, how);
      MergedIs(cfg, t0, t1, t2, T(), level, li, leftId, rightId, merged);
      SplicedAbove(cfg, t0, t1, level, li + 1);
      IndexIs(cfg, t0, t1, t2, level, li + 1, rightId, g, how);
    }

    /** rebalance: merges a node that has become sparse with its left neighbour under the same
    parent, or else with its right one, when the records of both fit one node. */
    method Rebalance(key: Key, level: nat, id: nat, free: int, ghost i: nat) returns (ghost up: Above)
      requires Ready() && Tower(cfg, T(), level, {}) && level + 1 < height
      requires IsNode(T(), level, i, id) && free == bnodes[id].free && |bnodes[id].recs| > 0
      requires cfg.cmp(First(bnodes, id), key) <= 0
      requires i + 1 < |levels[level]| ==> levels[level][i + 1] in bnodes && |bnodes[levels[level][i + 1]].recs| > 0
                                           && cfg.cmp(First(bnodes, levels[level][i + 1]), key) > 0
      modifies this
      ensures Ready() && Frame(old(T()), T(), level) && Upper(cfg, T(), level, old(Row(T(), level)))
      ensures Rebalanced(cfg, old(T()), T(), level, i, up)
      ensures level < height && |levels[level]| == |old(levels[level])| - if Merges(cfg, old(T()), level, i) then 1 else 0
      decreases |Row(T(), level)|, height - level, 1
    {
      hide Noted, FlatTo, UsedTo, NodeOk, Tower, ChainOk, Indexes, IsFloor, Frame, HasKey, StackOk, Upper, First, RemovedFrom,
           MergedAt, SameParent, IndexRemoved;
      ghost var t := T();
      UpperOf(cfg, t, level);
      FrameSelf(t, level);
      ParentFloor(cfg, t, level, i, key);
      TowerSplit(cfg, t, level, level + 1, {});
      var st, parent, pos, stack, todo;
      ghost var pi;
      st, parent, pos, stack, todo, pi := Traverse(key, level + 1, {});
      ParentFound(cfg, t, level, i, id, key, st, pi, parent, pos);
      ParentSides(cfg, t, level, i, pi, parent, pos);
      up := Nothing;
      var leftId, rightId;
      ghost var li;
      if pos > 0 {
        leftId, rightId, li := bnodes[id].prev, id, i - 1;
      } else if pos < |bnodes[parent].recs| - 1 {
        assert bnodes[parent].recs[pos + 1].val == Child(bnodes[id].next);
        leftId, rightId, li := id, bnodes[id].next, i;
      } else {
        return;
      }
      if bnodes[leftId].free + bnodes[rightId].free >= cfg.size {
        up := Merge(leftId, rightId, level, li);
      }
      MergeCount(cfg, t, T(), level, i, up);
    }

    /** __btree_remove: removes the record with the key from a level; ENOENT if there is none.
    A node left empty is unlinked and freed with its index record; a node that loses its
    first record has its index record renamed; a sparse node is merged with a neighbour;
    a root with a single child gives way to it. Bug only when the key's is the only record. */
    method BtreeRemove(key: Key, level: nat) returns (st: Status, ghost g: nat, ghost how: Removal)
      requires Ready() && Tower(cfg, T(), level, {})
      requires level > 0 ==> AllChild(Row(T(), level))
      modifies this
      ensures st == Ok || st == ENOENT || st == Bug
      ensures st == ENOENT <==> !HasKey(old(Row(T(), level)), key)
      ensures st == ENOENT ==> Ready() && T() == old(T())
      ensures st == Bug <==> |old(Row(T(), level))| == 1 && old(Row(T(), level))[0].key == key
      ensures st == Ok ==> Ready() && Frame(old(T()), T(), level)
      ensures st == Ok ==> g < |old(Row(T(), level))| && old(Row(T(), level))[g].key == key
      ensures st == Ok ==> Upper(cfg, T(), level, RemoveAt(old(Row(T(), level)), g))
      ensures st == Ok ==> RemovedFrom(cfg, old(T()), T(), level, how) && old(PlaceOf(T(), level, how.i, how.pos)) == g
      ensures st == Ok && LastTwo(old(T()), old(root)) && level + 1 == old(height) ==> Lowered(old(T()), T(), old(root), how.pos)
      decreases |Row(T(), level)|, height - level, 2
    {
      hide Noted, FlatTo, UsedTo, NodeOk, Tower, ChainOk, Indexes, IsFloor, Frame, HasKey, StackOk, Upper, First, Base,
           FirstsKept, WithPrev, WithNext, TakenFrom, Settled, Unlinked, IndexRemoved;
      ghost var t0 := T();
      g, how := 0, Removal(0, 0, t0, Nothing);
      TowerKeys(cfg, t0, level, {});
      var id, pos, stack, todo;
      ghost var i;
      st, id, pos, stack, todo, i := Traverse(key, level, {});
      if st != Ok {
        AboveAll(cfg, t0, level, key);
        return;
      }
      FoundOrNot(cfg, t0, level, i, id, pos, key);
      Flip(cfg.cmp, key, bnodes[id].recs[pos].key);
      if cfg.cmp(key, bnodes[id].recs[pos].key) != 0 {
        st := ENOENT;
        OnlyOther(Row(t0, level), key);
        return;
      }
      g := PlaceOf(t0, level, i, pos);
      OnlyRecord(cfg, t0, level, i, id, pos, key);
      NotRootAbove(cfg, t0, level, i, id);
      ghost var mid, up;
      if |bnodes[id].recs| == 1 {
        st, up := RemoveEmptied(key, level, id, i);
        mid := t0;
      } else {
        mid, up := RemoveFromNode(key, level, id, pos, i);
      }
      how := Removal(i, pos, mid, up);
    }

    /** The part of __btree_remove for a node that loses its only record. */
    method RemoveEmptied(key: Key, level: nat, id: nat, ghost i: nat) returns (st: Status, ghost up: Above)
      requires Ready() && Tower(cfg, T(), level, {}) && IsNode(T(), level, i, id)
      requires |bnodes[id].recs| == 1 && bnodes[id].recs[0].key == key
      modifies this
      ensures st == Ok || st == Bug
      ensures st == Bug <==> |old(Row(T(), level))| == 1
      ensures st == Ok ==> Ready() && Frame(old(T()), T(), level)
      ensures old(PlaceOf(T(), level, i, 0)) < |old(Row(T(), level))|
      ensures st == Ok ==> Upper(cfg, T(), level, RemoveAt(old(Row(T(), level)), old(PlaceOf(T(), level, i, 0))))
      ensures st == Ok ==> Unlinked(old(T()), T(), level, i) && IndexRemoved(cfg, old(T()), level, i, up) && up.after == T()
      decreases |Row(T(), level)|, height - level, 1
    {
      hide FlatTo, UsedTo, NodeOk, Tower, ChainOk, Indexes, IsFloor, Frame, HasKey, StackOk, Upper, First, Base,
           FirstsKept, WithPrev, WithNext, SpliceOut, RemovedFrom, Unlinked, AboveKept;
      ghost var t0 := T();
      EmptiedFacts(cfg, t0, level, i, id, key);
      up := Nothing;
      var nd := bnodes[id];
      bnodes := WithNext(bnodes, nd.prev, nd.next);
      bnodes := WithPrev(bnodes, nd.next, nd.prev);
      if id == root {
        st := Bug;
        return;
      }
      DestroyBnode(id);
      levels := levels[level := RemoveAt(levels[level], i)];
      ghost var t1 := T();
      LinkedOut(cfg, t0, level, i, id, bnodes);
      UnlinkStep(cfg, t0, t1, level, i, id);
      ghost var g;
      AllChildIndex(cfg, t0, level);
      ghost var how;
      st, g, how := BtreeRemove(key, level + 1);
      assert st != ENOENT;
      if st == Ok {
        EmptiedDone(cfg, t0, t1, T(), level, i, id, g);
        up := Above(t1, T(), how);
        UnlinkedIs(cfg, t0, t1, T(), level, i, id);
        SplicedAbove(cfg, t0, t1, level, i);
        IndexIs(cfg, t0, t1, T(), level, i, id, g, how);
      }
    }

    /** The part of __btree_remove for a node that keeps other records. */
    method RemoveFromNode(key: Key, level: nat, id: nat, pos: nat, ghost i: nat) returns (ghost mid: Tree, ghost up: Above)
      requires Ready() && Tower(cfg, T(), level, {}) && IsNode(T(), level, i, id)
      requires |bnodes[id].recs| > 1 && pos < |bnodes[id].recs| && bnodes[id].recs[pos].key == key
      requires level > 0 ==> AllChild(Row(T(), level))
      modifies this
      ensures Ready() && Frame(old(T()), T(), level)
      ensures old(PlaceOf(T(), level, i, pos)) < |old(Row(T(), level))|
      ensures Upper(cfg, T(), level, RemoveAt(old(Row(T(), level)), old(PlaceOf(T(), level, i, pos))))
      ensures TakenFrom(cfg, old(T()), mid, level, i, pos) && Settled(cfg, mid, T(), level, i, up)
      ensures LastTwo(old(T()), id) ==> Lowered(old(T()), T(), id, pos)
      decreases |Row(T(), level)|, height - level, 1
    {
      hide FlatTo, UsedTo, NodeOk, Tower, ChainOk, Indexes, IsFloor, Frame, HasKey, StackOk, Upper, First, Base,
           FirstsKept, Bounded, TakenFrom, Rebalanced, Lowered;
      ghost var t0 := T();
      TowerKeys(cfg, t0, level, {});
      bnodes := bnodes[id := WithoutRecord(bnodes[id], pos)];
      ghost var t1 := T();
      RemoveStep(cfg, t0, t1, level, i, id, pos);
      FrameSelf(t1, level + 1);
      var searchKey := key;
      if pos == 0 && level < height - 1 {
        FirstRemoved(cfg, t0, t1, level, i, id);
        FirstIs(t1.nodes, id);
        UpdateKey(key, id, level + 1, i);
        TowerKeys(cfg, T(), level + 1, {});
        RenameDone(cfg, t0, t1, T(), level, i, id);
        FrameTransitive(t0, t1, T(), level, level + 1);
        FrameLevel(t1, T(), level);
        searchKey := bnodes[id].recs[0].key;
        NodeRange(cfg, T(), level, i, 0);
      } else if pos > 0 {
        KeyStaysInRange(cfg, t0, t1, level, i, id, pos);
      }
      ghost var t2 := T();
      TowerKeys(cfg, t2, level, {});
      UpperOf(cfg, t2, level);
      NotRootAbove(cfg, t2, level, i, id);
      TakenIs(cfg, t0, t1, t2, level, i, id, pos);
      mid, up := t2, Nothing;
      if bnodes[id].free > cfg.size / 3 {
        if id != root {
          up := Rebalance(searchKey, level, id, bnodes[id].free, i);
          FrameTransitive(t0, t2, T(), level, level);
        } else if |bnodes[id].recs| == 1 && height > 1 {
          OnlyChild(cfg, t2, level, id, Row(t0, level), PlaceOf(t0, level, i, pos));
          Collapse(level, id);
          FrameTransitive(t0, t2, T(), level, level);
        }
      }
      if LastTwo(t0, id) {
        NotRootAbove(cfg, t0, level, i, id);
        GivesWay(cfg, t0, t2, T(), level, i, pos, up);
      }
    }

    /** The height decrease of __btree_remove: the only child of the root becomes the root. */
    method Collapse(ghost level: nat, oldRoot: nat)
      requires Ready() && Tower(cfg, T(), level, {}) && level == height - 1 > 0
      requires oldRoot == root && root in bnodes && |bnodes[root].recs| == 1 && bnodes[root].recs[0].val.Child?
      modifies this
      ensures Ready() && height == old(height) - 1
      ensures Upper(cfg, T(), level, old(Row(T(), level))) && Frame(old(T()), T(), level)
      ensures Collapsed(old(T()), T())
    {
      hide FlatTo, UsedTo, NodeOk, Tower, ChainOk, Indexes, Frame, Upper;
      ghost var t := T();
      root := bnodes[oldRoot].recs[0].val.id;
      height := height - 1;
      levels := levels[..height];
      DestroyBnode(oldRoot);
      CollapseStep(cfg, t, T(), level, root);
    }
  }

  /** Node `w.pointTo` of level `M` is the only dangling node of the tower from `L` up, and `w`
  tells where its index record belongs. */
  ghost predicate Pending(cfg: Config, t: Tree, L: nat, M: nat, w: Todo, stack: seq<StackItem>) {
    && Tower(cfg, t, L, {w.pointTo}) && M < |t.levels|
    && w.pointTo in t.levels[M] && w.pointTo in t.lvl && t.lvl[w.pointTo] == M
    && w.pointTo in t.nodes && |t.nodes[w.pointTo].recs| > 0 && w.currentRoot == t.root
    && (if M + 1 == |t.levels| then w.parent == -1 && t.levels[M] == [t.root, w.pointTo]
        else w.parent == |t.levels| - 2 - M && StackOk(cfg, t, stack, M + 1)
             && cfg.cmp(First(t.nodes, stack[w.parent].id), First(t.nodes, w.pointTo)) <= 0)
  }

  lemma PendingFacts(cfg: Config, t: Tree, L: nat, M: nat, w: Todo, stack: seq<StackItem>)
    requires Pending(cfg, t, L, M, w, stack)
    ensures Tower(cfg, t, L, {w.pointTo}) && M < |t.levels| && w.pointTo in t.nodes && |t.nodes[w.pointTo].recs| > 0
    ensures w.pointTo in t.levels[M] && w.pointTo in t.lvl && t.lvl[w.pointTo] == M && w.currentRoot == t.root
    ensures w.parent == -1 <==> M + 1 == |t.levels|
    ensures w.parent == -1 ==> t.levels[M] == [t.root, w.pointTo]
    ensures w.parent != -1 ==> 0 <= w.parent < |stack| && stack[w.parent].level == M + 1 && StackOk(cfg, t, stack, M + 1)
  {
  }

  /** The stacked node on the level above starts the search for the place of the index record. */
  lemma PendingParent(cfg: Config, t: Tree, L: nat, M: nat, w: Todo, stack: seq<StackItem>) returns (i0: nat)
    requires ConfigOk(cfg) && L <= M && Pending(cfg, t, L, M, w, stack) && M + 1 < |t.levels|
    ensures 0 <= w.parent < |stack| && i0 < |t.levels[M + 1]| && t.levels[M + 1][i0] == stack[w.parent].id
    ensures ChainOk(cfg, t.nodes, t.levels[M + 1], M + 1 == 0)
    ensures stack[w.parent].id in t.nodes && |t.nodes[stack[w.parent].id].recs| > 0
    ensures cfg.cmp(First(t.nodes, stack[w.parent].id), First(t.nodes, w.pointTo)) <= 0
  {
    hide FlatTo, UsedTo, ChainOk, Indexes, First, TopOk, Placed, NoStray;
    i0 :| 0 <= i0 < |t.levels[M + 1]| && t.levels[M + 1][i0] == stack[w.parent].id;
  }

  /** What PlaceKey asks of the index level. */
  lemma RoomForIndex(cfg: Config, t: Tree, L: nat, M: nat, r: nat, i: nat, id: nat, pos: nat)
    requires ConfigOk(cfg) && L <= M && Tower(cfg, t, L, {r}) && M + 1 < |t.levels| && r in t.levels[M]
    requires r in t.nodes && |t.nodes[r].recs| > 0 && r in t.lvl && t.lvl[r] == M
    requires IsNode(t, M + 1, i, id) && pos < |t.nodes[id].recs|
    ensures Tower(cfg, t, M + 1, {})
    ensures Bounded(t.nodes[r].recs[0], cfg.size) && Bounded(EntryOf(t.nodes, r), cfg.size)
    ensures t.nodes[id].recs[pos].key != First(t.nodes, r)
    ensures PlaceOf(t, M + 1, i, pos) < |Row(t, M + 1)|
  {
    hide FlatTo, UsedTo, Tower, ChainOk, Indexes;
    TowerSplit(cfg, t, L, M + 1, {r});
    TowerDrop(cfg, t, M + 1, {r});
    TowerLevel(cfg, t, L, M, {r});
    var k :| 0 <= k < |t.levels[M]| && t.levels[M][k] == r;
    EntryBounded(cfg, t.nodes, t.levels[M], M == 0, k);
    FlatAt(t.nodes, t.levels[M + 1], i, pos);
    NotIndexed(cfg, t, L, M, r, PlaceOf(t, M + 1, i, pos));
  }

  /** The stack stays usable above a changed level whose nodes keep their first keys. */
  lemma StackKept(cfg: Config, t: Tree, t': Tree, M: nat, stack: seq<StackItem>, l: nat)
    requires ConfigOk(cfg) && Tower(cfg, t, M, {}) && StackOk(cfg, t, stack, l) && M <= l < |t.levels| == |t'.levels|
    requires SameFirsts(t, t', M) && AboveKept(t, t', M)
    ensures StackOk(cfg, t', stack, l)
    ensures stack[|t.levels| - 1 - l].id in t'.nodes && First(t'.nodes, stack[|t.levels| - 1 - l].id) == First(t.nodes, stack[|t.levels| - 1 - l].id)
  {
    hide FlatTo, UsedTo, ChainOk, Indexes, TopOk, NoStray;
    forall k | 0 <= k < |t.levels| - l
      ensures stack[k].id in t'.levels[stack[k].level] && stack[k].id in t'.nodes && |t'.nodes[stack[k].id].recs| > 0
      ensures First(t'.nodes, stack[k].id) == First(t.nodes, stack[k].id)
    {
      var lev := stack[k].level;
      assert Placed(t, lev);
      var j :| 0 <= j < |t.levels[lev]| && t.levels[lev][j] == stack[k].id;
    }
  }

  /** The index record is in place; what is left to do, if anything, is one level higher. */
  lemma PlacedIndex(cfg: Config, t: Tree, t': Tree, L: nat, M: nat, w: Todo, stack: seq<StackItem>, i0: nat, i: nat, id: nat, pos: nat,
                    split: bool, r: nat, todo': seq<Todo>, todo: seq<Todo>)
    requires ConfigOk(cfg) && L <= M && Pending(cfg, t, L, M, w, stack) && M + 1 < |t.levels| == |t'.levels| && t'.root == t.root
    requires Tower(cfg, t, M + 1, {}) && 0 <= w.parent < |stack| && i0 <= i
    requires i0 < |t.levels[M + 1]| && t.levels[M + 1][i0] == stack[w.parent].id && IsNode(t, M + 1, i, id) && pos < |t.nodes[id].recs|
    requires PlaceOf(t, M + 1, i, pos) < |Row(t, M + 1)|
    requires Frame(t, t', M + 1) && SameFirsts(t, t', M + 1) && AboveKept(t, t', M + 1)
    requires Row(t', M + 1) == InsertAt(Row(t, M + 1), PlaceOf(t, M + 1, i, pos) + 1, EntryOf(t.nodes, w.pointTo))
    requires !split ==> Tower(cfg, t', M + 1, {}) && todo' == todo
    requires split ==> Tower(cfg, t', M + 1, {r}) && r in t'.levels[M + 1] && SplitOff(cfg, t, t', M + 1, id, r)
    requires split ==> todo' == [Todo(if M + 1 == |t.levels| - 1 then -1 else w.parent - 1, r, t.root)] + todo
    ensures todo' == todo ==> Tower(cfg, t', L, {})
    ensures todo' != todo ==> |todo'| > 0 && todo' == [todo'[0]] + todo && Pending(cfg, t', L, M + 1, todo'[0], stack)
  {
    hide FlatTo, UsedTo, NodeOk, Tower, ChainOk, Indexes, Frame, SameFirsts, AboveKept, TopOk, Row, StackOk, First;
    PendingFacts(cfg, t, L, M, w, stack);
    if split {
      IndexDone(cfg, t, t', L, M, w.pointTo, PlaceOf(t, M + 1, i, pos), {r});
      var w' := todo'[0];
      if M + 2 < |t.levels| {
        StackStep(cfg, t, t', L, M, w, stack, i0, i, id, r);
      } else {
        SplitOffTop(cfg, t, t', M + 1, id, r);
      }
      assert |todo'| != |todo|;
    } else {
      IndexDone(cfg, t, t', L, M, w.pointTo, PlaceOf(t, M + 1, i, pos), {});
    }
  }

  lemma SplitOffTop(cfg: Config, t: Tree, t': Tree, M: nat, id: nat, r: nat)
    requires SplitOff(cfg, t, t', M, id, r) && M + 1 == |t.levels|
    ensures t'.levels[M] == [t.root, r] && t'.root == t.root
  {
  }

  /** The next stacked node is left of the node just split off. */
  lemma StackStep(cfg: Config, t: Tree, t': Tree, L: nat, M: nat, w: Todo, stack: seq<StackItem>, i0: nat, i: nat, id: nat, r: nat)
    requires ConfigOk(cfg) && L <= M && Pending(cfg, t, L, M, w, stack) && M + 2 < |t.levels| == |t'.levels|
    requires Tower(cfg, t, M + 1, {}) && i0 <= i && IsNode(t, M + 1, i, id)
    requires 0 <= w.parent < |stack| && i0 < |t.levels[M + 1]| && t.levels[M + 1][i0] == stack[w.parent].id
    requires SameFirsts(t, t', M + 1) && AboveKept(t, t', M + 1) && SplitOff(cfg, t, t', M + 1, id, r)
    ensures w.parent - 1 == |t.levels| - 2 - (M + 1) >= 0 && StackOk(cfg, t', stack, M + 2)
    ensures stack[w.parent - 1].id in t'.nodes && |t'.nodes[stack[w.parent - 1].id].recs| > 0
    ensures r in t'.nodes && |t'.nodes[r].recs| > 0
    ensures cfg.cmp(First(t'.nodes, stack[w.parent - 1].id), First(t'.nodes, r)) <= 0
  {
    hide FlatTo, UsedTo, NodeOk, Tower, ChainOk, Indexes, AboveKept, TopOk, Row, First;
    StackUp(cfg, t, stack, M + 1);
    StackKept(cfg, t, t', M + 1, stack, M + 2);
    PathRight(cfg, t, M + 1, M + 1, {}, i0, i);
    var a, b := stack[w.parent - 1].id, stack[w.parent].id;
    Trans(cfg.cmp, First(t.nodes, a), First(t.nodes, b), First(t.nodes, id));
    assert First(t'.nodes, id) == First(t.nodes, id);
    Trans(cfg.cmp, First(t'.nodes, a), First(t'.nodes, id), First(t'.nodes, r));
  }

  lemma StackUp(cfg: Config, t: Tree, stack: seq<StackItem>, l: nat)
    requires StackOk(cfg, t, stack, l) && l + 1 < |t.levels|
    ensures StackOk(cfg, t, stack, l + 1)
  {
  }

  lemma SplitOffSize(cfg: Config, t: Tree, t': Tree, M: nat, id: nat, r: nat)
    requires SplitOff(cfg, t, t', M, id, r)
    ensures |Row(t', M)| >= |t'.levels[M]| + 3
  {
  }

  lemma FrameSelf(t: Tree, L: nat)
    requires L <= |t.levels|
    ensures Frame(t, t, L)
  {
  }

  lemma FrameSize(t: Tree, t': Tree, L: nat)
    requires Frame(t, t', L)
    ensures L <= |t'.levels|
  {
  }

  lemma NothingToDo(todo: seq<Todo>, D: set<nat>)
    requires forall k :: 0 <= k < |todo| ==> todo[k].pointTo in D
    ensures todo != [] ==> D != {}
  {
    if todo != [] {
      assert todo[0].pointTo in D;
    }
  }

  /** A key below the first record is not on the level. */
  lemma AboveAll(cfg: Config, t: Tree, L: nat, key: Key)
    requires ConfigOk(cfg) && Tower(cfg, t, L, {}) && L < |t.levels| && |Row(t, L)| > 0 && cfg.cmp(Row(t, L)[0].key, key) > 0
    ensures !HasKey(Row(t, L), key) && Row(t, L)[0].key != key
  {
    hide FlatTo, UsedTo, Tower, ChainOk, Indexes;
    TowerChain(cfg, t, L, {});
    var f := Row(t, L);
    Flip(cfg.cmp, key, key);
    forall j | 0 <= j < |f| ensures f[j].key != key {
      Flip(cfg.cmp, f[0].key, f[j].key);
    }
  }

  /** A key is on a level exactly if it is the key of its floor. */
  lemma FoundOrNot(cfg: Config, t: Tree, L: nat, i: nat, id: nat, pos: nat, key: Key)
    requires ConfigOk(cfg) && Tower(cfg, t, L, {}) && IsNode(t, L, i, id) && pos < |t.nodes[id].recs|
    requires IsFloor(cfg.cmp, Row(t, L), key, PlaceOf(t, L, i, pos))
    ensures PlaceOf(t, L, i, pos) < |Row(t, L)| && Row(t, L)[PlaceOf(t, L, i, pos)] == t.nodes[id].recs[pos]
    ensures HasKey(Row(t, L), key) <==> t.nodes[id].recs[pos].key == key
  {
    hide FlatTo, UsedTo, Tower, ChainOk, Indexes;
    FlatAt(t.nodes, t.levels[L], i, pos);
    TowerChain(cfg, t, L, {});
    var f, g := Row(t, L), PlaceOf(t, L, i, pos);
    Flip(cfg.cmp, key, key);
    Flip(cfg.cmp, f[g].key, key);
    forall j | 0 <= j < |f| && f[j].key == key ensures j == g {
      Flip(cfg.cmp, f[j].key, f[g].key);
    }
  }

  /** The split on the level of the insertion itself. */
  lemma FirstPending(cfg: Config, t: Tree, t': Tree, L: nat, stack: seq<StackItem>, id: nat, r: nat, i: nat, w: Todo)
    requires ConfigOk(cfg) && Tower(cfg, t, L, {}) && StackOk(cfg, t, stack, L) && |stack| == |t.levels| - L
    requires IsNode(t, L, i, id) && stack[|stack| - 1].id == id && stack[|stack| - 1].level == L
    requires Tower(cfg, t', L, {r}) && r in t'.levels[L] && SplitOff(cfg, t, t', L, id, r)
    requires SameFirsts(t, t', L) && AboveKept(t, t', L)
    requires w == Todo(if L == |t.levels| - 1 then -1 else |stack| - 1 - 1, r, t.root)
    ensures Pending(cfg, t', L, L, w, stack)
  {
    hide FlatTo, UsedTo, NodeOk, Tower, ChainOk, Indexes, TopOk, Row, First, AboveKept;
    TowerKeys(cfg, t, L, {});
    if L + 1 < |t.levels| {
      StackUp(cfg, t, stack, L);
      StackKept(cfg, t, t', L, stack, L + 1);
      var a := stack[|stack| - 2].id;
      assert First(t'.nodes, id) == First(t.nodes, id);
      Trans(cfg.cmp, First(t'.nodes, a), First(t'.nodes, id), First(t'.nodes, r));
    }
  }

  /** A key strictly between a record and the next one is not on the level. */
  lemma FloorNotThere(cfg: Config, t: Tree, L: nat, key: Key, g: nat)
    requires ConfigOk(cfg) && Tower(cfg, t, L, {}) && L < |t.levels|
    requires IsFloor(cfg.cmp, Row(t, L), key, g) && Row(t, L)[g].key != key
    ensures !HasKey(Row(t, L), key) && cfg.cmp(Row(t, L)[0].key, key) <= 0
  {
    hide FlatTo, UsedTo, Tower, ChainOk, Indexes;
    TowerChain(cfg, t, L, {});
    var f := Row(t, L);
    if HasKey(f, key) {
      var j :| 0 <= j < |f| && f[j].key == key;
      Flip(cfg.cmp, key, key);
      assert j <= g;
      Flip(cfg.cmp, f[j].key, f[g].key);
      Flip(cfg.cmp, f[g].key, key);
      assert false;
    }
  }

  lemma Renamed(f: seq<Rec>, g: nat, rec: Rec, f1: seq<Rec>, f2: seq<Rec>)
    requires g < |f| && f1 == InsertAt(f, g + 1, rec) && f2 == RemoveAt(f1, g)
    ensures f2 == f[g := rec]
  {
  }

  lemma FramePoint(t: Tree, t': Tree, L: nat, id: nat)
    requires Frame(t, t', L) && id in t.nodes && id in t.lvl && t.lvl[id] < L
    ensures id in t'.nodes && t'.nodes[id] == t.nodes[id] && id in t'.lvl && t'.lvl[id] == t.lvl[id]
  {
  }

  /** After the new index record has gone in, the old one is found in a node with other records. */
  lemma OldEntryFound(cfg: Config, t0: Tree, t1: Tree, L: nat, rec: Rec, key: Key, g: nat,
                      st: Status, i: nat, id: nat, pos: nat, gi: nat, gp: nat)
    requires ConfigOk(cfg) && Tower(cfg, t1, L, {}) && L < |t0.levels| && L < |t1.levels|
    requires g < |Row(t0, L)| && Row(t0, L)[g].key == key && Row(t1, L) == InsertAt(Row(t0, L), g + 1, rec)
    requires gi < |t1.levels[L]| && t1.levels[L][gi] in t1.nodes && gp < |t1.nodes[t1.levels[L][gi]].recs|
    requires |t1.nodes[t1.levels[L][gi]].recs| > 1 && PlaceOf(t1, L, gi, gp) == g
    requires st == Ok || st == ENOENT
    requires st == ENOENT <==> cfg.cmp(Row(t1, L)[0].key, key) > 0
    requires st == Ok ==> IsNode(t1, L, i, id) && pos < |t1.nodes[id].recs| && IsFloor(cfg.cmp, Row(t1, L), key, PlaceOf(t1, L, i, pos))
    ensures st == Ok && i == gi && pos == gp && PlaceOf(t1, L, i, pos) == g
    ensures t1.nodes[id].recs[pos].key == key
  {
    hide FlatTo, UsedTo, Tower, ChainOk, Indexes;
    TowerChain(cfg, t1, L, {});
    var f := Row(t1, L);
    assert f[g] == Row(t0, L)[g];
    Flip(cfg.cmp, key, key);
    ExactIsFloor(cfg.cmp, f, key, g);
    assert cfg.cmp(f[0].key, key) <= 0;
    FloorUnique(cfg.cmp, f, key, g, PlaceOf(t1, L, i, pos));
    PlaceUnique(t1.nodes, t1.levels[L], i, pos, gi, gp);
    FlatAt(t1.nodes, t1.levels[L], i, pos);
  }

  /** What UpdateKey asks of the next level when node `i` has lost its first record. */
  lemma FirstRemoved(cfg: Config, t: Tree, t': Tree, L: nat, i: nat, id: nat)
    requires ConfigOk(cfg) && Tower(cfg, t, L, {}) && L + 1 < |t.levels| && IsNode(t, L, i, id) && |t.nodes[id].recs| > 1
    requires t' == t.(nodes := t.nodes[id := WithoutRecord(t.nodes[id], 0)])
    requires Tower(cfg, t', L + 1, {}) && Row(t', L + 1) == Row(t, L + 1)
    ensures id in t'.nodes && t'.lvl[id] < L + 1 && |t'.nodes[id].recs| > 0 && Bounded(EntryOf(t'.nodes, id), cfg.size)
    ensures i < |Row(t', L + 1)| && Row(t', L + 1)[i].key == t.nodes[id].recs[0].key && Row(t', L + 1)[i].val == Child(id)
    ensures First(t'.nodes, id) != t.nodes[id].recs[0].key && IsFloor(cfg.cmp, Row(t', L + 1), First(t'.nodes, id), i)
    ensures |Row(t', L + 1)| == |t.levels[L]| < |Row(t, L)|
  {
    hide FlatTo, UsedTo, Tower, ChainOk, Indexes, NodeOk, IsFloor;
    TowerChain(cfg, t, L, {});
    TowerPlaced(cfg, t, L, {});
    TowerIndex(cfg, t, L);
    NodeRange(cfg, t, L, i, 1);
    ParentFloor(cfg, t, L, i, t.nodes[id].recs[1].key);
    ChainOrder(cfg, t.nodes, t.levels[L], i, 0, i, 1);
    Flip(cfg.cmp, t.nodes[id].recs[0].key, t.nodes[id].recs[1].key);
    assert First(t'.nodes, id) == t.nodes[id].recs[1].key;
    SecondBounded(t.nodes[id], cfg.size, L == 0);
    ChainLive(cfg, t.nodes, t.levels[L], L == 0);
    FlatLengthAt(cfg, t.nodes, t.levels[L], L == 0, |t.levels[L]|, i, 2);
  }

  lemma SecondBounded(nd: Node, size: nat, leaf: bool)
    requires NodeOk(nd, size, leaf) && |nd.recs| > 1
    ensures var r := nd.recs[1]; Bounded(r, size) && Bounded(Rec(r.key, r.keyLen, r.keyLen + INDEX_VALUE, Child(0)), size)
  {
  }

  lemma MergeFree(cfg: Config, t: Tree, L: nat, i: nat, id: nat)
    requires Tower(cfg, t, L, {}) && IsNode(t, L, i, id)
    ensures t.nodes[id].free == cfg.size - OVERHEAD - Used(t.nodes[id].recs) && |t.nodes[id].recs| > 0
    ensures id in t.lvl && t.lvl[id] == L
  {
    assert Placed(t, L);
  }

  /** The index record of the node merged away is there and not the only one. */
  lemma RightGone(cfg: Config, t0: Tree, t1: Tree, L: nat, li: nat, right: nat)
    requires ConfigOk(cfg) && Tower(cfg, t0, L, {}) && L + 1 < |t0.levels| && IsNode(t0, L, li + 1, right)
    requires Tower(cfg, t1, L + 1, {}) && L + 1 < |t1.levels| && Row(t1, L + 1) == Row(t0, L + 1)
    ensures |t0.nodes[right].recs| > 0 && HasKey(Row(t1, L + 1), t0.nodes[right].recs[0].key)
    ensures |Row(t1, L + 1)| == |t0.levels[L]| <= |Row(t0, L)| && |t0.levels[L]| > 1
  {
    hide FlatTo, UsedTo, Tower, ChainOk, Indexes;
    TowerIndex(cfg, t0, L);
    assert Row(t1, L + 1)[li + 1].key == t0.nodes[right].recs[0].key;
  }

  /** The node merged away is not touched while its index record is removed. */
  lemma RightWaiting(cfg: Config, t1: Tree, t2: Tree, L: nat, right: nat)
    requires Base(cfg, t1, L, L + 1, {right}) && Frame(t1, t2, L + 1)
    requires right in t1.nodes && right in t1.lvl && t1.lvl[right] == L
    ensures right in t2.nodes
  {
  }

  lemma MergeDone(cfg: Config, t0: Tree, t1: Tree, t2: Tree, t3: Tree, L: nat, li: nat, right: nat, g: nat)
    requires ConfigOk(cfg) && Tower(cfg, t0, L, {}) && L + 1 < |t0.levels| && IsNode(t0, L, li + 1, right) && |t0.nodes[right].recs| > 0
    requires Frame(t0, t1, L) && Base(cfg, t1, L, L + 1, {right}) && t1.levels == t0.levels[L := RemoveAt(t0.levels[L], li + 1)]
    requires t1.lvl == t0.lvl && FirstsKept(t0.nodes, t1.nodes, t1.levels[L]) && Row(t1, L) == Row(t0, L)
    requires Row(t1, L + 1) == Row(t0, L + 1)
    requires Frame(t1, t2, L + 1) && g < |Row(t0, L + 1)| && Row(t0, L + 1)[g].key == First(t0.nodes, right)
    requires Upper(cfg, t2, L + 1, RemoveAt(Row(t0, L + 1), g)) && t2.lvl.Keys == t2.nodes.Keys && NO_NODE !in t2.nodes
    requires t3 == t2.(nodes := t2.nodes - {right}, lvl := t2.lvl - {right})
    requires right in t1.nodes && right in t2.nodes
    ensures Frame(t0, t3, L) && Upper(cfg, t3, L, Row(t0, L))
  {
    hide FlatTo, UsedTo, NodeOk, Tower, ChainOk, Indexes, Frame, Base, FirstsKept, Upper;
    TowerPlaced(cfg, t0, L, {});
    TowerChain(cfg, t0, L, {});
    assert t0.lvl[right] == L;
    BaseFrame(cfg, t1, t2, L, L + 1, {right});
    BaseRow(cfg, t1, t2, L, {right});
    KeptThrough(t0, t1, t2, t1.levels[L]);
    RemoveMembers(t0.levels[L], li + 1);
    FrameLvl(t1, t2, L);
    MergedNode(t0, t1, L, right);
    FreeStep(cfg, t2, t3, L, RemoveAt(Row(t0, L + 1), g), right);
    KeptBoth(t0, t2, t3, t3.levels[L]);
    TowerIndex(cfg, t0, L);
    DropDone(cfg, t0, t3, L, li + 1, g);
    FrameTransitive(t0, t1, t2, L, L + 1);
    FrameTransitive(t0, t2, t3, L, L);
    UpperOf(cfg, t3, L);
  }

  lemma MergedNode(t0: Tree, t1: Tree, L: nat, right: nat)
    requires right in t0.nodes && right in t0.lvl && t0.lvl[right] == L && t1.lvl == t0.lvl
    ensures right in t1.lvl && t1.lvl[right] == L
  {
  }

  lemma KeptBoth(t0: Tree, t2: Tree, t3: Tree, ids: seq<nat>)
    requires FirstsKept(t0.nodes, t2.nodes, ids) && FirstsKept(t2.nodes, t3.nodes, ids)
    ensures FirstsKept(t0.nodes, t3.nodes, ids)
  {
  }

  lemma OnlyOther(f: seq<Rec>, key: Key)
    requires !HasKey(f, key)
    ensures !(|f| == 1 && f[0].key == key)
  {
  }

  lemma OnlyRecord(cfg: Config, t: Tree, L: nat, i: nat, id: nat, pos: nat, key: Key)
    requires ConfigOk(cfg) && Tower(cfg, t, L, {}) && IsNode(t, L, i, id) && pos < |t.nodes[id].recs|
    requires t.nodes[id].recs[pos].key == key
    ensures PlaceOf(t, L, i, pos) < |Row(t, L)| && Row(t, L)[PlaceOf(t, L, i, pos)].key == key
    ensures |Row(t, L)| == 1 ==> Row(t, L)[0].key == key && |t.nodes[id].recs| == 1
  {
    hide FlatTo, UsedTo, Tower, ChainOk, Indexes;
    FlatAt(t.nodes, t.levels[L], i, pos);
    if |t.nodes[id].recs| > 1 {
      FlatAt(t.nodes, t.levels[L], i, 0);
      FlatAt(t.nodes, t.levels[L], i, 1);
    }
  }

  lemma FirstIs(nodes: NodeMap, id: nat)
    requires id in nodes && |nodes[id].recs| > 0
    ensures First(nodes, id) == nodes[id].recs[0].key
  {
  }

  /** In a tower without dangling nodes exactly the root stands on the top level. */
  lemma NotRootAbove(cfg: Config, t: Tree, L: nat, i: nat, id: nat)
    requires Tower(cfg, t, L, {}) && IsNode(t, L, i, id)
    ensures L < |t.levels| && (id == t.root <==> L + 1 == |t.levels|)
    ensures L + 1 == |t.levels| ==> t.levels[L] == [t.root]
  {
    hide FlatTo, UsedTo, ChainOk, Indexes;
    if L + 1 == |t.levels| {
      RootAlone(t, L);
    } else {
      assert Placed(t, L) && Placed(t, |t.levels| - 1);
      assert t.levels[|t.levels| - 1][0] == t.root;
    }
  }

  lemma EmptiedFacts(cfg: Config, t: Tree, L: nat, i: nat, id: nat, key: Key)
    requires ConfigOk(cfg) && Tower(cfg, t, L, {}) && IsNode(t, L, i, id)
    requires |t.nodes[id].recs| == 1 && t.nodes[id].recs[0].key == key
    ensures PlaceOf(t, L, i, 0) < |Row(t, L)|
    ensures id == t.root ==> |Row(t, L)| == 1
    ensures id != t.root ==> L + 1 < |t.levels| && HasKey(Row(t, L + 1), key) && |Row(t, L + 1)| <= |Row(t, L)|
    ensures id != t.root ==> (|Row(t, L)| == 1 <==> |Row(t, L + 1)| == 1 && Row(t, L + 1)[0].key == key)
    ensures NO_NODE !in t.nodes && t.lvl.Keys == t.nodes.Keys && L < |t.levels|
  {
    hide FlatTo, UsedTo, Tower, ChainOk, Indexes;
    TowerKeys(cfg, t, L, {});
    NotRootAbove(cfg, t, L, i, id);
    FlatAt(t.nodes, t.levels[L], i, 0);
    if |t.levels[L]| == 1 {
      FlatStep(t.nodes, t.levels[L], 0);
      FlatNil(t.nodes, t.levels[L]);
    }
    if id != t.root {
      TowerIndex(cfg, t, L);
      assert Row(t, L + 1)[i].key == key;
    }
  }

  lemma EmptiedDone(cfg: Config, t0: Tree, t1: Tree, t2: Tree, L: nat, i: nat, id: nat, g: nat)
    requires ConfigOk(cfg) && Tower(cfg, t0, L, {}) && L + 1 < |t0.levels| && IsNode(t0, L, i, id) && |t0.nodes[id].recs| == 1
    requires |t0.levels[L]| > 1 || |Row(t0, L)| > 1
    requires t1.levels == t0.levels[L := RemoveAt(t0.levels[L], i)] && Frame(t0, t1, L) && Row(t1, L + 1) == Row(t0, L + 1)
    requires |t0.levels[L]| > 1 ==>
      && Base(cfg, t1, L, L + 1, {}) && FirstsKept(t0.nodes, t1.nodes, t1.levels[L])
      && PlaceOf(t0, L, i, 0) < |Row(t0, L)| && Row(t1, L) == RemoveAt(Row(t0, L), PlaceOf(t0, L, i, 0))
    requires PlaceOf(t0, L, i, 0) < |Row(t0, L)|
    requires Frame(t1, t2, L + 1) && t2.lvl.Keys == t2.nodes.Keys && NO_NODE !in t2.nodes
    requires g < |Row(t0, L + 1)| && Row(t0, L + 1)[g].key == t0.nodes[id].recs[0].key
    requires Upper(cfg, t2, L + 1, RemoveAt(Row(t0, L + 1), g))
    ensures Frame(t0, t2, L) && Upper(cfg, t2, L, RemoveAt(Row(t0, L), PlaceOf(t0, L, i, 0)))
  {
    hide FlatTo, UsedTo, NodeOk, Tower, ChainOk, Indexes, Frame, Base, FirstsKept, Upper;
    if |t0.levels[L]| == 1 {
      FlatStep(t0.nodes, t0.levels[L], 0);
      FlatNil(t0.nodes, t0.levels[L]);
    }
    BaseFrame(cfg, t1, t2, L, L + 1, {});
    BaseRow(cfg, t1, t2, L, {});
    KeptThrough(t0, t1, t2, t1.levels[L]);
    FirstIs(t0.nodes, id);
    DropDone(cfg, t0, t2, L, i, g);
    FrameTransitive(t0, t1, t2, L, L + 1);
    UpperOf(cfg, t2, L);
  }

  /** Every record of an index level points to a node. */
  ghost predicate AllChild(f: seq<Rec>) {
    forall j :: 0 <= j < |f| ==> f[j].val.Child?
  }

  lemma AllChildIndex(cfg: Config, t: Tree, L: nat)
    requires ConfigOk(cfg) && Tower(cfg, t, L, {}) && L + 1 < |t.levels|
    ensures AllChild(Row(t, L + 1))
  {
    hide FlatTo, UsedTo, Tower, ChainOk;
    TowerChain(cfg, t, L, {});
  }

  lemma OnlyChild(cfg: Config, t: Tree, L: nat, id: nat, f: seq<Rec>, g: nat)
    requires Tower(cfg, t, L, {}) && id == t.root && id in t.nodes && L + 1 == |t.levels| && |t.nodes[id].recs| == 1
    requires AllChild(f) && g < |f| && Row(t, L) == RemoveAt(f, g)
    ensures t.nodes[id].recs[0].val.Child?
  {
    hide FlatTo, UsedTo, ChainOk;
    RootAlone(t, L);
    FlatAt(t.nodes, t.levels[L], 0, 0);
    FlatNil(t.nodes, t.levels[L]);
    assert Row(t, L)[0] == f[if 0 < g then 0 else 1];
  }

  /** What the search from Rebalance finds. */
  lemma ParentFound(cfg: Config, t: Tree, L: nat, i: nat, id: nat, key: Key, st: Status, pi: nat, parent: nat, pos: nat)
    requires ConfigOk(cfg) && Tower(cfg, t, L, {}) && L + 1 < |t.levels| && IsNode(t, L, i, id)
    requires IsFloor(cfg.cmp, Row(t, L + 1), key, i)
    requires st == Ok || st == ENOENT
    requires st == ENOENT <==> cfg.cmp(Row(t, L + 1)[0].key, key) > 0
    requires st == Ok ==> IsNode(t, L + 1, pi, parent) && pos < |t.nodes[parent].recs|
    requires st == Ok ==> IsFloor(cfg.cmp, Row(t, L + 1), key, PlaceOf(t, L + 1, pi, pos))
    ensures st == Ok && t.nodes[parent].recs[pos].val == Child(id) && PlaceOf(t, L + 1, pi, pos) == i
    ensures pos > 0 ==> i > 0 && IsNode(t, L, i - 1, t.nodes[id].prev)
    ensures pos + 1 < |t.nodes[parent].recs| ==>
      IsNode(t, L, i + 1, t.nodes[id].next) && t.nodes[parent].recs[pos + 1].val == Child(t.nodes[id].next)
  {
    hide FlatTo, UsedTo, Tower, ChainOk, Indexes, NodeOk;
    assert cfg.cmp(Row(t, L + 1)[0].key, key) <= 0;
    FloorUnique(cfg.cmp, Row(t, L + 1), key, i, PlaceOf(t, L + 1, pi, pos));
    TowerIndex(cfg, t, L);
    FlatAt(t.nodes, t.levels[L + 1], pi, pos);
    Neighbours(cfg, t, L, {}, i);
    if pos + 1 < |t.nodes[parent].recs| {
      FlatAt(t.nodes, t.levels[L + 1], pi, pos + 1);
    }
  }

  /** The tree that btree_init leaves behind. */
  lemma FirstTree(cfg: Config, t: Tree, first: Rec)
    requires ConfigOk(cfg) && Bounded(first, cfg.size)
    requires t == Tree(map[1 := WithRecord(EmptyNode(cfg.size, true), 0, first)], map[1 := 0], [[1]], 1)
    ensures Tower(cfg, t, 0, {}) && Row(t, 0) == [first]
  {
    var nd := WithRecord(EmptyNode(cfg.size, true), 0, first);
    assert nd.recs == [first];
    UsedInsert([], 0, first);
    UsedNil();
    FlatStep(t.nodes, [1], 0);
    FlatNil(t.nodes, [1]);
    assert Flat(t.nodes, [1]) == [first];
  }

  /** Items for nodes, the last one first. */
  function Backwards(path: seq<nat>, parent: int, root: nat): seq<Todo> {
    seq(|path|, j requires 0 <= j < |path| => Todo(parent, path[|path| - 1 - j], root))
  }

  /** The node that the search starts from below the last stacked record. */
  ghost function StartAfter(t: Tree, stack: seq<StackItem>): nat {
    if stack == [] then t.root else
    var top := stack[|stack| - 1];
    if top.pos < |RecsOf(t.nodes, top.id)| && RecsOf(t.nodes, top.id)[top.pos].val.Child? then RecsOf(t.nodes, top.id)[top.pos].val.id
    else NO_NODE
  }

  /** The path goes from node `x` of a level, at place `a`, to node `y` right of it, at place `b`. */
  ghost predicate GoesRight(ids: seq<nat>, x: nat, y: nat, path: seq<nat>, a: nat, b: nat) {
    a <= b < |ids| && ids[a] == x && ids[b] == y && path == ids[a + 1..b + 1]
  }

  /** Path `k` is the one from where the search starts on that level to the stacked node. */
  ghost predicate PathOn(t: Tree, stack: seq<StackItem>, k: nat, path: seq<nat>) {
    && k < |stack| && k < |t.levels|
    && var ids, x, y := t.levels[|t.levels| - 1 - k], StartAfter(t, stack[..k]), stack[k].id;
       exists a: nat, b: nat :: GoesRight(ids, x, y, path, a, b)
  }

  /** The items for the first `n` paths, those of the lowest level first, each with its level's parent item. */
  function ItemsOf(paths: seq<seq<nat>>, root: nat, n: nat): seq<Todo>
    requires n <= |paths|
  {
    if n == 0 then [] else Backwards(paths[n - 1], n - 2, root) + ItemsOf(paths, root, n - 1)
  }

  ghost predicate NotedBy(t: Tree, stack: seq<StackItem>, todo: seq<Todo>, paths: seq<seq<nat>>) {
    |paths| == |stack| && todo == ItemsOf(paths, t.root, |paths|) && forall k :: 0 <= k < |paths| ==> PathOn(t, stack, k, paths[k])
  }

  /** Exactly the nodes walked over to the right, on every level, are noted for indexing. */
  ghost predicate Noted(t: Tree, stack: seq<StackItem>, todo: seq<Todo>) {
    exists paths :: NotedBy(t, stack, todo, paths)
  }

  lemma NotedNone(t: Tree)
    ensures NotedBy(t, [], [], [])
  {
  }

  lemma NotedMore(t: Tree, stack: seq<StackItem>, stack': seq<StackItem>, todo: seq<Todo>, todo': seq<Todo>, paths: seq<seq<nat>>,
                  path: seq<nat>, l: nat, a: nat, b: nat)
    requires NotedBy(t, stack, todo, paths) && |stack'| == |stack| + 1 && stack'[..|stack|] == stack
    requires l < |t.levels| && |stack| == |t.levels| - 1 - l
    requires GoesRight(t.levels[l], StartAfter(t, stack), stack'[|stack|].id, path, a, b)
    requires todo' == Backwards(path, |stack| - 1, t.root) + todo
    ensures NotedBy(t, stack', todo', paths + [path])
  {
    hide StartAfter, GoesRight, Backwards;
    var n, paths' := |stack|, paths + [path];
    forall k | 0 <= k < |paths'| ensures PathOn(t, stack', k, paths'[k]) {
      if k < n {
        assert PathOn(t, stack, k, paths[k]);
        assert stack'[..k] == stack[..k] && stack'[k] == stack[k];
      }
    }
    SameItems(paths, paths', t.root, n);
  }

  lemma {:induction false} SameItems(a: seq<seq<nat>>, b: seq<seq<nat>>, root: nat, n: nat)
    requires n <= |a| && n <= |b| && forall k :: 0 <= k < n ==> a[k] == b[k]
    ensures ItemsOf(a, root, n) == ItemsOf(b, root, n)
  {
    if n > 0 {
      SameItems(a, b, root, n - 1);
    }
  }

  /** Todo items for the dangling nodes walked over, the last one first. */
  function WithWalked(todo: seq<Todo>, walked: seq<nat>, parent: int, root: nat): (r: seq<Todo>)
    ensures forall k :: 0 <= k < |r| ==> r[k] in todo || r[k].pointTo in walked
    ensures r == Backwards(walked, parent, root) + todo
    decreases |walked|
  {
    if walked == [] then todo
    else WithWalked([Todo(parent, walked[0], root)] + todo, walked[1..], parent, root)
  }

  /** The record found at place `pos` of node `i` on level `l` leads to node `ci` below. */
  ghost predicate Descent(cfg: Config, t: Tree, l: nat, i: nat, pos: nat, key: Key, ci: nat) {
    && 0 < l < |t.levels| && i < |t.levels[l]| && ci < |t.levels[l - 1]|
    && PlaceOf(t, l, i, pos) < |Row(t, l)|
    && IsFloor(cfg.cmp, Row(t, l), key, PlaceOf(t, l, i, pos))
    && Row(t, l)[PlaceOf(t, l, i, pos)].val == Child(t.levels[l - 1][ci])
  }

  lemma TowerLevel(cfg: Config, t: Tree, L: nat, l: nat, D: set<nat>)
    requires Tower(cfg, t, L, D) && L <= l < |t.levels|
    ensures ChainOk(cfg, t.nodes, t.levels[l], l == 0) && Sorted(cfg.cmp, Row(t, l))
    ensures forall i :: 0 <= i < |t.levels[l]| ==> IsNode(t, l, i, t.levels[l][i]) && |t.nodes[t.levels[l][i]].recs| > 0
    ensures l > L ==> Indexes(t.nodes, t.levels[l - 1], Row(t, l), D)
  {
  }

  lemma TopFirst(cfg: Config, t: Tree, L: nat, D: set<nat>)
    requires Tower(cfg, t, L, D)
    ensures L < |t.levels| && IsNode(t, |t.levels| - 1, 0, t.root) && |t.nodes[t.root].recs| > 0
  {
    hide FlatTo, UsedTo, NodeOk, ChainOk, Indexes;
    TowerLevel(cfg, t, L, |t.levels| - 1, D);
  }

  lemma TopWalked(cfg: Config, t: Tree, L: nat, D: set<nat>, i: nat)
    requires Tower(cfg, t, L, D) && i < |t.levels[|t.levels| - 1]|
    ensures forall id :: id in t.levels[|t.levels| - 1][1..i + 1] ==> id in D
  {
    hide FlatTo, UsedTo, NodeOk, ChainOk, Indexes;
    var top := t.levels[|t.levels| - 1];
    forall id | id in top[1..i + 1] ensures id in D {
      var k :| 0 <= k < i && top[1..i + 1][k] == id;
      assert top[k + 1] in D;
    }
  }

  /** Nodes walked over below the root level are dangling. */
  lemma WalkedDangling(cfg: Config, t: Tree, L: nat, l: nat, D: set<nat>, key: Key, i1: nat, pos1: nat, ci: nat, i: nat)
    requires ConfigOk(cfg) && Tower(cfg, t, L, D) && L <= l && l + 1 < |t.levels|
    requires Descent(cfg, t, l + 1, i1, pos1, key, ci) && ci <= i < |t.levels[l]|
    requires t.levels[l][i] in t.nodes && |t.nodes[t.levels[l][i]].recs| > 0 && cfg.cmp(First(t.nodes, t.levels[l][i]), key) <= 0
    ensures forall id :: id in t.levels[l][ci + 1..i + 1] ==> id in D
  {
    hide FlatTo, UsedTo, NodeOk, ChainOk, Tower, Indexes, IsFloor;
    TowerLevel(cfg, t, L, l, D);
    TowerLevel(cfg, t, L, l + 1, D);
    var ids := t.levels[l];
    ChainFirstsRise(cfg, t.nodes, ids, l == 0);
    forall id | id in ids[ci + 1..i + 1] ensures id in D {
      var k :| 0 <= k < i - ci && ids[ci + 1..i + 1][k] == id;
      var j := ci + 1 + k;
      assert ids[j] == id;
      if j < i { Trans(cfg.cmp, First(t.nodes, ids[j]), First(t.nodes, ids[i]), key); }
      WalkedIsDangling(cfg, t.nodes, ids, l == 0, Row(t, l + 1), D, key, PlaceOf(t, l + 1, i1, pos1), ci, j);
    }
  }

  /** A node at or right of another one starts at or above it. */
  lemma PathRight(cfg: Config, t: Tree, L: nat, l: nat, D: set<nat>, ci: nat, i: nat)
    requires ConfigOk(cfg) && Tower(cfg, t, L, D) && L <= l < |t.levels| && ci <= i < |t.levels[l]|
    ensures IsNode(t, l, ci, t.levels[l][ci]) && |t.nodes[t.levels[l][ci]].recs| > 0
    ensures IsNode(t, l, i, t.levels[l][i]) && |t.nodes[t.levels[l][i]].recs| > 0
    ensures cfg.cmp(First(t.nodes, t.levels[l][ci]), First(t.nodes, t.levels[l][i])) <= 0
  {
    hide FlatTo, UsedTo, NodeOk, ChainOk, Tower, Indexes;
    TowerLevel(cfg, t, L, l, D);
    ChainFirstsRise(cfg, t.nodes, t.levels[l], l == 0);
    Flip(cfg.cmp, First(t.nodes, t.levels[l][ci]), First(t.nodes, t.levels[l][ci]));
  }

  lemma StackPush(cfg: Config, t: Tree, stack: seq<StackItem>, stack': seq<StackItem>, l: nat)
    requires ConfigOk(cfg) && l < |t.levels| && |stack'| == |stack| + 1 && stack'[..|stack|] == stack
    requires if l + 1 < |t.levels| then StackOk(cfg, t, stack, l + 1) && |stack| == |t.levels| - l - 1 else stack == []
    requires var top := stack'[|stack|]; top.level == l && top.id in t.levels[l] && top.id in t.nodes && |t.nodes[top.id].recs| > 0
    requires |stack| > 0 ==> cfg.cmp(First(t.nodes, stack[|stack| - 1].id), First(t.nodes, stack'[|stack|].id)) <= 0
    ensures StackOk(cfg, t, stack', l)
  {
    forall k | 0 <= k < |stack| ensures stack'[k] == stack[k] {
      assert stack'[..|stack|][k] == stack[k];
    }
  }

  /** The child to descend to, which starts at or below the key and not left of its parent. */
  lemma ChildOf(cfg: Config, t: Tree, L: nat, l: nat, D: set<nat>, key: Key, i: nat, pos: nat) returns (ci: nat)
    requires ConfigOk(cfg) && Tower(cfg, t, L, D) && L < l < |t.levels| && i < |t.levels[l]|
    requires t.levels[l][i] in t.nodes && pos < |t.nodes[t.levels[l][i]].recs|
    requires IsFloor(cfg.cmp, Row(t, l), key, PlaceOf(t, l, i, pos))
    ensures Descent(cfg, t, l, i, pos, key, ci)
    ensures t.nodes[t.levels[l][i]].recs[pos].val == Child(t.levels[l - 1][ci])
    ensures IsNode(t, l - 1, ci, t.levels[l - 1][ci]) && |t.nodes[t.levels[l - 1][ci]].recs| > 0
    ensures cfg.cmp(First(t.nodes, t.levels[l - 1][ci]), key) <= 0
    ensures cfg.cmp(First(t.nodes, t.levels[l][i]), First(t.nodes, t.levels[l - 1][ci])) <= 0
  {
    hide FlatTo, UsedTo, NodeOk, ChainOk, Tower;
    TowerLevel(cfg, t, L, l, D);
    TowerLevel(cfg, t, L, l - 1, D);
    var id := t.levels[l][i];
    FlatAt(t.nodes, t.levels[l], i, pos);
    var r := Row(t, l)[PlaceOf(t, l, i, pos)];
    assert r == t.nodes[id].recs[pos];
    ci :| 0 <= ci < |t.levels[l - 1]| && t.levels[l - 1][ci] == r.val.id;
    if pos > 0 {
      ChainOrder(cfg, t.nodes, t.levels[l], i, 0, i, pos);
    } else {
      Flip(cfg.cmp, r.key, r.key);
    }
  }

  /** Node `r` was split off the right end of node `id` on level `M`. */
  ghost predicate SplitOff(cfg: Config, t: Tree, t': Tree, M: nat, id: nat, r: nat) {
    && M < |t.levels| == |t'.levels| && t'.root == t.root
    && id in t'.nodes && |t'.nodes[id].recs| > 0 && r in t'.nodes && |t'.nodes[r].recs| > 0
    && r in t'.lvl && t'.lvl[r] == M
    && cfg.cmp(First(t'.nodes, id), First(t'.nodes, r)) < 0
    && |Row(t', M)| >= |t'.levels[M]| + 3
    && (if M + 1 < |t.levels| then Row(t', M + 1) == Row(t, M + 1) else t'.levels[M] == [t.root, r])
  }

  lemma SplitDone(cfg: Config, t: Tree, t': Tree, M: nat, i: nat, id: nat, p: nat, rec: Rec, r: nat, left: Node, right: Node)
    returns (gi: nat, gp: nat)
    requires ConfigOk(cfg) && Tower(cfg, t, M, {}) && IsNode(t, M, i, id) && p < |t.nodes[id].recs|
    requires IsFloor(cfg.cmp, Row(t, M), rec.key, PlaceOf(t, M, i, p)) && t.nodes[id].recs[p].key != rec.key
    requires Bounded(rec, cfg.size) && r != NO_NODE && r !in t.nodes
    requires left.recs + right.recs == InsertAt(t.nodes[id].recs, p + 1, rec) && |left.recs| >= 4 && |right.recs| >= 1
    requires left.leaf == t.nodes[id].leaf && right.leaf == t.nodes[id].leaf
    requires left.free == cfg.size - OVERHEAD - Used(left.recs) >= 0
    requires right.free == cfg.size - OVERHEAD - Used(right.recs) >= 0
    requires var next := t.nodes[id].next;
             && left.prev == t.nodes[id].prev && left.next == r && right.prev == id && right.next == next
             && t' == t.(nodes := WithPrev(t.nodes[id := left][r := right], next, r),
                         lvl := t.lvl[r := M], levels := t.levels[M := InsertAt(t.levels[M], i + 1, r)])
    ensures Tower(cfg, t', M, {r}) && Frame(t, t', M) && SameFirsts(t, t', M) && AboveKept(t, t', M) && r in t'.levels[M]
    ensures Row(t', M) == InsertAt(Row(t, M), PlaceOf(t, M, i, p) + 1, rec)
    ensures SplitOff(cfg, t, t', M, id, r)
    ensures gi < |t'.levels[M]| && t'.levels[M][gi] in t'.nodes && gp < |t'.nodes[t'.levels[M][gi]].recs|
    ensures |t'.nodes[t'.levels[M][gi]].recs| > 1 && PlaceOf(t', M, gi, gp) == PlaceOf(t, M, i, p)
  {
    hide FlatTo, UsedTo, NodeOk, Tower, ChainOk, Indexes, IsFloor, First, Frame, SameFirsts, AboveKept, Bounded,
         TopOk, SpliceIn, SplitParts;
    Neighbours(cfg, t, M, {}, i);
    TowerChain(cfg, t, M, {});
    NodeLeaf(t.nodes[id], cfg.size, M == 0);
    LinkedIn(t.nodes, t.levels[M], i, id, r, left, right, t.nodes[id].next, t'.nodes);
    SplitPartsOf(cfg, t.nodes[id], p, rec, left, right, M == 0);
    SplitStep(cfg, t, t', M, i, id, p, rec, r, left, right);
    gi, gp := SplitPlaces(cfg, t, t', M, i, id, p, r, left.recs, right.recs);
  }

  lemma SplitPartsOf(cfg: Config, nd: Node, p: nat, rec: Rec, left: Node, right: Node, leaf: bool)
    requires p < |nd.recs| && nd.leaf == leaf
    requires left.recs + right.recs == InsertAt(nd.recs, p + 1, rec) && |left.recs| >= 4 && |right.recs| >= 1
    requires left.leaf == nd.leaf && right.leaf == nd.leaf
    requires left.free == cfg.size - OVERHEAD - Used(left.recs) >= 0
    requires right.free == cfg.size - OVERHEAD - Used(right.recs) >= 0
    ensures SplitParts(cfg, nd, p, rec, left, right, leaf)
    ensures |left.recs| + |right.recs| == |nd.recs| + 1
  {
    assert |left.recs + right.recs| == |nd.recs| + 1;
  }

  lemma NodeAt(cfg: Config, t: Tree, M: nat, i: nat, id: nat)
    requires Tower(cfg, t, M, {}) && IsNode(t, M, i, id)
    ensures NodeOk(t.nodes[id], cfg.size, M == 0) && NodeOk(t.nodes[id], cfg.size, t.nodes[id].leaf) && |t.nodes[id].recs| > 0
    ensures NO_NODE !in t.nodes && M < |t.levels|
  {
  }

  lemma UsedNil()
    ensures Used([]) == 0
  {
  }

  lemma NodeLeaf(nd: Node, size: nat, leaf: bool)
    requires NodeOk(nd, size, leaf)
    ensures nd.leaf == leaf && NodeOk(nd, size, nd.leaf)
  {
  }

  lemma BoundedParts(r: Rec, size: nat)
    requires Bounded(r, size)
    ensures 8 * (r.recLen + SLOT) <= size && 8 * (r.keyLen + INDEX_VALUE + SLOT) <= size && r.keyLen <= r.recLen
  {
  }

  lemma ChainFacts(cfg: Config, nodes: NodeMap, ids: seq<nat>, leaf: bool)
    requires ChainOk(cfg, nodes, ids, leaf)
    ensures Sorted(cfg.cmp, Flat(nodes, ids)) && LinkedUp(nodes, ids) && Distinct(ids)
    ensures forall i :: 0 <= i < |ids| ==> ids[i] in nodes && |nodes[ids[i]].recs| > 0 && ids[i] != NO_NODE
  {
  }

  lemma FloorBounds(cmp: CmpFn, f: seq<Rec>, key: Key, g: int)
    requires IsFloor(cmp, f, key, g)
    ensures 0 <= g < |f| && cmp(f[0].key, key) <= 0 && cmp(f[g].key, key) <= 0
  {
  }
}
