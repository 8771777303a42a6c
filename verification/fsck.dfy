/** The tree walk of fsck, on any image (extractor/vdfs-tools/fsck/fsck_corruption_check.c).

Error codes are the bits of the C int, so a negative code is a set of bits as well. */
module Fsck {

  type Flags = set<nat>

  /** FSCK_CORRUPTED_RECORD, FSCK_CORRUPTED_BTREE_STRUCTURE and FSCK_INVALID_RECS_CNT. */
  const CORRUPTED_RECORD: nat := 2
  const CORRUPTED_STRUCTURE: nat := 6
  const INVALID_RECS_CNT: nat := 9

  /** -EINVAL, that is -22, as 32 bits. */
  const EINVAL: Flags := {1, 3, 5, 6, 7, 8, 9, 10, 11, 12, 13, 14, 15, 16, 17, 18, 19, 20, 21, 22, 23, 24, 25, 26, 27, 28, 29, 30, 31}

  /** The id of the head node. */
  const HEAD: nat := 0

  datatype RecordImage = Unreadable | BadKey | PointsTo(id: nat)

  datatype Kind = Index | Leaf | Unknown

  /** What a node id leads to: nothing that can be read, or a node with what check_bnode says of it. */
  datatype NodeImage = Missing | Node(kind: Kind, check: Flags, records: seq<RecordImage>)

  class Walk {
    const image: nat -> NodeImage
    const maxId: nat
    /** The bits set in the bitmap of visited nodes. */
    var visited: set<nat>

    constructor (image: nat -> NodeImage, maxId: nat)
      ensures this.image == image && this.maxId == maxId && visited == {}
    {
      this.image, this.maxId, visited := image, maxId, {};
    }

    /** The bitmap has room for all node ids, and the head is marked. */
    ghost predicate Valid()
      reads this
    {
      HEAD in visited && visited <= Ids(maxId)
    }

    /** get_first_not_visited_child. */
    method FirstNotVisited(records: seq<RecordImage>) returns (flags: Flags, next: int, ghost k: nat)
      requires Valid()
      ensures next == -1 || (0 < next <= maxId && next !in visited && PointsTo(next) in records)
      ensures AllReadable(records) ==> flags == {}
      ensures flags <= {CORRUPTED_RECORD, CORRUPTED_STRUCTURE} && (next == -1 && flags == {} ==> AllReadable(records))
      ensures |records| > 0 && Leads(records[0], maxId, visited) ==> flags == {} && next == records[0].id
      ensures next == -1 ==> forall c: nat :: PointsTo(c) in records && c <= maxId ==> c in visited
      ensures k <= |records| && (next == -1 <==> k == |records|) && (forall j :: 0 <= j < k ==> !Leads(records[j], maxId, visited))
      ensures next != -1 ==> records[k] == PointsTo(next)
      ensures CORRUPTED_RECORD in flags <==> exists j :: 0 <= j < k && records[j].Unreadable?
      ensures CORRUPTED_STRUCTURE in flags <==> exists j :: 0 <= j < k && records[j].BadKey?
    {
      flags := {};
      for ctr := 0 to |records|
        invariant forall j :: 0 <= j < ctr ==> !Leads(records[j], maxId, visited)
        invariant CORRUPTED_RECORD in flags <==> exists j :: 0 <= j < ctr && records[j].Unreadable?
        invariant CORRUPTED_STRUCTURE in flags <==> exists j :: 0 <= j < ctr && records[j].BadKey?
        invariant AllReadable(records) ==> flags == {}
        invariant flags <= {CORRUPTED_RECORD, CORRUPTED_STRUCTURE}
        invariant flags == {} ==> forall k :: 0 <= k < ctr ==> records[k].PointsTo?
        invariant ctr == 0 ==> flags == {}
        invariant ctr > 0 ==> !Leads(records[0], maxId, visited)
        invariant forall k :: 0 <= k < ctr && records[k].PointsTo? && records[k].id <= maxId ==> records[k].id in visited
      {
        assert records[ctr] in records;
        match records[ctr]
        case Unreadable => flags := flags + {CORRUPTED_RECORD};
        case BadKey => flags := flags + {CORRUPTED_STRUCTURE};
        case PointsTo(id) =>
          if id <= maxId && id !in visited {
            return flags, id, ctr;
          }
      }
      next, k := -1, |records|;
    }

    /** dfs_bnode. It ends on every image, and marks only what index records lead to. When all
    nodes it meets are sound, it marks all of that; and when no node's record count is wrong,
    an empty result says that they are. A wrong record count ends the walk of the index node
    that meets it, without a trace in its result. */
    method Dfs(id: nat) returns (ret: Flags)
      requires Valid() && id <= maxId
      modifies this
      ensures Valid() && Marks(image, maxId, id, old(visited), visited)
      ensures Reports(image, maxId, id, old(visited), visited, ret)
      ensures Caused(image, visited - old(visited) + {id}, ret)
      decreases |Ids(maxId) - visited|, if id in visited then 1 else 0
    {
      hide Marks, Child, Ids, Reports, Underway, Chosen, AllReadable, Caused;
      ghost var before := visited;
      visited := visited + {id};
      IdsAre(maxId, id);
      Fewer(Ids(maxId), before, visited);
      MarksSelf(image, maxId, id, before);
      CausedHere(image, visited - before + {id}, id, {});
      match image(id)
      case Missing =>
        ReportsMissing(image, maxId, id, before);
        return EINVAL;
      case Node(kind, check, records) =>
        ret := check;
        if kind != Index {
          ReportsLeaf(image, maxId, id, before);
          return;
        }
        var next: int := 0;
        Starts(image, maxId, id, before);
        while next != -1
          invariant Valid() && next >= -1 && Marks(image, maxId, id, before, visited)
          invariant |Ids(maxId) - visited| <= |Ids(maxId) - (before + {id})| && before + {id} <= visited
          invariant Caused(image, visited - before + {id}, ret)
          invariant if next == -1 then Reports(image, maxId, id, before, visited, ret)
                    else Underway(image, maxId, id, before, visited, ret)
          decreases |Ids(maxId) - visited|, if next == -1 then 0 else 1
        {
          ghost var v, was := visited, ret;
          if INVALID_RECS_CNT in ret {
            Lost(image, maxId, id, before, v, ret);
            CausedLess(image, v - before + {id}, ret, ret - {INVALID_RECS_CNT});
            return ret - {INVALID_RECS_CNT};
          }
          var flags;
          ghost var k;
          flags, next, k := FirstNotVisited(records);
          ret := ret + flags;
          RecordFaults(records, k, flags);
          CausedRecords(image, id, v - before + {id}, was, flags);
          Choice(image, maxId, id, v, flags, next);
          if next > 0 {
            IsChild(image, maxId, id, next);
            var found := Dfs(next);
            ret := ret + found;
            GoesOn(image, maxId, id, before, v, next, visited, was, flags, found);
            MarksHas(image, maxId, next, v, visited);
            CausedBelow(image, id, before, v, next, visited, was + flags, found);
            IdsAre(maxId, next);
            Fewer(Ids(maxId), v, visited);
          } else {
            Ends(image, maxId, id, before, v, was, flags);
          }
        }
    }

    /** The walk of tree_structure_check, from the root. */
    method MarkTree(root: nat) returns (ret: Flags)
      requires visited == {} && root <= maxId
      modifies this
      ensures forall n :: n in visited ==> n == HEAD || Reachable(image, maxId, root, n)
      ensures (forall n :: Reachable(image, maxId, root, n) ==> Sound(image, n)) ==>
                ret == {} && forall n :: n in visited <==> n == HEAD || Reachable(image, maxId, root, n)
      ensures (forall n :: Reachable(image, maxId, root, n) ==> CountRight(image, n)) ==>
                (ret == {} <==> forall n :: Reachable(image, maxId, root, n) ==> Sound(image, n))
      ensures ret == {} ==> ((forall n :: Reachable(image, maxId, root, n) ==> Sound(image, n))
                             <==> forall n :: n in visited - {HEAD} + {root} ==> CountRight(image, n))
      ensures (forall n :: Reachable(image, maxId, root, n) ==> CountAtMost(image, n)) ==>
                ret == if image(root).Node? && image(root).kind != Index then image(root).check else {}
      ensures forall f :: f in ret ==> exists n :: Reachable(image, maxId, root, n) && f in Faults(image, n)
      ensures StopsAtFirst(image, maxId, root, {HEAD}) ==> ret == {} && visited == {HEAD, root, image(root).records[0].id}
    {
      hide Reachable, Sound, Closed, ChildrenIn, CountRight, CountAtMost, StopsAtFirst;
      visited := {HEAD};
      IdsAre(maxId, HEAD);
      ret := Dfs(root);
      if forall n :: Reachable(image, maxId, root, n) ==> Sound(image, n) {
        AllReachable(image, maxId, root, visited);
      }
      RootReached(image, maxId, root);
      if AllSound(image, visited - {HEAD} + {root}) {
        ClosedReachable(image, maxId, root, visited);
      }
      FaultReached(image, maxId, root, visited, ret);
      forall n | Sound(image, n) ensures CountRight(image, n) {
        SoundCount(image, n);
      }
    }
  }

  /** A wrong record count hides another fault: the root's first child has one, its second cannot be read, and the walk
  reports nothing and leaves the second unmarked. */
  method HidesFault() returns (w: Walk, ret: Flags)
    ensures ret == {} && Reachable(w.image, w.maxId, 1, 3) && w.image(3).Missing? && 3 !in w.visited
  {
    var records := [PointsTo(2), PointsTo(3)];
    w := new Walk(n => if n == 1 then Node(Index, {}, records) else if n == 2 then Node(Leaf, {INVALID_RECS_CNT}, []) else Missing, 3);
    ret := w.MarkTree(1);
    assert records[0] == PointsTo(2) && records[1] == PointsTo(3);
    assert Child(w.image, 3, 1, 3);
    assert PathTo(w.image, 3, [1, 3], 1, 3);
  }

  /** The error bits that a node gives by itself. */
  ghost function Faults(image: nat -> NodeImage, n: nat): Flags {
    match image(n)
    case Missing => EINVAL
    case Node(kind, check, records) =>
      check + (if kind == Index && Unreadable in records then {2} else {}) + (if kind == Index && BadKey in records then {6} else {})
  }

  /** Every bit of the result comes from one of the nodes. */
  ghost predicate Caused(image: nat -> NodeImage, ids: set<nat>, ret: Flags) {
    forall f :: f in ret ==> HasFault(image, ids, f)
  }

  ghost predicate HasFault(image: nat -> NodeImage, ids: set<nat>, f: nat) {
    exists n :: n in ids && f in Faults(image, n)
  }

  /** The node's own bits come from it, those of its records too. */
  lemma CausedHere(image: nat -> NodeImage, ids: set<nat>, id: nat, flags: Flags)
    requires id in ids
    requires flags == {} || (image(id).Node? && image(id).kind == Index && flags <= RecordBits(image(id).records))
    ensures Caused(image, ids, if image(id).Missing? then EINVAL else image(id).check) && Caused(image, ids, flags)
  {
    forall f | f in Faults(image, id) ensures HasFault(image, ids, f) {}
  }

  ghost function RecordBits(records: seq<RecordImage>): Flags {
    (if Unreadable in records then {2} else {}) + (if BadKey in records then {6} else {})
  }

  lemma RecordFaults(records: seq<RecordImage>, k: nat, flags: Flags)
    requires k <= |records| && flags <= {CORRUPTED_RECORD, CORRUPTED_STRUCTURE}
    requires CORRUPTED_RECORD in flags ==> exists j :: 0 <= j < k && records[j].Unreadable?
    requires CORRUPTED_STRUCTURE in flags ==> exists j :: 0 <= j < k && records[j].BadKey?
    ensures flags <= RecordBits(records)
  {
  }

  lemma CausedRecords(image: nat -> NodeImage, id: nat, ids: set<nat>, ret: Flags, flags: Flags)
    requires Caused(image, ids, ret) && id in ids
    requires image(id).Node? && image(id).kind == Index && flags <= RecordBits(image(id).records)
    ensures Caused(image, ids, ret + flags)
  {
    hide Faults;
    CausedHere(image, ids, id, flags);
  }

  lemma CausedBelow(image: nat -> NodeImage, id: nat, a: set<nat>, v: set<nat>, c: nat, v': set<nat>, ret: Flags, found: Flags)
    requires a + {id} <= v && v <= v' && c in v' && c !in v
    requires Caused(image, v - a + {id}, ret) && Caused(image, v' - v + {c}, found)
    ensures Caused(image, v' - a + {id}, ret + found)
  {
    hide Faults;
    forall f | f in ret + found ensures HasFault(image, v' - a + {id}, f) {
      if f in ret {
        assert HasFault(image, v - a + {id}, f);
      } else {
        assert HasFault(image, v' - v + {c}, f);
      }
    }
  }

  lemma CausedLess(image: nat -> NodeImage, ids: set<nat>, ret: Flags, ret': Flags)
    requires Caused(image, ids, ret) && ret' <= ret
    ensures Caused(image, ids, ret')
  {
  }

  lemma FaultReached(image: nat -> NodeImage, maxId: nat, root: nat, v: set<nat>, ret: Flags)
    requires Marks(image, maxId, root, {HEAD}, v) && Caused(image, v - {HEAD} + {root}, ret)
    ensures forall f :: f in ret ==> exists n :: Reachable(image, maxId, root, n) && f in Faults(image, n)
  {
    hide Reachable, Faults;
    RootReached(image, maxId, root);
    forall f | f in ret ensures exists n :: Reachable(image, maxId, root, n) && f in Faults(image, n) {
      assert HasFault(image, v - {HEAD} + {root}, f);
    }
  }

  /** The record leads to a node that is not yet marked. */
  predicate Leads(r: RecordImage, maxId: nat, visited: set<nat>) {
    r.PointsTo? && r.id <= maxId && r.id !in visited
  }

  /** The first record of an index node leads to a leaf, not yet marked, whose only fault is its record count. */
  predicate StopsAtFirst(image: nat -> NodeImage, maxId: nat, id: nat, visited: set<nat>) {
    && image(id).Node? && image(id).kind == Index && image(id).check == {} && |image(id).records| > 0
    && Leads(image(id).records[0], maxId, visited + {id})
    && var child := image(image(id).records[0].id);
       child.Node? && child.kind != Index && child.check == {INVALID_RECS_CNT}
  }

  ghost function Ids(maxId: nat): set<nat> {
    if maxId == 0 then {0} else Ids(maxId - 1) + {maxId}
  }

  lemma {:induction false} IdsAre(maxId: nat, i: nat)
    ensures i in Ids(maxId) <==> i <= maxId
  {
    if maxId > 0 {
      IdsAre(maxId - 1, i);
    }
  }

  predicate AllReadable(records: seq<RecordImage>) {
    forall r :: r in records ==> r.PointsTo?
  }

  /** The node can be read, no check complains about it, and its records can be read if it is an index node. */
  ghost predicate Sound(image: nat -> NodeImage, n: nat) {
    image(n).Node? && image(n).check == {} && (image(n).kind == Index ==> AllReadable(image(n).records))
  }

  /** A bit of -EINVAL that the walk never clears. */
  const OTHER: nat := 1

  /** The record count of the node is not wrong; it has no fault but a wrong one. */
  ghost predicate CountRight(image: nat -> NodeImage, n: nat) {
    image(n).Node? ==> INVALID_RECS_CNT !in image(n).check
  }

  ghost predicate CountAtMost(image: nat -> NodeImage, n: nat) {
    image(n).Node? && image(n).check <= {INVALID_RECS_CNT} && (image(n).kind == Index ==> AllReadable(image(n).records))
  }

  lemma SoundCount(image: nat -> NodeImage, n: nat)
    requires Sound(image, n)
    ensures CountRight(image, n)
  {
  }

  ghost predicate NoCounts(image: nat -> NodeImage, ids: set<nat>) {
    forall n :: n in ids ==> CountRight(image, n)
  }

  ghost predicate OnlyCounts(image: nat -> NodeImage, ids: set<nat>) {
    forall n :: n in ids ==> CountAtMost(image, n)
  }

  ghost predicate AllSound(image: nat -> NodeImage, ids: set<nat>) {
    forall n :: n in ids ==> Sound(image, n)
  }

  /** An index record of node `n` leads to node `c`. */
  ghost predicate Child(image: nat -> NodeImage, maxId: nat, n: nat, c: nat) {
    0 < c <= maxId && image(n).Node? && image(n).kind == Index && PointsTo(c) in image(n).records
  }

  ghost predicate ChildrenIn(image: nat -> NodeImage, maxId: nat, n: nat, ids: set<nat>) {
    forall c :: Child(image, maxId, n, c) ==> c in ids
  }

  ghost predicate Path(image: nat -> NodeImage, maxId: nat, p: seq<nat>) {
    forall k :: 0 < k < |p| ==> Child(image, maxId, p[k - 1], p[k])
  }

  ghost predicate PathTo(image: nat -> NodeImage, maxId: nat, p: seq<nat>, a: nat, b: nat) {
    |p| > 0 && p[0] == a && p[|p| - 1] == b && Path(image, maxId, p)
  }

  /** Index records lead from node `a` to node `b`. */
  ghost predicate Reachable(image: nat -> NodeImage, maxId: nat, a: nat, b: nat) {
    exists p :: PathTo(image, maxId, p, a, b)
  }

  /** All of `a` and `id` is marked in `b`, and else only what `id` leads to. */
  ghost predicate Marks(image: nat -> NodeImage, maxId: nat, id: nat, a: set<nat>, b: set<nat>) {
    a + {id} <= b && forall n :: n in b && n !in a ==> Reachable(image, maxId, id, n)
  }

  /** The children of the nodes `ids` are marked. */
  ghost predicate Closed(image: nat -> NodeImage, maxId: nat, ids: set<nat>, marked: set<nat>) {
    forall n :: n in ids ==> ChildrenIn(image, maxId, n, marked)
  }

  lemma MarksSelf(image: nat -> NodeImage, maxId: nat, id: nat, a: set<nat>)
    ensures Marks(image, maxId, id, a, a + {id})
  {
    assert PathTo(image, maxId, [id], id, id);
  }

  lemma SoundSelf(image: nat -> NodeImage, ids: set<nat>, id: nat)
    requires id in ids
    ensures AllSound(image, ids) ==> Sound(image, id)
  {
  }

  lemma CountsSelf(image: nat -> NodeImage, maxId: nat, ids: set<nat>, id: nat, a: set<nat>)
    requires id in ids
    ensures NoCounts(image, ids) ==> CountRight(image, id)
    ensures OnlyCounts(image, ids) ==> CountAtMost(image, id)
    ensures StopsAtFirst(image, maxId, id, a) ==> image(id).Node? && image(id).kind == Index
  {
  }

  lemma LeafTells(image: nat -> NodeImage, id: nat, a: set<nat>)
    requires image(id).Node? && image(id).kind != Index
    ensures image(id).check == {} ==> AllSound(image, a + {id} - a + {id})
  {
  }

  lemma LeafDone(image: nat -> NodeImage, maxId: nat, id: nat, a: set<nat>)
    requires image(id).Node? && image(id).kind != Index
    ensures AllSound(image, a + {id} - a + {id}) ==> image(id).check == {} && Closed(image, maxId, a + {id} - a + {id}, a + {id})
  {
    SoundSelf(image, a + {id} - a + {id}, id);
  }

  lemma GoodStart(image: nat -> NodeImage, maxId: nat, id: nat, a: set<nat>)
    requires image(id).Node?
    ensures Good(image, maxId, id, a, a + {id}, image(id).check)
  {
    SoundSelf(image, a + {id} - a + {id}, id);
  }

  /** What an empty result, or one with a wrong record count only, says of the nodes marked so far. */
  ghost predicate Tells(image: nat -> NodeImage, id: nat, a: set<nat>, v: set<nat>, ret: Flags) {
    && (NoCounts(image, v - a + {id}) ==>
          (INVALID_RECS_CNT in ret ==> OTHER in ret) && (ret == {} ==> AllSound(image, v - a - {id}) && image(id).Node? && image(id).check == {}))
    && (OnlyCounts(image, v - a + {id}) ==> ret <= {INVALID_RECS_CNT})
  }

  lemma TellsStart(image: nat -> NodeImage, id: nat, a: set<nat>)
    requires image(id).Node?
    ensures Tells(image, id, a, a + {id}, image(id).check)
  {
    CountsSelf(image, 0, a + {id} - a + {id}, id, a);
  }

  lemma TellsLost(image: nat -> NodeImage, id: nat, a: set<nat>, v: set<nat>, ret: Flags)
    requires Tells(image, id, a, v, ret) && INVALID_RECS_CNT in ret
    ensures NoCounts(image, v - a + {id}) ==> ret - {INVALID_RECS_CNT} != {}
    ensures OnlyCounts(image, v - a + {id}) ==> ret - {INVALID_RECS_CNT} == {} && image(id).Node?
  {
    if NoCounts(image, v - a + {id}) {
      assert OTHER in ret - {INVALID_RECS_CNT};
    }
    CountsSelf(image, 0, v - a + {id}, id, a);
  }

  lemma ReadableTells(image: nat -> NodeImage, id: nat, a: set<nat>, v: set<nat>, ret: Flags, flags: Flags)
    requires Tells(image, id, a, v, ret) && image(id).Node? && image(id).kind == Index
    requires AllReadable(image(id).records) ==> flags == {}
    requires flags <= {CORRUPTED_RECORD, CORRUPTED_STRUCTURE}
    ensures Tells(image, id, a, v, ret + flags)
  {
    CountsSelf(image, 0, v - a + {id}, id, a);
  }

  lemma TellsMore(image: nat -> NodeImage, id: nat, a: set<nat>, v: set<nat>, c: nat, v': set<nat>, ret: Flags, found: Flags)
    requires Tells(image, id, a, v, ret) && a + {id} <= v <= v' && c in v' && c !in v
    requires NoCounts(image, v' - v + {c}) ==>
               (INVALID_RECS_CNT in found ==> OTHER in found) && (found == {} ==> AllSound(image, v' - v + {c}))
    requires OnlyCounts(image, v' - v + {c}) ==> image(c).Node? && found == if image(c).kind == Index then {} else image(c).check
    ensures Tells(image, id, a, v', ret + found)
  {
    hide Sound, CountRight;
    if OnlyCounts(image, v' - a + {id}) {
      assert OnlyCounts(image, v - a + {id}) && OnlyCounts(image, v' - v + {c});
      assert CountAtMost(image, c);
    }
    if NoCounts(image, v' - a + {id}) {
      assert NoCounts(image, v - a + {id}) && NoCounts(image, v' - v + {c});
      if ret + found == {} {
        assert ret == {} && found == {};
        forall n | n in v' - a - {id} ensures Sound(image, n) {
          assert n in v - a - {id} || n in v' - v + {c};
        }
      }
    }
  }

  lemma TellsEnd(image: nat -> NodeImage, id: nat, a: set<nat>, v: set<nat>, ret: Flags)
    requires Tells(image, id, a, v, ret) && image(id).Node? && INVALID_RECS_CNT !in ret && (ret == {} ==> AllReadable(image(id).records))
    ensures NoCounts(image, v - a + {id}) ==> (ret == {} ==> AllSound(image, v - a + {id}))
    ensures OnlyCounts(image, v - a + {id}) ==> ret == {}
  {
    if ret == {} && NoCounts(image, v - a + {id}) {
      forall n | n in v - a + {id} ensures Sound(image, n) {
        assert n == id || n in v - a - {id};
      }
    }
  }

  lemma NotGood(image: nat -> NodeImage, maxId: nat, id: nat, a: set<nat>, v: set<nat>, ret: Flags)
    requires Good(image, maxId, id, a, v, ret) && ret != {}
    ensures !AllSound(image, v - a + {id})
  {
  }

  lemma ReadableGood(image: nat -> NodeImage, maxId: nat, id: nat, a: set<nat>, v: set<nat>, ret: Flags, flags: Flags)
    requires Good(image, maxId, id, a, v, ret) && image(id).Node? && image(id).kind == Index && (AllReadable(image(id).records) ==> flags == {})
    ensures Good(image, maxId, id, a, v, ret + flags)
  {
    SoundSelf(image, v - a + {id}, id);
  }

  lemma IsChild(image: nat -> NodeImage, maxId: nat, id: nat, c: nat)
    requires 0 < c <= maxId && image(id).Node? && image(id).kind == Index && PointsTo(c) in image(id).records
    ensures Child(image, maxId, id, c)
  {
  }

  lemma MarksHas(image: nat -> NodeImage, maxId: nat, id: nat, a: set<nat>, b: set<nat>)
    requires Marks(image, maxId, id, a, b)
    ensures id in b && a <= b
  {
  }

  lemma GoodEnd(image: nat -> NodeImage, maxId: nat, id: nat, a: set<nat>, v: set<nat>, ret: Flags)
    requires Good(image, maxId, id, a, v, ret) && ChildrenIn(image, maxId, id, v)
    ensures AllSound(image, v - a + {id}) ==> ret == {} && Closed(image, maxId, v - a + {id}, v)
  {
  }

  /** After a child of node `id` was walked. */
  lemma MarksMore(image: nat -> NodeImage, maxId: nat, id: nat, a: set<nat>, v: set<nat>, c: nat, v': set<nat>)
    requires Marks(image, maxId, id, a, v) && Marks(image, maxId, c, v, v') && Child(image, maxId, id, c)
    ensures Marks(image, maxId, id, a, v') && v <= v' && a + {id} <= v && c in v'
  {
    hide Reachable, Child;
    forall n | n in v' && n !in a ensures Reachable(image, maxId, id, n) {
      if n !in v {
        ReachMore(image, maxId, id, c, n);
      }
    }
  }

  lemma SoundParts(image: nat -> NodeImage, id: nat, a: set<nat>, v: set<nat>, c: nat, v': set<nat>)
    requires a + {id} <= v <= v' && c in v' && c !in v && AllSound(image, v' - a + {id})
    ensures AllSound(image, v - a + {id}) && AllSound(image, v' - v + {c})
  {
    hide Sound;
  }

  lemma ClosedMore(image: nat -> NodeImage, maxId: nat, id: nat, a: set<nat>, v: set<nat>, c: nat, v': set<nat>)
    requires a + {id} <= v <= v' && Closed(image, maxId, v - a - {id}, v) && Closed(image, maxId, v' - v + {c}, v')
    ensures Closed(image, maxId, v' - a - {id}, v')
  {
    hide Child;
    forall n | n in v' - a - {id} ensures ChildrenIn(image, maxId, n, v') {
      if n in v {
        assert n in v - a - {id};
      } else {
        assert n in v' - v + {c};
      }
    }
  }

  /** The result so far, and what the marked nodes lead to, when all of them are sound. */
  ghost predicate Good(image: nat -> NodeImage, maxId: nat, id: nat, a: set<nat>, v: set<nat>, ret: Flags) {
    AllSound(image, v - a + {id}) ==> ret == {} && Closed(image, maxId, v - a - {id}, v)
  }

  lemma AfterChild(image: nat -> NodeImage, maxId: nat, id: nat, a: set<nat>, v: set<nat>, c: nat, v': set<nat>, ret: Flags, found: Flags)
    requires Marks(image, maxId, id, a, v) && Marks(image, maxId, c, v, v') && Child(image, maxId, id, c) && c !in v
    requires Good(image, maxId, id, a, v, ret)
    requires AllSound(image, v' - v + {c}) ==> found == {} && Closed(image, maxId, v' - v + {c}, v')
    ensures Marks(image, maxId, id, a, v') && Good(image, maxId, id, a, v', ret + found)
  {
    hide Marks, AllSound, Closed, Child;
    MarksMore(image, maxId, id, a, v, c, v');
    if AllSound(image, v' - a + {id}) {
      SoundParts(image, id, a, v, c, v');
      ClosedMore(image, maxId, id, a, v, c, v');
    }
  }

  /* ---- the result of a walk ---- */

  /** What the result `ret` of the walk from `id` tells, which found `a` marked and left `b`. */
  ghost predicate Reports(image: nat -> NodeImage, maxId: nat, id: nat, a: set<nat>, b: set<nat>, ret: Flags) {
    // Sound nodes give no error, and all that they lead to is marked.
    && (AllSound(image, b - a + {id}) ==> ret == {} && Closed(image, maxId, b - a + {id}, b))
    // Where no record count is wrong, no error says that the nodes are sound.
    && (NoCounts(image, b - a + {id}) ==>
          (INVALID_RECS_CNT in ret ==> OTHER in ret) && (ret == {} ==> AllSound(image, b - a + {id})))
    // Wrong record counts alone are reported for a leaf only.
    && (OnlyCounts(image, b - a + {id}) ==> image(id).Node? && ret == if image(id).kind == Index then {} else image(id).check)
    && (image(id).Node? && image(id).kind != Index ==> ret == image(id).check && b == a + {id})
    // One at the first child ends the walk.
    && (StopsAtFirst(image, maxId, id, a) ==> ret == {} && b == a + {id, image(id).records[0].id})
    && (image(id).Node? && image(id).kind == Index && image(id).check == {INVALID_RECS_CNT} ==> ret == {})
  }

  /** The same for an index node whose children are not yet all walked. */
  ghost predicate Underway(image: nat -> NodeImage, maxId: nat, id: nat, a: set<nat>, v: set<nat>, ret: Flags) {
    && image(id).Node? && image(id).kind == Index
    && Good(image, maxId, id, a, v, ret) && Tells(image, id, a, v, ret)
    && (StopsAtFirst(image, maxId, id, a) ==>
          if v == a + {id} then ret == {} else v == a + {id, image(id).records[0].id} && ret == {INVALID_RECS_CNT})
    && (image(id).check == {INVALID_RECS_CNT} ==> ret == {INVALID_RECS_CNT})
  }

  lemma ReportsMissing(image: nat -> NodeImage, maxId: nat, id: nat, a: set<nat>)
    requires image(id).Missing?
    ensures Reports(image, maxId, id, a, a + {id}, EINVAL)
  {
    SoundSelf(image, a + {id} - a + {id}, id);
    CountsSelf(image, maxId, a + {id} - a + {id}, id, a);
  }

  lemma ReportsLeaf(image: nat -> NodeImage, maxId: nat, id: nat, a: set<nat>)
    requires image(id).Node? && image(id).kind != Index
    ensures Reports(image, maxId, id, a, a + {id}, image(id).check)
  {
    LeafDone(image, maxId, id, a);
    CountsSelf(image, maxId, a + {id} - a + {id}, id, a);
    LeafTells(image, id, a);
  }

  lemma Starts(image: nat -> NodeImage, maxId: nat, id: nat, a: set<nat>)
    requires image(id).Node? && image(id).kind == Index
    ensures Underway(image, maxId, id, a, a + {id}, image(id).check)
  {
    GoodStart(image, maxId, id, a);
    TellsStart(image, id, a);
  }

  /** A wrong record count found below a node ends its walk and is cleared. */
  lemma Lost(image: nat -> NodeImage, maxId: nat, id: nat, a: set<nat>, v: set<nat>, ret: Flags)
    requires Underway(image, maxId, id, a, v, ret) && INVALID_RECS_CNT in ret
    ensures Reports(image, maxId, id, a, v, ret - {INVALID_RECS_CNT})
  {
    hide Good, Tells, AllSound, NoCounts, OnlyCounts, Closed;
    NotGood(image, maxId, id, a, v, ret);
    TellsLost(image, id, a, v, ret);
  }

  /** What get_first_not_visited_child returned. */
  ghost predicate Chosen(image: nat -> NodeImage, maxId: nat, id: nat, v: set<nat>, flags: Flags, next: int)
    requires image(id).Node?
  {
    && (AllReadable(image(id).records) ==> flags == {})
    && flags <= {CORRUPTED_RECORD, CORRUPTED_STRUCTURE} && (next == -1 && flags == {} ==> AllReadable(image(id).records))
    && (|image(id).records| > 0 && Leads(image(id).records[0], maxId, v) ==> flags == {} && next == image(id).records[0].id)
    && (next == -1 ==> ChildrenIn(image, maxId, id, v))
  }

  lemma Choice(image: nat -> NodeImage, maxId: nat, id: nat, v: set<nat>, flags: Flags, next: int)
    requires image(id).Node?
    requires AllReadable(image(id).records) ==> flags == {}
    requires flags <= {CORRUPTED_RECORD, CORRUPTED_STRUCTURE} && (next == -1 && flags == {} ==> AllReadable(image(id).records))
    requires |image(id).records| > 0 && Leads(image(id).records[0], maxId, v) ==> flags == {} && next == image(id).records[0].id
    requires next == -1 ==> forall c: nat :: PointsTo(c) in image(id).records && c <= maxId ==> c in v
    ensures Chosen(image, maxId, id, v, flags, next)
  {
  }

  lemma GoesOn(image: nat -> NodeImage, maxId: nat, id: nat, a: set<nat>, v: set<nat>, c: nat, v': set<nat>,
               ret: Flags, flags: Flags, found: Flags)
    requires Underway(image, maxId, id, a, v, ret) && INVALID_RECS_CNT !in ret && Chosen(image, maxId, id, v, flags, c)
    requires Marks(image, maxId, id, a, v) && Child(image, maxId, id, c) && c !in v
    requires Marks(image, maxId, c, v, v') && Reports(image, maxId, c, v, v', found)
    ensures Underway(image, maxId, id, a, v', ret + flags + found) && Marks(image, maxId, id, a, v')
  {
    hide Good, Tells, AllSound, NoCounts, OnlyCounts, Closed, Marks, Child, ChildrenIn;
    MarksHas(image, maxId, id, a, v);
    MarksHas(image, maxId, c, v, v');
    ReadableGood(image, maxId, id, a, v, ret, flags);
    ReadableTells(image, id, a, v, ret, flags);
    AfterChild(image, maxId, id, a, v, c, v', ret + flags, found);
    TellsMore(image, id, a, v, c, v', ret + flags, found);
  }

  lemma Ends(image: nat -> NodeImage, maxId: nat, id: nat, a: set<nat>, v: set<nat>, ret: Flags, flags: Flags)
    requires Underway(image, maxId, id, a, v, ret) && INVALID_RECS_CNT !in ret && Chosen(image, maxId, id, v, flags, -1)
    ensures Reports(image, maxId, id, a, v, ret + flags)
  {
    hide Good, Tells, AllSound, NoCounts, OnlyCounts, Closed, ChildrenIn;
    ReadableGood(image, maxId, id, a, v, ret, flags);
    ReadableTells(image, id, a, v, ret, flags);
    GoodEnd(image, maxId, id, a, v, ret + flags);
    TellsEnd(image, id, a, v, ret + flags);
  }

  /** A marked set that is closed holds all that the root leads to. */
  lemma AllReachable(image: nat -> NodeImage, maxId: nat, root: nat, v: set<nat>)
    requires Marks(image, maxId, root, {HEAD}, v)
    requires AllSound(image, v - {HEAD} + {root}) ==> Closed(image, maxId, v - {HEAD} + {root}, v)
    requires forall n :: Reachable(image, maxId, root, n) ==> Sound(image, n)
    ensures AllSound(image, v - {HEAD} + {root}) && forall n :: Reachable(image, maxId, root, n) ==> n in v
  {
    RootReached(image, maxId, root);
    forall n | Reachable(image, maxId, root, n) ensures n in v {
      var p :| PathTo(image, maxId, p, root, n);
      PathMarked(image, maxId, root, v, p, |p| - 1);
    }
  }

  lemma ClosedReachable(image: nat -> NodeImage, maxId: nat, root: nat, v: set<nat>)
    requires Marks(image, maxId, root, {HEAD}, v) && AllSound(image, v - {HEAD} + {root})
    requires Closed(image, maxId, v - {HEAD} + {root}, v)
    ensures forall n :: Reachable(image, maxId, root, n) ==> Sound(image, n)
  {
    hide Sound;
    forall n | Reachable(image, maxId, root, n) ensures Sound(image, n) {
      var p :| PathTo(image, maxId, p, root, n);
      PathMarked(image, maxId, root, v, p, |p| - 1);
    }
  }

  lemma RootReached(image: nat -> NodeImage, maxId: nat, root: nat)
    ensures Reachable(image, maxId, root, root)
  {
    assert PathTo(image, maxId, [root], root, root);
  }

  lemma {:induction false} PathMarked(image: nat -> NodeImage, maxId: nat, root: nat, v: set<nat>, p: seq<nat>, k: nat)
    requires Closed(image, maxId, v - {HEAD} + {root}, v) && root in v
    requires k < |p| && p[0] == root && Path(image, maxId, p)
    ensures p[k] in v && p[k] in v - {HEAD} + {root}
  {
    if k > 0 {
      PathMarked(image, maxId, root, v, p, k - 1);
      assert Child(image, maxId, p[k - 1], p[k]);
    }
  }

  /** From a child's reach to its parent's. */
  lemma ReachMore(image: nat -> NodeImage, maxId: nat, a: nat, c: nat, b: nat)
    requires Child(image, maxId, a, c) && Reachable(image, maxId, c, b)
    ensures Reachable(image, maxId, a, b)
  {
    var p :| PathTo(image, maxId, p, c, b);
    var q := [a] + p;
    forall k | 0 < k < |q| ensures Child(image, maxId, q[k - 1], q[k]) {
      assert q[k] == p[k - 1];
      if k > 1 {
        assert q[k - 1] == p[k - 2] && Child(image, maxId, p[k - 1 - 1], p[k - 1]);
      }
    }
    assert PathTo(image, maxId, q, a, b);
  }

  lemma Fewer(all: set<nat>, v: set<nat>, v': set<nat>)
    requires v <= v'
    ensures |all - v'| <= |all - v|
    ensures (exists x :: x in all && x in v' && x !in v) ==> |all - v'| < |all - v|
  {
    assert all - v' <= all - v;
    SubsetSize(all - v', all - v);
  }

  lemma {:induction false} SubsetSize(a: set<nat>, b: set<nat>)
    requires a <= b
    ensures |a| <= |b| && (a != b ==> |a| < |b|)
    decreases a
  {
    if a != {} {
      var x :| x in a;
      SubsetSize(a - {x}, b - {x});
    } else if b != {} {
      var y :| y in b;
      assert b == (b - {y}) + {y};
    }
  }
}
