/** The bytes of a tree node as a node of the tree (extractor/vdfs-tools/lib/btree.c).

However keys and values are read from a record, as long as its length is that of its bytes: the operations on pages
are those on nodes. */
module PageNodes {
  import opened Octets
  import opened Nodes
  import opened Levels
  import opened Pages
  import opened Bnodes

  /** How a record is read from its bytes. */
  type View = Bytes -> Rec

  ghost predicate ViewOk(view: View) {
    forall r :: view(r).recLen == |r|
  }

  function Viewed(view: View, recs: seq<Bytes>): (s: seq<Rec>)
    ensures |s| == |recs| && forall k :: 0 <= k < |recs| ==> s[k] == view(recs[k])
  {
    seq(|recs|, k requires 0 <= k < |recs| => view(recs[k]))
  }

  /** The node that a page is. */
  function NodeOf(view: View, leaf: bool, b: Bytes, recs: seq<Bytes>): Node
    requires |b| >= HEADER
  {
    Node(Viewed(view, recs), Half(b, FREE_SPACE), Links(b).0, Links(b).1, leaf)
  }

  lemma {:induction false} UsedIsTotal(view: View, recs: seq<Bytes>)
    requires ViewOk(view)
    ensures Used(Viewed(view, recs)) == Total(recs) + SLOT * |recs|
  {
    if recs != [] {
      var n := |recs| - 1;
      UsedIsTotal(view, recs[..n]);
      assert Viewed(view, recs) == Viewed(view, recs[..n]) + [view(recs[n])];
      UsedAppend(Viewed(view, recs[..n]), [view(recs[n])]);
      UsedOne(view(recs[n]));
    }
  }

  lemma UsedOne(r: Rec)
    ensures Used([r]) == r.recLen + SLOT
  {
    assert UsedTo([r], 1) == UsedTo([r], 0) + r.recLen + SLOT;
  }

  /** The free count of a page is the one that the tree's invariant asks of its node. */
  lemma NodeFree(view: View, leaf: bool, b: Bytes, recs: seq<Bytes>)
    requires ViewOk(view) && PageOk(b, recs)
    ensures NodeOf(view, leaf, b, recs).free == |b| - OVERHEAD - Used(NodeOf(view, leaf, b, recs).recs) >= 0
  {
    hide Laid, Half;
    FreeIsExact(b, recs);
    UsedIsTotal(view, recs);
  }

  lemma FreshNode(view: View, leaf: bool, b: Bytes)
    requires |b| >= HEADER && Links(b) == (NO_NODE, NO_NODE) && Half(b, FREE_SPACE) + OVERHEAD == |b|
    ensures NodeOf(view, leaf, b, []) == EmptyNode(|b|, leaf)
  {
  }

  lemma InsertedNode(view: View, leaf: bool, b: Bytes, b': Bytes, recs: seq<Bytes>, pos: nat, r: Bytes)
    requires ViewOk(view) && PageOk(b, recs) && pos <= |recs| && PageOk(b', InsertAt(recs, pos, r))
    requires |b'| == |b| && Links(b') == Links(b)
    ensures NodeOf(view, leaf, b', InsertAt(recs, pos, r)) == WithRecord(NodeOf(view, leaf, b, recs), pos, view(r))
  {
    hide Laid, Half, Used;
    NodeFree(view, leaf, b, recs);
    NodeFree(view, leaf, b', InsertAt(recs, pos, r));
    assert Viewed(view, InsertAt(recs, pos, r)) == InsertAt(Viewed(view, recs), pos, view(r));
    UsedInsert(Viewed(view, recs), pos, view(r));
  }

  lemma DeletedNode(view: View, leaf: bool, b: Bytes, b': Bytes, recs: seq<Bytes>, del: nat)
    requires ViewOk(view) && PageOk(b, recs) && del < |recs| && PageOk(b', RemoveAt(recs, del))
    requires |b'| == |b| && Links(b') == Links(b)
    ensures NodeOf(view, leaf, b', RemoveAt(recs, del)) == WithoutRecord(NodeOf(view, leaf, b, recs), del)
  {
    hide Laid, Half, Used;
    NodeFree(view, leaf, b, recs);
    NodeFree(view, leaf, b', RemoveAt(recs, del));
    assert Viewed(view, RemoveAt(recs, del)) == RemoveAt(Viewed(view, recs), del);
    UsedRemove(Viewed(view, recs), del);
  }

  lemma MergedNode(view: View, leaf: bool, b: Bytes, rb: Bytes, b': Bytes, recs: seq<Bytes>, rrecs: seq<Bytes>)
    requires ViewOk(view) && PageOk(b, recs) && PageOk(rb, rrecs) && PageOk(b', recs + rrecs)
    requires |b'| == |b| == |rb| && Links(b') == (Links(b).0, Links(rb).1)
    ensures var (left, right) := (NodeOf(view, leaf, b, recs), NodeOf(view, leaf, rb, rrecs));
      NodeOf(view, leaf, b', recs + rrecs)
      == left.(recs := left.recs + right.recs, free := left.free - Used(right.recs), next := right.next)
  {
    hide Laid, Half, Used;
    NodeFree(view, leaf, b, recs);
    NodeFree(view, leaf, b', recs + rrecs);
    assert Viewed(view, recs + rrecs) == Viewed(view, recs) + Viewed(view, rrecs);
    UsedAppend(Viewed(view, recs), Viewed(view, rrecs));
  }
}
