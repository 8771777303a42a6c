/** Records and nodes of a VDFS4 B+tree, and the algorithms that look at one node
only: binary search and the distribution of a full node over two nodes
(extractor/vdfs-tools/lib/btree.c). */
module Nodes {
  import opened Octets
  import opened Keys
  import opened Order

  /** The part of a record behind its key: the bytes of a leaf record, or a child's id. */
  datatype Value = Data(recordType: nat, bytes: seq<Byte>) | Child(id: nat)

  /** A record: its key, the stored key length, the stored record length and its value. */
  datatype Rec = Rec(key: Key, keyLen: nat, recLen: nat, val: Value)

  /** sizeof(vdfs4_bt_off_t) and sizeof(struct generic_index_value). */
  const SLOT: nat := 4
  const INDEX_VALUE: nat := 4

  /** Node bytes that hold neither records nor their slots: the 32-byte descriptor,
  the slot of the free space and the four bytes kept for the CRC. */
  const OVERHEAD: nat := 40

  /** VDFS4_INVALID_NODE_ID, which is also the id of the head node. */
  const NO_NODE: nat := 0

  datatype Node = Node(recs: seq<Rec>, free: int, prev: nat, next: nat, leaf: bool)

  /** Bytes taken by the first `n` records with their slots. */
  function UsedTo(recs: seq<Rec>, n: nat): nat
    requires n <= |recs|
  {
    if n == 0 then 0 else UsedTo(recs, n - 1) + recs[n - 1].recLen + SLOT
  }

  function Used(recs: seq<Rec>): nat {
    UsedTo(recs, |recs|)
  }

  /** Every record with its slot, and every index record made from its key, takes
  at most an eighth of a node. */
  ghost predicate Bounded(r: Rec, size: nat) {
    r.keyLen <= r.recLen && 8 * (r.recLen + SLOT) <= size && 8 * (r.keyLen + INDEX_VALUE + SLOT) <= size
  }

  ghost predicate AllBounded(recs: seq<Rec>, size: nat) {
    forall i :: 0 <= i < |recs| ==> Bounded(recs[i], size)
  }

  /** What vdfs4_init_new_node_descr leaves in a node. */
  function EmptyNode(size: nat, leaf: bool): Node {
    Node([], size - OVERHEAD, NO_NODE, NO_NODE, leaf)
  }

  ghost predicate NodeOk(nd: Node, size: nat, leaf: bool) {
    && |nd.recs| > 0
    && nd.leaf == leaf
    && nd.free == size - OVERHEAD - Used(nd.recs)
    && nd.free >= 0
    && AllBounded(nd.recs, size)
  }

  ghost predicate Sorted(cmp: CmpFn, f: seq<Rec>) {
    forall i, j :: 0 <= i < j < |f| ==> cmp(f[i].key, f[j].key) < 0
  }

  /** `g` is the place of the greatest record not above `key`. */
  ghost predicate IsFloor(cmp: CmpFn, f: seq<Rec>, key: Key, g: int) {
    && 0 <= g < |f|
    && (forall j :: 0 <= j <= g ==> cmp(f[j].key, key) <= 0)
    && (forall j :: g < j < |f| ==> cmp(f[j].key, key) > 0)
  }

  function InsertAt<T>(s: seq<T>, p: nat, x: T): seq<T>
    requires p <= |s|
  {
    seq(|s| + 1, i requires 0 <= i <= |s| => if i < p then s[i] else if i == p then x else s[i - 1])
  }

  function RemoveAt<T>(s: seq<T>, p: nat): seq<T>
    requires p < |s|
  {
    seq(|s| - 1, i requires 0 <= i < |s| - 1 => if i < p then s[i] else s[i + 1])
  }

  lemma {:induction false} UsedToPrefix(a: seq<Rec>, b: seq<Rec>, n: nat)
    requires n <= |a| && n <= |b| && a[..n] == b[..n]
    ensures UsedTo(a, n) == UsedTo(b, n)
  {
    if n > 0 {
      assert a[..n][n - 1] == b[..n][n - 1];
      assert a[..n - 1] == a[..n][..n - 1] == b[..n][..n - 1] == b[..n - 1];
      UsedToPrefix(a, b, n - 1);
    }
  }

  lemma {:induction false} UsedToAppend(a: seq<Rec>, b: seq<Rec>, n: nat)
    requires n <= |b|
    ensures UsedTo(a + b, |a| + n) == Used(a) + UsedTo(b, n)
  {
    if n == 0 {
      assert (a + b)[..|a|] == a[..|a|];
      UsedToPrefix(a + b, a, |a|);
    } else {
      UsedToAppend(a, b, n - 1);
      assert (a + b)[|a| + n - 1] == b[n - 1];
    }
  }

  lemma UsedAppend(a: seq<Rec>, b: seq<Rec>)
    ensures Used(a + b) == Used(a) + Used(b)
  {
    UsedToAppend(a, b, |b|);
  }

  lemma {:induction false} UsedMonotone(s: seq<Rec>, m: nat, n: nat)
    requires m <= n <= |s|
    ensures UsedTo(s, m) <= UsedTo(s, n)
  {
    if m < n {
      UsedMonotone(s, m, n - 1);
    }
  }

  lemma UsedInsert(s: seq<Rec>, p: nat, r: Rec)
    requires p <= |s|
    ensures Used(InsertAt(s, p, r)) == Used(s) + r.recLen + SLOT
  {
    var a, b := s[..p], s[p..];
    UsedAppend(a + [r], b);
    UsedAppend(a, [r]);
    assert Used([r]) == UsedTo([r], 0) + r.recLen + SLOT;
    UsedAppend(a, b);
    assert a + b == s;
    assert InsertAt(s, p, r) == (a + [r]) + b;
  }

  lemma UsedRemove(s: seq<Rec>, p: nat)
    requires p < |s|
    ensures Used(RemoveAt(s, p)) == Used(s) - s[p].recLen - SLOT
  {
    UsedInsert(RemoveAt(s, p), p, s[p]);
    assert InsertAt(RemoveAt(s, p), p, s[p]) == s;
  }

  /** The records of a sorted sequence up to one not above `key` are not above it,
  those from one above `key` on are above it. */
  lemma FloorFromNeighbours(cmp: CmpFn, f: seq<Rec>, key: Key, g: int)
    requires TotalOrder(cmp) && Sorted(cmp, f)
    requires 0 <= g < |f| && cmp(f[g].key, key) <= 0
    requires g + 1 < |f| ==> cmp(f[g + 1].key, key) > 0
    ensures IsFloor(cmp, f, key, g)
  {
    forall j | 0 <= j < g ensures cmp(f[j].key, key) <= 0 {
      Trans(cmp, f[j].key, f[g].key, key);
    }
    forall j | g < j < |f| ensures cmp(f[j].key, key) > 0 {
      Flip(cmp, f[g + 1].key, key);
      if j > g + 1 {
        Trans(cmp, key, f[g + 1].key, f[j].key);
      }
      Flip(cmp, f[j].key, key);
    }
  }

  lemma FloorUnique(cmp: CmpFn, f: seq<Rec>, key: Key, g: int, h: int)
    requires IsFloor(cmp, f, key, g) && IsFloor(cmp, f, key, h)
    ensures g == h
  {
    var atG, atH := f[g].key, f[h].key;
  }

  /** Binary search in one node: the place of the greatest record not above `key`,
  or -1 (the source's ENOENT) exactly when the first record is above it. */
  method BinarySearch(cmp: CmpFn, recs: seq<Rec>, key: Key) returns (pos: int)
    requires TotalOrder(cmp) && Sorted(cmp, recs) && |recs| > 0
    ensures pos == -1 <==> cmp(recs[0].key, key) > 0
    ensures pos != -1 ==> IsFloor(cmp, recs, key, pos)
  {
    var first, last := 0, |recs| - 1;
    var cmpRes := cmp(recs[first].key, key);
    if cmpRes > 0 {
      return -1;
    }
    if cmpRes == 0 || last == first {
      ExactIsFloor(cmp, recs, key, first);
      return first;
    }
    if cmp(recs[last].key, key) <= 0 {
      FloorFromNeighbours(cmp, recs, key, last);
      return last;
    }
    while first < last - 1
      invariant 0 <= first < last < |recs|
      invariant cmp(recs[first].key, key) <= 0 < cmp(recs[last].key, key)
    {
      var mid := first + (last + 1 - first) / 2;
      cmpRes := cmp(recs[mid].key, key);
      if cmpRes == 0 {
        ExactIsFloor(cmp, recs, key, mid);
        return mid;
      }
      if cmpRes < 0 {
        first := mid;
      } else {
        last := mid;
      }
    }
    FloorFromNeighbours(cmp, recs, key, first);
    return first;
  }

  lemma ExactIsFloor(cmp: CmpFn, f: seq<Rec>, key: Key, g: int)
    requires TotalOrder(cmp) && Sorted(cmp, f) && 0 <= g < |f|
    requires cmp(f[g].key, key) == 0 || (cmp(f[g].key, key) <= 0 && g == |f| - 1)
    ensures IsFloor(cmp, f, key, g)
  {
    Flip(cmp, f[g].key, key);
    if g + 1 < |f| {
      Flip(cmp, f[g].key, f[g + 1].key);
    }
    FloorFromNeighbours(cmp, f, key, g);
  }

  /** Where the distribution of a full node stands after `k` of its records: the
  first `m` fill `a` bytes of the left node, the others `b - a` bytes of the right
  one; `used` is the running total the source compares with half a node. */
  ghost predicate Dealt(size: int, total: int, m: int, k: int, a: int, b: int, used: int, half: bool, diff: int) {
    && 0 <= m <= k && 0 <= a <= b <= total && used == OVERHEAD + b + diff
    && (if half then m >= 4 && 8 * a + 8 * OVERHEAD > 3 * size else m == k && a == b && used <= size / 2)
    && (k == 0 ==> used == OVERHEAD)
    && (k <= 1 ==> 8 * used <= 8 * OVERHEAD + size)
    && (k <= 2 ==> 8 * used <= 8 * OVERHEAD + 2 * size)
    && (k <= 3 ==> 8 * used <= 8 * OVERHEAD + 3 * size)
    && (m == k ==> a == b && 8 * b + 8 * OVERHEAD <= 6 * size)
  }

  /** The two half-filled nodes of split_bnode with its running total and side switch. */
  datatype Deal = Deal(left: seq<Rec>, lFree: int, right: seq<Rec>, rFree: int, used: int, half: bool)

  ghost predicate DealOk(size: int, all: seq<Rec>, d: Deal, m: int, k: int, diff: int) {
    && 0 <= m <= k <= |all|
    && d.left == all[..m] && d.lFree == size - OVERHEAD - UsedTo(all, m) >= 0
    && d.right == all[m..k] && d.rFree == size - OVERHEAD - (UsedTo(all, k) - UsedTo(all, m)) >= 0
    && Dealt(size, Used(all), m, k, UsedTo(all, m), UsedTo(all, k), d.used, d.half, diff)
  }

  /** Deals one record, counted with `counted` bytes, to the side whose turn it is. */
  function DealTo(size: int, d: Deal, rec: Rec, counted: int): Deal {
    var used := d.used + counted;
    var half := d.half || used > size / 2;
    if d.half then
      Deal(d.left, d.lFree, d.right + [rec], d.rFree - rec.recLen - SLOT, used, half)
    else
      Deal(d.left + [rec], d.lFree - rec.recLen - SLOT, d.right, d.rFree, used, half)
  }

  lemma DealArithmetic(size: int, total: int, m: int, k: int, a: int, b: int, used: int, half: bool, diff: int,
                       len: int, counted: int, diff': int)
    requires size >= 1024 && Dealt(size, total, m, k, a, b, used, half, diff)
    requires 0 <= len - SLOT && 8 * len <= size && 0 <= counted - SLOT && 8 * counted <= size
    requires b + len <= total && 8 * (OVERHEAD + total) <= 9 * size
    requires diff' == diff + counted - len && (diff == 0 || counted == len)
    requires -size <= 8 * diff <= size && -size <= 8 * diff' <= size
    ensures var used' := used + counted;
            var half' := half || used' > size / 2;
            if half then
              Dealt(size, total, m, k + 1, a, b + len, used', half', diff') && OVERHEAD + (b + len - a) <= size
            else
              Dealt(size, total, k + 1, k + 1, b + len, b + len, used', half', diff') && OVERHEAD + b + len <= size
  {
  }

  /** One more record keeps both nodes within bounds. */
  lemma DealOne(size: int, all: seq<Rec>, d: Deal, m: int, k: int, diff: int, counted: int, diff': int)
    requires size >= 1024 && DealOk(size, all, d, m, k, diff)
    requires k < |all| && 8 * (all[k].recLen + SLOT) <= size && SLOT <= counted && 8 * counted <= size
    requires 8 * (OVERHEAD + Used(all)) <= 9 * size
    requires diff' == diff + counted - all[k].recLen - SLOT && (diff == 0 || diff == diff')
    requires -size <= 8 * diff <= size && -size <= 8 * diff' <= size
    ensures DealOk(size, all, DealTo(size, d, all[k], counted), if d.half then m else k + 1, k + 1, diff')
  {
    var len := all[k].recLen + SLOT;
    UsedMonotone(all, k + 1, |all|);
    Extend(all, m, k);
    var a, b, total := UsedTo(all, m), UsedTo(all, k), Used(all);
    assert UsedTo(all, k + 1) == b + len;
    DealArithmetic(size, total, m, k, a, b, d.used, d.half, diff, len, counted, diff');
    var d' := DealTo(size, d, all[k], counted);
    if d.half {
      assert d'.right == all[m..k + 1] && d'.left == all[..m];
    } else {
      assert d'.left == all[..k + 1] && d'.right == all[k + 1..k + 1];
    }
  }

  /** What the first `n` records count for in the running total: the new one with the length found in its key. */
  function CountedTo(all: seq<Rec>, insertPos: nat, newKeyLen: nat, n: nat): int
    requires n <= |all| && insertPos < |all|
  {
    OVERHEAD + UsedTo(all, n) + if n > insertPos then newKeyLen - all[insertPos].recLen else 0
  }

  /** The first `m` records are the fewest that count for more than half a node. */
  ghost predicate SplitPoint(size: nat, all: seq<Rec>, insertPos: nat, newKeyLen: nat, m: int) {
    && 0 < m <= |all| && insertPos < |all|
    && CountedTo(all, insertPos, newKeyLen, m - 1) <= size / 2 < CountedTo(all, insertPos, newKeyLen, m)
  }

  lemma DealPoint(size: nat, all: seq<Rec>, d: Deal, m: nat, k: nat, diff: int, insertPos: nat, newKeyLen: nat, counted: int)
    requires DealOk(size, all, d, m, k, diff) && k < |all| && insertPos < |all|
    requires diff == if k > insertPos then newKeyLen - all[insertPos].recLen else 0
    requires counted == (if k == insertPos then newKeyLen else all[k].recLen) + SLOT
    requires d.half ==> SplitPoint(size, all, insertPos, newKeyLen, m)
    ensures DealTo(size, d, all[k], counted).half ==> SplitPoint(size, all, insertPos, newKeyLen, if d.half then m else k + 1)
  {
    assert UsedTo(all, k + 1) == UsedTo(all, k) + all[k].recLen + SLOT;
  }

  /** When all records are dealt out, the two halves make up the whole. */
  lemma DealDone(size: int, all: seq<Rec>, d: Deal, m: int, diff: int)
    requires size >= 1024 && DealOk(size, all, d, m, |all|, diff)
    requires 8 * (OVERHEAD + Used(all)) > 6 * size
    ensures d.left + d.right == all && |d.left| == m >= 4 && |d.right| >= 1 && d.half
    ensures d.lFree == size - OVERHEAD - Used(d.left) && d.rFree == size - OVERHEAD - Used(d.right)
  {
    UsedToPrefix(all, d.left, m);
    UsedAppend(d.left, d.right);
    assert all[..|all|] == all;
  }

  lemma Extend<T>(s: seq<T>, m: nat, k: nat)
    requires m <= k < |s|
    ensures s[..k + 1] == s[..k] + [s[k]]
    ensures s[m..k + 1] == s[m..k] + [s[k]]
    ensures m == k ==> s[k..k] == [] && s[k + 1..k + 1] == []
  {
  }

  /** The loop of split_bnode, which visits the old records in order with the new one at
  its place. The new record is counted with the length `newKeyLen` found in its key,
  but takes the length it is stored with. Tells where the new record went. */
  method DealAll(size: nat, all: seq<Rec>, insertPos: nat, newKeyLen: nat)
    returns (d: Deal, ghost m: nat, inRight: bool, at: nat)
    requires size >= 1024 && insertPos < |all|
    requires forall j :: 0 <= j < |all| ==> 8 * (all[j].recLen + SLOT) <= size
    requires 8 * (newKeyLen + SLOT) <= size
    requires 8 * (OVERHEAD + Used(all)) <= 9 * size
    ensures m <= |all| && DealOk(size, all, d, m, |all|, newKeyLen - all[insertPos].recLen)
    ensures inRight == (insertPos >= m) && at == if inRight then insertPos - m else insertPos
    ensures d.half ==> SplitPoint(size, all, insertPos, newKeyLen, m)
  {
    hide SplitPoint;
    d := Deal([], size - OVERHEAD, [], size - OVERHEAD, OVERHEAD, false);
    m, inRight, at := 0, false, 0;
    ghost var diff := 0;
    for k := 0 to |all|
      invariant diff == if k > insertPos then newKeyLen - all[insertPos].recLen else 0
      invariant DealOk(size, all, d, m, k, diff)
      invariant d.half ==> SplitPoint(size, all, insertPos, newKeyLen, m)
      invariant k > insertPos ==> inRight == (insertPos >= m) && at == if inRight then insertPos - m else insertPos
    {
      var counted := (if k == insertPos then newKeyLen else all[k].recLen) + SLOT;
      ghost var diff' := if k == insertPos then newKeyLen - all[k].recLen else diff;
      DealOne(size, all, d, m, k, diff, counted, diff');
      DealPoint(size, all, d, m, k, diff, insertPos, newKeyLen, counted);
      if k == insertPos {
        inRight, at := d.half, if d.half then |d.right| else |d.left|;
      }
      m, diff := if d.half then m else k + 1, diff';
      d := DealTo(size, d, all[k], counted);
    }
  }

  /** split_bnode, its links aside: deals the records of a full node, with a new record
  before place `insertPos`, out to two nodes that both fit. */
  method DealOut(size: nat, orig: Node, newKey: Rec, newLen: nat, val: Value, insertPos: nat)
    returns (left: Node, right: Node, inRight: bool, at: nat)
    requires size >= 1024
    requires NodeOk(orig, size, orig.leaf)
    requires orig.free < newLen + SLOT
    requires 1 <= insertPos <= |orig.recs|
    requires Bounded(newKey, size) && 8 * (newLen + SLOT) <= size
    ensures left.recs + right.recs == InsertAt(orig.recs, insertPos, Rec(newKey.key, newKey.keyLen, newLen, val))
    ensures inRight == (insertPos >= |left.recs|) && at == if inRight then insertPos - |left.recs| else insertPos
    ensures |left.recs| >= 4 && |right.recs| >= 1
    ensures SplitPoint(size, left.recs + right.recs, insertPos, newKey.recLen, |left.recs|)
    ensures left.leaf == orig.leaf && right.leaf == orig.leaf
    ensures left.free == size - OVERHEAD - Used(left.recs) && left.free >= 0
    ensures right.free == size - OVERHEAD - Used(right.recs) && right.free >= 0
    ensures left.prev == left.next == right.prev == right.next == NO_NODE
  {
    hide SplitPoint;
    var newRec := Rec(newKey.key, newKey.keyLen, newLen, val);
    var all := InsertAt(orig.recs, insertPos, newRec);
    UsedInsert(orig.recs, insertPos, newRec);
    var d: Deal;
    ghost var m: nat;
    d, m, inRight, at := DealAll(size, all, insertPos, newKey.recLen);
    DealDone(size, all, d, m, newKey.recLen - newLen);
    left := EmptyNode(size, orig.leaf).(recs := d.left, free := d.lFree);
    right := EmptyNode(size, orig.leaf).(recs := d.right, free := d.rFree);
  }
}
