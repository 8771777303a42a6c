/** The bytes of a tree node (extractor/vdfs-tools/lib/btree.c).

A node is one buffer. Behind a 32-byte descriptor the records grow upwards; a table of
32-bit offsets grows downwards from four bytes below the end. Offset `k` leads to record
`k`, the offset behind the last record leads to the free space. The records stand in the
data area in some order of their own, without gaps. */
module Pages {
  import opened Octets
  import opened Nodes

  /** sizeof(struct vdfs4_gen_node_descr), and the places of three of its fields. */
  const HEADER: nat := 32
  const FREE_SPACE: nat := 12
  const RECS_COUNT: nat := 14
  const PREV_ID: nat := 20
  const NEXT_ID: nat := 24

  /** The places of key_len and record_len in a record (struct vdfs4_generic_key). */
  const KEY_LEN: nat := 4
  const RECORD_LEN: nat := 6
  const KEY_HEADER: nat := 8

  /** VDFS4_BNODE_FIRST_OFFSET: the bytes behind the offset table, for the CRC. */
  const FIRST_OFFSET: nat := 4

  /* ---- little-endian numbers ---- */

  function Half(b: Bytes, p: nat): nat
    requires p + 2 <= |b|
  {
    b[p] as int + 256 * b[p + 1] as int
  }

  function Word(b: Bytes, p: nat): nat
    requires p + 4 <= |b|
  {
    b[p] as int + 256 * b[p + 1] as int + 65536 * b[p + 2] as int + 16777216 * b[p + 3] as int
  }

  /** `b'` differs from `b` at most in the `len` bytes from `p`. */
  ghost predicate SameBut(b: Bytes, b': Bytes, p: nat, len: nat) {
    |b'| == |b| && forall i :: 0 <= i < |b| && !(p <= i < p + len) ==> b'[i] == b[i]
  }

  /** Bytes `r` stand at place `p` of `b`. */
  ghost predicate At(b: Bytes, p: nat, r: Bytes) {
    p + |r| <= |b| && forall i :: 0 <= i < |r| ==> b[p + i] == r[i]
  }

  /* ---- the offset table ---- */

  /** The address of offset `k`. */
  function SlotAt(size: nat, k: nat): int {
    size - FIRST_OFFSET - SLOT * (k + 1)
  }

  function Off(b: Bytes, k: nat): nat
    requires SlotAt(|b|, k) >= 0
  {
    Word(b, SlotAt(|b|, k))
  }

  /** The offsets of `n` records and of the free space behind them. */
  function Offs(b: Bytes, n: nat): (offs: seq<nat>)
    requires SlotAt(|b|, n) >= 0
    ensures |offs| == n + 1
  {
    seq(n + 1, k requires 0 <= k <= n => Off(b, k))
  }

  /* ---- the data area ---- */

  /** A record holds its own length. */
  ghost predicate Whole(r: Bytes) {
    |r| >= KEY_HEADER && Half(r, RECORD_LEN) == |r|
  }

  /** Records lie in the data area. */
  ghost predicate Inside(offs: seq<nat>, recs: seq<Bytes>) {
    && |offs| == |recs| + 1 && HEADER <= offs[|recs|]
    && forall k :: 0 <= k < |recs| ==> HEADER <= offs[k] && offs[k] + |recs[k]| <= offs[|recs|]
  }

  /** Each record stands at its offset and holds its own length. */
  ghost predicate Stored(b: Bytes, offs: seq<nat>, recs: seq<Bytes>) {
    && |offs| == |recs| + 1 && offs[|recs|] <= |b|
    && forall k :: 0 <= k < |recs| ==>
         At(b, offs[k], recs[k]) && Whole(recs[k])
  }

  ghost predicate Before(offs: seq<nat>, recs: seq<Bytes>, j: nat, k: nat)
    requires j < |recs| <= |offs| && k < |recs|
  {
    offs[j] + |recs[j]| <= offs[k]
  }

  /** Record ranges do not overlap. */
  ghost predicate Apart(offs: seq<nat>, recs: seq<Bytes>) {
    && |offs| == |recs| + 1
    && forall j, k :: 0 <= j < |recs| && 0 <= k < |recs| && j != k ==> Before(offs, recs, j, k) || Before(offs, recs, k, j)
  }

  ghost predicate Within(offs: seq<nat>, recs: seq<Bytes>, k: nat, p: nat) {
    k < |recs| && k < |offs| && offs[k] <= p < offs[k] + |recs[k]|
  }

  ghost predicate InSome(offs: seq<nat>, recs: seq<Bytes>, p: nat) {
    exists k: nat :: Within(offs, recs, k, p)
  }

  /** Every byte of the data area belongs to a record. */
  ghost predicate Covered(offs: seq<nat>, recs: seq<Bytes>) {
    && |offs| == |recs| + 1
    && forall p :: HEADER <= p < offs[|recs|] ==> InSome(offs, recs, p)
  }

  function Total(recs: seq<Bytes>): nat {
    if recs == [] then 0 else Total(recs[..|recs| - 1]) + |recs[|recs| - 1]|
  }

  /** The records tile the data area. */
  ghost predicate Laid(b: Bytes, offs: seq<nat>, recs: seq<Bytes>) {
    && Inside(offs, recs) && Stored(b, offs, recs) && Apart(offs, recs) && Covered(offs, recs)
    && offs[|recs|] == HEADER + Total(recs)
  }

  /** The page invariant: the records are laid out behind the descriptor, the offset table
  stands behind the free space, and the descriptor counts both exactly. */
  ghost predicate PageOk(b: Bytes, recs: seq<Bytes>) {
    && HEADER + FIRST_OFFSET + SLOT <= |b| <= 65536
    && SlotAt(|b|, |recs|) >= HEADER
    && Half(b, RECS_COUNT) == |recs|
    && Laid(b, Offs(b, |recs|), recs)
    && Off(b, |recs|) + Half(b, FREE_SPACE) == SlotAt(|b|, |recs|)
  }

  /** The bytes of a page determine its records. */
  lemma PageUnique(b: Bytes, recs: seq<Bytes>, recs': seq<Bytes>)
    requires PageOk(b, recs) && PageOk(b, recs')
    ensures recs == recs'
  {
    var offs := Offs(b, |recs|);
    forall k | 0 <= k < |recs| ensures recs[k] == recs'[k] {
      assert At(b, offs[k], recs[k]) && At(b, offs[k], recs'[k]);
      assert Half(b, offs[k] + RECORD_LEN) == |recs[k]| == |recs'[k]|;
      assert forall i :: 0 <= i < |recs[k]| ==> recs[k][i] == b[offs[k] + i] == recs'[k][i];
    }
  }

  /** The free space of a page is that of the node with its records. */
  lemma FreeIsExact(b: Bytes, recs: seq<Bytes>)
    requires PageOk(b, recs)
    ensures Half(b, FREE_SPACE) == |b| - OVERHEAD - (Total(recs) + SLOT * |recs|)
  {
  }

  /** Where everything stands in a page: the count of free bytes at 12, that of records at 14, offset `k` four bytes long
  eight and four times `k` bytes from the end, and at offset `k` record `k`, whose own length is at 6. */
  lemma PageBytes(b: Bytes, recs: seq<Bytes>)
    requires PageOk(b, recs)
    ensures |b| >= 40 + 4 * |recs| && b[14] as int + 256 * b[15] as int == |recs|
    ensures b[12] as int + 256 * b[13] as int == |b| - 40 - Total(recs) - 4 * |recs|
    ensures forall k :: 0 <= k < |recs| ==> StandsIn(b, k, recs[k])
  {
    FreeIsExact(b, recs);
    hide Total;
    forall k | 0 <= k < |recs| ensures StandsIn(b, k, recs[k]) {
      RecordFacts(b, recs, k);
      hide PageOk, StandsIn;
      StandsThere(b, k, recs[k]);
    }
  }

  lemma RecordFacts(b: Bytes, recs: seq<Bytes>, k: nat)
    requires PageOk(b, recs) && k < |recs|
    ensures SlotAt(|b|, k) >= 0 && Off(b, k) >= HEADER && At(b, Off(b, k), recs[k]) && Whole(recs[k])
  {
    hide Covered, Apart, Total, Word;
    var offs := Offs(b, |recs|);
    assert Stored(b, offs, recs) && Inside(offs, recs) && offs[k] == Off(b, k);
  }

  lemma StandsThere(b: Bytes, k: nat, r: Bytes)
    requires SlotAt(|b|, k) >= 0 && Off(b, k) >= HEADER && At(b, Off(b, k), r) && Whole(r)
    ensures StandsIn(b, k, r)
  {
    assert b[Off(b, k)..Off(b, k) + |r|] == r;
  }

  ghost predicate StandsIn(b: Bytes, k: nat, r: Bytes) {
    && |b| >= 8 + 4 * k && |r| >= 8 && r[6] as int + 256 * r[7] as int == |r|
    && var s := |b| - 8 - 4 * k;
       var o := b[s] as int + 0x100 * b[s + 1] as int + 0x1_0000 * b[s + 2] as int + 0x100_0000 * b[s + 3] as int;
       32 <= o && o + |r| <= |b| && b[o..o + |r|] == r
  }

  lemma {:induction false} TotalAppend(a: seq<Bytes>, b: seq<Bytes>)
    ensures Total(a + b) == Total(a) + Total(b)
  {
    if b == [] {
      assert a + b == a;
    } else {
      assert (a + b)[..|a + b| - 1] == a + b[..|b| - 1];
      TotalAppend(a, b[..|b| - 1]);
    }
  }

  lemma {:induction false} TotalInsert(s: seq<Bytes>, p: nat, x: Bytes)
    requires p <= |s|
    ensures Total(InsertAt(s, p, x)) == Total(s) + |x|
  {
    var s' := InsertAt(s, p, x);
    if p == |s| {
      assert s'[..|s|] == s;
    } else {
      assert s'[..|s|] == InsertAt(s[..|s| - 1], p, x);
      TotalInsert(s[..|s| - 1], p, x);
    }
  }

  lemma TotalRemove(s: seq<Bytes>, p: nat)
    requires p < |s|
    ensures Total(RemoveAt(s, p)) == Total(s) - |s[p]|
  {
    TotalInsert(RemoveAt(s, p), p, s[p]);
    assert InsertAt(RemoveAt(s, p), p, s[p]) == s;
  }

  lemma AtKept(b: Bytes, b': Bytes, p: nat, p': nat, r: Bytes)
    requires At(b, p, r) && p' + |r| <= |b'|
    requires forall i :: p <= i < p + |r| ==> b'[p' - p + i] == b[i]
    ensures At(b', p', r)
  {
    forall i | 0 <= i < |r| ensures b'[p' + i] == r[i] {
      assert b'[p' - p + (p + i)] == b[p + i];
    }
  }

  /* ---- insertion ---- */

  /** The offsets after a record was put at the free space, with slot `pos`. */
  ghost predicate OffsInserted(offs: seq<nat>, offs': seq<nat>, pos: nat, len: nat) {
    && |offs| > 0 && pos < |offs| && |offs'| == |offs| + 1
    && (forall k :: 0 <= k < |offs| - 1 ==> offs'[if k < pos then k else k + 1] == offs[k])
    && offs'[pos] == offs[|offs| - 1] && offs'[|offs|] == offs[|offs| - 1] + len
  }

  lemma OldAfterInsert(k: nat, pos: nat, n: nat) returns (o: nat)
    requires k <= n && k != pos && pos <= n
    ensures o < n && k == if o < pos then o else o + 1
  {
    o := if k < pos then k else k - 1;
  }

  lemma InsideInsert(offs: seq<nat>, offs': seq<nat>, recs: seq<Bytes>, pos: nat, r: Bytes)
    requires Inside(offs, recs) && OffsInserted(offs, offs', pos, |r|)
    ensures Inside(offs', InsertAt(recs, pos, r))
  {
    var recs' := InsertAt(recs, pos, r);
    forall k | 0 <= k < |recs'| ensures HEADER <= offs'[k] && offs'[k] + |recs'[k]| <= offs'[|recs'|] {
      if k != pos {
        var o := OldAfterInsert(k, pos, |recs|);
        assert offs'[k] == offs[o] && recs'[k] == recs[o];
      }
    }
  }

  lemma StoredInsert(b: Bytes, b': Bytes, offs: seq<nat>, offs': seq<nat>, recs: seq<Bytes>, pos: nat, r: Bytes)
    requires Inside(offs, recs) && Stored(b, offs, recs) && OffsInserted(offs, offs', pos, |r|)
    requires At(b', offs[|recs|], r) && Whole(r)
    requires |b'| == |b| && forall i :: HEADER <= i < offs[|recs|] ==> b'[i] == b[i]
    ensures Stored(b', offs', InsertAt(recs, pos, r))
  {
    hide Whole;
    var recs' := InsertAt(recs, pos, r);
    forall k | 0 <= k < |recs'|
      ensures At(b', offs'[k], recs'[k]) && Whole(recs'[k])
    {
      if k != pos {
        var o := OldAfterInsert(k, pos, |recs|);
        assert offs'[k] == offs[o] && recs'[k] == recs[o];
        AtKept(b, b', offs[o], offs[o], recs[o]);
      }
    }
  }

  lemma ApartInsert(offs: seq<nat>, offs': seq<nat>, recs: seq<Bytes>, pos: nat, r: Bytes)
    requires Inside(offs, recs) && Apart(offs, recs) && OffsInserted(offs, offs', pos, |r|)
    ensures Apart(offs', InsertAt(recs, pos, r))
  {
    var recs' := InsertAt(recs, pos, r);
    forall j, k | 0 <= j < |recs'| && 0 <= k < |recs'| && j != k
      ensures Before(offs', recs', j, k) || Before(offs', recs', k, j)
    {
      if j == pos {
        var o := OldAfterInsert(k, pos, |recs|);
      } else if k == pos {
        var o := OldAfterInsert(j, pos, |recs|);
      } else {
        var oj := OldAfterInsert(j, pos, |recs|);
        var ok := OldAfterInsert(k, pos, |recs|);
        assert Before(offs, recs, oj, ok) || Before(offs, recs, ok, oj);
      }
    }
  }

  lemma CoveredInsert(offs: seq<nat>, offs': seq<nat>, recs: seq<Bytes>, pos: nat, r: Bytes)
    requires Covered(offs, recs) && OffsInserted(offs, offs', pos, |r|)
    ensures Covered(offs', InsertAt(recs, pos, r))
  {
    var recs' := InsertAt(recs, pos, r);
    forall p | HEADER <= p < offs'[|recs'|] ensures InSome(offs', recs', p) {
      if p < offs[|recs|] {
        assert InSome(offs, recs, p);
        var k: nat :| Within(offs, recs, k, p);
        assert Within(offs', recs', if k < pos then k else k + 1, p);
      } else {
        assert Within(offs', recs', pos, p);
      }
    }
  }

  lemma LaidInsert(b: Bytes, b': Bytes, offs: seq<nat>, offs': seq<nat>, recs: seq<Bytes>, pos: nat, r: Bytes)
    requires Laid(b, offs, recs) && OffsInserted(offs, offs', pos, |r|)
    requires At(b', offs[|recs|], r) && Whole(r)
    requires |b'| == |b| && forall i :: HEADER <= i < offs[|recs|] ==> b'[i] == b[i]
    ensures Laid(b', offs', InsertAt(recs, pos, r))
  {
    hide Covered, Apart, Stored, InSome;
    InsideInsert(offs, offs', recs, pos, r);
    StoredInsert(b, b', offs, offs', recs, pos, r);
    ApartInsert(offs, offs', recs, pos, r);
    CoveredInsert(offs, offs', recs, pos, r);
    TotalInsert(recs, pos, r);
  }

  /* ---- deletion ---- */

  /** The offset of a record behind a gap that is closed. */
  function Closed(off: nat, gap: nat, len: nat): nat {
    if off > gap then (if off >= len then off - len else 0) else off
  }

  /** The offsets after record `del` was taken out. */
  ghost predicate OffsDeleted(offs: seq<nat>, offs': seq<nat>, del: nat, len: nat) {
    && |offs| >= 2 && del < |offs| - 1 && |offs'| == |offs| - 1
    && (forall k :: 0 <= k < |offs'| - 1 ==> offs'[k] == Closed(offs[if k < del then k else k + 1], offs[del], len))
    && offs'[|offs'| - 1] + len == offs[|offs| - 1]
  }

  lemma InsideDelete(offs: seq<nat>, offs': seq<nat>, recs: seq<Bytes>, del: nat)
    requires Inside(offs, recs) && Apart(offs, recs) && del < |recs| && OffsDeleted(offs, offs', del, |recs[del]|)
    ensures Inside(offs', RemoveAt(recs, del))
  {
    var recs' := RemoveAt(recs, del);
    forall k | 0 <= k < |recs'| ensures HEADER <= offs'[k] && offs'[k] + |recs'[k]| <= offs'[|recs'|] {
      var o := if k < del then k else k + 1;
      assert Before(offs, recs, o, del) || Before(offs, recs, del, o);
    }
  }

  lemma StoredDelete(b: Bytes, b': Bytes, offs: seq<nat>, offs': seq<nat>, recs: seq<Bytes>, del: nat)
    requires Inside(offs, recs) && Stored(b, offs, recs) && Apart(offs, recs) && del < |recs| && OffsDeleted(offs, offs', del, |recs[del]|)
    requires |b'| == |b| && forall i :: HEADER <= i < offs[del] ==> b'[i] == b[i]
    requires forall i :: offs[del] + |recs[del]| <= i < offs[|recs|] ==> b'[i - |recs[del]|] == b[i]
    ensures Stored(b', offs', RemoveAt(recs, del))
  {
    var recs' := RemoveAt(recs, del);
    forall k | 0 <= k < |recs'|
      ensures At(b', offs'[k], recs'[k]) && Whole(recs'[k])
    {
      var o := if k < del then k else k + 1;
      assert Before(offs, recs, o, del) || Before(offs, recs, del, o);
      AtKept(b, b', offs[o], offs'[k], recs[o]);
    }
  }

  lemma ApartDelete(offs: seq<nat>, offs': seq<nat>, recs: seq<Bytes>, del: nat)
    requires Apart(offs, recs) && del < |recs| && OffsDeleted(offs, offs', del, |recs[del]|)
    ensures Apart(offs', RemoveAt(recs, del))
  {
    var recs' := RemoveAt(recs, del);
    forall j, k | 0 <= j < |recs'| && 0 <= k < |recs'| && j != k
      ensures Before(offs', recs', j, k) || Before(offs', recs', k, j)
    {
      var oj, ok := if j < del then j else j + 1, if k < del then k else k + 1;
      assert Before(offs, recs, oj, ok) || Before(offs, recs, ok, oj);
      assert Before(offs, recs, oj, del) || Before(offs, recs, del, oj);
      assert Before(offs, recs, ok, del) || Before(offs, recs, del, ok);
    }
  }

  lemma CoveredDelete(offs: seq<nat>, offs': seq<nat>, recs: seq<Bytes>, del: nat)
    requires Inside(offs, recs) && Apart(offs, recs) && Covered(offs, recs) && del < |recs| && OffsDeleted(offs, offs', del, |recs[del]|)
    ensures Covered(offs', RemoveAt(recs, del))
  {
    var recs' := RemoveAt(recs, del);
    forall p | HEADER <= p < offs'[|recs'|] ensures InSome(offs', recs', p) {
      var q := if p < offs[del] then p else p + |recs[del]|;
      assert InSome(offs, recs, q);
      var o: nat :| Within(offs, recs, o, q);
      assert o != del && (Before(offs, recs, o, del) || Before(offs, recs, del, o));
      assert Within(offs', recs', if o < del then o else o - 1, p);
    }
  }

  lemma LaidDelete(b: Bytes, b': Bytes, offs: seq<nat>, offs': seq<nat>, recs: seq<Bytes>, del: nat)
    requires Laid(b, offs, recs) && del < |recs| && OffsDeleted(offs, offs', del, |recs[del]|)
    requires |b'| == |b| && forall i :: HEADER <= i < offs[del] ==> b'[i] == b[i]
    requires forall i :: offs[del] + |recs[del]| <= i < offs[|recs|] ==> b'[i - |recs[del]|] == b[i]
    ensures Laid(b', offs', RemoveAt(recs, del))
  {
    hide Covered, Apart, Stored, InSome;
    InsideDelete(offs, offs', recs, del);
    StoredDelete(b, b', offs, offs', recs, del);
    ApartDelete(offs, offs', recs, del);
    CoveredDelete(offs, offs', recs, del);
    TotalRemove(recs, del);
  }

  /* ---- merging ---- */

  /** The offsets of the left page with those of the right one behind them. */
  ghost predicate OffsMerged(l: seq<nat>, r: seq<nat>, offs': seq<nat>) {
    && |l| > 0 && |r| > 0 && |offs'| == |l| + |r| - 1
    && (forall k :: 0 <= k < |l| - 1 ==> offs'[k] == l[k])
    && (forall k :: 0 <= k < |r| ==> offs'[|l| - 1 + k] + HEADER == l[|l| - 1] + r[k])
  }

  lemma InsideMerge(l: seq<nat>, r: seq<nat>, offs': seq<nat>, lrecs: seq<Bytes>, rrecs: seq<Bytes>)
    requires Inside(l, lrecs) && Inside(r, rrecs) && OffsMerged(l, r, offs')
    ensures Inside(offs', lrecs + rrecs)
  {
    var recs', n := lrecs + rrecs, |lrecs|;
    assert offs'[n + |rrecs|] + HEADER == l[n] + r[|rrecs|];
    forall k | 0 <= k < |recs'| ensures HEADER <= offs'[k] && offs'[k] + |recs'[k]| <= offs'[|recs'|] {
      if k >= n {
        assert offs'[n + (k - n)] + HEADER == l[n] + r[k - n];
      }
    }
  }

  lemma StoredMerge(lb: Bytes, rb: Bytes, b': Bytes, l: seq<nat>, r: seq<nat>, offs': seq<nat>, lrecs: seq<Bytes>, rrecs: seq<Bytes>)
    requires Inside(l, lrecs) && Inside(r, rrecs) && Stored(lb, l, lrecs) && Stored(rb, r, rrecs)
    requires OffsMerged(l, r, offs') && offs'[|offs'| - 1] <= |b'|
    requires |b'| == |lb| && forall i :: HEADER <= i < l[|lrecs|] ==> b'[i] == lb[i]
    requires forall i :: HEADER <= i < r[|rrecs|] ==> b'[l[|lrecs|] - HEADER + i] == rb[i]
    ensures Stored(b', offs', lrecs + rrecs)
  {
    var recs', n := lrecs + rrecs, |lrecs|;
    assert offs'[|recs'|] == offs'[n + |rrecs|] && offs'[|recs'|] + HEADER == l[n] + r[|rrecs|];
    forall k | 0 <= k < |recs'|
      ensures At(b', offs'[k], recs'[k]) && Whole(recs'[k])
    {
      if k < n {
        AtKept(lb, b', l[k], l[k], lrecs[k]);
      } else {
        assert offs'[n + (k - n)] + HEADER == l[n] + r[k - n];
        AtKept(rb, b', r[k - n], offs'[k], rrecs[k - n]);
      }
    }
  }

  lemma ApartMerge(l: seq<nat>, r: seq<nat>, offs': seq<nat>, lrecs: seq<Bytes>, rrecs: seq<Bytes>)
    requires Inside(l, lrecs) && Inside(r, rrecs) && OffsMerged(l, r, offs')
    requires Apart(l, lrecs) && Apart(r, rrecs)
    ensures Apart(offs', lrecs + rrecs)
  {
    hide OffsMerged, Inside;
    var recs', n := lrecs + rrecs, |lrecs|;
    MergedOffs(l, r, offs', lrecs, rrecs);
    forall j, k | 0 <= j < k < |recs'| ensures Before(offs', recs', j, k) || Before(offs', recs', k, j) {
      if k < n {
        assert Before(l, lrecs, j, k) || Before(l, lrecs, k, j);
      } else if j >= n {
        assert Before(r, rrecs, j - n, k - n) || Before(r, rrecs, k - n, j - n);
      }
    }
  }

  lemma MergedOffs(l: seq<nat>, r: seq<nat>, offs': seq<nat>, lrecs: seq<Bytes>, rrecs: seq<Bytes>)
    requires Inside(l, lrecs) && Inside(r, rrecs) && OffsMerged(l, r, offs')
    ensures |offs'| == |lrecs + rrecs| + 1 && |l| == |lrecs| + 1 && |r| == |rrecs| + 1
    ensures forall k :: 0 <= k < |lrecs| ==> offs'[k] == l[k] && offs'[k] + |(lrecs + rrecs)[k]| <= l[|lrecs|]
    ensures forall k :: |lrecs| <= k < |lrecs + rrecs| ==> offs'[k] + HEADER == l[|lrecs|] + r[k - |lrecs|] && offs'[k] >= l[|lrecs|]
  {
    forall k | |lrecs| <= k < |lrecs + rrecs|
      ensures offs'[k] + HEADER == l[|lrecs|] + r[k - |lrecs|] && offs'[k] >= l[|lrecs|]
    {
      assert offs'[|l| - 1 + (k - |lrecs|)] + HEADER == l[|l| - 1] + r[k - |lrecs|];
    }
  }

  lemma CoveredMerge(l: seq<nat>, r: seq<nat>, offs': seq<nat>, lrecs: seq<Bytes>, rrecs: seq<Bytes>)
    requires Inside(l, lrecs) && Inside(r, rrecs) && OffsMerged(l, r, offs')
    requires Covered(l, lrecs) && Covered(r, rrecs)
    ensures Covered(offs', lrecs + rrecs)
  {
    var recs', n := lrecs + rrecs, |lrecs|;
    assert offs'[n + |rrecs|] + HEADER == l[n] + r[|rrecs|];
    forall p | HEADER <= p < offs'[|recs'|] ensures InSome(offs', recs', p) {
      if p < l[n] {
        assert InSome(l, lrecs, p);
        var k: nat :| Within(l, lrecs, k, p);
        assert Within(offs', recs', k, p);
      } else {
        var q := p - l[n] + HEADER;
        assert InSome(r, rrecs, q);
        var k: nat :| Within(r, rrecs, k, q);
        assert offs'[n + k] + HEADER == l[n] + r[k];
        assert Within(offs', recs', n + k, p);
      }
    }
  }

  lemma LaidMerge(lb: Bytes, rb: Bytes, b': Bytes, l: seq<nat>, r: seq<nat>, offs': seq<nat>, lrecs: seq<Bytes>, rrecs: seq<Bytes>)
    requires Laid(lb, l, lrecs) && Laid(rb, r, rrecs) && OffsMerged(l, r, offs') && offs'[|offs'| - 1] <= |b'|
    requires |b'| == |lb| && forall i :: HEADER <= i < l[|lrecs|] ==> b'[i] == lb[i]
    requires forall i :: HEADER <= i < r[|rrecs|] ==> b'[l[|lrecs|] - HEADER + i] == rb[i]
    ensures Laid(b', offs', lrecs + rrecs)
  {
    hide Covered, Apart, Stored, InSome;
    InsideMerge(l, r, offs', lrecs, rrecs);
    StoredMerge(lb, rb, b', l, r, offs', lrecs, rrecs);
    ApartMerge(l, r, offs', lrecs, rrecs);
    CoveredMerge(l, r, offs', lrecs, rrecs);
    TotalAppend(lrecs, rrecs);
    assert offs'[|lrecs| + |rrecs|] + HEADER == l[|lrecs|] + r[|rrecs|];
  }
}
