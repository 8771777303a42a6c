/** Insertion, deletion and merging in the raw bytes of tree nodes
(extractor/vdfs-tools/lib/btree.c). */
module Bnodes {
  import opened Octets
  import opened Nodes
  import opened Pages

  /** `b'` is `b` with number `v` written at place `p`. */
  ghost predicate PutWord(b: Bytes, b': Bytes, p: nat, v: nat) {
    p + 4 <= |b| && SameBut(b, b', p, 4) && Word(b', p) == v
  }

  ghost predicate PutHalf(b: Bytes, b': Bytes, p: nat, v: nat) {
    p + 2 <= |b| && SameBut(b, b', p, 2) && Half(b', p) == v
  }

  /** The `len` bytes at place `dst` of `b'` are those at place `src` of `b`. */
  ghost predicate Moved(b: Bytes, b': Bytes, dst: nat, src: nat, len: nat) {
    dst + len <= |b'| && src + len <= |b| && forall j :: dst <= j < dst + len ==> b'[j] == b[j - dst + src]
  }

  lemma WordMoved(b: Bytes, b': Bytes, dst: nat, src: nat, len: nat, q: nat)
    requires Moved(b, b', dst, src, len) && dst <= q && q + 4 <= dst + len
    ensures Word(b', q) == Word(b, q - dst + src)
  {
  }

  lemma WordKept(b: Bytes, b': Bytes, p: nat, len: nat, q: nat)
    requires SameBut(b, b', p, len) && q + 4 <= |b| && (q + 4 <= p || p + len <= q)
    ensures Word(b', q) == Word(b, q)
  {
  }

  lemma HalfKept(b: Bytes, b': Bytes, p: nat, len: nat, q: nat)
    requires SameBut(b, b', p, len) && q + 2 <= |b| && (q + 2 <= p || p + len <= q)
    ensures Half(b', q) == Half(b, q)
  {
  }

  lemma SameButRefl(b: Bytes, p: nat, len: nat)
    ensures SameBut(b, b, p, len)
  {
  }

  lemma SameButTwice(a: Bytes, b: Bytes, c: Bytes, p: nat, len: nat)
    requires SameBut(a, b, p, len) && SameBut(b, c, p, len)
    ensures SameBut(a, c, p, len)
  {
  }

  /** The sibling ids in the descriptor. */
  function Links(b: Bytes): (nat, nat)
    requires |b| >= HEADER
  {
    (Word(b, PREV_ID), Word(b, NEXT_ID))
  }

  /** The offset table with a free slot at `pos`, which now leads to `off`. */
  ghost predicate SlotsOpened(b: Bytes, b': Bytes, n: nat, pos: nat, off: nat) {
    && SlotAt(|b|, n) >= 0 && |b'| == |b| && pos <= n
    && (forall k :: 0 <= k < n ==> Off(b', if k < pos then k else k + 1) == Off(b, k))
    && Off(b', pos) == off
  }

  /** Moving the slots from `pos` on down by one makes room for slot `pos`. */
  lemma OpenSlots(b: Bytes, b1: Bytes, b2: Bytes, n: nat, pos: nat, off: nat)
    requires SlotAt(|b|, n) >= 0 && pos <= n
    requires SameBut(b, b1, SlotAt(|b|, n), SLOT * (n - pos))
    requires Moved(b, b1, SlotAt(|b|, n), SlotAt(|b|, n) + SLOT, SLOT * (n - pos))
    requires PutWord(b1, b2, SlotAt(|b|, pos), off)
    ensures SlotsOpened(b, b2, n, pos, off)
    ensures SameBut(b, b2, SlotAt(|b|, n), SLOT * (n - pos + 1))
  {
    forall k | 0 <= k < n ensures Off(b2, if k < pos then k else k + 1) == Off(b, k) {
      var k' := if k < pos then k else k + 1;
      WordKept(b1, b2, SlotAt(|b|, pos), 4, SlotAt(|b|, k'));
      if k < pos {
        WordKept(b, b1, SlotAt(|b|, n), SLOT * (n - pos), SlotAt(|b|, k));
      } else {
        WordMoved(b, b1, SlotAt(|b|, n), SlotAt(|b|, n) + SLOT, SLOT * (n - pos), SlotAt(|b|, k'));
      }
    }
  }

  /** Changes below the offset table leave the offsets alone. */
  lemma OffsKept(b: Bytes, b': Bytes, p: nat, len: nat, n: nat)
    requires SameBut(b, b', p, len) && p + len <= SlotAt(|b|, n)
    ensures forall k :: 0 <= k <= n ==> Off(b', k) == Off(b, k)
  {
    forall k | 0 <= k <= n ensures Off(b', k) == Off(b, k) {
      WordKept(b, b', p, len, SlotAt(|b|, k));
    }
  }

  lemma PageFacts(b: Bytes, recs: seq<Bytes>)
    requires PageOk(b, recs)
    ensures Half(b, RECS_COUNT) == |recs| && HEADER <= SlotAt(|b|, |recs|) && |b| <= 65536
    ensures HEADER <= Off(b, |recs|) && Off(b, |recs|) + Half(b, FREE_SPACE) == SlotAt(|b|, |recs|)
    ensures Inside(Offs(b, |recs|), recs) && Laid(b, Offs(b, |recs|), recs)
  {
  }

  /** Both counters of the descriptor, and nothing else, change. */
  ghost predicate Recounted(b: Bytes, b': Bytes, count: nat, free: nat) {
    |b| >= HEADER && SameBut(b, b', FREE_SPACE, 4) && Half(b', RECS_COUNT) == count && Half(b', FREE_SPACE) == free
  }

  lemma Recount(b: Bytes, b1: Bytes, b2: Bytes, count: nat, free: nat)
    requires |b| >= HEADER && PutHalf(b, b1, RECS_COUNT, count) && PutHalf(b1, b2, FREE_SPACE, free)
    ensures Recounted(b, b2, count, free)
  {
    HalfKept(b1, b2, FREE_SPACE, 2, RECS_COUNT);
  }

  /** Written, slot opened, recounted and terminated: the record is in place. */
  lemma InsertDone(b: Bytes, b1: Bytes, b3: Bytes, b5: Bytes, b6: Bytes, recs: seq<Bytes>, pos: nat, rec: Bytes)
    requires PageOk(b, recs) && pos <= |recs| && Whole(rec) && |rec| + SLOT <= Half(b, FREE_SPACE)
    requires SameBut(b, b1, Off(b, |recs|), |rec|) && At(b1, Off(b, |recs|), rec)
    requires SlotsOpened(b1, b3, |recs|, pos, Off(b, |recs|))
    requires SameBut(b1, b3, SlotAt(|b|, |recs|), SLOT * (|recs| - pos + 1))
    requires Recounted(b3, b5, |recs| + 1, Half(b, FREE_SPACE) - (|rec| + SLOT))
    requires SlotAt(|b|, |recs| + 1) >= 0 && PutWord(b5, b6, SlotAt(|b|, |recs| + 1), Off(b, |recs|) + |rec|)
    ensures PageOk(b6, InsertAt(recs, pos, rec)) && Links(b6) == Links(b) && Off(b6, pos) == Off(b, |recs|)
  {
    hide Laid, Word, Half, Whole, InsertAt;
    var n, free := |recs|, Off(b, |recs|);
    PageFacts(b, recs);
    OffsKept(b, b1, free, |rec|, n);
    OffsKept(b3, b5, FREE_SPACE, 4, n);
    OffsBelow(b5, b6, n + 1);
    assert OffsInserted(Offs(b, n), Offs(b6, n + 1), pos, |rec|);
    assert At(b6, free, rec);
    LaidInsert(b, b6, Offs(b, n), Offs(b6, n + 1), recs, pos, rec);
    HalfKept(b5, b6, SlotAt(|b|, n + 1), 4, RECS_COUNT);
    HalfKept(b5, b6, SlotAt(|b|, n + 1), 4, FREE_SPACE);
    LinksKept(b, b1, free, |rec|);
    LinksKept(b1, b3, SlotAt(|b|, n), SLOT * (n - pos + 1));
    LinksKept(b3, b5, FREE_SPACE, 4);
    LinksKept(b5, b6, SlotAt(|b|, n + 1), 4);
    assert |InsertAt(recs, pos, rec)| == n + 1 by { InsertLength(recs, pos, rec); }
  }

  lemma InsertLength<T>(s: seq<T>, p: nat, x: T)
    requires p <= |s|
    ensures |InsertAt(s, p, x)| == |s| + 1
  {
  }

  /** A change of slot `n` alone keeps the slots before it. */
  lemma OffsBelow(b: Bytes, b': Bytes, n: nat)
    requires SlotAt(|b|, n) >= 0 && SameBut(b, b', SlotAt(|b|, n), 4)
    ensures forall k :: 0 <= k < n ==> Off(b', k) == Off(b, k)
  {
    forall k | 0 <= k < n ensures Off(b', k) == Off(b, k) {
      WordKept(b, b', SlotAt(|b|, n), 4, SlotAt(|b|, k));
    }
  }

  lemma LinksKept(b: Bytes, b': Bytes, p: nat, len: nat)
    requires SameBut(b, b', p, len) && |b| >= HEADER && (p >= HEADER || p + len <= PREV_ID)
    ensures Links(b') == Links(b)
  {
    WordKept(b, b', p, len, PREV_ID);
    WordKept(b, b', p, len, NEXT_ID);
  }

  /** The bytes of record_len in a record. */
  predicate LenField(i: nat) {
    i == RECORD_LEN || i == RECORD_LEN + 1
  }

  lemma EmptyPage(b: Bytes, b1: Bytes, b2: Bytes)
    requires OVERHEAD <= |b| <= 65536 && forall i :: 0 <= i < |b| ==> b[i] == 0
    requires PutHalf(b, b1, FREE_SPACE, |b| - OVERHEAD) && PutWord(b1, b2, SlotAt(|b|, 0), HEADER)
    ensures PageOk(b2, []) && Links(b2) == (NO_NODE, NO_NODE) && Half(b2, FREE_SPACE) == |b| - OVERHEAD
  {
  }

  lemma RecordWritten(b: Bytes, b0: Bytes, b1: Bytes, recAt: nat, newKey: Bytes, dataLen: nat, newRecLen: nat)
    requires KEY_HEADER <= dataLen <= |newKey| && dataLen <= newRecLen && recAt + newRecLen <= |b|
    requires SameBut(b, b0, recAt, dataLen) && At(b0, recAt, newKey[..dataLen])
    requires PutHalf(b0, b1, recAt + RECORD_LEN, newRecLen)
    ensures var rec := b1[recAt..recAt + newRecLen];
            && Whole(rec) && SameBut(b, b1, recAt, |rec|) && At(b1, recAt, rec)
            && (forall i :: 0 <= i < dataLen && !LenField(i) ==> rec[i] == newKey[i])
  {
  }

  lemma SameRecord(r: Bytes, r': Bytes)
    requires Whole(r) && Whole(r') && |r| == |r'|
    requires forall i :: 0 <= i < |r| && !LenField(i) ==> r'[i] == r[i]
    ensures r == r'
  {
    assert r[6] == r'[6] && r[7] == r'[7];
  }

  lemma HalfAt(b: Bytes, at: nat, r: Bytes)
    requires At(b, at, r) && Whole(r)
    ensures Half(b, at + RECORD_LEN) == |r|
  {
    assert r[6] == b[at + 6] && r[7] == b[at + 7];
  }

  /** The bytes of record `k` in a page. */
  lemma RecordAt(b: Bytes, recs: seq<Bytes>, k: nat)
    requires PageOk(b, recs) && k < |recs|
    ensures HEADER <= Off(b, k) && Off(b, k) + |recs[k]| <= Off(b, |recs|) <= |b| && |recs[k]| >= KEY_HEADER
    ensures At(b, Off(b, k), recs[k]) && Half(b, Off(b, k) + RECORD_LEN) == |recs[k]|
  {
    var offs := Offs(b, |recs|);
    assert At(b, offs[k], recs[k]);
    HalfAt(b, offs[k], recs[k]);
  }

  /** The offsets of `n` records behind a gap that is closed, and the old free space. */
  ghost function ClosedOffs(b: Bytes, n: nat, gap: nat, len: nat): (offs: seq<nat>)
    requires SlotAt(|b|, n) >= 0
    ensures |offs| == n + 1
  {
    seq(n + 1, k requires 0 <= k <= n => if k < n then Closed(Off(b, k), gap, len) else Off(b, n))
  }

  lemma ClosedAre(b: Bytes, n: nat, gap: nat, len: nat, offs: seq<nat>)
    requires SlotAt(|b|, n) >= 0 && offs == ClosedOffs(b, n, gap, len)
    ensures |offs| == n + 1 && offs[n] == Off(b, n) && forall k :: 0 <= k < n ==> offs[k] == Closed(Off(b, k), gap, len)
  {
  }

  /** Another record stands wholly before or behind record `del`. */
  lemma OtherRecord(b: Bytes, recs: seq<Bytes>, k: nat, del: nat)
    requires PageOk(b, recs) && k < |recs| && del < |recs| && Off(b, k) > Off(b, del)
    ensures Off(b, k) >= Off(b, del) + |recs[del]|
  {
    var offs := Offs(b, |recs|);
    assert Inside(offs, recs) && Stored(b, offs, recs);
    assert offs[k] != offs[del];
    assert Before(offs, recs, k, del) || Before(offs, recs, del, k);
  }

  lemma ClosedBounds(b: Bytes, recs: seq<Bytes>, del: nat, k: nat)
    requires PageOk(b, recs) && k <= |recs| && del < |recs|
    ensures HEADER <= ClosedOffs(b, |recs|, Off(b, del), |recs[del]|)[k] <= Off(b, |recs|) < |b|
  {
    hide Stored, Covered;
    PageFacts(b, recs);
    RecordAt(b, recs, del);
    if k < |recs| {
      RecordAt(b, recs, k);
      if Off(b, k) > Off(b, del) {
        OtherRecord(b, recs, k, del);
      }
    }
  }

  /** Writing slot `i` keeps the others. */
  lemma OneSlot(b1: Bytes, b: Bytes, b': Bytes, n: nat, i: nat)
    requires SlotAt(|b|, n) >= 0 && i <= n && SameBut(b, b', SlotAt(|b|, i), 4)
    requires SameBut(b1, b, SlotAt(|b|, n), SLOT * (n + 1))
    ensures forall k :: 0 <= k <= n && k != i ==> Off(b', k) == Off(b, k)
    ensures SameBut(b1, b', SlotAt(|b|, n), SLOT * (n + 1))
  {
    forall k | 0 <= k <= n && k != i ensures Off(b', k) == Off(b, k) {
      WordKept(b, b', SlotAt(|b|, i), 4, SlotAt(|b|, k));
    }
  }

  /** Moved, offsets drawn down, recounted and terminated: the record is gone. */
  lemma DeleteLinks(b: Bytes, b1: Bytes, b3: Bytes, b5: Bytes, b6: Bytes, n: nat, d: nat, moved: nat)
    requires n > 0 && SlotAt(|b|, n) >= HEADER && d >= HEADER && |b5| == |b|
    requires SameBut(b, b1, d, moved) && SameBut(b1, b3, SlotAt(|b|, n), SLOT * (n + 1))
    requires SameBut(b3, b5, FREE_SPACE, 4) && SameBut(b5, b6, SlotAt(|b|, n - 1), 4)
    ensures Links(b6) == Links(b)
  {
    hide Links, Word;
    LinksKept(b, b1, d, moved);
    LinksKept(b1, b3, SlotAt(|b|, n), SLOT * (n + 1));
    LinksKept(b3, b5, FREE_SPACE, 4);
    LinksKept(b5, b6, SlotAt(|b|, n - 1), 4);
  }

  lemma DeleteDone(b: Bytes, b1: Bytes, b3: Bytes, b5: Bytes, b6: Bytes, recs: seq<Bytes>, del: nat)
    requires PageOk(b, recs) && del < |recs|
    requires var (n, d, len) := (|recs|, Off(b, del), |recs[del]|);
             && d + len <= Off(b, n) <= |b|
             && SameBut(b, b1, d, Off(b, n) - d - len) && Moved(b, b1, d, d + len, Off(b, n) - d - len)
             && SameBut(b1, b3, SlotAt(|b|, n), SLOT * (n + 1))
             && (forall k :: 0 <= k <= n ==> Off(b3, k) == ClosedOffs(b, n, d, len)[if del <= k < n then k + 1 else k])
             && Recounted(b3, b5, n - 1, Half(b, FREE_SPACE) + len + SLOT)
             && PutWord(b5, b6, SlotAt(|b|, n - 1), Off(b, n) - len)
    ensures PageOk(b6, RemoveAt(recs, del)) && Links(b6) == Links(b)
  {
    hide Laid, Word, Half, Whole, RemoveAt, PageOk, SameBut, Moved, ClosedOffs, OffsDeleted, Off;
    PageFacts(b, recs);
    var n, d, len := |recs|, Off(b, del), |recs[del]|;
    RecordAt(b, recs, del);
    SameSize(b, b1, d, Off(b, n) - d - len);
    SameSize(b1, b3, SlotAt(|b|, n), SLOT * (n + 1));
    SameSize(b3, b5, FREE_SPACE, 4);
    DeleteOffs(b, b3, b5, b6, n, del, d, len);
    DeleteBytes(b, b1, b3, b5, b6, n, d, len);
    LaidDelete(b, b6, Offs(b, n), Offs(b6, n - 1), recs, del);
    HalfKept(b5, b6, SlotAt(|b|, n - 1), 4, RECS_COUNT);
    HalfKept(b5, b6, SlotAt(|b|, n - 1), 4, FREE_SPACE);
    DeleteLinks(b, b1, b3, b5, b6, n, d, Off(b, n) - d - len);
    RemoveLength(recs, del);
    PageMade(b6, RemoveAt(recs, del));
  }

  lemma SameSize(b: Bytes, b': Bytes, p: nat, len: nat)
    requires SameBut(b, b', p, len)
    ensures |b'| == |b|
  {
  }

  lemma PageMade(b: Bytes, recs: seq<Bytes>)
    requires HEADER + FIRST_OFFSET + SLOT <= |b| <= 65536 && SlotAt(|b|, |recs|) >= HEADER
    requires Half(b, RECS_COUNT) == |recs| && Laid(b, Offs(b, |recs|), recs)
    requires Off(b, |recs|) + Half(b, FREE_SPACE) == SlotAt(|b|, |recs|)
    ensures PageOk(b, recs)
  {
  }

  lemma DeleteOffs(b: Bytes, b3: Bytes, b5: Bytes, b6: Bytes, n: nat, del: nat, d: nat, len: nat)
    requires del < n && SlotAt(|b|, n) >= HEADER && |b3| == |b5| == |b| && len <= Off(b, n) && d == Off(b, del)
    requires forall k :: 0 <= k <= n ==> Off(b3, k) == ClosedOffs(b, n, d, len)[if del <= k < n then k + 1 else k]
    requires SameBut(b3, b5, FREE_SPACE, 4) && PutWord(b5, b6, SlotAt(|b|, n - 1), Off(b, n) - len)
    ensures |b6| == |b| && OffsDeleted(Offs(b, n), Offs(b6, n - 1), del, len)
    ensures Off(b6, n - 1) + len == Off(b, n)
  {
    hide Word;
    OffsKept(b3, b5, FREE_SPACE, 4, n);
    OffsBelow(b5, b6, n - 1);
  }

  lemma DeleteBytes(b: Bytes, b1: Bytes, b3: Bytes, b5: Bytes, b6: Bytes, n: nat, d: nat, len: nat)
    requires n > 0 && HEADER <= d && SlotAt(|b|, n) >= HEADER && d + len <= Off(b, n) <= SlotAt(|b|, n) && |b5| == |b|
    requires SameBut(b, b1, d, Off(b, n) - d - len) && Moved(b, b1, d, d + len, Off(b, n) - d - len)
    requires SameBut(b1, b3, SlotAt(|b|, n), SLOT * (n + 1))
    requires SameBut(b3, b5, FREE_SPACE, 4) && SameBut(b5, b6, SlotAt(|b|, n - 1), 4)
    ensures |b6| == |b| && forall i :: HEADER <= i < d ==> b6[i] == b[i]
    ensures forall i :: d + len <= i < Off(b, n) ==> b6[i - len] == b[i]
  {
    hide Off;
    forall i | d + len <= i < Off(b, n) ensures b6[i - len] == b[i] {
      assert b1[i - len] == b[i];
    }
  }

  /** The offsets `r` of the right node stand behind those of the left one, `l`. */
  ghost predicate SlotsAppended(b: Bytes, l: seq<nat>, r: seq<nat>) {
    && |l| > 0 && |r| > 0 && SlotAt(|b|, |l| + |r| - 2) >= 0
    && (forall k :: 0 <= k < |l| - 1 ==> Off(b, k) == l[k])
    && (forall k :: 0 <= k < |r| ==> Off(b, |l| - 1 + k) == l[|l| - 1] + r[k] - HEADER)
  }

  lemma NewSlot(b1: Bytes, b: Bytes, b': Bytes, last: nat, m: nat, i: nat)
    requires SlotAt(|b|, last) >= 0 && last + 1 >= m && last + 1 - m <= i <= last && SameBut(b, b', SlotAt(|b|, i), 4)
    requires SameBut(b1, b, SlotAt(|b|, last), SLOT * m)
    ensures forall k :: 0 <= k <= last && k != i ==> Off(b', k) == Off(b, k)
    ensures SameBut(b1, b', SlotAt(|b|, last), SLOT * m)
  {
    forall k | 0 <= k <= last && k != i ensures Off(b', k) == Off(b, k) {
      WordKept(b, b', SlotAt(|b|, i), 4, SlotAt(|b|, k));
    }
  }

  lemma RecountBack(b: Bytes, b1: Bytes, b2: Bytes, count: nat, free: nat)
    requires |b| >= HEADER && PutHalf(b, b1, FREE_SPACE, free) && PutHalf(b1, b2, RECS_COUNT, count)
    ensures Recounted(b, b2, count, free)
  {
    HalfKept(b1, b2, RECS_COUNT, 2, FREE_SPACE);
  }

  lemma WordBound(b: Bytes, p: nat)
    requires p + 4 <= |b|
    ensures Word(b, p) < 0x1_0000_0000
  {
  }

  /** Copied, offsets appended, recounted and relinked: both nodes are one. */
  lemma MergeLinks(b: Bytes, b1: Bytes, b3: Bytes, b5: Bytes, b6: Bytes, start: nat, len: nat, slots: nat, slotsLen: nat)
    requires |b| >= HEADER && start >= HEADER && slots >= HEADER
    requires SameBut(b, b1, start, len) && SameBut(b1, b3, slots, slotsLen)
    requires SameBut(b3, b5, FREE_SPACE, 4) && SameBut(b5, b6, NEXT_ID, 4)
    ensures Links(b6) == (Links(b).0, Word(b6, NEXT_ID))
  {
    hide Word;
    LinksKept(b, b1, start, len);
    LinksKept(b1, b3, slots, slotsLen);
    LinksKept(b3, b5, FREE_SPACE, 4);
    WordKept(b5, b6, NEXT_ID, 4, PREV_ID);
  }

  lemma MergeDone(b: Bytes, rb: Bytes, b1: Bytes, b3: Bytes, b5: Bytes, b6: Bytes, recs: seq<Bytes>, rrecs: seq<Bytes>)
    requires PageOk(b, recs) && PageOk(rb, rrecs) && |b| == |rb|
    requires Half(b, FREE_SPACE) + Half(rb, FREE_SPACE) >= |b|
    requires HEADER <= Off(rb, |rrecs|) <= |rb| && SameBut(b, b1, Off(b, |recs|), Off(rb, |rrecs|) - HEADER)
    requires At(b1, Off(b, |recs|), rb[HEADER..Off(rb, |rrecs|)])
    requires SameBut(b1, b3, SlotAt(|b|, |recs| + |rrecs|), SLOT * (|rrecs| + 1))
    requires SlotsAppended(b3, Offs(b, |recs|), Offs(rb, |rrecs|))
    requires Half(b, FREE_SPACE) >= Off(rb, |rrecs|) - HEADER + |rrecs| * SLOT
    requires Recounted(b3, b5, |recs| + |rrecs|, Half(b, FREE_SPACE) - (Off(rb, |rrecs|) - HEADER) - |rrecs| * SLOT)
    requires PutWord(b5, b6, NEXT_ID, Word(rb, NEXT_ID))
    ensures PageOk(b6, recs + rrecs) && Links(b6) == (Links(b).0, Links(rb).1)
  {
    hide Laid, Word, Half, Whole, PageOk, SameBut, SlotsAppended, OffsMerged, Off;
    PageFacts(b, recs);
    PageFacts(rb, rrecs);
    var n, m, start, rEnd := |recs|, |rrecs|, Off(b, |recs|), Off(rb, |rrecs|);
    SameSize(b, b1, start, rEnd - HEADER);
    SameSize(b1, b3, SlotAt(|b|, n + m), SLOT * (m + 1));
    SameSize(b3, b5, FREE_SPACE, 4);
    forall k | 0 <= k <= m ensures HEADER <= Off(rb, k) {
      RightOffset(rb, rrecs, k);
    }
    MergeOffs(b, rb, b3, b5, b6, n, m);
    MergeBytes(b, rb, b1, b3, b5, b6, n + m, start, rEnd, SLOT * (m + 1));
    LaidMerge(b, rb, b6, Offs(b, n), Offs(rb, m), Offs(b6, n + m), recs, rrecs);
    HalfKept(b5, b6, NEXT_ID, 4, RECS_COUNT);
    HalfKept(b5, b6, NEXT_ID, 4, FREE_SPACE);
    MergeLinks(b, b1, b3, b5, b6, start, rEnd - HEADER, SlotAt(|b|, n + m), SLOT * (m + 1));
    PageMade(b6, recs + rrecs);
  }

  lemma MergeOffs(b: Bytes, rb: Bytes, b3: Bytes, b5: Bytes, b6: Bytes, n: nat, m: nat)
    requires SlotAt(|b|, n) >= HEADER && SlotAt(|rb|, m) >= HEADER && SlotAt(|b|, n + m) >= HEADER && |b3| == |b5| == |b|
    requires SlotsAppended(b3, Offs(b, n), Offs(rb, m)) && forall k :: 0 <= k <= m ==> HEADER <= Off(rb, k)
    requires SameBut(b3, b5, FREE_SPACE, 4) && SameBut(b5, b6, NEXT_ID, 4)
    ensures |b6| == |b| && OffsMerged(Offs(b, n), Offs(rb, m), Offs(b6, n + m))
    ensures Off(b6, n + m) + HEADER == Off(b, n) + Off(rb, m)
  {
    hide Word;
    OffsKept(b3, b5, FREE_SPACE, 4, n + m);
    OffsKept(b5, b6, NEXT_ID, 4, n + m);
    var l, r, o := Offs(b, n), Offs(rb, m), Offs(b6, n + m);
    forall k | 0 <= k < |r| ensures o[n + k] + HEADER == l[n] + r[k] {
      assert Off(b3, |l| - 1 + k) == l[|l| - 1] + r[k] - HEADER;
      assert HEADER <= Off(rb, k);
    }
    assert o[n + m] + HEADER == l[n] + r[m];
  }

  lemma MergeBytes(b: Bytes, rb: Bytes, b1: Bytes, b3: Bytes, b5: Bytes, b6: Bytes, n: nat, start: nat, rEnd: nat, slots: nat)
    requires SlotAt(|b|, n) >= 0 && HEADER <= start && HEADER <= rEnd <= |rb| && start - HEADER + rEnd <= SlotAt(|b|, n)
    requires SameBut(b, b1, start, rEnd - HEADER) && At(b1, start, rb[HEADER..rEnd])
    requires SameBut(b1, b3, SlotAt(|b|, n), slots) && SameBut(b3, b5, FREE_SPACE, 4) && SameBut(b5, b6, NEXT_ID, 4)
    ensures |b6| == |b| && forall i :: HEADER <= i < start ==> b6[i] == b[i]
    ensures forall i :: HEADER <= i < rEnd ==> b6[start - HEADER + i] == rb[i]
  {
    forall i | HEADER <= i < rEnd ensures b6[start - HEADER + i] == rb[i] {
      assert rb[HEADER..rEnd][i - HEADER] == rb[i];
    }
  }

  lemma RightOffset(b: Bytes, recs: seq<Bytes>, k: nat)
    requires PageOk(b, recs) && k <= |recs|
    ensures HEADER <= Off(b, k)
  {
    if k < |recs| { RecordAt(b, recs, k); }
  }

  lemma RemoveLength<T>(s: seq<T>, p: nat)
    requires p < |s|
    ensures |RemoveAt(s, p)| == |s| - 1
  {
  }

  class Page {
    /** The greatest record length of the tree (VDFS4_MAX_BTREE_REC_LEN). */
    const maxRecLen: nat
    const data: array<Byte>
    ghost var recs: seq<Bytes>

    ghost predicate Valid()
      reads this, data
    {
      PageOk(data[..], recs)
    }

    /** free_space of the descriptor. */
    function Free(): nat
      requires data.Length >= HEADER
      reads data
    {
      Half(data[..], FREE_SPACE)
    }

    method SetWord(p: nat, v: nat)
      requires p + 4 <= data.Length && v < 0x1_0000_0000
      modifies data
      ensures PutWord(old(data[..]), data[..], p, v)
    {
      var v1 := v / 256;
      var v2 := v1 / 256;
      data[p], data[p + 1], data[p + 2], data[p + 3] := v % 256, v1 % 256, v2 % 256, v2 / 256;
    }

    method SetHalf(p: nat, v: nat)
      requires p + 2 <= data.Length && v < 0x1_0000
      modifies data
      ensures PutHalf(old(data[..]), data[..], p, v)
    {
      data[p], data[p + 1] := v % 256, v / 256;
    }

    /** check_set_offset: refuses a zero offset and one behind the node. */
    method SetOffset(k: nat, off: nat) returns (ok: bool)
      requires SlotAt(data.Length, k) >= 0 && off < 0x1_0000_0000
      modifies data
      ensures ok == (0 < off < data.Length)
      ensures if ok then PutWord(old(data[..]), data[..], SlotAt(data.Length, k), off) else data[..] == old(data[..])
    {
      ok := 0 < off < data.Length;
      if ok {
        SetWord(SlotAt(data.Length, k), off);
      }
    }

    /** memcpy of `bytes` to place `dst`. */
    method CopyIn(dst: nat, bytes: Bytes)
      requires dst + |bytes| <= data.Length
      modifies data
      ensures SameBut(old(data[..]), data[..], dst, |bytes|) && At(data[..], dst, bytes)
    {
      for i := 0 to |bytes|
        invariant forall j :: 0 <= j < data.Length && !(dst <= j < dst + i) ==> data[j] == old(data[j])
        invariant forall j :: dst <= j < dst + i ==> data[j] == bytes[j - dst]
      {
        data[dst + i] := bytes[i];
      }
    }

    /** memmove: the places may overlap, so the bytes move in an order that reads each
    one before it is overwritten. Both calls of the source move towards lower addresses. */
    method MoveDown(dst: nat, src: nat, len: nat)
      requires dst <= src && src + len <= data.Length
      modifies data
      ensures SameBut(old(data[..]), data[..], dst, len)
      ensures Moved(old(data[..]), data[..], dst, src, len)
    {
      for i := 0 to len
        invariant forall j :: 0 <= j < data.Length && !(dst <= j < dst + i) ==> data[j] == old(data[j])
        invariant forall j :: dst <= j < dst + i ==> data[j] == old(data[..])[j - dst + src]
      {
        data[dst + i] := data[src + i];
      }
    }

    /** vdfs4_init_new_node_descr: an empty node without siblings. */
    constructor (size: nat, maxRecLen: nat)
      requires OVERHEAD <= size <= 65536
      ensures Valid() && recs == [] && data.Length == size && this.maxRecLen == maxRecLen && fresh(data)
      ensures Links(data[..]) == (NO_NODE, NO_NODE) && Free() == size - OVERHEAD
    {
      this.maxRecLen := maxRecLen;
      data := new Byte[size](_ => 0);
      recs := [];
      new;
      ghost var b := data[..];
      SetHalf(FREE_SPACE, size - HEADER - SLOT - FIRST_OFFSET);
      ghost var b1 := data[..];
      SetWord(SlotAt(size, 0), HEADER);
      EmptyPage(b, b1, data[..]);
    }

    /** The end of an insertion: the bytes are in place, slot `pos` is opened for them and
    the free space starts behind them. */
    method LinkRecord(ghost rec: Bytes, recLen: nat, pos: nat, recAt: nat, ghost b: Bytes)
      requires |rec| == recLen && PageOk(b, recs) && pos <= |recs| && Whole(rec) && |rec| + SLOT <= Half(b, FREE_SPACE)
      requires recAt == Off(b, |recs|)
      requires SameBut(b, data[..], recAt, |rec|) && At(data[..], recAt, rec)
      modifies data, this`recs
      ensures Valid() && recs == InsertAt(old(recs), pos, rec)
      ensures Links(data[..]) == Links(b) && SlotAt(data.Length, pos) >= 0 && Off(data[..], pos) == recAt
    {
      hide Laid, Word, Half, Whole;
      ghost var b1, n := data[..], |recs|;
      PageFacts(b, recs);
      HalfKept(b, b1, recAt, |rec|, RECS_COUNT);
      HalfKept(b, b1, recAt, |rec|, FREE_SPACE);
      var count, freeSpace := Half(data[..], RECS_COUNT), Half(data[..], FREE_SPACE);
      if count > pos {
        MoveDown(SlotAt(data.Length, count), SlotAt(data.Length, count) + SLOT, SLOT * (count - pos));
      }
      ghost var b2 := data[..];
      assert Moved(b1, b2, SlotAt(|b|, n), SlotAt(|b|, n) + SLOT, SLOT * (n - pos));
      var ok := SetOffset(pos, recAt);
      assert ok;
      ghost var b3 := data[..];
      OpenSlots(b1, b2, b3, n, pos, recAt);
      SetHalf(RECS_COUNT, count + 1);
      ghost var b4 := data[..];
      SetHalf(FREE_SPACE, freeSpace - (recLen + SLOT));
      ghost var b5 := data[..];
      Recount(b3, b4, b5, n + 1, freeSpace - (|rec| + SLOT));
      ok := SetOffset(count + 1, recAt + recLen);
      assert ok;
      InsertDone(b, b1, b3, b5, data[..], recs, pos, rec);
      recs := InsertAt(recs, pos, rec);
    }

    /** vdfs4_insert_into_node: puts a record before record `pos`. The bytes go to the free
    space; there must be room for the record and its slot (is_node_full). */
    method InsertIntoNode(rec: Bytes, pos: nat)
      requires Valid() && pos <= |recs| && Whole(rec)
      requires |rec| + SLOT <= Free()
      modifies data, this`recs
      ensures Valid() && recs == InsertAt(old(recs), pos, rec)
      ensures Links(data[..]) == old(Links(data[..]))
    {
      hide Laid, Word, Half, Whole;
      ghost var b := data[..];
      PageFacts(b, recs);
      var recAt := Off(data[..], Half(data[..], RECS_COUNT));
      CopyIn(recAt, rec);
      LinkRecord(rec, |rec|, pos, recAt, b);
    }

    /** __place_into_node: puts a key before record `pos`, followed by its value or by room
    for one, as a record of `newRecLen` bytes. */
    method PlaceIntoNode(newKey: Bytes, newRecLen: nat, pos: nat, placeOnlyKey: bool) returns (recAt: nat, ghost rec: Bytes)
      requires Valid() && pos <= |recs|
      requires KEY_HEADER <= newRecLen < 65536 && newRecLen + SLOT <= Free()
      requires |newKey| >= KEY_HEADER && (if placeOnlyKey then KEY_HEADER <= Half(newKey, KEY_LEN) <= newRecLen else |newKey| >= newRecLen)
      requires placeOnlyKey ==> Half(newKey, KEY_LEN) <= |newKey|
      modifies data, this`recs
      ensures Valid() && recs == InsertAt(old(recs), pos, rec) && |rec| == newRecLen
      ensures SlotAt(data.Length, pos) >= 0 && recAt == Off(data[..], pos)
      ensures forall i :: 0 <= i < (if placeOnlyKey then Half(newKey, KEY_LEN) else newRecLen) && !LenField(i) ==>
                rec[i] == newKey[i]
      ensures Links(data[..]) == old(Links(data[..]))
    {
      hide Laid, Word, Half, Whole;
      ghost var b := data[..];
      PageFacts(b, recs);
      var dataLen := if placeOnlyKey then Half(newKey, KEY_LEN) else newRecLen;
      recAt := Off(data[..], Half(data[..], RECS_COUNT));
      CopyIn(recAt, newKey[..dataLen]);
      ghost var b0 := data[..];
      SetHalf(recAt + RECORD_LEN, newRecLen);
      ghost var b1 := data[..];
      rec := b1[recAt..recAt + newRecLen];
      RecordWritten(b, b0, b1, recAt, newKey, dataLen, newRecLen);
      LinkRecord(rec, newRecLen, pos, recAt, b);
    }

    /** append_bnode: puts a whole record behind the others. */
    method AppendBnode(rec: Bytes)
      requires Valid() && Whole(rec) && |rec| + SLOT <= Free()
      modifies data, this`recs
      ensures Valid() && recs == old(recs) + [rec]
      ensures Links(data[..]) == old(Links(data[..]))
    {
      ghost var was := recs;
      ghost var placed;
      var at;
      at, placed := PlaceIntoNode(rec, Half(rec, RECORD_LEN), Half(data[..], RECS_COUNT), false);
      assert Whole(recs[|was|]);
      SameRecord(rec, placed);
      assert InsertAt(was, |was|, rec) == was + [rec];
    }

    /** get_record: the bytes that record `k` is made of. */
    method GetRecord(k: nat) returns (rec: Bytes)
      requires Valid() && k < |recs|
      ensures rec == recs[k]
    {
      hide Laid, Word, Half, Whole;
      PageFacts(data[..], recs);
      RecordAt(data[..], recs, k);
      var at := Off(data[..], k);
      rec := data[at..at + Half(data[..], at + RECORD_LEN)];
    }

    /** The first loop of delete_from_node: offsets behind the deleted record move down. */
    method DrawDown(count: nat, del: nat, delAt: nat, recLen: nat, ghost b: Bytes, ghost rs: seq<Bytes>)
      requires PageOk(b, rs) && count == |rs| && del < |rs| && delAt == Off(b, del) && recLen == |rs[del]|
      requires data.Length == |b| && SlotAt(data.Length, count) >= 0
      requires forall k :: 0 <= k <= count ==> Off(data[..], k) == Off(b, k)
      modifies data
      ensures SameBut(old(data[..]), data[..], SlotAt(data.Length, count), SLOT * (count + 1))
      ensures forall k :: 0 <= k <= count ==> Off(data[..], k) == ClosedOffs(b, count, delAt, recLen)[k]
    {
      hide Laid, Word, Half, Whole, SameBut, PageOk, ClosedOffs;
      ghost var b1, closed := data[..], ClosedOffs(b, count, delAt, recLen);
      ClosedAre(b, count, delAt, recLen, closed);
      PageFacts(b, rs);
      SameButRefl(b1, SlotAt(|b|, count), SLOT * (count + 1));
      for i := 0 to count
        invariant SameBut(b1, data[..], SlotAt(|b|, count), SLOT * (count + 1))
        invariant forall k :: 0 <= k <= count ==> Off(data[..], k) == if k < i then closed[k] else Off(b, k)
      {
        ghost var b2 := data[..];
        var cur := Off(data[..], i);
        if cur > delAt {
          RecordAt(b, rs, i);
          OtherRecord(b, rs, i, del);
          var done := SetOffset(i, cur - recLen);
          assert done;
          OneSlot(b1, b2, data[..], count, i);
        }
      }
    }

    /** The second loop of delete_from_node: the offsets behind slot `del` move up by one. */
    method ShiftSlots(count: nat, del: nat, ghost offs: seq<nat>)
      requires del < count && SlotAt(data.Length, count) >= 0 && |offs| == count + 1 && data.Length <= 65536
      requires forall k :: 0 <= k <= count ==> 0 < offs[k] < data.Length && Off(data[..], k) == offs[k]
      modifies data
      ensures SameBut(old(data[..]), data[..], SlotAt(data.Length, count), SLOT * (count + 1))
      ensures forall k :: 0 <= k <= count ==> Off(data[..], k) == offs[if del <= k < count then k + 1 else k]
    {
      hide Word, SameBut;
      ghost var b1 := data[..];
      SameButRefl(b1, SlotAt(data.Length, count), SLOT * (count + 1));
      for i := del to count
        invariant SameBut(b1, data[..], SlotAt(data.Length, count), SLOT * (count + 1))
        invariant forall k :: 0 <= k <= count ==> Off(data[..], k) == offs[if del <= k < i then k + 1 else k]
      {
        ghost var b2 := data[..];
        var next := Off(data[..], i + 1);
        assert next == offs[i + 1];
        var done := SetOffset(i, next);
        assert done;
        OneSlot(b1, b2, data[..], count, i);
      }
    }

    /** The moves of delete_from_node: the records and the offsets behind record `del` close up. */
    method CloseGap(count: nat, del: nat, delAt: nat, recLen: nat, freeAt: nat) returns (ghost b1: Bytes)
      requires Valid() && del < count == |recs| && delAt == Off(data[..], del) && recLen == |recs[del]|
      requires freeAt == Off(data[..], count) && HEADER <= delAt && delAt + recLen <= freeAt <= data.Length
      modifies data
      ensures var (b, n) := (old(data[..]), |recs|);
              && SlotAt(|b|, n) >= HEADER && SlotAt(data.Length, n) >= HEADER
              && SameBut(b, b1, delAt, freeAt - delAt - recLen) && Moved(b, b1, delAt, delAt + recLen, freeAt - delAt - recLen)
              && SameBut(b1, data[..], SlotAt(|b|, n), SLOT * (n + 1))
              && forall k :: 0 <= k <= n ==> Off(data[..], k) == ClosedOffs(b, n, delAt, recLen)[if del <= k < n then k + 1 else k]
    {
      hide Laid, Word, Half, Whole, SameBut, Moved, ClosedOffs;
      ghost var b, n := data[..], |recs|;
      PageFacts(b, recs);
      MoveDown(delAt, delAt + recLen, freeAt - delAt - recLen);
      b1 := data[..];
      OffsKept(b, b1, delAt, freeAt - delAt - recLen, n);
      ghost var closed := ClosedOffs(b, n, delAt, recLen);
      DrawDown(count, del, delAt, recLen, b, recs);
      ghost var b2 := data[..];
      forall k | 0 <= k <= n ensures 0 < closed[k] < |b| {
        ClosedBounds(b, recs, del, k);
      }
      ShiftSlots(count, del, closed);
      SameButTwice(b1, b2, data[..], SlotAt(|b|, n), SLOT * (n + 1));
    }

    /** delete_from_node: closes the gap that record `del` leaves, draws the offsets behind
    it down, and closes the gap in the offset table. Refuses a record that is too long. */
    method DeleteFromNode(del: nat) returns (ok: bool)
      requires Valid() && del < |recs|
      modifies data, this`recs
      ensures Valid() && ok == (|old(recs)[del]| <= maxRecLen)
      ensures recs == if ok then RemoveAt(old(recs), del) else old(recs)
      ensures Links(data[..]) == old(Links(data[..]))
    {
      hide Laid, Word, Half, Whole, SameBut, Moved, ClosedOffs, RemoveAt;
      ghost var b, n := data[..], |recs|;
      PageFacts(b, recs);
      var count, freeSpace := Half(data[..], RECS_COUNT), Half(data[..], FREE_SPACE);
      var freeAt, delAt := Off(data[..], count), Off(data[..], del);
      RecordAt(b, recs, del);
      var recLen := Half(data[..], delAt + RECORD_LEN);
      ok := recLen <= maxRecLen;
      if !ok {
        return;
      }
      ghost var b1 := CloseGap(count, del, delAt, recLen, freeAt);
      ghost var b3 := data[..];
      SetHalf(RECS_COUNT, count - 1);
      ghost var b4 := data[..];
      SetHalf(FREE_SPACE, freeSpace + (recLen + SLOT));
      Recount(b3, b4, data[..], n - 1, freeSpace + (recLen + SLOT));
      ghost var b5 := data[..];
      var done := SetOffset(count - 1, freeAt - recLen);
      assert done;
      DeleteDone(b, b1, b3, b5, data[..], recs, del);
      recs := RemoveAt(recs, del);
    }

    /** The loop of btree_merge that appends the offsets of the right node. */
    method AppendSlots(n: nat, start: nat, rOffs: seq<nat>, ghost l: seq<nat>)
      requires |rOffs| > 0 && |l| == n + 1 && SlotAt(data.Length, n + |rOffs| - 1) >= 0 && data.Length <= 65536
      requires forall k :: 0 <= k <= n ==> Off(data[..], k) == l[k]
      requires start == l[n] && forall i :: 0 <= i < |rOffs| ==> HEADER <= rOffs[i] && 0 < start + rOffs[i] - HEADER < data.Length
      modifies data
      ensures SameBut(old(data[..]), data[..], SlotAt(data.Length, n + |rOffs| - 1), SLOT * |rOffs|)
      ensures SlotsAppended(data[..], l, rOffs)
    {
      hide Word, SameBut;
      ghost var b1, last := data[..], n + |rOffs| - 1;
      SameButRefl(b1, SlotAt(data.Length, last), SLOT * |rOffs|);
      for i := 0 to |rOffs|
        invariant SameBut(b1, data[..], SlotAt(data.Length, last), SLOT * |rOffs|)
        invariant forall k :: 0 <= k < n ==> Off(data[..], k) == l[k]
        invariant forall k :: 0 <= k < i ==> Off(data[..], n + k) == start + rOffs[k] - HEADER
      {
        ghost var b2 := data[..];
        var done := SetOffset(n + i, start + rOffs[i] - HEADER);
        assert done;
        NewSlot(b1, b2, data[..], last, |rOffs|, n + i);
      }
    }

    /** btree_merge, the page part: appends the records of the right sibling, whose records
    fit because the free bytes of both together fill a node. */
    method Merge(right: Page)
      requires Valid() && right.Valid() && right != this && right.data != data && data.Length == right.data.Length
      requires Free() + right.Free() >= data.Length
      modifies data, this`recs
      ensures Valid() && recs == old(recs) + right.recs
      ensures Links(data[..]) == (old(Links(data[..]).0), old(Links(right.data[..]).1))
    {
      hide Laid, Word, Half, Whole, SameBut;
      ghost var b, rb, n, m := data[..], right.data[..], |recs|, |right.recs|;
      PageFacts(b, recs);
      PageFacts(rb, right.recs);
      var count, rCount := Half(data[..], RECS_COUNT), Half(right.data[..], RECS_COUNT);
      var start, rEnd := Off(data[..], count), Off(right.data[..], rCount);
      var free := Half(data[..], FREE_SPACE);
      CopyIn(start, right.data[HEADER..rEnd]);
      ghost var b1 := data[..];
      OffsKept(b, b1, start, rEnd - HEADER, n);
      forall k | 0 <= k <= m ensures HEADER <= Offs(rb, m)[k] <= rEnd {
        if k < m { RecordAt(rb, right.recs, k); }
      }
      AppendSlots(count, start, Offs(right.data[..], rCount), Offs(b, n));
      ghost var b3 := data[..];
      SetHalf(FREE_SPACE, free - (rEnd - HEADER) - rCount * SLOT);
      ghost var b4 := data[..];
      SetHalf(RECS_COUNT, count + rCount);
      ghost var b5 := data[..];
      RecountBack(b3, b4, b5, n + m, free - (rEnd - HEADER) - rCount * SLOT);
      WordBound(rb, NEXT_ID);
      SetWord(NEXT_ID, Word(right.data[..], NEXT_ID));
      MergeDone(b, rb, b1, b3, b5, data[..], recs, right.recs);
      recs := recs + right.recs;
    }
  }
}
