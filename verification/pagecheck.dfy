/** What fsck checks of the records of a tree node (extractor/vdfs-tools/fsck/fsck_corruption_check.c), compared with
the page invariant that the operations of the tree keep. */
module PageCheck {
  import opened Octets
  import opened Nodes
  import opened Pages

  /** Error bits: FSCK_RECORDS_OFFSETS_DOSENT_MATCH, FSCK_INVALID_RECS_CNT and FSCK_CORRUPTED_OFFSET. */
  const OFFSETS_DONT_MATCH: nat := 7
  const INVALID_RECS_CNT: nat := 9
  const CORRUPTED_OFFSET: nat := 15

  /* ---- sorting ---- */

  function Insert(x: nat, s: seq<nat>): (r: seq<nat>)
    ensures |r| == |s| + 1
  {
    if s == [] || x <= s[0] then [x] + s else [s[0]] + Insert(x, s[1..])
  }

  /** qsort with the comparison of ints. */
  function Sort(s: seq<nat>): (r: seq<nat>)
    ensures |r| == |s|
  {
    if s == [] then [] else Insert(s[0], Sort(s[1..]))
  }

  ghost predicate Ordered(s: seq<nat>) {
    forall i, j :: 0 <= i < j < |s| ==> s[i] <= s[j]
  }

  ghost predicate Increasing(s: seq<nat>) {
    forall i, j :: 0 <= i < j < |s| ==> s[i] < s[j]
  }

  ghost predicate Distinct(s: seq<nat>) {
    forall i, j :: 0 <= i < j < |s| ==> s[i] != s[j]
  }

  lemma OrderedInFront(x: nat, s: seq<nat>)
    ensures Ordered([x] + s) <==> Ordered(s) && forall y :: y in s ==> x <= y
  {
    var t := [x] + s;
    if Ordered(t) {
      forall i, j | 0 <= i < j < |s| ensures s[i] <= s[j] {
        assert t[i + 1] <= t[j + 1];
      }
      forall y | y in s ensures x <= y {
        var k :| 0 <= k < |s| && s[k] == y;
        assert t[0] <= t[k + 1];
      }
    }
    if Ordered(s) && forall y :: y in s ==> x <= y {
      forall i, j | 0 <= i < j < |t| ensures t[i] <= t[j] {
        assert t[j] == s[j - 1] && s[j - 1] in s;
        assert i > 0 ==> t[i] == s[i - 1];
      }
    }
  }

  lemma IncreasingInFront(x: nat, s: seq<nat>)
    ensures Increasing([x] + s) <==> Increasing(s) && forall y :: y in s ==> x < y
  {
    var t := [x] + s;
    if Increasing(t) {
      forall i, j | 0 <= i < j < |s| ensures s[i] < s[j] {
        assert t[i + 1] < t[j + 1];
      }
      forall y | y in s ensures x < y {
        var k :| 0 <= k < |s| && s[k] == y;
        assert t[0] < t[k + 1];
      }
    }
    if Increasing(s) && forall y :: y in s ==> x < y {
      forall i, j | 0 <= i < j < |t| ensures t[i] < t[j] {
        assert t[j] == s[j - 1] && s[j - 1] in s;
        assert i > 0 ==> t[i] == s[i - 1];
      }
    }
  }

  lemma {:induction false} InsertIs(x: nat, s: seq<nat>)
    requires Ordered(s)
    ensures Ordered(Insert(x, s))
    ensures forall y :: y in Insert(x, s) <==> y == x || y in s
    ensures Increasing(Insert(x, s)) <==> Increasing(s) && x !in s
  {
    hide Ordered, Increasing;
    if s == [] {
      assert [x] + [] == [x];
      Single(x);
    } else {
      assert s == [s[0]] + s[1..];
      OrderedInFront(s[0], s[1..]);
      IncreasingInFront(s[0], s[1..]);
      if x <= s[0] {
        OrderedInFront(x, s);
        IncreasingInFront(x, s);
      } else {
        InsertIs(x, s[1..]);
        OrderedInFront(s[0], Insert(x, s[1..]));
        IncreasingInFront(s[0], Insert(x, s[1..]));
      }
    }
  }

  lemma Single(x: nat)
    ensures Ordered([]) && Ordered([x]) && Increasing([]) && Increasing([x])
  {
  }

  lemma {:induction false} SortIs(s: seq<nat>)
    ensures Ordered(Sort(s))
    ensures forall y :: y in Sort(s) <==> y in s
    ensures Increasing(Sort(s)) <==> Distinct(s)
  {
    if s != [] {
      SortIs(s[1..]);
      InsertIs(s[0], Sort(s[1..]));
      assert s == [s[0]] + s[1..];
    }
  }

  /* ---- the lengths of records ---- */

  /** The record length that stands at a place of memory. */
  function LenAt(mem: Bytes, p: nat): nat {
    if p + KEY_HEADER <= |mem| then Half(mem, p + RECORD_LEN) else 0
  }

  function Sum(mem: Bytes, s: seq<nat>): nat {
    if s == [] then 0 else LenAt(mem, s[0]) + Sum(mem, s[1..])
  }

  lemma {:induction false} SumInsert(mem: Bytes, x: nat, s: seq<nat>)
    ensures Sum(mem, Insert(x, s)) == LenAt(mem, x) + Sum(mem, s)
  {
    hide LenAt;
    if s == [] || x <= s[0] {
      assert ([x] + s)[1..] == s;
    } else {
      SumInsert(mem, x, s[1..]);
      assert ([s[0]] + Insert(x, s[1..]))[1..] == Insert(x, s[1..]);
    }
  }

  lemma {:induction false} SumSort(mem: Bytes, s: seq<nat>)
    ensures Sum(mem, Sort(s)) == Sum(mem, s)
  {
    hide LenAt;
    if s != [] {
      SumSort(mem, s[1..]);
      SumInsert(mem, s[0], Sort(s[1..]));
    }
  }

  lemma {:induction false} SumMore(mem: Bytes, s: seq<nat>, x: nat)
    ensures Sum(mem, s + [x]) == Sum(mem, s) + LenAt(mem, x)
  {
    hide LenAt;
    if s == [] {
      assert [] + [x] == [x] && [x][1..] == [];
    } else {
      SumMore(mem, s[1..], x);
      assert (s + [x])[1..] == s[1..] + [x];
    }
  }

  /** Each offset of the list is the end of the record before it. */
  ghost predicate Steps(mem: Bytes, s: seq<nat>) {
    forall i :: 0 <= i < |s| - 1 ==> Step(mem, s, i)
  }

  predicate Step(mem: Bytes, s: seq<nat>, i: nat)
    requires i + 1 < |s|
  {
    s[i + 1] == s[i] + LenAt(mem, s[i])
  }

  lemma {:induction false} StepsSum(mem: Bytes, s: seq<nat>, i: nat)
    requires Steps(mem, s) && i < |s|
    ensures s[i] == s[0] + Sum(mem, s[..i])
  {
    hide LenAt;
    if i > 0 {
      StepsSum(mem, s, i - 1);
      SumMore(mem, s[..i - 1], s[i - 1]);
      assert s[..i - 1] + [s[i - 1]] == s[..i];
      assert Step(mem, s, i - 1);
    } else {
      assert s[..0] == [];
    }
  }

  /** A place between the first offset and the last is in the range of one. */
  lemma {:induction false} StepsCover(mem: Bytes, s: seq<nat>, p: nat, n: nat) returns (i: nat)
    requires n < |s| && s[0] <= p < s[n]
    ensures i < n && s[i] <= p < s[i + 1]
  {
    if s[n - 1] <= p {
      i := n - 1;
    } else {
      i := StepsCover(mem, s, p, n - 1);
    }
  }

  lemma {:induction false} StepsIncrease(mem: Bytes, s: seq<nat>, i: nat, j: nat)
    requires Steps(mem, s) && i < j < |s|
    requires forall k :: 0 <= k < |s| - 1 ==> LenAt(mem, s[k]) > 0
    ensures s[i] + LenAt(mem, s[i]) <= s[j]
  {
    hide LenAt;
    assert Step(mem, s, j - 1);
    if i < j - 1 {
      StepsIncrease(mem, s, i, j - 1);
    }
  }

  /* ---- the check ---- */

  /** MAX_RECS_IN_BNODE. */
  function MaxRecs(size: nat): nat
    requires size >= HEADER + SLOT + FIRST_OFFSET
  {
    (size - HEADER - SLOT - FIRST_OFFSET) / (KEY_HEADER + SLOT)
  }

  lemma RoomForSlots(size: nat, n: nat)
    requires size >= HEADER + SLOT + FIRST_OFFSET
    ensures n <= MaxRecs(size) <==> HEADER + KEY_HEADER * n <= SlotAt(size, n)
  {
  }

  /** The offsets as the check sorts them: the free space stays last. */
  function Arranged(offs: seq<nat>): (s: seq<nat>)
    requires |offs| > 0
    ensures |s| == |offs|
  {
    Sort(offs[..|offs| - 1]) + [offs[|offs| - 1]]
  }

  lemma ArrangedIs(offs: seq<nat>)
    requires |offs| > 0
    ensures Arranged(offs)[|offs| - 1] == offs[|offs| - 1]
    ensures Arranged(offs)[..|offs| - 1] == Sort(offs[..|offs| - 1])
    ensures forall i :: 0 <= i < |offs| - 1 ==> Arranged(offs)[i] in offs[..|offs| - 1]
    ensures forall i, j :: 0 <= i < j < |offs| - 1 ==> Arranged(offs)[i] <= Arranged(offs)[j]
  {
    var n := |offs| - 1;
    SortIs(offs[..n]);
    assert Arranged(offs)[..n] == Sort(offs[..n]);
    forall i | 0 <= i < n ensures Arranged(offs)[i] in offs[..n] {
      assert Arranged(offs)[i] == Sort(offs[..n])[i];
    }
  }

  /** The data area begins behind the descriptor, and no record is shorter than its key header. */
  ghost predicate Begins(mem: Bytes, offs: seq<nat>) {
    && (forall k :: 0 <= k < |offs| ==> offs[k] >= HEADER)
    && HEADER in offs
    && (forall k :: 0 <= k < |offs| - 1 ==> LenAt(mem, offs[k]) >= KEY_HEADER)
  }

  /** The part of check_bnode that looks at the records, check_bnode_records included. The lengths of records near the
  end of the node are read from the memory behind it. */
  method CheckBnodeRecords(b: Bytes, behind: Bytes) returns (ret: set<nat>)
    requires HEADER + SLOT + FIRST_OFFSET <= |b| <= 65536 && |behind| >= KEY_HEADER
    ensures INVALID_RECS_CNT in ret <==> Half(b, RECS_COUNT) > MaxRecs(|b|)
    ensures ret <= {OFFSETS_DONT_MATCH} || ret == {INVALID_RECS_CNT} || ret == {CORRUPTED_OFFSET}
    ensures ret == {} <==> Half(b, RECS_COUNT) <= MaxRecs(|b|) && Accepted(b, behind)
    ensures (exists recs :: PageOk(b, recs)) <==>
              ret == {} && SlotAt(|b|, Half(b, RECS_COUNT)) >= 0 && Begins(b + behind, Offs(b, Half(b, RECS_COUNT)))
  {
    hide PageOk, Begins, Sort, Half, LenAt, MaxRecs, Steps, Step, Off, Arranged;
    var mem, count := b + behind, Half(b, RECS_COUNT);
    RoomForSlots(|b|, count);
    if count > MaxRecs(|b|) {
      TooMany(b);
      return {INVALID_RECS_CNT};
    }
    ret := {};
    var offsets := Offs(b, count);
    var calcFreeSpace: int := SlotAt(|b|, count) - offsets[count];
    if Half(b, FREE_SPACE) != calcFreeSpace {
      ret := {OFFSETS_DONT_MATCH};
    }
    var offsetError := false;
    for ctr := 0 to count + 1
      invariant offsetError <==> exists k :: 0 <= k < ctr && offsets[k] >= |b|
    {
      if offsets[ctr] >= |b| {
        offsetError := true;
      }
    }
    if offsetError {
      OffsetOutside(b, behind);
      return {CORRUPTED_OFFSET};
    }
    var sorted := Arranged(offsets);
    ArrangedIs(offsets);
    for ctr := 0 to count
      invariant ret == if Half(b, FREE_SPACE) == calcFreeSpace && forall i :: 0 <= i < ctr ==> Step(mem, sorted, i)
                       then {} else {OFFSETS_DONT_MATCH}
    {
      StepIs(mem, sorted, ctr);
      if sorted[ctr + 1] != sorted[ctr] + LenAt(mem, sorted[ctr]) {
        ret := {OFFSETS_DONT_MATCH};
      }
    }
    StepsAre(mem, sorted);
    Exact(b, behind);
  }

  lemma StepIs(mem: Bytes, s: seq<nat>, i: nat)
    requires i + 1 < |s|
    ensures Step(mem, s, i) <==> s[i + 1] == s[i] + LenAt(mem, s[i])
  {
  }

  lemma StepsAre(mem: Bytes, s: seq<nat>)
    requires |s| > 0
    ensures Steps(mem, s) <==> forall i :: 0 <= i < |s| - 1 ==> Step(mem, s, i)
  {
  }

  /** What the check demands of a page without too many records. */
  ghost predicate Accepted(b: Bytes, behind: Bytes)
    requires |b| >= HEADER
  {
    var n := Half(b, RECS_COUNT);
    SlotAt(|b|, n) >= 0 &&
    var offs := Offs(b, n);
    && Half(b, FREE_SPACE) == SlotAt(|b|, n) - offs[n]
    && (forall k :: 0 <= k <= n ==> offs[k] < |b|)
    && Steps(b + behind, Arranged(offs))
  }

  lemma {:induction false} TotalAtLeast(recs: seq<Bytes>)
    requires forall k :: 0 <= k < |recs| ==> |recs[k]| >= KEY_HEADER
    ensures Total(recs) >= KEY_HEADER * |recs|
  {
    if recs != [] {
      TotalAtLeast(recs[..|recs| - 1]);
    }
  }

  lemma LongRecords(b: Bytes, recs: seq<Bytes>)
    requires PageOk(b, recs)
    ensures HEADER + KEY_HEADER * |recs| <= Off(b, |recs|) <= SlotAt(|b|, |recs|)
    ensures |recs| == Half(b, RECS_COUNT)
    ensures forall k :: 0 <= k < |recs| ==> |recs[k]| >= KEY_HEADER && Off(b, k) + |recs[k]| <= Off(b, |recs|)
  {
    hide Apart, Covered, Half;
    var offs := Offs(b, |recs|);
    assert forall k :: 0 <= k < |recs| ==> offs[k] == Off(b, k);
    forall k | 0 <= k < |recs| ensures |recs[k]| >= KEY_HEADER {
      assert Whole(recs[k]);
    }
    TotalAtLeast(recs);
  }

  lemma TooMany(b: Bytes)
    requires HEADER + SLOT + FIRST_OFFSET <= |b| && Half(b, RECS_COUNT) > MaxRecs(|b|)
    ensures !exists recs :: PageOk(b, recs)
  {
    hide PageOk, Half, MaxRecs;
    if recs :| PageOk(b, recs) {
      LongRecords(b, recs);
      RoomForSlots(|b|, Half(b, RECS_COUNT));
      assert false;
    }
  }

  lemma OffsetOutside(b: Bytes, behind: Bytes)
    requires HEADER + SLOT + FIRST_OFFSET <= |b| && SlotAt(|b|, Half(b, RECS_COUNT)) >= 0
    requires exists k :: 0 <= k <= Half(b, RECS_COUNT) && Offs(b, Half(b, RECS_COUNT))[k] >= |b|
    ensures !exists recs :: PageOk(b, recs)
  {
    hide PageOk, Half;
    if recs :| PageOk(b, recs) {
      OffsetsInside(b, recs);
      assert false;
    }
  }

  lemma OffsetsInside(b: Bytes, recs: seq<Bytes>)
    requires PageOk(b, recs)
    ensures forall k :: 0 <= k <= |recs| ==> Offs(b, |recs|)[k] < |b|
    ensures |recs| == Half(b, RECS_COUNT)
  {
    hide PageOk, Half;
    LongRecords(b, recs);
    forall k | 0 <= k <= |recs| ensures Offs(b, |recs|)[k] < |b| {
      assert Offs(b, |recs|)[k] == Off(b, k);
    }
  }

  /** A page without too many records is as the tree keeps it exactly when the check accepts it and it begins right. */
  lemma Exact(b: Bytes, behind: Bytes)
    requires HEADER + SLOT + FIRST_OFFSET <= |b| <= 65536 && |behind| >= KEY_HEADER
    requires Half(b, RECS_COUNT) <= MaxRecs(|b|) && SlotAt(|b|, Half(b, RECS_COUNT)) >= 0
    ensures (exists recs :: PageOk(b, recs)) <==> Accepted(b, behind) && Begins(b + behind, Offs(b, Half(b, RECS_COUNT)))
  {
    hide PageOk, Begins, Accepted, Half, Offs;
    if recs :| PageOk(b, recs) {
      GoodAccepted(b, behind, recs);
    }
    if Accepted(b, behind) && Begins(b + behind, Offs(b, Half(b, RECS_COUNT))) {
      AcceptedGood(b, behind);
      assert PageOk(b, RecordsAt(b + behind, Offs(b, Half(b, RECS_COUNT))));
    }
  }

  /* ---- the check accepts good pages ---- */

  lemma LenIs(b: Bytes, behind: Bytes, p: nat, r: Bytes)
    requires At(b, p, r) && Whole(r)
    ensures LenAt(b + behind, p) == |r|
  {
    var mem := b + behind;
    assert mem[p + RECORD_LEN] == r[RECORD_LEN] && mem[p + RECORD_LEN + 1] == r[RECORD_LEN + 1];
  }

  lemma LensAre(b: Bytes, behind: Bytes, offs: seq<nat>, recs: seq<Bytes>)
    requires Stored(b, offs, recs)
    ensures forall k :: 0 <= k < |recs| ==> LenAt(b + behind, offs[k]) == |recs[k]| && |recs[k]| >= KEY_HEADER
  {
    hide At, LenAt;
    forall k | 0 <= k < |recs| ensures LenAt(b + behind, offs[k]) == |recs[k]| && |recs[k]| >= KEY_HEADER {
      LenIs(b, behind, offs[k], recs[k]);
    }
  }

  /** The offset behind record `k` in order. */
  lemma NextOffset(offs: seq<nat>, recs: seq<Bytes>, s: seq<nat>, i: nat, k: nat)
    requires Inside(offs, recs) && Apart(offs, recs) && Covered(offs, recs)
    requires forall k :: 0 <= k < |recs| ==> |recs[k]| >= KEY_HEADER
    requires |s| == |offs| && s[|recs|] == offs[|recs|] && i < |recs| && k < |recs| && s[i] == offs[k]
    requires forall j :: 0 <= j < |recs| ==> s[j] in offs[..|recs|]
    requires forall j :: 0 <= j < |recs| ==> offs[j] in s[..|recs|]
    requires Increasing(s[..|recs|])
    ensures s[i + 1] == s[i] + |recs[k]|
  {
    hide Covered, Inside;
    var n, e := |recs|, offs[k] + |recs[k]|;
    InsideAt(offs, recs, k);
    forall x, y | 0 <= x < y < n ensures s[x] < s[y] {
      assert s[..n][x] < s[..n][y];
    }
    if i + 1 < n {
      var m :| 0 <= m < n && offs[..n][m] == s[i + 1];
      InsideAt(offs, recs, m);
      assert Before(offs, recs, k, m) || Before(offs, recs, m, k);
    }
    if e < offs[n] {
      var m := CoveredBy(offs, recs, e);
      assert m != k && (Before(offs, recs, k, m) || Before(offs, recs, m, k));
      assert offs[m] == e;
      var j :| 0 <= j < n && s[..n][j] == offs[m];
    }
  }

  lemma InsideAt(offs: seq<nat>, recs: seq<Bytes>, k: nat)
    requires Inside(offs, recs) && k < |recs|
    ensures HEADER <= offs[k] && offs[k] + |recs[k]| <= offs[|recs|] && |offs| == |recs| + 1
  {
  }

  lemma CoveredBy(offs: seq<nat>, recs: seq<Bytes>, p: nat) returns (k: nat)
    requires Inside(offs, recs) && Covered(offs, recs) && HEADER <= p < offs[|recs|]
    ensures k < |recs| && offs[k] <= p < offs[k] + |recs[k]|
  {
    assert InSome(offs, recs, p);
    k :| Within(offs, recs, k, p);
  }

  lemma Separate(offs: seq<nat>, recs: seq<Bytes>)
    requires Inside(offs, recs) && Apart(offs, recs) && forall k :: 0 <= k < |recs| ==> |recs[k]| >= KEY_HEADER
    ensures Distinct(offs[..|recs|])
  {
    forall i, j | 0 <= i < j < |recs| ensures offs[i] != offs[j] {
      assert Before(offs, recs, i, j) || Before(offs, recs, j, i);
    }
  }

  lemma LaidSteps(b: Bytes, behind: Bytes, offs: seq<nat>, recs: seq<Bytes>)
    requires Laid(b, offs, recs)
    ensures |offs| > 0 && Steps(b + behind, Arranged(offs))
  {
    hide Inside, Stored, Apart, Covered, LenAt, Sort, Distinct, Increasing;
    var n := |recs|;
    InsideLength(offs, recs);
    var s := Arranged(offs);
    ArrangedIs(offs);
    LensAre(b, behind, offs, recs);
    Separate(offs, recs);
    SortIs(offs[..n]);
    assert forall j :: 0 <= j < n ==> offs[j] == offs[..n][j];
    forall i | 0 <= i < n ensures Step(b + behind, s, i) {
      var k :| 0 <= k < n && offs[..n][k] == s[i];
      NextOffset(offs, recs, s, i, k);
    }
  }

  lemma InsideLength(offs: seq<nat>, recs: seq<Bytes>)
    requires Inside(offs, recs)
    ensures |offs| == |recs| + 1
  {
  }

  lemma LaidBegins(b: Bytes, behind: Bytes, offs: seq<nat>, recs: seq<Bytes>)
    requires Laid(b, offs, recs)
    ensures Begins(b + behind, offs)
  {
    hide Apart, LenAt, Stored, InSome, Total;
    LensAre(b, behind, offs, recs);
    if recs == [] {
      assert Total(recs) == 0 by { NoTotal(recs); }
      assert offs[0] == HEADER;
    } else {
      assert HEADER < offs[|recs|];
      var k := CoveredBy(offs, recs, HEADER);
      assert offs[k] == HEADER;
    }
  }

  lemma NoTotal(recs: seq<Bytes>)
    requires recs == []
    ensures Total(recs) == 0
  {
  }

  lemma GoodAccepted(b: Bytes, behind: Bytes, recs: seq<Bytes>)
    requires PageOk(b, recs)
    ensures SlotAt(|b|, Half(b, RECS_COUNT)) >= 0
    ensures Accepted(b, behind) && Begins(b + behind, Offs(b, Half(b, RECS_COUNT)))
  {
    hide Laid, Steps, Begins, Half, Off, Arranged;
    LongRecords(b, recs);
    var offs := Offs(b, |recs|);
    LaidSteps(b, behind, offs, recs);
    LaidBegins(b, behind, offs, recs);
  }

  /* ---- and only those ---- */

  /** The records that the offsets lead to. */
  ghost function RecordsAt(mem: Bytes, offs: seq<nat>): (recs: seq<Bytes>)
    requires |offs| > 0
    ensures |recs| == |offs| - 1
    ensures forall k :: 0 <= k < |recs| && offs[k] + LenAt(mem, offs[k]) <= |mem| ==> |recs[k]| == LenAt(mem, offs[k])
  {
    seq(|offs| - 1, k requires 0 <= k < |offs| - 1 =>
      if offs[k] + LenAt(mem, offs[k]) <= |mem| then mem[offs[k]..offs[k] + LenAt(mem, offs[k])] else [])
  }

  /** The end of a record is at the offset of the next one in order. */
  lemma PlaceInOrder(mem: Bytes, offs: seq<nat>, k: nat) returns (i: nat)
    requires |offs| > 0 && k < |offs| - 1 && Steps(mem, Arranged(offs))
    ensures i < |offs| - 1 && Arranged(offs)[i] == offs[k] && Arranged(offs)[i + 1] == offs[k] + LenAt(mem, offs[k])
  {
    hide LenAt, Sort;
    var n := |offs| - 1;
    var s := Arranged(offs);
    ArrangedIs(offs);
    SortIs(offs[..n]);
    assert offs[k] == offs[..n][k] && offs[k] in s[..n];
    i :| 0 <= i < n && s[..n][i] == offs[k];
    assert Step(mem, s, i);
  }

  /** The records of an accepted page, in the order of their places. */
  ghost predicate Placed(mem: Bytes, offs: seq<nat>) {
    && |offs| > 0 && Steps(mem, Arranged(offs)) && Begins(mem, offs)
    && (forall k :: 0 <= k < |offs| - 1 ==> offs[k] + LenAt(mem, offs[k]) <= offs[|offs| - 1])
    && Increasing(Arranged(offs)) && Arranged(offs)[0] == HEADER
  }

  lemma PlacedIs(mem: Bytes, offs: seq<nat>)
    requires |offs| > 0 && Steps(mem, Arranged(offs)) && Begins(mem, offs)
    ensures Placed(mem, offs)
  {
    hide LenAt, Sort, Steps, Arranged;
    var n := |offs| - 1;
    var s := Arranged(offs);
    ArrangedIs(offs);
    forall i | 0 <= i < n ensures LenAt(mem, s[i]) >= KEY_HEADER && s[i] >= HEADER {
      var k :| 0 <= k < n && offs[..n][k] == s[i];
    }
    forall i, j | 0 <= i < j < |s| ensures s[i] < s[j] {
      StepsIncrease(mem, s, i, j);
    }
    forall k | 0 <= k < n ensures offs[k] + LenAt(mem, offs[k]) <= offs[n] {
      var i := PlaceInOrder(mem, offs, k);
      if i + 1 < n {
        assert s[i + 1] < s[n];
      }
    }
    var h :| 0 <= h < |offs| && offs[h] == HEADER;
    if h < n {
      var i := PlaceInOrder(mem, offs, h);
    }
  }

  lemma PlacedInside(mem: Bytes, offs: seq<nat>, recs: seq<Bytes>)
    requires Placed(mem, offs) && offs[|offs| - 1] <= |mem| && recs == RecordsAt(mem, offs)
    ensures Inside(offs, recs)
    ensures forall k :: 0 <= k < |recs| ==> |recs[k]| == LenAt(mem, offs[k]) >= KEY_HEADER
  {
    hide LenAt, Sort, Steps, Arranged, Increasing;
    forall k | 0 <= k < |recs| ensures |recs[k]| == LenAt(mem, offs[k]) >= KEY_HEADER {
      assert offs[k] + LenAt(mem, offs[k]) <= |mem|;
    }
  }

  lemma PlacedStored(b: Bytes, behind: Bytes, offs: seq<nat>, recs: seq<Bytes>)
    requires Placed(b + behind, offs) && offs[|offs| - 1] <= |b| && recs == RecordsAt(b + behind, offs)
    ensures Stored(b, offs, recs)
  {
    hide Sort, Steps, Arranged, Increasing, Placed;
    var mem := b + behind;
    PlacedInside(mem, offs, recs);
    forall k | 0 <= k < |recs| ensures At(b, offs[k], recs[k]) && Whole(recs[k]) {
      assert offs[k] + |recs[k]| <= offs[|recs|];
      assert recs[k] == mem[offs[k]..offs[k] + LenAt(mem, offs[k])];
      forall i | 0 <= i < |recs[k]| ensures b[offs[k] + i] == recs[k][i] {
        assert mem[offs[k] + i] == recs[k][i];
      }
      assert recs[k][RECORD_LEN] == mem[offs[k] + RECORD_LEN] && recs[k][RECORD_LEN + 1] == mem[offs[k] + RECORD_LEN + 1];
    }
  }

  lemma PlacedApart(mem: Bytes, offs: seq<nat>, recs: seq<Bytes>)
    requires Placed(mem, offs) && offs[|offs| - 1] <= |mem| && recs == RecordsAt(mem, offs)
    ensures Apart(offs, recs)
  {
    hide LenAt, Sort, Steps, Arranged;
    PlacedInside(mem, offs, recs);
    var n, s := |recs|, Arranged(offs);
    ArrangedIs(offs);
    SortIs(offs[..n]);
    forall i, j | 0 <= i < j < n ensures s[..n][i] < s[..n][j] {
      assert s[i] < s[j];
    }
    assert Distinct(offs[..n]);
    forall j, k | 0 <= j < n && 0 <= k < n && j != k ensures Before(offs, recs, j, k) || Before(offs, recs, k, j) {
      assert offs[..n][j] != offs[..n][k];
      var pj := PlaceInOrder(mem, offs, j);
      var pk := PlaceInOrder(mem, offs, k);
      if pj + 1 < pk {
        assert s[pj + 1] < s[pk];
      } else if pk + 1 < pj {
        assert s[pk + 1] < s[pj];
      }
    }
  }

  lemma PlacedCovered(mem: Bytes, offs: seq<nat>, recs: seq<Bytes>)
    requires Placed(mem, offs) && offs[|offs| - 1] <= |mem| && recs == RecordsAt(mem, offs)
    ensures Covered(offs, recs)
  {
    hide LenAt, Sort, Arranged, Increasing;
    PlacedInside(mem, offs, recs);
    var n, s := |recs|, Arranged(offs);
    ArrangedIs(offs);
    forall p | HEADER <= p < offs[n] ensures InSome(offs, recs, p) {
      var i := StepsCover(mem, s, p, n);
      assert Step(mem, s, i);
      var k :| 0 <= k < n && offs[..n][k] == s[i];
      assert Within(offs, recs, k, p);
    }
  }

  lemma {:induction false} TotalIsSum(mem: Bytes, offs: seq<nat>, recs: seq<Bytes>)
    requires |offs| == |recs| && forall k :: 0 <= k < |recs| ==> |recs[k]| == LenAt(mem, offs[k])
    ensures Total(recs) == Sum(mem, offs)
  {
    hide LenAt;
    if recs != [] {
      var n := |recs| - 1;
      TotalIsSum(mem, offs[..n], recs[..n]);
      SumMore(mem, offs[..n], offs[n]);
      assert offs[..n] + [offs[n]] == offs;
    }
  }

  lemma PlacedTotal(mem: Bytes, offs: seq<nat>, recs: seq<Bytes>)
    requires Placed(mem, offs) && offs[|offs| - 1] <= |mem| && recs == RecordsAt(mem, offs)
    ensures offs[|recs|] == HEADER + Total(recs)
  {
    hide LenAt, Sort, Arranged, Increasing, Steps, Sum, Total, Begins;
    PlacedInside(mem, offs, recs);
    var n, s := |recs|, Arranged(offs);
    ArrangedIs(offs);
    StepsSum(mem, s, n);
    SumSort(mem, offs[..n]);
    TotalIsSum(mem, offs[..n], recs);
  }

  lemma AcceptedGood(b: Bytes, behind: Bytes)
    requires HEADER + SLOT + FIRST_OFFSET <= |b| <= 65536 && SlotAt(|b|, Half(b, RECS_COUNT)) >= 0
    requires Accepted(b, behind) && Begins(b + behind, Offs(b, Half(b, RECS_COUNT)))
    ensures PageOk(b, RecordsAt(b + behind, Offs(b, Half(b, RECS_COUNT))))
  {
    hide Half, Off, Begins, Steps, Arranged, RecordsAt, Placed, Inside, Stored, Apart, Covered, Total;
    var n := Half(b, RECS_COUNT);
    var mem, offs := b + behind, Offs(b, n);
    var recs := RecordsAt(mem, offs);
    PlacedIs(mem, offs);
    assert offs[n] < |b|;
    PlacedInside(mem, offs, recs);
    PlacedStored(b, behind, offs, recs);
    PlacedApart(mem, offs, recs);
    PlacedCovered(mem, offs, recs);
    PlacedTotal(mem, offs, recs);
    assert offs[n] >= HEADER;
  }

  /** The check does not look where the data area begins: a page whose free space starts behind it passes. */
  lemma PassesBadPage(b: Bytes, behind: Bytes)
    requires b == seq(48, i => if i == FREE_SPACE then 7 else if i == 40 then 33 else 0)
    requires |behind| >= KEY_HEADER
    ensures Half(b, RECS_COUNT) <= MaxRecs(|b|) && Accepted(b, behind)
    ensures !exists recs :: PageOk(b, recs)
  {
    hide PageOk;
    assert Offs(b, 0) == [33];
    Exact(b, behind);
  }
}
