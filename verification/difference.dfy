/** The comparison of two signed bitmaps (extractor/vdfs-tools/fsck/fsck.c). */
module Difference {
  import opened SignedBits

  /** An extent of differing bits. */
  datatype Run = Run(begin: nat, length: nat) {
    function End(): nat {
      begin + length
    }
  }

  /** The run is a longest one of true bits. */
  ghost predicate Maximal(d: seq<bool>, r: Run) {
    && r.length > 0 && r.End() <= |d|
    && (forall n :: r.begin <= n < r.End() ==> d[n])
    && (r.begin > 0 ==> !d[r.begin - 1])
    && (r.End() < |d| ==> !d[r.End()])
  }

  ghost predicate Covered(runs: seq<Run>, n: nat) {
    exists i :: 0 <= i < |runs| && runs[i].begin <= n < runs[i].End()
  }

  /** The maximal runs of true bits, all of them and in order. */
  ghost predicate RunsOf(d: seq<bool>, runs: seq<Run>) {
    && (forall i :: 0 <= i < |runs| ==> Maximal(d, runs[i]))
    && (forall i, j :: 0 <= i < j < |runs| ==> runs[i].End() < runs[j].begin)
    && (forall n :: 0 <= n < |d| && d[n] ==> Covered(runs, n))
  }

  /** Maximal runs that share a bit are one. */
  lemma SameRun(d: seq<bool>, p: Run, q: Run, n: nat)
    requires Maximal(d, p) && Maximal(d, q) && p.begin <= n < p.End() && q.begin <= n < q.End()
    ensures p == q
  {
  }

  lemma FoundAmong(d: seq<bool>, a: seq<Run>, b: seq<Run>, i: nat) returns (j: nat)
    requires RunsOf(d, a) && RunsOf(d, b) && i < |a|
    ensures j < |b| && b[j] == a[i]
  {
    assert Maximal(d, a[i]);
    var n := a[i].begin;
    assert Covered(b, n);
    j :| 0 <= j < |b| && b[j].begin <= n < b[j].End();
    SameRun(d, a[i], b[j], n);
  }

  /** The runs of bits are determined by the bits. */
  lemma {:induction false} RunsUnique(d: seq<bool>, a: seq<Run>, b: seq<Run>)
    requires RunsOf(d, a) && RunsOf(d, b)
    ensures a == b
    decreases |a| > |b|
  {
    if |a| <= |b| {
      SameUpTo(d, a, b, |a|);
      if |a| < |b| {
        var k := FoundAmong(d, b, a, |a|);
        assert false;
      }
    } else {
      RunsUnique(d, b, a);
    }
  }

  lemma {:induction false} SameUpTo(d: seq<bool>, a: seq<Run>, b: seq<Run>, i: nat)
    requires RunsOf(d, a) && RunsOf(d, b) && i <= |a| && i <= |b|
    ensures forall k :: 0 <= k < i ==> a[k] == b[k]
  {
    if i > 0 {
      SameUpTo(d, a, b, i - 1);
      var j := FoundAmong(d, a, b, i - 1);
      var m := FoundAmong(d, b, a, i - 1);
      assert j >= i - 1 && m >= i - 1;
    }
  }

  /** Two runs have a bit between them, so every second bit can begin one at most. */
  lemma {:induction false} RunsSpaced(d: seq<bool>, runs: seq<Run>, i: nat)
    requires RunsOf(d, runs) && i < |runs|
    ensures runs[i].begin >= 2 * i
  {
    assert Maximal(d, runs[i]);
    if i > 0 {
      RunsSpaced(d, runs, i - 1);
      assert Maximal(d, runs[i - 1]);
    }
  }

  lemma RunsBound(d: seq<bool>, runs: seq<Run>)
    requires RunsOf(d, runs)
    ensures 2 * |runs| <= |d| + 1
  {
    if runs != [] {
      RunsSpaced(d, runs, |runs| - 1);
      assert Maximal(d, runs[|runs| - 1]);
    }
  }

  function Trues(d: seq<bool>): nat {
    if d == [] then 0 else Trues(d[..|d| - 1]) + if d[|d| - 1] then 1 else 0
  }

  function Lengths(runs: seq<Run>): nat {
    if runs == [] then 0 else Lengths(runs[..|runs| - 1]) + runs[|runs| - 1].length
  }

  lemma {:induction false} NoTrues(d: seq<bool>)
    ensures Trues(d) == 0 <==> forall n :: 0 <= n < |d| ==> !d[n]
  {
    if d != [] {
      NoTrues(d[..|d| - 1]);
    }
  }

  /** Data bit `n` differs in two bitmaps. */
  predicate Differs(c: Cut, a: seq<bv8>, b: seq<bv8>, n: nat)
    requires c.block > c.magic + c.crc
  {
    Place(c, n) < 8 * |a| && Place(c, n) < 8 * |b| && BitAt(a, Place(c, n)) != BitAt(b, Place(c, n))
  }

  /** Which of the first `n` data bits of two bitmaps differ. */
  ghost function Differing(c: Cut, a: seq<bv8>, b: seq<bv8>, n: nat): (d: seq<bool>)
    requires c.block > c.magic + c.crc
    ensures |d| == n
    ensures forall k :: 0 <= k < n ==> d[k] == Differs(c, a, b, k)
  {
    if n == 0 then [] else Differing(c, a, b, n - 1) + [Differs(c, a, b, n - 1)]
  }

  /** CRC_BYTES_TO_SIGNIFICANT_BYTES in bits: 16 bytes of each 4096 do not count. */
  function ScannedBits(length: nat): nat {
    8 * (length - length / 4096 * 16)
  }

  /** The bits scanned are all the data bits for blocks of 4096 bytes with 16 bytes of magic and CRC. */
  lemma ScansAll(c: Cut, blocks: nat)
    requires c.block == 4096 && c.magic + c.crc == 16
    ensures ScannedBits(FirstByte(c, blocks)) == Capacity(c, blocks)
  {
    assert FirstByte(c, blocks) == 4096 * blocks;
    assert Capacity(c, blocks) == 32640 * blocks;
  }

  /** The comparison of the bits scanned. */
  ghost function Compared(c: Cut, a: seq<bv8>, b: seq<bv8>): seq<bool>
    requires c.block > c.magic + c.crc
  {
    Differing(c, a, b, ScannedBits(|a|))
  }

  /* ---- the scan ---- */

  /** After `k` bits: the closed runs, and `open` differing bits since. */
  ghost predicate Scanned(d: seq<bool>, k: nat, runs: seq<Run>, open: nat) {
    && open <= k <= |d|
    && RunsOf(d[..k - open], runs)
    && (forall n :: k - open <= n < k ==> d[n])
    && (k - open > 0 ==> !d[k - open - 1])
  }

  lemma ScanStart(d: seq<bool>)
    ensures Scanned(d, 0, [], 0)
  {
  }

  lemma ScanOn(d: seq<bool>, k: nat, runs: seq<Run>, open: nat)
    requires Scanned(d, k, runs, open) && k < |d|
    ensures d[k] ==> Scanned(d, k + 1, runs, open + 1)
    ensures !d[k] && open == 0 ==> Scanned(d, k + 1, runs, 0)
    ensures !d[k] && open > 0 ==> Scanned(d, k + 1, runs + [Run(k - open, open)], 0)
  {
    if d[k] {
    } else if open == 0 {
      MoreBits(d, k, k + 1, runs);
    } else {
      Close(d, k, runs, open);
      MoreBits(d, k, k + 1, runs + [Run(k - open, open)]);
    }
  }

  /** A bit that does not differ closes nothing more. */
  lemma MoreBits(d: seq<bool>, k: nat, m: nat, runs: seq<Run>)
    requires k < m <= |d| && RunsOf(d[..k], runs) && forall n :: k <= n < m ==> !d[n]
    ensures RunsOf(d[..m], runs)
  {
    hide Covered;
    var a, b := d[..k], d[..m];
    forall i | 0 <= i < |runs| ensures Maximal(b, runs[i]) {
      assert Maximal(a, runs[i]);
    }
    forall n | 0 <= n < m && b[n] ensures Covered(runs, n) {
      assert a[n];
    }
  }

  lemma Close(d: seq<bool>, k: nat, runs: seq<Run>, open: nat)
    requires Scanned(d, k, runs, open) && open > 0
    ensures RunsOf(d[..k], runs + [Run(k - open, open)])
  {
    var s := k - open;
    var a, b, last := d[..s], d[..k], Run(s, open);
    var all := runs + [last];
    assert Maximal(b, last);
    forall i | 0 <= i < |runs| ensures Maximal(b, all[i]) && all[i].End() < s {
      assert Maximal(a, runs[i]);
      assert a[runs[i].End() - 1];
    }
    forall n | 0 <= n < k && b[n] ensures Covered(all, n) {
      if n < s {
        assert a[n] && Covered(runs, n);
        var i :| 0 <= i < |runs| && runs[i].begin <= n < runs[i].End();
        assert all[i] == runs[i];
      } else {
        assert all[|runs|] == last;
      }
    }
  }

  lemma LengthsMore(runs: seq<Run>, r: Run)
    ensures Lengths(runs + [r]) == Lengths(runs) + r.length
  {
    assert (runs + [r])[..|runs|] == runs;
  }

  lemma TruesMore(d: seq<bool>, k: nat)
    requires k < |d|
    ensures Trues(d[..k + 1]) == Trues(d[..k]) + if d[k] then 1 else 0
  {
    assert d[..k + 1][..k] == d[..k];
  }

  datatype Outcome = Success | DifferenceError | Invalid

  /** calculate_difference: fails when it would scan behind the last data bit, and otherwise reports exactly the
  maximal runs of differing bits; it succeeds exactly when no bit differs. */
  method CalculateDifference(calculated: array<bv8>, sb: array<bv8>, c: Cut, ghost blocks: nat)
    returns (result: Outcome, extents: seq<Run>, difference: nat)
    requires CutOk(c) && c.magic + c.crc > 0
    requires calculated.Length == FirstByte(c, blocks) && sb.Length == calculated.Length
    ensures result == Invalid <==> ScannedBits(calculated.Length) > Capacity(c, blocks)
    ensures result != Invalid ==> RunsOf(Compared(c, calculated[..], sb[..]), extents)
    ensures result != Invalid ==> difference == Trues(Compared(c, calculated[..], sb[..])) == Lengths(extents)
    ensures result != Invalid ==> 2 * |extents| <= ScannedBits(calculated.Length) + 1
    ensures result == Success ==> forall n: nat :: n < ScannedBits(calculated.Length) ==> !Differs(c, calculated[..], sb[..], n)
    ensures result == DifferenceError ==> exists n: nat :: n < ScannedBits(calculated.Length) && Differs(c, calculated[..], sb[..], n)
  {
    hide Scanned, RunsOf, Lengths, Trues, FirstByte, FirstData, ScannedBits, Place, BitAt;
    var total: nat := ScannedBits(calculated.Length);
    ghost var d := Compared(c, calculated[..], sb[..]);
    var bit: nat, extLength: nat := 0, 0;
    var startExt: int := -1;
    extents, difference := [], 0;
    ScanStart(d);
    Empties(d);
    while bit < total
      invariant bit <= total && (bit > 0 ==> bit <= Capacity(c, blocks))
      invariant extLength > 0 ==> startExt == bit - extLength
      invariant extLength <= bit && Scanned(d, bit, extents, extLength)
      invariant difference == Trues(d[..bit]) == Lengths(extents) + extLength
    {
      var ok, reBit := SignTestBit(calculated, bit, c, blocks);
      var ok', sbBit := SignTestBit(sb, bit, c, blocks);
      if !ok || !ok' {
        return Invalid, extents, difference;
      }
      assert d[bit] == (reBit != sbBit);
      ScanOn(d, bit, extents, extLength);
      TruesMore(d, bit);
      if reBit != sbBit {
        if extLength == 0 {
          startExt := bit;
        }
        extLength := extLength + 1;
        difference := difference + 1;
      } else {
        if extLength > 0 {
          LengthsMore(extents, Run(startExt, extLength));
          extents := extents + [Run(startExt, extLength)];
        }
        extLength := 0;
        startExt := -1;
      }
      bit := bit + 1;
    }
    assert d[..bit] == d;
    Finish(d, extents, extLength);
    if extLength > 0 {
      LengthsMore(extents, Run(startExt, extLength));
      extents := extents + [Run(startExt, extLength)];
    }
    NoTrues(d);
    RunsBound(d, extents);
    result := if difference == 0 then Success else DifferenceError;
  }

  lemma Empties(d: seq<bool>)
    ensures Trues(d[..0]) == 0 && Lengths([]) == 0
  {
  }

  lemma Finish(d: seq<bool>, runs: seq<Run>, open: nat)
    requires Scanned(d, |d|, runs, open)
    ensures RunsOf(d, if open > 0 then runs + [Run(|d| - open, open)] else runs)
  {
    hide RunsOf, Maximal;
    assert d[..|d|] == d;
    if open > 0 {
      Close(d, |d|, runs, open);
    }
  }
}
