/** The extents of blocks that are allocated at run time (extractor/vdfs-tools/lib/extents.c).

The list is not sorted: a deletion inside an extent puts the right piece first. */
module Extents {
  import opened Ranges

  /** struct vdfs4_runtime_extent_info. */
  datatype Extent = Extent(iblock: nat, count: nat)

  predicate In(e: Extent, b: nat) {
    e.iblock <= b < e.iblock + e.count
  }

  ghost predicate Has(list: seq<Extent>, b: nat) {
    exists i :: 0 <= i < |list| && In(list[i], b)
  }

  /** Extents are not empty, and no block is in two of them. */
  ghost predicate ListOk(list: seq<Extent>) {
    && (forall i :: 0 <= i < |list| ==> list[i].count > 0)
    && (forall i, j, b :: 0 <= i < j < |list| && In(list[i], b) ==> !In(list[j], b))
  }

  /** The blocks of a list. */
  ghost function Blocks(list: seq<Extent>): set<nat> {
    if list == [] then {} else Blocks(list[..|list| - 1]) + Range(list[|list| - 1].iblock, list[|list| - 1].count)
  }

  function Count(list: seq<Extent>): nat {
    if list == [] then 0 else Count(list[..|list| - 1]) + list[|list| - 1].count
  }

  lemma {:induction false} BlocksAre(list: seq<Extent>)
    ensures forall b: nat :: b in Blocks(list) <==> Has(list, b)
  {
    if list != [] {
      var n := |list| - 1;
      var last := list[n];
      BlocksAre(list[..n]);
      RangeHas(last.iblock, last.count);
      forall b: nat ensures Has(list, b) <==> Has(list[..n], b) || In(last, b) {
        if Has(list, b) {
          var i :| 0 <= i < |list| && In(list[i], b);
          assert i < n ==> In(list[..n][i], b);
        }
        if Has(list[..n], b) {
          var i :| 0 <= i < n && In(list[..n][i], b);
          assert In(list[i], b);
        }
      }
    }
  }

  /** The sum of the counts is the number of blocks. */
  lemma {:induction false} CountIsSize(list: seq<Extent>)
    requires ListOk(list)
    ensures |Blocks(list)| == Count(list)
  {
    if list != [] {
      var n := |list| - 1;
      var last := list[n];
      CountIsSize(list[..n]);
      BlocksAre(list[..n]);
      RangeHas(last.iblock, last.count);
      RangeSize(last.iblock, last.count);
      var a, b := Blocks(list[..n]), Range(last.iblock, last.count);
      forall x | x in a && x in b ensures false {
        var i :| 0 <= i < n && In(list[..n][i], x);
        assert In(list[i], x) && In(list[n], x);
      }
      assert |a + b| == |a| + |b| by { assert a !! b; }
    }
  }

  /** Extents `i` up to `j` replaced by others. */
  function Spliced(list: seq<Extent>, i: nat, j: nat, parts: seq<Extent>): seq<Extent>
    requires i <= j <= |list|
  {
    list[..i] + parts + list[j..]
  }

  lemma HasPlus(a: seq<Extent>, c: seq<Extent>, b: nat)
    ensures Has(a + c, b) <==> Has(a, b) || Has(c, b)
  {
    if Has(a + c, b) {
      var i :| 0 <= i < |a + c| && In((a + c)[i], b);
      if i < |a| {
        assert In(a[i], b);
      } else {
        assert In(c[i - |a|], b);
      }
    }
    if Has(a, b) {
      var i :| 0 <= i < |a| && In(a[i], b);
      assert In((a + c)[i], b);
    }
    if Has(c, b) {
      var i :| 0 <= i < |c| && In(c[i], b);
      assert In((a + c)[|a| + i], b);
    }
  }

  lemma ListPlus(a: seq<Extent>, c: seq<Extent>)
    ensures ListOk(a + c) <==> ListOk(a) && ListOk(c) && forall b: nat :: !(Has(a, b) && Has(c, b))
  {
    var s := a + c;
    if ListOk(s) {
      assert forall i :: 0 <= i < |a| ==> s[i] == a[i];
      assert forall i :: 0 <= i < |c| ==> s[|a| + i] == c[i];
      forall b: nat ensures !(Has(a, b) && Has(c, b)) {
        if Has(a, b) {
          var i :| 0 <= i < |a| && In(a[i], b);
          assert In(s[i], b);
          forall j | 0 <= j < |c| ensures !In(c[j], b) {
            assert !In(s[|a| + j], b);
          }
        }
      }
      forall i, j, b | 0 <= i < j < |c| && In(c[i], b) ensures !In(c[j], b) {
        assert In(s[|a| + i], b) ==> !In(s[|a| + j], b);
      }
    }
    if ListOk(a) && ListOk(c) && forall b: nat :: !(Has(a, b) && Has(c, b)) {
      forall i, j, b | 0 <= i < j < |s| && In(s[i], b) ensures !In(s[j], b) {
        if i < |a| <= j {
          assert Has(a, b) && !Has(c, b);
        }
      }
    }
  }

  /** Extents whose blocks are those replaced, or new ones, keep the list in order. */
  lemma SplicedOk(list: seq<Extent>, i: nat, j: nat, parts: seq<Extent>)
    requires i <= j <= |list| && ListOk(list) && ListOk(parts)
    requires forall b: nat :: Has(parts, b) ==> Has(list[i..j], b) || !Has(list, b)
    ensures ListOk(Spliced(list, i, j, parts))
    ensures forall b: nat :: Has(Spliced(list, i, j, parts), b) <==> Has(parts, b) || (Has(list, b) && !Has(list[i..j], b))
  {
    hide Has, ListOk;
    var a, m, c := list[..i], list[i..j], list[j..];
    assert list == (a + m) + c;
    ListPlus(a + m, c);
    ListPlus(a, m);
    forall b: nat ensures Has(list, b) <==> Has(a, b) || Has(m, b) || Has(c, b) {
      HasPlus(a + m, c, b);
      HasPlus(a, m, b);
    }
    forall b: nat ensures Has(a + m, b) <==> Has(a, b) || Has(m, b) {
      HasPlus(a, m, b);
    }
    forall b: nat ensures Has(a + parts, b) <==> Has(a, b) || Has(parts, b) {
      HasPlus(a, parts, b);
    }
    ListPlus(a, parts);
    ListPlus(a + parts, c);
    forall b: nat ensures Has((a + parts) + c, b) <==> Has(a, b) || Has(parts, b) || Has(c, b) {
      HasPlus(a + parts, c, b);
    }
  }

  lemma {:induction false} CountPlus(a: seq<Extent>, c: seq<Extent>)
    ensures Count(a + c) == Count(a) + Count(c)
  {
    if c == [] {
      assert a + c == a;
    } else {
      var n := |c| - 1;
      CountPlus(a, c[..n]);
      assert (a + c)[..|a + c| - 1] == a + c[..n];
    }
  }

  lemma SplicedCount(list: seq<Extent>, i: nat, j: nat, parts: seq<Extent>)
    requires i <= j <= |list|
    ensures Count(Spliced(list, i, j, parts)) + Count(list[i..j]) == Count(list) + Count(parts)
  {
    hide Count;
    var a, m, c := list[..i], list[i..j], list[j..];
    assert list == (a + m) + c;
    CountPlus(a + m, c);
    CountPlus(a, m);
    CountPlus(a + parts, c);
    CountPlus(a, parts);
  }

  lemma HasOne(e: Extent, b: nat)
    ensures Has([e], b) <==> In(e, b)
  {
    if In(e, b) {
      assert In([e][0], b);
    }
  }

  lemma HasTwo(d: Extent, e: Extent, b: nat)
    ensures Has([d, e], b) <==> In(d, b) || In(e, b)
  {
    assert [d, e] == [d] + [e];
    HasPlus([d], [e], b);
    HasOne(d, b);
    HasOne(e, b);
  }

  /** What is left of an extent below block `n`. */
  function Below(e: Extent, n: nat): seq<Extent> {
    if e.iblock >= n then []
    else if e.iblock + e.count >= n then [Extent(e.iblock, n - e.iblock)]
    else [e]
  }

  lemma BelowHas(e: Extent, n: nat, b: nat)
    ensures Has(Below(e, n), b) <==> In(e, b) && b < n
  {
    if Below(e, n) != [] {
      HasOne(Below(e, n)[0], b);
    }
  }

  /** A block added twice is not always refused: after a deletion in the middle the first extent that reaches the
  block need not be the one that holds it. */
  lemma AddedTwice()
    ensures var list := [Extent(5, 2), Extent(3, 1)];
      ListOk(list) && Has(list, 3) && !FirstReached(list, 3)
  {
    var list := [Extent(5, 2), Extent(3, 1)];
    assert In(list[1], 3);
    assert list[0].iblock + list[0].count > 3;
  }

  /** The first extent that ends at block `b` or after it holds `b`. */
  ghost predicate FirstReached(list: seq<Extent>, b: nat) {
    exists k :: 0 <= k < |list| && In(list[k], b) && forall j :: 0 <= j < k ==> list[j].iblock + list[j].count < b
  }

  lemma HasAt(list: seq<Extent>, i: nat, b: nat)
    requires i < |list| && In(list[i], b)
    ensures Has(list, b)
  {
  }

  lemma NotIn(list: seq<Extent>, b: nat)
    requires forall j :: 0 <= j < |list| ==> !In(list[j], b)
    ensures !Has(list, b)
  {
  }

  lemma Positive(list: seq<Extent>, i: nat)
    requires ListOk(list) && i < |list|
    ensures list[i].count > 0
  {
  }

  /** An extent that reaches block `b` without holding it, after ones that do not reach it, lets it in. */
  lemma NotReached(list: seq<Extent>, i: nat, b: nat)
    requires i < |list| && list[i].iblock + list[i].count >= b && !In(list[i], b)
    requires forall j :: 0 <= j < i ==> list[j].iblock + list[j].count < b
    ensures !FirstReached(list, b)
  {
  }

  lemma OneOk(e: Extent)
    requires e.count > 0
    ensures ListOk([e])
  {
  }

  /** Extents replaced by parts that hold their blocks and block `b`: the list gains the block, and stays in order
  exactly when the block was not there. */
  lemma BlockAdded(list: seq<Extent>, i: nat, j: nat, parts: seq<Extent>, b: nat)
    requires i <= j <= |list| && ListOk(list) && ListOk(parts) && !Has(list[i..j], b)
    requires forall x: nat :: Has(parts, x) <==> Has(list[i..j], x) || x == b
    ensures var after := Spliced(list, i, j, parts);
      Blocks(after) == Blocks(list) + {b} && (ListOk(after) <==> b !in Blocks(list))
  {
    hide Blocks, ListOk, Has;
    var a, m, c := list[..i], list[i..j], list[j..];
    var after := (a + parts) + c;
    assert list == (a + m) + c && after == Spliced(list, i, j, parts);
    BlocksAre(list);
    BlocksAre(after);
    ListPlus(a + m, c);
    ListPlus(a, m);
    ListPlus(a, parts);
    ListPlus(a + parts, c);
    forall x: nat
      ensures (Has(a + m, x) <==> Has(a, x) || Has(m, x)) && (Has(list, x) <==> Has(a + m, x) || Has(c, x))
      ensures (Has(a + parts, x) <==> Has(a, x) || Has(parts, x)) && (Has(after, x) <==> Has(a + parts, x) || Has(c, x))
    {
      HasPlus(a, m, x);
      HasPlus(a + m, c, x);
      HasPlus(a, parts, x);
      HasPlus(a + parts, c, x);
    }
  }

  lemma Grown(list: seq<Extent>, i: nat, grown: Extent, b: nat)
    requires ListOk(list) && i < |list| && !In(list[i], b)
    requires forall x: nat :: In(grown, x) <==> In(list[i], x) || x == b
    ensures var after := Spliced(list, i, i + 1, [grown]);
      Blocks(after) == Blocks(list) + {b} && (ListOk(after) <==> b !in Blocks(list))
  {
    hide Blocks, ListOk, Has, Spliced, In;
    assert list[i..i + 1] == [list[i]];
    assert In(grown, b);
    Nonempty(grown, b);
    OneOk(grown);
    forall x: nat ensures (Has([grown], x) <==> In(grown, x)) && (Has([list[i]], x) <==> In(list[i], x)) {
      HasOne(grown, x);
      HasOne(list[i], x);
    }
    BlockAdded(list, i, i + 1, [grown], b);
  }

  lemma Nonempty(e: Extent, b: nat)
    requires In(e, b)
    ensures e.count > 0
  {
  }

  lemma Joined(list: seq<Extent>, i: nat, b: nat)
    requires ListOk(list) && i + 1 < |list|
    requires list[i].iblock + list[i].count == b && list[i + 1].iblock == b + 1
    ensures var after := Spliced(list, i, i + 2, [Extent(list[i].iblock, list[i].count + 1 + list[i + 1].count)]);
      Blocks(after) == Blocks(list) + {b} && (ListOk(after) <==> b !in Blocks(list))
  {
    hide Blocks, ListOk, Has, Spliced;
    var grown := Extent(list[i].iblock, list[i].count + 1 + list[i + 1].count);
    assert list[i..i + 2] == [list[i], list[i + 1]];
    OneOk(grown);
    forall x: nat
      ensures (Has([grown], x) <==> In(grown, x)) && (Has([list[i], list[i + 1]], x) <==> In(list[i], x) || In(list[i + 1], x))
    {
      HasOne(grown, x);
      HasTwo(list[i], list[i + 1], x);
    }
    HasTwo(list[i], list[i + 1], b);
    BlockAdded(list, i, i + 2, [grown], b);
  }

  lemma Fresh(list: seq<Extent>, i: nat, b: nat)
    requires ListOk(list) && i <= |list|
    ensures var after := Spliced(list, i, i, [Extent(b, 1)]);
      Blocks(after) == Blocks(list) + {b} && (ListOk(after) <==> b !in Blocks(list))
  {
    hide Blocks, ListOk, Has, Spliced;
    assert list[i..i] == [];
    OneOk(Extent(b, 1));
    forall x: nat ensures (Has([Extent(b, 1)], x) <==> x == b) && !Has(list[i..i], x) {
      HasOne(Extent(b, 1), x);
      NotIn([], x);
    }
    BlockAdded(list, i, i, [Extent(b, 1)], b);
  }

  /** What is left of an extent without block `b`: the right piece comes first. */
  function Without(e: Extent, b: nat): seq<Extent>
    requires In(e, b)
  {
    if e.iblock == b then if e.count == 1 then [] else [Extent(e.iblock + 1, e.count - 1)]
    else if e.iblock + e.count == b + 1 then [Extent(e.iblock, e.count - 1)]
    else [Extent(b + 1, e.iblock + e.count - (b + 1)), Extent(e.iblock, b - e.iblock)]
  }

  lemma WithoutHas(e: Extent, b: nat)
    requires In(e, b)
    ensures ListOk(Without(e, b))
    ensures forall x: nat :: Has(Without(e, b), x) <==> In(e, x) && x != b
  {
    var parts := Without(e, b);
    forall x: nat ensures Has(parts, x) <==> In(e, x) && x != b {
      if |parts| == 1 {
        HasOne(parts[0], x);
      } else if |parts| == 2 {
        HasTwo(parts[0], parts[1], x);
        assert parts == [parts[0], parts[1]];
      }
    }
  }

  lemma Shrunk(list: seq<Extent>, i: nat, b: nat)
    requires ListOk(list) && i < |list| && In(list[i], b)
    ensures var after := Spliced(list, i, i + 1, Without(list[i], b));
      ListOk(after) && Blocks(after) == Blocks(list) - {b} && b in Blocks(list)
  {
    hide Blocks, ListOk, Has, Spliced, In, Without;
    var parts := Without(list[i], b);
    var after := Spliced(list, i, i + 1, parts);
    BlocksAre(list);
    BlocksAre(after);
    assert list[i..i + 1] == [list[i]];
    WithoutHas(list[i], b);
    forall x: nat ensures Has([list[i]], x) <==> In(list[i], x) {
      HasOne(list[i], x);
    }
    forall x: nat | In(list[i], x) ensures Has(list, x) {
      HasAt(list, i, x);
    }
    SplicedOk(list, i, i + 1, parts);
  }

  /** One step of the truncation. */
  lemma Cut(list: seq<Extent>, i: nat, n: nat)
    requires ListOk(list) && i < |list|
    ensures var parts := Below(list[i], n);
      var after := Spliced(list, i, i + 1, parts);
      && |parts| <= 1 && ListOk(after) && |after| == |list| - 1 + |parts|
      && after[i + |parts|..] == list[i + 1..]
      && (forall b: nat :: Has(after, b) ==> Has(list, b))
      && (forall b: nat :: Has(list, b) && b < n ==> Has(after, b))
      && (forall b: nat :: Has(after[..i + |parts|], b) <==> Has(list[..i], b) || (In(list[i], b) && b < n))
      && Count(after) + list[i].count == Count(list) + (if parts == [] then 0 else parts[0].count)
  {
    hide ListOk, Has, Count;
    var parts := Below(list[i], n);
    var after := Spliced(list, i, i + 1, parts);
    Positive(list, i);
    if parts == [] { NoneOk(); } else { OneOk(parts[0]); }
    assert list[i..i + 1] == [list[i]];
    forall x: nat ensures (Has([list[i]], x) <==> In(list[i], x)) && (Has(parts, x) <==> In(list[i], x) && x < n) {
      HasOne(list[i], x);
      BelowHas(list[i], n, x);
    }
    SplicedOk(list, i, i + 1, parts);
    SplicedCount(list, i, i + 1, parts);
    assert after[..i + |parts|] == list[..i] + parts;
    forall x: nat ensures Has(list[..i] + parts, x) <==> Has(list[..i], x) || Has(parts, x) {
      HasPlus(list[..i], parts, x);
    }
    forall x: nat | In(list[i], x) ensures Has(list, x) {
      HasAt(list, i, x);
    }
    CountOne(list[i]);
    if parts == [] { CountNone(); } else { CountOne(parts[0]); }
  }

  lemma NoneOk()
    ensures ListOk([])
  {
  }

  lemma NoneHas()
    ensures forall b: nat :: !Has([], b)
  {
  }

  lemma Same(list: seq<Extent>, i: nat)
    requires i < |list|
    ensures Spliced(list, i, i + 1, [list[i]]) == list
  {
  }

  lemma CountNone()
    ensures Count([]) == 0
  {
  }

  lemma CountOne(e: Extent)
    ensures Count([e]) == e.count
  {
    assert [e][..0] == [];
  }

  lemma Partition(all: set<nat>, kept: set<nat>, n: nat)
    requires forall b :: b in kept <==> b in all && b < n
    ensures kept == set b: nat | b in all && b < n
    ensures |all| - |kept| == |set b: nat | b in all && b >= n|
  {
    var cut := set b: nat | b in all && b >= n;
    assert all == kept + cut && kept !! cut;
  }

  class RuntimeExtents {
    var list: seq<Extent>

    constructor ()
      ensures list == []
    {
      list := [];
    }

    /** vdfs4_runtime_extent_add: false is -EEXIST. */
    method Add(iblock: nat) returns (ok: bool)
      requires ListOk(list)
      modifies this
      ensures ok <==> !FirstReached(old(list), iblock)
      ensures !ok ==> list == old(list) && iblock in Blocks(list)
      ensures ok ==> Blocks(list) == Blocks(old(list)) + {iblock}
      ensures ListOk(list) <==> iblock !in Blocks(old(list)) || !ok
      ensures iblock !in Blocks(old(list)) ==> ok
    {
      hide Blocks, ListOk, Has, Spliced;
      BlocksAre(list);
      ghost var before := list;
      var ptr: nat := 0;
      while ptr < |list|
        invariant list == before && ptr <= |list|
        invariant forall j :: 0 <= j < ptr ==> list[j].iblock + list[j].count < iblock
      {
        var entry := list[ptr];
        if entry.iblock + entry.count == iblock {
          var grown := Extent(entry.iblock, entry.count + 1);
          if ptr + 1 < |list| && grown.iblock + grown.count == list[ptr + 1].iblock {
            var next := list[ptr + 1];
            list := Spliced(list, ptr, ptr + 2, [Extent(grown.iblock, next.count + grown.count)]);
            Joined(before, ptr, iblock);
          } else {
            list := Spliced(list, ptr, ptr + 1, [grown]);
            Grown(before, ptr, grown, iblock);
          }
          NotReached(before, ptr, iblock);
          return true;
        } else if entry.iblock == iblock + 1 {
          var grown := Extent(entry.iblock - 1, entry.count + 1);
          list := Spliced(list, ptr, ptr + 1, [grown]);
          Grown(before, ptr, grown, iblock);
          NotReached(before, ptr, iblock);
          return true;
        } else if entry.iblock <= iblock < entry.iblock + entry.count {
          assert In(before[ptr], iblock);
          HasAt(before, ptr, iblock);
          return false;
        } else if entry.iblock > iblock {
          list := Spliced(list, ptr, ptr, [Extent(iblock, 1)]);
          Fresh(before, ptr, iblock);
          NotReached(before, ptr, iblock);
          return true;
        }
        ptr := ptr + 1;
      }
      list := Spliced(list, ptr, ptr, [Extent(iblock, 1)]);
      Fresh(before, ptr, iblock);
      return true;
    }

    /** vdfs4_runtime_extent_del: false is the BUG for a block that is not there. */
    method Del(iblock: nat) returns (ok: bool)
      requires ListOk(list)
      modifies this
      ensures ok <==> iblock in Blocks(old(list))
      ensures ListOk(list)
      ensures Blocks(list) == Blocks(old(list)) - {iblock}
    {
      hide Blocks, ListOk, Has, Spliced;
      BlocksAre(list);
      ghost var before := list;
      var ptr: nat := 0;
      while ptr < |list|
        invariant list == before && ptr <= |list|
        invariant forall j :: 0 <= j < ptr ==> !In(list[j], iblock)
      {
        var entry := list[ptr];
        Positive(list, ptr);
        if entry.iblock == iblock {
          var rest := if entry.count == 1 then [] else [Extent(entry.iblock + 1, entry.count - 1)];
          list := Spliced(list, ptr, ptr + 1, rest);
          Shrunk(before, ptr, iblock);
          return true;
        } else if entry.iblock + entry.count == iblock + 1 {
          var rest := [Extent(entry.iblock, entry.count - 1)];
          list := Spliced(list, ptr, ptr + 1, rest);
          Shrunk(before, ptr, iblock);
          return true;
        } else if entry.iblock <= iblock < entry.iblock + entry.count {
          var right := Extent(iblock + 1, entry.iblock + entry.count - (iblock + 1));
          var left := Extent(entry.iblock, entry.count - (right.count + 1));
          list := Spliced(list, ptr, ptr + 1, [right, left]);
          Shrunk(before, ptr, iblock);
          return true;
        }
        ptr := ptr + 1;
      }
      NotIn(list, iblock);
      return false;
    }

    /** vdfs4_truncate_runtime_blocks. */
    method Truncate(newSize: nat) returns (total: nat)
      requires ListOk(list)
      modifies this
      ensures ListOk(list)
      ensures Blocks(list) == set b: nat | b in Blocks(old(list)) && b < newSize
      ensures total == |set b: nat | b in Blocks(old(list)) && b >= newSize|
    {
      hide Blocks, ListOk, Has, Spliced, Count;
      ghost var before := list;
      ghost var seen: nat := 0;
      var ptr: nat := 0;
      total := 0;
      NoneHas();
      assert list[..0] == [];
      while ptr < |list|
        invariant ptr <= |list| && seen <= |before|
        invariant list[ptr..] == before[seen..]
        invariant ListOk(list)
        invariant forall b: nat :: Has(list[..ptr], b) ==> b < newSize
        invariant forall b: nat :: Has(list, b) ==> Has(before, b)
        invariant forall b: nat :: Has(before, b) && b < newSize ==> Has(list, b)
        invariant total + Count(list) == Count(before)
        decreases |list| - ptr
      {
        ghost var was := list;
        var entry := list[ptr];
        assert entry == before[seen] && list[ptr + 1..] == before[seen + 1..] by {
          assert list[ptr..][0] == before[seen..][0];
          assert list[ptr..][1..] == list[ptr + 1..] && before[seen..][1..] == before[seen + 1..];
        }
        ghost var at: nat := ptr;
        ghost var parts := Below(entry, newSize);
        Cut(was, ptr, newSize);
        if entry.iblock >= newSize {
          total := total + entry.count;
          list := Spliced(list, ptr, ptr + 1, []);
        } else if entry.iblock + entry.count >= newSize {
          var truncSize := newSize - entry.iblock;
          total := total + (entry.count - truncSize);
          list := Spliced(list, ptr, ptr + 1, [Extent(entry.iblock, truncSize)]);
          ptr := ptr + 1;
        } else {
          Same(list, ptr);
          ptr := ptr + 1;
        }
        assert ptr == at + |parts| && list == Spliced(was, at, at + 1, parts);
        assert forall b: nat :: Has(list[..ptr], b) ==> Has(was[..at], b) || b < newSize;
        seen := seen + 1;
      }
      assert list[..ptr] == list;
      BlocksAre(list);
      BlocksAre(before);
      CountIsSize(list);
      CountIsSize(before);
      Partition(Blocks(before), Blocks(list), newSize);
    }

    /** vdfs4_runtime_extent_exists. */
    method Exists(iblock: nat) returns (found: bool)
      ensures found <==> iblock in Blocks(list)
    {
      BlocksAre(list);
      var ptr := 0;
      while ptr < |list|
        invariant 0 <= ptr <= |list|
        invariant forall j :: 0 <= j < ptr ==> !In(list[j], iblock)
      {
        if list[ptr].iblock <= iblock < list[ptr].iblock + list[ptr].count {
          assert In(list[ptr], iblock);
          return true;
        }
        ptr := ptr + 1;
      }
      return false;
    }

    /** vdfs4_runtime_extent_count. */
    method CountBlocks() returns (count: nat)
      requires ListOk(list)
      ensures count == |Blocks(list)|
    {
      CountIsSize(list);
      count := 0;
      var ptr := 0;
      while ptr < |list|
        invariant 0 <= ptr <= |list|
        invariant count == Count(list[..ptr])
      {
        count := count + list[ptr].count;
        assert list[..ptr + 1][..ptr] == list[..ptr];
        ptr := ptr + 1;
      }
      assert list[..ptr] == list;
    }
  }
}
