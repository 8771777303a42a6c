/** The free-space list and its bitmap (extractor/vdfs-tools/lib/space_manager.c), for images
that are not read-only. */
module Space {
  import opened Arith
  import opened Ranges
  import opened SignedBits

  /** A run of free blocks (struct space_manager_item). */
  datatype Item = Item(offset: nat, length: nat)

  /** ADDR_ANY: any place will do. */
  const ANY: nat := 0

  /** FSM_BMP_MAGIC with its version, and CRC32_SIZE. */
  const MAGIC_LEN: nat := 12
  const CRC_LEN: nat := 4

  function End(it: Item): nat {
    it.offset + it.length
  }

  /** The list is sorted, and its runs are apart, not empty and inside the volume. */
  ghost predicate FreeOk(free: seq<Item>, bits: nat) {
    && (forall i :: 0 <= i < |free| ==> free[i].length > 0 && End(free[i]) <= bits)
    && (forall i, j :: 0 <= i < j < |free| ==> End(free[i]) <= free[j].offset)
  }

  ghost predicate InItem(it: Item, b: nat) {
    it.offset <= b < End(it)
  }

  ghost predicate InFree(free: seq<Item>, b: nat) {
    exists i :: 0 <= i < |free| && InItem(free[i], b)
  }

  function Sum(free: seq<Item>): nat {
    if free == [] then 0 else Sum(free[..|free| - 1]) + free[|free| - 1].length
  }

  lemma {:induction false} SumAppend(a: seq<Item>, b: seq<Item>)
    ensures Sum(a + b) == Sum(a) + Sum(b)
  {
    if b == [] {
      assert a + b == a;
    } else {
      assert (a + b)[..|a + b| - 1] == a + b[..|b| - 1];
      SumAppend(a, b[..|b| - 1]);
    }
  }

  /** Item `i` replaced by others. */
  function Spliced(free: seq<Item>, i: nat, parts: seq<Item>): seq<Item>
    requires i < |free|
  {
    free[..i] + parts + free[i + 1..]
  }

  /** The parts of an item that are left when the run of `len` blocks from `at` is taken. */
  ghost predicate Leaves(it: Item, at: nat, len: nat, parts: seq<Item>) {
    && it.offset <= at && at + len <= End(it)
    && (forall k :: 0 <= k < |parts| ==> parts[k].length > 0 && it.offset <= parts[k].offset && End(parts[k]) <= End(it))
    && (forall j, k :: 0 <= j < k < |parts| ==> End(parts[j]) <= parts[k].offset)
    && (forall b: nat :: InFree(parts, b) <==> InItem(it, b) && !(at <= b < at + len))
    && Sum(parts) + len == it.length
  }

  lemma LeavesIn(it: Item, at: nat, len: nat, parts: seq<Item>)
    requires Leaves(it, at, len, parts)
    ensures forall k :: 0 <= k < |parts| ==> parts[k].length > 0 && it.offset <= parts[k].offset && End(parts[k]) <= End(it)
    ensures forall j, k :: 0 <= j < k < |parts| ==> End(parts[j]) <= parts[k].offset
    ensures Sum(parts) + len == it.length
  {
  }

  /** Lists one behind the other. */
  lemma FreePlus(a: seq<Item>, c: seq<Item>, bits: nat)
    requires FreeOk(a, bits) && FreeOk(c, bits) && forall x, y :: x in a && y in c ==> End(x) <= y.offset
    ensures FreeOk(a + c, bits)
  {
    var f := a + c;
    forall i, j | 0 <= i < j < |f| ensures End(f[i]) <= f[j].offset {
      if i < |a| <= j {
        assert f[i] in a && f[j] in c;
      }
    }
  }

  lemma SplicedOk(free: seq<Item>, i: nat, at: nat, len: nat, parts: seq<Item>, bits: nat)
    requires FreeOk(free, bits) && i < |free| && Leaves(free[i], at, len, parts)
    ensures FreeOk(Spliced(free, i, parts), bits)
  {
    hide Leaves, Sum;
    var left, right := free[..i], free[i + 1..];
    LeavesIn(free[i], at, len, parts);
    assert FreeOk(parts, bits);
    forall x | x in left ensures End(x) <= free[i].offset {
    }
    forall y | y in right ensures End(free[i]) <= y.offset {
    }
    forall x | x in parts ensures free[i].offset <= x.offset && End(x) <= End(free[i]) {
    }
    assert free[i].offset <= End(free[i]);
    FreePlus(left, parts, bits);
    FreePlus(left + parts, right, bits);
  }

  /** Items do not overlap. */
  lemma OneItem(free: seq<Item>, bits: nat, i: nat, k: nat, b: nat)
    requires FreeOk(free, bits) && i < |free| && k < |free| && InItem(free[i], b) && InItem(free[k], b)
    ensures i == k
  {
  }

  lemma InFreePlus(a: seq<Item>, c: seq<Item>, b: nat)
    ensures InFree(a + c, b) <==> InFree(a, b) || InFree(c, b)
  {
    hide InItem;
    if k :| 0 <= k < |a + c| && InItem((a + c)[k], b) {
      assert if k < |a| then InItem(a[k], b) else InItem(c[k - |a|], b);
    }
    if k :| 0 <= k < |a| && InItem(a[k], b) {
      assert InItem((a + c)[k], b);
    }
    if k :| 0 <= k < |c| && InItem(c[k], b) {
      assert InItem((a + c)[|a| + k], b);
    }
  }

  lemma SplicedHas(free: seq<Item>, i: nat, parts: seq<Item>, b: nat)
    requires i < |free|
    ensures InFree(Spliced(free, i, parts), b) <==> InFree(parts, b) || exists k :: 0 <= k < |free| && k != i && InItem(free[k], b)
  {
    hide InItem;
    assert InFree(Spliced(free, i, parts), b) <==> InFree(free[..i], b) || InFree(parts, b) || InFree(free[i + 1..], b) by {
      hide InFree;
      InFreePlus(free[..i] + parts, free[i + 1..], b);
      InFreePlus(free[..i], parts, b);
    }
    var right := free[i + 1..];
    if k :| 0 <= k < |free| && k != i && InItem(free[k], b) {
      assert if k < i then InItem(free[..i][k], b) else InItem(right[k - i - 1], b);
    }
    if k :| 0 <= k < i && InItem(free[..i][k], b) {
      assert InItem(free[k], b);
    }
    if k :| 0 <= k < |right| && InItem(right[k], b) {
      assert InItem(free[i + 1 + k], b);
    }
  }

  lemma SplicedBlocks(free: seq<Item>, i: nat, at: nat, len: nat, parts: seq<Item>, bits: nat, b: nat)
    requires FreeOk(free, bits) && i < |free| && Leaves(free[i], at, len, parts)
    ensures InFree(Spliced(free, i, parts), b) <==> InFree(free, b) && !(at <= b < at + len)
  {
    hide Spliced, FreeOk, Sum;
    SplicedHas(free, i, parts, b);
    if k :| 0 <= k < |free| && k != i && InItem(free[k], b) {
      if InItem(free[i], b) {
        OneItem(free, bits, i, k, b);
      }
    }
    assert InItem(free[i], b) ==> InFree(free, b);
  }

  lemma SumThree(a: seq<Item>, b: seq<Item>, c: seq<Item>)
    ensures Sum(a + b + c) == Sum(a) + Sum(b) + Sum(c)
  {
    hide Sum;
    SumAppend(a + b, c);
    SumAppend(a, b);
  }

  lemma SplicedSum(free: seq<Item>, i: nat, at: nat, len: nat, parts: seq<Item>)
    requires i < |free| && Leaves(free[i], at, len, parts)
    ensures Sum(Spliced(free, i, parts)) + len == Sum(free)
  {
    hide Sum, Leaves, InFree;
    OnePart(free[i]);
    LeavesIn(free[i], at, len, parts);
    assert free == free[..i] + [free[i]] + free[i + 1..];
    SumThree(free[..i], [free[i]], free[i + 1..]);
    SumThree(free[..i], parts, free[i + 1..]);
  }

  /* ---- which parts are left ---- */

  lemma LeavesFront(it: Item, len: nat, parts: seq<Item>)
    requires len <= it.length && it.length > 0
    requires parts == if len == it.length then [] else [Item(it.offset + len, it.length - len)]
    ensures Leaves(it, it.offset, len, parts)
  {
    if parts != [] {
      OnePart(parts[0]);
    }
  }

  lemma LeavesBack(it: Item, at: nat, len: nat, parts: seq<Item>)
    requires it.offset < at && at + len == End(it)
    requires parts == [Item(it.offset, it.length - len)]
    ensures Leaves(it, at, len, parts)
  {
    OnePart(parts[0]);
  }

  lemma LeavesMiddle(it: Item, at: nat, len: nat, parts: seq<Item>)
    requires it.offset < at && at + len < End(it)
    requires parts == [Item(it.offset, at - it.offset), Item(at + len, it.length - len - (at - it.offset))]
    ensures Leaves(it, at, len, parts)
  {
    OnePart(parts[0]);
    assert parts == [parts[0]] + [parts[1]];
    SumAppend([parts[0]], [parts[1]]);
    OnePart(parts[1]);
    forall b: nat ensures InFree(parts, b) <==> InItem(parts[0], b) || InItem(parts[1], b) {
    }
  }

  lemma OnePart(it: Item)
    ensures Sum([it]) == it.length && forall b: nat :: InFree([it], b) <==> InItem(it, b)
  {
    assert [it][..0] == [];
    forall b: nat ensures InFree([it], b) <==> InItem(it, b) {
      if InItem(it, b) { assert InItem([it][0], b); }
    }
  }

  /* ---- the buffer ---- */

  /** A quotient rounded up. */
  function CeilDiv(x: nat, d: nat): nat
    requires d > 0
  {
    (x + d - 1) / d
  }

  /** Blocks that the bytes would take without frames, and one more. */
  function Frames(bytes: nat, block: nat): nat
    requires block > 0
  {
    bytes / block + 1
  }

  lemma FramesFact(bytes: nat, block: nat)
    requires block > 0
    ensures bytes < Frames(bytes, block) * block
  {
    DivMod(bytes, block);
    MulDistributes(bytes / block, 1, block);
  }

  /** The size that init_space_manager computes for the bitmap. */
  function BufferSize(bits: nat, block: nat): nat
    requires block > 0
  {
    var bytes := (bits + 7) / 8;
    var size := bytes + (MAGIC_LEN + CRC_LEN) * Frames(bytes, block);
    CeilDiv(size, block) * block
  }

  /** All blocks of the bitmap that hold a data bit. */
  function BlocksNeeded(bits: nat, block: nat): nat
    requires block > MAGIC_LEN + CRC_LEN
  {
    CeilDiv((bits + 7) / 8, block - (MAGIC_LEN + CRC_LEN))
  }

  /** Rounding up. */
  lemma CeilFacts(x: nat, d: nat)
    requires d > 0 && x > 0
    ensures CeilDiv(x, d) > 0 && (CeilDiv(x, d) - 1) * d < x <= CeilDiv(x, d) * d
  {
    DivMod(x + d - 1, d);
    MulDistributes((x + d - 1) / d, 1, d);
  }

  /** The bytes of bits that the last block needed holds are more than the frames that are needed but for it and were
  not counted. */
  predicate EnoughCounted(bits: nat, k: nat)
    requires k >= 2
  {
    var (b, c, bytes) := (16 * k, 16 * k - 16, (bits + 7) / 8);
    var n := BlocksNeeded(bits, b);
    bytes - (n - 1) * c > 16 * (n - 1 - Frames(bytes, b))
  }

  /** With blocks of 16 * k bytes, a power of two: exactly when the computed buffer holds all bits. */
  lemma BufferExact(bits: nat, k: nat)
    requires k >= 2 && bits > 0
    ensures BlocksNeeded(bits, 16 * k) * (16 * k) <= BufferSize(bits, 16 * k) <==> EnoughCounted(bits, k)
  {
    hide CeilDiv, Frames;
    var b, c, bytes := 16 * k, 16 * k - 16, (bits + 7) / 8;
    var size := bytes + 16 * Frames(bytes, b);
    CeilFacts(bytes, c);
    CeilFacts(size, b);
    HoldsExactly(BlocksNeeded(bits, b), b, c, size, CeilDiv(size, b));
  }

  /** `m` blocks, just enough for the size, hold `n` exactly when the size exceeds `n - 1` of them. */
  lemma HoldsExactly(n: nat, b: nat, c: nat, size: nat, m: nat)
    requires n > 0 && m > 0 && b == c + 16 && (m - 1) * b < size <= m * b
    ensures n * b <= m * b <==> size > (n - 1) * c + 16 * (n - 1)
  {
    MulSum(n - 1, c, 16);
    MulOrder(m, n - 1, b);
    MulOrder(n, m, b);
    MulOrder(n - 1, m - 1, b);
    MulOrder(m + 1, n, b);
    MulDistributes(m, 1, b);
  }

  /** Up to (k + 1) * (16 * k - 16) bytes of bits the computed buffer holds them all. */
  lemma BufferSuffices(bits: nat, k: nat)
    requires k >= 2 && bits > 0 && (bits + 7) / 8 <= (k + 1) * (16 * k - 16)
    ensures EnoughCounted(bits, k) && BlocksNeeded(bits, 16 * k) * (16 * k) <= BufferSize(bits, 16 * k)
  {
    hide CeilDiv, Frames;
    var b, c, bytes := 16 * k, 16 * k - 16, (bits + 7) / 8;
    var n, f := BlocksNeeded(bits, b), Frames(bytes, b);
    CeilFacts(bytes, c);
    FramesFact(bytes, b);
    FewBlocks(n, k, c, bytes);
    MulSum(n - 1, c, 16);
    EnoughFrames(n, k, b, (n - 1) * c, bytes, f);
    BufferExact(bits, k);
  }

  /** One byte more, and it does not, for every block size: the bits take k + 2 blocks, the buffer has k + 1. */
  lemma BufferTooSmall(k: nat)
    requires k >= 2
    ensures var bits := 8 * ((k + 1) * (16 * k - 16) + 1);
      && BlocksNeeded(bits, 16 * k) == k + 2 && BufferSize(bits, 16 * k) == (k + 1) * (16 * k)
      && BlocksNeeded(bits, 16 * k) * (16 * k) > BufferSize(bits, 16 * k) && !EnoughCounted(bits, k)
  {
    hide CeilDiv, Frames;
    var b, c := 16 * k, 16 * k - 16;
    var bytes := (k + 1) * c + 1;
    var bits := 8 * bytes;
    assert (bits + 7) / 8 == bytes;
    MulSum(k + 1, c, 16);
    MulDistributes(k, 1, b);
    assert bytes == (k - 1) * b + (b - 15);
    CeilIs(bytes, c, k + 1, 1);
    FramesAre(bytes, b, k - 1, b - 15);
    CeilIs(bytes + 16 * k, b, k, b - 15);
    MulMonotone(k + 1, k + 2, b);
    BufferExact(bits, k);
  }

  lemma CeilIs(x: nat, d: nat, q: nat, r: nat)
    requires 0 < r <= d && x == q * d + r
    ensures CeilDiv(x, d) == q + 1
  {
    MulDistributes(q, 1, d);
    DivUnique(x + d - 1, d, q + 1, r - 1);
  }

  lemma FramesAre(x: nat, d: nat, q: nat, r: nat)
    requires r < d && x == q * d + r
    ensures Frames(x, d) == q + 1
  {
    DivUnique(x, d, q, r);
  }

  lemma MulSum(a: nat, b: nat, c: nat)
    ensures a * (b + c) == a * b + a * c
  {
  }

  lemma FewBlocks(n: nat, k: nat, c: nat, bytes: nat)
    requires n > 0 && (n - 1) * c < bytes <= (k + 1) * c
    ensures n <= k + 1
  {
    if n - 1 > k + 1 {
      MulMonotone(k + 1, n - 1, c);
    }
  }

  lemma EnoughFrames(n: nat, k: nat, b: nat, nc: nat, bytes: nat, f: nat)
    requires b == 16 * k && 0 < n <= k + 1 && nc < bytes < f * b
    requires (n - 1) * b == nc + 16 * (n - 1)
    ensures f + 1 >= n
  {
    if n >= 2 {
      LessOne(n - 1, b);
      MoreFrames(n, k, b, bytes, nc, f * b, (n - 2) * b);
      MulOrder(f, n - 2, b);
    }
  }

  lemma LessOne(a: nat, b: nat)
    requires a > 0
    ensures (a - 1) * b == a * b - b
  {
    MulDistributes(a, 1, b);
  }

  lemma MulOrder(a: nat, b: nat, d: nat)
    ensures a <= b ==> a * d <= b * d
  {
    if a < b {
      MulMonotone(a, b, d);
    }
  }

  lemma MoreFrames(n: nat, k: nat, b: nat, bytes: nat, nc: nat, fb: nat, nb: nat)
    requires b == 16 * k && 0 < n <= k + 1 && nc < bytes < fb && nb == nc + 16 * (n - 1) - b
    ensures fb > nb
  {
  }

  /* ---- the space manager ---- */

  /** Free runs and granted blocks share out the volume. */
  ghost predicate Shared(free: seq<Item>, granted: set<nat>, bits: nat) {
    && FreeOk(free, bits)
    && forall b: nat :: (b in granted ==> b < bits) && (b < bits ==> (b in granted <==> !InFree(free, b)))
  }

  lemma SharedAfter(free: seq<Item>, granted: set<nat>, bits: nat, i: nat, at: nat, len: nat, parts: seq<Item>)
    requires Shared(free, granted, bits) && i < |free| && Leaves(free[i], at, len, parts)
    ensures Shared(Spliced(free, i, parts), granted + Range(at, len), bits) && Range(at, len) !! granted
  {
    hide Spliced, Leaves, FreeOk, InFree, Range;
    RangeHas(at, len);
    SplicedOk(free, i, at, len, parts, bits);
    RunInside(free, bits, i, at, len, parts);
    forall b: nat ensures InFree(Spliced(free, i, parts), b) <==> InFree(free, b) && !(at <= b < at + len) {
      SplicedBlocks(free, i, at, len, parts, bits, b);
    }
  }

  lemma RunInside(free: seq<Item>, bits: nat, i: nat, at: nat, len: nat, parts: seq<Item>)
    requires FreeOk(free, bits) && i < |free| && Leaves(free[i], at, len, parts)
    ensures at + len <= bits && forall b: nat :: at <= b < at + len ==> InFree(free, b)
  {
    forall b: nat | at <= b < at + len ensures InFree(free, b) {
      assert InItem(free[i], b);
    }
  }

  /** The run has room at the place asked for, or anywhere. */
  predicate Serves(it: Item, offset: nat, length: nat) {
    if offset == ANY then length <= it.length else it.offset <= offset && offset + length <= End(it)
  }

  /** All blocks asked for are in the run; no blocks are in it from its start to its end. */
  ghost predicate Holds(it: Item, offset: nat, length: nat) {
    if length == 0 then it.offset <= offset <= it.offset + it.length
    else forall b: nat :: offset <= b < offset + length ==> InItem(it, b)
  }

  lemma HoldsIs(it: Item, offset: nat, length: nat)
    ensures Holds(it, offset, length) <==> it.offset <= offset && offset + length <= it.offset + it.length
  {
    if Holds(it, offset, length) && length > 0 {
      assert InItem(it, offset) && InItem(it, offset + length - 1);
    }
  }

  /** Place `addr` begins the first run that is long enough. */
  ghost predicate FirstFit(free: seq<Item>, length: nat, addr: nat) {
    exists i :: 0 <= i < |free| && free[i].offset == addr && length <= free[i].length
                && forall k :: 0 <= k < i ==> free[k].length < length
  }

  class SpaceManager {
    const cut: Cut
    const bitsCount: nat
    const buffer: array<bv8>
    ghost const blocks: nat
    var free: seq<Item>
    var freeBlocks: nat
    ghost var granted: set<nat>

    ghost predicate Valid()
      reads this, buffer
    {
      && CutOk(cut) && cut.magic + cut.crc > 0
      && buffer.Length == FirstByte(cut, blocks) && bitsCount <= Capacity(cut, blocks)
      && Shared(free, granted, bitsCount) && freeBlocks == Sum(free)
      && forall n: nat :: n < bitsCount ==> BitIs(cut, buffer[..], n, n in granted)
    }

    /** init_space_manager: all blocks are free. The volume is one whose bits the computed buffer
    can hold (BufferExact). */
    constructor (bits: nat, k: nat)
      requires k >= 2 && 0 < bits && EnoughCounted(bits, k)
      ensures Valid() && granted == {} && bitsCount == bits && freeBlocks == bits && free == [Item(0, bits)]
      ensures cut == Cut(16 * k, MAGIC_LEN, CRC_LEN) && buffer.Length == BufferSize(bits, 16 * k) && fresh(buffer)
    {
      bitsCount := bits;
      cut := Cut(16 * k, MAGIC_LEN, CRC_LEN);
      buffer := new bv8[BufferSize(bits, 16 * k)](_ => 0);
      blocks := BufferBlocks(bits, 16 * k);
      free := [Item(0, bits)];
      freeBlocks := bits;
      granted := {};
      new;
      hide BufferSize, BufferBlocks, FirstByte, Capacity, Place, Sum, InFree;
      BufferIsBlocks(bits, k);
      OnePart(Item(0, bits));
      forall n: nat | n < bits ensures BitIs(cut, buffer[..], n, n in granted) {
        PlaceInside(cut, blocks, n);
      }
    }

    /** put_space_manager_list_sorted: behind all runs that do not start behind the new one. */
    method PutSorted(item: Item) returns (ghost p: nat)
      modifies this`free
      ensures p <= |old(free)| && free == old(free)[..p] + [item] + old(free)[p..]
      ensures forall k :: 0 <= k < p ==> old(free)[k].offset <= item.offset
      ensures p < |old(free)| ==> old(free)[p].offset > item.offset
    {
      var i := 0;
      while i < |free| && free[i].offset <= item.offset
        invariant i <= |free| && forall k :: 0 <= k < i ==> free[k].offset <= item.offset
        modifies {}
      {
        i := i + 1;
      }
      free := free[..i] + [item] + free[i..];
      p := i;
    }

    /** remove_from_list. */
    method Remove(i: nat)
      requires i < |free|
      modifies this`free
      ensures free == old(free)[..i] + old(free)[i + 1..]
    {
      free := free[..i] + free[i + 1..];
    }

    /** Advances run `i`, or shortens it at its end, and drops it when nothing is left
    (shrink_list_item). */
    method Shrink(i: nat, length: nat, front: bool)
      requires i < |free| && length <= free[i].length
      modifies this`free
      ensures free == Spliced(old(free), i,
                              if length == old(free)[i].length then []
                              else [Item(if front then old(free)[i].offset + length else old(free)[i].offset, old(free)[i].length - length)])
    {
      ghost var was := free;
      var offset := if front then free[i].offset + length else free[i].offset;
      free := free[i := Item(offset, free[i].length - length)];
      if free[i].length == 0 {
        Remove(i);
        assert free == was[..i] + [] + was[i + 1..];
      } else {
        assert free == was[..i] + [free[i]] + was[i + 1..];
      }
    }

    /** The split of run `i` in get_free_space: the run is taken out and its two ends put back. */
    method Split(i: nat, offset: nat, length: nat)
      requires i < |free| && FreeOk(free, bitsCount)
      requires free[i].offset < offset && offset + length < End(free[i])
      modifies this`free
      ensures free == Spliced(old(free), i, [Item(old(free)[i].offset, offset - old(free)[i].offset),
                                             Item(offset + length, old(free)[i].length - length - (offset - old(free)[i].offset))])
    {
      ghost var was := free;
      var it := free[i];
      var a, b := Item(it.offset, offset - it.offset), Item(offset + length, it.length - length - (offset - it.offset));
      Remove(i);
      ghost var without := free;
      ghost var p := PutSorted(a);
      SortedPlace(was, bitsCount, i, without, a.offset, p);
      ghost var with := free;
      ghost var q := PutSorted(b);
      assert with == was[..i] + [a] + was[i + 1..];
      SecondPlace(was, bitsCount, i, a, with, b.offset, q);
      assert free == was[..i] + [a, b] + was[i + 1..];
    }

    /** get_free_space: the run at `offset`, or the first that is long enough; -1 for none. */
    method GetFreeSpace(offset: nat, length: nat) returns (addr: int)
      requires Valid()
      modifies this`free, this`freeBlocks, this`granted, buffer
      ensures Valid() && addr >= -1
      ensures addr >= 0 ==> granted == old(granted) + Range(addr, length) && Range(addr, length) !! old(granted)
      ensures addr >= 0 ==> freeBlocks + length == old(freeBlocks) && (offset != ANY ==> addr == offset)
      ensures addr == -1 ==> free == old(free) && freeBlocks == old(freeBlocks) && granted == old(granted) && buffer[..] == old(buffer[..])
      ensures offset == ANY ==> (addr == -1 <==> forall i :: 0 <= i < |old(free)| ==> old(free)[i].length < length)
      ensures offset != ANY ==> (addr == -1 <==> forall i :: 0 <= i < |old(free)| ==> !Holds(old(free)[i], offset, length))
      ensures addr >= 0 && offset == ANY ==> FirstFit(old(free), length, addr)
      ensures forall p :: 0 <= p < buffer.Length && Framing(cut, p) ==> buffer[p] == old(buffer[p])
    {
      hide Spliced, Leaves, FreeOk, Shared, Sum, BitIs, DataIs, Framing, FirstByte, Capacity, InFree, Range, Holds;
      forall it | it in free ensures Holds(it, offset, length) <==> it.offset <= offset && offset + length <= End(it) {
        HoldsIs(it, offset, length);
      }
      var i := 0;
      while i < |free| && !Serves(free[i], offset, length)
        invariant i <= |free|
        invariant forall k :: 0 <= k < i ==> !Serves(free[k], offset, length)
        modifies {}
      {
        i := i + 1;
      }
      if i == |free| {
        return -1;
      }
      ghost var was, it, bits := free, free[i], buffer[..];
      SharedOk(was, granted, bitsCount, i);
      ghost var parts: seq<Item>;
      if offset == ANY || offset == free[i].offset {
        addr := free[i].offset;
        parts := if length == it.length then [] else [Item(it.offset + length, it.length - length)];
        Shrink(i, length, true);
        LeavesFront(it, length, parts);
      } else if offset + length == End(free[i]) {
        addr := offset;
        parts := [Item(it.offset, it.length - length)];
        Shrink(i, length, false);
        LeavesBack(it, addr, length, parts);
      } else {
        addr := offset;
        parts := [Item(it.offset, offset - it.offset), Item(offset + length, it.length - length - (offset - it.offset))];
        Split(i, offset, length);
        LeavesMiddle(it, addr, length, parts);
      }
      SharedAfter(was, granted, bitsCount, i, addr, length, parts);
      SplicedSum(was, i, addr, length, parts);
      RunInside(was, bitsCount, i, addr, length, parts);
      var ok := SignPutBits(buffer, addr, length, cut, true, blocks);
      BitsAfter(cut, bits, buffer[..], bitsCount, blocks, addr, length, granted);
      granted := granted + Range(addr, length);
      freeBlocks := freeBlocks - length;
    }

    /** allocate_space: ENOSPC when no run has room. */
    method AllocateSpace(offset: nat, count: nat) returns (ok: bool, first: nat)
      requires Valid()
      modifies this`free, this`freeBlocks, this`granted, buffer
      ensures Valid()
      ensures ok ==> granted == old(granted) + Range(first, count) && Range(first, count) !! old(granted)
      ensures ok ==> freeBlocks + count == old(freeBlocks)
      ensures ok ==> if offset == ANY then FirstFit(old(free), count, first) else first == offset
      ensures offset == ANY ==> (ok <==> exists i :: 0 <= i < |old(free)| && count <= old(free)[i].length)
      ensures offset != ANY ==> (ok <==> exists i :: 0 <= i < |old(free)| && Holds(old(free)[i], offset, count))
      ensures !ok ==> free == old(free) && freeBlocks == old(freeBlocks) && granted == old(granted) && buffer[..] == old(buffer[..])
      ensures forall p :: 0 <= p < buffer.Length && Framing(cut, p) ==> buffer[p] == old(buffer[p])
    {
      hide Valid, Shared, BitIs, Framing, Range, Holds, FirstFit;
      var addr := GetFreeSpace(offset, count);
      ok, first := addr >= 0, if addr >= 0 then addr else 0;
    }
  }

  lemma SharedOk(free: seq<Item>, granted: set<nat>, bits: nat, i: nat)
    requires Shared(free, granted, bits) && i < |free|
    ensures FreeOk(free, bits) && free[i].length > 0
  {
  }

  /** The bitmap after blocks were granted. */
  lemma BitsAfter(c: Cut, buf: seq<bv8>, buf': seq<bv8>, bits: nat, blocks: nat, at: nat, len: nat, granted: set<nat>)
    requires CutOk(c) && bits <= Capacity(c, blocks) && at + len <= bits
    requires DataIs(c, buf, buf', at, Min(at + len, Capacity(c, blocks)), true)
    requires forall n: nat :: n < bits ==> BitIs(c, buf, n, n in granted)
    ensures forall n: nat :: n < bits ==> BitIs(c, buf', n, n in granted + Range(at, len))
    ensures forall p :: 0 <= p < |buf| && Framing(c, p) ==> buf'[p] == buf[p]
  {
    hide Capacity, BitAt, Framing, IsData, Range;
    RangeHas(at, len);
    forall n: nat | n < bits ensures BitIs(c, buf', n, n in granted + Range(at, len)) {
      assert BitIs(c, buf, n, n in granted);
      DataBit(c, buf, buf', at, at + len, true, n);
    }
    forall p | 0 <= p < |buf| && Framing(c, p) ensures buf'[p] == buf[p] {
      FramingKept(c, buf, buf', at, at + len, true, p);
    }
  }

  /** The whole blocks of the computed buffer. */
  function BufferBlocks(bits: nat, block: nat): nat
    requires block > 0
  {
    var bytes := (bits + 7) / 8;
    CeilDiv(bytes + (MAGIC_LEN + CRC_LEN) * Frames(bytes, block), block)
  }

  lemma BufferIsBlocks(bits: nat, k: nat)
    requires k >= 2 && 0 < bits && EnoughCounted(bits, k)
    ensures var c := Cut(16 * k, MAGIC_LEN, CRC_LEN);
            BufferSize(bits, 16 * k) == FirstByte(c, BufferBlocks(bits, 16 * k)) && bits <= Capacity(c, BufferBlocks(bits, 16 * k))
  {
    hide CeilDiv, Frames;
    var b, c, bytes := 16 * k, 16 * k - 16, (bits + 7) / 8;
    var n, m := BlocksNeeded(bits, b), BufferBlocks(bits, b);
    BufferExact(bits, k);
    CeilFacts(bytes, c);
    if m < n {
      MulMonotone(m, n, b);
    }
    if n < m {
      MulMonotone(n, m, c);
    }
    MulEight(m, c);
  }

  lemma PlaceInside(c: Cut, blocks: nat, n: nat)
    requires CutOk(c) && n < Capacity(c, blocks)
    ensures Place(c, n) < 8 * FirstByte(c, blocks)
  {
    hide FirstByte, FirstData;
    BlockOfIs(c, n);
    if BlockOf(c, n) < blocks {
      NextBlock(c, BlockOf(c, n), blocks);
    } else if blocks < BlockOf(c, n) {
      NextBlock(c, blocks, BlockOf(c, n));
    }
  }

  /** Data bit `n` of the buffer is `value`. */
  ghost predicate BitIs(c: Cut, buf: seq<bv8>, n: nat, value: bool) {
    c.block > c.magic + c.crc && Place(c, n) < 8 * |buf| && BitAt(buf, Place(c, n)) == value
  }

  /** Where the first part of a split run goes back to. */
  lemma SortedPlace(free: seq<Item>, bits: nat, i: nat, without: seq<Item>, offset: nat, p: nat)
    requires FreeOk(free, bits) && i < |free| && without == free[..i] + free[i + 1..] && p <= |without|
    requires free[i].offset <= offset < End(free[i])
    requires forall k :: 0 <= k < p ==> without[k].offset <= offset
    requires p < |without| ==> without[p].offset > offset
    ensures p == i && without[..p] == free[..i] && without[p..] == free[i + 1..]
  {
    forall k | 0 <= k < |without| ensures without[k].offset > offset <==> k >= i {
      assert without[k] == if k < i then free[k] else free[k + 1];
    }
    assert i < |without| ==> without[i].offset > offset;
  }

  lemma SecondPlace(free: seq<Item>, bits: nat, i: nat, a: Item, with: seq<Item>, offset: nat, q: nat)
    requires FreeOk(free, bits) && i < |free| && with == free[..i] + [a] + free[i + 1..] && q <= |with|
    requires a.offset <= offset < End(free[i]) && free[i].offset <= offset
    requires forall k :: 0 <= k < q ==> with[k].offset <= offset
    requires q < |with| ==> with[q].offset > offset
    ensures q == i + 1 && with[..q] == free[..i] + [a] && with[q..] == free[i + 1..]
  {
    forall k | 0 <= k < |with| ensures with[k].offset > offset <==> k > i {
      assert with[k] == if k == i then a else free[k];
    }
    assert i + 1 < |with| ==> with[i + 1].offset > offset;
    assert with[i].offset <= offset;
  }
}
