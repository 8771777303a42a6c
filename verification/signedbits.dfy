/** Bitmaps cut into blocks, with magic bytes before and a CRC behind the bits of each block
(extractor/vdfs-tools/lib/utils.c).

A place in the buffer is counted in bits, eight to a byte, the lowest first. */
module SignedBits {
  import opened Arith

  /* ---- bits of a byte ---- */

  function Mask(k: nat): bv8
    requires k < 8
  {
    if k == 0 then 1 else if k == 1 then 2 else if k == 2 then 4 else if k == 3 then 8
    else if k == 4 then 16 else if k == 5 then 32 else if k == 6 then 64 else 128
  }

  predicate BitOf(b: bv8, k: nat)
    requires k < 8
  {
    b & Mask(k) != 0
  }

  /** Bits are counted from the lowest. */
  lemma LowestFirst(k: nat)
    requires k < 8
    ensures Mask(k) == (1 as bv8) << k
  {
    match k
    case 0 => assert Mask(k) == 1;
    case 1 => assert Mask(k) == 2;
    case 2 => assert Mask(k) == 4;
    case 3 => assert Mask(k) == 8;
    case 4 => assert Mask(k) == 16;
    case 5 => assert Mask(k) == 32;
    case 6 => assert Mask(k) == 64;
    case 7 => assert Mask(k) == 128;
  }

  lemma ByteSet(b: bv8, k: nat, j: nat)
    requires k < 8 && j < 8
    ensures BitOf(b | Mask(k), j) == (BitOf(b, j) || j == k)
  {
  }

  lemma ByteCleared(b: bv8, k: nat, j: nat)
    requires k < 8 && j < 8
    ensures BitOf(b & !Mask(k), j) == (BitOf(b, j) && j != k)
  {
  }

  /** The bit at place `x` of a buffer. */
  predicate BitAt(buf: seq<bv8>, x: nat)
    requires x < 8 * |buf|
  {
    BitOf(buf[x / 8], x % 8)
  }

  /** The buffers differ exactly in that the bits from `lo` up to `hi` are `value` in the second. */
  ghost predicate RangeIs(buf: seq<bv8>, buf': seq<bv8>, lo: nat, hi: nat, value: bool) {
    && |buf'| == |buf|
    && forall x :: 0 <= x < 8 * |buf| ==> BitAt(buf', x) == if lo <= x < hi then value else BitAt(buf, x)
  }

  lemma OneSet(buf: seq<bv8>, x: nat, value: bool, buf': seq<bv8>)
    requires x < 8 * |buf|
    requires buf' == buf[x / 8 := if value then buf[x / 8] | Mask(x % 8) else buf[x / 8] & !Mask(x % 8)]
    ensures RangeIs(buf, buf', x, x + 1, value)
  {
    hide BitOf, Mask;
    forall y | 0 <= y < 8 * |buf| ensures BitAt(buf', y) == if x == y then value else BitAt(buf, y) {
      if y / 8 == x / 8 {
        ByteSet(buf[x / 8], x % 8, y % 8);
        ByteCleared(buf[x / 8], x % 8, y % 8);
      }
    }
  }

  lemma RangeMore(a: seq<bv8>, b: seq<bv8>, c: seq<bv8>, lo: nat, mid: nat, hi: nat, value: bool)
    requires RangeIs(a, b, lo, mid, value) && RangeIs(b, c, mid, hi, value) && lo <= mid <= hi
    ensures RangeIs(a, c, lo, hi, value)
  {
    hide BitAt;
  }

  /** util_set_bits and util_clear_bits: `count` bits from bit `addr` behind byte `base` on. */
  method PutBits(buffer: array<bv8>, base: nat, addr: nat, count: nat, value: bool)
    requires 8 * base + addr + count <= 8 * buffer.Length
    modifies buffer
    ensures RangeIs(old(buffer[..]), buffer[..], 8 * base + addr, 8 * base + addr + count, value)
  {
    hide RangeIs, BitOf, Mask;
    ghost var b := buffer[..];
    assert RangeIs(b, b, 8 * base + addr, 8 * base + addr, value) by { RangeNone(b, 8 * base + addr, value); }
    for k := 0 to count
      invariant RangeIs(b, buffer[..], 8 * base + addr, 8 * base + addr + k, value)
    {
      var at := addr + k;
      ghost var before, x := buffer[..], 8 * base + at;
      assert x / 8 == base + at / 8 && x % 8 == at % 8;
      buffer[base + at / 8] := if value then buffer[base + at / 8] | Mask(at % 8) else buffer[base + at / 8] & !Mask(at % 8);
      OneSet(before, x, value, buffer[..]);
      RangeMore(b, before, buffer[..], 8 * base + addr, x, x + 1, value);
    }
  }

  lemma RangeNone(b: seq<bv8>, x: nat, value: bool)
    ensures RangeIs(b, b, x, x, value)
  {
  }

  /* ---- blocks ---- */

  /** The cut of a bitmap: block size, magic bytes and CRC bytes. */
  datatype Cut = Cut(block: nat, magic: nat, crc: nat)

  ghost predicate CutOk(c: Cut) {
    c.block > c.magic + c.crc
  }

  /** The data bits of a block. */
  function DataBits(c: Cut): nat
    requires c.block > c.magic + c.crc
  {
    8 * (c.block - (c.magic + c.crc))
  }

  /** The place of data bit `i` of block `b`. */
  function PlaceIn(c: Cut, b: nat, i: nat): nat {
    8 * (FirstByte(c, b) + c.magic) + i
  }

  function Place(c: Cut, n: nat): nat
    requires c.block > c.magic + c.crc
  {
    PlaceIn(c, n / DataBits(c), n % DataBits(c))
  }

  /** Bit `x` of the buffer is one of the data bits from `lo` up to `hi`. */
  ghost predicate IsData(c: Cut, x: nat, lo: nat, hi: nat)
    requires CutOk(c)
  {
    exists n: nat :: lo <= n < hi && x == Place(c, n)
  }

  lemma PlaceOfBlock(c: Cut, b: nat, i: nat)
    requires CutOk(c) && i < DataBits(c)
    ensures Place(c, FirstData(c, b) + i) == PlaceIn(c, b, i)
  {
    DivUnique(FirstData(c, b) + i, DataBits(c), b, i);
  }

  /** Data bits stand at places of their own. */
  lemma PlaceInjective(c: Cut, m: nat, n: nat)
    requires CutOk(c) && Place(c, m) == Place(c, n)
    ensures m == n
  {
    var d := DataBits(c);
    DivMod(m, d);
    DivMod(n, d);
    if m / d < n / d {
      MulMonotone(m / d, n / d, c.block);
    } else if n / d < m / d {
      MulMonotone(n / d, m / d, c.block);
    }
  }

  /** The buffers differ exactly in that the data bits from `lo` up to `hi` are `value` in the second. */
  ghost predicate DataIs(c: Cut, buf: seq<bv8>, buf': seq<bv8>, lo: nat, hi: nat, value: bool)
    requires CutOk(c)
  {
    && |buf'| == |buf|
    && forall x :: 0 <= x < 8 * |buf| ==> BitAt(buf', x) == if IsData(c, x, lo, hi) then value else BitAt(buf, x)
  }

  /** A data bit after such a change. */
  lemma DataBit(c: Cut, buf: seq<bv8>, buf': seq<bv8>, lo: nat, hi: nat, value: bool, n: nat)
    requires CutOk(c) && DataIs(c, buf, buf', lo, hi, value) && Place(c, n) < 8 * |buf|
    ensures BitAt(buf', Place(c, n)) == if lo <= n < hi then value else BitAt(buf, Place(c, n))
  {
    if IsData(c, Place(c, n), lo, hi) {
      var m: nat :| lo <= m < hi && Place(c, n) == Place(c, m);
      PlaceInjective(c, m, n);
    }
  }

  /** Byte `p` holds magic or CRC. */
  predicate Framing(c: Cut, p: nat)
    requires c.block > 0
  {
    p % c.block < c.magic || p % c.block >= c.block - c.crc
  }

  /** Magic and CRC bytes do not change. */
  lemma FramingKept(c: Cut, buf: seq<bv8>, buf': seq<bv8>, lo: nat, hi: nat, value: bool, p: nat)
    requires CutOk(c) && DataIs(c, buf, buf', lo, hi, value) && p < |buf| && Framing(c, p)
    ensures buf'[p] == buf[p]
  {
    hide BitOf, Framing, Place;
    forall k | 0 <= k < 8 ensures BitOf(buf'[p], k) == BitOf(buf[p], k) {
      var x := 8 * p + k;
      assert x / 8 == p && x % 8 == k;
      if IsData(c, x, lo, hi) {
        var n: nat :| lo <= n < hi && x == Place(c, n);
        DataNotFraming(c, n);
      }
      assert BitAt(buf', x) == BitAt(buf, x);
    }
    SameBits(buf'[p], buf[p]);
  }

  lemma DataNotFraming(c: Cut, n: nat)
    requires CutOk(c)
    ensures !Framing(c, Place(c, n) / 8)
  {
    DivMod(n, DataBits(c));
    var b, i := n / DataBits(c), n % DataBits(c);
    assert Place(c, n) / 8 == b * c.block + (c.magic + i / 8);
    DivUnique(Place(c, n) / 8, c.block, b, c.magic + i / 8);
  }

  lemma SameBits(a: bv8, b: bv8)
    requires forall k :: 0 <= k < 8 ==> BitOf(a, k) == BitOf(b, k)
    ensures a == b
  {
    assert BitOf(a, 0) == BitOf(b, 0) && BitOf(a, 1) == BitOf(b, 1) && BitOf(a, 2) == BitOf(b, 2) && BitOf(a, 3) == BitOf(b, 3);
    assert BitOf(a, 4) == BitOf(b, 4) && BitOf(a, 5) == BitOf(b, 5) && BitOf(a, 6) == BitOf(b, 6) && BitOf(a, 7) == BitOf(b, 7);
  }

  /** The bits of part of a block are consecutive data bits. */
  lemma BlockRange(c: Cut, b: nat, i: nat, len: nat, x: nat)
    requires CutOk(c) && i + len <= DataBits(c)
    ensures PlaceIn(c, b, i) <= x < PlaceIn(c, b, i) + len <==> IsData(c, x, FirstData(c, b) + i, FirstData(c, b) + i + len)
  {
    if PlaceIn(c, b, i) <= x < PlaceIn(c, b, i) + len {
      var j := x - PlaceIn(c, b, 0);
      PlaceOfBlock(c, b, j);
      assert FirstData(c, b) + i <= FirstData(c, b) + j < FirstData(c, b) + i + len && x == Place(c, FirstData(c, b) + j);
    }
    if IsData(c, x, FirstData(c, b) + i, FirstData(c, b) + i + len) {
      var n: nat :| FirstData(c, b) + i <= n < FirstData(c, b) + i + len && x == Place(c, n);
      PlaceOfBlock(c, b, n - FirstData(c, b));
    }
  }

  lemma DataMore(c: Cut, a: seq<bv8>, m: seq<bv8>, z: seq<bv8>, lo: nat, b: nat, i: nat, len: nat, value: bool)
    requires CutOk(c) && i + len <= DataBits(c) && lo <= FirstData(c, b) + i
    requires DataIs(c, a, m, lo, FirstData(c, b) + i, value)
    requires RangeIs(m, z, PlaceIn(c, b, i), PlaceIn(c, b, i) + len, value)
    ensures DataIs(c, a, z, lo, FirstData(c, b) + i + len, value)
  {
    hide BitAt, Place, PlaceIn, DataBits;
    var mid := FirstData(c, b) + i;
    forall x | 0 <= x < 8 * |a| ensures BitAt(z, x) == if IsData(c, x, lo, mid + len) then value else BitAt(a, x) {
      BlockRange(c, b, i, len, x);
      DataSplit(c, x, lo, mid, mid + len);
    }
  }

  lemma DataSplit(c: Cut, x: nat, lo: nat, mid: nat, hi: nat)
    requires CutOk(c) && lo <= mid <= hi
    ensures IsData(c, x, lo, hi) <==> IsData(c, x, lo, mid) || IsData(c, x, mid, hi)
  {
    if IsData(c, x, lo, hi) {
      var n: nat :| lo <= n < hi && x == Place(c, n);
      assert if n < mid then IsData(c, x, lo, mid) else IsData(c, x, mid, hi);
    }
  }

  lemma DataNone(c: Cut, a: seq<bv8>, lo: nat, hi: nat, value: bool)
    requires CutOk(c) && hi <= lo
    ensures DataIs(c, a, a, lo, hi, value)
  {
  }

  /** The block of a data bit, as the source finds it. */
  function BlockOf(c: Cut, n: nat): nat
    requires c.block > c.magic + c.crc
  {
    n / 8 / (c.block - (c.magic + c.crc))
  }

  /** The first byte and the first data bit of a block. */
  function FirstByte(c: Cut, b: nat): nat {
    b * c.block
  }

  function FirstData(c: Cut, b: nat): nat
    requires c.block > c.magic + c.crc
  {
    b * DataBits(c)
  }

  lemma BlockOfIs(c: Cut, n: nat)
    requires CutOk(c)
    ensures BlockOf(c, n) == n / DataBits(c) && n % DataBits(c) < DataBits(c)
    ensures n == FirstData(c, BlockOf(c, n)) + n % DataBits(c)
  {
    var k, d := c.block - (c.magic + c.crc), DataBits(c);
    DivMod(n, d);
    MulEight(n / d, k);
    Eighths(n, n / d * k, n % d);
    DivUnique(n / 8, k, n / d, n % d / 8);
  }

  lemma Eighths(n: nat, a: nat, r: nat)
    requires n == 8 * a + r
    ensures n / 8 == a + r / 8
  {
  }

  lemma NextBlock(c: Cut, a: nat, b: nat)
    requires CutOk(c) && a < b
    ensures FirstData(c, a) + DataBits(c) <= FirstData(c, b) && FirstByte(c, a) + c.block <= FirstByte(c, b)
    ensures FirstData(c, a + 1) == FirstData(c, a) + DataBits(c)
  {
    MulMonotone(a, b, c.block);
    MulMonotone(a, b, DataBits(c));
    MulDistributes(a, 1, DataBits(c));
  }

  /** The data bits of `blocks` whole blocks. */
  function Capacity(c: Cut, blocks: nat): nat
    requires c.block > c.magic + c.crc
  {
    FirstData(c, blocks)
  }

  function Min(a: nat, b: nat): nat {
    if a < b then a else b
  }

  /** util_sign_set_bits and util_sign_clear_bits on a buffer of whole blocks: the data bits
  change, and nothing else. Bits behind the last block are an error, but those before it
  have changed by then. */
  method SignPutBits(buffer: array<bv8>, addr: nat, count: nat, c: Cut, value: bool, ghost blocks: nat) returns (ok: bool)
    requires CutOk(c) && c.magic + c.crc > 0 && buffer.Length == FirstByte(c, blocks)
    modifies buffer
    ensures ok <==> count == 0 || addr + count <= Capacity(c, blocks)
    ensures DataIs(c, old(buffer[..]), buffer[..], addr, Min(addr + count, Capacity(c, blocks)), value)
  {
    hide DataIs, RangeIs, IsData, DataBits, FirstByte, FirstData, BlockOf;
    ghost var b := buffer[..];
    if count == 0 {
      DataNone(c, b, addr, Min(addr, Capacity(c, blocks)), value);
      return true;
    }
    BlockOfIs(c, addr);
    var start, end := BlockOf(c, addr), BlockOf(c, addr + count - 1);
    StartEnd(c, addr, count);
    DataNone(c, b, addr, addr, value);
    var left := count;
    var cur := start;
    while cur <= end
      invariant start <= cur <= end + 1 && (start < cur ==> cur <= blocks)
      invariant cur <= end ==> 0 < left <= count && addr + count - left == if cur == start then addr else FirstData(c, cur)
      invariant cur <= end ==> DataIs(c, b, buffer[..], addr, addr + count - left, value)
      invariant cur > end ==> DataIs(c, b, buffer[..], addr, addr + count, value) && addr + count <= Capacity(c, blocks)
    {
      var intAddr := if cur == start then addr % DataBits(c) else 0;
      var length := DataBits(c) - intAddr;
      ghost var pos := addr + count - left;
      LoopStep(c, addr, count, cur, intAddr, left);
      if left < length {
        length := left;
      } else {
        left := left - length;
      }
      if FirstByte(c, cur) + c.magic + (intAddr + length) / 8 > buffer.Length - c.crc {
        TooFar(c, cur, blocks, intAddr, length);
        StopHere(c, b, buffer[..], addr, count, pos, cur, blocks, intAddr, value);
        return false;
      }
      InRange(c, cur, blocks, intAddr, length);
      ghost var before := buffer[..];
      PutBits(buffer, FirstByte(c, cur) + c.magic, intAddr, length, value);
      DataMore(c, b, before, buffer[..], addr, cur, intAddr, length, value);
      cur := cur + 1;
    }
    ok := true;
  }

  lemma StartEnd(c: Cut, addr: nat, count: nat)
    requires CutOk(c) && count > 0
    ensures BlockOf(c, addr) <= BlockOf(c, addr + count - 1) && DataBits(c) > 0
  {
    hide BlockOf, FirstData;
    BlockOfIs(c, addr);
    BlockOfIs(c, addr + count - 1);
    if BlockOf(c, addr + count - 1) < BlockOf(c, addr) {
      NextBlock(c, BlockOf(c, addr + count - 1), BlockOf(c, addr));
    }
  }

  /** The bits left reach behind this block exactly when it is not the last one. */
  lemma LoopStep(c: Cut, addr: nat, count: nat, cur: nat, i: nat, left: nat)
    requires CutOk(c) && 0 < left <= count && i < DataBits(c) && cur <= BlockOf(c, addr + count - 1)
    requires FirstData(c, cur) + i == addr + count - left
    ensures if cur < BlockOf(c, addr + count - 1) then left > DataBits(c) - i else left <= DataBits(c) - i
    ensures FirstData(c, cur + 1) == FirstData(c, cur) + DataBits(c)
  {
    hide BlockOf, FirstData, DataBits, FirstByte;
    BlockOfIs(c, addr + count - 1);
    NextBlock(c, cur, cur + 1);
    if cur < BlockOf(c, addr + count - 1) {
      NextBlock(c, cur, BlockOf(c, addr + count - 1));
    }
  }

  lemma TooFar(c: Cut, cur: nat, blocks: nat, i: nat, len: nat)
    requires CutOk(c) && i + len <= DataBits(c)
    requires FirstByte(c, cur) + c.magic + (i + len) / 8 > FirstByte(c, blocks) - c.crc
    ensures cur >= blocks
  {
    hide FirstData, FirstByte;
    if cur < blocks {
      NextBlock(c, cur, blocks);
    }
  }

  lemma InRange(c: Cut, cur: nat, blocks: nat, i: nat, len: nat)
    requires CutOk(c) && c.magic + c.crc > 0 && i + len <= DataBits(c)
    requires FirstByte(c, cur) + c.magic + (i + len) / 8 <= FirstByte(c, blocks) - c.crc
    ensures cur < blocks && 8 * (FirstByte(c, cur) + c.magic) + i + len <= 8 * FirstByte(c, blocks)
    ensures FirstData(c, cur) + i + len <= Capacity(c, blocks)
    ensures FirstByte(c, cur) + c.block <= FirstByte(c, blocks)
  {
    hide FirstData, FirstByte;
    if cur > blocks {
      NextBlock(c, blocks, cur);
    }
    if cur < blocks {
      NextBlock(c, cur, blocks);
    }
  }

  lemma StopHere(c: Cut, a: seq<bv8>, b: seq<bv8>, addr: nat, count: nat, pos: nat, cur: nat, blocks: nat, i: nat, value: bool)
    requires CutOk(c) && cur >= blocks && (cur > blocks ==> pos == addr) && addr <= pos < addr + count
    requires pos == FirstData(c, cur) + i && (pos > addr ==> i == 0) && DataIs(c, a, b, addr, pos, value)
    ensures addr + count > Capacity(c, blocks)
    ensures DataIs(c, a, b, addr, Min(addr + count, Capacity(c, blocks)), value)
  {
    hide FirstData, FirstByte, BitAt;
    if blocks < cur {
      NextBlock(c, blocks, cur);
    }
    var m := Min(addr + count, Capacity(c, blocks));
    forall x | 0 <= x < 8 * |a| ensures IsData(c, x, addr, pos) <==> IsData(c, x, addr, m) {
    }
  }

  lemma DataBitsPositive(c: Cut)
    requires CutOk(c)
    ensures DataBits(c) > 0
  {
  }

  lemma InBlock(c: Cut, i: nat)
    requires CutOk(c) && i < DataBits(c)
    ensures c.magic + i / 8 < c.block
  {
  }

  /** util_sign_test_bit: the data bit, or an error behind the last block. */
  method SignTestBit(buffer: array<bv8>, addr: nat, c: Cut, ghost blocks: nat) returns (ok: bool, bit: bool)
    requires CutOk(c) && c.magic + c.crc > 0 && buffer.Length == FirstByte(c, blocks)
    ensures ok <==> addr < Capacity(c, blocks)
    ensures ok ==> Place(c, addr) < 8 * buffer.Length && bit == BitAt(buffer[..], Place(c, addr))
  {
    hide FirstData, FirstByte, Place, PlaceIn, DataBits, BlockOf, BitOf;
    BlockOfIs(c, addr);
    DataBitsPositive(c);
    var start, intAddr := BlockOf(c, addr), addr % DataBits(c);
    if FirstByte(c, start) + c.magic + intAddr / 8 > buffer.Length - c.crc {
      TooFar(c, start, blocks, intAddr, 0);
      if blocks < start { NextBlock(c, blocks, start); }
      return false, false;
    }
    InRange(c, start, blocks, intAddr, 0);
    NextBlock(c, start, blocks);
    PlaceOfBlock(c, start, intAddr);
    PlaceIs(c, start, intAddr);
    assert addr == FirstData(c, start) + intAddr;
    InBlock(c, intAddr);
    ok, bit := true, BitOf(buffer[FirstByte(c, start) + c.magic + intAddr / 8], intAddr % 8);
  }

  lemma PlaceIs(c: Cut, b: nat, i: nat)
    ensures PlaceIn(c, b, i) == 8 * (FirstByte(c, b) + c.magic) + i
    ensures PlaceIn(c, b, i) / 8 == FirstByte(c, b) + c.magic + i / 8 && PlaceIn(c, b, i) % 8 == i % 8
  {
    hide FirstByte;
  }
}
