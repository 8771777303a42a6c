/** The search for the first clear bit of a bitmap (extractor/vdfs-tools/lib/bitops.c), which gives the id of a new
tree node. A byte is a number below 256, a word four of them, the lowest first. */
module Bitops {
  import opened Octets

  const WORD_LIMIT: nat := 0x1_0000_0000

  /** The number without its `j` lowest bits. */
  function Shifted(w: nat, j: nat): nat {
    if j == 0 then w else Shifted(w / 2, j - 1)
  }

  predicate Bit(w: nat, j: nat) {
    Shifted(w, j) % 2 == 1
  }

  lemma {:induction false} ShiftedPlus(w: nat, a: nat, b: nat)
    ensures Shifted(w, a + b) == Shifted(Shifted(w, a), b)
    decreases a
  {
    if a > 0 {
      ShiftedPlus(w / 2, a - 1, b);
    }
  }

  /** The `n` lowest bits are clear. */
  ghost predicate Clear(w: nat, n: nat) {
    forall j :: 0 <= j < n ==> !Bit(w, j)
  }

  lemma ClearPlus(w: nat, a: nat, b: nat)
    ensures Clear(w, a + b) <==> Clear(w, a) && Clear(Shifted(w, a), b)
  {
    forall j | 0 <= j < b ensures Bit(w, a + j) == Bit(Shifted(w, a), j) {
      ShiftedPlus(w, a, j);
    }
    if Clear(w, a + b) {
      forall j | 0 <= j < b ensures !Bit(Shifted(w, a), j) {
        assert !Bit(w, a + j);
      }
    }
    if Clear(w, a) && Clear(Shifted(w, a), b) {
      forall j | a <= j < a + b ensures !Bit(w, j) {
        assert !Bit(Shifted(w, a), j - a);
      }
    }
  }

  /** A test of the lowest bits and a shift by as many, for 1, 2, 4, 8 and 16 bits. */
  lemma Low1(w: nat)
    ensures Shifted(w, 1) == w / 2 && (w % 2 == 0 <==> Clear(w, 1))
  {
    assert Shifted(w, 1) == Shifted(w / 2, 0);
    assert Bit(w, 0) == (w % 2 == 1);
  }

  lemma Low2(w: nat)
    ensures Shifted(w, 2) == w / 4 && (w % 4 == 0 <==> Clear(w, 2))
  {
    hide Shifted, Clear;
    Low1(w);
    Low1(w / 2);
    ShiftedPlus(w, 1, 1);
    ClearPlus(w, 1, 1);
  }

  lemma Low4(w: nat)
    ensures Shifted(w, 4) == w / 16 && (w % 16 == 0 <==> Clear(w, 4))
  {
    hide Shifted, Clear;
    Low2(w);
    Low2(w / 4);
    ShiftedPlus(w, 2, 2);
    ClearPlus(w, 2, 2);
  }

  lemma Low8(w: nat)
    ensures Shifted(w, 8) == w / 256 && (w % 256 == 0 <==> Clear(w, 8))
  {
    hide Shifted, Clear;
    Low4(w);
    Low4(w / 16);
    ShiftedPlus(w, 4, 4);
    ClearPlus(w, 4, 4);
  }

  lemma Low16(w: nat)
    ensures Shifted(w, 16) == w / 65536 && (w % 65536 == 0 <==> Clear(w, 16))
  {
    hide Shifted, Clear;
    Low8(w);
    Low8(w / 256);
    ShiftedPlus(w, 8, 8);
    ClearPlus(w, 8, 8);
  }

  lemma Low32(w: nat)
    requires w < WORD_LIMIT
    ensures w == 0 <==> Clear(w, 32)
  {
    hide Shifted, Clear;
    Low16(w);
    Low16(w / 65536);
    ClearPlus(w, 16, 16);
  }

  /** The search is at bit `num`: none below it is set, but one of the next `k` is. */
  ghost predicate Near(w: nat, num: nat, word: nat, k: nat) {
    word == Shifted(w, num) && Clear(w, num) && !Clear(word, k) && num + k <= 32
  }

  /** One halving of the search. */
  lemma Halve(w: nat, num: nat, word: nat, k: nat)
    requires Near(w, num, word, k + k)
    ensures if Clear(word, k) then Near(w, num + k, Shifted(word, k), k) else Near(w, num, word, k)
  {
    hide Shifted, Clear;
    ClearPlus(word, k, k);
    ClearPlus(w, num, k);
    ShiftedPlus(w, num, k);
  }

  /** __ffs: the lowest bit set. */
  method Ffs(w: nat) returns (num: nat)
    requires 0 < w < WORD_LIMIT
    ensures num < 32 && Bit(w, num) && Clear(w, num)
  {
    hide Shifted, Clear, Bit, Near;
    num := 0;
    var word: nat := w;
    Start(w);
    Low16(word);
    Halve(w, num, word, 16);
    if word % 65536 == 0 {
      num := num + 16;
      word := word / 65536;
    }
    Low8(word);
    Halve(w, num, word, 8);
    if word % 256 == 0 {
      num := num + 8;
      word := word / 256;
    }
    Low4(word);
    Halve(w, num, word, 4);
    if word % 16 == 0 {
      num := num + 4;
      word := word / 16;
    }
    Low2(word);
    Halve(w, num, word, 2);
    if word % 4 == 0 {
      num := num + 2;
      word := word / 4;
    }
    Low1(word);
    Halve(w, num, word, 1);
    if word % 2 == 0 {
      num := num + 1;
      word := word / 2;
    }
    Arrived(w, num, word);
  }

  lemma Start(w: nat)
    requires 0 < w < WORD_LIMIT
    ensures Near(w, 0, w, 32)
  {
    Low32(w);
    assert Clear(w, 0);
  }

  lemma Arrived(w: nat, num: nat, word: nat)
    requires Near(w, num, word, 1)
    ensures num < 32 && Bit(w, num) && Clear(w, num)
  {
    Low1(word);
  }

  lemma BitIs(w: nat, j: nat)
    ensures Bit(w, j) == (Shifted(w, j) % 2 == 1)
  {
  }

  /* ---- complement and filling ---- */

  function Pow2(n: nat): (p: nat)
    ensures p > 0
  {
    if n == 0 then 1 else 2 * Pow2(n - 1)
  }

  /** The complement of a number of `m` bits. */
  function Complement(w: nat, m: nat): nat
    requires w < Pow2(m)
  {
    Pow2(m) - 1 - w
  }

  lemma {:induction false} ComplementBit(w: nat, m: nat, j: nat)
    requires w < Pow2(m) && j < m
    ensures Bit(Complement(w, m), j) == !Bit(w, j)
  {
    if j > 0 {
      assert Complement(w, m) / 2 == Complement(w / 2, m - 1);
      ComplementBit(w / 2, m - 1, j - 1);
    }
  }

  /** A number of `m` bits with the bits from `size` on set. */
  function Filled(w: nat, size: nat, m: nat): nat
    requires size <= m
  {
    if size == 0 then Pow2(m) - 1 else 2 * Filled(w / 2, size - 1, m - 1) + w % 2
  }

  lemma {:induction false} FilledBelow(w: nat, size: nat, m: nat)
    requires size <= m
    ensures Filled(w, size, m) < Pow2(m)
  {
    if size > 0 {
      FilledBelow(w / 2, size - 1, m - 1);
    }
  }

  lemma {:induction false} FilledBit(w: nat, size: nat, m: nat, j: nat)
    requires size <= m && j < m
    ensures Bit(Filled(w, size, m), j) == if j < size then Bit(w, j) else true
  {
    if size == 0 {
      AllOnes(m, j);
    } else if j > 0 {
      FilledBit(w / 2, size - 1, m - 1, j - 1);
      assert Filled(w, size, m) / 2 == Filled(w / 2, size - 1, m - 1);
    }
  }

  lemma {:induction false} AllOnes(m: nat, j: nat)
    requires j < m
    ensures Bit(Pow2(m) - 1, j)
  {
    if j > 0 {
      AllOnes(m - 1, j - 1);
      assert (Pow2(m) - 1) / 2 == Pow2(m - 1) - 1;
    }
  }

  lemma Pow32()
    ensures Pow2(32) == WORD_LIMIT
  {
    assert Pow2(8) == 256;
    assert Pow2(16) == 65536;
    assert Pow2(24) == 0x100_0000;
  }

  /* ---- bits of a buffer ---- */

  /** Bit `n` of a buffer. */
  predicate BitAt(b: Bytes, n: nat)
    requires n < 8 * |b|
  {
    Bit(b[n / 8], n % 8)
  }

  /** Word `i` of a buffer. */
  function Word(b: Bytes, i: nat): (w: nat)
    requires 4 * i + 4 <= |b|
    ensures w < WORD_LIMIT
  {
    Join(b[4 * i], Join(b[4 * i + 1], Join(b[4 * i + 2], b[4 * i + 3])))
  }

  function Join(low: Byte, rest: nat): nat {
    low + 256 * rest
  }

  lemma JoinBits(low: Byte, rest: nat, j: nat)
    ensures Bit(Join(low, rest), j) == if j < 8 then Bit(low, j) else Bit(rest, j - 8)
  {
    hide Bit, Shifted, Pow2;
    var w := Join(low, rest);
    if j < 8 {
      Pow8();
      LowBits(low, 8, rest, j);
    } else {
      Low8(w);
      ShiftedPlus(w, 8, j - 8);
      BitIs(w, j);
      BitIs(rest, j - 8);
    }
  }

  lemma Pow8()
    ensures Pow2(8) == 256
  {
  }

  lemma {:induction false} LowBits(low: nat, m: nat, rest: nat, j: nat)
    requires j < m
    ensures Bit(low + Pow2(m) * rest, j) == Bit(low, j)
  {
    var t := Pow2(m - 1) * rest;
    assert Pow2(m) * rest == 2 * t;
    if j > 0 {
      assert (low + 2 * t) / 2 == low / 2 + t;
      LowBits(low / 2, m - 1, rest, j - 1);
    }
  }

  lemma WordBits(b: Bytes, i: nat, j: nat)
    requires 4 * i + 4 <= |b| && j < 32
    ensures Bit(Word(b, i), j) == BitAt(b, 32 * i + j)
  {
    hide Bit, Join;
    var k := 4 * i;
    JoinBits(b[k], Join(b[k + 1], Join(b[k + 2], b[k + 3])), j);
    if j >= 8 {
      JoinBits(b[k + 1], Join(b[k + 2], b[k + 3]), j - 8);
    }
    if j >= 16 {
      JoinBits(b[k + 2], b[k + 3], j - 16);
    }
    assert (32 * i + j) / 8 == k + j / 8 && (32 * i + j) % 8 == j % 8;
  }

  /** The first `n` bits are set. */
  ghost predicate SetBelow(b: Bytes, n: nat)
    requires n <= 8 * |b|
  {
    forall k :: 0 <= k < n ==> BitAt(b, k)
  }

  /** find_first_zero_bit: the least clear bit among the first `size`, or `size` when all are set. The buffer holds
  whole words. */
  method FindFirstZeroBit(addr: Bytes, size: nat) returns (result: nat)
    requires |addr| % 4 == 0 && size <= 8 * |addr|
    ensures result <= size && SetBelow(addr, result)
    ensures result < size ==> !BitAt(addr, result)
  {
    hide Bit, Word, Pow2, BitAt, Clear, Filled, Complement;
    Pow32();
    result := 0;
    var left: nat := size;
    var p: nat := 0;
    while left >= 32
      invariant result == 32 * p && result + left == size
      invariant SetBelow(addr, result)
    {
      var tmp := Word(addr, p);
      if Complement(tmp, 32) != 0 {
        var k := Ffs(Complement(tmp, 32)) by { ComplementSmall(tmp); }
        Found(addr, p, tmp, k, 32);
        return result + k;
      }
      Full(addr, p, tmp, 32);
      p := p + 1;
      result := result + 32;
      left := left - 32;
    }
    if left == 0 {
      return result;
    }
    var tmp := Filled(Word(addr, p), left, 32);
    FilledBelow(Word(addr, p), left, 32);
    if Complement(tmp, 32) == 0 {
      Full(addr, p, tmp, left);
      return result + left;
    }
    var k := Ffs(Complement(tmp, 32)) by { ComplementSmall(tmp); }
    Found(addr, p, tmp, k, left);
    result := result + k;
  }

  lemma ComplementSmall(w: nat)
    requires w < Pow2(32)
    ensures Complement(w, 32) < WORD_LIMIT
  {
    hide Pow2;
    Pow32();
  }

  /** The word, or the word filled from bit `size` on. */
  ghost predicate Read(addr: Bytes, p: nat, tmp: nat, size: nat)
    requires 4 * p + 4 <= |addr| && size <= 32
  {
    tmp < Pow2(32) && forall j :: 0 <= j < 32 ==> Bit(tmp, j) == if j < size then BitAt(addr, 32 * p + j) else true
  }

  lemma ReadIs(addr: Bytes, p: nat, tmp: nat, size: nat)
    requires 4 * p + 4 <= |addr| && size <= 32 && tmp < Pow2(32)
    requires tmp == (if size == 32 then Word(addr, p) else Filled(Word(addr, p), size, 32))
    ensures Read(addr, p, tmp, size)
  {
    hide Bit, Word, Pow2, BitAt, Filled;
    forall j | 0 <= j < 32 ensures Bit(tmp, j) == if j < size then BitAt(addr, 32 * p + j) else true {
      WordBits(addr, p, j);
      FilledBit(Word(addr, p), size, 32, j);
    }
  }

  lemma Found(addr: Bytes, p: nat, tmp: nat, k: nat, size: nat)
    requires 4 * p + 4 <= |addr| && size <= 32 && tmp < Pow2(32) && SetBelow(addr, 32 * p)
    requires tmp == (if size == 32 then Word(addr, p) else Filled(Word(addr, p), size, 32))
    requires k < 32 && Bit(Complement(tmp, 32), k) && Clear(Complement(tmp, 32), k)
    ensures k < size && SetBelow(addr, 32 * p + k) && !BitAt(addr, 32 * p + k)
  {
    hide Bit, Word, Pow2, BitAt, Filled, Complement;
    ReadIs(addr, p, tmp, size);
    ComplementBit(tmp, 32, k);
    forall n | 0 <= n < 32 * p + k ensures BitAt(addr, n) {
      if n >= 32 * p {
        var j := n - 32 * p;
        ComplementBit(tmp, 32, j);
        assert !Bit(Complement(tmp, 32), j) && Bit(tmp, j);
      }
    }
  }

  lemma Full(addr: Bytes, p: nat, tmp: nat, size: nat)
    requires 4 * p + 4 <= |addr| && size <= 32 && tmp < Pow2(32) && SetBelow(addr, 32 * p)
    requires tmp == (if size == 32 then Word(addr, p) else Filled(Word(addr, p), size, 32))
    requires Complement(tmp, 32) == 0
    ensures SetBelow(addr, 32 * p + size)
  {
    hide Bit, Word, Pow2, BitAt, Filled;
    ReadIs(addr, p, tmp, size);
    forall n | 0 <= n < 32 * p + size ensures BitAt(addr, n) {
      if n >= 32 * p {
        var j := n - 32 * p;
        AllOnes(32, j);
        assert Bit(tmp, j);
      }
    }
  }

  /** The id for a new node is the least one that is not in use, whatever set of ids the bitmap stands for. */
  method FirstFreeId(bitmap: Bytes, ghost used: set<nat>) returns (id: nat)
    requires |bitmap| % 4 == 0
    requires forall n: nat :: n < 8 * |bitmap| ==> (n in used <==> BitAt(bitmap, n))
    ensures id <= 8 * |bitmap| && (forall k :: 0 <= k < id ==> k in used)
    ensures id < 8 * |bitmap| ==> id !in used
  {
    hide BitAt;
    id := FindFirstZeroBit(bitmap, 8 * |bitmap|);
  }
}
