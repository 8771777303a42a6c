/** CRC-32 by four tables (extractor/vdfs-tools/lib/crc32.c), with the polynomial of section 8
of RFC 1952 and without the inversions made there. */
module Crc {

  type Bytes = seq<bv8>

  /** The generator polynomial, the lowest bit for the highest power. */
  const POLYNOMIAL: bv32 := 0xEDB88320

  /* ---- words ---- */

  function Xor(a: bv32, b: bv32): bv32 {
    a ^ b
  }

  /** The word without its lowest byte, and its lowest byte. */
  function Shr8(c: bv32): bv32 {
    c >> 8
  }

  function Low8(c: bv32): bv32 {
    c & 255
  }

  function High24(c: bv32): bv32 {
    c & 0xFFFFFF00
  }

  function Wide(x: bv8): bv32 {
    x as bv32
  }

  lemma XorComm(a: bv32, b: bv32)
    ensures Xor(a, b) == Xor(b, a)
  {
  }

  lemma XorAssoc(a: bv32, b: bv32, c: bv32)
    ensures Xor(Xor(a, b), c) == Xor(a, Xor(b, c))
  {
  }

  lemma LowAndHigh(c: bv32)
    ensures Xor(Low8(c), High24(c)) == c
  {
  }

  lemma HighParts(c: bv32)
    ensures Low8(High24(c)) == 0 && Shr8(High24(c)) == Shr8(c)
  {
  }

  /* ---- one bit and one byte at a time ---- */

  predicate Odd(c: bv32) {
    c & 1 == 1
  }

  function Half(c: bv32): bv32 {
    c >> 1
  }

  function BitStep(c: bv32): bv32 {
    if Odd(c) then Xor(Half(c), POLYNOMIAL) else Half(c)
  }

  function Step8(c: bv32): bv32 {
    BitStep(BitStep(BitStep(BitStep(BitStep(BitStep(BitStep(BitStep(c))))))))
  }

  function ByteStep(crc: bv32, x: bv8): bv32 {
    Step8(Xor(crc, Wide(x)))
  }

  /** The CRC of a byte sequence, a byte at a time. */
  function Crc32(crc: bv32, b: Bytes): bv32 {
    if b == [] then crc else ByteStep(Crc32(crc, b[..|b| - 1]), b[|b| - 1])
  }

  lemma {:induction false} CrcAppend(crc: bv32, a: Bytes, b: Bytes)
    ensures Crc32(crc, a + b) == Crc32(Crc32(crc, a), b)
  {
    hide ByteStep;
    if b == [] {
      assert a + b == a;
    } else {
      assert (a + b)[..|a + b| - 1] == a + b[..|b| - 1];
      CrcAppend(crc, a, b[..|b| - 1]);
    }
  }

  lemma CrcMore(crc: bv32, a: Bytes, x: bv8)
    ensures Crc32(crc, a + [x]) == ByteStep(Crc32(crc, a), x)
  {
    hide ByteStep;
    assert (a + [x])[..|a|] == a;
  }

  lemma HalfXor(a: bv32, b: bv32)
    ensures Half(Xor(a, b)) == Xor(Half(a), Half(b))
  {
  }

  lemma OddXor(a: bv32, b: bv32)
    ensures Odd(Xor(a, b)) == (Odd(a) != Odd(b))
  {
  }

  lemma XorThree(x: bv32, y: bv32, p: bv32)
    ensures Xor(Xor(x, p), y) == Xor(Xor(x, y), p) && Xor(x, Xor(y, p)) == Xor(Xor(x, y), p) && Xor(Xor(x, p), Xor(y, p)) == Xor(x, y)
  {
  }

  /** A bit step is linear. */
  lemma BitStepXor(a: bv32, b: bv32)
    ensures BitStep(Xor(a, b)) == Xor(BitStep(a), BitStep(b))
  {
    hide Odd, Half, Xor;
    HalfXor(a, b);
    OddXor(a, b);
    XorThree(Half(a), Half(b), POLYNOMIAL);
  }

  lemma Step8Xor(a: bv32, b: bv32)
    ensures Step8(Xor(a, b)) == Xor(Step8(a), Step8(b))
  {
    hide BitStep, Xor;
    var a1, b1 := BitStep(a), BitStep(b);
    var a2, b2 := BitStep(a1), BitStep(b1);
    var a3, b3 := BitStep(a2), BitStep(b2);
    var a4, b4 := BitStep(a3), BitStep(b3);
    var a5, b5 := BitStep(a4), BitStep(b4);
    var a6, b6 := BitStep(a5), BitStep(b5);
    var a7, b7 := BitStep(a6), BitStep(b6);
    BitStepXor(a, b);
    BitStepXor(a1, b1);
    BitStepXor(a2, b2);
    BitStepXor(a3, b3);
    BitStepXor(a4, b4);
    BitStepXor(a5, b5);
    BitStepXor(a6, b6);
    BitStepXor(a7, b7);
  }

  /** Without low bits a step is a shift. */
  lemma Step8Shift(c: bv32)
    requires Low8(c) == 0
    ensures Step8(c) == Shr8(c)
  {
  }

  /* ---- the tables ---- */

  /** tab[0][i], and the entry of the next table from one of this: tab[k + 1][i] from tab[k][i]. */
  function Tab0(i: bv32): bv32 {
    Step8(i)
  }

  function NextTab(t: bv32): bv32 {
    Xor(Shr8(t), Tab0(Low8(t)))
  }

  function Tab1(i: bv32): bv32 {
    NextTab(Tab0(i))
  }

  function Tab2(i: bv32): bv32 {
    NextTab(Tab1(i))
  }

  function Tab3(i: bv32): bv32 {
    NextTab(Tab2(i))
  }

  /** Entry 1 of each table, as the source lists it. */
  lemma TableLiterals()
    ensures Tab0(1) == 0x77073096 && Tab1(1) == 0x191b3141 && Tab2(1) == 0x01c26a37 && Tab3(1) == 0xb8bc6765
  {
  }

  /** DO_CRC: a step by table. */
  lemma TableStep(c: bv32)
    ensures Xor(Tab0(Low8(c)), Shr8(c)) == Step8(c) && Xor(Shr8(c), Tab0(Low8(c))) == Step8(c)
  {
    hide Step8, Xor, Low8, High24, Shr8;
    LowAndHigh(c);
    HighParts(c);
    Step8Xor(Low8(c), High24(c));
    Step8Shift(High24(c));
    XorComm(Step8(Low8(c)), Shr8(c));
  }

  /** Each table is the one before it, a step further. */
  lemma TabStep(t: bv32)
    ensures NextTab(t) == Step8(t)
  {
    hide Step8, Xor, Low8, Shr8, Tab0;
    TableStep(t);
  }

  /* ---- four bytes at a time ---- */

  /** Byte `k` of a word. */
  function ByteNo(v: bv32, k: nat): bv32
    requires k < 4
  {
    if k == 0 then v & 255 else if k == 1 then (v >> 8) & 255 else if k == 2 then (v >> 16) & 255 else (v >> 24) & 255
  }

  function Shl8(c: bv32): bv32 {
    c << 8
  }

  /** A little-endian word. */
  function Word(a: bv8, b: bv8, c: bv8, d: bv8): bv32 {
    Xor(Wide(a), Shl8(Xor(Wide(b), Shl8(Xor(Wide(c), Shl8(Wide(d)))))))
  }

  /** DO_CRC4 on the exclusive or of CRC and word. */
  function WordStep(v: bv32): bv32 {
    Xor(Xor(Xor(Tab3(ByteNo(v, 0)), Tab2(ByteNo(v, 1))), Tab1(ByteNo(v, 2))), Tab0(ByteNo(v, 3)))
  }

  lemma ShiftedByte(x: bv32)
    requires Shr8(Shl8(x)) == x
    ensures Step8(Shl8(x)) == x
  {
    hide Step8;
    Step8Shift(Shl8(x));
  }

  /** The next byte may be taken into the CRC one step early, shifted. */
  lemma StepEarly(c: bv32, x: bv32)
    requires Shr8(Shl8(x)) == x
    ensures Step8(Xor(c, Shl8(x))) == Xor(Step8(c), x)
  {
    hide Step8, Xor, Shl8, Shr8;
    ShiftedByte(x);
    Step8Xor(c, Shl8(x));
  }

  lemma WideFits(x: bv8)
    ensures Shr8(Shl8(Wide(x))) == Wide(x)
  {
  }

  lemma PairFits(a: bv8, b: bv8)
    ensures var p := Xor(Wide(a), Shl8(Wide(b))); Shr8(Shl8(p)) == p
  {
  }

  lemma TripleFits(a: bv8, b: bv8, c: bv8)
    ensures var p := Xor(Wide(a), Shl8(Xor(Wide(b), Shl8(Wide(c))))); Shr8(Shl8(p)) == p
  {
  }

  /** Four byte steps are four steps on the CRC with the whole word in it. */
  lemma FourBytes(crc: bv32, a: bv8, b: bv8, c: bv8, d: bv8)
    ensures ByteStep(ByteStep(ByteStep(ByteStep(crc, a), b), c), d) == Step8(Step8(Step8(Step8(Xor(crc, Word(a, b, c, d))))))
  {
    hide Step8, Xor, Shl8, Shr8, Wide;
    var cd, bcd := Xor(Wide(c), Shl8(Wide(d))), Xor(Wide(b), Shl8(Xor(Wide(c), Shl8(Wide(d)))));
    WideFits(d);
    PairFits(c, d);
    TripleFits(b, c, d);
    XorAssoc(crc, Wide(a), Shl8(bcd));
    StepEarly(Xor(crc, Wide(a)), bcd);
    var s1 := Step8(Xor(crc, Wide(a)));
    XorAssoc(s1, Wide(b), Shl8(cd));
    StepEarly(Xor(s1, Wide(b)), cd);
    var s2 := Step8(Xor(s1, Wide(b)));
    XorAssoc(s2, Wide(c), Shl8(Wide(d)));
    StepEarly(Xor(s2, Wide(c)), Wide(d));
  }

  lemma ByteNoFits(v: bv32, k: nat)
    requires k < 4
    ensures Shr8(Shl8(ByteNo(v, k))) == ByteNo(v, k)
  {
  }

  /** The upper half and the upper three bytes of a word. */
  lemma UpperHalf(v: bv32)
    ensures Xor(ByteNo(v, 2), Shl8(ByteNo(v, 3))) == v >> 16
  {
  }

  lemma UpperThree(v: bv32)
    ensures Xor(ByteNo(v, 1), Shl8(v >> 16)) == v >> 8
  {
  }

  lemma AllFour(v: bv32)
    ensures Xor(ByteNo(v, 0), Shl8(v >> 8)) == v
  {
  }

  lemma UppersFit(v: bv32)
    ensures Shr8(Shl8(v >> 16)) == v >> 16 && Shr8(Shl8(v >> 8)) == v >> 8
  {
  }

  lemma BytesOfWord(v: bv32)
    ensures v == Xor(ByteNo(v, 0), Shl8(Xor(ByteNo(v, 1), Shl8(Xor(ByteNo(v, 2), Shl8(ByteNo(v, 3)))))))
    ensures var p := Xor(ByteNo(v, 2), Shl8(ByteNo(v, 3))); Shr8(Shl8(p)) == p
    ensures var p := Xor(ByteNo(v, 1), Shl8(Xor(ByteNo(v, 2), Shl8(ByteNo(v, 3))))); Shr8(Shl8(p)) == p
  {
    hide Xor, ByteNo, Shl8, Shr8;
    UpperHalf(v);
    UpperThree(v);
    AllFour(v);
    UppersFit(v);
  }

  /** The word step by four tables is four steps. */
  lemma WordStepIs(v: bv32)
    ensures WordStep(v) == Step8(Step8(Step8(Step8(v))))
  {
    hide Step8, Xor, Shl8, Shr8, ByteNo, Tab0, Tab1, Tab2, Tab3;
    var a, b, c, d := ByteNo(v, 0), ByteNo(v, 1), ByteNo(v, 2), ByteNo(v, 3);
    var cd, bcd := Xor(c, Shl8(d)), Xor(b, Shl8(Xor(c, Shl8(d))));
    BytesOfWord(v);
    ByteNoFits(v, 3);
    StepEarly(a, bcd);
    Tabs(a, b, c, d);
    var a1 := Step8(a);
    XorAssoc(a1, b, Shl8(cd));
    StepEarly(Xor(a1, b), cd);
    var ab2 := Step8(Xor(a1, b));
    XorAssoc(ab2, c, Shl8(d));
    StepEarly(Xor(ab2, c), d);
    Step8Xor(a1, b);
    Step8Xor(Xor(Step8(a1), Step8(b)), c);
    Step8Xor(Step8(a1), Step8(b));
    var abc3 := Step8(Xor(ab2, c));
    Step8Xor(abc3, d);
    Step8Xor(Xor(Step8(Step8(a1)), Step8(Step8(b))), Step8(c));
    Step8Xor(Step8(Step8(a1)), Step8(Step8(b)));
  }

  lemma Tabs(a: bv32, b: bv32, c: bv32, d: bv32)
    ensures Tab3(a) == Step8(Step8(Step8(Step8(a)))) && Tab2(b) == Step8(Step8(Step8(b)))
    ensures Tab1(c) == Step8(Step8(c)) && Tab0(d) == Step8(d)
  {
    hide NextTab, Step8;
    TabStep(Tab0(a));
    TabStep(Tab1(a));
    TabStep(Tab2(a));
    TabStep(Tab0(b));
    TabStep(Tab1(b));
    TabStep(Tab0(c));
  }

  /* ---- the loops ---- */

  /** crc32_body on a buffer at an address: bytes up to a word boundary, words, and the rest. */
  method Crc32Body(crc0: bv32, buf: Bytes, address: nat) returns (crc: bv32)
    ensures crc == Crc32(crc0, buf)
  {
    hide ByteStep, Crc32, WordStep, Word, Xor, Low8, Shr8, Tab0;
    crc := crc0;
    var pos: nat, len: nat := 0, |buf|;
    NoBytes(crc0);
    if address % 4 != 0 && len > 0 {
      crc := DoCrc(crc0, buf, crc, pos);
      pos, len := pos + 1, len - 1;
      while len > 0 && (address + pos) % 4 != 0
        invariant pos + len == |buf| && crc == Crc32(crc0, buf[..pos])
      {
        crc := DoCrc(crc0, buf, crc, pos);
        pos, len := pos + 1, len - 1;
      }
    }
    var remLen := len % 4;
    len := len / 4;
    while len > 0
      invariant pos + 4 * len + remLen == |buf| && crc == Crc32(crc0, buf[..pos])
    {
      WordTaken(crc0, buf, pos);
      crc := WordStep(Xor(crc, Word(buf[pos], buf[pos + 1], buf[pos + 2], buf[pos + 3])));
      pos, len := pos + 4, len - 1;
    }
    len := remLen;
    while len > 0
      invariant pos + len == |buf| && crc == Crc32(crc0, buf[..pos])
    {
      crc := DoCrc(crc0, buf, crc, pos);
      pos, len := pos + 1, len - 1;
    }
    assert buf[..pos] == buf;
  }

  /** DO_CRC. */
  method DoCrc(ghost crc0: bv32, buf: Bytes, crc: bv32, pos: nat) returns (r: bv32)
    requires pos < |buf| && crc == Crc32(crc0, buf[..pos])
    ensures r == Crc32(crc0, buf[..pos + 1])
  {
    hide Crc32, Xor, Low8, Shr8, Tab0, Step8;
    var c := Xor(crc, Wide(buf[pos]));
    r := Xor(Tab0(Low8(c)), Shr8(crc));
    ShrSame(crc, buf[pos]);
    TableStep(c);
    CrcMore(crc0, buf[..pos], buf[pos]);
    assert buf[..pos + 1] == buf[..pos] + [buf[pos]];
  }

  lemma ShrSame(c: bv32, x: bv8)
    ensures Shr8(Xor(c, Wide(x))) == Shr8(c)
  {
  }

  lemma NoBytes(crc: bv32)
    ensures Crc32(crc, []) == crc
  {
  }

  lemma WordTaken(crc0: bv32, buf: Bytes, pos: nat)
    requires pos + 4 <= |buf|
    ensures WordStep(Xor(Crc32(crc0, buf[..pos]), Word(buf[pos], buf[pos + 1], buf[pos + 2], buf[pos + 3]))) == Crc32(crc0, buf[..pos + 4])
  {
    hide ByteStep, Crc32, WordStep, Word, Xor, Step8;
    var crc := Crc32(crc0, buf[..pos]);
    FourBytes(crc, buf[pos], buf[pos + 1], buf[pos + 2], buf[pos + 3]);
    WordStepIs(Xor(crc, Word(buf[pos], buf[pos + 1], buf[pos + 2], buf[pos + 3])));
    CrcMore(crc0, buf[..pos], buf[pos]);
    CrcMore(crc0, buf[..pos + 1], buf[pos + 1]);
    CrcMore(crc0, buf[..pos + 2], buf[pos + 2]);
    CrcMore(crc0, buf[..pos + 3], buf[pos + 3]);
    assert buf[..pos + 1] == buf[..pos] + [buf[pos]] && buf[..pos + 2] == buf[..pos + 1] + [buf[pos + 1]];
    assert buf[..pos + 3] == buf[..pos + 2] + [buf[pos + 2]] && buf[..pos + 4] == buf[..pos + 3] + [buf[pos + 3]];
  }
}
