/** Finding stored data again by length, cached CRC and bytes
(extractor/vdfs-tools/lib/disk_op.c, and calculate_file_crc of lib/crc32.c). */
module Duplicates {
  import opened Crc
  import opened Seqs

  /** The buffer size of find_data_duplicate, and BLOCK_SIZE_DEFAULT. */
  const BUFFER: nat := 4096

  /** struct data_range: where data is stored, with its CRC once that is known. */
  datatype DataRange = DataRange(start: nat, length: nat, crc: bv32, hasCrc: bool)

  ghost predicate Stored(file: Bytes, r: DataRange) {
    r.start + r.length <= |file|
  }

  function BytesOf(file: Bytes, start: nat, length: nat): Bytes
    requires start + length <= |file|
  {
    file[start..start + length]
  }

  /** A cached CRC is that of the data; one not yet cached starts at zero. */
  ghost predicate CrcOk(file: Bytes, r: DataRange) {
    Stored(file, r) && r.crc == if r.hasCrc then Crc32(0, BytesOf(file, r.start, r.length)) else 0
  }

  ghost predicate Same(file: Bytes, r: DataRange, other: Bytes, start: nat, length: nat) {
    Stored(file, r) && start + length <= |other| && r.length == length
    && BytesOf(file, r.start, r.length) == BytesOf(other, start, length)
  }

  lemma SliceOf(file: Bytes, start: nat, length: nat, x: nat, n: nat)
    requires start + length <= |file| && x + n <= length
    ensures file[start + x..start + x + n] == BytesOf(file, start, length)[x..x + n]
  {
    SliceOfSlice(file, start, start + length, x, x + n);
  }

  /** One more piece of both sides compared. */
  lemma DiffMore(a: Bytes, b: Bytes, x: nat, n: nat)
    requires |a| == |b| && x + n <= |a|
    ensures a[..x + n] == a[..x] + a[x..x + n] && b[..x + n] == b[..x] + b[x..x + n]
    ensures a[..x + n] == b[..x + n] <==> a[..x] == b[..x] && a[x..x + n] == b[x..x + n]
    ensures a[..x] != b[..x] ==> a != b
  {
    assert a[..x + n] == a[..x] + a[x..x + n] && b[..x + n] == b[..x] + b[x..x + n];
    assert a[..x + n][..x] == a[..x] && b[..x + n][..x] == b[..x];
    assert a[..x + n][x..] == a[x..x + n] && b[..x + n][x..] == b[x..x + n];
  }

  class DataRanges {
    var ranges: seq<DataRange>

    constructor ()
      ensures ranges == []
    {
      ranges := [];
    }

    /** add_data_range: in front of the others. */
    method Add(start: nat, length: nat)
      modifies this
      ensures ranges == [DataRange(start, length, 0, false)] + old(ranges)
    {
      ranges := [DataRange(start, length, 0, false)] + ranges;
    }

    /** One range of the loop of find_data_duplicate: compares the data and computes the CRCs
    that are still missing. */
    method Compare(dr: DataRange, file1: Bytes, file2: Bytes, start: nat, crc0: bv32, hasCrc: bool)
      returns (dr': DataRange, crc: bv32, hasDiff: bool)
      requires CrcOk(file1, dr) && start + dr.length <= |file2|
      requires crc0 == if hasCrc then Crc32(0, BytesOf(file2, start, dr.length)) else 0
      ensures dr' == dr.(crc := Crc32(0, BytesOf(file1, dr.start, dr.length)), hasCrc := true)
      ensures crc == Crc32(0, BytesOf(file2, start, dr.length))
      ensures hasDiff <==> BytesOf(file1, dr.start, dr.length) != BytesOf(file2, start, dr.length)
    {
      hide Crc32, BytesOf;
      var crc1, length, offset := dr.crc, dr.length, 0;
      ghost var a, b := BytesOf(file1, dr.start, length), BytesOf(file2, start, length);
      var buf1, buf2 := [], [];
      crc, hasDiff := crc0, false;
      NoBytes(0);
      Lengths(file1, dr.start, file2, start, length);
      while offset < length
        invariant offset <= length
        invariant crc1 == Crc32(0, if dr.hasCrc then a else a[..offset])
        invariant crc == Crc32(0, if hasCrc then b else b[..offset])
        invariant hasDiff <==> a[..offset] != b[..offset]
      {
        var len := if BUFFER < length - offset then BUFFER else length - offset;
        SliceOf(file1, dr.start, length, offset, len);
        SliceOf(file2, start, length, offset, len);
        DiffMore(a, b, offset, len);
        if !hasDiff || !dr.hasCrc {
          buf1 := file1[dr.start + offset..dr.start + offset + len];
        }
        if !hasDiff || !hasCrc {
          buf2 := file2[start + offset..start + offset + len];
        }
        if !dr.hasCrc {
          CrcAppend(0, a[..offset], a[offset..offset + len]);
          crc1 := Crc32Body(crc1, buf1, 0);
        }
        if !hasCrc {
          CrcAppend(0, b[..offset], b[offset..offset + len]);
          crc := Crc32Body(crc, buf2, 0);
        }
        if !hasDiff && buf1 != buf2 {
          hasDiff := true;
        }
        offset := offset + len;
        if hasDiff && hasCrc && dr.hasCrc {
          assert a != b;
          break;
        }
      }
      assert offset == length ==> a[..offset] == a && b[..offset] == b;
      dr' := dr.(crc := crc1, hasCrc := true);
    }

    lemma Lengths(file1: Bytes, s: nat, file2: Bytes, t: nat, length: nat)
      requires s + length <= |file1| && t + length <= |file2|
      ensures |BytesOf(file1, s, length)| == length == |BytesOf(file2, t, length)|
    {
    }

    /** find_data_duplicate when reads succeed: the start of the first range with the same
    length and bytes; 0 when there is none. */
    method Find(file1: Bytes, file2: Bytes, start: nat, length: nat) returns (found: nat, ghost at: int)
      requires forall k :: 0 <= k < |ranges| ==> CrcOk(file1, ranges[k])
      requires start + length <= |file2|
      modifies this
      ensures |ranges| == |old(ranges)|
      ensures forall k :: 0 <= k < |ranges| ==>
                CrcOk(file1, ranges[k]) && ranges[k].start == old(ranges)[k].start && ranges[k].length == old(ranges)[k].length
      ensures at == -1 || (0 <= at < |ranges| && Same(file1, ranges[at], file2, start, length))
      ensures forall k :: 0 <= k < (if at == -1 then |ranges| else at) ==> !Same(file1, ranges[k], file2, start, length)
      ensures found == if at == -1 then 0 else ranges[at].start
    {
      hide Crc32;
      var crc: bv32, hasCrc := 0, false;
      ghost var was := ranges;
      for i := 0 to |ranges|
        invariant |ranges| == |was|
        invariant forall k :: 0 <= k < |ranges| ==>
                    CrcOk(file1, ranges[k]) && ranges[k].start == was[k].start && ranges[k].length == was[k].length
        invariant forall k :: 0 <= k < i ==> !Same(file1, ranges[k], file2, start, length)
        invariant crc == if hasCrc then Crc32(0, BytesOf(file2, start, length)) else 0
      {
        var dr := ranges[i];
        if dr.length != length || (hasCrc && dr.hasCrc && dr.crc != crc) {
          continue;
        }
        var hasDiff;
        dr, crc, hasDiff := Compare(dr, file1, file2, start, crc, hasCrc);
        hasCrc := true;
        ranges := ranges[i := dr];
        if !hasDiff {
          return dr.start, i;
        }
      }
      return 0, -1;
    }
  }

  /** calculate_file_crc: blocks are read until the bytes asked for are exceeded, so that
  without the last block just that block is left out. */
  method CalculateFileCrc(file: Bytes, lastBlock: bool) returns (crc: bv32)
    ensures lastBlock ==> crc == Crc32(0, file)
    ensures !lastBlock ==> crc == Crc32(0, file[..if |file| == 0 then 0 else (|file| - 1) / BUFFER * BUFFER])
  {
    hide Crc32;
    crc := 0;
    NoBytes(0);
    var pos: nat, calcSize := 0, if lastBlock then |file| else |file| - BUFFER;
    ghost var blocks: nat := 0;
    while calcSize > 0 && pos < |file|
      invariant pos <= |file| && crc == Crc32(0, file[..pos])
      invariant calcSize == (if lastBlock then |file| else |file| - BUFFER) - pos
      invariant pos < |file| ==> pos == BUFFER * blocks
      invariant !lastBlock && |file| > 0 ==> pos == BUFFER * blocks && pos < |file|
      decreases |file| - pos
    {
      var sz := if BUFFER < |file| - pos then BUFFER else |file| - pos;
      CrcAppend(0, file[..pos], file[pos..pos + sz]);
      assert file[..pos + sz] == file[..pos] + file[pos..pos + sz];
      crc := Crc32Body(crc, file[pos..pos + sz], 0);
      pos, calcSize, blocks := pos + sz, calcSize - sz, blocks + 1;
    }
    assert file[..|file|] == file;
  }
}
