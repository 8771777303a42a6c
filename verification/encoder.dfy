/** How chunks of a file become stored bytes and table entries, in whatever order the worker
threads finish them (extractor/vdfs-tools/lib/compress.c). */
module Encoder {
  import opened Octets
  import opened Options
  import opened Pieces

  datatype Kind = Zlib | Gzip | Lzo | Zhw

  /** A compressor and its decompressor. `pack` gives None for a chunk it cannot shrink. */
  datatype Codec = Codec(pack: Bytes -> Option<Bytes>, unpack: Bytes -> Option<Bytes>)

  /** `tune` selects compress_file_tune, which pads stored chunks of every size. */
  datatype Settings = Settings(kind: Kind, chunkSize: nat, tune: bool)

  /** struct vdfs4_comp_extent. */
  datatype Extent = Extent(stored: bool, len: nat, start: nat)

  /** VDFS4_BLOCK_SIZE, the chunk size of the hardware decompressor, and COMPRESS_RATIO. */
  const BLOCK: nat := 4096
  const HW_CHUNK: nat := 131072
  const RATIO: nat := 75

  function Zeros(n: nat): (z: Bytes)
    ensures |z| == n && forall i :: 0 <= i < n ==> z[i] == 0
  {
    seq(n, _ => 0)
  }

  /** ALIGN to 8 or 16 bytes. */
  function Align(n: nat, unit: nat): (a: nat)
    ensures n <= a && (unit == 8 ==> a % 8 == 0 && a < n + 8) && (unit == 16 ==> a % 16 == 0 && a < n + 16)
  {
    if unit == 8 then (n + 7) / 8 * 8 else if unit == 16 then (n + 15) / 16 * 16 else n
  }

  /** Compressed chunks for the hardware are aligned, and so are stored ones. */
  function Unit(s: Settings, stored: bool): (u: nat)
    ensures u == 1 || u == 8 || u == 16
  {
    if s.chunkSize == HW_CHUNK || (s.tune && stored) then
      match s.kind
      case Gzip => 8
      case Zhw => 16
      case _ => 1
    else 1
  }

  /** compress_chunk and the small-file rule: whether a chunk is stored as it is. */
  function IsStored(c: Codec, fileSize: nat, chunk: Bytes): bool {
    || fileSize < 2 * BLOCK
    || chunk == []
    || (match c.pack(chunk)
        case None => true
        case Some(p) => p == [] || |p| * 100 / |chunk| > RATIO)
  }

  /** A chunk is compressed exactly when the file has two blocks or more and the compressor makes less than 76 percent of
  it. */
  lemma CompressedWhen(c: Codec, fileSize: nat, chunk: Bytes)
    requires chunk != []
    ensures !IsStored(c, fileSize, chunk) <==>
              fileSize >= 8192 && c.pack(chunk).Some? && 0 < |c.pack(chunk).value| && 100 * |c.pack(chunk).value| < 76 * |chunk|
  {
    if c.pack(chunk).Some? {
      Percent(|c.pack(chunk).value|, |chunk|);
    }
  }

  lemma Percent(p: nat, n: nat)
    requires n > 0
    ensures p * 100 / n > RATIO <==> 100 * p >= 76 * n
  {
    var q := p * 100 / n;
    assert p * 100 == n * q + p * 100 % n;
    if q <= RATIO {
      assert n * q <= n * RATIO;
    } else {
      assert n * q >= n * (RATIO + 1);
    }
  }

  /** The bytes written for a chunk, its padding included. */
  function Written(s: Settings, c: Codec, fileSize: nat, chunk: Bytes): Bytes {
    var stored := IsStored(c, fileSize, chunk);
    var bytes := if stored then chunk else c.pack(chunk).value;
    bytes + Zeros(Align(|bytes|, Unit(s, stored)) - |bytes|)
  }

  /** What is written of a chunk: its bytes or the compressor's, with zeros up to a multiple of 8 for gzip and of 16 for
  the hardware format where chunks have the hardware's size, and for stored chunks of the tune tool. */
  lemma WrittenIs(s: Settings, c: Codec, fileSize: nat, chunk: Bytes)
    ensures var (w, stored) := (Written(s, c, fileSize, chunk), IsStored(c, fileSize, chunk));
            var bytes := if stored then chunk else c.pack(chunk).value;
            var padded := s.chunkSize == 0x2_0000 || (s.tune && stored);
            && bytes <= w && (forall i :: |bytes| <= i < |w| ==> w[i] == 0)
            && (if padded && s.kind == Gzip then |w| % 8 == 0 && |w| < |bytes| + 8
                else if padded && s.kind == Zhw then |w| % 16 == 0 && |w| < |bytes| + 16
                else w == bytes)
  {
  }

  /** The length in the table: of a stored chunk without its padding, of a compressed one with it. */
  function TableLen(s: Settings, c: Codec, fileSize: nat, chunk: Bytes): nat {
    if IsStored(c, fileSize, chunk) then |chunk| else |Written(s, c, fileSize, chunk)|
  }

  /** The stored bytes of all chunks. */
  function Stored(s: Settings, c: Codec, fileSize: nat, chunks: seq<Bytes>): (pieces: seq<Bytes>)
    ensures |pieces| == |chunks|
  {
    seq(|chunks|, i requires 0 <= i < |chunks| => Written(s, c, fileSize, chunks[i]))
  }

  function Starts(ext: seq<Extent>): (starts: seq<nat>)
    ensures |starts| == |ext|
  {
    seq(|ext|, i requires 0 <= i < |ext| => ext[i].start)
  }

  /* ---- the two temporary files and the extent table ---- */

  lemma SameLength(pieces: seq<Bytes>, a: seq<nat>, b: seq<nat>)
    requires Distinct(a) && Distinct(b) && (forall i :: i in a ==> i < |pieces|) && forall i :: i in a <==> i in b
    ensures |Joined(pieces, a)| == |Joined(pieces, b)|
  {
    JoinedLength(pieces, a);
    JoinedLength(pieces, b);
    assert IndexSet(a) == IndexSet(b);
  }

  /** One temporary file: the pieces of `order`, each starting where the table says. */
  ghost predicate FileOk(file: Bytes, pieces: seq<Bytes>, order: seq<nat>, starts: seq<nat>) {
    file == Joined(pieces, order) && Distinct(order) && StartAt(starts, pieces, order, 0)
  }

  /** A piece appended to a file, its start noted. */
  lemma FileMore(file: Bytes, pieces: seq<Bytes>, order: seq<nat>, starts: seq<nat>, i: nat, starts': seq<nat>)
    requires FileOk(file, pieces, order, starts) && i < |pieces| && i !in order
    requires |starts'| == |starts| && starts'[i] == |file|
    requires forall j :: 0 <= j < |starts| && j != i ==> starts'[j] == starts[j]
    ensures FileOk(file + pieces[i], pieces, order + [i], starts')
  {
    JoinedMore(pieces, order, i);
    forall k | 0 <= k < |order + [i]| ensures starts'[(order + [i])[k]] == Place(pieces, order + [i], k) {
      assert (order + [i])[..k] == order[..k];
      if k == |order| {
        assert order[..k] == order;
      } else {
        assert order[k] in order;
      }
    }
  }

  /** An entry of another piece changes nothing for this file. */
  lemma FileSame(file: Bytes, pieces: seq<Bytes>, order: seq<nat>, starts: seq<nat>, starts': seq<nat>)
    requires FileOk(file, pieces, order, starts) && |starts'| == |starts|
    requires forall j :: 0 <= j < |starts| && j in order ==> starts'[j] == starts[j]
    ensures FileOk(file, pieces, order, starts')
  {
    forall k | 0 <= k < |order| ensures starts'[order[k]] == starts[order[k]] {
      assert order[k] in order;
    }
  }

  /** Reading a piece back from where the table says it starts. */
  lemma FilePiece(file: Bytes, pieces: seq<Bytes>, order: seq<nat>, starts: seq<nat>, i: nat)
    requires FileOk(file, pieces, order, starts) && i in order
    ensures i < |pieces| == |starts| && StandsAt(file, starts[i], pieces[i])
  {
    hide Joined;
    var k := PlaceOfIndex(order, i);
    PieceAt(pieces, order, k);
  }

  /** The stored chunks below `n`, in the order of the file. */
  ghost function StoredBelow(ext: seq<Extent>, n: nat): seq<nat>
    requires n <= |ext|
  {
    if n == 0 then [] else if ext[n - 1].stored then StoredBelow(ext, n - 1) + [n - 1] else StoredBelow(ext, n - 1)
  }

  lemma {:induction false} StoredBelowIs(ext: seq<Extent>, n: nat)
    requires n <= |ext|
    ensures Distinct(StoredBelow(ext, n)) && forall i: nat :: i in StoredBelow(ext, n) <==> i < n && ext[i].stored
  {
    if n > 0 {
      StoredBelowIs(ext, n - 1);
    }
  }

  /** Two files one behind the other, the starts of the second moved by the length of the first. */
  lemma StartsJoin(a: Bytes, pieces: seq<Bytes>, aOrder: seq<nat>, bOrder: seq<nat>, starts: seq<nat>)
    requires FileOk(a, pieces, aOrder, starts) && StartAt(starts, pieces, bOrder, |a|)
    ensures StartAt(starts, pieces, aOrder + bOrder, 0)
  {
    hide Joined;
    var order := aOrder + bOrder;
    forall k | 0 <= k < |order| ensures order[k] < |pieces| && starts[order[k]] == Place(pieces, order, k) {
      if k < |aOrder| {
        assert order[..k] == aOrder[..k];
      } else {
        assert order[..k] == aOrder + bOrder[..k - |aOrder|];
        JoinedAppend(pieces, aOrder, bOrder[..k - |aOrder|]);
      }
    }
  }

  lemma OrdersJoin(a: seq<nat>, b: seq<nat>, n: nat)
    requires Distinct(a) && Distinct(b) && (forall i: nat :: i < n <==> i in a || i in b) && forall i :: !(i in a && i in b)
    ensures Permutation(a + b, n)
  {
    var order := a + b;
    forall j, k | 0 <= j < k < |order| ensures order[j] != order[k] {
      if j < |a| <= k {
        assert order[j] in a && order[k] in b;
      }
    }
  }

  lemma FilesJoin(a: Bytes, b: Bytes, pieces: seq<Bytes>, aOrder: seq<nat>, bOrder: seq<nat>, starts: seq<nat>)
    requires FileOk(a, pieces, aOrder, starts)
    requires b == Joined(pieces, bOrder) && Distinct(bOrder) && StartAt(starts, pieces, bOrder, |a|)
    requires forall i: nat :: i < |pieces| <==> i in aOrder || i in bOrder
    requires forall i :: !(i in aOrder && i in bOrder)
    ensures Tiles(a + b, starts, pieces)
  {
    hide Joined, Tiles;
    StartsJoin(a, pieces, aOrder, bOrder, starts);
    OrdersJoin(aOrder, bOrder, |pieces|);
    JoinedAppend(pieces, aOrder, bOrder);
    ArrangedTiles(pieces, aOrder + bOrder, starts);
  }

  lemma StartsMoved(file: Bytes, pieces: seq<Bytes>, order: seq<nat>, starts: seq<nat>, base: nat, starts': seq<nat>)
    requires FileOk(file, pieces, order, starts) && |starts'| == |starts|
    requires forall i :: 0 <= i < |starts| && i in order ==> starts'[i] == starts[i] + base
    ensures StartAt(starts', pieces, order, base)
  {
    forall k | 0 <= k < |order| ensures starts'[order[k]] == base + Place(pieces, order, k) {
      assert order[k] in order;
    }
  }

  /* ---- encoding ---- */

  /** The entries of `order` tell how their chunks were written. */
  ghost predicate EntriesOk(s: Settings, c: Codec, fileSize: nat, chunks: seq<Bytes>, ext: seq<Extent>, order: seq<nat>, stored: bool) {
    |ext| == |chunks| && forall i :: i in order ==> i < |chunks| && EntryOk(s, c, fileSize, chunks[i], ext[i]) && ext[i].stored == stored
  }

  ghost predicate EntryOk(s: Settings, c: Codec, fileSize: nat, chunk: Bytes, e: Extent) {
    e.stored == IsStored(c, fileSize, chunk) && e.len == TableLen(s, c, fileSize, chunk)
  }

  lemma EntriesMore(s: Settings, c: Codec, fileSize: nat, chunks: seq<Bytes>, ext: seq<Extent>, order: seq<nat>, i: nat, e: Extent)
    requires i < |ext| == |chunks| && EntryOk(s, c, fileSize, chunks[i], e)
    requires EntriesOk(s, c, fileSize, chunks, ext, order, e.stored)
    ensures EntriesOk(s, c, fileSize, chunks, ext[i := e], order + [i], e.stored)
  {
    hide EntryOk;
  }

  lemma EntriesSame(s: Settings, c: Codec, fileSize: nat, chunks: seq<Bytes>, ext: seq<Extent>, order: seq<nat>, stored: bool, i: nat, e: Extent)
    requires i < |ext| && i !in order && EntriesOk(s, c, fileSize, chunks, ext, order, stored)
    ensures EntriesOk(s, c, fileSize, chunks, ext[i := e], order, stored)
  {
    hide EntryOk;
  }

  lemma StartsSet(ext: seq<Extent>, i: nat, e: Extent)
    requires i < |ext|
    ensures Starts(ext[i := e]) == Starts(ext)[i := e.start]
  {
  }

  lemma IndexMore(order: seq<nat>, i: nat)
    ensures IndexSet(order + [i]) == IndexSet(order) + {i}
  {
  }

  /** The chunks of a file, the extent table and the two temporary files (compress_file). */
  class Encoding {
    const s: Settings
    const codec: Codec
    const fileSize: nat
    const chunks: seq<Bytes>
    const ext: array<Extent>
    var uncompr: Bytes
    var compr: Bytes
    ghost var storedOrder: seq<nat>
    ghost var packedOrder: seq<nat>

    ghost function Pieces(): (p: seq<Bytes>)
      ensures |p| == |chunks|
    {
      Stored(s, codec, fileSize, chunks)
    }

    ghost predicate Valid()
      reads this, ext
    {
      && ext.Length == |chunks|
      && FileOk(uncompr, Pieces(), storedOrder, Starts(ext[..]))
      && FileOk(compr, Pieces(), packedOrder, Starts(ext[..]))
      && EntriesOk(s, codec, fileSize, chunks, ext[..], storedOrder, true)
      && EntriesOk(s, codec, fileSize, chunks, ext[..], packedOrder, false)
    }

    constructor (s: Settings, codec: Codec, fileSize: nat, chunks: seq<Bytes>)
      ensures Valid() && storedOrder == packedOrder == [] && fresh(ext)
      ensures this.s == s && this.codec == codec && this.fileSize == fileSize && this.chunks == chunks
    {
      this.s, this.codec, this.fileSize, this.chunks := s, codec, fileSize, chunks;
      uncompr, compr := [], [];
      storedOrder, packedOrder := [], [];
      ext := new Extent[|chunks|](_ => Extent(false, 0, 0));
    }

    /** compress_chunk_thread, from the choice how to write chunk `i` to its table entry. The
    bytes are appended under the lock of the file they go to. */
    method FinishChunk(i: nat)
      requires Valid() && i < |chunks| && i !in storedOrder && i !in packedOrder
      modifies this, ext
      ensures Valid()
      ensures IndexSet(storedOrder) + IndexSet(packedOrder) == old(IndexSet(storedOrder) + IndexSet(packedOrder)) + {i}
    {
      hide FileOk, EntriesOk, Written, IsStored, TableLen, Starts, IndexSet;
      var chunk := chunks[i];
      var bytes, stored := Written(s, codec, fileSize, chunk), IsStored(codec, fileSize, chunk);
      var e := Extent(stored, TableLen(s, codec, fileSize, chunk), if stored then |uncompr| else |compr|);
      ghost var was, pieces := ext[..], Pieces();
      ext[i] := e;
      assert ext[..] == was[i := e];
      StartsSet(was, i, e);
      if stored {
        FileMore(uncompr, pieces, storedOrder, Starts(was), i, Starts(ext[..]));
        FileSame(compr, pieces, packedOrder, Starts(was), Starts(ext[..]));
        EntriesMore(s, codec, fileSize, chunks, was, storedOrder, i, e);
        EntriesSame(s, codec, fileSize, chunks, was, packedOrder, false, i, e);
        IndexMore(storedOrder, i);
        uncompr := uncompr + bytes;
        storedOrder := storedOrder + [i];
      } else {
        FileMore(compr, pieces, packedOrder, Starts(was), i, Starts(ext[..]));
        FileSame(uncompr, pieces, storedOrder, Starts(was), Starts(ext[..]));
        EntriesMore(s, codec, fileSize, chunks, was, packedOrder, i, e);
        EntriesSame(s, codec, fileSize, chunks, was, storedOrder, true, i, e);
        IndexMore(packedOrder, i);
        compr := compr + bytes;
        packedOrder := packedOrder + [i];
      }
    }

    ghost predicate Finished()
      reads this, ext
    {
      && Valid()
      && (forall i: nat :: i < |chunks| <==> i in storedOrder || i in packedOrder)
      && (forall i :: !(i in storedOrder && i in packedOrder))
    }

    /** The worker threads finish the chunks in some order. */
    method FinishAll(order: seq<nat>)
      requires Valid() && storedOrder == packedOrder == [] && Permutation(order, |chunks|)
      modifies this, ext
      ensures Finished()
    {
      hide FileOk, EntriesOk;
      for k := 0 to |order|
        invariant Valid() && IndexSet(storedOrder) + IndexSet(packedOrder) == IndexSet(order[..k])
      {
        assert order[k] in order;
        NotYet(order, k, storedOrder, packedOrder);
        FinishChunk(order[k]);
        assert order[..k + 1] == order[..k] + [order[k]];
        IndexMore(order[..k], order[k]);
      }
      assert order[..|order|] == order;
      AllFinished(order, storedOrder, packedOrder, |chunks|);
      NotBoth(s, codec, fileSize, chunks, ext[..], storedOrder, packedOrder);
    }

    /** Moves the compressed chunks behind the stored ones in the table. */
    method MoveCompressed()
      requires ext.Length == |chunks|
      modifies ext
      ensures forall i :: 0 <= i < ext.Length ==>
                ext[i] == if old(ext[i].stored) then old(ext[i]) else Extent(false, old(ext[i].len), old(ext[i].start) + |uncompr|)
    {
      for i := 0 to ext.Length
        invariant forall j :: 0 <= j < ext.Length ==>
                    ext[j] == if j >= i || old(ext[j].stored) then old(ext[j]) else Extent(false, old(ext[j].len), old(ext[j].start) + |uncompr|)
      {
        if !ext[i].stored {
          ext[i] := ext[i].(start := ext[i].start + |uncompr|);
        }
      }
    }

    /** Copies the stored chunks to the image in the order of the file, with their padding. */
    method CopyStored() returns (dst: Bytes)
      requires ext.Length == |chunks| && !s.tune
      requires forall i :: 0 <= i < |chunks| && ext[i].stored ==>
                 EntryOk(s, codec, fileSize, chunks[i], ext[i]) && StandsAt(uncompr, ext[i].start, Pieces()[i])
      modifies ext
      ensures FileOk(dst, Pieces(), StoredBelow(old(ext[..]), |chunks|), Starts(ext[..]))
      ensures forall i :: 0 <= i < |chunks| ==> ext[i].stored == old(ext[i].stored) && ext[i].len == old(ext[i].len)
      ensures forall i :: 0 <= i < |chunks| && !ext[i].stored ==> ext[i].start == old(ext[i].start)
    {
      hide FileOk, EntryOk, Starts, Stored;
      ghost var was, pieces := ext[..], Pieces();
      dst := [];
      var unpackedOffset := 0;
      NoFile(pieces, Starts(was));
      for i := 0 to |chunks|
        invariant unpackedOffset == |dst| && FileOk(dst, pieces, StoredBelow(was, i), Starts(ext[..]))
        invariant forall j :: 0 <= j < |chunks| ==> ext[j].stored == was[j].stored && ext[j].len == was[j].len
        invariant forall j :: 0 <= j < |chunks| && (j >= i || !was[j].stored) ==> ext[j].start == was[j].start
      {
        if ext[i].stored {
          ghost var before := ext[..];
          StoredPiece(s, codec, fileSize, chunks, i, ext[i]);
          var align := Align(ext[i].len, Unit(s, true)) - ext[i].len;
          var bytes := uncompr[ext[i].start..ext[i].start + ext[i].len + align];
          ext[i] := ext[i].(start := unpackedOffset);
          unpackedOffset := unpackedOffset + ext[i].len + align;
          assert ext[..] == before[i := ext[i]];
          StartsSet(before, i, ext[i]);
          StoredBelowIs(was, i);
          FileMore(dst, pieces, StoredBelow(was, i), Starts(before), i, Starts(ext[..]));
          dst := dst + bytes;
        }
      }
    }

    /** From the two temporary files to the data area of the image (compress_file). */
    method Layout() returns (data: Bytes)
      requires Finished() && !s.tune
      modifies ext
      ensures Tiles(data, Starts(ext[..]), Pieces())
      ensures forall i :: 0 <= i < |chunks| ==> EntryOk(s, codec, fileSize, chunks[i], ext[i])
    {
      hide FileOk, EntryOk, Starts, Stored, Tiles;
      ghost var was, pieces := ext[..], Pieces();
      MoveCompressed();
      ghost var moved := ext[..];
      ReadyToCopy(s, codec, fileSize, chunks, uncompr, storedOrder, packedOrder, was, moved);
      var dst := CopyStored();
      LaidOut(s, codec, fileSize, chunks, uncompr, compr, storedOrder, packedOrder, was, moved, dst, ext[..]);
      data := dst + compr;
    }

    /** compress_file_tune writes stored chunks to the image as they come. */
    method LayoutTune() returns (data: Bytes)
      requires Finished() && s.tune
      modifies ext
      ensures Tiles(data, Starts(ext[..]), Pieces())
      ensures forall i :: 0 <= i < |chunks| ==> EntryOk(s, codec, fileSize, chunks[i], ext[i])
    {
      hide FileOk, EntryOk, Starts, Stored, Tiles;
      ghost var was, pieces := ext[..], Pieces();
      MoveCompressed();
      LaidOutTune(s, codec, fileSize, chunks, uncompr, compr, storedOrder, packedOrder, was, ext[..]);
      data := uncompr + compr;
    }
  }

  lemma NotYet(order: seq<nat>, k: nat, a: seq<nat>, b: seq<nat>)
    requires k < |order| && IndexSet(a) + IndexSet(b) == IndexSet(order[..k])
    requires forall i, j :: 0 <= i < j < |order| ==> order[i] != order[j]
    ensures order[k] !in a && order[k] !in b
  {
    assert order[k] !in order[..k];
    assert order[k] !in IndexSet(a) + IndexSet(b);
  }

  lemma AllFinished(order: seq<nat>, a: seq<nat>, b: seq<nat>, n: nat)
    requires Permutation(order, n) && IndexSet(a) + IndexSet(b) == IndexSet(order)
    ensures forall i: nat :: i < n <==> i in a || i in b
  {
    forall i: nat ensures i < n <==> i in a || i in b {
      assert i in IndexSet(order) <==> i in IndexSet(a) + IndexSet(b);
    }
  }

  lemma NotBoth(s: Settings, c: Codec, fileSize: nat, chunks: seq<Bytes>, ext: seq<Extent>, a: seq<nat>, b: seq<nat>)
    requires EntriesOk(s, c, fileSize, chunks, ext, a, true) && EntriesOk(s, c, fileSize, chunks, ext, b, false)
    ensures forall i :: !(i in a && i in b)
  {
  }

  lemma NoFile(pieces: seq<Bytes>, starts: seq<nat>)
    requires |starts| == |pieces|
    ensures FileOk([], pieces, [], starts)
  {
  }

  lemma StoredPiece(s: Settings, c: Codec, fileSize: nat, chunks: seq<Bytes>, i: nat, e: Extent)
    requires i < |chunks| && EntryOk(s, c, fileSize, chunks[i], e) && e.stored
    ensures |Stored(s, c, fileSize, chunks)[i]| == Align(e.len, Unit(s, true))
  {
  }

  lemma ReadyToCopy(s: Settings, c: Codec, fileSize: nat, chunks: seq<Bytes>, uncompr: Bytes, a: seq<nat>, b: seq<nat>,
                    was: seq<Extent>, moved: seq<Extent>)
    requires EntriesOk(s, c, fileSize, chunks, was, a, true) && EntriesOk(s, c, fileSize, chunks, was, b, false)
    requires FileOk(uncompr, Stored(s, c, fileSize, chunks), a, Starts(was))
    requires forall i: nat :: i < |chunks| <==> i in a || i in b
    requires |moved| == |was| && forall i :: 0 <= i < |was| && was[i].stored ==> moved[i] == was[i]
    requires forall i :: 0 <= i < |was| ==> moved[i].stored == was[i].stored
    ensures forall i :: 0 <= i < |chunks| && moved[i].stored ==>
              EntryOk(s, c, fileSize, chunks[i], moved[i]) && StandsAt(uncompr, moved[i].start, Stored(s, c, fileSize, chunks)[i])
  {
    hide EntryOk, FileOk, StandsAt, Stored;
    forall i | 0 <= i < |chunks| && moved[i].stored
      ensures EntryOk(s, c, fileSize, chunks[i], moved[i]) && StandsAt(uncompr, moved[i].start, Stored(s, c, fileSize, chunks)[i])
    {
      assert i in a;
      FilePiece(uncompr, Stored(s, c, fileSize, chunks), a, Starts(was), i);
    }
  }

  lemma LaidOut(s: Settings, c: Codec, fileSize: nat, chunks: seq<Bytes>, uncompr: Bytes, compr: Bytes, a: seq<nat>, b: seq<nat>,
                was: seq<Extent>, moved: seq<Extent>, dst: Bytes, ext: seq<Extent>)
    requires EntriesOk(s, c, fileSize, chunks, was, a, true) && EntriesOk(s, c, fileSize, chunks, was, b, false)
    requires FileOk(uncompr, Stored(s, c, fileSize, chunks), a, Starts(was))
    requires FileOk(compr, Stored(s, c, fileSize, chunks), b, Starts(was))
    requires forall i: nat :: i < |chunks| <==> i in a || i in b
    requires forall i :: !(i in a && i in b)
    requires |moved| == |was| && forall i :: 0 <= i < |was| ==>
               moved[i] == if was[i].stored then was[i] else Extent(false, was[i].len, was[i].start + |uncompr|)
    requires FileOk(dst, Stored(s, c, fileSize, chunks), StoredBelow(moved, |moved|), Starts(ext))
    requires |ext| == |was| && forall i :: 0 <= i < |was| ==> ext[i].stored == moved[i].stored && ext[i].len == moved[i].len
    requires forall i :: 0 <= i < |was| && !ext[i].stored ==> ext[i].start == moved[i].start
    ensures Tiles(dst + compr, Starts(ext), Stored(s, c, fileSize, chunks))
    ensures forall i :: 0 <= i < |chunks| ==> EntryOk(s, c, fileSize, chunks[i], ext[i])
  {
    hide Tiles, Stored, EntryOk, EntriesOk, FileOk, StoredBelow, Starts, Joined, Distinct;
    var pieces, asc := Stored(s, c, fileSize, chunks), StoredBelow(moved, |moved|);
    MovedEntries(s, c, fileSize, chunks, a, b, was, |uncompr|, moved, ext);
    FileFacts(uncompr, pieces, a, Starts(was));
    FileFacts(dst, pieces, asc, Starts(ext));
    FileFacts(compr, pieces, b, Starts(was));
    SameLength(pieces, a, asc);
    StartsMoved(compr, pieces, b, Starts(was), |uncompr|, Starts(ext));
    assert |pieces| == |chunks| by { StoredLength(s, c, fileSize, chunks); }
    FilesJoin(dst, compr, pieces, asc, b, Starts(ext));
  }

  lemma StoredLength(s: Settings, c: Codec, fileSize: nat, chunks: seq<Bytes>)
    ensures |Stored(s, c, fileSize, chunks)| == |chunks|
  {
  }

  /** After the offsets of compressed chunks are moved: the entries tell what they told, those of stored chunks are the
  ones written first, and the others start as much later. */
  lemma MovedEntries(s: Settings, c: Codec, fileSize: nat, chunks: seq<Bytes>, a: seq<nat>, b: seq<nat>,
                     was: seq<Extent>, base: nat, moved: seq<Extent>, ext: seq<Extent>)
    requires EntriesOk(s, c, fileSize, chunks, was, a, true) && EntriesOk(s, c, fileSize, chunks, was, b, false)
    requires forall i: nat :: i < |chunks| <==> i in a || i in b
    requires |moved| == |was| && forall i :: 0 <= i < |was| ==>
               moved[i] == if was[i].stored then was[i] else Extent(false, was[i].len, was[i].start + base)
    requires |ext| == |was| && forall i :: 0 <= i < |was| ==> ext[i].stored == moved[i].stored && ext[i].len == moved[i].len
    requires forall i :: 0 <= i < |was| && !ext[i].stored ==> ext[i].start == moved[i].start
    ensures |was| == |chunks|
    ensures forall i: nat :: i in StoredBelow(moved, |moved|) <==> i in a
    ensures forall i :: 0 <= i < |chunks| ==> EntryOk(s, c, fileSize, chunks[i], ext[i])
    ensures forall i :: 0 <= i < |chunks| && i in b ==> Starts(ext)[i] == Starts(was)[i] + base
  {
    hide IsStored, TableLen;
    StoredBelowIs(moved, |moved|);
    forall i: nat ensures i in StoredBelow(moved, |moved|) <==> i in a {
      if i in a || i in StoredBelow(moved, |moved|) { assert i < |chunks|; }
    }
    forall i | 0 <= i < |chunks| ensures EntryOk(s, c, fileSize, chunks[i], ext[i]) {
      assert EntryOk(s, c, fileSize, chunks[i], was[i]);
    }
  }

  lemma FileFacts(file: Bytes, pieces: seq<Bytes>, order: seq<nat>, starts: seq<nat>)
    requires FileOk(file, pieces, order, starts)
    ensures file == Joined(pieces, order) && Distinct(order) && forall i :: i in order ==> i < |pieces|
  {
  }

  lemma LaidOutTune(s: Settings, c: Codec, fileSize: nat, chunks: seq<Bytes>, uncompr: Bytes, compr: Bytes, a: seq<nat>, b: seq<nat>,
                    was: seq<Extent>, ext: seq<Extent>)
    requires EntriesOk(s, c, fileSize, chunks, was, a, true) && EntriesOk(s, c, fileSize, chunks, was, b, false)
    requires FileOk(uncompr, Stored(s, c, fileSize, chunks), a, Starts(was))
    requires FileOk(compr, Stored(s, c, fileSize, chunks), b, Starts(was))
    requires forall i: nat :: i < |chunks| <==> i in a || i in b
    requires forall i :: !(i in a && i in b)
    requires |ext| == |was| && forall i :: 0 <= i < |was| ==>
               ext[i] == if was[i].stored then was[i] else Extent(false, was[i].len, was[i].start + |uncompr|)
    ensures Tiles(uncompr + compr, Starts(ext), Stored(s, c, fileSize, chunks))
    ensures forall i :: 0 <= i < |chunks| ==> EntryOk(s, c, fileSize, chunks[i], ext[i])
  {
    hide Tiles, Stored, IsStored, TableLen;
    var pieces := Stored(s, c, fileSize, chunks);
    FileSame(uncompr, pieces, a, Starts(was), Starts(ext));
    StartsMoved(compr, pieces, b, Starts(was), |uncompr|, Starts(ext));
    FilesJoin(uncompr, compr, pieces, a, b, Starts(ext));
  }
}
