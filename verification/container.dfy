/** The compressed-file container: what follows the data area, and how a decoder finds it from
the end of the file (extractor/vdfs-tools/lib/compress.c and decompress.c). */
module Container {
  import opened Octets
  import opened Options
  import opened Seqs
  import opened Pieces
  import opened Encoder

  /* ---- little-endian numbers ---- */

  function Power(base: nat, n: nat): nat {
    if n == 0 then 1 else base * Power(base, n - 1)
  }

  function Le(n: nat, width: nat): (b: Bytes)
    ensures |b| == width
  {
    if width == 0 then [] else [n % 256] + Le(n / 256, width - 1)
  }

  function Value(b: Bytes): nat {
    if b == [] then 0 else b[0] as int + 256 * Value(b[1..])
  }

  lemma {:induction false} ValueOfLe(n: nat, width: nat)
    requires n < Power(256, width)
    ensures Value(Le(n, width)) == n
  {
    if width > 0 {
      ValueOfLe(n / 256, width - 1);
      assert Le(n, width)[1..] == Le(n / 256, width - 1);
    }
  }

  lemma Widths()
    ensures Power(256, 2) == 0x1_0000 && Power(256, 4) == 0x1_0000_0000 && Power(256, 8) == 0x1_0000_0000_0000_0000
  {
    assert Power(256, 2) == 0x1_0000;
    assert Power(256, 4) == 0x1_0000_0000;
    assert Power(256, 6) == 0x1_0000_0000_0000;
  }

  /* ---- the table ---- */

  const EXTENT: nat := 16
  const DESCRIPTOR: nat := 32
  const CRYPTED_HASH: nat := 128
  const LAYOUT_VERSION: nat := 5

  /** How the file is signed, with the length of one hash. */
  datatype Signing = Unsigned | Md5 | Sha1 | Sha256

  function HashLen(h: Signing): nat {
    match h case Unsigned => 0 case Md5 => 16 case Sha1 => 20 case Sha256 => 32
  }

  /** The bytes of the hash table of `n` chunks: their hashes, that of the descriptor, the signature. */
  function HashSize(h: Signing, n: nat): nat {
    if h == Unsigned then 0 else HashLen(h) * (n + 1) + CRYPTED_HASH
  }

  /** 'C', 'I', 'H' or 'h' at the start of the descriptor. */
  function SigningByte(h: Signing): Byte {
    match h case Unsigned => 0x43 case Md5 => 0x49 case Sha1 => 0x48 case Sha256 => 0x68
  }

  /** "Zip", "Gzp", "Lzo" or "Zhw". */
  function KindBytes(k: Kind): (b: Bytes)
    ensures |b| == 3
  {
    match k
    case Zlib => [0x5A, 0x69, 0x70]
    case Gzip => [0x47, 0x7A, 0x70]
    case Lzo => [0x4C, 0x7A, 0x6F]
    case Zhw => [0x5A, 0x68, 0x77]
  }

  function ExtentBytes(e: Extent): (b: Bytes)
    ensures |b| == EXTENT
  {
    [0x58, 0x54] + Le(if e.stored then 1 else 0, 2) + Le(e.len, 4) + Le(e.start, 8)
  }

  function ExtentOf(b: Bytes): Extent
    requires |b| == EXTENT
  {
    Extent(Value(b[2..4]) % 2 == 1, Value(b[4..8]), Value(b[8..16]))
  }

  ghost predicate ExtentFits(e: Extent) {
    e.len < 0x1_0000_0000 && e.start < 0x1_0000_0000_0000_0000
  }

  lemma Quarters(a: Bytes, b: Bytes, c: Bytes, d: Bytes, whole: Bytes)
    requires whole == a + b + c + d
    ensures |whole| == |a| + |b| + |c| + |d|
    ensures whole[..|a|] == a && whole[|a|..|a| + |b|] == b && whole[|a| + |b|..|a| + |b| + |c|] == c && whole[|a| + |b| + |c|..] == d
  {
  }

  /** A table entry is read back, from "XT", flags whose bit 0 marks a stored chunk, the length and the start. */
  lemma ExtentRoundTrip(e: Extent)
    requires ExtentFits(e)
    ensures ExtentOf(ExtentBytes(e)) == e
    ensures var b := ExtentBytes(e);
            && |b| == 16 && b[..2] == [0x58, 0x54] && Value(b[2..4]) == (if e.stored then 1 else 0)
            && Value(b[4..8]) == e.len && Value(b[8..16]) == e.start
  {
    hide Le, Value, Power;
    var f := if e.stored then 1 else 0;
    Quarters([0x58, 0x54], Le(f, 2), Le(e.len, 4), Le(e.start, 8), ExtentBytes(e));
    assert ExtentBytes(e)[8..] == ExtentBytes(e)[8..16];
    Widths();
    ValueOfLe(f, 2);
    ValueOfLe(e.len, 4);
    ValueOfLe(e.start, 8);
  }

  function TableBytes(ext: seq<Extent>): (b: Bytes)
    ensures |b| == EXTENT * |ext|
  {
    if ext == [] then [] else TableBytes(ext[..|ext| - 1]) + ExtentBytes(ext[|ext| - 1])
  }

  lemma {:induction false} TableEntry(ext: seq<Extent>, i: nat)
    requires i < |ext|
    ensures TableBytes(ext)[EXTENT * i..EXTENT * i + EXTENT] == ExtentBytes(ext[i])
  {
    hide ExtentBytes;
    var n := |ext| - 1;
    if i < n {
      TableEntry(ext[..n], i);
      assert TableBytes(ext)[EXTENT * i..EXTENT * i + EXTENT] == TableBytes(ext[..n])[EXTENT * i..EXTENT * i + EXTENT];
    }
  }

  /** struct vdfs4_comp_file_descr. */
  function DescriptorBytes(h: Signing, k: Kind, chunks: nat, size: nat, crc: nat, logChunk: nat): (b: Bytes)
    ensures |b| == DESCRIPTOR
  {
    ([SigningByte(h)] + KindBytes(k) + Le(chunks, 2) + Le(LAYOUT_VERSION, 2)) + (Le(size, 8) + Le(crc, 4) + Le(logChunk, 4) + Le(0, 8))
  }

  /** What a descriptor says, field by field. */
  ghost predicate Describes(d: Bytes, h: Signing, k: Kind, chunks: nat, size: nat, crc: nat, logChunk: nat) {
    && |d| == 32
    && d[0] == (match h case Unsigned => 0x43 case Md5 => 0x49 case Sha1 => 0x48 case Sha256 => 0x68)
    && d[1..4] == (match k
                   case Zlib => [0x5A, 0x69, 0x70]
                   case Gzip => [0x47, 0x7A, 0x70]
                   case Lzo => [0x4C, 0x7A, 0x6F]
                   case Zhw => [0x5A, 0x68, 0x77])
    && Value(d[4..6]) == chunks && Value(d[6..8]) == 5 && Value(d[8..16]) == size
    && Value(d[16..20]) == crc && Value(d[20..24]) == logChunk && Value(d[24..32]) == 0
  }

  /** What the descriptor's bytes say: whatever fits its field is read back. */
  lemma DescriptorFields(h: Signing, k: Kind, chunks: nat, size: nat, crc: nat, logChunk: nat)
    requires chunks < 0x1_0000 && logChunk < 0x1_0000_0000
    ensures var b := DescriptorBytes(h, k, chunks, size, crc, logChunk);
            && b[0] == SigningByte(h) && b[1..4] == KindBytes(k) && Value(b[4..6]) == chunks
            && Value(b[6..8]) == LAYOUT_VERSION && Value(b[20..24]) == logChunk
            && (size < 0x1_0000_0000_0000_0000 ==> Value(b[8..16]) == size) && (crc < 0x1_0000_0000 ==> Value(b[16..20]) == crc)
    ensures size < 0x1_0000_0000_0000_0000 && crc < 0x1_0000_0000 ==>
              Describes(DescriptorBytes(h, k, chunks, size, crc, logChunk), h, k, chunks, size, crc, logChunk)
  {
    hide Le, Value, Power;
    var b := DescriptorBytes(h, k, chunks, size, crc, logChunk);
    var x := [SigningByte(h)] + KindBytes(k) + Le(chunks, 2) + Le(LAYOUT_VERSION, 2);
    var y := Le(size, 8) + Le(crc, 4) + Le(logChunk, 4) + Le(0, 8);
    Quarters([SigningByte(h)], KindBytes(k), Le(chunks, 2), Le(LAYOUT_VERSION, 2), x);
    Quarters(Le(size, 8), Le(crc, 4), Le(logChunk, 4), Le(0, 8), y);
    assert b[1..4] == x[1..4] && b[4..6] == x[4..6] && b[6..8] == x[6..8] == x[6..];
    assert b[8..16] == y[..8] && b[16..20] == y[8..12] && b[20..24] == y[12..16] && b[24..32] == y[16..];
    Widths();
    ValueOfLe(chunks, 2);
    ValueOfLe(LAYOUT_VERSION, 2);
    ValueOfLe(logChunk, 4);
    ValueOfLe(0, 8);
    if size < 0x1_0000_0000_0000_0000 {
      ValueOfLe(size, 8);
    }
    if crc < 0x1_0000_0000 {
      ValueOfLe(crc, 4);
    }
  }

  /* ---- a container ---- */

  /** The chunks of a file (the reads of compress_file). */
  function Split(src: Bytes, size: nat): seq<Bytes>
    requires size > 0
  {
    if src == [] then [] else if |src| <= size then [src] else [src[..size]] + Split(src[size..], size)
  }

  lemma {:induction false} SplitConcat(src: Bytes, size: nat)
    requires size > 0
    ensures Concat(Split(src, size)) == src
    ensures forall c :: c in Split(src, size) ==> 0 < |c| <= size
    decreases |src|
  {
    if src != [] {
      if |src| <= size {
        assert [src][1..] == [];
      } else {
        SplitConcat(src[size..], size);
        ConcatFirst(src[..size], Split(src[size..], size));
      }
    }
  }

  /** The decompressor undoes the compressor, also with zeros behind the compressed bytes. */
  ghost predicate Undoes(c: Codec) {
    forall chunk, n: nat {:trigger Zeros(n), c.pack(chunk)} ::
      c.pack(chunk).Some? ==> c.unpack(c.pack(chunk).value + Zeros(n)) == Some(chunk)
  }

  /** What a file is encoded with. */
  datatype Format = Format(s: Settings, signing: Signing, logChunk: nat)

  ghost predicate FormatOk(f: Format) {
    f.s.chunkSize == Power(2, f.logChunk) && 0 < f.s.chunkSize < 0x1_0000_0000
  }

  /** The data area, its padding, the extent table, the hash table and the descriptor. */
  ghost predicate Assembled(f: Format, data: Bytes, ext: seq<Extent>, hashes: Bytes, size: nat, crc: nat, file: Bytes) {
    && |hashes| == HashSize(f.signing, |ext|)
    && file == ((data + Zeros(Align(|data|, EXTENT) - |data|)) + TableBytes(ext)) + (hashes + DescriptorBytes(f.signing, f.s.kind, |ext|, size, crc, f.logChunk))
  }

  /** `file` is an encoding of `src`. */
  ghost predicate Encodes(f: Format, c: Codec, src: Bytes, file: Bytes, data: Bytes, ext: seq<Extent>, hashes: Bytes, crc: nat) {
    && FormatOk(f)
    && var chunks := Split(src, f.s.chunkSize);
       && 0 < |chunks| < 0x1_0000 && |ext| == |chunks|
       && Tiles(data, Starts(ext), Stored(f.s, c, |src|, chunks))
       && (forall i :: 0 <= i < |chunks| ==> EntryOk(f.s, c, |src|, chunks[i], ext[i]) && ExtentFits(ext[i]))
       && Assembled(f, data, ext, hashes, |src|, crc, file)
  }

  ghost predicate IsEncoding(f: Format, c: Codec, src: Bytes, file: Bytes, hashes: Bytes, crc: nat) {
    exists data, ext :: Encodes(f, c, src, file, data, ext, hashes, crc)
  }

  /* ---- writing ---- */

  lemma SplitStep(src: Bytes, size: nat, pos: nat, end: nat)
    requires size > 0 && pos < |src| && end == if |src| - pos <= size then |src| else pos + size
    ensures Split(src[pos..], size) == [src[pos..end]] + Split(src[end..], size)
  {
    assert src[pos..][..end - pos] == src[pos..end] && src[pos..][end - pos..] == src[end..];
    if end == |src| {
      assert src[pos..] == src[pos..end] && src[end..] == [];
    }
  }

  /** The reads of compress_file. */
  method ReadChunks(src: Bytes, size: nat) returns (chunks: seq<Bytes>)
    requires size > 0
    ensures chunks == Split(src, size)
  {
    chunks := [];
    var pos := 0;
    while pos < |src|
      invariant pos <= |src| && chunks + Split(src[pos..], size) == Split(src, size)
    {
      var end := if |src| - pos <= size then |src| else pos + size;
      hide Split;
      SplitStep(src, size, pos, end);
      Assoc(chunks, [src[pos..end]], Split(src[end..], size));
      chunks := chunks + [src[pos..end]];
      pos := end;
    }
  }

  /** The end of a file as off_t counts, where a write fails. */
  const MAX_OFFSET: nat := 0x7FFF_FFFF_FFFF_FFFF

  lemma FitsAll(f: Format, c: Codec, src: Bytes, data: Bytes, ext: seq<Extent>)
    requires FormatOk(f) && |data| <= MAX_OFFSET
    requires var chunks := Split(src, f.s.chunkSize);
             && |ext| == |chunks| && Tiles(data, Starts(ext), Stored(f.s, c, |src|, chunks))
             && (forall i :: 0 <= i < |chunks| ==> EntryOk(f.s, c, |src|, chunks[i], ext[i]))
    ensures forall i :: 0 <= i < |ext| ==> ExtentFits(ext[i])
  {
    hide Tiles;
    var chunks := Split(src, f.s.chunkSize);
    SplitConcat(src, f.s.chunkSize);
    forall i | 0 <= i < |ext| ensures ExtentFits(ext[i]) {
      assert chunks[i] in chunks;
      TileAt(data, ext, Stored(f.s, c, |src|, chunks), i);
      LenBound(f.s, c, |src|, chunks[i]);
    }
  }

  lemma TileAt(data: Bytes, ext: seq<Extent>, pieces: seq<Bytes>, i: nat)
    requires Tiles(data, Starts(ext), pieces) && i < |ext|
    ensures |pieces| == |ext| && StandsAt(data, ext[i].start, pieces[i])
  {
  }

  /** A table length is at most the chunk's, and fits its field. */
  lemma LenBound(s: Settings, c: Codec, fileSize: nat, chunk: Bytes)
    requires 0 < |chunk| <= s.chunkSize < 0x1_0000_0000
    ensures 0 < TableLen(s, c, fileSize, chunk) < 0x1_0000_0000
  {
    if !IsStored(c, fileSize, chunk) {
      var p := c.pack(chunk).value;
      assert |p| * 100 / |chunk| <= RATIO;
      RatioBound(|p|, |chunk|);
    }
  }

  lemma RatioBound(p: nat, n: nat)
    requires n > 0 && p * 100 / n <= RATIO
    ensures p * 100 < 76 * n
  {
    assert p * 100 == n * (p * 100 / n) + p * 100 % n;
    assert n * (p * 100 / n) <= n * RATIO;
  }

  /** The extent table and the data area fit the source. */
  ghost predicate AreaOk(s: Settings, c: Codec, size: nat, chunks: seq<Bytes>, data: Bytes, ext: seq<Extent>) {
    && |ext| == |chunks| && Tiles(data, Starts(ext), Stored(s, c, size, chunks))
    && forall i :: 0 <= i < |chunks| ==> EntryOk(s, c, size, chunks[i], ext[i])
  }

  /** Compresses the chunks in any order, or, for the tune tool, in that of the file. */
  method EncodeChunks(s: Settings, c: Codec, size: nat, chunks: seq<Bytes>, order: seq<nat>) returns (data: Bytes, ext: seq<Extent>)
    requires Permutation(order, |chunks|)
    ensures AreaOk(s, c, size, chunks, data, ext)
  {
    hide Tiles, EntryOk;
    var e := new Encoding(s, c, size, chunks);
    e.FinishAll(order);
    if s.tune {
      data := e.LayoutTune();
    } else {
      data := e.Layout();
    }
    ext := e.ext[..];
  }

  /** encode_file: the data area, then the tables. Hash table and checksum come from the
  signing code. */
  method EncodeFile(f: Format, c: Codec, src: Bytes, order: seq<nat>, hashes: Bytes, crc: nat)
    returns (ok: bool, file: Bytes)
    requires FormatOk(f) && src != []
    requires Permutation(order, |Split(src, f.s.chunkSize)|)
    requires |hashes| == HashSize(f.signing, |Split(src, f.s.chunkSize)|)
    ensures ok && |Split(src, f.s.chunkSize)| < 0x1_0000 ==> IsEncoding(f, c, src, file, hashes, crc)
    ensures ok <==> Size(Stored(f.s, c, |src|, Split(src, f.s.chunkSize))) <= MAX_OFFSET
    ensures ok && |Split(src, f.s.chunkSize)| < 0x1_0000 && |src| < 0x1_0000_0000_0000_0000 && crc < 0x1_0000_0000 ==>
              |file| >= 32 && Describes(file[|file| - 32..], f.signing, f.s.kind, |Split(src, f.s.chunkSize)|, |src|, crc, f.logChunk)
  {
    hide AreaOk, Permutation, Size, HashSize, Power, TableBytes, DescriptorBytes, Encodes, Describes, Split, Stored, Zeros, Align;
    var chunks := ReadChunks(src, f.s.chunkSize);
    var area, table;
    area, table := EncodeChunks(f.s, c, |src|, chunks, order);
    AreaSize(f.s, c, |src|, chunks, area, table);
    file := [];
    ok := |area| <= MAX_OFFSET;
    if ok {
      file := ((area + Zeros(Align(|area|, EXTENT) - |area|)) + TableBytes(table))
        + (hashes + DescriptorBytes(f.signing, f.s.kind, |chunks|, |src|, crc, f.logChunk));
      Encoded(f, c, src, area, table, hashes, crc, file);
      LastBytes((area + Zeros(Align(|area|, EXTENT) - |area|)) + TableBytes(table), hashes,
                DescriptorBytes(f.signing, f.s.kind, |chunks|, |src|, crc, f.logChunk), file);
      if |chunks| < 0x1_0000 {
        LogFits(f);
        DescriptorFields(f.signing, f.s.kind, |chunks|, |src|, crc, f.logChunk);
      }
    }
  }

  lemma LastBytes(a: Bytes, b: Bytes, descr: Bytes, file: Bytes)
    requires file == a + (b + descr) && |descr| == 32
    ensures |file| >= 32 && file[|file| - 32..] == descr
  {
  }

  lemma {:induction false} PowerGrows(n: nat)
    ensures Power(2, n) > n
  {
    if n > 0 {
      PowerGrows(n - 1);
    }
  }

  lemma LogFits(f: Format)
    requires FormatOk(f)
    ensures f.logChunk < 0x1_0000_0000
  {
    PowerGrows(f.logChunk);
  }

  lemma AreaSize(s: Settings, c: Codec, size: nat, chunks: seq<Bytes>, data: Bytes, ext: seq<Extent>)
    requires AreaOk(s, c, size, chunks, data, ext)
    ensures |data| == Size(Stored(s, c, size, chunks))
  {
  }

  lemma Encoded(f: Format, c: Codec, src: Bytes, data: Bytes, ext: seq<Extent>, hashes: Bytes, crc: nat, file: Bytes)
    requires FormatOk(f) && src != [] && |data| <= MAX_OFFSET
    requires AreaOk(f.s, c, |src|, Split(src, f.s.chunkSize), data, ext)
    requires |hashes| == HashSize(f.signing, |Split(src, f.s.chunkSize)|)
    requires file == ((data + Zeros(Align(|data|, EXTENT) - |data|)) + TableBytes(ext))
                     + (hashes + DescriptorBytes(f.signing, f.s.kind, |Split(src, f.s.chunkSize)|, |src|, crc, f.logChunk))
    ensures |Split(src, f.s.chunkSize)| < 0x1_0000 ==> Encodes(f, c, src, file, data, ext, hashes, crc)
  {
    hide Tiles, EntryOk, Power, TableBytes, DescriptorBytes, HashSize, ExtentFits;
    FitsAll(f, c, src, data, ext);
  }

  /* ---- reading ---- */

  datatype Status = Ok | NotCompressed | Invalid | ReadError

  /** `file` behind place `at`, up to `len` bytes of it (read). */
  function ReadAt(file: Bytes, at: nat, len: nat): Bytes {
    if at >= |file| then [] else if at + len <= |file| then file[at..at + len] else file[at..]
  }

  function KindOf(b: Bytes): Option<Kind> {
    if b == KindBytes(Zlib) then Some(Zlib)
    else if b == KindBytes(Gzip) then Some(Gzip)
    else if b == KindBytes(Lzo) then Some(Lzo)
    else if b == KindBytes(Zhw) then Some(Zhw)
    else None
  }

  lemma KindRoundTrip(k: Kind)
    ensures KindOf(KindBytes(k)) == Some(k)
  {
  }

  /** The place where the table starts, from the end of the file; negative when the file is
  too short for it. */
  function TableStart(file: Bytes): int
    requires |file| >= DESCRIPTOR
  {
    var descr := file[|file| - DESCRIPTOR..];
    var n := Value(descr[4..6]);
    var auth := if descr[0] == 0x49 then 16 * (n + 1) + CRYPTED_HASH
                else if descr[0] == 0x48 then 20 * (n + 1) + CRYPTED_HASH
                else if descr[0] == 0x68 then 32 * (n + 1) + CRYPTED_HASH
                else 0;
    |file| - (DESCRIPTOR + n * EXTENT + auth)
  }

  predicate SigningKnown(b: Byte) {
    b == 0x43 || b == 0x49 || b == 0x48 || b == 0x68
  }

  /** The file ends with a descriptor of a known kind, for a table not longer than the file. */
  predicate Described(file: Bytes) {
    && |file| >= DESCRIPTOR
    && var descr := file[|file| - DESCRIPTOR..];
       KindOf(descr[1..4]).Some? && Value(descr[4..6]) <= |file| / EXTENT
  }

  /** The table, if there is one, begins inside the file. */
  predicate TableThere(file: Bytes)
    requires |file| >= DESCRIPTOR
  {
    Value(file[|file| - DESCRIPTOR..][4..6]) > 0 ==> TableStart(file) >= 0
  }

  predicate VersionOk(file: Bytes)
    requires |file| >= DESCRIPTOR
  {
    Value(file[|file| - DESCRIPTOR..][6..8]) == LAYOUT_VERSION
  }

  /** The decoder takes the file. */
  predicate Readable(file: Bytes) {
    Described(file) && TableThere(file) && VersionOk(file) && SigningKnown(file[|file| - DESCRIPTOR])
  }

  lemma TableInside(file: Bytes, i: nat)
    requires |file| >= DESCRIPTOR && TableStart(file) >= 0 && i < Value(file[|file| - DESCRIPTOR..][4..6])
    ensures TableStart(file) + EXTENT * i + EXTENT <= |file|
  {
  }

  /** read_descriptor_info and the checks of analyse_existing_file. */
  method ReadDescriptorInfo(file: Bytes) returns (st: Status, kind: Kind, logChunk: nat, ext: seq<Extent>)
    ensures st == Ok <==> Readable(file)
    ensures st == NotCompressed <==> !Described(file) || (TableThere(file) && VersionOk(file) && !SigningKnown(file[|file| - DESCRIPTOR]))
    ensures st == Invalid <==> Described(file) && TableThere(file) && !VersionOk(file)
    ensures st == Ok ==>
              var descr := file[|file| - DESCRIPTOR..];
              && KindOf(descr[1..4]) == Some(kind) && logChunk == Value(descr[20..24]) && |ext| == Value(descr[4..6])
              && forall i :: 0 <= i < |ext| ==> ext[i] == ExtentOf(ReadAt(file, TableStart(file) + EXTENT * i, EXTENT))
  {
    hide Value;
    kind, logChunk, ext := Zlib, 0, [];
    if |file| < DESCRIPTOR {
      return NotCompressed, kind, logChunk, ext;
    }
    var descr := file[|file| - DESCRIPTOR..];
    logChunk := Value(descr[20..24]);
    var found := KindOf(descr[1..4]);
    if found.None? {
      return NotCompressed, kind, logChunk, ext;
    }
    kind := found.value;
    var n := Value(descr[4..6]);
    if n > |file| / EXTENT {
      return NotCompressed, kind, logChunk, ext;
    }
    var first := TableStart(file);
    if n > 0 && first < 0 {
      return ReadError, kind, logChunk, ext;
    }
    for i := 0 to n
      invariant |ext| == i
      invariant forall j :: 0 <= j < i ==> ext[j] == ExtentOf(ReadAt(file, first + EXTENT * j, EXTENT))
    {
      TableInside(file, i);
      ext := ext + [ExtentOf(ReadAt(file, first + EXTENT * i, EXTENT))];
    }
    if Value(descr[6..8]) != LAYOUT_VERSION {
      return Invalid, kind, logChunk, ext;
    }
    st := if SigningKnown(descr[0]) then Ok else NotCompressed;
  }

  /** What the decoder makes of the bytes of one extent; None if the decompressor fails or has
  no room for its output. */
  function Unpacked(c: Codec, chunkSize: nat, e: Extent, bytes: Bytes): Option<Bytes> {
    if e.stored then Some(bytes)
    else
      var out := c.unpack(bytes);
      if out.Some? && |out.value| <= chunkSize then out else None
  }

  /** The bytes at each extent unpack to a chunk. */
  ghost predicate Decodable(c: Codec, file: Bytes, ext: seq<Extent>, chunkSize: nat, chunks: seq<Bytes>) {
    && |chunks| == |ext|
    && forall i :: 0 <= i < |ext| ==> ChunkThere(c, file, ext[i], chunkSize, chunks[i])
  }

  ghost predicate ChunkThere(c: Codec, file: Bytes, e: Extent, chunkSize: nat, chunk: Bytes) {
    var bytes := ReadAt(file, e.start, e.len);
    bytes != [] && Unpacked(c, chunkSize, e, bytes) == Some(chunk)
  }

  /** What the decoder writes from entry `i` on: up to the first extent without bytes, unless one before it cannot be
  unpacked. */
  function Output(c: Codec, file: Bytes, ext: seq<Extent>, chunkSize: nat, i: nat): Option<Bytes>
    requires i <= |ext|
    decreases |ext| - i
  {
    if i == |ext| || ReadAt(file, ext[i].start, ext[i].len) == [] then Some([]) else
    var chunk := Unpacked(c, chunkSize, ext[i], ReadAt(file, ext[i].start, ext[i].len));
    if chunk.None? then None else Behind(chunk.value, Output(c, file, ext, chunkSize, i + 1))
  }

  function Behind(a: Bytes, b: Option<Bytes>): Option<Bytes> {
    if b.None? then None else Some(a + b.value)
  }

  lemma BehindMore(a: Bytes, b: Bytes, r: Option<Bytes>)
    ensures Behind(a, Behind(b, r)) == Behind(a + b, r) && Behind([], r) == r && Behind(a, Some([])) == Some(a)
  {
    if r.Some? {
      assert a + (b + r.value) == (a + b) + r.value && [] + r.value == r.value;
    }
    assert a + [] == a;
  }

  /** Where every extent leads to bytes that unpack to a chunk, that is all the chunks. */
  lemma {:induction false} OutputIs(c: Codec, file: Bytes, ext: seq<Extent>, chunkSize: nat, chunks: seq<Bytes>, i: nat)
    requires Decodable(c, file, ext, chunkSize, chunks) && i <= |ext|
    ensures Output(c, file, ext, chunkSize, i) == Some(Concat(chunks[i..]))
    decreases |ext| - i
  {
    if i < |ext| {
      hide ReadAt, Unpacked;
      OutputIs(c, file, ext, chunkSize, chunks, i + 1);
      assert ChunkThere(c, file, ext[i], chunkSize, chunks[i]);
      assert chunks[i..][1..] == chunks[i + 1..];
    }
  }

  /** decompress_file: an empty extent ends it. */
  method DecompressFile(c: Codec, file: Bytes, ext: seq<Extent>, chunkSize: nat) returns (ok: bool, out: Bytes)
    ensures var r := Output(c, file, ext, chunkSize, 0); ok == r.Some? && (ok ==> out == r.value)
  {
    out := [];
    hide ReadAt, Unpacked, Behind;
    BehindMore([], [], Output(c, file, ext, chunkSize, 0));
    for i := 0 to |ext|
      invariant Behind(out, Output(c, file, ext, chunkSize, i)) == Output(c, file, ext, chunkSize, 0)
    {
      var bytes := ReadAt(file, ext[i].start, ext[i].len);
      if bytes == [] {
        BehindMore(out, [], None);
        return true, out;
      }
      var chunk := Unpacked(c, chunkSize, ext[i], bytes);
      if chunk.None? {
        NoneBehind(out);
        return false, out;
      }
      BehindMore(out, chunk.value, Output(c, file, ext, chunkSize, i + 1));
      out := out + chunk.value;
    }
    BehindMore(out, [], None);
    ok := true;
  }

  lemma NoneBehind(a: Bytes)
    ensures Behind(a, None) == None
  {
  }

  /* ---- what the decoder finds in an encoded file ---- */

  /** The parts of an encoded file, and where they stand. */
  lemma FileParts(f: Format, data: Bytes, ext: seq<Extent>, hashes: Bytes, size: nat, crc: nat, file: Bytes)
    requires Assembled(f, data, ext, hashes, size, crc, file)
    ensures var ts := Align(|data|, EXTENT);
            && |file| == ts + EXTENT * |ext| + |hashes| + DESCRIPTOR
            && file[..|data|] == data && file[ts..ts + EXTENT * |ext|] == TableBytes(ext)
            && file[|file| - DESCRIPTOR..] == DescriptorBytes(f.signing, f.s.kind, |ext|, size, crc, f.logChunk)
  {
    hide TableBytes, DescriptorBytes, Zeros, Align;
    var pad := Zeros(Align(|data|, EXTENT) - |data|);
    var descr := DescriptorBytes(f.signing, f.s.kind, |ext|, size, crc, f.logChunk);
    Quarters(data, pad, TableBytes(ext), hashes + descr, file);
    assert |pad| == Align(|data|, EXTENT) - |data| && |hashes + descr| == |hashes| + DESCRIPTOR;
    assert (hashes + descr)[|hashes|..] == descr;
    assert file[|file| - DESCRIPTOR..] == file[|file| - |hashes + descr|..][|hashes|..];
  }

  lemma TableStartIs(f: Format, n: nat, descr: Bytes, file: Bytes)
    requires |file| >= DESCRIPTOR && file[|file| - DESCRIPTOR..] == descr
    requires descr[0] == SigningByte(f.signing) && Value(descr[4..6]) == n
    ensures TableStart(file) == |file| - DESCRIPTOR - EXTENT * n - HashSize(f.signing, n)
    ensures SigningKnown(descr[0])
  {
    hide Value;
  }

  lemma EntryRead(file: Bytes, ts: nat, ext: seq<Extent>, i: nat)
    requires i < |ext| && ts + EXTENT * |ext| <= |file| && file[ts..ts + EXTENT * |ext|] == TableBytes(ext) && ExtentFits(ext[i])
    ensures ExtentOf(ReadAt(file, ts + EXTENT * i, EXTENT)) == ext[i]
  {
    hide TableBytes, ExtentBytes, ExtentOf;
    TableEntry(ext, i);
    SliceOfSlice(file, ts, ts + EXTENT * |ext|, EXTENT * i, EXTENT * i + EXTENT);
    ExtentRoundTrip(ext[i]);
  }

  lemma TableFound(f: Format, c: Codec, src: Bytes, file: Bytes, data: Bytes, ext: seq<Extent>, hashes: Bytes, crc: nat)
    requires Encodes(f, c, src, file, data, ext, hashes, crc)
    ensures Readable(file) && FormatOk(f)
    ensures var descr := file[|file| - DESCRIPTOR..];
            KindOf(descr[1..4]) == Some(f.s.kind) && Value(descr[20..24]) == f.logChunk && Value(descr[4..6]) == |ext|
    ensures forall i :: 0 <= i < |ext| ==> ExtentOf(ReadAt(file, TableStart(file) + EXTENT * i, EXTENT)) == ext[i]
  {
    hide TableBytes, DescriptorBytes, Zeros, Align, Tiles, EntryOk, Value, ExtentOf, Split, Power, KindOf, HashSize;
    FileParts(f, data, ext, hashes, |src|, crc, file);
    LogFits(f);
    DescriptorFields(f.signing, f.s.kind, |ext|, |src|, crc, f.logChunk);
    KindRoundTrip(f.s.kind);
    TableStartIs(f, |ext|, file[|file| - DESCRIPTOR..], file);
    forall i | 0 <= i < |ext| ensures ExtentOf(ReadAt(file, TableStart(file) + EXTENT * i, EXTENT)) == ext[i] {
      EntryRead(file, Align(|data|, EXTENT), ext, i);
    }
  }

  /** The bytes that the decoder reads for a chunk unpack to it. */
  lemma PieceUnpacks(s: Settings, c: Codec, fileSize: nat, chunk: Bytes, e: Extent, bytes: Bytes)
    requires Undoes(c) && EntryOk(s, c, fileSize, chunk, e) && 0 < |chunk| <= s.chunkSize
    requires e.len <= |Written(s, c, fileSize, chunk)| && bytes == Written(s, c, fileSize, chunk)[..e.len]
    ensures bytes != [] && Unpacked(c, s.chunkSize, e, bytes) == Some(chunk)
  {
    if !e.stored {
      var p := c.pack(chunk).value;
      assert bytes == p + Zeros(Align(|p|, Unit(s, false)) - |p|);
    }
  }

  lemma ReadPiece(file: Bytes, data: Bytes, start: nat, piece: Bytes, len: nat)
    requires |data| <= |file| && file[..|data|] == data && StandsAt(data, start, piece) && 0 < len <= |piece|
    ensures ReadAt(file, start, len) == piece[..len]
  {
    SliceOfSlice(file, 0, |data|, start, start + len);
    SliceOfSlice(data, start, start + |piece|, 0, len);
  }

  lemma ChunksFound(f: Format, c: Codec, src: Bytes, file: Bytes, data: Bytes, ext: seq<Extent>, hashes: Bytes, crc: nat)
    requires Encodes(f, c, src, file, data, ext, hashes, crc) && Undoes(c)
    ensures f.s.chunkSize > 0 && |ext| == |Split(src, f.s.chunkSize)| && Concat(Split(src, f.s.chunkSize)) == src
    ensures Decodable(c, file, ext, f.s.chunkSize, Split(src, f.s.chunkSize))
  {
    hide Assembled, Tiles, Written, IsStored, Power, Undoes, Unpacked, StandsAt, EntryOk, Split, Concat;
    var chunks := Split(src, f.s.chunkSize);
    FileParts(f, data, ext, hashes, |src|, crc, file);
    SplitConcat(src, f.s.chunkSize);
    forall i | 0 <= i < |ext| ensures ChunkThere(c, file, ext[i], f.s.chunkSize, chunks[i]) {
      assert chunks[i] in chunks;
      TileAt(data, ext, Stored(f.s, c, |src|, chunks), i);
      EntryLength(f.s, c, |src|, chunks[i], ext[i]);
      ReadPiece(file, data, ext[i].start, Written(f.s, c, |src|, chunks[i]), ext[i].len);
      PieceUnpacks(f.s, c, |src|, chunks[i], ext[i], ReadAt(file, ext[i].start, ext[i].len));
    }
  }

  lemma EntryLength(s: Settings, c: Codec, fileSize: nat, chunk: Bytes, e: Extent)
    requires EntryOk(s, c, fileSize, chunk, e) && 0 < |chunk| <= s.chunkSize < 0x1_0000_0000
    ensures 0 < e.len <= |Written(s, c, fileSize, chunk)|
  {
    LenBound(s, c, fileSize, chunk);
  }

  /** The entries that the decoder reads. */
  function Entries(file: Bytes): (ext: seq<Extent>)
    requires Readable(file)
    ensures |ext| == Value(file[|file| - DESCRIPTOR..][4..6])
  {
    var n := Value(file[|file| - DESCRIPTOR..][4..6]);
    seq(n, i requires 0 <= i < n => TableInside(file, i); ExtentOf(ReadAt(file, TableStart(file) + EXTENT * i, EXTENT)))
  }

  /** What decoding a file gives, whether or not this encoder has written it. */
  function Decoded(codecs: Kind -> Codec, file: Bytes): Option<Bytes>
    requires Readable(file)
  {
    var descr := file[|file| - DESCRIPTOR..];
    Output(codecs(KindOf(descr[1..4]).value), file, Entries(file), Power(2, Value(descr[20..24])), 0)
  }

  lemma EntriesAre(file: Bytes, ext: seq<Extent>)
    requires Readable(file) && |ext| == Value(file[|file| - DESCRIPTOR..][4..6])
    requires forall i :: 0 <= i < |ext| ==> ExtentOf(ReadAt(file, TableStart(file) + EXTENT * i, EXTENT)) == ext[i]
    ensures Entries(file) == ext
  {
    hide Value, KindOf, ExtentOf, ReadAt, TableStart;
  }

  lemma DecodedIs(codecs: Kind -> Codec, file: Bytes, kind: Kind, logChunk: nat, ext: seq<Extent>)
    requires Readable(file) && Entries(file) == ext
    requires KindOf(file[|file| - DESCRIPTOR..][1..4]) == Some(kind) && Value(file[|file| - DESCRIPTOR..][20..24]) == logChunk
    ensures Decoded(codecs, file) == Output(codecs(kind), file, ext, Power(2, logChunk), 0)
  {
    hide Value, KindOf, ExtentOf, ReadAt, TableStart, Entries, Output, Power;
  }

  lemma ChunkSize(f: Format)
    requires FormatOk(f)
    ensures f.s.chunkSize == Power(2, f.logChunk) > 0
  {
  }

  /** Whatever was encoded is decoded to what it was. */
  lemma EncodedDecodes(f: Format, codecs: Kind -> Codec, src: Bytes, file: Bytes, hashes: Bytes, crc: nat)
    requires IsEncoding(f, codecs(f.s.kind), src, file, hashes, crc) && Undoes(codecs(f.s.kind))
    ensures Readable(file) && Decoded(codecs, file) == Some(src)
  {
    var c := codecs(f.s.kind);
    var data: Bytes, ext: seq<Extent> :| Encodes(f, c, src, file, data, ext, hashes, crc);
    TableFound(f, c, src, file, data, ext, hashes, crc);
    ChunksFound(f, c, src, file, data, ext, hashes, crc);
    hide Encodes, IsEncoding, Undoes, Split, Decodable, Value, KindOf, Output, ExtentOf, Readable, Entries, Decoded, TableStart,
         ReadAt, Concat, FormatOk, Power;
    EntriesAre(file, ext);
    DecodedIs(codecs, file, f.s.kind, f.logChunk, ext);
    ChunkSize(f);
    OutputIs(c, file, ext, f.s.chunkSize, Split(src, f.s.chunkSize), 0);
    assert Split(src, f.s.chunkSize)[0..] == Split(src, f.s.chunkSize);
  }

  /** decode_file on a file that ends where the container ends. Whatever was encoded comes back. */
  method DecodeFile(codecs: Kind -> Codec, file: Bytes, ghost f: Format, ghost src: Bytes, ghost hashes: Bytes, ghost crc: nat)
    returns (st: Status, out: Bytes)
    ensures IsEncoding(f, codecs(f.s.kind), src, file, hashes, crc) && Undoes(codecs(f.s.kind)) ==> st == Ok && out == src
    ensures st == Ok <==> Readable(file) && Decoded(codecs, file).Some?
    ensures st == Ok ==> out == Decoded(codecs, file).value
  {
    if IsEncoding(f, codecs(f.s.kind), src, file, hashes, crc) && Undoes(codecs(f.s.kind)) {
      EncodedDecodes(f, codecs, src, file, hashes, crc);
    }
    hide IsEncoding, Undoes, Power, TableStart, Described, TableThere, VersionOk, SigningKnown, Value, KindOf, Output, ExtentOf, ReadAt,
         Readable, Entries, Decoded;
    out := [];
    var kind: Kind, logChunk: nat, exts: seq<Extent>;
    st, kind, logChunk, exts := ReadDescriptorInfo(file);
    if st != Ok {
      return;
    }
    EntriesAre(file, exts);
    DecodedIs(codecs, file, kind, logChunk, exts);
    var ok: bool;
    ok, out := DecompressFile(codecs(kind), file, exts, Power(2, logChunk));
    if !ok {
      st := ReadError;
    }
  }

  /** Encoding and decoding in turn: the file comes back, whatever order the threads finish in. */
  method RoundTrip(f: Format, codecs: Kind -> Codec, src: Bytes, order: seq<nat>, hashes: Bytes, crc: nat)
    returns (encoded: bool, st: Status, out: Bytes)
    requires FormatOk(f) && src != [] && Undoes(codecs(f.s.kind))
    requires Permutation(order, |Split(src, f.s.chunkSize)|) && |Split(src, f.s.chunkSize)| < 0x1_0000
    requires |hashes| == HashSize(f.signing, |Split(src, f.s.chunkSize)|)
    ensures encoded ==> st == Ok && out == src
    ensures encoded <==> Size(Stored(f.s, codecs(f.s.kind), |src|, Split(src, f.s.chunkSize))) <= MAX_OFFSET
  {
    hide *;
    var file;
    encoded, file := EncodeFile(f, codecs(f.s.kind), src, order, hashes, crc);
    st, out := DecodeFile(codecs, file, f, src, hashes, crc);
  }
}
