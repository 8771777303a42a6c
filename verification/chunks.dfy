/** How the guest cuts a speech request into chunks (guest/samsung_guest.cpp). */
module Chunks {
  import opened Octets

  /** targetBytes of nextChunkEnd. */
  const TARGET: nat := 160

  /** A UTF-8 continuation byte. */
  predicate Continuation(b: Byte) {
    0x80 <= b < 0xC0
  }

  predicate Whitespace(b: Byte) {
    b == 0x20 || b == 0x0A || b == 0x09
  }

  /** The length of the UTF-8 character that starts with `b`; 0 if none does. */
  function CharLength(b: Byte): nat {
    if b < 0x80 then 1
    else if 0xC0 <= b < 0xE0 then 2
    else if 0xE0 <= b < 0xF0 then 3
    else if 0xF0 <= b < 0xF8 then 4
    else 0
  }

  predicate CharAt(text: Bytes, i: nat) {
    && i < |text|
    && var n := CharLength(text[i]);
       n > 0 && i + n <= |text| && forall k :: i < k < i + n ==> Continuation(text[k])
  }

  /** From place `i` on, the text is a sequence of UTF-8 characters. */
  predicate CharsFrom(text: Bytes, i: nat)
    decreases |text| - i
  {
    i == |text| || (CharAt(text, i) && CharsFrom(text, i + CharLength(text[i])))
  }

  predicate Utf8(text: Bytes) {
    CharsFrom(text, 0)
  }

  predicate Boundary(text: Bytes, i: nat) {
    i == |text| || (i < |text| && !Continuation(text[i]))
  }

  /** A place in a character sequence that holds no continuation byte starts a character. */
  lemma {:induction false} BoundaryStarts(text: Bytes, i: nat, p: nat)
    requires CharsFrom(text, i) && i <= p && Boundary(text, p)
    ensures CharsFrom(text, p)
    decreases |text| - i
  {
    if i < p {
      BoundaryStarts(text, i + CharLength(text[i]), p);
    }
  }

  lemma StartIsBoundary(text: Bytes, i: nat)
    requires CharsFrom(text, i)
    ensures Boundary(text, i)
  {
  }

  /** A piece between two character starts is a character sequence of its own. */
  lemma {:induction false} PieceChars(text: Bytes, i: nat, p: nat, at: nat)
    requires CharsFrom(text, at) && CharsFrom(text, p) && i <= at <= p <= |text|
    ensures CharsFrom(text[i..p], at - i)
    decreases |text| - at
  {
    if at < p {
      var n := CharLength(text[at]);
      StartIsBoundary(text, p);
      var piece := text[i..p];
      assert piece[at - i] == text[at];
      forall k | at - i < k < at - i + n ensures Continuation(piece[k]) {
        assert piece[k] == text[i + k];
      }
      PieceChars(text, i, p, at + n);
    }
  }

  /** Among any four places in a row behind a character start is a boundary. */
  lemma {:induction false} BoundaryNear(text: Bytes, i: nat, p: nat) returns (q: nat)
    requires CharsFrom(text, i) && i <= p <= |text|
    ensures i <= q <= p < q + 4 && Boundary(text, q)
    decreases |text| - i
  {
    if p < i + 4 && (i == |text| || p < i + CharLength(text[i])) {
      StartIsBoundary(text, i);
      q := i;
    } else {
      q := BoundaryNear(text, i + CharLength(text[i]), p);
    }
  }

  /** The last place from `start` to `end` that is `start` or holds no continuation byte. */
  function BackOff(text: Bytes, start: nat, end: nat): (r: nat)
    requires start <= end < |text|
    ensures start <= r <= end && (r > start ==> !Continuation(text[r]))
    ensures forall q :: r < q <= end ==> Continuation(text[q])
  {
    if end > start && Continuation(text[end]) then BackOff(text, start, end - 1) else end
  }

  /** The last place behind a whitespace, above `min` and up to `position`; else `fallback`. */
  function LastBreak(text: Bytes, min: nat, position: nat, fallback: nat): (r: nat)
    requires position <= |text|
    ensures r == fallback || (min < r <= position && Whitespace(text[r - 1]))
    ensures forall q {:trigger text[q - 1]} :: min < q <= position && Whitespace(text[q - 1]) ==>
              q <= r <= position && Whitespace(text[r - 1])
    decreases position
  {
    if position <= min then fallback
    else if Whitespace(text[position - 1]) then position
    else LastBreak(text, min, position - 1, fallback)
  }

  function ChunkEnd(text: Bytes, start: nat): (end: nat)
    requires start <= |text|
    ensures start <= end <= |text|
  {
    if |text| - start <= TARGET then |text|
    else
      var end := BackOff(text, start, start + TARGET);
      LastBreak(text, start + TARGET / 2, end, end)
  }

  /** nextChunkEnd. */
  method NextChunkEnd(text: Bytes, start: nat) returns (r: nat)
    requires start <= |text|
    ensures r == ChunkEnd(text, start)
  {
    if |text| - start <= TARGET {
      return |text|;
    }
    var end := start + TARGET;
    while end > start && Continuation(text[end])
      invariant start <= end <= start + TARGET
      invariant BackOff(text, start, end) == BackOff(text, start, start + TARGET)
    {
      end := end - 1;
    }
    var minimumBreak := start + TARGET / 2;
    var position := end;
    while position > minimumBreak
      invariant minimumBreak <= position <= end || position == end
      invariant LastBreak(text, minimumBreak, position, end) == LastBreak(text, minimumBreak, end, end)
    {
      var character := text[position - 1];
      if Whitespace(character) {
        return position;
      }
      position := position - 1;
    }
    return end;
  }

  /** For all texts: a chunk is empty exactly at the end of the text and where the 160 bytes
  behind its first one are all continuation bytes. The guest would then not get on. */
  lemma EmptyChunk(text: Bytes, start: nat)
    requires start <= |text|
    ensures ChunkEnd(text, start) == start <==>
            start == |text| || (|text| - start > TARGET && forall q :: start < q <= start + TARGET ==> Continuation(text[q]))
  {
    if |text| - start > TARGET {
      var end := BackOff(text, start, start + TARGET);
      assert end > start ==> !Continuation(text[end]);
    }
  }

  /** In UTF-8 text a chunk from a character start is not empty, is no longer than the target,
  ends at a character start and is UTF-8 itself. */
  lemma ChunkIsUtf8(text: Bytes, start: nat)
    requires CharsFrom(text, start) && start < |text|
    ensures var end := ChunkEnd(text, start);
            start < end <= |text| && end - start <= TARGET && CharsFrom(text, end) && Utf8(text[start..end])
  {
    var end := ChunkEnd(text, start);
    if |text| - start > TARGET {
      var e := BackOff(text, start, start + TARGET);
      var q := BoundaryNear(text, start, start + TARGET);
      assert q <= e;
      if end != e {
        AfterWhitespace(text, start, end);
      } else {
        BoundaryStarts(text, start, e);
      }
    }
    PieceChars(text, start, end, start);
  }

  lemma AfterWhitespace(text: Bytes, start: nat, end: nat)
    requires CharsFrom(text, start) && start < end <= |text| && Whitespace(text[end - 1])
    ensures CharsFrom(text, end)
  {
    BoundaryStarts(text, start, end - 1);
  }

  /** Where a chunk ends, for all texts. A rest of up to 160 bytes is one chunk. Else `e` is the last place up to 160
  bytes on that begins a character, if there is one, and the chunk ends behind the last space, newline or tab that is
  more than 80 bytes on and not behind `e`; without one it ends at `e`. */
  lemma ChunkPlaced(text: Bytes, start: nat, e: nat)
    requires start <= e <= start + 160 && start <= |text|
    requires |text| - start > 160 ==>
               (e == start || !(0x80 <= text[e] < 0xC0)) && forall q :: e < q <= start + 160 ==> 0x80 <= text[q] < 0xC0
    ensures |text| - start <= 160 ==> ChunkEnd(text, start) == |text|
    ensures |text| - start > 160 ==>
              var end := ChunkEnd(text, start);
              && end <= e && (end == e || (start + 80 < end && text[end - 1] in {0x20, 0x0A, 0x09}))
              && (forall q {:trigger text[q - 1]} :: start + 80 < q <= e && text[q - 1] in {0x20, 0x0A, 0x09} ==>
                    q <= end && text[end - 1] in {0x20, 0x0A, 0x09})
  {
    if |text| - start > 160 {
      var b := BackOff(text, start, start + TARGET);
      assert b == e;
    }
  }

  /** A long chunk that ends at whitespace ends at the last one of its second half. */
  lemma BreaksAtLastWhitespace(text: Bytes, start: nat, q: nat)
    requires |text| - start > TARGET && start + TARGET / 2 < q <= BackOff(text, start, start + TARGET)
    requires Whitespace(text[q - 1])
    ensures q <= ChunkEnd(text, start) && Whitespace(text[ChunkEnd(text, start) - 1])
  {
  }

  /** The chunks of a text from place `start` on. */
  function ChunksFrom(text: Bytes, start: nat): seq<Bytes>
    requires start <= |text|
    decreases |text| - start
  {
    var end := ChunkEnd(text, start);
    if end <= start then [] else [text[start..end]] + ChunksFrom(text, end)
  }

  /** The chunks of UTF-8 text are not empty, at most 160 bytes long, UTF-8 themselves, and
  concatenate to the text. */
  lemma {:induction false} ChunksMakeText(text: Bytes, start: nat)
    requires CharsFrom(text, start) && start <= |text|
    ensures Concat(ChunksFrom(text, start)) == text[start..]
    ensures forall c :: c in ChunksFrom(text, start) ==> 0 < |c| <= TARGET && Utf8(c)
    decreases |text| - start
  {
    if start < |text| {
      hide ChunkEnd, CharsFrom, Utf8, Concat, ChunksFrom;
      ChunkIsUtf8(text, start);
      var end := ChunkEnd(text, start);
      ChunksMakeText(text, end);
      FirstChunk(text, start, end);
      ConcatFirst(text[start..end], ChunksFrom(text, end));
      assert text[start..] == text[start..end] + text[end..];
    }
  }

  lemma FirstChunk(text: Bytes, start: nat, end: nat)
    requires start < end <= |text| && end == ChunkEnd(text, start)
    ensures ChunksFrom(text, start) == [text[start..end]] + ChunksFrom(text, end)
    ensures forall c :: c in ChunksFrom(text, start) ==> c == text[start..end] || c in ChunksFrom(text, end)
  {
    hide ChunkEnd;
  }
}
