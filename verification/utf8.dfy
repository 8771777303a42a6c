/** Texts as UTF-8 bytes: as_bytes of the key files (extractor/unixtract/src/ukf.rs) and encode of the driver
(addon/synthDrivers/samsungTVVoices.py). */
module TextCoding {
  import opened Octets
  import opened Options
  import Chunks

  function Utf8Char(c: char): Bytes {
    var n := c as int;
    if n < 0x80 then [n]
    else if n < 0x800 then [0xC0 + n / 64, 0x80 + n % 64]
    else if n < 0x10000 then [0xE0 + n / 4096, 0x80 + n / 64 % 64, 0x80 + n % 64]
    else [0xF0 + n / 262144, 0x80 + n / 4096 % 64, 0x80 + n / 64 % 64, 0x80 + n % 64]
  }

  function TextBytes(s: string): Bytes {
    if s == [] then [] else Utf8Char(s[0]) + TextBytes(s[1..])
  }

  /** The bytes of texts one behind the other are one behind the other. */
  lemma {:induction false} TextBytesAppend(a: string, b: string)
    ensures TextBytes(a + b) == TextBytes(a) + TextBytes(b)
  {
    if a == [] {
      assert a + b == b;
    } else {
      TextBytesAppend(a[1..], b);
      assert (a + b)[1..] == a[1..] + b;
      hide Utf8Char;
    }
  }

  /** A text of characters below 128 is one byte for each. */
  lemma {:induction false} AsciiBytes(s: string)
    requires forall i :: 0 <= i < |s| ==> s[i] as int < 128
    ensures |TextBytes(s)| == |s| && forall i :: 0 <= i < |s| ==> TextBytes(s)[i] == s[i] as int
  {
    if s != [] {
      AsciiBytes(s[1..]);
    }
  }

  /* ---- reading a text back ---- */

  /** The numbers of Unicode characters. */
  predicate Scalar(n: int) {
    0 <= n < 0xD800 || 0xE000 <= n < 0x11_0000
  }

  /** Six more bits of a number. */
  function More(n: int, b: Byte): int {
    0x40 * n + (b as int - 0x80)
  }

  /** The number of the character that the bytes start with, and how many bytes it takes (section 3 of RFC 3629). */
  function FirstChar(b: Bytes): (r: Option<(int, nat)>)
    requires b != []
    ensures r.Some? ==> 0 < r.value.1 <= |b|
  {
    if b[0] < 0x80 then Some((b[0], 1))
    else if 0xC0 <= b[0] < 0xE0 && |b| >= 2 then Some((More(b[0] - 0xC0, b[1]), 2))
    else if 0xE0 <= b[0] < 0xF0 && |b| >= 3 then Some((More(More(b[0] - 0xE0, b[1]), b[2]), 3))
    else if 0xF0 <= b[0] && |b| >= 4 then Some((More(More(More(b[0] - 0xF0, b[1]), b[2]), b[3]), 4))
    else None
  }

  /** The text of UTF-8 bytes. */
  function TextOf(b: Bytes): Option<string> {
    if b == [] then Some([]) else
    var first := FirstChar(b);
    if first.None? || !Scalar(first.value.0) then None else
    var rest := TextOf(b[first.value.1..]);
    if rest.None? then None else Some([first.value.0 as char] + rest.value)
  }

  lemma CharRead(c: char, rest: Bytes)
    ensures FirstChar(Utf8Char(c) + rest) == Some((c as int, |Utf8Char(c)|)) && (Utf8Char(c) + rest)[|Utf8Char(c)|..] == rest
  {
    var n, b := c as int, Utf8Char(c) + rest;
    assert forall i :: 0 <= i < |Utf8Char(c)| ==> b[i] == Utf8Char(c)[i];
    Sextets(n);
    hide More;
  }

  lemma Sextets(n: nat)
    requires n < 0x11_0000
    ensures n / 64 < 0x4400 && n / 4096 < 0x110 && n / 262144 < 5
    ensures n < 0x800 ==> n / 64 < 0x20
    ensures n < 0x10000 ==> n / 4096 < 0x10
    ensures More(n / 64, 0x80 + n % 64) == n && More(n / 4096, 0x80 + n / 64 % 64) == n / 64
    ensures More(n / 262144, 0x80 + n / 4096 % 64) == n / 4096
  {
  }

  /** Every text is read back from its bytes, so different texts have different bytes. */
  lemma {:induction false} TextRead(s: string)
    ensures TextOf(TextBytes(s)) == Some(s)
  {
    if s != [] {
      TextRead(s[1..]);
      CharRead(s[0], TextBytes(s[1..]));
      hide FirstChar, Utf8Char;
      assert [s[0]] + s[1..] == s;
    }
  }

  /** The bytes of every text are characters in the sense of the guest's chunks. */
  lemma {:induction false} TextIsUtf8(s: string)
    ensures Chunks.Utf8(TextBytes(s))
  {
    if s != [] {
      TextIsUtf8(s[1..]);
      CharThere(s[0], TextBytes(s[1..]));
      CharsBehind(Utf8Char(s[0]), TextBytes(s[1..]), 0);
    }
  }

  lemma CharThere(c: char, rest: Bytes)
    ensures Chunks.CharAt(Utf8Char(c) + rest, 0) && Chunks.CharLength((Utf8Char(c) + rest)[0]) == |Utf8Char(c)|
  {
  }

  lemma {:induction false} CharsBehind(a: Bytes, b: Bytes, i: nat)
    requires Chunks.CharsFrom(b, i) && i <= |b|
    ensures Chunks.CharsFrom(a + b, |a| + i)
    decreases |b| - i
  {
    if i < |b| {
      var n := Chunks.CharLength(b[i]);
      assert (a + b)[|a| + i] == b[i];
      forall k | |a| + i < k < |a| + i + n ensures Chunks.Continuation((a + b)[k]) {
        assert (a + b)[k] == b[k - |a|];
      }
      CharsBehind(a, b, i + n);
    }
  }
}
