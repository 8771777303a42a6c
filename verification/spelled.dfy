/** What the UKF lexer and parser accept: spellings of key systems, and nothing else (extractor/unixtract/src/ukf.rs). */
module UkfSpelled {
  import opened Octets
  import opened Options
  import opened TextCoding
  import opened UkfLexer
  import opened UkfParser
  import opened Ukf

  /* ---- the lexer ---- */

  /** What SkipLine and SkipGap pass over. */
  lemma {:induction false} LineIs(s: string) returns (line: string)
    ensures s == line + SkipLine(s) && forall t :: SkipLine(line + t) == SkipLine(t)
    ensures SkipLine(s) == [] || SkipLine(s)[0] == '\n'
  {
    line := [];
    if s != [] && s[0] != '\n' {
      var more := LineIs(s[1..]);
      line := [s[0]] + more;
      forall t ensures SkipLine(line + t) == SkipLine(t) {
        assert (line + t)[1..] == more + t;
      }
    } else {
      assert forall t: string :: [] + t == t;
    }
  }

  lemma {:induction false} GapIs(s: string) returns (g: string)
    ensures s == g + SkipGap(s) && (SkipGap(s) != [] ==> Gap(g)) && (SkipGap(s) == [] ==> EndGap(g))
    decreases |s|
  {
    g := [];
    if s != [] && s[0] == '#' {
      var line := LineIs(s);
      var rest := SkipLine(s);
      if rest == [] {
        g := s;
        assert s == line;
      } else {
        var more := GapIs(rest[1..]);
        g := (line + ['\n']) + more;
        hide Gap, EndGap, SkipGap, Whitespace;
        CommentIs(s, line, rest, more);
      }
    } else if s != [] && Whitespace(s[0]) {
      var more := GapIs(s[1..]);
      g := [s[0]] + more;
      assert g[1..] == more;
    }
  }

  /** A comment ended by a newline, and the gap behind it. */
  lemma CommentIs(s: string, line: string, rest: string, more: string)
    requires s != [] && s[0] == '#' && s == line + rest && rest == SkipLine(s) && rest != [] && rest[0] == '\n'
    requires forall t :: SkipLine(line + t) == SkipLine(t)
    requires rest[1..] == more + SkipGap(rest[1..])
    ensures var g := (line + ['\n']) + more;
            && SkipGap(s) == SkipGap(rest[1..]) && s == g + SkipGap(s)
            && (Gap(more) ==> Gap(g)) && (EndGap(more) ==> EndGap(g))
  {
    hide Gap, EndGap, SkipGap, SkipLine;
    var g := (line + ['\n']) + more;
    NewlineSkipped(s, rest);
    Parts(line, '\n', more, SkipGap(rest[1..]), rest, s);
    assert g == line + (['\n'] + more);
    LineEnds(more);
    assert line != [] && g[0] == s[0];
    CommentGap(g, more);
  }

  lemma LineEnds(more: string)
    ensures SkipLine(['\n'] + more) == ['\n'] + more && (['\n'] + more)[1..] == more
  {
  }

  lemma NewlineSkipped(s: string, rest: string)
    requires s != [] && s[0] == '#' && rest == SkipLine(s) && rest != [] && rest[0] == '\n'
    ensures SkipGap(s) == SkipGap(rest[1..]) && |rest| < |s|
  {
    hide SkipLine;
  }

  lemma CommentGap(g: string, more: string)
    requires g != [] && g[0] == '#' && SkipLine(g) == ['\n'] + more
    ensures (Gap(more) ==> Gap(g)) && (EndGap(more) ==> EndGap(g))
  {
    hide SkipLine;
    assert SkipLine(g)[1..] == more;
  }

  lemma Parts(line: string, c: char, more: string, after: string, rest: string, s: string)
    requires rest != [] && rest[0] == c && rest[1..] == more + after && s == line + rest
    ensures s == ((line + [c]) + more) + after
    ensures s != [] && s[0] != c ==> line != []
  {
    assert rest == [c] + rest[1..];
  }

  lemma {:induction false} StringIs(s: string)
    requires StringOf(s).Some?
    ensures var (text, rest) := StringOf(s).value; s == text + "\"" + rest && QuoteFree(text)
  {
    if s[0] != '"' {
      StringIs(s[1..]);
    }
  }

  lemma TokenIs(u: Unicode, s: string)
    requires s != [] && LexOne(u, s).Some?
    ensures var (t, rest) := LexOne(u, s).value; s == Text(t) + rest && TokenOk(t)
  {
    hide StringOf, WordOf;
    if s[0] == 'x' {
      StringIs(s[2..]);
    } else if s[0] == '"' {
      StringIs(s[1..]);
    }
  }

  /** Whatever the lexer accepts is a spelling of the tokens it returns. */
  lemma {:induction false} LexedIsSpelled(u: Unicode, s: string) returns (parts: seq<(string, Token)>, last: string)
    requires Lex(u, s).Some?
    ensures s == Render(parts, last) && TokensOf(parts) == Lex(u, s).value && EndGap(last)
    ensures forall i :: 0 <= i < |parts| ==> Gap(parts[i].0) && TokenOk(parts[i].1)
    decreases |s|
  {
    hide LexOne, SkipGap, Gap, EndGap, TokenOk;
    var g := GapIs(s);
    var r := SkipGap(s);
    parts, last := [], g;
    if r != [] {
      var (t, rest) := LexOne(u, r).value;
      TokenIs(u, r);
      parts, last := LexedIsSpelled(u, rest);
      var all := [(g, t)] + parts;
      assert all[1..] == parts;
      assert TokensOf(all) == [t] + TokensOf(parts);
      parts := all;
    }
  }

  /* ---- the parser ---- */

  lemma CommaIs(ts: seq<Token>) returns (comma: bool)
    ensures ts == CommaIf(comma) + SkipComma(ts)
  {
    comma := ts != [] && ts[0].Comma?;
  }

  lemma {:induction false} ValuesAre(ts: seq<Token>) returns (parts: seq<Part>)
    requires Values(ts).Some?
    ensures PartsOk(parts) && Values(ts).value.0 == PartsBlock(parts)
    ensures ts == PartsTokens(parts) + ([CloseBrace] + Values(ts).value.1)
    decreases |ts|
  {
    ValuesOpen(ts);
    parts := [];
    if !ts[0].CloseBrace? {
      hide Values, CommaIf, SkipComma, PartsBlock, PartsOk, PartBytes, PartsTokens, PartTokens;
      var comma := CommaIs(ts[1..]);
      var more := ValuesAre(SkipComma(ts[1..]));
      var p := PartOf(ts[0], comma);
      parts := [p] + more;
      FirstValue(p, more);
      PartAhead(ts, CommaIf(comma), SkipComma(ts[1..]), PartsTokens(more), [CloseBrace] + Values(ts).value.1);
      FirstTokens(ts[0], comma, more);
    }
  }

  function PartOf(t: Token, comma: bool): Part
    requires t.Str? || t.HexStr?
  {
    if t.Str? then TextPart(t.text, comma) else HexPart(t.text, comma)
  }

  /** One step of Values. */
  lemma ValuesOpen(ts: seq<Token>)
    requires Values(ts).Some?
    ensures ts != [] && (ts[0].CloseBrace? || ts[0].Str? || ts[0].HexStr?)
    ensures ts[0].CloseBrace? ==> Values(ts).value.0 == PartsBlock([]) && ts == PartsTokens([]) + ([CloseBrace] + Values(ts).value.1)
    ensures !ts[0].CloseBrace? ==>
              && |SkipComma(ts[1..])| < |ts| && Values(SkipComma(ts[1..])).Some?
              && Values(ts).value.1 == Values(SkipComma(ts[1..])).value.1
              && forall comma :: PartBytes(PartOf(ts[0], comma)).Some?
                   && Values(ts).value.0 == [PartBytes(PartOf(ts[0], comma)).value] + Values(SkipComma(ts[1..])).value.0
  {
    hide HexBytes, TextBytes, SkipComma;
    assert ts == [ts[0]] + ts[1..];
  }

  lemma FirstTokens(t: Token, comma: bool, more: seq<Part>)
    requires t.Str? || t.HexStr?
    ensures PartsTokens([PartOf(t, comma)] + more) == ([t] + CommaIf(comma)) + PartsTokens(more)
  {
    hide CommaIf;
    assert ([PartOf(t, comma)] + more)[1..] == more;
  }

  lemma PartAhead(ts: seq<Token>, comma: seq<Token>, rest: seq<Token>, more: seq<Token>, tail: seq<Token>)
    requires ts != [] && ts[1..] == comma + rest && rest == more + tail
    ensures ts == (([ts[0]] + comma) + more) + tail
  {
    assert ts == [ts[0]] + ts[1..];
  }

  lemma FirstValue(p: Part, more: seq<Part>)
    requires PartBytes(p).Some? && PartsOk(more)
    ensures PartsOk([p] + more) && PartsBlock([p] + more) == [PartBytes(p).value] + PartsBlock(more)
  {
    hide PartBytes;
    forall q | q in [p] + more ensures PartBytes(q).Some? {
      assert q == p || q in more;
    }
  }

  lemma BlockIs(ts: seq<Token>) returns (parts: seq<Part>)
    requires KeyBlock(ts).Some?
    ensures PartsOk(parts) && KeyBlock(ts).value.0 == PartsBlock(parts) && ts == BlockTokens(parts) + KeyBlock(ts).value.1
  {
    hide PartsTokens, Values, PartsOk, PartsBlock;
    parts := ValuesAre(ts[1..]);
    assert ts == [ts[0]] + ts[1..];
  }

  lemma NamedIs(ts: seq<Token>) returns (parts: seq<Part>)
    requires Named(ts).Some?
    ensures PartsOk(parts) && Named(ts).value.1 == PartsBlock(parts)
    ensures ts == [Str(Named(ts).value.0), Colon] + (BlockTokens(parts) + Named(ts).value.2)
  {
    hide KeyBlock, BlockTokens, PartsOk, PartsBlock;
    parts := BlockIs(ts[2..]);
    assert ts == [ts[0], ts[1]] + ts[2..];
  }

  lemma {:induction false} ItemsAre(ts: seq<Token>) returns (items: seq<Item>)
    requires Items(ts).Some?
    ensures ItemsOk(items) && Items(ts).value.0 == ItemsList(items)
    ensures ts == ItemsTokens(items) + ([CloseBrace] + Items(ts).value.1)
    decreases |ts|
  {
    items := [];
    if !ts[0].CloseBrace? {
      hide Named, BlockTokens, PartsOk, PartsBlock;
      var (name, block, rest) := Named(ts).value;
      var parts := NamedIs(ts);
      var comma := CommaIs(rest);
      var more := ItemsAre(SkipComma(rest));
      var item := Item(name, parts, comma);
      items := [item] + more;
      assert items[1..] == more;
      FirstItem(item, more);
      ItemAhead(item, ItemsTokens(more), [CloseBrace] + Items(ts).value.1);
    }
  }

  lemma ItemAhead(item: Item, more: seq<Token>, tail: seq<Token>)
    ensures [Str(item.name), Colon] + (BlockTokens(item.parts) + (CommaIf(item.comma) + (more + tail))) == (ItemTokens(item) + more) + tail
  {
    hide BlockTokens, CommaIf;
  }

  lemma FirstItem(item: Item, more: seq<Item>)
    requires PartsOk(item.parts) && ItemsOk(more)
    ensures ItemsOk([item] + more) && ItemsList([item] + more) == [(item.name, PartsBlock(item.parts))] + ItemsList(more)
  {
    hide PartsOk, PartsBlock;
    forall q | q in [item] + more ensures PartsOk(q.parts) {
      assert q == item || q in more;
    }
  }

  lemma EntryIs(ts: seq<Token>, sys: KeySystem) returns (e: Entry)
    requires ts != [] && OneEntry(ts, sys).Some?
    ensures EntryOk(e) && ts == EntryTokens(e) + OneEntry(ts, sys).value.1
  {
    hide Named, Items, BlockTokens, ItemsTokens, PartsOk, ItemsOk, PartsBlock, ItemsList, WithKey, WithCollection;
    if ts[0].Key? {
      var (name, block, rest) := Named(ts[1..]).value;
      var parts := NamedIs(ts[1..]);
      e := KeyEntry(name, parts);
      assert ts == [ts[0]] + ts[1..];
    } else {
      var items := ItemsAre(ts[4..]);
      e := CollectionEntry(ts[1].text, items);
      assert ts == [ts[0], ts[1], ts[2], ts[3]] + ts[4..];
    }
  }

  /** Whatever tokens the parser accepts are those of entries. */
  lemma {:induction false} ParsedIsEntries(ts: seq<Token>, sys: KeySystem) returns (entries: seq<Entry>)
    requires ParseFrom(ts, sys).Some?
    ensures EntriesOk(entries) && ts == EntriesTokens(entries)
    decreases |ts|
  {
    entries := [];
    if ts != [] {
      hide OneEntry, EntryTokens, EntryOk;
      var (sys', rest) := OneEntry(ts, sys).value;
      var e := EntryIs(ts, sys);
      var more := ParsedIsEntries(rest, sys');
      entries := [e] + more;
      assert entries[1..] == more;
      forall q | q in entries ensures EntryOk(q) {
        assert q == e || q in more;
      }
    }
  }

  /* ---- the whole ---- */

  /** The input is a spelling of entries with distinct names that say just what the system has. */
  ghost predicate SpelledOut(input: string, sys: KeySystem) {
    exists parts, last, entries ::
      && Spells(parts, last, entries) && input == Render(parts, last)
      && EntriesOk(entries) && DistinctNames(entries) && Describes(entries, sys)
  }

  /** A text is read as a key system exactly when it is a spelling of that system; every other text is an error. */
  lemma ReadExactly(u: Unicode, input: string, sys: KeySystem)
    requires UnicodeOk(u)
    ensures Read(u, input) == Some(sys) <==> SpelledOut(input, sys)
  {
    hide UnicodeOk, Lex, ParseFrom, Render, Spells, EntriesOk, DistinctNames, Describes, EntriesTokens;
    if SpelledOut(input, sys) {
      var parts, last, entries :|
        && Spells(parts, last, entries) && input == Render(parts, last)
        && EntriesOk(entries) && DistinctNames(entries) && Describes(entries, sys);
      RoundTrip(u, parts, last, entries, sys);
    }
    if Read(u, input) == Some(sys) {
      var parts, last := LexedIsSpelled(u, input);
      var ts := Lex(u, input).value;
      var entries := ParsedIsEntries(ts, EMPTY);
      SpellsThem(parts, last, entries);
      Nothing(entries);
      EntriesRead(entries, 0, EMPTY);
      assert entries[0..] == entries;
    }
  }

  lemma SpellsThem(parts: seq<(string, Token)>, last: string, entries: seq<Entry>)
    requires TokensOf(parts) == EntriesTokens(entries) && EndGap(last)
    requires forall i :: 0 <= i < |parts| ==> Gap(parts[i].0) && TokenOk(parts[i].1)
    ensures Spells(parts, last, entries)
  {
  }

  lemma Nothing(entries: seq<Entry>)
    ensures entries[..0] == [] && EntriesOk(entries[..0]) && Describes(entries[..0], EMPTY) && DistinctNames(entries[..0])
  {
    hide EntryOk;
    assert entries[..0] == [];
  }

  /* ---- hex strings ---- */

  function LowerChar(c: char): char {
    if 'A' <= c <= 'F' then (c as int + 32) as char else c
  }

  /** Hex digits in lower case. */
  function Lower(s: string): string {
    if s == [] then [] else [LowerChar(s[0])] + Lower(s[1..])
  }

  /** A hex string is read as bytes exactly when it is their digits, but for case and whitespace; anything else, an odd
  number of digits too, is an error. */
  lemma HexExactly(text: string, b: Bytes)
    ensures HexBytes(text) == Some(b) <==> Lower(NoSpaces(text)) == HexText(b)
  {
    DecodedExactly(NoSpaces(text), b);
  }

  lemma {:induction false} DecodedExactly(s: string, b: Bytes)
    ensures HexDecode(s) == Some(b) <==> Lower(s) == HexText(b)
  {
    if |s| >= 2 && b != [] {
      DecodedExactly(s[2..], b[1..]);
      DecodeTwo(s, b);
      LowerTwo(s, b);
      DigitIs(s[0], b[0] / 16);
      DigitIs(s[1], b[0] % 16);
    } else if |s| >= 2 || b != [] {
      hide LowerChar, HexChar, HexDigit;
    }
  }

  lemma DecodeTwo(s: string, b: Bytes)
    requires |s| >= 2 && b != []
    ensures HexDecode(s) == Some(b) <==>
              HexDigit(s[0]) == Some(b[0] / 16) && HexDigit(s[1]) == Some(b[0] % 16) && HexDecode(s[2..]) == Some(b[1..])
  {
    var hi, lo, rest := HexDigit(s[0]), HexDigit(s[1]), HexDecode(s[2..]);
    if hi.Some? && lo.Some? && rest.Some? {
      Quotient(b[0], hi.value, lo.value);
      var all := [hi.value * 16 + lo.value] + rest.value;
      assert all[0] == hi.value * 16 + lo.value && all[1..] == rest.value;
      assert b == [b[0]] + b[1..];
    }
  }

  lemma Quotient(n: Byte, hi: nat, lo: nat)
    requires hi < 16 && lo < 16
    ensures hi * 16 + lo == n <==> hi == n / 16 && lo == n % 16
  {
  }

  lemma DigitIs(c: char, n: nat)
    requires n < 16
    ensures HexDigit(c) == Some(n) <==> LowerChar(c) == HexChar(n)
  {
  }

  lemma LowerTwo(s: string, b: Bytes)
    requires |s| >= 2 && b != []
    ensures Lower(s) == HexText(b) <==>
              LowerChar(s[0]) == HexChar(b[0] / 16) && LowerChar(s[1]) == HexChar(b[0] % 16) && Lower(s[2..]) == HexText(b[1..])
  {
    hide LowerChar, HexChar;
    var x, y := Lower(s[2..]), HexText(b[1..]);
    assert s[1..][1..] == s[2..];
    assert Lower(s) == [LowerChar(s[0])] + Lower(s[1..]);
    assert Lower(s[1..]) == [LowerChar(s[1])] + x;
    var c0, c1, d0, d1 := LowerChar(s[0]), LowerChar(s[1]), HexChar(b[0] / 16), HexChar(b[0] % 16);
    assert HexText(b) == [d0, d1] + y;
    Heads(c0, c1, x, d0, d1, y);
  }

  lemma Heads(c0: char, c1: char, x: string, d0: char, d1: char, y: string)
    ensures [c0] + ([c1] + x) == [d0, d1] + y <==> c0 == d0 && c1 == d1 && x == y
  {
    var s, t := [c0] + ([c1] + x), [d0, d1] + y;
    assert s[0] == c0 && s[1] == c1 && s[2..] == x && t[0] == d0 && t[1] == d1 && t[2..] == y;
  }

  /** NoSpaces drops whitespace characters and keeps the others in order. */
  lemma {:induction false} NoSpacesAppend(a: string, b: string)
    ensures NoSpaces(a + b) == NoSpaces(a) + NoSpaces(b)
    ensures |a| == 1 ==> NoSpaces(a) == if Whitespace(a[0]) then [] else a
  {
    if a == [] {
      assert a + b == b;
    } else {
      NoSpacesAppend(a[1..], b);
      assert (a + b)[1..] == a[1..] + b;
    }
  }
}
