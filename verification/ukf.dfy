/** Key systems written in any spelling come back from the UKF lexer and parser
(extractor/unixtract/src/ukf.rs). */
module Ukf {
  import opened Octets
  import opened Options
  import opened TextCoding
  import opened UkfLexer
  import opened UkfParser

  /** A value as it is written: a quoted text or a hex string, with or without a comma. */
  datatype Part = TextPart(text: string, comma: bool) | HexPart(text: string, comma: bool)

  datatype Item = Item(name: string, parts: seq<Part>, comma: bool)

  datatype Entry = KeyEntry(name: string, parts: seq<Part>) | CollectionEntry(name: string, items: seq<Item>)

  /* ---- what is written ---- */

  function CommaIf(comma: bool): seq<Token> {
    if comma then [Comma] else []
  }

  function PartTokens(p: Part): seq<Token> {
    [if p.TextPart? then Str(p.text) else HexStr(p.text)] + CommaIf(p.comma)
  }

  function PartsTokens(parts: seq<Part>): seq<Token> {
    if parts == [] then [] else PartTokens(parts[0]) + PartsTokens(parts[1..])
  }

  function BlockTokens(parts: seq<Part>): seq<Token> {
    [OpenBrace] + (PartsTokens(parts) + [CloseBrace])
  }

  function ItemTokens(item: Item): seq<Token> {
    [Str(item.name), Colon] + (BlockTokens(item.parts) + CommaIf(item.comma))
  }

  function ItemsTokens(items: seq<Item>): seq<Token> {
    if items == [] then [] else ItemTokens(items[0]) + ItemsTokens(items[1..])
  }

  function EntryTokens(e: Entry): seq<Token> {
    match e
    case KeyEntry(name, parts) => [Key, Str(name), Colon] + BlockTokens(parts)
    case CollectionEntry(name, items) => [Collection, Str(name), Colon, OpenBrace] + (ItemsTokens(items) + [CloseBrace])
  }

  function EntriesTokens(entries: seq<Entry>): seq<Token> {
    if entries == [] then [] else EntryTokens(entries[0]) + EntriesTokens(entries[1..])
  }

  /* ---- what it means ---- */

  function PartBytes(p: Part): Option<Bytes> {
    if p.TextPart? then Some(TextBytes(p.text)) else HexBytes(p.text)
  }

  predicate PartsOk(parts: seq<Part>) {
    forall p :: p in parts ==> PartBytes(p).Some?
  }

  function PartsBlock(parts: seq<Part>): Block
    requires PartsOk(parts)
  {
    seq(|parts|, i requires 0 <= i < |parts| => assert parts[i] in parts; PartBytes(parts[i]).value)
  }

  predicate ItemsOk(items: seq<Item>) {
    forall item :: item in items ==> PartsOk(item.parts)
  }

  function ItemsList(items: seq<Item>): seq<(string, Block)>
    requires ItemsOk(items)
  {
    seq(|items|, i requires 0 <= i < |items| => assert items[i] in items; (items[i].name, PartsBlock(items[i].parts)))
  }

  predicate EntryOk(e: Entry) {
    match e
    case KeyEntry(_, parts) => PartsOk(parts)
    case CollectionEntry(_, items) => ItemsOk(items)
  }

  predicate EntriesOk(entries: seq<Entry>) {
    forall e :: e in entries ==> EntryOk(e)
  }

  /** No two keys have one name, and no two collections. */
  ghost predicate DistinctNames(entries: seq<Entry>) {
    forall i, j :: 0 <= i < j < |entries| ==> !Clash(entries[i], entries[j])
  }

  predicate Clash(a: Entry, b: Entry) {
    a.KeyEntry? == b.KeyEntry? && a.name == b.name
  }

  /** The system has what the entry says. */
  ghost predicate Holds(sys: KeySystem, e: Entry)
    requires EntryOk(e)
  {
    match e
    case KeyEntry(name, parts) => name in sys.keys && sys.keys[name] == PartsBlock(parts)
    case CollectionEntry(name, items) => name in sys.collections && sys.collections[name] == ItemsList(items)
  }

  ghost predicate HasKeyEntry(entries: seq<Entry>, name: string) {
    exists i :: 0 <= i < |entries| && entries[i].KeyEntry? && entries[i].name == name
  }

  ghost predicate HasCollectionEntry(entries: seq<Entry>, name: string) {
    exists i :: 0 <= i < |entries| && entries[i].CollectionEntry? && entries[i].name == name
  }

  /** The entries say all that the system has. */
  ghost predicate Describes(entries: seq<Entry>, sys: KeySystem)
    requires EntriesOk(entries)
  {
    && (forall i :: 0 <= i < |entries| ==> entries[i] in entries && Holds(sys, entries[i]))
    && (forall name :: name in sys.keys ==> HasKeyEntry(entries, name))
    && (forall name :: name in sys.collections ==> HasCollectionEntry(entries, name))
  }

  lemma DescribesOne(entries: seq<Entry>, sys: KeySystem, sys': KeySystem)
    requires EntriesOk(entries) && Describes(entries, sys) && Describes(entries, sys')
    ensures sys == sys'
  {
    forall name ensures name in sys.keys <==> name in sys'.keys {
      if name in sys.keys || name in sys'.keys {
        var i :| 0 <= i < |entries| && entries[i].KeyEntry? && entries[i].name == name;
        assert entries[i] in entries;
      }
    }
    forall name ensures name in sys.collections <==> name in sys'.collections {
      if name in sys.collections || name in sys'.collections {
        var i :| 0 <= i < |entries| && entries[i].CollectionEntry? && entries[i].name == name;
        assert entries[i] in entries;
      }
    }
    forall name | name in sys.keys ensures sys.keys[name] == sys'.keys[name] {
      var i :| 0 <= i < |entries| && entries[i].KeyEntry? && entries[i].name == name;
      assert entries[i] in entries && Holds(sys, entries[i]) && Holds(sys', entries[i]);
    }
    forall name | name in sys.collections ensures sys.collections[name] == sys'.collections[name] {
      var i :| 0 <= i < |entries| && entries[i].CollectionEntry? && entries[i].name == name;
      assert entries[i] in entries && Holds(sys, entries[i]) && Holds(sys', entries[i]);
    }
    assert sys.keys == sys'.keys && sys.collections == sys'.collections;
  }

  /* ---- the parser on what is written ---- */

  lemma CommaSkipped(comma: bool, rest: seq<Token>)
    requires rest != [] && !rest[0].Comma?
    ensures SkipComma(CommaIf(comma) + rest) == rest
  {
    assert CommaIf(comma) + rest == if comma then [Comma] + rest else rest;
  }

  lemma PartsFirst(parts: seq<Part>, tail: seq<Token>)
    requires parts != []
    ensures PartsTokens(parts) + tail
         == [if parts[0].TextPart? then Str(parts[0].text) else HexStr(parts[0].text)] + (CommaIf(parts[0].comma) + (PartsTokens(parts[1..]) + tail))
  {
  }

  lemma ValuesFirst(p: Part, more: seq<Token>)
    requires PartBytes(p).Some?
    ensures Values([if p.TextPart? then Str(p.text) else HexStr(p.text)] + more) == WithValue(PartBytes(p).value, Values(SkipComma(more)))
  {
    var t := if p.TextPart? then Str(p.text) else HexStr(p.text);
    assert ([t] + more)[0] == t && ([t] + more)[1..] == more;
  }

  lemma BlockFirst(parts: seq<Part>)
    requires PartsOk(parts) && parts != []
    ensures PartsOk(parts[1..]) && PartBytes(parts[0]).Some?
    ensures PartsBlock(parts) == [PartBytes(parts[0]).value] + PartsBlock(parts[1..])
  {
    assert parts[0] in parts;
    forall q | q in parts[1..] ensures q in parts {}
  }

  lemma {:induction false} PartsRead(parts: seq<Part>, rest: seq<Token>)
    requires PartsOk(parts)
    ensures Values(PartsTokens(parts) + ([CloseBrace] + rest)) == Some((PartsBlock(parts), rest))
  {
    var tail := [CloseBrace] + rest;
    if parts == [] {
      assert PartsTokens(parts) + tail == tail;
      assert PartsBlock(parts) == [];
    } else {
      hide PartsTokens, Values, PartBytes, CommaIf, PartsOk, PartsBlock;
      BlockFirst(parts);
      PartsRead(parts[1..], rest);
      PartsFirst(parts, tail);
      PartsStart(parts[1..], tail);
      CommaSkipped(parts[0].comma, PartsTokens(parts[1..]) + tail);
      ValuesFirst(parts[0], CommaIf(parts[0].comma) + (PartsTokens(parts[1..]) + tail));
    }
  }

  lemma PartsStart(parts: seq<Part>, tail: seq<Token>)
    requires tail != [] && !tail[0].Comma?
    ensures var ts := PartsTokens(parts) + tail; ts != [] && !ts[0].Comma?
  {
  }

  lemma BlockRead(parts: seq<Part>, rest: seq<Token>)
    requires PartsOk(parts)
    ensures KeyBlock(BlockTokens(parts) + rest) == Some((PartsBlock(parts), rest))
  {
    PartsRead(parts, rest);
    assert (BlockTokens(parts) + rest)[1..] == PartsTokens(parts) + ([CloseBrace] + rest);
  }

  lemma NamedRead(name: string, parts: seq<Part>, rest: seq<Token>)
    requires PartsOk(parts)
    ensures Named([Str(name), Colon] + (BlockTokens(parts) + rest)) == Some((name, PartsBlock(parts), rest))
  {
    BlockRead(parts, rest);
    assert ([Str(name), Colon] + (BlockTokens(parts) + rest))[2..] == BlockTokens(parts) + rest;
  }

  lemma ItemsFirst(items: seq<Item>, tail: seq<Token>)
    requires items != []
    ensures ItemsTokens(items) + tail
         == [Str(items[0].name), Colon] + (BlockTokens(items[0].parts) + (CommaIf(items[0].comma) + (ItemsTokens(items[1..]) + tail)))
  {
  }

  lemma ListFirst(items: seq<Item>)
    requires ItemsOk(items) && items != []
    ensures ItemsOk(items[1..]) && PartsOk(items[0].parts)
    ensures ItemsList(items) == [(items[0].name, PartsBlock(items[0].parts))] + ItemsList(items[1..])
  {
    assert items[0] in items;
    forall q | q in items[1..] ensures q in items {}
  }

  lemma ItemsStep(ts: seq<Token>, name: string, b: Block, more: seq<Token>)
    requires ts != [] && ts[0].Str? && Named(ts) == Some((name, b, more))
    ensures Items(ts) == if Items(SkipComma(more)).None? then None
                         else Some(([(name, b)] + Items(SkipComma(more)).value.0, Items(SkipComma(more)).value.1))
  {
  }

  lemma {:induction false} ItemsRead(items: seq<Item>, rest: seq<Token>)
    requires ItemsOk(items)
    ensures Items(ItemsTokens(items) + ([CloseBrace] + rest)) == Some((ItemsList(items), rest))
  {
    var tail := [CloseBrace] + rest;
    if items == [] {
      assert ItemsTokens(items) + tail == tail;
      assert ItemsList(items) == [];
    } else {
      hide Named, BlockTokens, ItemsTokens, Items, ItemsOk, ItemsList, CommaIf, PartsBlock, PartsOk;
      var item, more := items[0], ItemsTokens(items[1..]) + tail;
      ListFirst(items);
      ItemsRead(items[1..], rest);
      ItemsFirst(items, tail);
      NamedRead(item.name, item.parts, CommaIf(item.comma) + more);
      ItemsStep(ItemsTokens(items) + tail, item.name, PartsBlock(item.parts), CommaIf(item.comma) + more);
      ItemsStart(items[1..], tail);
      CommaSkipped(item.comma, more);
    }
  }

  lemma ItemsStart(items: seq<Item>, tail: seq<Token>)
    requires tail != [] && !tail[0].Comma?
    ensures var ts := ItemsTokens(items) + tail; ts != [] && !ts[0].Comma?
  {
  }

  /** One entry added to a system. */
  function Added(sys: KeySystem, e: Entry): Option<KeySystem>
    requires EntryOk(e)
  {
    match e
    case KeyEntry(name, parts) => WithKey(sys, name, PartsBlock(parts))
    case CollectionEntry(name, items) => WithCollection(sys, name, ItemsList(items))
  }

  lemma KeyHead(name: string, b: seq<Token>, rest: seq<Token>)
    ensures var ts := ([Key, Str(name), Colon] + b) + rest;
            ts != [] && ts[0] == Key && ts[1..] == [Str(name), Colon] + (b + rest)
  {
  }

  lemma CollectionHead(name: string, items: seq<Token>, rest: seq<Token>)
    ensures var ts := ([Collection, Str(name), Colon, OpenBrace] + (items + [CloseBrace])) + rest;
            && |ts| >= 4 && ts[0] == Collection && ts[1] == Str(name) && ts[2] == Colon && ts[3] == OpenBrace
            && ts[4..] == items + ([CloseBrace] + rest)
  {
  }

  lemma EntryRead(e: Entry, rest: seq<Token>, sys: KeySystem)
    requires EntryOk(e)
    ensures EntryTokens(e) + rest != []
    ensures OneEntry(EntryTokens(e) + rest, sys) == if Added(sys, e).None? then None else Some((Added(sys, e).value, rest))
  {
    hide Named, Items, BlockTokens, PartsBlock, ItemsList, ItemsTokens, PartsOk, ItemsOk, WithKey, WithCollection;
    match e
    case KeyEntry(name, parts) =>
      NamedRead(name, parts, rest);
      KeyHead(name, BlockTokens(parts), rest);
    case CollectionEntry(name, items) =>
      ItemsRead(items, rest);
      CollectionHead(name, ItemsTokens(items), rest);
  }

  /** What a system that describes the first entries makes of the next ones: the system of
  all of them, or nothing when a name comes twice. */
  lemma {:induction false} EntriesRead(entries: seq<Entry>, k: nat, sys: KeySystem)
    requires k <= |entries| && EntriesOk(entries) && EntriesOk(entries[..k]) && Describes(entries[..k], sys)
    requires DistinctNames(entries[..k])
    ensures var r := ParseFrom(EntriesTokens(entries[k..]), sys);
            if DistinctNames(entries) then r.Some? && Describes(entries, r.value) else r == None
    decreases |entries| - k
  {
    if k == |entries| {
      assert entries[..k] == entries && entries[k..] == [];
    } else {
      var e, rest := entries[k], EntriesTokens(entries[k..][1..]);
      assert e in entries && entries[k..][0] == e && entries[k..][1..] == entries[k + 1..];
      EntryRead(e, rest, sys);
      if Added(sys, e).None? {
        Collides(entries, k, sys);
      } else {
        assert EntriesOk(entries[..k + 1]) by { forall q | q in entries[..k + 1] ensures q in entries {} }
        Extended(entries, k, sys, Added(sys, e).value);
        EntriesRead(entries, k + 1, Added(sys, e).value);
      }
    }
  }

  lemma Collides(entries: seq<Entry>, k: nat, sys: KeySystem)
    requires k < |entries| && EntriesOk(entries) && EntriesOk(entries[..k]) && Describes(entries[..k], sys)
    requires entries[k] in entries && Added(sys, entries[k]).None?
    ensures !DistinctNames(entries)
  {
    hide PartsBlock, ItemsList;
    var e := entries[k];
    if e.KeyEntry? {
      var i :| 0 <= i < k && entries[..k][i].KeyEntry? && entries[..k][i].name == e.name;
      assert Clash(entries[i], entries[k]);
    } else {
      var i :| 0 <= i < k && entries[..k][i].CollectionEntry? && entries[..k][i].name == e.name;
      assert Clash(entries[i], entries[k]);
    }
  }

  lemma Extended(entries: seq<Entry>, k: nat, sys: KeySystem, sys': KeySystem)
    requires k < |entries| && EntriesOk(entries) && EntriesOk(entries[..k]) && EntriesOk(entries[..k + 1])
    requires Describes(entries[..k], sys) && DistinctNames(entries[..k])
    requires entries[k] in entries && Added(sys, entries[k]) == Some(sys')
    ensures Describes(entries[..k + 1], sys') && DistinctNames(entries[..k + 1])
  {
    assert entries[..k + 1] == entries[..k] + [entries[k]];
    HoldsMore(entries[..k], entries[k], sys, sys');
    NamesMore(entries[..k], entries[k], sys, sys');
  }

  lemma HoldsMore(a: seq<Entry>, e: Entry, sys: KeySystem, sys': KeySystem)
    requires EntriesOk(a) && EntryOk(e) && EntriesOk(a + [e]) && Describes(a, sys) && DistinctNames(a) && Added(sys, e) == Some(sys')
    ensures forall i :: 0 <= i < |a + [e]| ==> (a + [e])[i] in a + [e] && Holds(sys', (a + [e])[i])
    ensures DistinctNames(a + [e])
  {
    hide PartsBlock, ItemsList, PartsOk, ItemsOk;
    forall i | 0 <= i < |a| ensures Holds(sys', a[i]) && !Clash(a[i], e) {
      assert a[i] in a && Holds(sys, a[i]);
    }
  }

  lemma NamesMore(a: seq<Entry>, e: Entry, sys: KeySystem, sys': KeySystem)
    requires EntriesOk(a) && EntryOk(e) && Describes(a, sys) && Added(sys, e) == Some(sys')
    ensures forall name :: name in sys'.keys ==> HasKeyEntry(a + [e], name)
    ensures forall name :: name in sys'.collections ==> HasCollectionEntry(a + [e], name)
  {
    hide PartsBlock, ItemsList, PartsOk, ItemsOk;
    var b := a + [e];
    assert b[|a|] == e;
    forall name | name in sys'.keys ensures HasKeyEntry(b, name) {
      if name in sys.keys {
        var i :| 0 <= i < |a| && a[i].KeyEntry? && a[i].name == name;
        assert b[i] == a[i];
      }
    }
    forall name | name in sys'.collections ensures HasCollectionEntry(b, name) {
      if name in sys.collections {
        var i :| 0 <= i < |a| && a[i].CollectionEntry? && a[i].name == name;
        assert b[i] == a[i];
      }
    }
  }

  /* ---- files ---- */

  /** KeySystem::init. */
  function Read(u: Unicode, input: string): Option<KeySystem> {
    var tokens := Lex(u, input);
    if tokens.None? then None else ParseFrom(tokens.value, EMPTY)
  }

  method Init(u: Unicode, input: string) returns (sys: Option<KeySystem>)
    ensures sys == Read(u, input)
  {
    var lexer := new Lexer(u, input);
    var tokens := lexer.Tokenize();
    if tokens.None? {
      return None;
    }
    var parser := new Parser(tokens.value);
    assert parser.Rest() == tokens.value;
    sys := parser.Parse();
  }

  /** Words stand before quoted names only, so any gap will do. */
  ghost predicate WordsSafe(ts: seq<Token>) {
    forall i :: 0 <= i < |ts| && IsWord(ts[i]) ==> i + 1 < |ts| && ts[i + 1].Str?
  }

  lemma SafePlus(a: seq<Token>, b: seq<Token>)
    requires WordsSafe(a) && WordsSafe(b)
    ensures WordsSafe(a + b)
  {
  }

  lemma {:induction false} PartsSafe(parts: seq<Part>)
    ensures WordsSafe(PartsTokens(parts))
  {
    if parts != [] {
      PartsSafe(parts[1..]);
      SafePlus(PartTokens(parts[0]), PartsTokens(parts[1..]));
    }
  }

  lemma {:induction false} ItemsSafe(items: seq<Item>)
    ensures WordsSafe(ItemsTokens(items))
  {
    if items != [] {
      PartsSafe(items[0].parts);
      ItemsSafe(items[1..]);
      SafePlus(ItemTokens(items[0]), ItemsTokens(items[1..]));
    }
  }

  lemma {:induction false} EntriesSafe(entries: seq<Entry>)
    ensures WordsSafe(EntriesTokens(entries))
  {
    if entries != [] {
      match entries[0] {
        case KeyEntry(_, parts) => PartsSafe(parts);
        case CollectionEntry(_, items) => ItemsSafe(items);
      }
      EntriesSafe(entries[1..]);
      SafePlus(EntryTokens(entries[0]), EntriesTokens(entries[1..]));
    }
  }

  /** A file: the tokens of the entries, with whatever gaps, quotation marks only around texts. */
  ghost predicate Spells(parts: seq<(string, Token)>, last: string, entries: seq<Entry>) {
    && TokensOf(parts) == EntriesTokens(entries) && EndGap(last)
    && forall i :: 0 <= i < |parts| ==> Gap(parts[i].0) && TokenOk(parts[i].1)
  }

  lemma SpellingLexed(u: Unicode, parts: seq<(string, Token)>, last: string, entries: seq<Entry>)
    requires UnicodeOk(u) && Spells(parts, last, entries)
    ensures Lex(u, Render(parts, last)) == Some(EntriesTokens(entries))
  {
    EntriesSafe(entries);
    forall i | 0 < i < |parts| && IsWord(parts[i - 1].1) ensures parts[i].1.Str? {
      assert TokensOf(parts)[i - 1] == parts[i - 1].1 && TokensOf(parts)[i] == parts[i].1;
    }
    RenderRead(u, parts, last);
  }

  /** Every spelling of a key system is read back as exactly that system. */
  lemma RoundTrip(u: Unicode, parts: seq<(string, Token)>, last: string, entries: seq<Entry>, sys: KeySystem)
    requires UnicodeOk(u) && Spells(parts, last, entries)
    requires EntriesOk(entries) && DistinctNames(entries) && Describes(entries, sys)
    ensures Read(u, Render(parts, last)) == Some(sys)
  {
    SpellingLexed(u, parts, last, entries);
    assert entries[..0] == [] && entries[0..] == entries;
    EntriesRead(entries, 0, EMPTY);
    DescribesOne(entries, sys, ParseFrom(EntriesTokens(entries), EMPTY).value);
  }

  /** A key or collection name that comes twice is refused in every spelling. */
  lemma DuplicatesRefused(u: Unicode, parts: seq<(string, Token)>, last: string, entries: seq<Entry>)
    requires UnicodeOk(u) && Spells(parts, last, entries) && EntriesOk(entries) && !DistinctNames(entries)
    ensures Read(u, Render(parts, last)) == None
  {
    SpellingLexed(u, parts, last, entries);
    assert entries[..0] == [] && entries[0..] == entries;
    EntriesRead(entries, 0, EMPTY);
  }

  /* ---- any bytes can be written ---- */

  function HexChar(n: nat): char
    requires n < 16
  {
    if n < 10 then '0' + n as char else 'a' + (n - 10) as char
  }

  function HexText(b: Bytes): string {
    if b == [] then [] else [HexChar(b[0] / 16), HexChar(b[0] % 16)] + HexText(b[1..])
  }

  /** Bytes written as hex digits, with whitespace anywhere, are read back. */
  lemma {:induction false} HexRoundTrip(b: Bytes, text: string)
    requires NoSpaces(text) == HexText(b)
    ensures HexBytes(text) == Some(b)
  {
    HexDecoded(b);
  }

  lemma {:induction false} HexDecoded(b: Bytes)
    ensures HexDecode(HexText(b)) == Some(b)
  {
    if b != [] {
      HexDecoded(b[1..]);
      assert HexText(b)[2..] == HexText(b[1..]);
      assert b == [b[0]] + b[1..];
    }
  }
}
