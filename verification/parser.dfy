/** Key systems parsed from UKF tokens (extractor/unixtract/src/ukf.rs). */
module UkfParser {
  import opened Octets
  import opened Options
  import opened TextCoding
  import opened UkfLexer

  type Block = seq<Bytes>

  /** Keys, and collections of named keys. */
  datatype KeySystem = KeySystem(keys: map<string, Block>, collections: map<string, seq<(string, Block)>>)

  const EMPTY := KeySystem(map[], map[])

  /* ---- values ---- */

  function HexDigit(c: char): Option<nat> {
    if '0' <= c <= '9' then Some(c as int - '0' as int)
    else if 'a' <= c <= 'f' then Some(c as int - 'a' as int + 10)
    else if 'A' <= c <= 'F' then Some(c as int - 'A' as int + 10)
    else None
  }

  /** hex::decode. */
  function HexDecode(s: string): Option<Bytes> {
    if s == [] then Some([])
    else if |s| == 1 then None
    else
      var (hi, lo, rest) := (HexDigit(s[0]), HexDigit(s[1]), HexDecode(s[2..]));
      if hi.None? || lo.None? || rest.None? then None else Some([hi.value * 16 + lo.value] + rest.value)
  }

  /** The filter of parse_key_block. */
  function NoSpaces(s: string): string {
    if s == [] then [] else if Whitespace(s[0]) then NoSpaces(s[1..]) else [s[0]] + NoSpaces(s[1..])
  }

  function HexBytes(s: string): Option<Bytes> {
    HexDecode(NoSpaces(s))
  }

  /* ---- what the parser computes, on the rest of the tokens ---- */

  function SkipComma(ts: seq<Token>): (r: seq<Token>)
    ensures |r| <= |ts|
  {
    if ts != [] && ts[0].Comma? then ts[1..] else ts
  }

  function WithValue(b: Bytes, r: Option<(Block, seq<Token>)>): Option<(Block, seq<Token>)> {
    if r.None? then None else Some(([b] + r.value.0, r.value.1))
  }

  /** The values of a key block behind its opening brace, and the tokens behind its closing one. */
  function Values(ts: seq<Token>): (r: Option<(Block, seq<Token>)>)
    ensures r.Some? ==> |r.value.1| < |ts|
    decreases |ts|
  {
    if ts == [] then None
    else match ts[0]
      case CloseBrace => Some(([], ts[1..]))
      case Str(s) => WithValue(TextBytes(s), Values(SkipComma(ts[1..])))
      case HexStr(s) =>
        var bytes := HexBytes(s);
        if bytes.None? then None else WithValue(bytes.value, Values(SkipComma(ts[1..])))
      case _ => None
  }

  function KeyBlock(ts: seq<Token>): (r: Option<(Block, seq<Token>)>)
    ensures r.Some? ==> |r.value.1| < |ts|
  {
    if ts != [] && ts[0].OpenBrace? then Values(ts[1..]) else None
  }

  /** A name, a colon and a key block. */
  function Named(ts: seq<Token>): (r: Option<(string, Block, seq<Token>)>)
    ensures r.Some? ==> |r.value.2| < |ts|
  {
    if |ts| < 2 || !ts[0].Str? || !ts[1].Colon? then None
    else
      var b := KeyBlock(ts[2..]);
      if b.None? then None else Some((ts[0].text, b.value.0, b.value.1))
  }

  /** The entries of a collection behind its opening brace. */
  function Items(ts: seq<Token>): (r: Option<(seq<(string, Block)>, seq<Token>)>)
    ensures r.Some? ==> |r.value.1| < |ts|
    decreases |ts|
  {
    if ts == [] then None
    else if ts[0].CloseBrace? then Some(([], ts[1..]))
    else
      var item := Named(ts);
      if item.None? then None
      else
        var more := Items(SkipComma(item.value.2));
        if more.None? then None else Some(([(item.value.0, item.value.1)] + more.value.0, more.value.1))
  }

  function WithKey(sys: KeySystem, name: string, b: Block): Option<KeySystem> {
    if name in sys.keys then None else Some(sys.(keys := sys.keys[name := b]))
  }

  function WithCollection(sys: KeySystem, name: string, items: seq<(string, Block)>): Option<KeySystem> {
    if name in sys.collections then None else Some(sys.(collections := sys.collections[name := items]))
  }

  /** One entry of the file added to what was read before it. */
  function OneEntry(ts: seq<Token>, sys: KeySystem): (r: Option<(KeySystem, seq<Token>)>)
    requires ts != []
    ensures r.Some? ==> |r.value.1| < |ts|
  {
    match ts[0]
    case Key =>
      var named := Named(ts[1..]);
      if named.None? then None
      else
        var sys' := WithKey(sys, named.value.0, named.value.1);
        if sys'.None? then None else Some((sys'.value, named.value.2))
    case Collection =>
      if |ts| < 4 || !ts[1].Str? || !ts[2].Colon? || !ts[3].OpenBrace? then None
      else
        var items := Items(ts[4..]);
        if items.None? then None
        else
          var sys' := WithCollection(sys, ts[1].text, items.value.0);
          if sys'.None? then None else Some((sys'.value, items.value.1))
    case _ => None
  }

  function ParseFrom(ts: seq<Token>, sys: KeySystem): Option<KeySystem>
    decreases |ts|
  {
    if ts == [] then Some(sys)
    else
      var one := OneEntry(ts, sys);
      if one.None? then None else ParseFrom(one.value.1, one.value.0)
  }

  /* ---- the parser ---- */

  class Parser {
    const tokens: seq<Token>
    var pos: nat

    /** The position may run past the end, when a token is expected there. */
    ghost function Rest(): (r: seq<Token>)
      reads this
    {
      if pos <= |tokens| then tokens[pos..] else []
    }

    constructor (tokens: seq<Token>)
      ensures this.tokens == tokens && pos == 0
    {
      this.tokens, pos := tokens, 0;
    }

    method Peek() returns (t: Option<Token>)
      ensures t == if Rest() == [] then None else Some(Rest()[0])
    {
      t := if pos < |tokens| then Some(tokens[pos]) else None;
    }

    method Advance() returns (t: Option<Token>)
      modifies this
      ensures t == if old(Rest()) == [] then None else Some(old(Rest())[0])
      ensures Rest() == if old(Rest()) == [] then [] else old(Rest())[1..]
      ensures pos == old(pos) + 1
    {
      t := Peek();
      pos := pos + 1;
    }

    method ExpectNext(expected: Token) returns (ok: bool)
      modifies this
      ensures ok <==> old(Rest()) != [] && old(Rest())[0] == expected
      ensures ok ==> Rest() == old(Rest())[1..]
    {
      var t := Advance();
      ok := t == Some(expected);
    }

    method ExpectStr() returns (text: Option<string>)
      modifies this
      ensures text.Some? <==> old(Rest()) != [] && old(Rest())[0].Str?
      ensures text.Some? ==> text.value == old(Rest())[0].text && Rest() == old(Rest())[1..]
    {
      var t := Advance();
      text := if t.Some? && t.value.Str? then Some(t.value.text) else None;
    }

    method ExpectHexStr() returns (text: Option<string>)
      modifies this
      ensures text.Some? <==> old(Rest()) != [] && old(Rest())[0].HexStr?
      ensures text.Some? ==> text.value == old(Rest())[0].text && Rest() == old(Rest())[1..]
    {
      var t := Advance();
      text := if t.Some? && t.value.HexStr? then Some(t.value.text) else None;
    }

    method OptionalComma()
      modifies this
      ensures Rest() == SkipComma(old(Rest()))
    {
      var t := Peek();
      if t == Some(Comma) {
        t := Advance();
      }
    }

    method ParseKeyBlock() returns (keys: Option<Block>)
      modifies this
      ensures var r := KeyBlock(old(Rest()));
              if r.None? then keys == None else keys == Some(r.value.0) && Rest() == r.value.1
    {
      var ok := ExpectNext(OpenBrace);
      if !ok {
        return None;
      }
      ghost var ts := Rest();
      var found := [];
      BeforeNothing(Values(ts));
      while true
        invariant Values(ts) == Before(found, Values(Rest()))
        decreases |Rest()|
      {
        ghost var before := Rest();
        var t := Peek();
        match t
        case None =>
          return None;
        case Some(CloseBrace) =>
          t := Advance();
          assert found + [] == found;
          return Some(found);
        case Some(Str(_)) =>
          var s := ExpectStr();
          BeforeMore(found, TextBytes(s.value), Values(SkipComma(before[1..])));
          found := found + [TextBytes(s.value)];
          OptionalComma();
        case Some(HexStr(_)) =>
          var s := ExpectHexStr();
          var bytes := HexBytes(s.value);
          if bytes.None? {
            return None;
          }
          BeforeMore(found, bytes.value, Values(SkipComma(before[1..])));
          found := found + [bytes.value];
          OptionalComma();
        case _ =>
          return None;
      }
    }

    method ParseItems() returns (entries: Option<seq<(string, Block)>>)
      modifies this
      ensures var r := Items(old(Rest()));
              if r.None? then entries == None else entries == Some(r.value.0) && Rest() == r.value.1
    {
      hide KeyBlock;
      ghost var ts := Rest();
      var found := [];
      AheadNothing(Items(ts));
      while true
        invariant Items(ts) == Ahead(found, Items(Rest()))
        decreases |Rest()|
      {
        ghost var before := Rest();
        var t := Peek();
        match t
        case None =>
          return None;
        case Some(CloseBrace) =>
          t := Advance();
          assert found + [] == found;
          return Some(found);
        case Some(Str(_)) =>
          var name := ExpectStr();
          var ok := ExpectNext(Colon);
          if !ok {
            return None;
          }
          assert Rest() == before[2..];
          var keys := ParseKeyBlock();
          if keys.None? {
            return None;
          }
          AheadMore(found, (name.value, keys.value), Items(SkipComma(Rest())));
          found := found + [(name.value, keys.value)];
          OptionalComma();
        case _ =>
          return None;
      }
    }

    method Parse() returns (system: Option<KeySystem>)
      modifies this
      ensures system == ParseFrom(old(Rest()), EMPTY)
    {
      hide KeyBlock, Items;
      var sys := EMPTY;
      ghost var ts := Rest();
      var t := Peek();
      while t.Some?
        invariant ParseFrom(ts, EMPTY) == ParseFrom(Rest(), sys)
        invariant t == if Rest() == [] then None else Some(Rest()[0])
        decreases |Rest()|
      {
        ghost var before := Rest();
        if t.value.Key? {
          t := Advance();
          var name := ExpectStr();
          if name.None? {
            return None;
          }
          var ok := ExpectNext(Colon);
          if !ok {
            return None;
          }
          assert Rest() == before[1..][2..];
          var keys := ParseKeyBlock();
          if keys.None? {
            return None;
          }
          var sys' := WithKey(sys, name.value, keys.value);
          if sys'.None? {
            return None;
          }
          sys := sys'.value;
        } else if t.value.Collection? {
          t := Advance();
          var name := ExpectStr();
          if name.None? {
            return None;
          }
          var ok := ExpectNext(Colon);
          if !ok {
            return None;
          }
          ok := ExpectNext(OpenBrace);
          if !ok {
            return None;
          }
          assert Rest() == before[4..];
          var entries := ParseItems();
          if entries.None? {
            return None;
          }
          var sys' := WithCollection(sys, name.value, entries.value);
          if sys'.None? {
            return None;
          }
          sys := sys'.value;
        } else {
          return None;
        }
        t := Peek();
      }
      return Some(sys);
    }
  }

  function Before(found: Block, r: Option<(Block, seq<Token>)>): Option<(Block, seq<Token>)> {
    if r.None? then None else Some((found + r.value.0, r.value.1))
  }

  lemma BeforeNothing(r: Option<(Block, seq<Token>)>)
    ensures Before([], r) == r
  {
    if r.Some? {
      assert [] + r.value.0 == r.value.0;
    }
  }

  lemma BeforeMore(found: Block, b: Bytes, r: Option<(Block, seq<Token>)>)
    ensures Before(found + [b], r) == Before(found, WithValue(b, r))
  {
    if r.Some? {
      assert (found + [b]) + r.value.0 == found + ([b] + r.value.0);
    }
  }

  function Ahead(found: seq<(string, Block)>, r: Option<(seq<(string, Block)>, seq<Token>)>): Option<(seq<(string, Block)>, seq<Token>)> {
    if r.None? then None else Some((found + r.value.0, r.value.1))
  }

  lemma AheadNothing(r: Option<(seq<(string, Block)>, seq<Token>)>)
    ensures Ahead([], r) == r
  {
    if r.Some? {
      assert [] + r.value.0 == r.value.0;
    }
  }

  lemma AheadMore(found: seq<(string, Block)>, item: (string, Block), r: Option<(seq<(string, Block)>, seq<Token>)>)
    ensures Ahead(found + [item], r) == Ahead(found, if r.None? then None else Some(([item] + r.value.0, r.value.1)))
  {
    if r.Some? {
      assert (found + [item]) + r.value.0 == found + ([item] + r.value.0);
    }
  }
}
