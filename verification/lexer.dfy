/** Tokens of the UKF key file format (extractor/unixtract/src/ukf.rs). */
module UkfLexer {
  import opened Options

  datatype Token =
    | Key
    | Collection
    | HexStr(text: string)
    | Str(text: string)
    | Colon
    | Comma
    | OpenBrace
    | CloseBrace

  /** The character classes of the Unicode standard, as char::is_alphabetic and
  char::is_alphanumeric tell them. */
  datatype Unicode = Unicode(alphabetic: char -> bool, alphanumeric: char -> bool)

  predicate AsciiLetter(c: char) {
    'a' <= c <= 'z' || 'A' <= c <= 'Z'
  }

  ghost predicate UnicodeOk(u: Unicode) {
    && (forall c :: c < 128 as char ==> (u.alphabetic(c) <==> AsciiLetter(c)))
    && (forall c :: c < 128 as char ==> (u.alphanumeric(c) <==> AsciiLetter(c) || '0' <= c <= '9'))
    && (forall c :: Whitespace(c) ==> !u.alphanumeric(c))
  }

  /** char::is_whitespace. */
  predicate Whitespace(c: char) {
    var n := c as int;
    || 9 <= n <= 13 || n == 0x20 || n == 0x85 || n == 0xA0 || n == 0x1680 || 0x2000 <= n <= 0x200A
    || n == 0x2028 || n == 0x2029 || n == 0x202F || n == 0x205F || n == 0x3000
  }

  /* ---- what the lexer computes, on the rest of the input ---- */

  function SkipLine(s: string): (r: string)
    ensures |r| <= |s| && (s != [] && s[0] != '\n' ==> |r| < |s|)
  {
    if s != [] && s[0] != '\n' then SkipLine(s[1..]) else s
  }

  /** Whitespace and comments skipped. */
  function SkipGap(s: string): (r: string)
    ensures |r| <= |s|
    decreases |s|
  {
    if s == [] then s
    else if s[0] == '#' then SkipGap(SkipLine(s))
    else if Whitespace(s[0]) then SkipGap(s[1..])
    else s
  }

  /** Text read before what `r` reads. */
  function Behind(text: string, r: Option<(string, string)>): Option<(string, string)> {
    if r.None? then None else Some((text + r.value.0, r.value.1))
  }

  lemma BehindNothing(r: Option<(string, string)>)
    ensures Behind("", r) == r
  {
    if r.Some? {
      assert "" + r.value.0 == r.value.0;
    }
  }

  lemma BehindMore(text: string, c: char, r: Option<(string, string)>)
    ensures Behind(text + [c], r) == Behind(text, Behind([c], r))
  {
    if r.Some? {
      assert (text + [c]) + r.value.0 == text + ([c] + r.value.0);
    }
  }

  /** The text up to the closing quotation mark, and what follows it. */
  function StringOf(s: string): (r: Option<(string, string)>)
    ensures r.Some? ==> |r.value.1| < |s|
  {
    if s == [] then None
    else if s[0] == '"' then Some(("", s[1..]))
    else
      Behind([s[0]], StringOf(s[1..]))
  }

  function WordChar(u: Unicode, c: char): bool {
    u.alphanumeric(c) || c == '_'
  }

  function WordOf(u: Unicode, s: string): (r: (string, string))
    ensures |r.1| <= |s| && r.0 + r.1 == s
  {
    if s != [] && WordChar(u, s[0]) then
      var r := WordOf(u, s[1..]);
      ([s[0]] + r.0, r.1)
    else ("", s)
  }

  function WordToken(word: string): Option<Token> {
    if word == "key" then Some(Key) else if word == "collection" then Some(Collection) else None
  }

  /** The first token of a text that does not start with a gap, and what follows it. */
  function LexOne(u: Unicode, s: string): (r: Option<(Token, string)>)
    requires s != []
    ensures r.Some? ==> |r.value.1| < |s|
  {
    if s[0] == ':' then Some((Colon, s[1..]))
    else if s[0] == ',' then Some((Comma, s[1..]))
    else if s[0] == '{' then Some((OpenBrace, s[1..]))
    else if s[0] == '}' then Some((CloseBrace, s[1..]))
    else if s[0] == 'x' then
      if |s| < 2 || s[1] != '"' then None
      else
        var r := StringOf(s[2..]);
        if r.None? then None else Some((HexStr(r.value.0), r.value.1))
    else if s[0] == '"' then
      var r := StringOf(s[1..]);
      if r.None? then None else Some((Str(r.value.0), r.value.1))
    else if u.alphabetic(s[0]) || s[0] == '_' then
      var r := WordOf(u, s);
      var t := WordToken(r.0);
      if t.None? then None else Some((t.value, r.1))
    else None
  }

  function Lex(u: Unicode, s: string): Option<seq<Token>>
    decreases |s|
  {
    var r := SkipGap(s);
    if r == [] then Some([])
    else
      var one := LexOne(u, r);
      if one.None? then None
      else
        var more := Lex(u, one.value.1);
        if more.None? then None else Some([one.value.0] + more.value)
  }

  /** Tokens read before what `more` reads. */
  function After(tokens: seq<Token>, more: Option<seq<Token>>): Option<seq<Token>> {
    if more.None? then None else Some(tokens + more.value)
  }

  lemma AfterNothing(more: Option<seq<Token>>)
    ensures After([], more) == more
  {
    if more.Some? {
      assert [] + more.value == more.value;
    }
  }

  lemma AfterMore(tokens: seq<Token>, t: Token, more: Option<seq<Token>>)
    ensures After(tokens + [t], more) == After(tokens, After([t], more))
  {
    if more.Some? {
      assert (tokens + [t]) + more.value == tokens + ([t] + more.value);
    }
  }

  lemma LexStep(u: Unicode, s: string)
    ensures var r := SkipGap(s);
            Lex(u, s) == if r == [] then Some([])
                         else if LexOne(u, r).None? then None
                         else After([LexOne(u, r).value.0], Lex(u, LexOne(u, r).value.1))
  {
  }

  /* ---- texts that spell given tokens ---- */

  /** Whitespace and comments, each comment ended by a newline. */
  predicate Gap(g: string)
    decreases |g|
  {
    || g == []
    || (g[0] == '#' && SkipLine(g) != [] && Gap(SkipLine(g)[1..]))
    || (Whitespace(g[0]) && Gap(g[1..]))
  }

  /** The same at the end of a file, where a comment need not be ended. */
  predicate EndGap(g: string)
    decreases |g|
  {
    || g == []
    || (g[0] == '#' && (SkipLine(g) == [] || EndGap(SkipLine(g)[1..])))
    || (Whitespace(g[0]) && EndGap(g[1..]))
  }

  function Text(t: Token): string {
    match t
    case Key => "key"
    case Collection => "collection"
    case HexStr(text) => "x\"" + text + "\""
    case Str(text) => "\"" + text + "\""
    case Colon => ":"
    case Comma => ","
    case OpenBrace => "{"
    case CloseBrace => "}"
  }

  predicate QuoteFree(s: string) {
    '"' !in s
  }

  predicate TokenOk(t: Token) {
    t.HexStr? || t.Str? ==> QuoteFree(t.text)
  }

  predicate IsWord(t: Token) {
    t.Key? || t.Collection?
  }

  /** Each token behind its gap, and a gap at the end. */
  function Render(parts: seq<(string, Token)>, last: string): string {
    if parts == [] then last else parts[0].0 + (Text(parts[0].1) + Render(parts[1..], last))
  }

  function TokensOf(parts: seq<(string, Token)>): (tokens: seq<Token>)
    ensures |tokens| == |parts|
  {
    seq(|parts|, i requires 0 <= i < |parts| => parts[i].1)
  }

  /** Gaps between tokens; a word needs one before letters that would run into it. */
  ghost predicate GapsOk(parts: seq<(string, Token)>) {
    && (forall i :: 0 <= i < |parts| ==> Gap(parts[i].0) && TokenOk(parts[i].1))
    && (forall i :: 0 < i < |parts| && IsWord(parts[i - 1].1) && parts[i].0 == "" ==> !IsWord(parts[i].1) && !parts[i].1.HexStr?)
  }

  lemma {:induction false} LineSkipped(g: string, s: string)
    requires SkipLine(g) != []
    ensures SkipLine(g + s) == SkipLine(g) + s
  {
    if g[0] != '\n' {
      LineSkipped(g[1..], s);
      assert (g + s)[1..] == g[1..] + s;
    }
  }

  lemma {:induction false} GapSkipped(g: string, s: string)
    requires Gap(g) && (s == [] || !(s[0] == '#' || Whitespace(s[0])))
    ensures SkipGap(g + s) == s
    decreases |g|
  {
    if g == [] {
      assert g + s == s;
    } else if g[0] == '#' {
      LineSkipped(g, s);
      var r := SkipLine(g);
      LineStopsAtNewline(g);
      assert SkipLine(g + s)[1..] == r[1..] + s;
      GapSkipped(r[1..], s);
    } else {
      assert (g + s)[1..] == g[1..] + s;
      GapSkipped(g[1..], s);
    }
  }

  lemma {:induction false} EndSkipped(g: string)
    requires EndGap(g)
    ensures SkipGap(g) == []
    decreases |g|
  {
    if g != [] {
      if g[0] == '#' {
        if SkipLine(g) != [] {
          LineStopsAtNewline(g);
          EndSkipped(SkipLine(g)[1..]);
        }
      } else {
        EndSkipped(g[1..]);
      }
    }
  }

  lemma {:induction false} LineStopsAtNewline(g: string)
    requires SkipLine(g) != []
    ensures SkipLine(g)[0] == '\n'
  {
    if g[0] != '\n' {
      LineStopsAtNewline(g[1..]);
    }
  }

  lemma {:induction false} StringRead(text: string, s: string)
    requires QuoteFree(text)
    ensures StringOf(text + "\"" + s) == Some((text, s))
  {
    var all := text + "\"" + s;
    if text == [] {
      assert all[0] == '"' && all[1..] == s;
    } else {
      assert all[1..] == text[1..] + "\"" + s;
      assert text[0] in text && text == [text[0]] + text[1..];
      forall c | c in text[1..] ensures c in text {}
      StringRead(text[1..], s);
    }
  }

  lemma {:induction false} WordRead(u: Unicode, word: string, s: string)
    requires (forall c :: c in word ==> WordChar(u, c)) && (s == [] || !WordChar(u, s[0]))
    ensures WordOf(u, word + s) == (word, s)
  {
    if word == [] {
      assert word + s == s;
    } else {
      assert (word + s)[1..] == word[1..] + s && word[0] in word && word == [word[0]] + word[1..];
      forall c | c in word[1..] ensures c in word {}
      WordRead(u, word[1..], s);
    }
  }

  /** The text of a token is read back as that token. */
  lemma TokenRead(u: Unicode, t: Token, s: string)
    requires UnicodeOk(u) && TokenOk(t) && (IsWord(t) ==> s == [] || !WordChar(u, s[0]))
    ensures Text(t) + s != [] && LexOne(u, Text(t) + s) == Some((t, s))
  {
    hide StringOf, WordOf;
    var all := Text(t) + s;
    match t
    case Key =>
      WordRead(u, "key", s);
    case Collection =>
      WordRead(u, "collection", s);
    case HexStr(text) =>
      assert all[2..] == text + "\"" + s;
      StringRead(text, s);
    case Str(text) =>
      assert all[1..] == text + "\"" + s;
      StringRead(text, s);
    case _ =>
      assert all[1..] == s;
  }

  lemma TokenStart(u: Unicode, t: Token, s: string)
    requires UnicodeOk(u)
    ensures var c := (Text(t) + s)[0];
            && c != '#' && !Whitespace(c)
            && (WordChar(u, c) ==> IsWord(t) || t.HexStr?)
  {
    assert (Text(t) + s)[0] == Text(t)[0];
  }

  lemma GapStart(u: Unicode, g: string)
    requires UnicodeOk(u) && (Gap(g) || EndGap(g)) && g != []
    ensures !WordChar(u, g[0])
  {
  }

  /** Every spelling of a token sequence, with whatever whitespace and comments, is lexed
  back to it. */
  lemma {:induction false} RenderRead(u: Unicode, parts: seq<(string, Token)>, last: string)
    requires UnicodeOk(u) && GapsOk(parts) && EndGap(last)
    ensures Lex(u, Render(parts, last)) == Some(TokensOf(parts))
  {
    if parts == [] {
      EndSkipped(last);
    } else {
      var t, rest := parts[0].1, Render(parts[1..], last);
      hide LexOne, Gap, EndGap, WordChar, UnicodeOk, SkipGap;
      RestStart(u, parts, last);
      RenderRead(u, parts[1..], last);
      TokenRead(u, t, rest);
      TokenStart(u, t, rest);
      GapSkipped(parts[0].0, Text(t) + rest);
      LexStep(u, Render(parts, last));
      assert TokensOf(parts) == [t] + TokensOf(parts[1..]);
    }
  }

  /** What follows a word does not run into it. */
  lemma RestStart(u: Unicode, parts: seq<(string, Token)>, last: string)
    requires UnicodeOk(u) && GapsOk(parts) && EndGap(last) && parts != []
    ensures GapsOk(parts[1..])
    ensures IsWord(parts[0].1) ==> var s := Render(parts[1..], last); s == [] || !WordChar(u, s[0])
  {
    if |parts| == 1 {
      if last != [] {
        GapStart(u, last);
      }
    } else {
      var next := parts[1..];
      if next[0].0 != [] {
        GapStart(u, next[0].0);
      } else {
        TokenStart(u, next[0].1, Render(next[1..], last));
        assert Render(next, last) == Text(next[0].1) + Render(next[1..], last);
        assert parts[1] == next[0] && IsWord(parts[1 - 1].1) ==> !IsWord(next[0].1) && !next[0].1.HexStr?;
      }
    }
  }

  /* ---- the lexer ---- */

  class Lexer {
    const u: Unicode
    const input: string
    var pos: nat

    ghost predicate Valid()
      reads this
    {
      pos <= |input|
    }

    ghost function Rest(): string
      reads this
      requires Valid()
    {
      input[pos..]
    }

    constructor (u: Unicode, input: string)
      ensures Valid() && this.u == u && Rest() == input
    {
      this.u, this.input, pos := u, input, 0;
    }

    method Peek() returns (c: Option<char>)
      requires Valid()
      ensures if Rest() == [] then c == None else c == Some(Rest()[0])
    {
      c := if pos < |input| then Some(input[pos]) else None;
    }

    method Advance() returns (c: Option<char>)
      requires Valid()
      modifies this
      ensures Valid()
      ensures if old(Rest()) == [] then c == None && Rest() == [] else c == Some(old(Rest())[0]) && Rest() == old(Rest())[1..]
    {
      c := Peek();
      if c.Some? {
        pos := pos + 1;
      }
    }

    /** read_string. */
    method ReadString() returns (text: Option<string>)
      requires Valid()
      modifies this
      ensures Valid()
      ensures var r := StringOf(old(Rest()));
              if r.None? then text == None else text == Some(r.value.0) && Rest() == r.value.1
    {
      var str := "";
      ghost var s := Rest();
      BehindNothing(StringOf(s));
      while true
        invariant Valid() && StringOf(s) == Behind(str, StringOf(Rest()))
        decreases |input| - pos
      {
        ghost var before := Rest();
        var c := Advance();
        match c
        case Some(ch) =>
          if ch == '"' {
            assert str + "" == str;
            return Some(str);
          }
          BehindMore(str, ch, StringOf(before[1..]));
          str := str + [ch];
        case None =>
          return None;
      }
    }

    /** The whitespace and comment loop of tokenize. */
    method SkipGaps()
      requires Valid()
      modifies this
      ensures Valid() && Rest() == SkipGap(old(Rest()))
    {
      ghost var s := Rest();
      var c := Peek();
      while c.Some? && (c.value == '#' || Whitespace(c.value))
        invariant Valid() && SkipGap(Rest()) == SkipGap(s)
        invariant if Rest() == [] then c == None else c == Some(Rest()[0])
        decreases |input| - pos
      {
        ghost var before := Rest();
        if c.value == '#' {
          while c.Some? && c.value != '\n'
            invariant Valid() && SkipLine(Rest()) == SkipLine(before)
            invariant if Rest() == [] then c == None else c == Some(Rest()[0])
            decreases |input| - pos
          {
            c := Advance();
            c := Peek();
          }
        } else {
          c := Advance();
          c := Peek();
        }
      }
    }

    /** The word loop of tokenize. */
    method Word() returns (entry: string)
      requires Valid()
      modifies this
      ensures Valid() && entry + Rest() == old(Rest()) && (entry, Rest()) == WordOf(u, old(Rest()))
    {
      entry := "";
      ghost var s := Rest();
      BehindNothing(Some(WordOf(u, s)));
      var c := Peek();
      while c.Some? && WordChar(u, c.value)
        invariant Valid() && Some(WordOf(u, s)) == Behind(entry, Some(WordOf(u, Rest())))
        invariant if Rest() == [] then c == None else c == Some(Rest()[0])
        decreases |input| - pos
      {
        BehindMore(entry, c.value, Some(WordOf(u, Rest()[1..])));
        entry := entry + [c.value];
        c := Advance();
        c := Peek();
      }
      assert entry + "" == entry;
    }

    /** The match of tokenize: one token. */
    method ReadToken() returns (token: Option<Token>)
      requires Valid() && Rest() != []
      modifies this
      ensures Valid()
      ensures var one := LexOne(u, old(Rest()));
              if one.None? then token == None else token == Some(one.value.0) && Rest() == one.value.1
    {
      var c := Peek();
      ghost var s := Rest();
      token := None;
      match c.value
      case ':' => c := Advance(); token := Some(Colon);
      case ',' => c := Advance(); token := Some(Comma);
      case '{' => c := Advance(); token := Some(OpenBrace);
      case '}' => c := Advance(); token := Some(CloseBrace);
      case 'x' =>
        c := Advance();
        c := Peek();
        if c == Some('"') {
          c := Advance();
          assert Rest() == s[2..];
          var text := ReadString();
          token := if text.Some? then Some(HexStr(text.value)) else None;
        }
      case '"' =>
        c := Advance();
        var text := ReadString();
        token := if text.Some? then Some(Str(text.value)) else None;
      case ch =>
        if u.alphabetic(ch) || ch == '_' {
          var word := Word();
          token := WordToken(word);
        }
    }

    method Tokenize() returns (tokens: Option<seq<Token>>)
      requires Valid()
      modifies this
      ensures tokens == Lex(u, old(Rest()))
    {
      hide LexOne, Lex, SkipGap;
      ghost var s := Rest();
      var found := [];
      AfterNothing(Lex(u, s));
      while true
        invariant Valid() && Lex(u, s) == After(found, Lex(u, Rest()))
        decreases |input| - pos
      {
        LexStep(u, Rest());
        SkipGaps();
        var c := Peek();
        if c.None? {
          assert found + [] == found;
          return Some(found);
        }
        var token := ReadToken();
        if token.None? {
          return None;
        }
        AfterMore(found, token.value, Lex(u, Rest()));
        found := found + [token.value];
      }
    }
  }
}
